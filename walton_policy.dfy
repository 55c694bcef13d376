/**
 * The pricing-policy editor of src/components/WaltonPolicy.tsx: a list of
 * nested rule groups, each with a name, a type and a free-form config,
 * edited by copy-on-write walkers, pruned by an in-place filter, and given
 * fresh ids `group-<n>` from a counter.
 */
module WaltonPolicy {
  import opened Wrappers
  import opened Decimal
  import TreeQueries

  /** A config entry: the editors store strings and numbers. */
  datatype ConfigValue = Text(s: string) | Num(n: int)

  /** `RuleConfig`: any string key. */
  type Config = map<string, ConfigValue>

  /** `RuleGroup`; the TypeScript field `type` is `groupType` here. */
  datatype PolicyGroup = PolicyGroup(id: string, name: string, groupType: string, config: Config, children: seq<PolicyGroup>)

  /** `Partial<RuleGroup>`: every field may be left out. */
  datatype GroupPatch = GroupPatch(
    id: Option<string>,
    name: Option<string>,
    groupType: Option<string>,
    config: Option<Config>,
    children: Option<seq<PolicyGroup>>)

  /* ---------------- ids ---------------- */

  /** Every id of the group and its descendants, in pre-order. */
  function Ids(g: PolicyGroup): (r: seq<string>)
    ensures |r| > 0 && r[0] == g.id
    decreases g
  {
    [g.id] + IdsIn(g.children)
  }

  function IdsIn(gs: seq<PolicyGroup>): seq<string>
    decreases gs
  {
    if gs == [] then [] else IdsIn(gs[..|gs| - 1]) + Ids(gs[|gs| - 1])
  }

  lemma IdsInSnoc(gs: seq<PolicyGroup>, g: PolicyGroup)
    ensures IdsIn(gs + [g]) == IdsIn(gs) + Ids(g)
  {
    assert (gs + [g])[..|gs|] == gs;
  }

  /** The ids below one group of a list are ids of the list. */
  lemma {:induction false} IdsInElement(gs: seq<PolicyGroup>, i: nat)
    requires i < |gs|
    ensures forall s :: s in Ids(gs[i]) ==> s in IdsIn(gs)
    decreases gs
  {
    if i < |gs| - 1 {
      IdsInElement(gs[..|gs| - 1], i);
    }
  }

  /** Lists whose groups have the same ids, place by place, have the same ids. */
  lemma {:induction false} IdsInPointwise(a: seq<PolicyGroup>, b: seq<PolicyGroup>)
    requires |a| == |b|
    requires forall i :: 0 <= i < |a| ==> Ids(a[i]) == Ids(b[i])
    ensures IdsIn(a) == IdsIn(b)
    decreases |a|
  {
    if a != [] {
      IdsInPointwise(a[..|a| - 1], b[..|b| - 1]);
    }
  }

  /** The top-level ids, in order. */
  function Tops(gs: seq<PolicyGroup>): (r: seq<string>)
    ensures |r| == |gs|
  {
    seq(|gs|, i requires 0 <= i < |gs| => gs[i].id)
  }

  /** `ss` without the occurrences of `x`, the others in their order. */
  function Without(ss: seq<string>, x: string): (r: seq<string>)
    ensures x !in r
    ensures forall s :: s in r ==> s in ss
  {
    if ss == [] then []
    else Without(ss[..|ss| - 1], x) + (if ss[|ss| - 1] == x then [] else [ss[|ss| - 1]])
  }

  /** The group reached by following child indexes from a list, if the indexes exist. */
  function At(gs: seq<PolicyGroup>, path: seq<nat>): Option<PolicyGroup>
    decreases |path|
  {
    if path == [] || path[0] >= |gs| then None
    else if |path| == 1 then Some(gs[path[0]])
    else At(gs[path[0]].children, path[1..])
  }

  /** No group strictly above the end of the path has the id `id`. */
  predicate Open(gs: seq<PolicyGroup>, path: seq<nat>, id: string)
    decreases |path|
  {
    || |path| <= 1
    || (path[0] < |gs| && gs[path[0]].id != id && Open(gs[path[0]].children, path[1..], id))
  }

  /* ---------------- addGroup ---------------- */

  /** The id `addGroup` gives the group it creates while the counter is `k`. */
  function GroupId(k: nat): (s: string)
    ensures |s| > 6 && s[..6] == "group-"
  {
    "group-" + NatToString(k)
  }

  /** Different counter values give different ids. */
  lemma GroupIdInjective(j: nat, k: nat)
    requires GroupId(j) == GroupId(k)
    ensures j == k
  {
    assert GroupId(j)[6..] == NatToString(j);
    assert GroupId(k)[6..] == NatToString(k);
    NatToStringInjective(j, k);
  }

  /** The group `addGroup` appends: empty name, type, config and children. */
  function NewGroup(id: string): (g: PolicyGroup)
    ensures g.id == id && Ids(g) == [id]
    ensures g.name == "" && g.groupType == "" && g.config == map[] && g.children == []
  {
    PolicyGroup(id, "", "", map[], [])
  }

  /** `id` was handed out by a counter that now reads `counter`. */
  ghost predicate Issued(id: string, counter: nat)
  {
    exists k: nat :: 1 <= k < counter && id == GroupId(k)
  }

  /** An id issued before the counter reached `counter` differs from the id the counter gives now. */
  lemma IssuedIsNotNext(id: string, counter: nat)
    requires Issued(id, counter)
    ensures id != GroupId(counter)
  {
    var k: nat :| 1 <= k < counter && id == GroupId(k);
    if id == GroupId(counter) {
      GroupIdInjective(k, counter);
    }
  }

  /* ---------------- updateGroup and updatePriceType ---------------- */

  /**
   * The walker both `updateNestedGroups` and `updateGroupConfig` are: each
   * group whose id matches is replaced by `f` of it, without looking into
   * it; any other group with children gets its children walked.
   */
  function MapMatching(gs: seq<PolicyGroup>, id: string, f: PolicyGroup -> PolicyGroup): (r: seq<PolicyGroup>)
    ensures |r| == |gs|
    ensures forall i :: 0 <= i < |gs| && gs[i].id == id ==> r[i] == f(gs[i])
    ensures forall i :: 0 <= i < |gs| && gs[i].id != id ==>
              r[i].id == gs[i].id && r[i].name == gs[i].name && r[i].groupType == gs[i].groupType
              && r[i].config == gs[i].config && |r[i].children| == |gs[i].children|
    decreases gs
  {
    seq(|gs|, i requires 0 <= i < |gs| => MapOne(gs[i], id, f))
  }

  function MapOne(g: PolicyGroup, id: string, f: PolicyGroup -> PolicyGroup): (r: PolicyGroup)
    ensures g.id == id ==> r == f(g)
    ensures g.id != id ==>
              r.id == g.id && r.name == g.name && r.groupType == g.groupType
              && r.config == g.config && |r.children| == |g.children|
    decreases g
  {
    if g.id == id then f(g)
    else if |g.children| > 0 then g.(children := MapMatching(g.children, id, f))
    else g
  }

  /**
   * At any depth: a group reached without passing through a group with the
   * id is replaced by `f` of it when it has the id, and otherwise keeps its
   * id, name, type, config and number of children.
   */
  lemma {:induction false} MapMatchingAt(gs: seq<PolicyGroup>, id: string, f: PolicyGroup -> PolicyGroup, path: seq<nat>)
    requires At(gs, path).Some? && Open(gs, path, id)
    ensures At(MapMatching(gs, id, f), path).Some?
    ensures var g, h := At(gs, path).value, At(MapMatching(gs, id, f), path).value;
            && (g.id == id ==> h == f(g))
            && (g.id != id ==>
                  h.id == g.id && h.name == g.name && h.groupType == g.groupType
                  && h.config == g.config && |h.children| == |g.children|)
    decreases |path|
  {
    if |path| > 1 {
      var g := gs[path[0]];
      assert MapMatching(gs, id, f)[path[0]] == g.(children := MapMatching(g.children, id, f));
      MapMatchingAt(g.children, id, f, path[1..]);
    }
  }

  /** When no group has the id, the walk returns the list it was given. */
  lemma {:induction false} MapMatchingNoMatch(gs: seq<PolicyGroup>, id: string, f: PolicyGroup -> PolicyGroup)
    requires id !in IdsIn(gs)
    ensures MapMatching(gs, id, f) == gs
    decreases gs
  {
    forall i | 0 <= i < |gs|
      ensures MapOne(gs[i], id, f) == gs[i]
    {
      IdsInElement(gs, i);
      MapOneNoMatch(gs[i], id, f);
    }
  }

  lemma {:induction false} MapOneNoMatch(g: PolicyGroup, id: string, f: PolicyGroup -> PolicyGroup)
    requires id !in Ids(g)
    ensures MapOne(g, id, f) == g
    decreases g
  {
    if |g.children| > 0 {
      MapMatchingNoMatch(g.children, id, f);
    }
  }

  /** A replacement that keeps ids and children keeps every id of the forest, in order. */
  lemma {:induction false} MapMatchingKeepsIds(gs: seq<PolicyGroup>, id: string, f: PolicyGroup -> PolicyGroup)
    requires forall g: PolicyGroup :: f(g).id == g.id && f(g).children == g.children
    ensures IdsIn(MapMatching(gs, id, f)) == IdsIn(gs)
    decreases gs
  {
    var r := MapMatching(gs, id, f);
    forall i | 0 <= i < |gs|
      ensures Ids(r[i]) == Ids(gs[i])
    {
      MapOneKeepsIds(gs[i], id, f);
    }
    IdsInPointwise(r, gs);
  }

  lemma {:induction false} MapOneKeepsIds(g: PolicyGroup, id: string, f: PolicyGroup -> PolicyGroup)
    requires forall g: PolicyGroup :: f(g).id == g.id && f(g).children == g.children
    ensures Ids(MapOne(g, id, f)) == Ids(g)
    decreases g
  {
    if g.id != id && |g.children| > 0 {
      MapMatchingKeepsIds(g.children, id, f);
    }
  }

  /** A replacement that keeps the id and settles after one application makes the walk idempotent. */
  lemma {:induction false} MapMatchingIdempotent(gs: seq<PolicyGroup>, id: string, f: PolicyGroup -> PolicyGroup)
    requires forall g: PolicyGroup :: g.id == id ==> f(g).id == id && f(f(g)) == f(g)
    ensures MapMatching(MapMatching(gs, id, f), id, f) == MapMatching(gs, id, f)
    decreases gs
  {
    var r := MapMatching(gs, id, f);
    forall i | 0 <= i < |gs|
      ensures MapOne(r[i], id, f) == r[i]
    {
      MapOneIdempotent(gs[i], id, f);
    }
  }

  lemma {:induction false} MapOneIdempotent(g: PolicyGroup, id: string, f: PolicyGroup -> PolicyGroup)
    requires forall g: PolicyGroup :: g.id == id ==> f(g).id == id && f(f(g)) == f(g)
    ensures MapOne(MapOne(g, id, f), id, f) == MapOne(g, id, f)
    decreases g
  {
    if g.id != id && |g.children| > 0 {
      MapMatchingIdempotent(g.children, id, f);
    }
  }

  /** `{ ...group, ...updatedData }`: a field the patch gives wins, every other is kept. */
  function MergePatch(g: PolicyGroup, p: GroupPatch): (r: PolicyGroup)
    ensures r.id == (if p.id.Some? then p.id.value else g.id)
    ensures r.name == (if p.name.Some? then p.name.value else g.name)
    ensures r.groupType == (if p.groupType.Some? then p.groupType.value else g.groupType)
    ensures r.config == (if p.config.Some? then p.config.value else g.config)
    ensures r.children == (if p.children.Some? then p.children.value else g.children)
  {
    PolicyGroup(
      if p.id.Some? then p.id.value else g.id,
      if p.name.Some? then p.name.value else g.name,
      if p.groupType.Some? then p.groupType.value else g.groupType,
      if p.config.Some? then p.config.value else g.config,
      if p.children.Some? then p.children.value else g.children)
  }

  /** `updateNestedGroups` of `updateGroup(id, updatedData)`. */
  function UpdateNestedGroups(gs: seq<PolicyGroup>, id: string, patch: GroupPatch): seq<PolicyGroup>
  {
    MapMatching(gs, id, (g: PolicyGroup) => MergePatch(g, patch))
  }

  /** A patch naming no group changes nothing. */
  lemma UpdateNestedGroupsNoMatch(gs: seq<PolicyGroup>, id: string, patch: GroupPatch)
    requires id !in IdsIn(gs)
    ensures UpdateNestedGroups(gs, id, patch) == gs
  {
    MapMatchingNoMatch(gs, id, (g: PolicyGroup) => MergePatch(g, patch));
  }

  /**
   * At any depth, each group with the id that no group with the id encloses
   * gets the patch merged in; every other group on the way keeps its fields.
   */
  lemma UpdateNestedGroupsAt(gs: seq<PolicyGroup>, id: string, patch: GroupPatch, path: seq<nat>)
    requires At(gs, path).Some? && Open(gs, path, id)
    ensures At(UpdateNestedGroups(gs, id, patch), path).Some?
    ensures var g, h := At(gs, path).value, At(UpdateNestedGroups(gs, id, patch), path).value;
            && (g.id == id ==> h == MergePatch(g, patch))
            && (g.id != id ==> h.id == g.id && h.name == g.name && h.groupType == g.groupType && h.config == g.config)
  {
    MapMatchingAt(gs, id, (g: PolicyGroup) => MergePatch(g, patch), path);
  }

  /** Applying a patch that keeps the id twice is applying it once. */
  lemma UpdateNestedGroupsIdempotent(gs: seq<PolicyGroup>, id: string, patch: GroupPatch)
    requires patch.id.None? || patch.id == Some(id)
    ensures UpdateNestedGroups(UpdateNestedGroups(gs, id, patch), id, patch) == UpdateNestedGroups(gs, id, patch)
  {
    var f := (g: PolicyGroup) => MergePatch(g, patch);
    forall g: PolicyGroup | g.id == id
      ensures f(g).id == id && f(f(g)) == f(g)
    {
    }
    MapMatchingIdempotent(gs, id, f);
  }

  /** A patch that sets neither id nor children leaves every id in place. */
  lemma UpdateNestedGroupsKeepsIds(gs: seq<PolicyGroup>, id: string, patch: GroupPatch)
    requires patch.id.None? && patch.children.None?
    ensures IdsIn(UpdateNestedGroups(gs, id, patch)) == IdsIn(gs)
  {
    MapMatchingKeepsIds(gs, id, (g: PolicyGroup) => MergePatch(g, patch));
  }

  /** `defaultConfigForPriceType`. */
  function DefaultConfigForPriceType(priceType: string): (r: Config)
    ensures "priceType" in r && r["priceType"] == Text(priceType)
    ensures r.Keys <= {"priceType", "hireCashPercentage", "hmrpPercentage", "outstandingPercentage",
                       "downPaymentPercentage", "hireDuration"}
  {
    match priceType
    case "hireCash" => map["priceType" := Text(priceType), "hireCashPercentage" := Num(2)]
    case "hmrp" => map["priceType" := Text(priceType), "hmrpPercentage" := Num(9)]
    case "hireOutstanding" =>
      map["priceType" := Text(priceType), "outstandingPercentage" := Num(16),
          "downPaymentPercentage" := Num(20), "hireDuration" := Num(12)]
    case "hireValue" => map["priceType" := Text(priceType), "hireDuration" := Num(12)]
    case _ => map["priceType" := Text(priceType)]
  }

  /** The replacement `updateGroupConfig` makes: the config spread, then the defaults. */
  function SetPriceType(g: PolicyGroup, priceType: string): (r: PolicyGroup)
    ensures r.id == g.id && r.name == g.name && r.groupType == g.groupType && r.children == g.children
  {
    g.(config := g.config + DefaultConfigForPriceType(priceType))
  }

  /** Every old key stays, `priceType` is set, defaults win, other values are kept. */
  lemma SetPriceTypeConfig(g: PolicyGroup, priceType: string)
    ensures g.config.Keys <= SetPriceType(g, priceType).config.Keys
    ensures SetPriceType(g, priceType).config["priceType"] == Text(priceType)
    ensures forall k :: k in DefaultConfigForPriceType(priceType) ==>
              SetPriceType(g, priceType).config[k] == DefaultConfigForPriceType(priceType)[k]
    ensures forall k :: k in g.config && k !in DefaultConfigForPriceType(priceType) ==>
              SetPriceType(g, priceType).config[k] == g.config[k]
  {
  }

  /** `hireOutstanding` brings 16 % load, 20 % down payment and 12 months. */
  lemma HireOutstandingDefaults(g: PolicyGroup)
    ensures SetPriceType(g, "hireOutstanding").config["outstandingPercentage"] == Num(16)
    ensures SetPriceType(g, "hireOutstanding").config["downPaymentPercentage"] == Num(20)
    ensures SetPriceType(g, "hireOutstanding").config["hireDuration"] == Num(12)
  {
  }

  /** An unknown price type sets `priceType` and nothing else. */
  lemma UnknownPriceType(g: PolicyGroup, priceType: string)
    requires priceType !in {"hireCash", "hmrp", "hireOutstanding", "hireValue"}
    ensures SetPriceType(g, priceType).config == g.config["priceType" := Text(priceType)]
  {
  }

  /** `updateGroupConfig` of `updatePriceType(parentId, priceType)`. */
  function UpdateGroupConfig(gs: seq<PolicyGroup>, parentId: string, priceType: string): seq<PolicyGroup>
  {
    MapMatching(gs, parentId, (g: PolicyGroup) => SetPriceType(g, priceType))
  }

  lemma UpdateGroupConfigNoMatch(gs: seq<PolicyGroup>, parentId: string, priceType: string)
    requires parentId !in IdsIn(gs)
    ensures UpdateGroupConfig(gs, parentId, priceType) == gs
  {
    MapMatchingNoMatch(gs, parentId, (g: PolicyGroup) => SetPriceType(g, priceType));
  }

  /** Choosing the same price type again changes nothing more. */
  lemma UpdateGroupConfigIdempotent(gs: seq<PolicyGroup>, parentId: string, priceType: string)
    ensures UpdateGroupConfig(UpdateGroupConfig(gs, parentId, priceType), parentId, priceType)
         == UpdateGroupConfig(gs, parentId, priceType)
  {
    var f := (g: PolicyGroup) => SetPriceType(g, priceType);
    forall g: PolicyGroup | g.id == parentId
      ensures f(g).id == parentId && f(f(g)) == f(g)
    {
      var d := DefaultConfigForPriceType(priceType);
      assert g.config + d + d == g.config + d;
    }
    MapMatchingIdempotent(gs, parentId, f);
  }

  /**
   * At any depth, each group with the id that no group with the id encloses
   * gets the price type's defaults; every other group on the way keeps its config.
   */
  lemma UpdateGroupConfigAt(gs: seq<PolicyGroup>, parentId: string, priceType: string, path: seq<nat>)
    requires At(gs, path).Some? && Open(gs, path, parentId)
    ensures At(UpdateGroupConfig(gs, parentId, priceType), path).Some?
    ensures var g, h := At(gs, path).value, At(UpdateGroupConfig(gs, parentId, priceType), path).value;
            && (g.id == parentId ==> h == g.(config := g.config + DefaultConfigForPriceType(priceType)))
            && (g.id != parentId ==> h.id == g.id && h.config == g.config)
  {
    MapMatchingAt(gs, parentId, (g: PolicyGroup) => SetPriceType(g, priceType), path);
  }

  lemma UpdateGroupConfigKeepsIds(gs: seq<PolicyGroup>, parentId: string, priceType: string)
    ensures IdsIn(UpdateGroupConfig(gs, parentId, priceType)) == IdsIn(gs)
  {
    MapMatchingKeepsIds(gs, parentId, (g: PolicyGroup) => SetPriceType(g, priceType));
  }

  /* ---------------- handleTypeChange ---------------- */

  /** `getDefaultConfigForType`. */
  function GetDefaultConfigForType(groupType: string): (r: Config)
    ensures groupType !in {"price", "duration", "processingFees"} <==> r == map[]
  {
    match groupType
    case "price" =>
      var m := map["productType" := Text("general"), "priceType" := Text("")];
      assert "productType" in m;
      m
    case "duration" =>
      var m := map["durationType" := Text("monthly"), "duration" := Num(12)];
      assert "durationType" in m;
      m
    case "processingFees" =>
      var m := map["feeType" := Text("percentage"), "feeValue" := Num(2)];
      assert "feeType" in m;
      m
    case _ => map[]
  }

  /** `getDefaultNameForType`: never empty. */
  function GetDefaultNameForType(groupType: string): (r: string)
    ensures r != ""
  {
    match groupType
    case "price" => "Price Group"
    case "duration" => "Duration Group"
    case "processingFees" => "Processing Fees Group"
    case _ => "New Group"
  }

  /**
   * The patch `handleTypeChange` hands to `updateGroup` for the displayed
   * `group`: the new type, that type's default config, and the name kept
   * when non-empty or else the type's default name.
   */
  function TypeChangePatch(group: PolicyGroup, newType: string): (p: GroupPatch)
    ensures p.id.None? && p.children.None?
    ensures p.groupType == Some(newType) && p.config == Some(GetDefaultConfigForType(newType))
    ensures p.name.Some? && p.name.value != ""
    ensures group.name != "" ==> p.name == Some(group.name)
  {
    GroupPatch(
      None,
      Some(if group.name != "" then group.name else GetDefaultNameForType(newType)),
      Some(newType),
      Some(GetDefaultConfigForType(newType)),
      None)
  }

  /** `handleNameChange`: the patch that sets the name only. */
  function NameChangePatch(name: string): (p: GroupPatch)
    ensures p.name == Some(name)
    ensures p.id.None? && p.groupType.None? && p.config.None? && p.children.None?
  {
    GroupPatch(None, Some(name), None, None, None)
  }

  /* ---------------- removeGroup ---------------- */

  /**
   * What `removeGroupById` returns: the groups without the id, in order,
   * each surviving group with children pruned the same way.
   */
  function Removed(gs: seq<PolicyGroup>, id: string): (r: seq<PolicyGroup>)
    ensures |r| <= |gs|
    ensures forall i :: 0 <= i < |r| ==> r[i].id != id
    decreases gs
  {
    if gs == [] then []
    else
      var last := gs[|gs| - 1];
      Removed(gs[..|gs| - 1], id) + (if last.id == id then [] else [Pruned(last, id)])
  }

  /** A surviving group: `group.children = removeGroupById(group.children)` when it has children. */
  function Pruned(g: PolicyGroup, id: string): (r: PolicyGroup)
    ensures r.id == g.id && r.name == g.name && r.groupType == g.groupType && r.config == g.config
    ensures |g.children| > 0 ==> r.children == Removed(g.children, id)
    ensures g.children == [] ==> r == g
    decreases g
  {
    if |g.children| > 0 then g.(children := Removed(g.children, id)) else g
  }

  /** `removeGroupById`: the filter loop, pruning each survivor before keeping it. */
  method RemoveGroupById(groups: seq<PolicyGroup>, id: string) returns (kept: seq<PolicyGroup>)
    ensures kept == Removed(groups, id)
    decreases groups
  {
    kept := [];
    for i := 0 to |groups|
      invariant kept == Removed(groups[..i], id)
    {
      var group := groups[i];
      assert groups[..i + 1][..i] == groups[..i];
      if group.id != id {
        if |group.children| > 0 {
          var children := RemoveGroupById(group.children, id);
          group := group.(children := children);
        }
        kept := kept + [group];
      }
    }
    assert groups[..|groups|] == groups;
  }

  /** Removing an id nobody has returns the list unchanged. */
  lemma {:induction false} RemovedNoMatch(gs: seq<PolicyGroup>, id: string)
    requires id !in IdsIn(gs)
    ensures Removed(gs, id) == gs
    decreases gs
  {
    if gs != [] {
      var init, last := gs[..|gs| - 1], gs[|gs| - 1];
      assert IdsIn(gs) == IdsIn(init) + Ids(last);
      RemovedNoMatch(init, id);
      PrunedNoMatch(last, id);
      assert Removed(gs, id) == init + [last];
      assert gs == init + [last];
    }
  }

  lemma {:induction false} PrunedNoMatch(g: PolicyGroup, id: string)
    requires id !in Ids(g)
    ensures Pruned(g, id) == g
    decreases g
  {
    if |g.children| > 0 {
      RemovedNoMatch(g.children, id);
    }
  }

  /** After removal the id occurs nowhere in the forest. */
  lemma {:induction false} RemovedGone(gs: seq<PolicyGroup>, id: string)
    ensures id !in IdsIn(Removed(gs, id))
    decreases gs
  {
    if gs != [] {
      var init, last := gs[..|gs| - 1], gs[|gs| - 1];
      RemovedGone(init, id);
      if last.id != id {
        PrunedGone(last, id);
        IdsInSnoc(Removed(init, id), Pruned(last, id));
      } else {
        assert Removed(init, id) + [] == Removed(init, id);
        assert Removed(gs, id) == Removed(init, id);
      }
    }
  }

  lemma {:induction false} PrunedGone(g: PolicyGroup, id: string)
    requires g.id != id
    ensures id !in Ids(Pruned(g, id))
    decreases g
  {
    if |g.children| > 0 {
      RemovedGone(g.children, id);
    }
  }

  /** Removal only drops groups: every id left was there before. */
  lemma {:induction false} RemovedIdsSubset(gs: seq<PolicyGroup>, id: string)
    ensures forall s :: s in IdsIn(Removed(gs, id)) ==> s in IdsIn(gs)
    decreases gs
  {
    if gs != [] {
      var init, last := gs[..|gs| - 1], gs[|gs| - 1];
      RemovedIdsSubset(init, id);
      assert IdsIn(gs) == IdsIn(init) + Ids(last);
      if last.id != id {
        PrunedIdsSubset(last, id);
        IdsInSnoc(Removed(init, id), Pruned(last, id));
      } else {
        assert Removed(init, id) + [] == Removed(init, id);
        assert Removed(gs, id) == Removed(init, id);
      }
    }
  }

  lemma {:induction false} PrunedIdsSubset(g: PolicyGroup, id: string)
    ensures forall s :: s in Ids(Pruned(g, id)) ==> s in Ids(g)
    decreases g
  {
    if |g.children| > 0 {
      RemovedIdsSubset(g.children, id);
    }
  }

  /** Surviving top-level groups keep their relative order. */
  lemma {:induction false} RemovedTops(gs: seq<PolicyGroup>, id: string)
    ensures Tops(Removed(gs, id)) == Without(Tops(gs), id)
    decreases gs
  {
    if gs != [] {
      var init, last := gs[..|gs| - 1], gs[|gs| - 1];
      RemovedTops(init, id);
      assert Tops(gs)[..|gs| - 1] == Tops(init);
      var r := Removed(init, id);
      if last.id != id {
        assert Tops(r + [Pruned(last, id)]) == Tops(r) + [last.id];
      } else {
        assert r + [] == r;
      }
    }
  }

  /** Every group of the result is a surviving input group, pruned. */
  lemma {:induction false} RemovedFrom(gs: seq<PolicyGroup>, id: string)
    ensures forall k :: 0 <= k < |Removed(gs, id)| ==>
              exists j :: 0 <= j < |gs| && gs[j].id != id && Removed(gs, id)[k] == Pruned(gs[j], id)
    decreases gs
  {
    if gs != [] {
      var init, last := gs[..|gs| - 1], gs[|gs| - 1];
      var r0, r := Removed(init, id), Removed(gs, id);
      RemovedFrom(init, id);
      assert r == r0 + (if last.id == id then [] else [Pruned(last, id)]);
      forall k | 0 <= k < |r|
        ensures exists j :: 0 <= j < |gs| && gs[j].id != id && r[k] == Pruned(gs[j], id)
      {
        if k < |r0| {
          var j :| 0 <= j < |init| && init[j].id != id && r0[k] == Pruned(init[j], id);
          assert gs[j] == init[j] && r[k] == r0[k];
        } else {
          assert gs[|gs| - 1].id != id && r[k] == Pruned(gs[|gs| - 1], id);
        }
      }
    } else {
      assert Removed(gs, id) == [];
    }
  }

  /** The ids of a surviving group, pruned, are ids of the result. */
  lemma {:induction false} RemovedKeepsElement(gs: seq<PolicyGroup>, id: string, i: nat)
    requires i < |gs| && gs[i].id != id
    ensures forall s :: s in Ids(Pruned(gs[i], id)) ==> s in IdsIn(Removed(gs, id))
    decreases gs
  {
    var init, last := gs[..|gs| - 1], gs[|gs| - 1];
    if i < |gs| - 1 {
      RemovedKeepsElement(init, id, i);
      assert init[i] == gs[i];
      if last.id != id {
        assert Removed(gs, id) == Removed(init, id) + [Pruned(last, id)];
        IdsInSnoc(Removed(init, id), Pruned(last, id));
      } else {
        assert Removed(init, id) + [] == Removed(init, id);
        assert Removed(gs, id) == Removed(init, id);
      }
    } else {
      assert gs[i] == last;
      assert Removed(gs, id) == Removed(init, id) + [Pruned(last, id)];
      IdsInSnoc(Removed(init, id), Pruned(last, id));
    }
  }

  /**
   * Removal takes no more than it should: a group with another id that no
   * group with the id encloses, at any depth, is still there.
   */
  lemma {:induction false} RemovedKeepsOpen(gs: seq<PolicyGroup>, id: string, path: seq<nat>)
    requires At(gs, path).Some? && Open(gs, path, id) && At(gs, path).value.id != id
    ensures At(gs, path).value.id in IdsIn(Removed(gs, id))
    decreases |path|
  {
    var g := gs[path[0]];
    RemovedKeepsElement(gs, id, path[0]);
    if |path| > 1 {
      RemovedKeepsOpen(g.children, id, path[1..]);
      assert Ids(Pruned(g, id)) == [g.id] + IdsIn(Removed(g.children, id));
    }
  }

  /** Removal keeps the ids of a forest pairwise distinct: it only drops whole subtrees. */
  lemma {:induction false} RemovedKeepsDistinct(gs: seq<PolicyGroup>, id: string)
    requires TreeQueries.Distinct(IdsIn(gs))
    ensures TreeQueries.Distinct(IdsIn(Removed(gs, id)))
    decreases gs
  {
    if gs != [] {
      var init, last := gs[..|gs| - 1], gs[|gs| - 1];
      assert IdsIn(gs) == IdsIn(init) + Ids(last);
      TreeQueries.DistinctConcat(IdsIn(init), Ids(last));
      RemovedKeepsDistinct(init, id);
      if last.id != id {
        PrunedKeepsDistinct(last, id);
        RemovedIdsSubset(init, id);
        PrunedIdsSubset(last, id);
        assert Removed(gs, id) == Removed(init, id) + [Pruned(last, id)];
        IdsInSnoc(Removed(init, id), Pruned(last, id));
        TreeQueries.DistinctJoin(IdsIn(Removed(init, id)), Ids(Pruned(last, id)));
      } else {
        assert Removed(init, id) + [] == Removed(init, id);
        assert Removed(gs, id) == Removed(init, id);
      }
    }
  }

  lemma {:induction false} PrunedKeepsDistinct(g: PolicyGroup, id: string)
    requires TreeQueries.Distinct(Ids(g))
    ensures TreeQueries.Distinct(Ids(Pruned(g, id)))
    decreases g
  {
    if |g.children| > 0 {
      TreeQueries.DistinctConcat([g.id], IdsIn(g.children));
      RemovedKeepsDistinct(g.children, id);
      RemovedIdsSubset(g.children, id);
      TreeQueries.DistinctJoin([g.id], IdsIn(Removed(g.children, id)));
    }
  }

  /* ---------------- the component's state ---------------- */

  /** The two state cells of the component: the forest and the id counter. */
  class PolicyBuilder {
    var ruleGroups: seq<PolicyGroup>
    var idCounter: nat

    /**
     * Every id in the forest came from the counter before its current value,
     * and no two groups share an id.
     */
    ghost predicate Valid()
      reads this
    {
      && idCounter >= 1
      && (forall s :: s in IdsIn(ruleGroups) ==> Issued(s, idCounter))
      && TreeQueries.Distinct(IdsIn(ruleGroups))
    }

    constructor ()
      ensures Valid()
      ensures ruleGroups == [] && idCounter == 1
    {
      ruleGroups := [];
      idCounter := 1;
    }

    /** `addGroup`: append a fresh empty group, then advance the counter. */
    method AddGroup()
      requires Valid()
      modifies this
      ensures Valid()
      ensures ruleGroups == old(ruleGroups) + [NewGroup(GroupId(old(idCounter)))]
      ensures idCounter == old(idCounter) + 1
      ensures GroupId(old(idCounter)) !in IdsIn(old(ruleGroups))
    {
      var id := GroupId(idCounter);
      if id in IdsIn(ruleGroups) {
        IssuedIsNotNext(id, idCounter);
      }
      IdsInSnoc(ruleGroups, NewGroup(id));
      TreeQueries.DistinctJoin(IdsIn(ruleGroups), [id]);
      ruleGroups := ruleGroups + [NewGroup(id)];
      idCounter := idCounter + 1;
      forall s | s in IdsIn(ruleGroups)
        ensures Issued(s, idCounter)
      {
        if s == id {
          assert 1 <= idCounter - 1 < idCounter && s == GroupId(idCounter - 1);
        } else {
          assert s in IdsIn(old(ruleGroups));
          var k: nat :| 1 <= k < old(idCounter) && s == GroupId(k);
          assert 1 <= k < idCounter;
        }
      }
    }

    /** `updateGroup(id, updatedData)`. */
    method UpdateGroup(id: string, patch: GroupPatch)
      modifies this
      ensures ruleGroups == UpdateNestedGroups(old(ruleGroups), id, patch)
      ensures idCounter == old(idCounter)
      ensures old(Valid()) && patch.id.None? && patch.children.None? ==> Valid()
    {
      if patch.id.None? && patch.children.None? {
        UpdateNestedGroupsKeepsIds(ruleGroups, id, patch);
      }
      ruleGroups := UpdateNestedGroups(ruleGroups, id, patch);
    }

    /** `updatePriceType(parentId, priceType)`. */
    method UpdatePriceType(parentId: string, priceType: string)
      modifies this
      ensures ruleGroups == UpdateGroupConfig(old(ruleGroups), parentId, priceType)
      ensures idCounter == old(idCounter)
      ensures old(Valid()) ==> Valid()
    {
      UpdateGroupConfigKeepsIds(ruleGroups, parentId, priceType);
      ruleGroups := UpdateGroupConfig(ruleGroups, parentId, priceType);
    }

    /** `removeGroup(id)`. */
    method RemoveGroup(id: string)
      modifies this
      ensures ruleGroups == Removed(old(ruleGroups), id)
      ensures idCounter == old(idCounter)
      ensures old(Valid()) ==> Valid()
    {
      RemovedIdsSubset(ruleGroups, id);
      if TreeQueries.Distinct(IdsIn(ruleGroups)) {
        RemovedKeepsDistinct(ruleGroups, id);
      }
      ruleGroups := RemoveGroupById(ruleGroups, id);
    }

    /** `handleTypeChange` of the displayed `group`. */
    method HandleTypeChange(group: PolicyGroup, newType: string)
      modifies this
      ensures ruleGroups == UpdateNestedGroups(old(ruleGroups), group.id, TypeChangePatch(group, newType))
      ensures idCounter == old(idCounter)
      ensures old(Valid()) ==> Valid()
    {
      UpdateGroup(group.id, TypeChangePatch(group, newType));
    }

    /** `handleNameChange` of the displayed `group`. */
    method HandleNameChange(group: PolicyGroup, name: string)
      modifies this
      ensures ruleGroups == UpdateNestedGroups(old(ruleGroups), group.id, NameChangePatch(name))
      ensures idCounter == old(idCounter)
      ensures old(Valid()) ==> Valid()
    {
      UpdateGroup(group.id, NameChangePatch(name));
    }
  }
}
