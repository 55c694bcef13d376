/**
 * The newer copy-on-write rule editor of src/components/improved_rule_builder.tsx:
 * the generic `updateTree` walker, the edit operations built on it, the
 * id-free JSON export, and the component state that the handlers replace.
 *
 * Ids come from `Math.random` in the source; here every operation that
 * creates a node takes the new id as a parameter.
 */
module ImprovedRuleBuilder {
  import opened Wrappers
  import opened Interfaces
  import opened TreeQueries
  import opened Seqs

  /** The id the handlers treat specially: the held root group's id. */
  const RootId: string := "root"

  /* ---------------- updateTree ---------------- */

  /**
   * `updateTree`: map over a child list, replacing every group whose id is
   * `groupId` by `updateFn` of it (without looking inside it) and rebuilding
   * every other group around its updated children. Conditions stay as they are.
   */
  function UpdateTree(children: seq<Node>, groupId: string, updateFn: Node -> Node): (r: seq<Node>)
    ensures |r| == |children|
    ensures forall i :: 0 <= i < |children| ==> Walked(children[i], r[i], groupId, updateFn)
    decreases children
  {
    seq(|children|, i requires 0 <= i < |children| => UpdateChild(children[i], groupId, updateFn))
  }

  /** The callback `updateTree` maps over the children. */
  function UpdateChild(child: Node, groupId: string, updateFn: Node -> Node): (r: Node)
    ensures Walked(child, r, groupId, updateFn)
    decreases child
  {
    if IsRuleGroup(child) then
      if child.id == groupId then updateFn(child)
      else child.(children := UpdateTree(EnsureArray(Array(child.children)), groupId, updateFn))
    else child
  }

  /**
   * What the walker does to one node it reaches: a condition stays as it is,
   * a group with the id becomes `updateFn` of it, and any other group keeps
   * its id, its operator and its number of children.
   */
  predicate Walked(n: Node, m: Node, groupId: string, updateFn: Node -> Node)
  {
    && (n.Cond? ==> m == n)
    && (n.Group? && n.id == groupId ==> m == updateFn(n))
    && (n.Group? && n.id != groupId ==> m.Group? && m.id == n.id && m.op == n.op && |m.children| == |n.children|)
  }

  /** An update function that keeps a matching group a group with that id. */
  ghost predicate KeepsGroup(groupId: string, f: Node -> Node)
  {
    forall x: Node :: x.Group? && x.id == groupId ==> f(x).Group? && f(x).id == groupId
  }

  lemma UpdateTreeTail(children: seq<Node>, groupId: string, f: Node -> Node)
    requires children != []
    ensures UpdateTree(children, groupId, f)[0] == UpdateChild(children[0], groupId, f)
    ensures UpdateTree(children, groupId, f)[1..] == UpdateTree(children[1..], groupId, f)
  {
  }

  /** With no group named `groupId`, `updateTree` returns an equal list. */
  lemma {:induction false} UpdateTreeNoMatch(children: seq<Node>, groupId: string, f: Node -> Node)
    requires groupId !in GroupIdsOf(children)
    ensures UpdateTree(children, groupId, f) == children
    decreases children
  {
    if children != [] {
      UpdateTreeTail(children, groupId, f);
      UpdateChildNoMatch(children[0], groupId, f);
      UpdateTreeNoMatch(children[1..], groupId, f);
      assert UpdateTree(children, groupId, f)
          == [UpdateTree(children, groupId, f)[0]] + UpdateTree(children, groupId, f)[1..];
    }
  }

  lemma {:induction false} UpdateChildNoMatch(child: Node, groupId: string, f: Node -> Node)
    requires groupId !in GroupIds(child)
    ensures UpdateChild(child, groupId, f) == child
    decreases child
  {
    if child.Group? {
      UpdateTreeNoMatch(child.children, groupId, f);
    }
  }

  /**
   * The first group named `groupId` in the result is `updateFn` of the first
   * one in the input; there is one in the result exactly when there is one in
   * the input.
   */
  lemma {:induction false} UpdateTreeFind(children: seq<Node>, groupId: string, f: Node -> Node)
    requires KeepsGroup(groupId, f)
    ensures FindGroupIn(UpdateTree(children, groupId, f), groupId)
         == (match FindGroupIn(children, groupId)
             case None => None
             case Some(g) => Some(f(g)))
    decreases children
  {
    if children != [] {
      UpdateTreeTail(children, groupId, f);
      UpdateChildFind(children[0], groupId, f);
      UpdateTreeFind(children[1..], groupId, f);
    }
  }

  lemma {:induction false} UpdateChildFind(child: Node, groupId: string, f: Node -> Node)
    requires KeepsGroup(groupId, f)
    ensures FindGroup(UpdateChild(child, groupId, f), groupId)
         == (match FindGroup(child, groupId)
             case None => None
             case Some(g) => Some(f(g)))
    decreases child
  {
    if child.Group? && child.id != groupId {
      UpdateTreeFind(child.children, groupId, f);
    }
  }

  /** Applying an idempotent, group-keeping update twice equals applying it once. */
  lemma {:induction false} UpdateTreeIdempotent(children: seq<Node>, groupId: string, f: Node -> Node)
    requires KeepsGroup(groupId, f)
    requires forall x: Node :: x.Group? && x.id == groupId ==> f(f(x)) == f(x)
    ensures UpdateTree(UpdateTree(children, groupId, f), groupId, f) == UpdateTree(children, groupId, f)
    decreases children
  {
    var once := UpdateTree(children, groupId, f);
    forall i | 0 <= i < |children|
      ensures UpdateChild(once[i], groupId, f) == once[i]
    {
      UpdateChildIdempotent(children[i], groupId, f);
    }
  }

  lemma {:induction false} UpdateChildIdempotent(child: Node, groupId: string, f: Node -> Node)
    requires KeepsGroup(groupId, f)
    requires forall x: Node :: x.Group? && x.id == groupId ==> f(f(x)) == f(x)
    ensures UpdateChild(UpdateChild(child, groupId, f), groupId, f) == UpdateChild(child, groupId, f)
    decreases child
  {
    if child.Group? && child.id != groupId {
      UpdateTreeIdempotent(child.children, groupId, f);
    }
  }

  /** No group strictly above the end of `path` has id `groupId`, so the walker descends all the way to that node. */
  predicate Reached(cs: seq<Node>, path: seq<nat>, groupId: string)
    decreases |path|
  {
    || |path| <= 1
    || (&& path[0] < |cs| && cs[path[0]].Group? && cs[path[0]].id != groupId
        && Reached(cs[path[0]].children, path[1..], groupId))
  }

  /**
   * At every depth the walker reaches, the node at the same path of the
   * result is what `Walked` says: other groups keep their id, operator and
   * number of children, so positions below them stay where they were.
   */
  lemma {:induction false} UpdateTreeAt(cs: seq<Node>, groupId: string, f: Node -> Node, path: seq<nat>)
    requires NodeAt(cs, path).Some? && Reached(cs, path, groupId)
    ensures NodeAt(UpdateTree(cs, groupId, f), path).Some?
    ensures Walked(NodeAt(cs, path).value, NodeAt(UpdateTree(cs, groupId, f), path).value, groupId, f)
    decreases |path|
  {
    if |path| > 1 {
      var c := cs[path[0]];
      var r := UpdateTree(cs, groupId, f);
      assert r[path[0]] == c.(children := UpdateTree(c.children, groupId, f));
      UpdateTreeAt(c.children, groupId, f, path[1..]);
    }
  }

  /* ---------------- adding nodes ---------------- */

  /** The condition `addCondition` creates, with the id the generator supplied. */
  function NewCondition(newId: string): Node
  {
    Cond(newId, map[Category := "Patient", FieldKey := "PatientName", Operator := "EQUALS", Value := ""])
  }

  /** The group `addGroup` creates. */
  function NewGroup(newId: string): Node
  {
    Group(newId, And, [])
  }

  /** `item => ({ ...item, children: [...ensureArray(item.children), node] })` */
  function AppendChild(node: Node): Node -> Node
  {
    (item: Node) => if item.Group? then item.(children := EnsureArray(Array(item.children)) + [node]) else item
  }

  /**
   * The state update shared by `addCondition` and `addGroup`: under `'root'`
   * append to the root's own children, otherwise append to every group that
   * `updateTree` matches.
   */
  function AddChild(prev: Node, parentId: string, node: Node): (r: Node)
    requires prev.Group?
    ensures r.Group? && r.id == prev.id && r.op == prev.op
    ensures parentId == RootId ==> r.children == prev.children + [node]
  {
    if parentId == RootId then
      prev.(children := EnsureArray(Array(prev.children)) + [node])
    else
      prev.(children := UpdateTree(EnsureArray(Array(prev.children)), parentId, AppendChild(node)))
  }

  function AddCondition(prev: Node, parentId: string, newId: string): Node
    requires prev.Group?
  {
    AddChild(prev, parentId, NewCondition(newId))
  }

  function AddGroup(prev: Node, parentId: string, newId: string): Node
    requires prev.Group?
  {
    AddChild(prev, parentId, NewGroup(newId))
  }

  lemma AppendChildKeepsGroup(parentId: string, node: Node)
    ensures KeepsGroup(parentId, AppendChild(node))
  {
  }

  /**
   * Below the root, the first group named `parentId` gains `node` as its last
   * child, and the result has such a group exactly when the input has.
   */
  lemma AddChildFind(prev: Node, parentId: string, node: Node)
    requires prev.Group? && parentId != RootId
    ensures FindGroupIn(AddChild(prev, parentId, node).children, parentId)
         == (match FindGroupIn(prev.children, parentId)
             case None => None
             case Some(g) => Some(g.(children := g.children + [node])))
  {
    AppendChildKeepsGroup(parentId, node);
    UpdateTreeFind(prev.children, parentId, AppendChild(node));
  }

  /** Adding under an id that names no group gives back an equal tree. */
  lemma AddChildUnknownParent(prev: Node, parentId: string, node: Node)
    requires prev.Group? && parentId != RootId && parentId !in GroupIdsOf(prev.children)
    ensures AddChild(prev, parentId, node) == prev
  {
    UpdateTreeNoMatch(prev.children, parentId, AppendChild(node));
  }

  /* ---------------- deleting a child ---------------- */

  /** `children.filter(child => child.id !== childId)` */
  function FilterChildren(children: seq<Node>, childId: string): (r: seq<Node>)
    ensures |r| <= |children|
    ensures forall i :: 0 <= i < |r| ==> r[i].id != childId
    ensures (forall i :: 0 <= i < |children| ==> children[i].id != childId) ==> r == children
    decreases children
  {
    if children == [] then []
    else
      var last := children[|children| - 1];
      FilterChildren(children[..|children| - 1], childId) + (if last.id != childId then [last] else [])
  }

  /** Filtering keeps the survivors in their order: it distributes over concatenation. */
  lemma {:induction false} FilterChildrenAppend(xs: seq<Node>, ys: seq<Node>, childId: string)
    ensures FilterChildren(xs + ys, childId) == FilterChildren(xs, childId) + FilterChildren(ys, childId)
    decreases ys
  {
    if ys != [] {
      var zs := ys[..|ys| - 1];
      var last := ys[|ys| - 1];
      var tail := if last.id != childId then [last] else [];
      assert (xs + ys)[..|xs + ys| - 1] == xs + zs;
      assert (xs + ys)[|xs + ys| - 1] == last;
      assert FilterChildren(xs + ys, childId) == FilterChildren(xs + zs, childId) + tail;
      assert FilterChildren(ys, childId) == FilterChildren(zs, childId) + tail;
      FilterChildrenAppend(xs, zs, childId);
    } else {
      assert xs + ys == xs;
    }
  }

  /** A child list keeps exactly its children whose id differs, each once. */
  lemma FilterChildrenCount(children: seq<Node>, childId: string, c: Node)
    ensures multiset(FilterChildren(children, childId))[c]
         == if c.id == childId then 0 else multiset(children)[c]
  {
    FilterChildrenCounted(children, childId, c);
    CountIsMultiplicity(FilterChildren(children, childId), c);
    CountIsMultiplicity(children, c);
  }

  lemma {:induction false} FilterChildrenCounted(children: seq<Node>, childId: string, c: Node)
    ensures Count(FilterChildren(children, childId), c) == if c.id == childId then 0 else Count(children, c)
    decreases |children|
  {
    if children != [] {
      var init := children[..|children| - 1];
      var last := children[|children| - 1];
      FilterChildrenCounted(init, childId, c);
      CountAppend(FilterChildren(init, childId), if last.id != childId then [last] else [], c);
    }
  }

  /** `item => ({ ...item, children: filterChildren(ensureArray(item.children)) })` */
  function RemoveChild(childId: string): Node -> Node
  {
    (item: Node) => if item.Group? then item.(children := FilterChildren(EnsureArray(Array(item.children)), childId)) else item
  }

  /** `deleteChild`: drop the direct children named `childId` of the group(s) named `parentId`. */
  function DeleteChild(prev: Node, parentId: string, childId: string): (r: Node)
    requires prev.Group?
    ensures r.Group? && r.id == prev.id && r.op == prev.op
    ensures parentId == RootId ==> forall i :: 0 <= i < |r.children| ==> r.children[i].id != childId
    ensures parentId == RootId ==> r.children == FilterChildren(prev.children, childId)
  {
    if parentId == RootId then
      prev.(children := FilterChildren(EnsureArray(Array(prev.children)), childId))
    else
      prev.(children := UpdateTree(EnsureArray(Array(prev.children)), parentId, RemoveChild(childId)))
  }

  /** Below the root, the first group named `parentId` loses exactly its children named `childId`. */
  lemma DeleteChildFind(prev: Node, parentId: string, childId: string)
    requires prev.Group? && parentId != RootId
    ensures FindGroupIn(DeleteChild(prev, parentId, childId).children, parentId)
         == (match FindGroupIn(prev.children, parentId)
             case None => None
             case Some(g) => Some(g.(children := FilterChildren(g.children, childId))))
  {
    assert KeepsGroup(parentId, RemoveChild(childId));
    UpdateTreeFind(prev.children, parentId, RemoveChild(childId));
  }

  /**
   * Below the root, at every position the walker reaches: a condition is
   * unchanged, a group named `parentId` loses exactly its direct children
   * named `childId`, and every other group keeps its id, operator and number
   * of children.
   */
  lemma DeleteChildAt(prev: Node, parentId: string, childId: string, path: seq<nat>)
    requires prev.Group? && parentId != RootId
    requires NodeAt(prev.children, path).Some? && Reached(prev.children, path, parentId)
    ensures NodeAt(DeleteChild(prev, parentId, childId).children, path).Some?
    ensures var n, m := NodeAt(prev.children, path).value, NodeAt(DeleteChild(prev, parentId, childId).children, path).value;
            && m.id == n.id
            && (n.Cond? ==> m == n)
            && (n.Group? ==> m.Group? && m.op == n.op)
            && (n.Group? && n.id == parentId ==> m.children == FilterChildren(n.children, childId))
            && (n.Group? && n.id != parentId ==> |m.children| == |n.children|)
  {
    UpdateTreeAt(prev.children, parentId, RemoveChild(childId), path);
  }

  /** Deleting the same child twice deletes it once. */
  lemma DeleteChildIdempotent(prev: Node, parentId: string, childId: string)
    requires prev.Group?
    ensures DeleteChild(DeleteChild(prev, parentId, childId), parentId, childId)
         == DeleteChild(prev, parentId, childId)
  {
    if parentId != RootId {
      var f := RemoveChild(childId);
      assert KeepsGroup(parentId, f);
      forall x: Node | x.Group? && x.id == parentId
        ensures f(f(x)) == f(x)
      {
        FilterChildrenIdempotent(x.children, childId);
      }
      UpdateTreeIdempotent(prev.children, parentId, f);
    } else {
      FilterChildrenIdempotent(prev.children, childId);
    }
  }

  /** Filtering twice filters once. */
  lemma FilterChildrenIdempotent(children: seq<Node>, childId: string)
    ensures FilterChildren(FilterChildren(children, childId), childId) == FilterChildren(children, childId)
  {
  }

  /**
   * No group the walker hands to the update (one named `parentId` that is
   * not inside another one) has a direct child named `childId`.
   */
  predicate NoSuchChild(cs: seq<Node>, parentId: string, childId: string)
    decreases cs
  {
    forall i :: 0 <= i < |cs| && cs[i].Group? ==>
      if cs[i].id == parentId then forall j :: 0 <= j < |cs[i].children| ==> cs[i].children[j].id != childId
      else NoSuchChild(cs[i].children, parentId, childId)
  }

  /** Deleting a child that the targeted parent does not have is a no-op. */
  lemma DeleteChildAbsent(prev: Node, parentId: string, childId: string)
    requires prev.Group?
    requires parentId == RootId ==> forall i :: 0 <= i < |prev.children| ==> prev.children[i].id != childId
    requires parentId != RootId ==> NoSuchChild(prev.children, parentId, childId)
    ensures DeleteChild(prev, parentId, childId) == prev
  {
    if parentId != RootId {
      RemoveAbsentChild(prev.children, parentId, childId);
    }
  }

  lemma {:induction false} RemoveAbsentChild(children: seq<Node>, parentId: string, childId: string)
    requires NoSuchChild(children, parentId, childId)
    ensures UpdateTree(children, parentId, RemoveChild(childId)) == children
    decreases children
  {
    forall i | 0 <= i < |children|
      ensures UpdateChild(children[i], parentId, RemoveChild(childId)) == children[i]
    {
      var c := children[i];
      if c.Group? && c.id != parentId {
        RemoveAbsentChild(c.children, parentId, childId);
      }
    }
  }

  /**
   * Adding a node with a fresh id and then deleting that id under the same
   * parent gives back the original tree.
   */
  lemma AddThenDelete(prev: Node, parentId: string, node: Node)
    requires prev.Group? && node.id !in IdsOf(prev.children)
    ensures DeleteChild(AddChild(prev, parentId, node), parentId, node.id) == prev
  {
    if parentId == RootId {
      ChildIdsAvoid(prev.children, node.id);
    } else {
      AppendThenRemove(prev.children, parentId, node);
    }
  }

  lemma {:induction false} AppendThenRemove(children: seq<Node>, parentId: string, node: Node)
    requires node.id !in IdsOf(children)
    ensures UpdateTree(UpdateTree(children, parentId, AppendChild(node)), parentId, RemoveChild(node.id))
         == children
    decreases children
  {
    var added := UpdateTree(children, parentId, AppendChild(node));
    forall i | 0 <= i < |children|
      ensures UpdateChild(added[i], parentId, RemoveChild(node.id)) == children[i]
    {
      IdsOfElement(children, i);
      var c := children[i];
      if c.Group? {
        assert node.id !in IdsOf(c.children);
        if c.id == parentId {
          ChildIdsAvoid(c.children, node.id);
          assert FilterChildren(c.children + [node], node.id) == c.children;
        } else {
          AppendThenRemove(c.children, parentId, node);
        }
      }
    }
  }

  /**
   * Adding a node whose ids are distinct and new keeps the ids of the tree
   * pairwise distinct: with distinct ids at most one group is named
   * `parentId`, so the node is added at most once.
   */
  lemma AddChildKeepsDistinct(prev: Node, parentId: string, node: Node)
    requires prev.Group? && Distinct(Ids(prev)) && Distinct(Ids(node))
    requires forall s :: s in Ids(node) ==> s !in Ids(prev)
    ensures Distinct(Ids(AddChild(prev, parentId, node)))
  {
    var r := AddChild(prev, parentId, node);
    DistinctConcat([prev.id], IdsOf(prev.children));
    if parentId == RootId {
      IdsOfAppend(prev.children, [node]);
      assert IdsOf([node]) == Ids(node);
      DistinctJoin(IdsOf(prev.children), Ids(node));
      assert Ids(r) == [prev.id] + (IdsOf(prev.children) + Ids(node));
    } else {
      AppendListDistinct(prev.children, parentId, node);
    }
    DistinctJoin([prev.id], IdsOf(r.children));
  }

  /** The walk of `addChild` below the root keeps ids distinct and adds only the node's ids. */
  lemma {:induction false} AppendListDistinct(cs: seq<Node>, parentId: string, node: Node)
    requires Distinct(IdsOf(cs)) && Distinct(Ids(node))
    requires forall s :: s in Ids(node) ==> s !in IdsOf(cs)
    ensures Distinct(IdsOf(UpdateTree(cs, parentId, AppendChild(node))))
    ensures forall s :: s in IdsOf(UpdateTree(cs, parentId, AppendChild(node))) ==> s in IdsOf(cs) || s in Ids(node)
    decreases cs
  {
    var r := UpdateTree(cs, parentId, AppendChild(node));
    if cs != [] {
      var c, rest := cs[0], cs[1..];
      assert r[0] == UpdateChild(c, parentId, AppendChild(node));
      assert r[1..] == UpdateTree(rest, parentId, AppendChild(node));
      DistinctConcat(Ids(c), IdsOf(rest));
      AppendNodeDistinct(c, parentId, node);
      if parentId in GroupIds(c) {
        GroupIdsAreIds(c);
        GroupIdsOfAreIds(rest);
        UpdateTreeNoMatch(rest, parentId, AppendChild(node));
      } else {
        UpdateChildNoMatch(c, parentId, AppendChild(node));
        AppendListDistinct(rest, parentId, node);
      }
      DistinctJoin(Ids(r[0]), IdsOf(r[1..]));
    }
  }

  lemma {:induction false} AppendNodeDistinct(c: Node, parentId: string, node: Node)
    requires Distinct(Ids(c)) && Distinct(Ids(node))
    requires forall s :: s in Ids(node) ==> s !in Ids(c)
    ensures Distinct(Ids(UpdateChild(c, parentId, AppendChild(node))))
    ensures forall s :: s in Ids(UpdateChild(c, parentId, AppendChild(node))) ==> s in Ids(c) || s in Ids(node)
    decreases c
  {
    if c.Group? {
      var m := UpdateChild(c, parentId, AppendChild(node));
      DistinctConcat([c.id], IdsOf(c.children));
      if c.id == parentId {
        IdsOfAppend(c.children, [node]);
        assert IdsOf([node]) == Ids(node);
        DistinctJoin(IdsOf(c.children), Ids(node));
        assert Ids(m) == [c.id] + (IdsOf(c.children) + Ids(node));
      } else {
        AppendListDistinct(c.children, parentId, node);
      }
      DistinctJoin([c.id], IdsOf(m.children));
    }
  }

  /* ---------------- patching conditions ---------------- */

  /** `updateConditionInChildren`: merge the patch onto every condition named `conditionId`, at any depth. */
  function UpdateConditionInChildren(children: seq<Node>, conditionId: string, patch: ConditionPatch): (r: seq<Node>)
    ensures |r| == |children|
    decreases children
  {
    seq(|children|, i requires 0 <= i < |children| => UpdateConditionInChild(children[i], conditionId, patch))
  }

  function UpdateConditionInChild(child: Node, conditionId: string, patch: ConditionPatch): Node
    decreases child
  {
    if !IsRuleGroup(child) then
      if child.id == conditionId then MergeCondition(child, patch) else child
    else
      child.(children := UpdateConditionInChildren(EnsureArray(Array(child.children)), conditionId, patch))
  }

  function UpdateCondition(prev: Node, conditionId: string, patch: ConditionPatch): (r: Node)
    requires prev.Group?
    ensures r.Group? && r.id == prev.id && r.op == prev.op
  {
    prev.(children := UpdateConditionInChildren(EnsureArray(Array(prev.children)), conditionId, patch))
  }

  /** The reference: patch, in a list of conditions, exactly those named `conditionId`. */
  function PatchNamed(conds: seq<Node>, conditionId: string, patch: ConditionPatch): (r: seq<Node>)
  {
    seq(|conds|, i requires 0 <= i < |conds| =>
      if conds[i].Cond? && conds[i].id == conditionId then MergeCondition(conds[i], patch) else conds[i])
  }

  lemma PatchNamedAppend(xs: seq<Node>, ys: seq<Node>, conditionId: string, patch: ConditionPatch)
    ensures PatchNamed(xs + ys, conditionId, patch)
         == PatchNamed(xs, conditionId, patch) + PatchNamed(ys, conditionId, patch)
  {
  }

  /** Groups, their ids and operators, and every position stay as they were. */
  lemma {:induction false} UpdateConditionKeepsSkeleton(prev: Node, conditionId: string, patch: ConditionPatch)
    requires prev.Group?
    ensures Skeleton(UpdateCondition(prev, conditionId, patch)) == Skeleton(prev)
  {
    UpdateConditionInChildrenSkeleton(prev.children, conditionId, patch);
    var r := UpdateCondition(prev, conditionId, patch);
    assert Skeleton(r).children == Skeleton(prev).children;
  }

  lemma {:induction false} UpdateConditionInChildrenSkeleton(children: seq<Node>, conditionId: string, patch: ConditionPatch)
    ensures SameSkeletons(UpdateConditionInChildren(children, conditionId, patch), children)
    decreases children
  {
    forall i | 0 <= i < |children|
      ensures Skeleton(UpdateConditionInChild(children[i], conditionId, patch)) == Skeleton(children[i])
    {
      var c := children[i];
      if c.Group? {
        UpdateConditionInChildrenSkeleton(c.children, conditionId, patch);
        var r := UpdateConditionInChild(c, conditionId, patch);
        assert Skeleton(r).children == Skeleton(c).children;
      }
    }
  }

  /** The conditions in pre-order are the old ones, with the patch merged onto those named `conditionId`. */
  lemma UpdateConditionCondList(prev: Node, conditionId: string, patch: ConditionPatch)
    requires prev.Group?
    ensures CondList(UpdateCondition(prev, conditionId, patch)) == PatchNamed(CondList(prev), conditionId, patch)
  {
    UpdateConditionInChildrenCondList(prev.children, conditionId, patch);
  }

  lemma {:induction false} UpdateConditionInChildrenCondList(children: seq<Node>, conditionId: string, patch: ConditionPatch)
    ensures CondListOf(UpdateConditionInChildren(children, conditionId, patch))
         == PatchNamed(CondListOf(children), conditionId, patch)
    decreases children
  {
    if children != [] {
      var r := UpdateConditionInChildren(children, conditionId, patch);
      assert r[1..] == UpdateConditionInChildren(children[1..], conditionId, patch);
      UpdateConditionInChildCondList(children[0], conditionId, patch);
      UpdateConditionInChildrenCondList(children[1..], conditionId, patch);
      PatchNamedAppend(CondList(children[0]), CondListOf(children[1..]), conditionId, patch);
    }
  }

  lemma {:induction false} UpdateConditionInChildCondList(child: Node, conditionId: string, patch: ConditionPatch)
    ensures CondList(UpdateConditionInChild(child, conditionId, patch))
         == PatchNamed(CondList(child), conditionId, patch)
    decreases child
  {
    if child.Group? {
      UpdateConditionInChildrenCondList(child.children, conditionId, patch);
    }
  }

  /** Patching the same condition twice with the same patch patches it once. */
  lemma UpdateConditionIdempotent(prev: Node, conditionId: string, patch: ConditionPatch)
    requires prev.Group?
    ensures UpdateCondition(UpdateCondition(prev, conditionId, patch), conditionId, patch)
         == UpdateCondition(prev, conditionId, patch)
  {
    var once := UpdateCondition(prev, conditionId, patch);
    var twice := UpdateCondition(once, conditionId, patch);
    UpdateConditionKeepsSkeleton(prev, conditionId, patch);
    UpdateConditionKeepsSkeleton(once, conditionId, patch);
    UpdateConditionCondList(prev, conditionId, patch);
    UpdateConditionCondList(once, conditionId, patch);
    var conds := CondList(prev);
    forall i | 0 <= i < |conds| && conds[i].Cond? && conds[i].id == conditionId
      ensures MergeCondition(MergeCondition(conds[i], patch), patch) == MergeCondition(conds[i], patch)
    {
      MergeConditionIdempotent(conds[i], patch);
    }
    assert PatchNamed(PatchNamed(conds, conditionId, patch), conditionId, patch) == PatchNamed(conds, conditionId, patch);
    SkeletonAndCondListDetermine(twice, once);
  }

  /** With no condition named `conditionId`, the tree is returned unchanged. */
  lemma UpdateConditionAbsent(prev: Node, conditionId: string, patch: ConditionPatch)
    requires prev.Group?
    requires forall i :: 0 <= i < |CondList(prev)| ==> CondList(prev)[i].id != conditionId
    ensures UpdateCondition(prev, conditionId, patch) == prev
  {
    UpdateConditionKeepsSkeleton(prev, conditionId, patch);
    UpdateConditionCondList(prev, conditionId, patch);
    assert PatchNamed(CondList(prev), conditionId, patch) == CondList(prev);
    SkeletonAndCondListDetermine(UpdateCondition(prev, conditionId, patch), prev);
  }

  /* ---------------- the group operator ---------------- */

  /** `item => ({ ...item, operator })` */
  function SetOperator(operator: LogicOp): Node -> Node
  {
    (item: Node) => if item.Group? then item.(op := operator) else item
  }

  /** `updateGroupOperator`: the root is set directly, any other group through `updateTree`. */
  function UpdateGroupOperator(prev: Node, groupId: string, operator: LogicOp): (r: Node)
    requires prev.Group?
    ensures r.Group? && r.id == prev.id
    ensures groupId == RootId ==> r == prev.(op := operator)
    ensures groupId != RootId ==> r.op == prev.op
  {
    if groupId == RootId then prev.(op := operator)
    else prev.(children := UpdateTree(EnsureArray(Array(prev.children)), groupId, SetOperator(operator)))
  }

  /** Below the root, the first group named `groupId` now has the new operator and nothing else changed in it. */
  lemma UpdateGroupOperatorFind(prev: Node, groupId: string, operator: LogicOp)
    requires prev.Group? && groupId != RootId
    ensures FindGroupIn(UpdateGroupOperator(prev, groupId, operator).children, groupId)
         == (match FindGroupIn(prev.children, groupId)
             case None => None
             case Some(g) => Some(g.(op := operator)))
  {
    assert KeepsGroup(groupId, SetOperator(operator));
    UpdateTreeFind(prev.children, groupId, SetOperator(operator));
  }

  /**
   * Below the root, at every position the walker reaches: a condition is
   * unchanged, a group named `groupId` gets the operator and keeps its
   * children, and every other group keeps its operator and number of children.
   */
  lemma UpdateGroupOperatorAt(prev: Node, groupId: string, operator: LogicOp, path: seq<nat>)
    requires prev.Group? && groupId != RootId
    requires NodeAt(prev.children, path).Some? && Reached(prev.children, path, groupId)
    ensures NodeAt(UpdateGroupOperator(prev, groupId, operator).children, path).Some?
    ensures var n, m := NodeAt(prev.children, path).value, NodeAt(UpdateGroupOperator(prev, groupId, operator).children, path).value;
            && m.id == n.id
            && (n.Cond? ==> m == n)
            && (n.Group? && n.id == groupId ==> m == n.(op := operator))
            && (n.Group? && n.id != groupId ==> m.Group? && m.op == n.op && |m.children| == |n.children|)
  {
    UpdateTreeAt(prev.children, groupId, SetOperator(operator), path);
  }

  /** Setting the same operator twice sets it once. */
  lemma UpdateGroupOperatorIdempotent(prev: Node, groupId: string, operator: LogicOp)
    requires prev.Group?
    ensures UpdateGroupOperator(UpdateGroupOperator(prev, groupId, operator), groupId, operator)
         == UpdateGroupOperator(prev, groupId, operator)
  {
    if groupId != RootId {
      var f := SetOperator(operator);
      assert KeepsGroup(groupId, f);
      UpdateTreeIdempotent(prev.children, groupId, f);
    }
  }

  /** Setting an operator changes no condition and no position in the tree. */
  lemma UpdateGroupOperatorKeepsConditions(prev: Node, groupId: string, operator: LogicOp)
    requires prev.Group?
    ensures CondList(UpdateGroupOperator(prev, groupId, operator)) == CondList(prev)
    ensures GroupIds(UpdateGroupOperator(prev, groupId, operator)) == GroupIds(prev)
  {
    if groupId != RootId {
      SetOperatorKeeps(prev.children, groupId, operator);
    }
  }

  lemma {:induction false} SetOperatorKeeps(children: seq<Node>, groupId: string, operator: LogicOp)
    ensures CondListOf(UpdateTree(children, groupId, SetOperator(operator))) == CondListOf(children)
    ensures GroupIdsOf(UpdateTree(children, groupId, SetOperator(operator))) == GroupIdsOf(children)
    decreases children
  {
    if children != [] {
      var f := SetOperator(operator);
      UpdateTreeTail(children, groupId, f);
      var c := children[0];
      if c.Group? && c.id != groupId {
        SetOperatorKeeps(c.children, groupId, operator);
      }
      SetOperatorKeeps(children[1..], groupId, operator);
    }
  }

  /* ---------------- generateRuleJSON ---------------- */

  /** The exported rule: `{ operator, rules }` for a group, the condition's keys other than `id` for a condition. */
  datatype Json =
    | JGroup(operator: LogicOp, rules: seq<Json>)
    | JCondition(fields: Attrs)

  /** The export of a subtree, as a value. */
  function Export(n: Node): Json
    decreases n
  {
    match n
    case Cond(_, attrs) => JCondition(attrs)
    case Group(_, op, cs) => JGroup(op, seq(|cs|, i requires 0 <= i < |cs| => Export(cs[i])))
  }

  /**
   * `generateRuleJSON` with its inner `convertGroup`: build `rules` by
   * pushing, child by child, the converted group or the condition without its id.
   */
  method GenerateRuleJSON(group: Node) returns (result: Json)
    requires group.Group?
    ensures result == Export(group)
    decreases group
  {
    var children := EnsureArray(Array(group.children));
    var rules: seq<Json> := [];
    for i := 0 to |children|
      invariant rules == seq(i, k requires 0 <= k < i => Export(children[k]))
    {
      var child := children[i];
      if IsRuleGroup(child) {
        var converted := GenerateRuleJSON(child);
        rules := rules + [converted];
      } else {
        rules := rules + [JCondition(child.attrs)];
      }
    }
    result := JGroup(group.op, rules);
  }

  /** Same shape, operators and condition fields, whatever the ids. */
  predicate SameUpToIds(a: Node, b: Node)
    decreases a
  {
    match a
    case Cond(_, attrs) => b.Cond? && b.attrs == attrs
    case Group(_, op, cs) =>
      b.Group? && b.op == op && |b.children| == |cs|
      && forall i :: 0 <= i < |cs| ==> SameUpToIds(cs[i], b.children[i])
  }

  /** The export forgets the ids and nothing else. */
  lemma {:induction false} ExportForgetsOnlyIds(a: Node, b: Node)
    ensures Export(a) == Export(b) <==> SameUpToIds(a, b)
    decreases a
  {
    match a
    case Cond(_, _) =>
    case Group(_, _, cs) =>
      if b.Group? && |b.children| == |cs| {
        forall i | 0 <= i < |cs|
          ensures Export(cs[i]) == Export(b.children[i]) <==> SameUpToIds(cs[i], b.children[i])
        {
          ExportForgetsOnlyIds(cs[i], b.children[i]);
        }
        if Export(a) == Export(b) {
          forall i | 0 <= i < |cs|
            ensures Export(cs[i]) == Export(b.children[i])
          {
            assert Export(a).rules[i] == Export(b).rules[i];
          }
        }
      }
  }

  /* ---------------- the component state ---------------- */

  /** The state of the `ImprovedRuleBuilder` component; every handler replaces `rootGroup`. */
  class BuilderState {
    var rootGroup: Node
    var generatedJson: Option<Json>

    predicate Valid()
      reads this
    {
      rootGroup.Group? && rootGroup.id == RootId
    }

    constructor ()
      ensures Valid()
      ensures rootGroup == Group(RootId, And, []) && generatedJson == None
    {
      rootGroup := Group(RootId, And, []);
      generatedJson := None;
    }

    /** `generateRule`: export the current tree. */
    method GenerateRule()
      requires Valid()
      modifies this
      ensures Valid() && rootGroup == old(rootGroup)
      ensures generatedJson == Some(Export(rootGroup))
    {
      var json := GenerateRuleJSON(rootGroup);
      generatedJson := Some(json);
    }

    method OnAddCondition(parentId: string, newId: string)
      requires Valid()
      modifies this
      ensures Valid() && generatedJson == old(generatedJson)
      ensures rootGroup == AddCondition(old(rootGroup), parentId, newId)
    {
      rootGroup := AddCondition(rootGroup, parentId, newId);
    }

    method OnAddGroup(parentId: string, newId: string)
      requires Valid()
      modifies this
      ensures Valid() && generatedJson == old(generatedJson)
      ensures rootGroup == AddGroup(old(rootGroup), parentId, newId)
    {
      rootGroup := AddGroup(rootGroup, parentId, newId);
    }

    method OnUpdateCondition(conditionId: string, patch: ConditionPatch)
      requires Valid()
      modifies this
      ensures Valid() && generatedJson == old(generatedJson)
      ensures rootGroup == UpdateCondition(old(rootGroup), conditionId, patch)
    {
      rootGroup := UpdateCondition(rootGroup, conditionId, patch);
    }

    method OnUpdateGroupOperator(groupId: string, operator: LogicOp)
      requires Valid()
      modifies this
      ensures Valid() && generatedJson == old(generatedJson)
      ensures rootGroup == UpdateGroupOperator(old(rootGroup), groupId, operator)
    {
      rootGroup := UpdateGroupOperator(rootGroup, groupId, operator);
    }

    method OnDeleteChild(parentId: string, childId: string)
      requires Valid()
      modifies this
      ensures Valid() && generatedJson == old(generatedJson)
      ensures rootGroup == DeleteChild(old(rootGroup), parentId, childId)
    {
      rootGroup := DeleteChild(rootGroup, parentId, childId);
    }
  }
}
