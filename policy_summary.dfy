/**
 * The rule summary of src/components/WaltonPolicy.tsx (`renderRuleSummary`):
 * one text line per group that has a type, in pre-order, indented two
 * spaces per nesting level, built by `summarizeGroup` and the
 * `allSummaries` loop. Config values are read with JavaScript's `||`
 * fallback, under which "" and 0 count as missing.
 */
module PolicySummary {
  import opened Wrappers
  import opened Decimal
  import opened WaltonPolicy
  import opened Seqs

  /** `'  '.repeat(level)`. */
  function Indent(level: nat): (r: string)
    ensures |r| == 2 * level
    ensures forall i :: 0 <= i < |r| ==> r[i] == ' '
  {
    if level == 0 then "" else Indent(level - 1) + "  "
  }

  /** JavaScript truthiness of a config entry; a missing key is `undefined`. */
  predicate Truthy(config: Config, key: string)
  {
    key in config && match config[key]
                     case Text(s) => s != ""
                     case Num(n) => n != 0
  }

  /** A config entry as a template literal prints it. */
  function Show(v: ConfigValue): string
  {
    match v
    case Text(s) => s
    case Num(n) => IntToString(n)
  }

  /** `${config[key] || fallback}`. */
  function OrDefault(config: Config, key: string, fallback: string): (r: string)
    ensures !Truthy(config, key) ==> r == fallback
    ensures Truthy(config, key) ==> r == Show(config[key])
  {
    if Truthy(config, key) then Show(config[key]) else fallback
  }

  /** `config[key] === s`. */
  predicate IsText(config: Config, key: string, s: string)
  {
    key in config && config[key] == Text(s)
  }

  /** The base price named by `productType`: anything but general or offer reads as exchange. */
  function BasePriceType(config: Config): string
  {
    if IsText(config, "productType", "general") then "MRP"
    else if IsText(config, "productType", "offer") then "Offer Price"
    else "Exchange Price"
  }

  /** The text after the colon for a `price` group; an unknown price type adds nothing. */
  function PriceDescription(config: Config): string
  {
    if !Truthy(config, "priceType") then "No price type selected"
    else if IsText(config, "priceType", "hireCash") then
      "Hire Cash Price = " + BasePriceType(config) + " + " + OrDefault(config, "hireCashPercentage", "2") + "% Load"
    else if IsText(config, "priceType", "hmrp") then
      "HMRP = Hire Cash Price + " + OrDefault(config, "hmrpPercentage", "9") + "% Load"
    else if IsText(config, "priceType", "hireOutstanding") then
      "Hire Outstanding = (HMRP - Down Payment) + " + OrDefault(config, "outstandingPercentage", "16") + "% Load"
    else if IsText(config, "priceType", "hireValue") then
      "Hire Value = Hire Outstanding + Down Payment"
    else ""
  }

  /** The text after the colon, by group type. */
  function Description(g: PolicyGroup): string
  {
    match g.groupType
    case "price" => PriceDescription(g.config)
    case "duration" =>
      OrDefault(g.config, "duration", "12") + " " + OrDefault(g.config, "durationType", "monthly") + " periods"
    case "processingFees" =>
      if IsText(g.config, "feeType", "percentage") then OrDefault(g.config, "feeValue", "2") + "% fee"
      else "Fixed fee of " + OrDefault(g.config, "feeValue", "2") + " units"
    case _ => "No configuration"
  }

  /** `ruleSummary` for a group at `level`: indent, bullet, name or "Unnamed Group", colon, description. */
  function SummaryLine(g: PolicyGroup, level: nat): (r: string)
    ensures |r| > 2 * level && r[..2 * level] == Indent(level)
    ensures r[2 * level] == '\U{2022}'
  {
    Indent(level) + "\U{2022} " + (if g.name != "" then g.name else "Unnamed Group") + ": " + Description(g)
  }

  /**
   * Formats the line of a group at a level. The walk below is stated for any
   * format, so that reasoning about the order of lines need not look inside
   * `SummaryLine`; the component uses `SummaryLine`.
   */
  type LineFormat = (PolicyGroup, nat) -> string

  /** The group's own line: only a group with a type has one. */
  function OwnLine(fmt: LineFormat, g: PolicyGroup, level: nat): (r: seq<string>)
    ensures |r| == (if g.groupType != "" then 1 else 0)
  {
    if g.groupType != "" then [fmt(g, level)] else []
  }

  /** What `summarizeGroup(group, level)` returns. */
  function Summary(fmt: LineFormat, g: PolicyGroup, level: nat): seq<string>
    decreases g
  {
    OwnLine(fmt, g, level) + SummaryIn(fmt, g.children, level + 1, |g.children|)
  }

  /** The lines of the first `k` groups of a list, each at `level`. */
  function SummaryIn(fmt: LineFormat, gs: seq<PolicyGroup>, level: nat, k: nat): seq<string>
    requires k <= |gs|
    decreases gs, k
  {
    if k == 0 then [] else SummaryIn(fmt, gs, level, k - 1) + Summary(fmt, gs[k - 1], level)
  }

  /**
   * `summarizeGroup`: the own line (pushed only for a typed group), then
   * each child's lines appended in turn by the `forEach`. The line format
   * is a parameter; the component's is `SummaryLine`.
   */
  method SummarizeGroup(fmt: LineFormat, group: PolicyGroup, level: nat) returns (summary: seq<string>)
    ensures summary == Summary(fmt, group, level)
    decreases group
  {
    summary := [];
    if group.groupType != "" {
      var ruleSummary := fmt(group, level);
      summary := summary + [ruleSummary];
    }
    ghost var own := summary;
    if |group.children| > 0 {
      for i := 0 to |group.children|
        invariant summary == own + SummaryIn(fmt, group.children, level + 1, i)
      {
        var lines := SummarizeGroup(fmt, group.children[i], level + 1);
        ConcatAssoc(own, SummaryIn(fmt, group.children, level + 1, i), lines);
        summary := summary + lines;
      }
    } else {
      assert summary == own + [];
    }
  }

  /** The `allSummaries` loop over the top-level groups. */
  method AllSummaries(fmt: LineFormat, ruleGroups: seq<PolicyGroup>) returns (allSummaries: seq<string>)
    ensures allSummaries == SummaryIn(fmt, ruleGroups, 0, |ruleGroups|)
  {
    allSummaries := [];
    for i := 0 to |ruleGroups|
      invariant allSummaries == SummaryIn(fmt, ruleGroups, 0, i)
    {
      var lines := SummarizeGroup(fmt, ruleGroups[i], 0);
      allSummaries := allSummaries + lines;
    }
  }

  /**
   * `renderRuleSummary`: nothing for an empty forest, otherwise one line per
   * typed group in pre-order, each indented by its depth.
   */
  method RenderRuleSummary(ruleGroups: seq<PolicyGroup>) returns (r: Option<seq<string>>)
    ensures r.None? <==> ruleGroups == []
    ensures r.Some? ==> r.value == Lines(SummaryLine, PreorderIn(ruleGroups, 0, |ruleGroups|))
  {
    if |ruleGroups| == 0 {
      return None;
    }
    var lines := AllSummaries(SummaryLine, ruleGroups);
    SummaryInIsPreorder(SummaryLine, ruleGroups, 0, |ruleGroups|);
    return Some(lines);
  }

  /* ---------------- the summary as a pre-order listing ---------------- */

  /** A group met during a depth-first walk, with its nesting level. */
  datatype Entry = Entry(group: PolicyGroup, depth: nat)

  /** Every group of the subtree, in pre-order, with its depth. */
  function Preorder(g: PolicyGroup, depth: nat): (r: seq<Entry>)
    ensures |r| > 0 && r[0] == Entry(g, depth)
    decreases g
  {
    [Entry(g, depth)] + PreorderIn(g.children, depth + 1, |g.children|)
  }

  function PreorderIn(gs: seq<PolicyGroup>, depth: nat, k: nat): seq<Entry>
    requires k <= |gs|
    decreases gs, k
  {
    if k == 0 then [] else PreorderIn(gs, depth, k - 1) + Preorder(gs[k - 1], depth)
  }

  /** One line per entry whose group has a type, formatted at the entry's depth. */
  function Lines(fmt: LineFormat, es: seq<Entry>): (r: seq<string>)
    ensures |r| <= |es|
  {
    if es == [] then [] else OwnLine(fmt, es[0].group, es[0].depth) + Lines(fmt, es[1..])
  }

  /** Listing two runs of entries one after the other lists their lines one after the other. */
  lemma {:induction false} LinesAppend(fmt: LineFormat, a: seq<Entry>, b: seq<Entry>)
    ensures Lines(fmt, a + b) == Lines(fmt, a) + Lines(fmt, b)
    decreases |a|
  {
    if a != [] {
      assert (a + b)[1..] == a[1..] + b;
      assert (a + b)[0] == a[0];
      LinesAppend(fmt, a[1..], b);
      ConcatAssoc(OwnLine(fmt, a[0].group, a[0].depth), Lines(fmt, a[1..]), Lines(fmt, b));
    } else {
      assert a + b == b;
    }
  }

  /** `LinesAppend`, with the lines of each run given. */
  lemma LinesStep(fmt: LineFormat, p: seq<Entry>, q: seq<Entry>, s: seq<string>, t: seq<string>)
    requires s == Lines(fmt, p) && t == Lines(fmt, q)
    ensures s + t == Lines(fmt, p + q)
  {
    LinesAppend(fmt, p, q);
  }

  /**
   * `summarizeGroup` lists the typed groups of the subtree in pre-order,
   * each at its own depth: untyped groups give no line, but their children
   * are still listed.
   */
  lemma {:induction false} SummaryIsPreorder(fmt: LineFormat, g: PolicyGroup, depth: nat)
    ensures Summary(fmt, g, depth) == Lines(fmt, Preorder(g, depth))
    decreases g
  {
    var rest := PreorderIn(g.children, depth + 1, |g.children|);
    LinesAppend(fmt, [Entry(g, depth)], rest);
    assert [Entry(g, depth)][1..] == [];
    SummaryInIsPreorder(fmt, g.children, depth + 1, |g.children|);
  }

  lemma {:induction false} SummaryInIsPreorder(fmt: LineFormat, gs: seq<PolicyGroup>, depth: nat, k: nat)
    requires k <= |gs|
    ensures SummaryIn(fmt, gs, depth, k) == Lines(fmt, PreorderIn(gs, depth, k))
    decreases gs, k
  {
    if k > 0 {
      SummaryInIsPreorder(fmt, gs, depth, k - 1);
      SummaryIsPreorder(fmt, gs[k - 1], depth);
      LinesStep(fmt, PreorderIn(gs, depth, k - 1), Preorder(gs[k - 1], depth),
                SummaryIn(fmt, gs, depth, k - 1), Summary(fmt, gs[k - 1], depth));
    }
  }

  /** The number of typed groups among the entries. */
  function TypedGroups(es: seq<Entry>): nat
  {
    if es == [] then 0
    else (if es[0].group.groupType != "" then 1 else 0) + TypedGroups(es[1..])
  }

  /** There are as many lines as typed groups. */
  lemma {:induction false} LinesCount(fmt: LineFormat, es: seq<Entry>)
    ensures |Lines(fmt, es)| == TypedGroups(es)
    decreases |es|
  {
    if es != [] {
      LinesCount(fmt, es[1..]);
    }
  }
}
