/**
 * The token-stream serialiser of src/helper/rule_structure.tsx:
 * `generateRuleStructure` fills a token list by pushes from the recursive
 * `processItem`, which parenthesises every group and pushes the group's
 * operator between consecutive children.
 */
module RuleStructure {
  import opened Interfaces
  import opened Seqs

  /** An entry of the result array: a string, or `undefined` pushed for a missing key. */
  datatype Token = Str(s: string) | Absent

  const Open: Token := Str("(")
  const Close: Token := Str(")")

  function OpToken(op: LogicOp): Token
  {
    Str(OpName(op))
  }

  /** `condition.category`, `condition.operand`, `condition.operator`: no fallback. */
  function FieldToken(attrs: Attrs, f: Field): Token
  {
    if f in attrs then Str(attrs[f]) else Absent
  }

  /** `condition.value ?? ''` */
  function ValueToken(attrs: Attrs): Token
  {
    Str(if Value in attrs then attrs[Value] else "")
  }

  /** The tokens `processItem` pushes for a node. */
  function Render(n: Node): seq<Token>
    decreases n
  {
    match n
    case Cond(_, attrs) =>
      [FieldToken(attrs, Category), FieldToken(attrs, Operand), FieldToken(attrs, Operator), ValueToken(attrs)]
    case Group(_, op, cs) => [Open] + RenderChildren(op, cs, |cs|) + [Close]
  }

  /**
   * The tokens the `forEach` pushes for the first `k` children: each child's
   * tokens, then the operator when the child is not the last one.
   */
  function RenderChildren(op: LogicOp, cs: seq<Node>, k: nat): seq<Token>
    requires k <= |cs|
    decreases cs, k
  {
    if k == 0 then []
    else RenderChildren(op, cs, k - 1) + Render(cs[k - 1]) + (if k - 1 < |cs| - 1 then [OpToken(op)] else [])
  }

  /** `processItem`, with the shared result array passed in and handed back. */
  method ProcessItem(item: Node, result: seq<Token>) returns (out: seq<Token>)
    ensures out == result + Render(item)
    decreases item
  {
    if IsRuleGroup(item) {
      var children := item.children;
      out := result + [Open];
      ghost var start := out;
      for index := 0 to |children|
        invariant out == start + RenderChildren(item.op, children, index)
      {
        ghost var done := RenderChildren(item.op, children, index);
        out := ProcessItem(children[index], out);
        ConcatAssoc(start, done, Render(children[index]));
        ghost var sep: seq<Token> := [];
        if index < |children| - 1 {
          out := out + [OpToken(item.op)];
          sep := [OpToken(item.op)];
        }
        ConcatAssoc(start, done + Render(children[index]), sep);
      }
      assert item == Group(item.id, item.op, children);
      out := out + [Close];
    } else {
      var attrs := item.attrs;
      out := result + [FieldToken(attrs, Category), FieldToken(attrs, Operand), FieldToken(attrs, Operator), ValueToken(attrs)];
    }
  }

  /** `generateRuleStructure`: the tokens of the whole rule, opening and closing with a parenthesis. */
  method GenerateRuleStructure(group: Node) returns (result: seq<Token>)
    requires group.Group?
    ensures result == Render(group)
    ensures |result| >= 2 && result[0] == Open && result[|result| - 1] == Close
  {
    result := ProcessItem(group, []);
  }

  /* ---------------- the shape of the stream ---------------- */

  /** The reference: the parts in order, with `sep` between consecutive parts only. */
  function JoinWith(sep: Token, parts: seq<seq<Token>>): seq<Token>
  {
    if |parts| == 0 then []
    else if |parts| == 1 then parts[0]
    else parts[0] + [sep] + JoinWith(sep, parts[1..])
  }

  lemma {:induction false} JoinWithSnoc(sep: Token, parts: seq<seq<Token>>, p: seq<Token>)
    requires |parts| > 0
    ensures JoinWith(sep, parts + [p]) == JoinWith(sep, parts) + [sep] + p
  {
    if |parts| > 1 {
      assert (parts + [p])[1..] == parts[1..] + [p];
      JoinWithSnoc(sep, parts[1..], p);
    } else {
      assert parts + [p] == [parts[0], p];
      assert (parts + [p])[1..] == [p];
    }
  }

  function Renderings(cs: seq<Node>): seq<seq<Token>>
  {
    seq(|cs|, i requires 0 <= i < |cs| => Render(cs[i]))
  }

  lemma {:induction false} RenderChildrenIsJoin(op: LogicOp, cs: seq<Node>, k: nat)
    requires k <= |cs|
    ensures RenderChildren(op, cs, k)
         == JoinWith(OpToken(op), Renderings(cs)[..k]) + (if 0 < k < |cs| then [OpToken(op)] else [])
    decreases k
  {
    if k > 0 {
      RenderChildrenIsJoin(op, cs, k - 1);
      var parts := Renderings(cs);
      assert parts[..k] == parts[..k - 1] + [Render(cs[k - 1])];
      if k - 1 > 0 {
        JoinWithSnoc(OpToken(op), parts[..k - 1], Render(cs[k - 1]));
      }
    }
  }

  /**
   * A group renders as "(", its children's renderings in order with exactly
   * one operator token between consecutive children and none before the
   * first or after the last, then ")".
   */
  lemma RenderGroup(id: string, op: LogicOp, cs: seq<Node>)
    ensures Render(Group(id, op, cs)) == [Open] + JoinWith(OpToken(op), Renderings(cs)) + [Close]
  {
    RenderChildrenIsJoin(op, cs, |cs|);
    assert Renderings(cs)[..|cs|] == Renderings(cs);
  }

  /** An empty group renders as `["(", ")"]`; a condition as its four fields. */
  lemma RenderSmallCases(id: string, op: LogicOp, attrs: Attrs)
    ensures Render(Group(id, op, [])) == [Open, Close]
    ensures Render(Cond(id, attrs)) == [FieldToken(attrs, Category), FieldToken(attrs, Operand),
                                        FieldToken(attrs, Operator), ValueToken(attrs)]
    ensures Value !in attrs ==> Render(Cond(id, attrs))[3] == Str("")
  {
  }

  /* ---------------- token counts ---------------- */

  function Groups(n: Node): nat
    decreases n
  {
    match n
    case Cond(_, _) => 0
    case Group(_, _, cs) => 1 + GroupsIn(cs, |cs|)
  }

  function GroupsIn(cs: seq<Node>, k: nat): nat
    requires k <= |cs|
    decreases cs, k
  {
    if k == 0 then 0 else GroupsIn(cs, k - 1) + Groups(cs[k - 1])
  }

  function Conditions(n: Node): nat
    decreases n
  {
    match n
    case Cond(_, _) => 1
    case Group(_, _, cs) => ConditionsIn(cs, |cs|)
  }

  function ConditionsIn(cs: seq<Node>, k: nat): nat
    requires k <= |cs|
    decreases cs, k
  {
    if k == 0 then 0 else ConditionsIn(cs, k - 1) + Conditions(cs[k - 1])
  }

  /** Σ max(0, k − 1) over the groups of the subtree, k being the group's number of children. */
  function Separators(n: Node): nat
    decreases n
  {
    match n
    case Cond(_, _) => 0
    case Group(_, _, cs) => (if |cs| > 0 then |cs| - 1 else 0) + SeparatorsIn(cs, |cs|)
  }

  function SeparatorsIn(cs: seq<Node>, k: nat): nat
    requires k <= |cs|
    decreases cs, k
  {
    if k == 0 then 0 else SeparatorsIn(cs, k - 1) + Separators(cs[k - 1])
  }

  /** Length of the stream: two parentheses per group, four tokens per condition, one per separator. */
  lemma {:induction false} RenderLength(n: Node)
    ensures |Render(n)| == 2 * Groups(n) + 4 * Conditions(n) + Separators(n)
    decreases n
  {
    if n.Group? {
      RenderChildrenLength(n.op, n.children, |n.children|);
    }
  }

  lemma {:induction false} RenderChildrenLength(op: LogicOp, cs: seq<Node>, k: nat)
    requires k <= |cs|
    ensures |RenderChildren(op, cs, k)|
         == 2 * GroupsIn(cs, k) + 4 * ConditionsIn(cs, k) + SeparatorsIn(cs, k)
            + (if k == |cs| && k > 0 then k - 1 else k)
    decreases cs, k
  {
    if k > 0 {
      RenderChildrenLength(op, cs, k - 1);
      RenderLength(cs[k - 1]);
    }
  }

  /** No condition of the subtree renders a parenthesis. */
  predicate ParenFree(n: Node)
    decreases n
  {
    match n
    case Cond(_, _) => Open !in Render(n) && Close !in Render(n)
    case Group(_, _, cs) => ParenFreeIn(cs, |cs|)
  }

  predicate ParenFreeIn(cs: seq<Node>, k: nat)
    requires k <= |cs|
    decreases cs, k
  {
    k == 0 || (ParenFreeIn(cs, k - 1) && ParenFree(cs[k - 1]))
  }

  /**
   * Count of a token other than the operator add up child by child:
   * one more child adds that child's occurrences.
   */
  lemma CountStep(op: LogicOp, cs: seq<Node>, k: nat, t: Token, before: nat, last: nat)
    requires 0 < k <= |cs| && t != OpToken(op)
    requires Count(RenderChildren(op, cs, k - 1), t) == before
    requires Count(Render(cs[k - 1]), t) == last
    ensures Count(RenderChildren(op, cs, k), t) == before + last
  {
    var sep: seq<Token> := if k - 1 < |cs| - 1 then [OpToken(op)] else [];
    CountAppend(RenderChildren(op, cs, k - 1) + Render(cs[k - 1]), sep, t);
    CountAppend(RenderChildren(op, cs, k - 1), Render(cs[k - 1]), t);
    if sep != [] {
      assert sep[..0] == [];
    }
  }

  /** As many "(" as ")" tokens: one of each per group. */
  lemma ParenthesesBalance(n: Node)
    requires ParenFree(n)
    ensures multiset(Render(n))[Open] == Groups(n)
    ensures multiset(Render(n))[Close] == Groups(n)
  {
    ParenCount(n, Open);
    CountIsMultiplicity(Render(n), Open);
    ParenCount(n, Close);
    CountIsMultiplicity(Render(n), Close);
  }

  /** Each parenthesis occurs once per group of the subtree. */
  lemma {:induction false} ParenCount(n: Node, t: Token)
    requires ParenFree(n) && (t == Open || t == Close)
    ensures Count(Render(n), t) == Groups(n)
    decreases n
  {
    match n
    case Cond(_, attrs) =>
      CountIsMultiplicity(Render(n), t);
    case Group(_, op, cs) =>
      ParenCountIn(op, cs, |cs|, t);
      CountAppend([Open] + RenderChildren(op, cs, |cs|), [Close], t);
      CountAppend([Open], RenderChildren(op, cs, |cs|), t);
  }

  lemma {:induction false} ParenCountIn(op: LogicOp, cs: seq<Node>, k: nat, t: Token)
    requires k <= |cs| && (t == Open || t == Close)
    requires ParenFreeIn(cs, k)
    ensures Count(RenderChildren(op, cs, k), t) == GroupsIn(cs, k)
    decreases cs, k
  {
    if k > 0 {
      ParenCountIn(op, cs, k - 1, t);
      ParenCount(cs[k - 1], t);
      CountStep(op, cs, k, t, GroupsIn(cs, k - 1), Groups(cs[k - 1]));
    }
  }
}
