/**
 * Read-only vocabulary over rule trees used to state what the editors do:
 * the ids in pre-order, the ids of groups, the first group with a given id
 * in the editors' visiting order, and the conditions in pre-order.
 */
module TreeQueries {
  import opened Wrappers
  import opened Interfaces

  /** Every id of the subtree, in pre-order. */
  function Ids(n: Node): (r: seq<string>)
    ensures |r| > 0 && r[0] == n.id
    decreases n
  {
    match n
    case Cond(id, _) => [id]
    case Group(id, _, cs) => [id] + IdsOf(cs)
  }

  function IdsOf(cs: seq<Node>): seq<string>
    decreases cs
  {
    if cs == [] then [] else Ids(cs[0]) + IdsOf(cs[1..])
  }

  predicate Distinct(s: seq<string>)
  {
    forall i, j :: 0 <= i < j < |s| ==> s[i] != s[j]
  }

  /** The parts of a duplicate-free concatenation are duplicate-free and share nothing. */
  lemma DistinctConcat(a: seq<string>, b: seq<string>)
    requires Distinct(a + b)
    ensures Distinct(a) && Distinct(b)
    ensures forall s :: s in a ==> s !in b
  {
    forall i, j | 0 <= i < j < |a|
      ensures a[i] != a[j]
    {
      assert (a + b)[i] == a[i] && (a + b)[j] == a[j];
    }
    forall i, j | 0 <= i < j < |b|
      ensures b[i] != b[j]
    {
      assert (a + b)[|a| + i] == b[i] && (a + b)[|a| + j] == b[j];
    }
    forall i, j | 0 <= i < |a| && 0 <= j < |b|
      ensures a[i] != b[j]
    {
      assert (a + b)[i] == a[i] && (a + b)[|a| + j] == b[j];
    }
  }

  /** Duplicate-free parts that share nothing make a duplicate-free concatenation. */
  lemma DistinctJoin(a: seq<string>, b: seq<string>)
    requires Distinct(a) && Distinct(b)
    requires forall s :: s in a ==> s !in b
    ensures Distinct(a + b)
  {
    forall i, j | 0 <= i < j < |a + b|
      ensures (a + b)[i] != (a + b)[j]
    {
      if j < |a| {
        assert (a + b)[i] == a[i] && (a + b)[j] == a[j];
      } else if i < |a| {
        assert (a + b)[i] == a[i] && (a + b)[j] == b[j - |a|];
        assert a[i] in a && b[j - |a|] in b;
      } else {
        assert (a + b)[i] == b[i - |a|] && (a + b)[j] == b[j - |a|];
      }
    }
  }

  /** The ids of two child lists side by side are the ids of the first, then of the second. */
  lemma {:induction false} IdsOfAppend(a: seq<Node>, b: seq<Node>)
    ensures IdsOf(a + b) == IdsOf(a) + IdsOf(b)
    decreases a
  {
    if a == [] {
      assert a + b == b;
    } else {
      assert (a + b)[0] == a[0] && (a + b)[1..] == a[1..] + b;
      IdsOfAppend(a[1..], b);
    }
  }

  /** In a tree whose ids are pairwise distinct, so are the ids of each child's subtree. */
  lemma {:induction false} DistinctElement(cs: seq<Node>, i: nat)
    requires i < |cs| && Distinct(IdsOf(cs))
    ensures Distinct(Ids(cs[i]))
    decreases cs
  {
    DistinctConcat(Ids(cs[0]), IdsOf(cs[1..]));
    if i > 0 {
      DistinctElement(cs[1..], i - 1);
    }
  }

  /** Every id of the subtree of a child is an id of the child list. */
  lemma {:induction false} IdsOfElement(cs: seq<Node>, i: nat)
    requires i < |cs|
    ensures forall s :: s in Ids(cs[i]) ==> s in IdsOf(cs)
    decreases cs
  {
    if i > 0 {
      IdsOfElement(cs[1..], i - 1);
    }
  }

  /** A child list whose ids avoid `x` holds no child with id `x`. */
  lemma ChildIdsAvoid(cs: seq<Node>, x: string)
    requires x !in IdsOf(cs)
    ensures forall k :: 0 <= k < |cs| ==> cs[k].id != x
  {
    forall k | 0 <= k < |cs|
      ensures cs[k].id != x
    {
      IdsOfElement(cs, k);
    }
  }

  /** Ids of the groups of the subtree, in pre-order. */
  function GroupIds(n: Node): seq<string>
    decreases n
  {
    match n
    case Cond(_, _) => []
    case Group(id, _, cs) => [id] + GroupIdsOf(cs)
  }

  function GroupIdsOf(cs: seq<Node>): seq<string>
    decreases cs
  {
    if cs == [] then [] else GroupIds(cs[0]) + GroupIdsOf(cs[1..])
  }

  /** Group ids are ids. */
  lemma {:induction false} GroupIdsAreIds(n: Node)
    ensures forall s :: s in GroupIds(n) ==> s in Ids(n)
    decreases n
  {
    if n.Group? {
      GroupIdsOfAreIds(n.children);
    }
  }

  lemma {:induction false} GroupIdsOfAreIds(cs: seq<Node>)
    ensures forall s :: s in GroupIdsOf(cs) ==> s in IdsOf(cs)
    decreases cs
  {
    if cs != [] {
      GroupIdsAreIds(cs[0]);
      GroupIdsOfAreIds(cs[1..]);
    }
  }

  /**
   * The first group with id `gid`, visiting a node before its children and
   * not looking inside a matching group: the order in which the editors'
   * `updateTree` meets the groups it changes.
   */
  function FindGroup(n: Node, gid: string): (r: Option<Node>)
    ensures r.Some? ==> r.value.Group? && r.value.id == gid
    decreases n
  {
    match n
    case Cond(_, _) => None
    case Group(id, _, cs) => if id == gid then Some(n) else FindGroupIn(cs, gid)
  }

  function FindGroupIn(cs: seq<Node>, gid: string): (r: Option<Node>)
    ensures r.Some? ==> r.value.Group? && r.value.id == gid
    decreases cs
  {
    if cs == [] then None
    else match FindGroup(cs[0], gid)
      case Some(g) => Some(g)
      case None => FindGroupIn(cs[1..], gid)
  }

  /** A group id is found exactly when it occurs among the group ids. */
  lemma {:induction false} FindGroupInIffGroupId(cs: seq<Node>, gid: string)
    ensures FindGroupIn(cs, gid).Some? <==> gid in GroupIdsOf(cs)
    decreases cs
  {
    if cs != [] {
      FindGroupIffGroupId(cs[0], gid);
      FindGroupInIffGroupId(cs[1..], gid);
    }
  }

  lemma {:induction false} FindGroupIffGroupId(n: Node, gid: string)
    ensures FindGroup(n, gid).Some? <==> gid in GroupIds(n)
    decreases n
  {
    if n.Group? && n.id != gid {
      FindGroupInIffGroupId(n.children, gid);
    }
  }

  /**
   * The node reached from a child list by following child indexes, one per
   * level; `None` when an index is out of range or leads below a condition.
   */
  function NodeAt(cs: seq<Node>, path: seq<nat>): Option<Node>
    decreases |path|
  {
    if path == [] || path[0] >= |cs| then None
    else if |path| == 1 then Some(cs[path[0]])
    else match cs[path[0]]
      case Cond(_, _) => None
      case Group(_, _, children) => NodeAt(children, path[1..])
  }

  /** The conditions of the subtree, in pre-order. */
  function CondList(n: Node): seq<Node>
    decreases n
  {
    match n
    case Cond(_, _) => [n]
    case Group(_, _, cs) => CondListOf(cs)
  }

  function CondListOf(cs: seq<Node>): seq<Node>
    decreases cs
  {
    if cs == [] then [] else CondList(cs[0]) + CondListOf(cs[1..])
  }

  /**
   * The tree with every condition blanked out: the groups with their ids
   * and operators, and the position of every node.
   */
  function Skeleton(n: Node): Node
    decreases n
  {
    match n
    case Cond(_, _) => Cond("", map[])
    case Group(id, op, cs) => Group(id, op, seq(|cs|, i requires 0 <= i < |cs| => Skeleton(cs[i])))
  }

  /** Two child lists with the same skeletons, position by position. */
  ghost predicate SameSkeletons(xs: seq<Node>, ys: seq<Node>)
  {
    |xs| == |ys| && forall i :: 0 <= i < |xs| ==> Skeleton(xs[i]) == Skeleton(ys[i])
  }

  lemma SkeletonChildren(a: Node, b: Node)
    requires a.Group? && Skeleton(a) == Skeleton(b)
    ensures b.Group? && a.id == b.id && a.op == b.op && SameSkeletons(a.children, b.children)
  {
    assert b.Group?;
    forall i | 0 <= i < |a.children|
      ensures Skeleton(a.children[i]) == Skeleton(b.children[i])
    {
      assert Skeleton(a).children[i] == Skeleton(b).children[i];
    }
  }

  /** Equal skeletons hold equally many conditions. */
  lemma {:induction false} SkeletonCondCount(a: Node, b: Node)
    requires Skeleton(a) == Skeleton(b)
    ensures |CondList(a)| == |CondList(b)|
    decreases a
  {
    if a.Group? {
      SkeletonChildren(a, b);
      SkeletonCondCountOf(a.children, b.children);
    }
  }

  lemma {:induction false} SkeletonCondCountOf(xs: seq<Node>, ys: seq<Node>)
    requires SameSkeletons(xs, ys)
    ensures |CondListOf(xs)| == |CondListOf(ys)|
    decreases xs
  {
    if xs != [] {
      SkeletonCondCount(xs[0], ys[0]);
      SkeletonCondCountOf(xs[1..], ys[1..]);
    }
  }

  /**
   * A tree is determined by its skeleton and its conditions in pre-order:
   * together the two describe everything an edit can change.
   */
  lemma {:induction false} SkeletonAndCondListDetermine(a: Node, b: Node)
    requires Skeleton(a) == Skeleton(b) && CondList(a) == CondList(b)
    ensures a == b
    decreases a
  {
    if a.Group? {
      SkeletonChildren(a, b);
      SkeletonAndCondListDetermineOf(a.children, b.children);
    }
  }

  lemma {:induction false} SkeletonAndCondListDetermineOf(xs: seq<Node>, ys: seq<Node>)
    requires SameSkeletons(xs, ys) && CondListOf(xs) == CondListOf(ys)
    ensures xs == ys
    decreases xs
  {
    if xs != [] {
      SkeletonCondCount(xs[0], ys[0]);
      var k := |CondList(xs[0])|;
      assert CondList(xs[0]) == CondListOf(xs)[..k] == CondListOf(ys)[..k] == CondList(ys[0]);
      assert CondListOf(xs[1..]) == CondListOf(xs)[k..] == CondListOf(ys)[k..] == CondListOf(ys[1..]);
      SkeletonAndCondListDetermine(xs[0], ys[0]);
      SkeletonAndCondListDetermineOf(xs[1..], ys[1..]);
      assert xs == [xs[0]] + xs[1..];
      assert ys == [ys[0]] + ys[1..];
    }
  }
}
