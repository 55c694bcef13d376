/**
 * The older copy-on-write rule editor of src/components/rule_builder.tsx.
 * Its `updateTree` tells groups by a `children` key and walks only the
 * root's children, and no handler special-cases `'root'`: the root itself
 * can never be the target of an edit. Ids come from `uuidv4` in the source;
 * here they are a parameter.
 */
module RuleBuilder {
  import opened Wrappers
  import opened Interfaces
  import opened TreeQueries
  import Improved = ImprovedRuleBuilder

  /** `updateTree`, with `'children' in child` as the group test. */
  function UpdateTree(children: seq<Node>, groupId: string, updateFn: Node -> Node): (r: seq<Node>)
    ensures |r| == |children|
    decreases children
  {
    seq(|children|, i requires 0 <= i < |children| => UpdateChild(children[i], groupId, updateFn))
  }

  function UpdateChild(child: Node, groupId: string, updateFn: Node -> Node): Node
    decreases child
  {
    if HasChildren(child) then
      if child.id == groupId then updateFn(child)
      else child.(children := UpdateTree(child.children, groupId, updateFn))
    else child
  }

  /** The two walkers compute the same list on every input: the two group tests agree. */
  lemma {:induction false} UpdateTreeAgrees(children: seq<Node>, groupId: string, f: Node -> Node)
    ensures UpdateTree(children, groupId, f) == Improved.UpdateTree(children, groupId, f)
    decreases children
  {
    forall i | 0 <= i < |children|
      ensures UpdateChild(children[i], groupId, f) == Improved.UpdateChild(children[i], groupId, f)
    {
      UpdateChildAgrees(children[i], groupId, f);
    }
  }

  lemma {:induction false} UpdateChildAgrees(child: Node, groupId: string, f: Node -> Node)
    ensures UpdateChild(child, groupId, f) == Improved.UpdateChild(child, groupId, f)
    decreases child
  {
    if child.Group? && child.id != groupId {
      UpdateTreeAgrees(child.children, groupId, f);
    }
  }

  /* ---------------- adding nodes ---------------- */

  /** The state update shared by `addCondition` and `addGroup`. */
  function AddChild(prev: Node, parentId: string, node: Node): (r: Node)
    requires prev.Group?
    ensures r.Group? && r.id == prev.id && r.op == prev.op
  {
    prev.(children := UpdateTree(prev.children, parentId, Improved.AppendChild(node)))
  }

  function AddCondition(prev: Node, parentId: string, newId: string): Node
    requires prev.Group?
  {
    AddChild(prev, parentId, Improved.NewCondition(newId))
  }

  function AddGroup(prev: Node, parentId: string, newId: string): Node
    requires prev.Group?
  {
    AddChild(prev, parentId, Improved.NewGroup(newId))
  }

  /** The first group named `parentId` below the root gains `node` as its last child. */
  lemma AddChildFind(prev: Node, parentId: string, node: Node)
    requires prev.Group?
    ensures FindGroupIn(AddChild(prev, parentId, node).children, parentId)
         == (match FindGroupIn(prev.children, parentId)
             case None => None
             case Some(g) => Some(g.(children := g.children + [node])))
  {
    UpdateTreeAgrees(prev.children, parentId, Improved.AppendChild(node));
    Improved.AppendChildKeepsGroup(parentId, node);
    Improved.UpdateTreeFind(prev.children, parentId, Improved.AppendChild(node));
  }

  /** Adding under an id that names no group below the root gives back an equal tree. */
  lemma AddChildUnknownParent(prev: Node, parentId: string, node: Node)
    requires prev.Group? && parentId !in GroupIdsOf(prev.children)
    ensures AddChild(prev, parentId, node) == prev
  {
    UpdateTreeAgrees(prev.children, parentId, Improved.AppendChild(node));
    Improved.UpdateTreeNoMatch(prev.children, parentId, Improved.AppendChild(node));
  }

  /** With unique ids, adding under the root's own id changes nothing. */
  lemma AddChildUnderRootIsNoOp(prev: Node, node: Node)
    requires prev.Group? && Distinct(Ids(prev))
    ensures AddChild(prev, prev.id, node) == prev
  {
    DistinctConcat([prev.id], IdsOf(prev.children));
    GroupIdsOfAreIds(prev.children);
    AddChildUnknownParent(prev, prev.id, node);
  }

  /** Below the root the two editors add alike. */
  lemma AddChildAgreesBelowRoot(prev: Node, parentId: string, node: Node)
    requires prev.Group? && parentId != Improved.RootId
    ensures AddChild(prev, parentId, node) == Improved.AddChild(prev, parentId, node)
  {
    UpdateTreeAgrees(prev.children, parentId, Improved.AppendChild(node));
  }

  /**
   * At `'root'` they differ: the newer editor appends to the root, the older
   * one leaves the tree as it was (when no group below the root is named `'root'`).
   */
  lemma AddChildDiffersAtRoot(prev: Node, node: Node)
    requires prev.Group? && Improved.RootId !in GroupIdsOf(prev.children)
    ensures AddChild(prev, Improved.RootId, node) == prev
    ensures |Improved.AddChild(prev, Improved.RootId, node).children| == |prev.children| + 1
  {
    AddChildUnknownParent(prev, Improved.RootId, node);
  }

  /* ---------------- the group operator ---------------- */

  /** `updateGroupOperator`: only groups below the root can be reached. */
  function UpdateGroupOperator(prev: Node, groupId: string, operator: LogicOp): (r: Node)
    requires prev.Group?
    ensures r.Group? && r.id == prev.id && r.op == prev.op
  {
    prev.(children := UpdateTree(prev.children, groupId, Improved.SetOperator(operator)))
  }

  /** The first group named `groupId` below the root now has the new operator. */
  lemma UpdateGroupOperatorFind(prev: Node, groupId: string, operator: LogicOp)
    requires prev.Group?
    ensures FindGroupIn(UpdateGroupOperator(prev, groupId, operator).children, groupId)
         == (match FindGroupIn(prev.children, groupId)
             case None => None
             case Some(g) => Some(g.(op := operator)))
  {
    UpdateTreeAgrees(prev.children, groupId, Improved.SetOperator(operator));
    assert Improved.KeepsGroup(groupId, Improved.SetOperator(operator));
    Improved.UpdateTreeFind(prev.children, groupId, Improved.SetOperator(operator));
  }

  /** Setting the same operator twice sets it once. */
  lemma UpdateGroupOperatorIdempotent(prev: Node, groupId: string, operator: LogicOp)
    requires prev.Group?
    ensures UpdateGroupOperator(UpdateGroupOperator(prev, groupId, operator), groupId, operator)
         == UpdateGroupOperator(prev, groupId, operator)
  {
    var f := Improved.SetOperator(operator);
    var once := UpdateTree(prev.children, groupId, f);
    UpdateTreeAgrees(prev.children, groupId, f);
    UpdateTreeAgrees(once, groupId, f);
    assert Improved.KeepsGroup(groupId, f);
    Improved.UpdateTreeIdempotent(prev.children, groupId, f);
  }

  /* ---------------- patching conditions ---------------- */

  /**
   * The callback of the older `updateCondition`: inside a group named
   * `conditionId`, merge the patch onto its direct children that have a
   * `category` key and are also named `conditionId`.
   */
  function PatchDirectChildren(conditionId: string, patch: ConditionPatch): Node -> Node
  {
    (item: Node) =>
      if item.Group? then
        item.(children := seq(|item.children|, i requires 0 <= i < |item.children| =>
          if HasCategory(item.children[i]) && item.children[i].id == conditionId
          then MergeCondition(item.children[i], patch)
          else item.children[i]))
      else item
  }

  /** `updateCondition`: walks to groups named `conditionId`, not to conditions. */
  function UpdateCondition(prev: Node, conditionId: string, patch: ConditionPatch): (r: Node)
    requires prev.Group?
    ensures r.Group? && r.id == prev.id && r.op == prev.op
  {
    prev.(children := UpdateTree(prev.children, conditionId, PatchDirectChildren(conditionId, patch)))
  }

  /**
   * What it does change: the first group named `conditionId` below the root,
   * whose direct children named `conditionId` get the patch.
   */
  lemma UpdateConditionFind(prev: Node, conditionId: string, patch: ConditionPatch)
    requires prev.Group?
    ensures FindGroupIn(UpdateCondition(prev, conditionId, patch).children, conditionId)
         == (match FindGroupIn(prev.children, conditionId)
             case None => None
             case Some(g) => Some(PatchDirectChildren(conditionId, patch)(g)))
  {
    var f := PatchDirectChildren(conditionId, patch);
    UpdateTreeAgrees(prev.children, conditionId, f);
    assert Improved.KeepsGroup(conditionId, f);
    Improved.UpdateTreeFind(prev.children, conditionId, f);
  }

  /**
   * When ids are unique across the tree, no group shares its id with a child,
   * so `updateCondition` returns a tree equal to its input.
   */
  lemma UpdateConditionUniqueIdsNoOp(prev: Node, conditionId: string, patch: ConditionPatch)
    requires prev.Group? && Distinct(Ids(prev))
    ensures UpdateCondition(prev, conditionId, patch) == prev
  {
    DistinctConcat([prev.id], IdsOf(prev.children));
    PatchDirectNoOp(prev.children, conditionId, patch);
  }

  lemma {:induction false} PatchDirectNoOp(children: seq<Node>, conditionId: string, patch: ConditionPatch)
    requires Distinct(IdsOf(children))
    ensures UpdateTree(children, conditionId, PatchDirectChildren(conditionId, patch)) == children
    decreases children
  {
    var f := PatchDirectChildren(conditionId, patch);
    forall i | 0 <= i < |children|
      ensures UpdateChild(children[i], conditionId, f) == children[i]
    {
      var c := children[i];
      if c.Group? {
        DistinctElement(children, i);
        DistinctConcat([c.id], IdsOf(c.children));
        if c.id == conditionId {
          ChildIdsAvoid(c.children, conditionId);
          assert f(c).children == c.children;
        } else {
          PatchDirectNoOp(c.children, conditionId, patch);
        }
      }
    }
  }
}
