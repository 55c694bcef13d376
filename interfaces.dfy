/**
 * The rule-tree node types and the two helpers of src/types/interfaces.tsx:
 * the group/condition classification and the "always an array" guard.
 *
 * TypeScript objects are structural, so a node is classified by the keys it
 * carries. A condition is its `id` plus a map of whichever other keys it has:
 * the editors create conditions whose keys differ from the declared
 * interface (a `field` key, no `operand`, `operator2` or `rules`).
 */
module Interfaces {
  import opened Wrappers


  /** A group's logical operator, `'AND' | 'OR'`. */
  datatype LogicOp = And | Or

  function OpName(op: LogicOp): (s: string)
    ensures s == "AND" || s == "OR"
    ensures op == And <==> s == "AND"
  {
    match op
    case And => "AND"
    case Or => "OR"
  }

  /** The keys a condition may carry besides `id`. */
  datatype Field = Category | Operator | Operand | Operator2 | Rules | Value | FieldKey

  /** The JavaScript property name of a condition key. */
  function FieldName(f: Field): (s: string)
    ensures s != "id" && s != "children"
  {
    match f
    case Category => "category"
    case Operator => "operator"
    case Operand => "operand"
    case Operator2 => "operator2"
    case Rules => "rules"
    case Value => "value"
    case FieldKey => "field"
  }

  type Attrs = map<Field, string>

  /** `RuleElement = Condition | RuleGroup`. */
  datatype Node =
    | Cond(id: string, attrs: Attrs)
    | Group(id: string, op: LogicOp, children: seq<Node>)

  /** The property names present on the object that represents `n`. */
  function Keys(n: Node): set<string>
  {
    match n
    case Cond(_, attrs) => {"id"} + set f | f in attrs :: FieldName(f)
    case Group(_, _, _) => {"id", "operator", "children"}
  }

  /**
   * `'operator' in element && 'children' in element`: the key test
   * classifies exactly the groups as groups.
   */
  predicate IsRuleGroup(n: Node)
    ensures IsRuleGroup(n) <==> n.Group?
  {
    "operator" in Keys(n) && "children" in Keys(n)
  }

  /** `'children' in child`, the discriminator of the older editor. */
  predicate HasChildren(n: Node)
    ensures HasChildren(n) <==> n.Group?
  {
    "children" in Keys(n)
  }

  /** `'category' in child`, the condition test of the older editor's `updateCondition`. */
  predicate HasCategory(n: Node)
    ensures HasCategory(n) <==> n.Cond? && Category in n.attrs
  {
    "category" in Keys(n)
  }

  /** A condition carrying an `operator` key is still not a group. */
  lemma ConditionWithOperatorIsNoGroup(id: string, attrs: Attrs)
    requires Operator in attrs
    ensures "operator" in Keys(Cond(id, attrs))
    ensures !IsRuleGroup(Cond(id, attrs))
  {
  }

  /** `Partial<Condition>`: the keys a patch sets, `id` included. */
  datatype ConditionPatch = ConditionPatch(newId: Option<string>, attrs: Attrs)

  /** `{ ...child, ...updatedCondition }` on a condition: the patch's keys win. */
  function MergeCondition(c: Node, patch: ConditionPatch): (r: Node)
    requires c.Cond?
    ensures r.Cond?
    ensures r.attrs.Keys == c.attrs.Keys + patch.attrs.Keys
    ensures forall f :: f in patch.attrs ==> r.attrs[f] == patch.attrs[f]
    ensures forall f :: f in c.attrs && f !in patch.attrs ==> r.attrs[f] == c.attrs[f]
    ensures r.id == (if patch.newId.Some? then patch.newId.value else c.id)
  {
    Cond(if patch.newId.Some? then patch.newId.value else c.id, c.attrs + patch.attrs)
  }

  /** Merging the same patch twice merges it once. */
  lemma MergeConditionIdempotent(c: Node, patch: ConditionPatch)
    requires c.Cond?
    ensures MergeCondition(MergeCondition(c, patch), patch) == MergeCondition(c, patch)
  {
    var once := MergeCondition(c, patch);
    assert once.attrs + patch.attrs == once.attrs;
  }

  /** A dynamically typed JavaScript value, as `ensureArray` receives it. */
  datatype Dyn<T> =
    | Undefined
    | Null
    | Boolean(b: bool)
    | Number(n: int)
    | Text(s: string)
    | Object
    | Array(items: seq<T>)

  /** `ensureArray`: the array itself, or `[]` for anything that is not an array. */
  function EnsureArray<T>(children: Dyn<T>): (r: seq<T>)
    ensures children.Array? ==> r == children.items
    ensures !children.Array? ==> r == []
  {
    if children.Array? then children.items else []
  }

  /** Guarding an already guarded value changes nothing. */
  lemma EnsureArrayIdempotent<T>(children: Dyn<T>)
    ensures EnsureArray(Array(EnsureArray(children))) == EnsureArray(children)
  {
  }
}
