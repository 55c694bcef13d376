# RuleBuilder rule trees, in Dafny

This project models the logic of the RuleBuilder React application:

- **The rule tree.** A `Group` has an id, an `AND`/`OR` operator and an ordered list of children. Each child is a group or a leaf `Condition`.
- **The tree editors.** There are two copy-on-write editors for this tree, the older `rule_builder.tsx` and the newer `improved_rule_builder.tsx`. Both are built on an `updateTree` walker that maps over a child list and replaces the groups with a given id.
- **The token-stream serialiser** `generateRuleStructure`.
- **The id-free JSON export** `generateRuleJSON`.
- **The pricing-policy forest** of `WaltonPolicy.tsx`:
  - counter-allocated ids;
  - patching and price-type defaults;
  - an in-place remove;
  - the indented rule summary.
- **The flat rule list** of `state/ruleBuilder.tsx`.

The modules are:

- `Interfaces` (`interfaces.dfy`): the node datatype, the key-based group test `isRuleGroup`, the older editor's `'children' in` test, the spread merge of a condition patch, and `ensureArray` over a dynamically typed value.
- `TreeQueries` (`tree_queries.dfy`): read-only vocabulary used to state the editors' properties. It covers:
  - the ids and group ids in pre-order;
  - the first group with an id, in the walkers' visiting order;
  - the conditions in pre-order;
  - the tree's skeleton, meaning its groups and positions with the conditions blanked.
- `RuleStructure` (`rule_structure.dfy`): `processItem` as a recursive method. It appends to the token array with a `for` loop over the children, mirroring the `forEach`. It is proved against `Render`. Around `Render` there are:
  - the join-with-separator reference;
  - the length formula;
  - the parenthesis balance.
- `ImprovedRuleBuilder` (`improved_rule_builder.dfy`):
  - `updateTree` and the handlers built on it;
  - `generateRuleJSON` as a loop method proved against `Export`;
  - the component state as a class whose handlers replace `rootGroup`.
- `RuleBuilder` (`rule_builder.dfy`): the older editor. The model proves where it agrees with the newer one and where it does not.
- `WaltonPolicy` (`walton_policy.dfy`):
  - the policy groups;
  - the shared map-and-replace walker behind `updateGroup` and `updatePriceType`;
  - the default tables;
  - `removeGroupById` as a loop method over a `Removed` reference;
  - the component state, as a class holding the forest and the id counter.
- `PolicySummary` (`policy_summary.dfy`):
  - `summarizeGroup` and the `allSummaries` loop as methods;
  - a proof that they list the typed groups in pre-order, each at its own depth.
- `RuleList` (`rule_list.dfy`): the three-input flat rule list, as a class.
- `Decimal` (`decimal.dfy`), `Seqs` (`seqs.dfy`) and `Wrappers` (`wrappers.dfy`) are helpers:
  - decimal printing of numbers, as template literals do it;
  - sequence facts;
  - `Option`.

How the model represents the source:

- **Conditions.** A condition is its id plus a map of the other keys it carries. The editors create conditions with a `field` key and without `operand`, so the model cannot assume a fixed record.
- **Missing keys.** A missing `category`, `operand` or `operator` is pushed into the token stream as `undefined`, written `Absent`. Only `value` has the `?? ''` fallback.
- **Fresh ids.** The random ids of the editors (`Math.random`, `uuidv4`) are a parameter of each operation that creates a node. Freshness is a hypothesis of the lemmas that need it.

## Model

| member | source | states |
|---|---|---|
| Interfaces.OpName | src/types/interfaces.tsx:14 | the operator prints as "AND" or "OR", "AND" exactly for `And` |
| Interfaces.IsRuleGroup | src/types/interfaces.tsx:22-24 | the test "has an `operator` key and a `children` key" holds exactly for groups |
| Interfaces.ConditionWithOperatorIsNoGroup | src/types/interfaces.tsx:22-24 | a condition carrying an `operator` key has that key and is still classified as not a group |
| Interfaces.EnsureArray | src/types/interfaces.tsx:27-32 | an array is returned unchanged; anything else (undefined, null, a number, a string, an object) gives `[]` |
| Interfaces.EnsureArrayIdempotent | src/types/interfaces.tsx:27-32 | guarding an already guarded value gives the same array |
| Interfaces.HasChildren | src/components/rule_builder.tsx:23 | the older editor's test `'children' in child` holds exactly for groups |
| Interfaces.HasCategory | src/components/rule_builder.tsx:87 | `'category' in child` holds exactly for conditions that carry a category |
| Interfaces.MergeCondition | src/components/improved_rule_builder.tsx:159 | the merged condition has the keys of both; the patch's values win; every other value is kept; the id changes only when the patch gives one |
| Interfaces.MergeConditionIdempotent | src/components/improved_rule_builder.tsx:159 | merging a patch twice equals merging it once |
| RuleStructure.ProcessItem | src/helper/rule_structure.tsx:7-26 | the token array afterwards is the array before it followed by exactly the item's rendering |
| RuleStructure.GenerateRuleStructure | src/helper/rule_structure.tsx:4-30 | the result is the group's rendering; it has at least two tokens, opens with "(" and closes with ")" |
| RuleStructure.RenderChildrenIsJoin | src/helper/rule_structure.tsx:10-15 | after k children the loop has pushed their renderings joined by the operator, plus one trailing operator when more children follow |
| RuleStructure.RenderGroup | src/helper/rule_structure.tsx:8-16 | a group renders as "(", its children's renderings in order with exactly one operator between consecutive children and none at the ends, then ")" |
| RuleStructure.RenderSmallCases | src/helper/rule_structure.tsx:8-25 | an empty group renders as `["(", ")"]`; a condition renders as the four tokens category, operand, operator, value; a missing value renders as "" |
| RuleStructure.RenderLength | src/helper/rule_structure.tsx:4-29 | the stream's length is 2·groups + 4·conditions + Σ max(0, k−1) over the groups, where k is each group's number of children |
| RuleStructure.ParenthesesBalance | src/helper/rule_structure.tsx:4-29 | when no condition field is itself a parenthesis, "(" and ")" each occur once per group of the tree |
| ImprovedRuleBuilder.UpdateTree | src/components/improved_rule_builder.tsx:74-95 | the walker returns a list of the same length; each condition is kept, each group with the id becomes the update of it, each other group keeps its id, operator and number of children |
| ImprovedRuleBuilder.UpdateChild | src/components/improved_rule_builder.tsx:78-94 | the callback keeps a condition, hands a matching group to the update, and keeps the id, operator and number of children of any other group |
| ImprovedRuleBuilder.UpdateTreeAt | src/components/improved_rule_builder.tsx:74-95 | at any depth, a node reached through groups without the id is still there and is treated as the callback treats it: kept, updated, or rebuilt with the same id, operator and number of children |
| ImprovedRuleBuilder.UpdateTreeNoMatch | src/components/improved_rule_builder.tsx:79-94 | when no group has the id, the walker returns an equal list |
| ImprovedRuleBuilder.UpdateTreeFind | src/components/improved_rule_builder.tsx:74-95 | for an update that keeps a matched group's id, the first matching group of the result is `updateFn` of the first matching group of the input, and one exists in the result exactly when one exists in the input |
| ImprovedRuleBuilder.UpdateTreeIdempotent | src/components/improved_rule_builder.tsx:74-95 | walking twice with an update that settles after one application equals walking once |
| ImprovedRuleBuilder.AddChild | src/components/improved_rule_builder.tsx:105-151 | the root keeps its id and operator; under `'root'` the new node is appended as the root's last child |
| ImprovedRuleBuilder.AddChildFind | src/components/improved_rule_builder.tsx:119-126 | under any other id, the first group with that id gains the new node as its last child, and such a group exists afterwards exactly when it did before |
| ImprovedRuleBuilder.AddChildUnknownParent | src/components/improved_rule_builder.tsx:119-126 | adding under an id that names no group below the root gives back an equal tree |
| ImprovedRuleBuilder.AddChildKeepsDistinct | src/components/improved_rule_builder.tsx:105-151 | adding a node whose ids are distinct and unused keeps every id of the tree distinct, so the node is added at most once |
| ImprovedRuleBuilder.FilterChildren | src/components/improved_rule_builder.tsx:196-198 | no child left has the id; the list never grows; a list without the id comes back unchanged |
| ImprovedRuleBuilder.FilterChildrenAppend | src/components/improved_rule_builder.tsx:196-198 | filtering distributes over concatenation, so survivors keep their order |
| ImprovedRuleBuilder.FilterChildrenCount | src/components/improved_rule_builder.tsx:196-198 | a child with the id occurs 0 times afterwards; any other child occurs exactly as often as before |
| ImprovedRuleBuilder.DeleteChild | src/components/improved_rule_builder.tsx:195-214 | the root keeps its id and operator; under `'root'` the root's children are the old ones without those with the deleted id, the others in order |
| ImprovedRuleBuilder.DeleteChildAt | src/components/improved_rule_builder.tsx:205-213 | below the root, at any depth along groups not named by the parent id: a condition is unchanged, every node keeps its id, a group with the parent id loses exactly its direct children with the deleted id, and any other group keeps its operator and number of children |
| ImprovedRuleBuilder.DeleteChildFind | src/components/improved_rule_builder.tsx:205-213 | below the root, the first group with the parent id loses exactly its direct children with the deleted id (with their subtrees) |
| ImprovedRuleBuilder.DeleteChildIdempotent | src/components/improved_rule_builder.tsx:195-214 | deleting twice equals deleting once |
| ImprovedRuleBuilder.DeleteChildAbsent | src/components/improved_rule_builder.tsx:195-214 | when the targeted parent (the root under `'root'`, otherwise each group the walk hands to the update) has no direct child with the id, deleting gives back an equal tree |
| ImprovedRuleBuilder.AddThenDelete | src/components/improved_rule_builder.tsx:195-214 | adding a node whose id is fresh and then deleting that id under the same parent restores the original tree |
| ImprovedRuleBuilder.UpdateCondition | src/components/improved_rule_builder.tsx:172-175 | the root keeps its id and operator |
| ImprovedRuleBuilder.UpdateConditionKeepsSkeleton | src/components/improved_rule_builder.tsx:153-176 | every group, with its id and operator, and the position of every node are unchanged |
| ImprovedRuleBuilder.UpdateConditionCondList | src/components/improved_rule_builder.tsx:153-176 | the conditions in pre-order are the old ones, with the patch merged onto exactly those with the id, at any depth |
| ImprovedRuleBuilder.UpdateConditionIdempotent | src/components/improved_rule_builder.tsx:153-176 | patching twice with the same patch equals patching once |
| ImprovedRuleBuilder.UpdateConditionAbsent | src/components/improved_rule_builder.tsx:153-176 | with no condition having the id, the tree comes back unchanged |
| ImprovedRuleBuilder.UpdateGroupOperator | src/components/improved_rule_builder.tsx:178-193 | under `'root'` only the root's operator changes; otherwise the root keeps its id and operator |
| ImprovedRuleBuilder.UpdateGroupOperatorFind | src/components/improved_rule_builder.tsx:184-192 | below the root, the first group with the id has the new operator and is otherwise unchanged |
| ImprovedRuleBuilder.UpdateGroupOperatorAt | src/components/improved_rule_builder.tsx:184-192 | below the root, at any depth along groups without the id: a condition is unchanged, a group with the id gets the new operator and nothing else, and any other group keeps its id, operator and number of children |
| ImprovedRuleBuilder.UpdateGroupOperatorIdempotent | src/components/improved_rule_builder.tsx:178-193 | setting the same operator twice equals setting it once |
| ImprovedRuleBuilder.UpdateGroupOperatorKeepsConditions | src/components/improved_rule_builder.tsx:178-193 | the conditions and the group ids, in pre-order, are unchanged |
| ImprovedRuleBuilder.GenerateRuleJSON | src/components/improved_rule_builder.tsx:7-28 | the pushes of the loop build exactly the export of the group: the operator and one rule per child, in order |
| ImprovedRuleBuilder.ExportForgetsOnlyIds | src/components/improved_rule_builder.tsx:9-20 | two trees export equally exactly when they have the same shape, operators and condition fields, whatever their ids |
| ImprovedRuleBuilder.BuilderState.constructor | src/components/improved_rule_builder.tsx:63-69 | the state starts as an empty `AND` group with id `'root'` and no generated JSON |
| ImprovedRuleBuilder.BuilderState.GenerateRule | src/components/improved_rule_builder.tsx:97-100 | the stored JSON is the export of the current tree, and the tree is unchanged |
| ImprovedRuleBuilder.BuilderState.OnAddCondition | src/components/improved_rule_builder.tsx:105-128 | the tree becomes `AddCondition` of the old tree; the root stays a group with id `'root'` |
| ImprovedRuleBuilder.BuilderState.OnAddGroup | src/components/improved_rule_builder.tsx:130-151 | the tree becomes `AddGroup` of the old tree; the root stays a group with id `'root'` |
| ImprovedRuleBuilder.BuilderState.OnUpdateCondition | src/components/improved_rule_builder.tsx:153-176 | the tree becomes `UpdateCondition` of the old tree; the root stays a group with id `'root'` |
| ImprovedRuleBuilder.BuilderState.OnUpdateGroupOperator | src/components/improved_rule_builder.tsx:178-193 | the tree becomes `UpdateGroupOperator` of the old tree; the root stays a group with id `'root'` |
| ImprovedRuleBuilder.BuilderState.OnDeleteChild | src/components/improved_rule_builder.tsx:195-214 | the tree becomes `DeleteChild` of the old tree; the root stays a group with id `'root'` |
| RuleBuilder.UpdateTree | src/components/rule_builder.tsx:17-38 | the older walker returns a list of the same length |
| RuleBuilder.UpdateTreeAgrees | src/components/rule_builder.tsx:17-38 | on every input the older walker, which tests for a `children` key, computes the same list as the newer one |
| RuleBuilder.AddChild | src/components/rule_builder.tsx:41-79 | the root keeps its id and operator |
| RuleBuilder.AddChildFind | src/components/rule_builder.tsx:41-60 | the first group with the parent id below the root gains the node as its last child |
| RuleBuilder.AddChildUnknownParent | src/components/rule_builder.tsx:41-60 | adding under an id that names no group below the root gives back an equal tree |
| RuleBuilder.AddChildUnderRootIsNoOp | src/components/rule_builder.tsx:41-60 | with unique ids, adding under the root's own id gives back an equal tree |
| RuleBuilder.AddChildAgreesBelowRoot | src/components/rule_builder.tsx:41-79 | for any parent id other than `'root'`, the older add equals the newer one |
| RuleBuilder.AddChildDiffersAtRoot | src/components/rule_builder.tsx:41-79 | under `'root'` the older add changes nothing, while the newer one adds a child to the root |
| RuleBuilder.UpdateGroupOperator | src/components/rule_builder.tsx:95-104 | the root's id and operator never change |
| RuleBuilder.UpdateGroupOperatorFind | src/components/rule_builder.tsx:95-104 | the first group with the id below the root has the new operator |
| RuleBuilder.UpdateGroupOperatorIdempotent | src/components/rule_builder.tsx:95-104 | setting the same operator twice equals setting it once |
| RuleBuilder.UpdateCondition | src/components/rule_builder.tsx:81-93 | the root keeps its id and operator |
| RuleBuilder.UpdateConditionFind | src/components/rule_builder.tsx:81-93 | what changes is the first group whose own id is the condition id: its direct children with a category and that id get the patch |
| RuleBuilder.UpdateConditionUniqueIdsNoOp | src/components/rule_builder.tsx:81-93 | when ids are unique across the tree, the result equals the input |
| Decimal.NatToString | src/components/WaltonPolicy.tsx:36 | the decimal text of a counter is non-empty, all digits, without a leading zero, and one digit exactly below 10 |
| Decimal.NatToStringInjective | src/components/WaltonPolicy.tsx:36 | different numbers print differently |
| Decimal.IntToString | src/components/WaltonPolicy.tsx:551 | an integer prints with a leading "-" exactly when negative |
| Decimal.IntToStringInjective | src/components/WaltonPolicy.tsx:551 | different integers print differently |
| WaltonPolicy.GroupId | src/components/WaltonPolicy.tsx:36 | a new id is `group-` followed by the counter |
| WaltonPolicy.GroupIdInjective | src/components/WaltonPolicy.tsx:34-45 | different counter values give different ids |
| WaltonPolicy.NewGroup | src/components/WaltonPolicy.tsx:35-41 | the new group has the given id and an empty name, type, config and children |
| WaltonPolicy.IssuedIsNotNext | src/components/WaltonPolicy.tsx:34-45 | no id issued by an earlier counter value equals the id the counter issues now |
| WaltonPolicy.MapMatching | src/components/WaltonPolicy.tsx:48-61 | at the top level, every group with the id is replaced by the update of it; every other group keeps its fields and number of children |
| WaltonPolicy.MapOne | src/components/WaltonPolicy.tsx:49-58 | a group with the id becomes the update of it; any other group keeps its fields and number of children |
| WaltonPolicy.MapMatchingAt | src/components/WaltonPolicy.tsx:48-61 | at any depth, a group reached through groups without the id is still there; it becomes the update of it when it has the id, and otherwise keeps its fields and number of children |
| WaltonPolicy.MapMatchingNoMatch | src/components/WaltonPolicy.tsx:48-61 | when no group has the id, the walk returns an equal forest |
| WaltonPolicy.MapMatchingKeepsIds | src/components/WaltonPolicy.tsx:83-103 | an update keeping ids and children keeps every id of the forest, in order |
| WaltonPolicy.MapMatchingIdempotent | src/components/WaltonPolicy.tsx:48-61 | an update that keeps the id and settles after one application makes the walk idempotent |
| WaltonPolicy.MergePatch | src/components/WaltonPolicy.tsx:52 | each field the patch gives wins; each field it leaves out is kept |
| WaltonPolicy.UpdateNestedGroupsNoMatch | src/components/WaltonPolicy.tsx:48-64 | a patch naming no group changes nothing |
| WaltonPolicy.UpdateNestedGroupsAt | src/components/WaltonPolicy.tsx:48-64 | at any depth, a group with the id that no group with the id encloses gets the patch merged in; every other group on the way keeps its id, name, type and config |
| WaltonPolicy.UpdateNestedGroupsIdempotent | src/components/WaltonPolicy.tsx:48-64 | a patch that keeps the id, applied twice, equals applying it once |
| WaltonPolicy.UpdateNestedGroupsKeepsIds | src/components/WaltonPolicy.tsx:48-64 | a patch setting neither id nor children keeps every id in place |
| WaltonPolicy.DefaultConfigForPriceType | src/components/WaltonPolicy.tsx:68-81 | the defaults always set `priceType` to the chosen type and use only the known config keys |
| WaltonPolicy.SetPriceType | src/components/WaltonPolicy.tsx:86-96 | only the config of the matched group changes |
| WaltonPolicy.SetPriceTypeConfig | src/components/WaltonPolicy.tsx:86-96 | every old key stays, `priceType` is the chosen type, the defaults win, and other old values are kept |
| WaltonPolicy.HireOutstandingDefaults | src/components/WaltonPolicy.tsx:74-75 | `hireOutstanding` sets 16 % load, 20 % down payment and 12 months |
| WaltonPolicy.UnknownPriceType | src/components/WaltonPolicy.tsx:78-79 | an unknown price type sets `priceType` and nothing else |
| WaltonPolicy.UpdateGroupConfigNoMatch | src/components/WaltonPolicy.tsx:83-104 | a parent id naming no group changes nothing |
| WaltonPolicy.UpdateGroupConfigIdempotent | src/components/WaltonPolicy.tsx:83-104 | choosing the same price type twice equals choosing it once |
| WaltonPolicy.UpdateGroupConfigKeepsIds | src/components/WaltonPolicy.tsx:83-104 | every id of the forest stays in place |
| WaltonPolicy.UpdateGroupConfigAt | src/components/WaltonPolicy.tsx:83-104 | at any depth, a group with the parent id that no group with that id encloses gets its config spread with the price type's defaults; every other group on the way keeps its id and config |
| WaltonPolicy.GetDefaultConfigForType | src/components/WaltonPolicy.tsx:165-176 | the default config is empty exactly for types other than price, duration and processingFees |
| WaltonPolicy.GetDefaultNameForType | src/components/WaltonPolicy.tsx:179-190 | the default name is never empty |
| WaltonPolicy.TypeChangePatch | src/components/WaltonPolicy.tsx:136-145 | the patch sets the type and that type's default config, keeps a non-empty name or else sets a non-empty default name, and leaves id and children alone |
| WaltonPolicy.NameChangePatch | src/components/WaltonPolicy.tsx:148-150 | the patch sets the name and nothing else |
| WaltonPolicy.Removed | src/components/WaltonPolicy.tsx:111-121 | no top-level group left has the id, and the list never grows |
| WaltonPolicy.Pruned | src/components/WaltonPolicy.tsx:116-118 | a surviving group keeps its id, name, type and config; its children, if it has any, are the removal from its children |
| WaltonPolicy.RemoveGroupById | src/components/WaltonPolicy.tsx:111-121 | the filter loop, pruning each survivor before keeping it, returns exactly `Removed` |
| WaltonPolicy.RemovedNoMatch | src/components/WaltonPolicy.tsx:110-124 | removing an id that nobody has returns an equal forest |
| WaltonPolicy.RemovedGone | src/components/WaltonPolicy.tsx:110-124 | afterwards the id occurs nowhere in the forest, at any depth |
| WaltonPolicy.RemovedIdsSubset | src/components/WaltonPolicy.tsx:110-124 | removal only drops groups: every id left was there before |
| WaltonPolicy.RemovedTops | src/components/WaltonPolicy.tsx:110-124 | the surviving top-level ids are the old ones without the id, in their old order |
| WaltonPolicy.RemovedFrom | src/components/WaltonPolicy.tsx:110-124 | every group of the result is a surviving input group, pruned, so at every depth fields and order are kept |
| WaltonPolicy.RemovedKeepsElement | src/components/WaltonPolicy.tsx:112-120 | every id of a surviving group, pruned, is an id of the result |
| WaltonPolicy.RemovedKeepsDistinct | src/components/WaltonPolicy.tsx:110-124 | removal keeps the ids of a forest pairwise distinct |
| WaltonPolicy.RemovedKeepsOpen | src/components/WaltonPolicy.tsx:110-124 | removal takes no more than it should: at any depth, a group with another id that no group with the id encloses keeps its id in the result |
| WaltonPolicy.PolicyBuilder.constructor | src/components/WaltonPolicy.tsx:29-31 | an empty forest with the counter at 1 |
| WaltonPolicy.PolicyBuilder.AddGroup | src/components/WaltonPolicy.tsx:34-45 | the new empty group `group-<counter>` is appended at the end; the counter goes up by one; the new id was not in the forest; the invariant is kept: every id was issued by the counter and no two groups share an id |
| WaltonPolicy.PolicyBuilder.UpdateGroup | src/components/WaltonPolicy.tsx:48-64 | the forest becomes `UpdateNestedGroups` of the old forest; the counter is unchanged; the invariant (issued, pairwise distinct ids) is kept when the patch sets no id or children |
| WaltonPolicy.PolicyBuilder.UpdatePriceType | src/components/WaltonPolicy.tsx:67-107 | the forest becomes `UpdateGroupConfig` of the old forest; the counter and the invariant are kept |
| WaltonPolicy.PolicyBuilder.RemoveGroup | src/components/WaltonPolicy.tsx:110-124 | the forest becomes `Removed` of the old forest; the counter and the invariant are kept |
| WaltonPolicy.PolicyBuilder.HandleTypeChange | src/components/WaltonPolicy.tsx:136-145 | the displayed group gets the type-change patch; the counter and the invariant are kept |
| WaltonPolicy.PolicyBuilder.HandleNameChange | src/components/WaltonPolicy.tsx:148-150 | the displayed group gets the new name; the counter and the invariant are kept |
| PolicySummary.Indent | src/components/WaltonPolicy.tsx:540 | the indent is 2·level spaces |
| PolicySummary.OrDefault | src/components/WaltonPolicy.tsx:551 | a config value is printed when truthy (not missing, not "", not 0), otherwise the fallback |
| PolicySummary.SummaryLine | src/components/WaltonPolicy.tsx:540-541 | a line starts with 2·level spaces followed by the bullet |
| PolicySummary.OwnLine | src/components/WaltonPolicy.tsx:539-584 | a group has one line of its own exactly when its type is non-empty |
| PolicySummary.SummarizeGroup | src/components/WaltonPolicy.tsx:535-593 | the own line, then each child's lines appended in turn, build exactly `Summary` |
| PolicySummary.AllSummaries | src/components/WaltonPolicy.tsx:595-598 | the loop concatenates the summaries of the top-level groups, in order |
| PolicySummary.RenderRuleSummary | src/components/WaltonPolicy.tsx:532-598 | no summary exactly when the forest is empty; otherwise one line per typed group in pre-order, each at its depth |
| PolicySummary.SummaryIsPreorder | src/components/WaltonPolicy.tsx:535-593 | a group's summary lists the typed groups of its subtree in pre-order at their depths; untyped groups give no line but their children are still listed |
| PolicySummary.SummaryInIsPreorder | src/components/WaltonPolicy.tsx:586-590 | the lines of a list of groups are the lines of its pre-order walk |
| PolicySummary.LinesCount | src/components/WaltonPolicy.tsx:535-593 | there are exactly as many lines as typed groups |
| RuleList.AddRuleTo | src/state/ruleBuilder.tsx:9-16 | with an empty input the rules are unchanged; otherwise one more rule equal to the inputs sits at the end, the earlier ones unchanged and in order |
| RuleList.AddRuleKeepsComplete | src/state/ruleBuilder.tsx:10-12 | every stored rule has three non-empty parts, and adding keeps it so |
| RuleList.FlatRuleBuilder.constructor | src/state/ruleBuilder.tsx:4-7 | three empty inputs and no rules |
| RuleList.FlatRuleBuilder.SetField | src/state/ruleBuilder.tsx:28 | only the field input changes |
| RuleList.FlatRuleBuilder.SetCondition | src/state/ruleBuilder.tsx:34 | only the condition input changes |
| RuleList.FlatRuleBuilder.SetValue | src/state/ruleBuilder.tsx:40 | only the value input changes |
| RuleList.FlatRuleBuilder.AddRule | src/state/ruleBuilder.tsx:9-16 | the rules become `AddRuleTo` of the old state; with an empty input the inputs are unchanged, otherwise all three are reset to ""; completeness of the rules is kept |

## Left out

- All JSX rendering, styling, collapse toggles and select widgets, including `rule_group.tsx`, the UI of `condition.tsx` (only its `Condition` keys are modelled), `constant.tsx`, `Policy/RuleBuilder.tsx` (whose `addPolicy` repeats `addGroup`), `refs/UserSearch.tsx`, `state/UserSearch.tsx`, `pops/Child.tsx` and `index.tsx`: presentation, network and DOM code with no tree logic.
- Id sources: `Math.random` in the newer editor and `uuidv4` in the older one are a `newId` parameter; freshness is a lemma hypothesis, not a property of a generator.
- `JSON.stringify`, clipboard access, `setTimeout` and `console.log`: output effects. `generateRule` stores the exported value itself.
- `Number(e.target.value)` parsing and floating-point numbers: config numbers are integers, and the summary prints them in plain decimal.
- `handleConfigChange`, `handlePriceTypeChange`'s select and the local `localConfig` state of a displayed group: view-local state; the price-type change itself is `UpdatePriceType`.
- WaltonPolicy.RemoveGroupById: it is modelled on values. The source assigns `group.children` in place inside `filter`, so the old state's group objects are mutated too. The model does not capture that aliasing.
- WaltonPolicy.MergePatch: a patch key present with the value `undefined` is not modelled; a patch field is either given or left out.
- PolicySummary.SummarizeGroup: the line format is a parameter. The component always uses `SummaryLine`, and `RenderRuleSummary` instantiates it.
- ImprovedRuleBuilder.UpdateTree: a group whose `children` is not an array cannot be built in the model, so `ensureArray` on children always returns them unchanged. `Interfaces.EnsureArray` models the guard on every other input.
- Typed errors (not found, wrong target kind, immutable root), path lookup, moving nodes and reading the JSON back into a tree: the editors have none of these. Their handlers return the tree unchanged instead of failing, and so does the model.

## Findings

| source | as written | input that shows it | evidently intended | confidence | as-written member | corrected member |
|---|---|---|---|---|---|---|
| src/components/rule_builder.tsx:41-79 | `addCondition`/`addGroup` only walk `prev.children`, and the root group's add buttons pass the root's own id `'root'`, so nothing is ever added under the root | the initial state (root `'root'`, no children) and `addCondition('root')`: the tree is unchanged, and since all other groups must be added under the root, the tree stays empty | append the new node to the root's children, as the newer editor does under `'root'` | high, not executed | RuleBuilder.AddChildDiffersAtRoot | ImprovedRuleBuilder.AddChild |
| src/components/rule_builder.tsx:81-93 | `updateCondition` walks to groups whose id is the condition id and patches their direct children with that id, so a condition is reached only when a group shares its id | root `'root'` with one condition `c1` carrying a category, `updateCondition('c1', { value: 'x' })`: the tree comes back unchanged | merge the patch onto the condition with that id at any depth, as the newer editor does | high, not executed | RuleBuilder.UpdateConditionUniqueIdsNoOp | ImprovedRuleBuilder.UpdateConditionCondList |
