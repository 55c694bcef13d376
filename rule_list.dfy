/**
 * The flat rule list of src/state/ruleBuilder.tsx: three text inputs and a
 * list of rules; `addRule` appends `{ field, condition, value }` only when
 * all three inputs are non-empty, then clears the inputs.
 */
module RuleList {

  datatype Rule = Rule(field: string, condition: string, value: string)

  /** A rule whose three parts are all filled in: the only kind `addRule` stores. */
  predicate Complete(r: Rule)
  {
    r.field != "" && r.condition != "" && r.value != ""
  }

  predicate AllComplete(rules: seq<Rule>)
  {
    forall i :: 0 <= i < |rules| ==> Complete(rules[i])
  }

  /**
   * The rules after `addRule` with the given inputs: unchanged when an input
   * is empty (`!field || !condition || !value`), otherwise one more rule at
   * the end, the earlier ones untouched and in order.
   */
  function AddRuleTo(rules: seq<Rule>, field: string, condition: string, value: string): (r: seq<Rule>)
    ensures field == "" || condition == "" || value == "" ==> r == rules
    ensures field != "" && condition != "" && value != "" ==>
              |r| == |rules| + 1 && r[..|rules|] == rules && r[|rules|] == Rule(field, condition, value)
  {
    if field == "" || condition == "" || value == "" then rules
    else rules + [Rule(field, condition, value)]
  }

  /** Every stored rule stays complete: `addRule` never stores an empty part. */
  lemma AddRuleKeepsComplete(rules: seq<Rule>, field: string, condition: string, value: string)
    requires AllComplete(rules)
    ensures AllComplete(AddRuleTo(rules, field, condition, value))
  {
    var r := AddRuleTo(rules, field, condition, value);
    forall i | 0 <= i < |r|
      ensures Complete(r[i])
    {
      if i < |rules| {
        assert r[i] == r[..|rules|][i];
      }
    }
  }

  /** The component's state cells. */
  class FlatRuleBuilder {
    var field: string
    var condition: string
    var value: string
    var rules: seq<Rule>

    /** Every stored rule has its three parts. */
    ghost predicate Valid()
      reads this
    {
      AllComplete(rules)
    }

    /** `useState('')` three times and `useState([])`. */
    constructor ()
      ensures field == "" && condition == "" && value == "" && rules == []
      ensures Valid()
    {
      field := "";
      condition := "";
      value := "";
      rules := [];
    }

    /** The `onChange` handler of the Field input. */
    method SetField(s: string)
      modifies this
      ensures field == s
      ensures condition == old(condition) && value == old(value) && rules == old(rules)
    {
      field := s;
    }

    /** The `onChange` handler of the Condition input. */
    method SetCondition(s: string)
      modifies this
      ensures condition == s
      ensures field == old(field) && value == old(value) && rules == old(rules)
    {
      condition := s;
    }

    /** The `onChange` handler of the Value input. */
    method SetValue(s: string)
      modifies this
      ensures value == s
      ensures field == old(field) && condition == old(condition) && rules == old(rules)
    {
      value := s;
    }

    /**
     * `addRule`: with an empty input nothing changes; otherwise the rule is
     * appended and the three inputs are cleared.
     */
    method AddRule()
      modifies this
      ensures rules == AddRuleTo(old(rules), old(field), old(condition), old(value))
      ensures old(field) == "" || old(condition) == "" || old(value) == "" ==>
                field == old(field) && condition == old(condition) && value == old(value)
      ensures old(field) != "" && old(condition) != "" && old(value) != "" ==>
                field == "" && condition == "" && value == ""
      ensures old(Valid()) ==> Valid()
    {
      if field == "" || condition == "" || value == "" {
        return;
      }
      var newRule := Rule(field, condition, value);
      if Valid() {
        AddRuleKeepsComplete(rules, field, condition, value);
      }
      rules := rules + [newRule];
      field := "";
      condition := "";
      value := "";
    }
  }
}
