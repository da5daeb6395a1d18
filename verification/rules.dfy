/** The configuration of one rule card, as `update` and
    `evaluateCondition` read it, and the eight cards of the visual's
    settings in declaration order. */
module Rules {
  import opened Cells

  /** `operator` is expected to be "eq", "neq", "gt" or "lt" and
      `compareSource` "field" or "fixed", but both are free-form strings:
      the code compares them against those literals. `fixedValue` and the
      two state settings are raw values; a state "none" suppresses the
      alert, a state whose `Number()` is 0..3 selects that level, and any
      other state uses the fallback. Text
      settings that the card leaves unset read as the empty string. */
  datatype Rule = Rule(
    enabled: bool,
    scenario: string,
    operator: string,
    compareSource: string,
    fixedValue: Cell,
    trueState: Cell,
    falseState: Cell,
    messageTrue: string,
    detailTrue: string,
    messageFalse: string,
    detailFalse: string)

  datatype Settings = Settings(
    rule1: Rule, rule2: Rule, rule3: Rule, rule4: Rule,
    rule5: Rule, rule6: Rule, rule7: Rule, rule8: Rule)

  /** The rule cards in the order `update` walks them. */
  function RuleList(s: Settings): (rules: seq<Rule>)
    ensures |rules| == 8
    ensures rules[0] == s.rule1 && rules[7] == s.rule8
  {
    [s.rule1, s.rule2, s.rule3, s.rule4, s.rule5, s.rule6, s.rule7, s.rule8]
  }
}
