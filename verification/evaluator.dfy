/** The rule loop of `update`: every enabled rule, in declaration order,
    is checked against the first row of its scenario, and each rule that
    fires contributes one alert. */
module Evaluator {
  import opened Wrappers
  import opened Cells
  import opened Rules
  import opened DataTable
  import Comparator
  import Severity
  import JsString
  import JsNumber
  import Sequences

  /** One queued message: its text, its detail text and its severity level. */
  datatype Alert = Alert(message: string, detail: string, severity: int)

  /** What every alert the loop emits satisfies. */
  predicate WellFormed(a: Alert) {
    && a.message != []
    && JsString.IsTrimmed(a.message)
    && JsString.IsTrimmed(a.detail)
    && 0 <= a.severity <= 3
  }

  /** The column positions of the three roles the loop reads (-1 when absent). */
  datatype Roles = Roles(scenario: int, value: int, compareTo: int)

  /** `i` is where `getIndexByRole` finds `role`: the first column carrying
      it, or -1 when none does. */
  predicate Locates(columns: seq<Column>, role: string, i: int) {
    && -1 <= i < |columns|
    && (i == -1 <==> forall k :: 0 <= k < |columns| ==> role !in columns[k].roles)
    && (i >= 0 ==> role in columns[i].roles && forall k :: 0 <= k < i ==> role !in columns[k].roles)
  }

  /** The three lookups `update` makes before the loop. */
  function RolesOf(columns: seq<Column>): (r: Roles)
    ensures Locates(columns, "scenario", r.scenario)
    ensures Locates(columns, "value", r.value)
    ensures Locates(columns, "compareTo", r.compareTo)
  {
    Roles(IndexByRole(columns, "scenario"), IndexByRole(columns, "value"), IndexByRole(columns, "compareTo"))
  }

  /** The cell in column `i` of `row`, or null when the role has no column. */
  function RoleCell(row: Row, i: int): (c: Cell)
    ensures i < 0 ==> c == Null
    ensures 0 <= i < |row| ==> c == row[i]
    ensures i >= |row| ==> c == Undefined
  {
    if i >= 0 then CellAt(row, i) else Null
  }

  /** The outcome of a rule's comparison on the first row of its scenario,
      or `None` when the rule is skipped before an alert is considered:
      disabled, blank scenario, no scenario column, no matching row, or an
      indeterminate comparison. */
  function Condition(rule: Rule, rows: seq<Row>, roles: Roles): (r: Option<bool>)
    ensures r.Some? ==> rule.enabled && JsString.Trim(rule.scenario) != [] && roles.scenario >= 0
    ensures r.Some? ==> FindRowByScenario(rows, roles.scenario, JsString.Trim(rule.scenario)).Some?
  {
    if !rule.enabled then None
    else
      var name := JsString.Trim(rule.scenario);
      if name == [] || roles.scenario < 0 then None
      else
        match FindRowByScenario(rows, roles.scenario, name)
        case None => None
        case Some(r) =>
          var row := rows[r];
          Comparator.EvaluateCondition(rule, RoleCell(row, roles.value), RoleCell(row, roles.compareTo))
  }

  function SelectedState(rule: Rule, isTrue: bool): Cell {
    if isTrue then rule.trueState else rule.falseState
  }

  function SelectedMessage(rule: Rule, isTrue: bool): string {
    JsString.Trim(if isTrue then rule.messageTrue else rule.messageFalse)
  }

  function SelectedDetail(rule: Rule, isTrue: bool): string {
    JsString.Trim(if isTrue then rule.detailTrue else rule.detailFalse)
  }

  /** One iteration of the loop: the alert a rule contributes, if any. */
  function EvaluateRule(rule: Rule, rows: seq<Row>, roles: Roles): (r: Option<Alert>)
    ensures r.Some? ==> WellFormed(r.value)
    ensures r.Some? ==> Condition(rule, rows, roles).Some?
  {
    match Condition(rule, rows, roles)
    case None => None
    case Some(isTrue) =>
      match Severity.SeverityForState(SelectedState(rule, isTrue), Severity.Fallback(isTrue))
      case None => None
      case Some(level) =>
        var message := SelectedMessage(rule, isTrue);
        if message == [] then None
        else
          Some(Alert(message, SelectedDetail(rule, isTrue), level))
  }

  /** A rule fires exactly when its comparison is determinate, the state
      it selects is not "none" and the message it selects is not blank;
      the alert then carries that trimmed message and detail, and the
      severity of the selected state. */
  lemma FiresIff(rule: Rule, rows: seq<Row>, roles: Roles)
    ensures EvaluateRule(rule, rows, roles).Some? <==>
      && Condition(rule, rows, roles).Some?
      && SelectedState(rule, Condition(rule, rows, roles).value) != Text("none")
      && SelectedMessage(rule, Condition(rule, rows, roles).value) != []
    ensures EvaluateRule(rule, rows, roles).Some? ==>
      var isTrue := Condition(rule, rows, roles).value;
      var a := EvaluateRule(rule, rows, roles).value;
      && a.message == SelectedMessage(rule, isTrue)
      && a.detail == SelectedDetail(rule, isTrue)
      && a.severity == Severity.SeverityForState(SelectedState(rule, isTrue), Severity.Fallback(isTrue)).value
  {
  }

  /** A rule whose scenario finds row `r` compares that row's value and
      compareTo cells (null for a role without a column). */
  lemma ConditionOnRow(rule: Rule, rows: seq<Row>, roles: Roles, r: nat)
    requires rule.enabled && JsString.Trim(rule.scenario) != [] && roles.scenario >= 0
    requires FindRowByScenario(rows, roles.scenario, JsString.Trim(rule.scenario)) == Some(r)
    ensures Condition(rule, rows, roles)
         == Comparator.EvaluateCondition(rule, RoleCell(rows[r], roles.value), RoleCell(rows[r], roles.compareTo))
  {
  }

  /** A determinate rule whose selected state is a level and whose
      selected message is not blank fires with that level. */
  lemma RuleFiresWith(rule: Rule, rows: seq<Row>, roles: Roles, isTrue: bool, level: int)
    requires Condition(rule, rows, roles) == Some(isTrue)
    requires Severity.SeverityForState(SelectedState(rule, isTrue), Severity.Fallback(isTrue)) == Some(level)
    requires SelectedMessage(rule, isTrue) != []
    ensures EvaluateRule(rule, rows, roles)
         == Some(Alert(SelectedMessage(rule, isTrue), SelectedDetail(rule, isTrue), level))
  {
  }

  /** The loop body as a function of the rule, for a fixed table. */
  function Step(rows: seq<Row>, roles: Roles): Rule -> Option<Alert> {
    (rule: Rule) => EvaluateRule(rule, rows, roles)
  }

  /** The alerts of a sequence of rules, in rule order. */
  function EvaluateRules(rules: seq<Rule>, rows: seq<Row>, roles: Roles): (alerts: seq<Alert>)
    ensures |alerts| <= |rules|
    ensures forall k :: 0 <= k < |alerts| ==> WellFormed(alerts[k])
  {
    Sequences.FilterMapAll(Step(rows, roles), rules, WellFormed);
    Sequences.FilterMap(Step(rows, roles), rules)
  }

  /** Evaluating two runs of rules one after the other gives the
      concatenation of their alerts. */
  lemma EvaluateRulesAppend(r1: seq<Rule>, r2: seq<Rule>, rows: seq<Row>, roles: Roles)
    ensures EvaluateRules(r1 + r2, rows, roles) == EvaluateRules(r1, rows, roles) + EvaluateRules(r2, rows, roles)
  {
    Sequences.FilterMapAppend(Step(rows, roles), r1, r2);
  }

  /** A single rule contributes its alert, or nothing. */
  lemma SingleRule(rule: Rule, rows: seq<Row>, roles: Roles)
    ensures EvaluateRules([rule], rows, roles) ==
      if EvaluateRule(rule, rows, roles).Some? then [EvaluateRule(rule, rows, roles).value] else []
  {
    Sequences.FilterMapSingle(Step(rows, roles), rule);
  }

  /** A rule that does not fire (suppressed state, blank message,
      indeterminate comparison, ...) leaves the output as if it were absent. */
  lemma SilentRuleContributesNothing(rules: seq<Rule>, i: nat, rows: seq<Row>, roles: Roles)
    requires i < |rules| && EvaluateRule(rules[i], rows, roles).None?
    ensures EvaluateRules(rules, rows, roles) == EvaluateRules(rules[..i] + rules[i + 1..], rows, roles)
  {
    Sequences.FilterMapSkip(Step(rows, roles), rules, i);
  }

  /** Declaration order: when rules `i < j` both fire, the alert of rule
      `i` comes before that of rule `j`, each at the position given by the
      number of alerts of the rules before it. */
  lemma DeclarationOrder(rules: seq<Rule>, i: nat, j: nat, rows: seq<Row>, roles: Roles)
    requires i < j < |rules|
    requires EvaluateRule(rules[i], rows, roles).Some? && EvaluateRule(rules[j], rows, roles).Some?
    ensures var alerts := EvaluateRules(rules, rows, roles);
            var p, q := |EvaluateRules(rules[..i], rows, roles)|, |EvaluateRules(rules[..j], rows, roles)|;
            && p < q < |alerts|
            && alerts[p] == EvaluateRule(rules[i], rows, roles).value
            && alerts[q] == EvaluateRule(rules[j], rows, roles).value
  {
    var f := Step(rows, roles);
    Sequences.FilterMapPosition(f, rules, i);
    Sequences.FilterMapPosition(f, rules, j);
    Sequences.FilterMapOrder(f, rules, i, j);
  }

  /** The alerts `update` queues for a table and the eight rule cards. */
  function Evaluate(table: Table, settings: Settings): (alerts: seq<Alert>)
    ensures |alerts| <= 8
    ensures forall k :: 0 <= k < |alerts| ==> WellFormed(alerts[k])
  {
    EvaluateRules(RuleList(settings), table.rows, RolesOf(table.columns))
  }

  /** An example: for any scenario name and any values `v < w`, one
      enabled card "value lt compareTo" whose true state is Critical
      ("3"), the other seven switched off, against a table with one row
      for its scenario queues exactly one Critical alert carrying the
      card's true message and detail. With the name "Fulfilment", the
      value 42 and the target 50, for instance. */
  lemma BelowTargetExample(rule: Rule, table: Table, off: Rule, v: int, w: int)
    requires table.columns == [Column({"scenario"}), Column({"value"}), Column({"compareTo"})]
    requires table.rows == [[Text(rule.scenario), Num(JsNumber.Finite(v, 0)), Num(JsNumber.Finite(w, 0))]]
    requires rule.enabled && rule.scenario != [] && JsString.IsTrimmed(rule.scenario)
    requires rule.operator == "lt" && rule.compareSource == "field" && rule.trueState == Text("3")
    requires rule.messageTrue != [] && JsString.IsTrimmed(rule.messageTrue) && JsString.IsTrimmed(rule.detailTrue)
    requires v < w && !off.enabled
    ensures Evaluate(table, Settings(rule, off, off, off, off, off, off, off))
         == [Alert(rule.messageTrue, rule.detailTrue, 3)]
  {
    var roles := Roles(0, 1, 2);
    var rest := [off, off, off, off, off, off, off];
    assert RuleList(Settings(rule, off, off, off, off, off, off, off)) == [rule] + rest;
    assert EvaluateRules(rest, table.rows, roles) == [] by {
      assert forall k :: 0 <= k < |rest| ==> rest[k] == off;
      DisabledRulesSilent(rest, table.rows, roles);
    }
    ThreeRoles(table.columns);
    BelowTargetFires(rule, table.rows, roles, v, w);
    SingleRule(rule, table.rows, roles);
    EvaluateRulesAppend([rule], rest, table.rows, roles);
  }

  lemma ThreeRoles(columns: seq<Column>)
    requires columns == [Column({"scenario"}), Column({"value"}), Column({"compareTo"})]
    ensures RolesOf(columns) == Roles(0, 1, 2)
  {
    assert "value" != "scenario" && "compareTo" != "scenario" && "compareTo" != "value";
    assert "scenario" in columns[0].roles;
    assert "value" !in columns[0].roles && "value" in columns[1].roles;
    assert "compareTo" !in columns[0].roles && "compareTo" !in columns[1].roles && "compareTo" in columns[2].roles;
  }

  /** Switched-off cards never contribute. */
  lemma DisabledRulesSilent(rules: seq<Rule>, rows: seq<Row>, roles: Roles)
    requires forall k :: 0 <= k < |rules| ==> !rules[k].enabled
    ensures EvaluateRules(rules, rows, roles) == []
  {
    Sequences.FilterMapNone(Step(rows, roles), rules);
  }

  lemma BelowTargetFires(rule: Rule, rows: seq<Row>, roles: Roles, v: int, w: int)
    requires rows == [[Text(rule.scenario), Num(JsNumber.Finite(v, 0)), Num(JsNumber.Finite(w, 0))]]
    requires roles == Roles(0, 1, 2)
    requires rule.enabled && rule.scenario != [] && JsString.IsTrimmed(rule.scenario)
    requires rule.operator == "lt" && rule.compareSource == "field" && rule.trueState == Text("3")
    requires rule.messageTrue != [] && JsString.IsTrimmed(rule.messageTrue) && JsString.IsTrimmed(rule.detailTrue)
    requires v < w
    ensures EvaluateRule(rule, rows, roles) == Some(Alert(rule.messageTrue, rule.detailTrue, 3))
  {
    BelowTargetCondition(rule, rows, roles, v, w);
    assert rule.trueState == Text([JsNumber.DigitChar(3)]);
    Severity.DigitState(3, Severity.Fallback(true));
    JsString.TrimUnchanged(rule.messageTrue);
    JsString.TrimUnchanged(rule.detailTrue);
    RuleFiresWith(rule, rows, roles, true, 3);
  }

  lemma BelowTargetCondition(rule: Rule, rows: seq<Row>, roles: Roles, v: int, w: int)
    requires rows == [[Text(rule.scenario), Num(JsNumber.Finite(v, 0)), Num(JsNumber.Finite(w, 0))]]
    requires roles == Roles(0, 1, 2)
    requires rule.enabled && rule.scenario != [] && JsString.IsTrimmed(rule.scenario)
    requires rule.operator == "lt" && rule.compareSource == "field"
    requires v < w
    ensures Condition(rule, rows, roles) == Some(true)
  {
    JsString.TrimUnchanged(rule.scenario);
    OwnNameRow(rows, rule.scenario);
    ConditionOnRow(rule, rows, roles, 0);
    assert RoleCell(rows[0], 1) == Num(JsNumber.Finite(v, 0));
    assert RoleCell(rows[0], 2) == Num(JsNumber.Finite(w, 0));
    IntegersBelow(rule, v, w);
  }

  /** A row whose scenario cell is the (trimmed) name itself is found. */
  lemma OwnNameRow(rows: seq<Row>, name: string)
    requires |rows| == 1 && |rows[0]| >= 1 && rows[0][0] == Text(name) && name != []
    ensures FindRowByScenario(rows, 0, name) == Some(0)
  {
    assert ScenarioMatches(CellAt(rows[0], 0), ScenarioKey(name));
  }

  lemma IntegersBelow(rule: Rule, v: int, w: int)
    requires rule.enabled && rule.operator == "lt" && rule.compareSource == "field" && v < w
    ensures Comparator.EvaluateCondition(rule, Num(JsNumber.Finite(v, 0)), Num(JsNumber.Finite(w, 0))) == Some(true)
  {
    JsNumber.IntegerOrder(v, w);
  }
}
