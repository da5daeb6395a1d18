/** `evaluateCondition`: compares a row's trigger value with the rule's
    compare target, numerically when both coerce to numbers and by
    UTF-16 code units otherwise. `None` is the source's `null`: the rule
    cannot be evaluated. */
module Comparator {
  import opened Wrappers
  import opened Cells
  import opened Rules
  import JsNumber
  import JsString

  /** The value the trigger is compared with. */
  function CompareTarget(rule: Rule, compareTo: Cell): Cell {
    if rule.compareSource == "field" then compareTo else rule.fixedValue
  }

  /** The numeric branch of the operator switch; an unknown operator
      leaves the result at its initial `false`. */
  function NumericOutcome(op: string, x: JsNumber.Number, y: JsNumber.Number): bool {
    if op == "eq" then JsNumber.Equal(x, y)
    else if op == "neq" then !JsNumber.Equal(x, y)
    else if op == "gt" then JsNumber.Less(y, x)
    else if op == "lt" then JsNumber.Less(x, y)
    else false
  }

  /** The string branch of the operator switch. */
  function TextOutcome(op: string, x: string, y: string): bool {
    if op == "eq" then x == y
    else if op == "neq" then x != y
    else if op == "gt" then JsString.Less(y, x)
    else if op == "lt" then JsString.Less(x, y)
    else false
  }

  predicate IsOperator(op: string) {
    op == "eq" || op == "neq" || op == "gt" || op == "lt"
  }

  /** An operand as the comparison sees it: its `Number(v)` and `String(v)`. */
  datatype Operand = Operand(number: JsNumber.Number, text: string)

  function Coerce(c: Cell): Operand {
    Operand(ToNumber(c), ToJsString(c))
  }

  /** The operator applied to two present operands: numerically when both
      coerce to numbers other than NaN, otherwise to their string forms. */
  function Compare(op: string, a: Operand, b: Operand): (r: bool)
    ensures !IsOperator(op) ==> !r
  {
    if !a.number.NaN? && !b.number.NaN? then NumericOutcome(op, a.number, b.number)
    else TextOutcome(op, a.text, b.text)
  }

  function EvaluateCondition(rule: Rule, trigger: Cell, compareTo: Cell): (r: Option<bool>)
    ensures r.None? <==> !rule.enabled || IsMissing(trigger) || IsMissing(CompareTarget(rule, compareTo))
    ensures r.Some? && !IsOperator(rule.operator) ==> r == Some(false)
  {
    if !rule.enabled then None
    else
      var target := CompareTarget(rule, compareTo);
      if IsMissing(trigger) || IsMissing(target) then None
      else Some(Compare(rule.operator, Coerce(trigger), Coerce(target)))
  }

  function Not(r: Option<bool>): Option<bool> {
    match r
    case None => None
    case Some(b) => Some(!b)
  }

  /** With the compare source "field" the compareTo cell is the target and
      the fixed value is ignored; with any other source the compareTo
      cell is ignored and the fixed value is the target. */
  lemma TargetSelection(rule: Rule, trigger: Cell, c1: Cell, c2: Cell)
    ensures rule.compareSource == "field" ==>
      EvaluateCondition(rule, trigger, c1) == EvaluateCondition(rule.(fixedValue := c2), trigger, c1)
    ensures rule.compareSource != "field" ==>
      EvaluateCondition(rule, trigger, c1) == EvaluateCondition(rule, trigger, c2)
  {
  }

  /** `neq` is the negation of `eq` on the same operands, and both are
      indeterminate together. */
  lemma NeqNegatesEq(rule: Rule, trigger: Cell, compareTo: Cell)
    ensures EvaluateCondition(rule.(operator := "neq"), trigger, compareTo)
         == Not(EvaluateCondition(rule.(operator := "eq"), trigger, compareTo))
  {
  }

  /** When the rule can be evaluated, exactly one of `eq`, `gt` and `lt`
      holds, in the numeric branch and in the string branch alike. */
  lemma Trichotomy(rule: Rule, trigger: Cell, compareTo: Cell)
    requires EvaluateCondition(rule, trigger, compareTo).Some?
    ensures var eq := EvaluateCondition(rule.(operator := "eq"), trigger, compareTo).value;
            var gt := EvaluateCondition(rule.(operator := "gt"), trigger, compareTo).value;
            var lt := EvaluateCondition(rule.(operator := "lt"), trigger, compareTo).value;
            (eq || gt || lt) && !(eq && gt) && !(eq && lt) && !(gt && lt)
  {
    var target := CompareTarget(rule, compareTo);
    CompareTrichotomy(Coerce(trigger), Coerce(target));
  }

  lemma CompareTrichotomy(a: Operand, b: Operand)
    ensures var eq, gt, lt := Compare("eq", a, b), Compare("gt", a, b), Compare("lt", a, b);
            (eq || gt || lt) && !(eq && gt) && !(eq && lt) && !(gt && lt)
  {
    if !a.number.NaN? && !b.number.NaN? {
      JsNumber.Trichotomy(a.number, b.number);
    } else {
      JsString.Trichotomy(a.text, b.text);
    }
  }

  /** Swapping the operands of a field comparison turns `gt` into `lt`
      and leaves `eq` unchanged. */
  lemma SwapOperands(rule: Rule, a: Cell, b: Cell)
    requires rule.compareSource == "field"
    ensures EvaluateCondition(rule.(operator := "gt"), a, b) == EvaluateCondition(rule.(operator := "lt"), b, a)
    ensures EvaluateCondition(rule.(operator := "eq"), a, b) == EvaluateCondition(rule.(operator := "eq"), b, a)
  {
    CompareSwap(Coerce(a), Coerce(b));
  }

  lemma CompareSwap(a: Operand, b: Operand)
    ensures Compare("gt", a, b) == Compare("lt", b, a)
    ensures Compare("eq", a, b) == Compare("eq", b, a)
  {
  }

  /** Numbers come first: two strings of decimal digits compare by their
      values, so "10" > "9" holds although "10" sorts before "9" as a
      string (`TenBeforeNine`). */
  lemma DigitsCompareNumerically(rule: Rule, s: string, t: string)
    requires rule.enabled && rule.compareSource == "field"
    requires s != [] && JsNumber.AllDigits(s) && t != [] && JsNumber.AllDigits(t)
    ensures var m, n := JsNumber.DigitsValue(s), JsNumber.DigitsValue(t);
            EvaluateCondition(rule, Text(s), Text(t)) == Some(
              if rule.operator == "eq" then m == n
              else if rule.operator == "neq" then m != n
              else if rule.operator == "gt" then m > n
              else if rule.operator == "lt" then m < n
              else false)
  {
    var m, n := JsNumber.DigitsValue(s), JsNumber.DigitsValue(t);
    JsNumber.DigitStringValue(s);
    JsNumber.DigitStringValue(t);
    JsNumber.IntegerOrder(m, n);
    JsNumber.IntegerOrder(n, m);
  }

  /** "10" > "9" holds: both sides are numbers. */
  lemma TenGreaterThanNine(rule: Rule)
    requires rule.enabled && rule.compareSource == "field" && rule.operator == "gt"
    ensures EvaluateCondition(rule, Text("10"), Text("9")) == Some(true)
  {
    DigitsCompareNumerically(rule, "10", "9");
    DigitsOfTen();
  }

  lemma DigitsOfTen()
    ensures JsNumber.AllDigits("10") && JsNumber.DigitsValue("10") == 10
    ensures JsNumber.AllDigits("9") && JsNumber.DigitsValue("9") == 9
  {
    assert "10"[..1] == "1";
  }

  /** As strings, "10" sorts before "9". */
  lemma TenBeforeNine()
    ensures JsString.Less("10", "9")
  {
    assert JsString.Utf16("10") == [49, 48];
  }

  /** A non-numeric trigger switches the comparison to strings, whatever
      the target: a word such as "abc" is compared with the target's
      string form. */
  lemma TextFallback(rule: Rule, s: string, compareTo: Cell)
    requires rule.enabled && !IsMissing(CompareTarget(rule, compareTo))
    requires s != [] && JsString.IsTrimmed(s) && s != "Infinity"
    requires !JsNumber.IsDigit(s[0]) && s[0] != '.' && s[0] != '+' && s[0] != '-'
    ensures EvaluateCondition(rule, Text(s), compareTo)
         == Some(TextOutcome(rule.operator, s, ToJsString(CompareTarget(rule, compareTo))))
  {
    JsNumber.NotANumberWord(s);
  }
}
