/** `getSeverityForState`: turns the state setting a rule selected for
    its outcome into a severity level 0..3 (Info, Success, Caution,
    Critical), or `None` when the state is "none" and the rule stays
    silent. */
module Severity {
  import opened Wrappers
  import opened Cells
  import JsNumber

  /** The level 0..3 whose value `n` has, if any (`[0, 1, 2, 3].includes(n)`). */
  function LevelOf(n: JsNumber.Number): (r: Option<int>)
    ensures r.Some? ==> 0 <= r.value <= 3 && JsNumber.Equal(n, JsNumber.Finite(r.value, 0))
    ensures r.None? ==> forall k :: 0 <= k <= 3 ==> !JsNumber.Equal(n, JsNumber.Finite(k, 0))
  {
    if JsNumber.Equal(n, JsNumber.Finite(0, 0)) then Some(0)
    else if JsNumber.Equal(n, JsNumber.Finite(1, 0)) then Some(1)
    else if JsNumber.Equal(n, JsNumber.Finite(2, 0)) then Some(2)
    else if JsNumber.Equal(n, JsNumber.Finite(3, 0)) then Some(3)
    else None
  }

  /** "none" suppresses; a state whose `Number()` value is 0, 1, 2 or 3
      is that level; every other state falls back to `fallback`. */
  function SeverityForState(state: Cell, fallback: int): (r: Option<int>)
    ensures r.None? <==> state == Text("none")
    ensures r.Some? ==>
      || (0 <= r.value <= 3 && JsNumber.Equal(ToNumber(state), JsNumber.Finite(r.value, 0)))
      || (r.value == fallback && forall k :: 0 <= k <= 3 ==> !JsNumber.Equal(ToNumber(state), JsNumber.Finite(k, 0)))
    ensures r.Some? && 0 <= fallback <= 3 ==> 0 <= r.value <= 3
  {
    if state == Text("none") then None
    else Some(LevelOf(ToNumber(state)).GetOr(fallback))
  }

  /** The fallback used by `update`: Success on the true branch, Info on
      the false branch. */
  function Fallback(isTrue: bool): (f: int)
    ensures 0 <= f <= 3
  {
    if isTrue then 1 else 0
  }

  /** With the fallbacks `update` passes, every severity is a level. */
  lemma SeverityInRange(state: Cell, isTrue: bool)
    ensures SeverityForState(state, Fallback(isTrue)).Some? ==>
      0 <= SeverityForState(state, Fallback(isTrue)).value <= 3
  {
  }

  /** A one-digit state "0".."3" selects that level. */
  lemma DigitState(n: nat, fallback: int)
    requires n <= 3
    ensures SeverityForState(Text([JsNumber.DigitChar(n)]), fallback) == Some(n)
  {
    var s := [JsNumber.DigitChar(n)];
    assert JsNumber.DigitsValue(s) == n by { assert s[..0] == []; }
    JsNumber.DigitStringValue(s);
  }

  /** A state of "7" is not a level and takes the fallback. */
  lemma StateSevenFallsBack(fallback: int)
    ensures SeverityForState(Text("7"), fallback) == Some(fallback)
  {
    assert JsNumber.DigitsValue("7") == 7 by { assert "7"[..0] == []; }
    JsNumber.DigitStringValue("7");
  }

  /** An empty state and a null state coerce to 0, so they select Info
      rather than the fallback; an undefined state coerces to NaN and
      takes the fallback. */
  lemma BlankStates(fallback: int)
    ensures SeverityForState(Text(""), fallback) == Some(0)
    ensures SeverityForState(Null, fallback) == Some(0)
    ensures SeverityForState(Undefined, fallback) == Some(fallback)
  {
    assert JsNumber.StringToNumber("") == JsNumber.Finite(0, 0);
  }
}
