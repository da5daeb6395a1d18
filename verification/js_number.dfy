/** JavaScript Number values as the visual sees them: NaN, the two
    infinities, and finite values. A finite value is kept as an exact
    decimal `mant × 10^exp`; the rounding to IEEE-754 doubles is not
    modelled. Conversions follow sections 7.1.4.1.1 (StringToNumber) and
    6.1.6.1.20 (Number::toString) of ECMA-262. */
module JsNumber {
  import opened Wrappers
  import JsString

  datatype Number = NaN | Infinity(negative: bool) | Finite(mant: int, exp: int)

  function Pow10(n: nat): (p: nat)
    ensures p >= 1
  {
    if n == 0 then 1 else 10 * Pow10(n - 1)
  }

  function Min(a: int, b: int): int {
    if a <= b then a else b
  }

  function Abs(a: int): nat {
    if a < 0 then -a else a
  }

  /** The finite value `x` counted in units of `10^e`. */
  function Scaled(x: Number, e: int): int
    requires x.Finite? && e <= x.exp
  {
    x.mant * Pow10(x.exp - e)
  }

  /** `a === b` on numbers: NaN equals nothing, finite values compare by
      value (so `+0 === -0`), infinities by sign. */
  predicate Equal(a: Number, b: Number) {
    match (a, b)
    case (Finite(_, _), Finite(_, _)) =>
      var e := Min(a.exp, b.exp);
      Scaled(a, e) == Scaled(b, e)
    case (Infinity(n1), Infinity(n2)) => n1 == n2
    case _ => false
  }

  /** `a < b` on numbers: false whenever NaN is involved. */
  predicate Less(a: Number, b: Number) {
    match (a, b)
    case (NaN, _) => false
    case (_, NaN) => false
    case (Infinity(n1), Infinity(n2)) => n1 && !n2
    case (Infinity(n1), Finite(_, _)) => n1
    case (Finite(_, _), Infinity(n2)) => !n2
    case (Finite(_, _), Finite(_, _)) =>
      var e := Min(a.exp, b.exp);
      Scaled(a, e) < Scaled(b, e)
  }

  /** Exactly one of `a === b`, `a < b`, `a > b` holds for numbers that
      are not NaN; none holds when either is NaN. */
  lemma Trichotomy(a: Number, b: Number)
    ensures !a.NaN? && !b.NaN? ==> Equal(a, b) || Less(a, b) || Less(b, a)
    ensures !(Equal(a, b) && Less(a, b)) && !(Equal(a, b) && Less(b, a))
    ensures !(Less(a, b) && Less(b, a))
    ensures a.NaN? || b.NaN? ==> !Equal(a, b) && !Less(a, b) && !Less(b, a)
  {
  }

  // ---- decimal digits ----

  predicate IsDigit(c: char) {
    '0' <= c <= '9'
  }

  predicate AllDigits(s: string) {
    forall k :: 0 <= k < |s| ==> IsDigit(s[k])
  }

  /** The value of a string of decimal digits, most significant first. */
  function DigitsValue(s: string): nat
    requires AllDigits(s)
  {
    if s == [] then 0
    else DigitsValue(s[..|s| - 1]) * 10 + (s[|s| - 1] as int - '0' as int)
  }

  function DigitChar(d: nat): (c: char)
    requires d < 10
    ensures IsDigit(c) && c as int - '0' as int == d
  {
    ('0' as int + d) as char
  }

  /** The shortest decimal spelling of `n`: digits only, no leading zero. */
  function NatToString(n: nat): (s: string)
    ensures s != [] && AllDigits(s)
    ensures n == 0 <==> s == "0"
    ensures n > 0 ==> s[0] != '0'
  {
    if n < 10 then [DigitChar(n)]
    else NatToString(n / 10) + [DigitChar(n % 10)]
  }

  /** Reading the digits back gives the number they were written from. */
  lemma {:induction false} NatToStringRoundTrip(n: nat)
    ensures DigitsValue(NatToString(n)) == n
  {
    if n >= 10 {
      var s := NatToString(n);
      assert s[..|s| - 1] == NatToString(n / 10);
      NatToStringRoundTrip(n / 10);
    }
  }

  // ---- StringToNumber ----

  /** Digit value of `c` in bases up to 16, or -1. */
  function RadixDigit(c: char): int {
    if '0' <= c <= '9' then c as int - '0' as int
    else if 'a' <= c <= 'f' then c as int - 'a' as int + 10
    else if 'A' <= c <= 'F' then c as int - 'A' as int + 10
    else -1
  }

  predicate AllRadixDigits(s: string, radix: nat) {
    forall k :: 0 <= k < |s| ==> 0 <= RadixDigit(s[k]) < radix
  }

  function RadixValue(s: string, radix: nat): nat
    requires AllRadixDigits(s, radix)
  {
    if s == [] then 0
    else RadixValue(s[..|s| - 1], radix) * radix + RadixDigit(s[|s| - 1])
  }

  /** Position of the first character of `s` in `marks`, or `|s|`. */
  function Find(s: string, marks: set<char>): (i: nat)
    ensures i <= |s|
    ensures forall k :: 0 <= k < i ==> s[k] !in marks
    ensures i < |s| ==> s[i] in marks
  {
    if s == [] || s[0] in marks then 0 else 1 + Find(s[1..], marks)
  }

  lemma FindAbsent(s: string, marks: set<char>)
    requires forall k :: 0 <= k < |s| ==> s[k] !in marks
    ensures Find(s, marks) == |s|
  {
  }

  /** A NonDecimalIntegerLiteral body (after `0x`, `0o` or `0b`). */
  function ParseRadix(d: string, radix: nat): (x: Number)
    ensures x.NaN? <==> (d == [] || !AllRadixDigits(d, radix))
  {
    if d != [] && AllRadixDigits(d, radix) then Finite(RadixValue(d, radix), 0) else NaN
  }

  /** An ExponentPart body: optional sign, then at least one digit. */
  function ParseExponent(x: string): Option<int> {
    var neg := x != [] && x[0] == '-';
    var digits := if x != [] && (x[0] == '-' || x[0] == '+') then x[1..] else x;
    if digits == [] || !AllDigits(digits) then None
    else
      var v: int := DigitsValue(digits);
      Some(if neg then -v else v)
  }

  /** A StrUnsignedDecimalLiteral: `Infinity`, or digits with an optional
      fraction and exponent, with at least one digit before the exponent. */
  function ParseUnsignedDecimal(u: string): Number {
    if u == "Infinity" then Infinity(false)
    else
      var e := Find(u, {'e', 'E'});
      var mantissa := u[..e];
      var exponent := if e == |u| then Some(0) else ParseExponent(u[e + 1..]);
      var d := Find(mantissa, {'.'});
      var whole := mantissa[..d];
      var frac := if d < |mantissa| then mantissa[d + 1..] else [];
      if exponent.None? || !AllDigits(whole) || !AllDigits(frac) || |whole| + |frac| == 0 then NaN
      else Finite(DigitsValue(whole + frac), exponent.value - |frac|)
  }

  /** A plain run of digits reads as that integer. */
  lemma ParseDigitsOnly(d: string)
    requires d != [] && AllDigits(d)
    ensures ParseUnsignedDecimal(d) == Finite(DigitsValue(d), 0)
  {
    assert d[0] != 'I';
    FindAbsent(d, {'e', 'E'});
    assert d[..|d|] == d;
    FindAbsent(d, {'.'});
    assert d + [] == d;
  }

  /** Anything that starts with neither a digit nor a '.' and is not
      `Infinity` is not a number. */
  lemma NonNumericStart(u: string)
    requires u != [] && u != "Infinity" && !IsDigit(u[0]) && u[0] != '.'
    ensures ParseUnsignedDecimal(u).NaN?
  {
    var e := Find(u, {'e', 'E'});
    if e > 0 {
      var m := u[..e];
      assert m[0] == u[0];
      var d := Find(m, {'.'});
      if d > 0 {
        assert m[..d][0] == u[0];
      }
    }
  }

  function Negate(x: Number): Number {
    match x
    case NaN => NaN
    case Infinity(n) => Infinity(!n)
    case Finite(m, e) => Finite(-m, e)
  }

  /** A StrDecimalLiteral: an optional sign before the unsigned literal. */
  function ParseSignedDecimal(t: string): Number {
    if t != [] && t[0] == '-' then Negate(ParseUnsignedDecimal(t[1..]))
    else if t != [] && t[0] == '+' then ParseUnsignedDecimal(t[1..])
    else ParseUnsignedDecimal(t)
  }

  /** `Number(s)` for a string `s`: surrounding whitespace is ignored, an
      empty or all-whitespace string is 0, `0x`/`0o`/`0b` prefixes select
      base 16/8/2 (unsigned only), anything unparsable is NaN. */
  function StringToNumber(s: string): (r: Number)
    ensures JsString.AllWhiteSpace(s) ==> r == Finite(0, 0)
  {
    JsString.TrimEmptyIff(s);
    var t := JsString.Trim(s);
    if t == [] then Finite(0, 0)
    else
      match RadixPrefix(t)
      case Some(radix) => ParseRadix(t[2..], radix)
      case None => ParseSignedDecimal(t)
  }

  /** Only the trimmed text counts: trimming first changes nothing. */
  lemma TrimmedFirst(s: string)
    ensures StringToNumber(JsString.Trim(s)) == StringToNumber(s)
  {
    JsString.TrimIdempotent(s);
  }

  /** The base a `0x`, `0o` or `0b` prefix (either case) selects. */
  function RadixPrefix(t: string): (r: Option<nat>)
    ensures r.Some? ==> |t| >= 2 && t[0] == '0' && (r.value == 16 || r.value == 8 || r.value == 2)
    ensures |t| >= 2 && t[0] == '0' && (t[1] == 'x' || t[1] == 'X') ==> r == Some(16)
    ensures r.None? ==> |t| < 2 || t[0] != '0' || !(t[1] in {'x', 'X', 'o', 'O', 'b', 'B'})
  {
    if |t| < 2 || t[0] != '0' then None
    else if t[1] == 'x' || t[1] == 'X' then Some(16)
    else if t[1] == 'o' || t[1] == 'O' then Some(8)
    else if t[1] == 'b' || t[1] == 'B' then Some(2)
    else None
  }

  /** A string of decimal digits reads as its integer value. */
  lemma DigitStringValue(s: string)
    requires s != [] && AllDigits(s)
    ensures StringToNumber(s) == Finite(DigitsValue(s), 0)
  {
    assert IsDigit(s[0]) && IsDigit(s[|s| - 1]);
    JsString.TrimUnchanged(s);
    assert |s| >= 2 ==> IsDigit(s[1]);
    assert RadixPrefix(s).None?;
    ParseDigitsOnly(s);
    assert ParseSignedDecimal(s) == ParseUnsignedDecimal(s);
  }

  /** A trimmed word that starts with neither a digit, a sign nor a '.'
      (and is not `Infinity`) is NaN. */
  lemma NotANumberWord(s: string)
    requires s != [] && JsString.IsTrimmed(s) && s != "Infinity"
    requires !IsDigit(s[0]) && s[0] != '.' && s[0] != '+' && s[0] != '-'
    ensures StringToNumber(s).NaN?
  {
    JsString.TrimUnchanged(s);
    NonNumericStart(s);
  }

  /** On integers, `Equal` and `Less` are the integer relations. */
  lemma IntegerOrder(m: int, n: int)
    ensures Equal(Finite(m, 0), Finite(n, 0)) <==> m == n
    ensures Less(Finite(m, 0), Finite(n, 0)) <==> m < n
  {
    assert Pow10(0) == 1;
  }

  // ---- Number::toString ----

  /** `m × 10^e` with the trailing zeros of `m` moved into the exponent. */
  function StripZeros(m: nat, e: int): (r: (nat, int))
    requires m > 0
    ensures r.0 > 0 && r.0 % 10 != 0 && r.1 >= e
    decreases m
  {
    if m % 10 == 0 then StripZeros(m / 10, e + 1) else (m, e)
  }

  function Zeros(n: nat): (z: string)
    ensures |z| == n && AllDigits(z)
    ensures forall k :: 0 <= k < n ==> z[k] == '0'
  {
    if n == 0 then [] else Zeros(n - 1) + ['0']
  }

  /** Number::toString for a positive value `m × 10^e`: with `s` the
      significant digits (`k` of them) and `n` the position of the decimal
      point, plain notation when `-6 < n <= 21`, exponent notation
      otherwise. */
  function PositiveToString(m: nat, e: int): string
    requires m > 0
  {
    var r := StripZeros(m, e);
    var digits := NatToString(r.0);
    var k := |digits|;
    var n := r.1 + k;
    if k <= n <= 21 then digits + Zeros(n - k)
    else if 0 < n <= 21 then digits[..n] + "." + digits[n..]
    else if -6 < n <= 0 then "0." + Zeros(-n) + digits
    else
      var expText := (if n - 1 >= 0 then "+" else "-") + NatToString(Abs(n - 1));
      if k == 1 then digits + "e" + expText
      else digits[..1] + "." + digits[1..] + "e" + expText
  }

  /** `String(x)` for a number `x`. */
  function NumberToString(x: Number): (s: string)
    ensures s != []
  {
    match x
    case NaN => "NaN"
    case Infinity(neg) => if neg then "-Infinity" else "Infinity"
    case Finite(m, e) =>
      if m == 0 then "0"
      else (if m < 0 then "-" else "") + PositiveToString(Abs(m), e)
  }

  // ---- integers survive String(x) and Number(s) ----

  /** Stripping zeros keeps the number: the significant digits followed
      by the stripped zeros spell `m`. */
  lemma {:induction false} StripZerosDigits(m: nat, e: int)
    requires m > 0
    ensures var r := StripZeros(m, e); NatToString(r.0) + Zeros(r.1 - e) == NatToString(m)
    decreases m
  {
    if m % 10 == 0 {
      var r := StripZeros(m / 10, e + 1);
      StripZerosDigits(m / 10, e + 1);
      var d := NatToString(r.0);
      assert NatToString(m) == NatToString(m / 10) + ['0'];
      assert Zeros(r.1 - e) == Zeros(r.1 - (e + 1)) + ['0'];
      assert d + Zeros(r.1 - (e + 1)) + ['0'] == d + (Zeros(r.1 - (e + 1)) + ['0']);
    } else {
      assert NatToString(m) + [] == NatToString(m);
    }
  }

  lemma {:induction false} Pow10Monotone(a: nat, b: nat)
    requires a <= b
    ensures Pow10(a) <= Pow10(b)
    decreases b
  {
    if a < b {
      Pow10Monotone(a, b - 1);
    }
  }

  /** `n` has `|NatToString(n)|` digits, so it is at least `10^(|s| - 1)`. */
  lemma {:induction false} NatToStringMagnitude(n: nat)
    requires n > 0
    ensures Pow10(|NatToString(n)| - 1) <= n
  {
    if n >= 10 {
      NatToStringMagnitude(n / 10);
    }
  }

  /** A positive integer below `10^21` has at most 21 digits. */
  lemma ShortInteger(m: nat)
    requires 0 < m < Pow10(21)
    ensures |NatToString(m)| <= 21
  {
    NatToStringMagnitude(m);
    if |NatToString(m)| > 21 {
      Pow10Monotone(21, |NatToString(m)| - 1);
    }
  }

  /** Below `10^21` a positive integer is written in plain notation, as
      its decimal digits. */
  lemma PlainInteger(m: nat)
    requires 0 < m < Pow10(21)
    ensures PositiveToString(m, 0) == NatToString(m)
  {
    PlainParts(m);
    PlainLength(m);
  }

  lemma PlainParts(m: nat)
    requires m > 0
    ensures var r := StripZeros(m, 0); NatToString(r.0) + Zeros(r.1) == NatToString(m)
  {
    StripZerosDigits(m, 0);
  }

  lemma PlainLength(m: nat)
    requires 0 < m < Pow10(21)
    ensures var r := StripZeros(m, 0); |NatToString(r.0)| + r.1 <= 21
  {
    var r := StripZeros(m, 0);
    var digits, zeros := NatToString(r.0), Zeros(r.1);
    PlainParts(m);
    ShortInteger(m);
    assert |digits + zeros| == |digits| + r.1;
  }

  /** A minus sign before a string of digits negates its value. */
  lemma NegativeDigitString(s: string)
    requires s != [] && AllDigits(s)
    ensures StringToNumber("-" + s) == Finite(-(DigitsValue(s) as int), 0)
  {
    var t := "-" + s;
    assert t[0] == '-' && IsDigit(t[|t| - 1]);
    JsString.TrimUnchanged(t);
    assert RadixPrefix(t).None?;
    assert t[1..] == s;
    ParseDigitsOnly(s);
  }

  /** `Number(String(x))` gives back every integer `x` with fewer than 22
      digits: the range `Number::toString` writes without an exponent. */
  lemma IntegerStringRoundTrip(m: int)
    requires Abs(m) < Pow10(21)
    ensures StringToNumber(NumberToString(Finite(m, 0))) == Finite(m, 0)
  {
    if m == 0 {
      ZeroRoundTrip();
    } else if m > 0 {
      PositiveRoundTrip(m);
    } else {
      NegativeRoundTrip(m);
    }
  }

  lemma ZeroRoundTrip()
    ensures StringToNumber(NumberToString(Finite(0, 0))) == Finite(0, 0)
  {
    DigitStringValue("0");
  }

  lemma PositiveRoundTrip(m: nat)
    requires 0 < m < Pow10(21)
    ensures StringToNumber(NumberToString(Finite(m, 0))) == Finite(m, 0)
  {
    var s := PositiveToString(m, 0);
    assert NumberToString(Finite(m, 0)) == s;
    PlainInteger(m);
    NatToStringRoundTrip(m);
    DigitStringValue(s);
  }

  lemma NegativeRoundTrip(m: int)
    requires m < 0 && -m < Pow10(21)
    ensures StringToNumber(NumberToString(Finite(m, 0))) == Finite(m, 0)
  {
    NegativeToString(m, 0);
    NegatedPlain(-m);
    var s := "-" + PositiveToString(-m, 0);
    assert NumberToString(Finite(m, 0)) == s;
  }

  lemma NegatedPlain(n: nat)
    requires 0 < n < Pow10(21)
    ensures StringToNumber("-" + PositiveToString(n, 0)) == Finite(-(n as int), 0)
  {
    PlainInteger(n);
    NatToStringRoundTrip(n);
    NegativeDigitString(PositiveToString(n, 0));
  }

  lemma NegativeToString(m: int, e: int)
    requires m < 0
    ensures NumberToString(Finite(m, e)) == "-" + PositiveToString(-m, e)
  {
    assert Abs(m) == -m;
  }
}
