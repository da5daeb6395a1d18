/** The parts of ECMAScript string semantics the visual relies on:
    `String.prototype.trim`, `toLowerCase` (ASCII letters only) and the
    code-unit order used by `<` and `>` on strings (section 7.2.13 of
    ECMA-262, IsLessThan). Strings are Dafny strings of Unicode scalar
    values; their UTF-16 form is computed where the order depends on it. */
module JsString {

  /** WhiteSpace and LineTerminator code points (sections 12.2 and 12.3
      of ECMA-262), with the space separators of Unicode 15. These are
      exactly the code points `trim` removes and `Number()` skips. */
  predicate IsWhiteSpace(c: char) {
    || c == '\U{9}' || c == '\U{B}' || c == '\U{C}' || c == ' '
    || c == '\U{A0}' || c == '\U{FEFF}' || c == '\U{1680}'
    || ('\U{2000}' <= c <= '\U{200A}')
    || c == '\U{202F}' || c == '\U{205F}' || c == '\U{3000}'
    || c == '\U{A}' || c == '\U{D}' || c == '\U{2028}' || c == '\U{2029}'
  }

  predicate AllWhiteSpace(s: string) {
    forall k :: 0 <= k < |s| ==> IsWhiteSpace(s[k])
  }

  /** Length of the longest all-whitespace prefix of `s`. */
  function LeadingSpace(s: string): (n: nat)
    ensures n <= |s|
    ensures AllWhiteSpace(s[..n])
    ensures n < |s| ==> !IsWhiteSpace(s[n])
  {
    if s == [] || !IsWhiteSpace(s[0]) then 0
    else
      var n := 1 + LeadingSpace(s[1..]);
      assert s[..n] == [s[0]] + s[1..][..n - 1];
      n
  }

  /** Length of `s` without its longest all-whitespace suffix. */
  function WithoutTrailingSpace(s: string): (n: nat)
    ensures n <= |s|
    ensures AllWhiteSpace(s[n..])
    ensures 0 < n ==> !IsWhiteSpace(s[n - 1])
  {
    if s == [] || !IsWhiteSpace(s[|s| - 1]) then |s|
    else
      var n := WithoutTrailingSpace(s[..|s| - 1]);
      assert s[n..] == s[..|s| - 1][n..] + [s[|s| - 1]];
      n
  }

  /** No whitespace at either end. */
  predicate IsTrimmed(s: string) {
    s == [] || (!IsWhiteSpace(s[0]) && !IsWhiteSpace(s[|s| - 1]))
  }

  /** `String.prototype.trim`: `s` with leading and trailing whitespace
      removed. The result has no whitespace at either end, and
      (`TrimIsCut`) it is a slice of `s` whose surroundings are all
      whitespace. */
  function Trim(s: string): (r: string)
    ensures |r| <= |s|
    ensures IsTrimmed(r)
  {
    var i := LeadingSpace(s);
    var t := s[i..];
    var n := WithoutTrailingSpace(t);
    assert 0 < n ==> t[..n][0] == s[i] && t[..n][n - 1] == t[n - 1];
    t[..n]
  }

  lemma TrimIsCut(s: string)
    ensures exists i :: IsTrimCut(s, Trim(s), i)
  {
    var i := LeadingSpace(s);
    var n := WithoutTrailingSpace(s[i..]);
    assert Trim(s) == s[i..][..n];
    TrimCutOfSlice(s, i, n);
    assert IsTrimCut(s, Trim(s), i);
  }

  lemma TrimCutOfSlice(s: string, i: nat, n: nat)
    requires i <= |s| && n <= |s| - i
    requires AllWhiteSpace(s[..i]) && AllWhiteSpace(s[i..][n..])
    ensures IsTrimCut(s, s[i..][..n], i)
  {
    assert s[i..][..n] == s[i..i + n];
    assert s[i + n..] == s[i..][n..];
  }

  /** `r` is `s[i..i + |r|]` and everything outside that slice is whitespace. */
  predicate IsTrimCut(s: string, r: string, i: int) {
    && 0 <= i <= i + |r| <= |s|
    && r == s[i..i + |r|]
    && AllWhiteSpace(s[..i])
    && AllWhiteSpace(s[i + |r|..])
  }

  lemma TrimIdempotent(s: string)
    ensures Trim(Trim(s)) == Trim(s)
  {
    TrimUnchanged(Trim(s));
  }

  /** A string with no whitespace at either end is its own trim. */
  lemma TrimUnchanged(s: string)
    requires IsTrimmed(s)
    ensures Trim(s) == s
  {
    assert LeadingSpace(s) == 0;
    assert s[0..] == s;
    assert WithoutTrailingSpace(s) == |s|;
  }

  /** Leading whitespace before a non-space character is skipped exactly. */
  lemma {:induction false} LeadingSpaceOf(w: string, r: string)
    requires AllWhiteSpace(w) && (r == [] || !IsWhiteSpace(r[0]))
    ensures LeadingSpace(w + r) == |w|
  {
    if w == [] {
      assert w + r == r;
    } else {
      assert (w + r)[1..] == w[1..] + r;
      LeadingSpaceOf(w[1..], r);
    }
  }

  /** Trailing whitespace after a non-space character is dropped exactly. */
  lemma {:induction false} TrailingSpaceOf(r: string, w: string)
    requires AllWhiteSpace(w) && (r == [] || !IsWhiteSpace(r[|r| - 1]))
    ensures WithoutTrailingSpace(r + w) == |r|
  {
    if w == [] {
      assert r + w == r;
    } else {
      var s := r + w;
      assert s[..|s| - 1] == r + w[..|w| - 1];
      TrailingSpaceOf(r, w[..|w| - 1]);
    }
  }

  /** Trimming removes exactly the whitespace padding around a trimmed string. */
  lemma TrimPadding(w1: string, r: string, w2: string)
    requires AllWhiteSpace(w1) && AllWhiteSpace(w2) && IsTrimmed(r)
    ensures Trim(w1 + r + w2) == r
  {
    if r == [] {
      var s := w1 + w2;
      assert w1 + r + w2 == s;
      assert AllWhiteSpace(s) by {
        forall k | 0 <= k < |s| ensures IsWhiteSpace(s[k]) {
          if k < |w1| { assert s[k] == w1[k]; } else { assert s[k] == w2[k - |w1|]; }
        }
      }
      TrimEmptyIff(s);
    } else {
      var s := w1 + (r + w2);
      assert w1 + r + w2 == s;
      LeadingSpaceOf(w1, r + w2);
      assert s[|w1|..] == r + w2;
      TrailingSpaceOf(r, w2);
      assert (r + w2)[..|r|] == r;
    }
  }

  /** Trimming leaves nothing exactly when the string is all whitespace. */
  lemma TrimEmptyIff(s: string)
    ensures Trim(s) == [] <==> AllWhiteSpace(s)
  {
    TrimIsCut(s);
    var i :| IsTrimCut(s, Trim(s), i);
    if Trim(s) == [] {
      forall k | 0 <= k < |s| ensures IsWhiteSpace(s[k]) {
        if k < i { assert s[..i][k] == s[k]; } else { assert s[i..][k - i] == s[k]; }
      }
    } else {
      assert s[i] == Trim(s)[0];
    }
  }

  /** ASCII case mapping of one character; other characters are unchanged. */
  function LowerChar(c: char): char {
    if 'A' <= c <= 'Z' then (c as int + 32) as char else c
  }

  /** `String.prototype.toLowerCase`, restricted to ASCII letters. */
  function ToLower(s: string): (r: string)
    ensures |r| == |s|
    ensures forall k :: 0 <= k < |s| ==> r[k] == LowerChar(s[k])
  {
    seq(|s|, k requires 0 <= k < |s| => LowerChar(s[k]))
  }

  lemma ToLowerIdempotent(s: string)
    ensures ToLower(ToLower(s)) == ToLower(s)
  {
  }

  /** UTF-16 code units of one code point (section 6.1.4 of ECMA-262). */
  function CodeUnits(c: char): (u: seq<int>)
    ensures |u| == 1 || |u| == 2
    ensures |u| == 1 <==> c as int < 0x10000
    ensures |u| == 1 ==> u[0] == c as int && !(0xD800 <= u[0] < 0xE000)
    ensures |u| == 2 ==> 0xD800 <= u[0] < 0xDC00 && 0xDC00 <= u[1] < 0xE000
    ensures |u| == 2 ==> c as int == 0x10000 + (u[0] - 0xD800) * 0x400 + (u[1] - 0xDC00)
  {
    if c as int < 0x10000 then [c as int]
    else
      var v := c as int - 0x10000;
      [0xD800 + v / 0x400, 0xDC00 + v % 0x400]
  }

  /** The UTF-16 code-unit sequence of a string. */
  function Utf16(s: string): (u: seq<int>)
    ensures |u| >= |s|
  {
    if s == [] then [] else CodeUnits(s[0]) + Utf16(s[1..])
  }

  /** Two strings have the same UTF-16 form only if they are equal, so
      comparing code units never identifies distinct strings. */
  lemma {:induction false} Utf16Injective(s: string, t: string)
    requires Utf16(s) == Utf16(t)
    ensures s == t
  {
    if s == [] {
      assert t == [];
    } else if t == [] {
      assert false;
    } else {
      var us, ut := CodeUnits(s[0]), CodeUnits(t[0]);
      var u := Utf16(s);
      assert u[0] == us[0] && u[0] == ut[0];
      assert |us| == |ut|;
      assert us == u[..|us|] == ut;
      assert s[0] == t[0];
      assert Utf16(s[1..]) == u[|us|..] == Utf16(t[1..]);
      Utf16Injective(s[1..], t[1..]);
      assert s == [s[0]] + s[1..] && t == [t[0]] + t[1..];
    }
  }

  /** Lexicographic order on code-unit sequences: a proper prefix comes
      first, otherwise the first differing unit decides. */
  predicate LexLess(a: seq<int>, b: seq<int>) {
    if b == [] then false
    else if a == [] then true
    else a[0] < b[0] || (a[0] == b[0] && LexLess(a[1..], b[1..]))
  }

  lemma {:induction false} LexIrreflexive(a: seq<int>)
    ensures !LexLess(a, a)
  {
    if a != [] { LexIrreflexive(a[1..]); }
  }

  lemma {:induction false} LexAsymmetric(a: seq<int>, b: seq<int>)
    ensures !(LexLess(a, b) && LexLess(b, a))
  {
    if a != [] && b != [] && a[0] == b[0] { LexAsymmetric(a[1..], b[1..]); }
  }

  lemma {:induction false} LexTransitive(a: seq<int>, b: seq<int>, c: seq<int>)
    requires LexLess(a, b) && LexLess(b, c)
    ensures LexLess(a, c)
  {
    if a != [] && a[0] == b[0] && b[0] == c[0] { LexTransitive(a[1..], b[1..], c[1..]); }
  }

  lemma {:induction false} LexTotal(a: seq<int>, b: seq<int>)
    requires a != b
    ensures LexLess(a, b) || LexLess(b, a)
  {
    if a != [] && b != [] && a[0] == b[0] {
      assert a == [a[0]] + a[1..] && b == [b[0]] + b[1..];
      LexTotal(a[1..], b[1..]);
    }
  }

  /** `a < b` on JavaScript strings. */
  predicate Less(a: string, b: string)
    ensures Less(a, b) ==> a != b
  {
    LexIrreflexive(Utf16(a));
    LexLess(Utf16(a), Utf16(b))
  }

  /** Exactly one of `a === b`, `a < b` and `a > b` holds. */
  lemma Trichotomy(a: string, b: string)
    ensures a == b || Less(a, b) || Less(b, a)
    ensures a == b ==> !Less(a, b) && !Less(b, a)
    ensures !(Less(a, b) && Less(b, a))
  {
    LexAsymmetric(Utf16(a), Utf16(b));
    if a == b {
      LexIrreflexive(Utf16(a));
    } else {
      if Utf16(a) == Utf16(b) { Utf16Injective(a, b); }
      LexTotal(Utf16(a), Utf16(b));
    }
  }

  /** String `<` is transitive. */
  lemma Transitive(a: string, b: string, c: string)
    requires Less(a, b) && Less(b, c)
    ensures Less(a, c)
  {
    LexTransitive(Utf16(a), Utf16(b), Utf16(c));
  }

  /** The order is by UTF-16 code unit, not by code point: U+10000 sorts
      before U+FFFF because its first unit is a surrogate. */
  lemma CodeUnitOrderIsNotCodePointOrder()
    ensures Less("\U{10000}", "\U{FFFF}")
    ensures '\U{FFFF}' < '\U{10000}'
  {
    assert Utf16("\U{10000}") == [0xD800, 0xDC00];
    assert Utf16("\U{FFFF}") == [0xFFFF];
  }
}
