/** The few pieces of the Kotlin/JVM standard library whose exact behaviour
    the session engine depends on: `String.toLongOrNull`, truncating `/` and
    `%` on `Long`, `String.compareTo` (used by `sortedBy`) and
    `String.contains(other, ignoreCase = true)`.

    A Kotlin `String` is modelled as a `seq<char>`, one `char` per Unicode
    code point; Kotlin counts and compares UTF-16 code units instead, which
    differs only for characters above U+FFFF. */
module Kotlin {
  import opened Maybe

  const LongMin: int := -0x8000_0000_0000_0000
  const LongMax: int := 0x7FFF_FFFF_FFFF_FFFF

  predicate InLongRange(x: int) {
    LongMin <= x <= LongMax
  }

  // ---------------------------------------------------------------------
  // String.toLongOrNull() (radix 10)
  // ---------------------------------------------------------------------

  predicate IsDigit(c: char) {
    '0' <= c <= '9'
  }

  predicate AllDigits(s: string) {
    forall i :: 0 <= i < |s| ==> IsDigit(s[i])
  }

  function DigitValue(c: char): (d: nat)
    requires IsDigit(c)
    ensures d < 10
  {
    c as int - '0' as int
  }

  function DigitChar(d: nat): (c: char)
    requires d < 10
    ensures IsDigit(c) && DigitValue(c) == d
  {
    ('0' as int + d) as char
  }

  /** The value of a run of decimal digits, read left to right. */
  function DigitsValue(s: string): nat
    requires AllDigits(s)
  {
    if |s| == 0 then 0 else DigitsValue(s[..|s| - 1]) * 10 + DigitValue(s[|s| - 1])
  }

  /** `s.toLongOrNull()`: an optional `+` or `-` sign followed by at least one
      decimal digit, whose value fits in a `Long`; anything else is `null`. */
  function ToLongOrNull(s: string): (r: Option<int>)
    ensures r.Some? ==> InLongRange(r.value)
    ensures r.Some? ==> 0 < |s| && AllDigits(if s[0] == '-' || s[0] == '+' then s[1..] else s)
    ensures r.Some? && r.value < 0 ==> s[0] == '-'
  {
    if |s| == 0 then None
    else
      var body := if s[0] == '-' || s[0] == '+' then s[1..] else s;
      if |body| == 0 || !AllDigits(body) then None
      else
        var magnitude: int := DigitsValue(body);
        var v := if s[0] == '-' then -magnitude else magnitude;
        if InLongRange(v) then Some(v) else None
  }

  /** Decimal rendering of a natural number, without leading zeros. */
  function NatToString(n: nat): (s: string)
    ensures 0 < |s| && AllDigits(s)
  {
    if n < 10 then [DigitChar(n)] else NatToString(n / 10) + [DigitChar(n % 10)]
  }

  /** `Long.toString()`: a leading `-` for negative values. */
  function LongToString(n: int): (s: string)
    ensures 0 < |s|
  {
    if n < 0 then "-" + NatToString(-n) else NatToString(n)
  }

  lemma {:induction false} DigitsValueOfNatToString(n: nat)
    ensures DigitsValue(NatToString(n)) == n
  {
    if n >= 10 {
      var s := NatToString(n);
      DigitsValueOfNatToString(n / 10);
      assert s[..|s| - 1] == NatToString(n / 10);
    }
  }

  /** Parsing undoes rendering for every `Long`. */
  lemma ToLongOrNullRoundTrip(n: int)
    requires InLongRange(n)
    ensures ToLongOrNull(LongToString(n)) == Some(n)
  {
    var s := LongToString(n);
    if n < 0 {
      assert s[1..] == NatToString(-n);
      DigitsValueOfNatToString(-n);
    } else {
      DigitsValueOfNatToString(n);
      assert NatToString(n)[0] != '-' && NatToString(n)[0] != '+';
    }
  }

  /** The signs `toLongOrNull` accepts in front of the digits. */
  datatype Sign = NoSign | Plus | Minus

  function SignText(sign: Sign): (t: string)
    ensures |t| <= 1
  {
    match sign
    case NoSign => ""
    case Plus => "+"
    case Minus => "-"
  }

  function SignedValue(sign: Sign, m: nat): int {
    var v: int := m;
    if sign == Minus then -v else v
  }

  /** `k` zeros. */
  function Zeros(k: nat): (z: string)
    ensures |z| == k && AllDigits(z)
  {
    seq(k, _ => '0')
  }

  /** Every spelling `toLongOrNull` accepts: an optional sign, any number of
      leading zeros, then the decimal rendering of the magnitude. */
  function PaddedRendering(sign: Sign, k: nat, m: nat): string {
    SignText(sign) + Zeros(k) + NatToString(m)
  }

  lemma {:induction false} DigitsValueOfZeros(k: nat)
    ensures DigitsValue(Zeros(k)) == 0
  {
    if k > 0 {
      assert Zeros(k)[..k - 1] == Zeros(k - 1);
      DigitsValueOfZeros(k - 1);
    }
  }

  /** Leading zeros do not change the value of a digit run. */
  lemma {:induction false} DigitsValueLeadingZeros(k: nat, t: string)
    requires AllDigits(t)
    ensures AllDigits(Zeros(k) + t) && DigitsValue(Zeros(k) + t) == DigitsValue(t)
  {
    var s := Zeros(k) + t;
    if |t| == 0 {
      assert s == Zeros(k);
      DigitsValueOfZeros(k);
    } else {
      assert s[..|s| - 1] == Zeros(k) + t[..|t| - 1];
      assert s[|s| - 1] == t[|t| - 1];
      DigitsValueLeadingZeros(k, t[..|t| - 1]);
    }
  }

  /** Parsing any accepted spelling gives its signed magnitude, or `null`
      when that is outside the `Long` range: a leading `+` and leading
      zeros are accepted, and `-0` is zero. */
  lemma ToLongOrNullPadded(sign: Sign, k: nat, m: nat)
    ensures ToLongOrNull(PaddedRendering(sign, k, m))
         == if InLongRange(SignedValue(sign, m)) then Some(SignedValue(sign, m)) else None
  {
    var t := Zeros(k) + NatToString(m);
    DigitsValueLeadingZeros(k, NatToString(m));
    DigitsValueOfNatToString(m);
    assert 0 < |t| && AllDigits(t) && DigitsValue(t) == m;
    assert PaddedRendering(sign, k, m) == SignText(sign) + t;
    ToLongOrNullOfSigned(sign, t);
  }

  /** Unfolds `toLongOrNull` on a sign followed by a non-empty digit run. */
  lemma ToLongOrNullOfSigned(sign: Sign, t: string)
    requires 0 < |t| && AllDigits(t)
    ensures ToLongOrNull(SignText(sign) + t)
         == if InLongRange(SignedValue(sign, DigitsValue(t))) then Some(SignedValue(sign, DigitsValue(t))) else None
  {
    var s := SignText(sign) + t;
    match sign
    case NoSign =>
      assert s == t && IsDigit(s[0]);
    case Plus =>
      assert s[0] == '+' && s[1..] == t;
    case Minus =>
      assert s[0] == '-' && s[1..] == t;
  }

  /** A digit run is some number of zeros followed by the rendering of its
      value. */
  lemma {:induction false} SplitLeadingZeros(t: string) returns (k: nat)
    requires 0 < |t| && AllDigits(t)
    ensures t == Zeros(k) + NatToString(DigitsValue(t))
  {
    var p := t[..|t| - 1];
    var c := t[|t| - 1];
    var d := DigitValue(c);
    assert DigitChar(d) == c;
    if |p| == 0 {
      k := 0;
      assert t == [c];
    } else {
      var j := SplitLeadingZeros(p);
      var n := DigitsValue(t);
      assert n == DigitsValue(p) * 10 + d;
      if DigitsValue(p) == 0 {
        k := j + 1;
        assert p == Zeros(j) + "0";
        assert NatToString(n) == [c];
        assert Zeros(k) == Zeros(j) + "0";
      } else {
        k := j;
        assert n / 10 == DigitsValue(p) && n % 10 == d;
        assert NatToString(n) == NatToString(DigitsValue(p)) + [c];
      }
      assert t == p + [c];
    }
  }

  /** Nothing else is accepted: every string `toLongOrNull` parses is an
      accepted spelling of the value it returns. */
  lemma ToLongOrNullAcceptsOnlyPadded(s: string)
    requires ToLongOrNull(s).Some?
    ensures exists sign: Sign, k: nat, m: nat ::
      (s == PaddedRendering(sign, k, m) && ToLongOrNull(s).value == SignedValue(sign, m))
  {
    var sign := if s[0] == '-' then Minus else if s[0] == '+' then Plus else NoSign;
    var body := if sign == NoSign then s else s[1..];
    assert s == SignText(sign) + body;
    var k := SplitLeadingZeros(body);
    var m := DigitsValue(body);
    ToLongOrNullOfSigned(sign, body);
    assert s == PaddedRendering(sign, k, m);
  }

  // ---------------------------------------------------------------------
  // Long division and remainder (truncating toward zero)
  // ---------------------------------------------------------------------

  /** Kotlin's `a / b` for `b > 0`: the quotient rounded toward zero. */
  function TruncDiv(a: int, b: int): (q: int)
    requires b > 0
    ensures 0 <= a ==> q * b <= a < (q + 1) * b
    ensures a < 0 ==> (q - 1) * b < a <= q * b
  {
    if a >= 0 then a / b else -((-a) / b)
  }

  /** Kotlin's `a % b` for `b > 0`: the remainder takes the sign of `a`. */
  function TruncRem(a: int, b: int): (r: int)
    requires b > 0
    ensures a == TruncDiv(a, b) * b + r
    ensures 0 <= a ==> 0 <= r < b
    ensures a < 0 ==> -b < r <= 0
  {
    a - TruncDiv(a, b) * b
  }

  // ---------------------------------------------------------------------
  // String.compareTo: lexicographic on code units, a proper prefix first
  // ---------------------------------------------------------------------

  /** `a.compareTo(b) <= 0`. */
  function LexLe(a: string, b: string): (r: bool)
    // A prefix, the string itself included, comes first.
    ensures a <= b ==> r
    // A non-empty string never precedes the empty one.
    ensures |a| > 0 && |b| == 0 ==> !r
  {
    if |a| == 0 then true
    else if |b| == 0 then false
    else if a[0] != b[0] then a[0] < b[0]
    else LexLe(a[1..], b[1..])
  }

  /** Past a common prefix, the first differing character decides, as in
      `String.compareTo`. */
  lemma {:induction false} LexLeFirstDifference(a: string, b: string, k: nat)
    requires k < |a| && k < |b| && a[..k] == b[..k] && a[k] != b[k]
    ensures LexLe(a, b) <==> a[k] < b[k]
  {
    if k > 0 {
      assert a[0] == a[..k][0] && b[0] == b[..k][0];
      assert a[1..][..k - 1] == a[..k][1..];
      assert b[1..][..k - 1] == b[..k][1..];
      LexLeFirstDifference(a[1..], b[1..], k - 1);
    }
  }

  lemma {:induction false} LexLeReflexive(a: string)
    ensures LexLe(a, a)
  {
    if |a| > 0 {
      LexLeReflexive(a[1..]);
    }
  }

  lemma {:induction false} LexLeTotal(a: string, b: string)
    ensures LexLe(a, b) || LexLe(b, a)
  {
    if |a| > 0 && |b| > 0 && a[0] == b[0] {
      LexLeTotal(a[1..], b[1..]);
    }
  }

  lemma {:induction false} LexLeTransitive(a: string, b: string, c: string)
    requires LexLe(a, b) && LexLe(b, c)
    ensures LexLe(a, c)
  {
    if |a| > 0 && |b| > 0 && |c| > 0 && a[0] == b[0] && b[0] == c[0] {
      LexLeTransitive(a[1..], b[1..], c[1..]);
    }
  }

  lemma {:induction false} LexLeAntisymmetric(a: string, b: string)
    requires LexLe(a, b) && LexLe(b, a)
    ensures a == b
  {
    if |a| > 0 && |b| > 0 {
      LexLeAntisymmetric(a[1..], b[1..]);
      assert a == [a[0]] + a[1..];
      assert b == [b[0]] + b[1..];
    }
  }

  // ---------------------------------------------------------------------
  // String.contains(other, ignoreCase = true)
  // ---------------------------------------------------------------------

  /** `other` occurs in `s` at position `i`, comparing characters after
      `fold`, the abstract case fold. */
  predicate MatchesAt(s: string, other: string, i: nat, fold: char -> char) {
    i + |other| <= |s| &&
    forall j :: 0 <= j < |other| ==> fold(s[i + j]) == fold(other[j])
  }

  /** The declarative meaning: some position matches. */
  ghost predicate OccursIgnoringCase(s: string, other: string, fold: char -> char) {
    exists i: nat :: MatchesAt(s, other, i, fold)
  }

  /** The search Kotlin performs: try each start index from `from` upward
      and report the first that matches. */
  function IndexOfIgnoringCase(s: string, other: string, from: nat, fold: char -> char): (r: Option<nat>)
    decreases |s| - from
    ensures r.Some? ==> from <= r.value && MatchesAt(s, other, r.value, fold)
    ensures r.Some? ==> forall i: nat :: from <= i < r.value ==> !MatchesAt(s, other, i, fold)
    ensures r.None? ==> forall i: nat :: from <= i ==> !MatchesAt(s, other, i, fold)
  {
    if from + |other| > |s| then None
    else if MatchesAt(s, other, from, fold) then Some(from)
    else IndexOfIgnoringCase(s, other, from + 1, fold)
  }

  /** `s.contains(other, ignoreCase = true)`. */
  function ContainsIgnoringCase(s: string, other: string, fold: char -> char): (b: bool)
    ensures b <==> OccursIgnoringCase(s, other, fold)
  {
    IndexOfIgnoringCase(s, other, 0, fold).Some?
  }
}
