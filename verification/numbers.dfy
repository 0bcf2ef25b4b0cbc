/** JavaScript numbers as the import code uses them, and parseFloat.

    A finite number is an exact rational here: IEEE-754 rounding, overflow
    to Infinity and underflow to zero are not modelled. */
module Numbers {
  import opened Text

  datatype Num = Finite(value: real) | PosInf | NegInf | NaN

  /** `n > 0` (false for NaN). */
  predicate IsPositive(n: Num) {
    (n.Finite? && n.value > 0.0) || n.PosInf?
  }

  /** `n >= 0` (false for NaN). */
  predicate IsNonNegative(n: Num) {
    (n.Finite? && n.value >= 0.0) || n.PosInf?
  }

  /** Math.abs: NaN stays NaN, everything else becomes non-negative; a
      negative number loses its sign. */
  function Abs(n: Num): (r: Num)
    ensures r.NaN? <==> n.NaN?
    ensures !n.NaN? ==> IsNonNegative(r)
    ensures IsNonNegative(n) ==> r == n
    ensures n.Finite? && n.value < 0.0 ==> r == Finite(-n.value)
    ensures n.NegInf? ==> r.PosInf?
  {
    match n
    case Finite(v) => Finite(if v < 0.0 then -v else v)
    case PosInf => PosInf
    case NegInf => PosInf
    case NaN => NaN
  }

  /** Unary minus. */
  function Negate(n: Num): Num {
    match n
    case Finite(v) => Finite(-v)
    case PosInf => NegInf
    case NegInf => PosInf
    case NaN => NaN
  }

  predicate IsDigit(c: char) {
    '0' <= c <= '9'
  }

  /** The end of the longest run of decimal digits that starts at i. */
  function DigitRun(s: string, i: nat): (r: nat)
    requires i <= |s|
    decreases |s| - i
    ensures i <= r <= |s|
  {
    if i < |s| && IsDigit(s[i]) then DigitRun(s, i + 1) else i
  }

  /** DigitRun covers digits only and stops at the first non-digit. */
  lemma {:induction false} DigitRunSpec(s: string, i: nat)
    requires i <= |s|
    decreases |s| - i
    ensures forall k :: i <= k < DigitRun(s, i) ==> IsDigit(s[k])
    ensures DigitRun(s, i) == |s| || !IsDigit(s[DigitRun(s, i)])
  {
    if i < |s| && IsDigit(s[i]) {
      DigitRunSpec(s, i + 1);
    }
  }

  /** The value of a decimal digit (0 for any other character). */
  function DigitValue(c: char): nat {
    if IsDigit(c) then c as int - '0' as int else 0
  }

  /** The value of the decimal digits s[lo..hi] (0 when the range is empty). */
  function DigitsIn(s: string, lo: nat, hi: nat): nat
    requires lo <= hi <= |s|
    decreases hi
  {
    if hi == lo then 0 else DigitsIn(s, lo, hi - 1) * 10 + DigitValue(s[hi - 1])
  }

  /** Scales m by 10 to the power e. */
  function Scale(m: real, e: int): real
    decreases if e >= 0 then e else -e
  {
    if e == 0 then m
    else if e > 0 then 10.0 * Scale(m, e - 1)
    else Scale(m, e + 1) / 10.0
  }

  lemma {:induction false} ScaleNonNegative(m: real, e: int)
    requires m >= 0.0
    decreases if e >= 0 then e else -e
    ensures Scale(m, e) >= 0.0
  {
    if e > 0 {
      ScaleNonNegative(m, e - 1);
    } else if e < 0 {
      ScaleNonNegative(m, e + 1);
    }
  }

  /** The index just past an optional '+' or '-' at index p. */
  function SignEnd(s: string, p: nat): (r: nat)
    requires p <= |s|
    ensures p <= r <= |s|
  {
    if p < |s| && (s[p] == '+' || s[p] == '-') then p + 1 else p
  }

  /** The characters of pat appear in s from index k on. */
  predicate MatchesAt(s: string, k: nat, pat: string)
    decreases |pat|
  {
    |pat| == 0 || (k < |s| && s[k] == pat[0] && MatchesAt(s, k + 1, pat[1..]))
  }

  /** A decimal literal can start at i: a digit, or '.' and a digit. */
  predicate DigitsStart(s: string, i: nat) {
    (i < |s| && IsDigit(s[i])) || (i + 1 < |s| && s[i] == '.' && IsDigit(s[i + 1]))
  }

  /** After white space and an optional sign, the text starts with
      "Infinity", with a digit, or with '.' followed by a digit. */
  predicate StartsNumeric(s: string) {
    var i := SignEnd(s, SpaceEnd(s, 0));
    MatchesAt(s, i, "Infinity") || DigitsStart(s, i)
  }

  /** The exponent part `[eE][+-]?digits` at position p, if one is there. */
  function Exponent(s: string, p: nat): int
    requires p <= |s|
  {
    if p < |s| && (s[p] == 'e' || s[p] == 'E') then
      var q := SignEnd(s, p + 1);
      var e := DigitRun(s, q);
      if e == q then 0
      else if s[p + 1] == '-' then -(DigitsIn(s, q, e) as int)
      else DigitsIn(s, q, e)
    else 0
  }

  /** The value of the unsigned decimal literal at position i: digits with
      an optional fraction and an optional exponent, the longest such
      prefix; NaN when there is neither a digit at i nor '.' and a digit. */
  function UnsignedDecimal(s: string, i: nat): Num
    requires i <= |s|
  {
    var intEnd := DigitRun(s, i);
    var fracStart := if intEnd < |s| && s[intEnd] == '.' then intEnd + 1 else intEnd;
    var fracEnd := DigitRun(s, fracStart);
    if intEnd == i && fracEnd == fracStart then NaN
    else
      var m := DigitsIn(s, i, intEnd) as real + Scale(DigitsIn(s, fracStart, fracEnd) as real, fracStart - fracEnd);
      Finite(Scale(m, Exponent(s, fracEnd)))
  }

  /** The literal is NaN exactly when no digit starts it, and otherwise a
      finite value that is not negative. */
  lemma UnsignedDecimalSpec(s: string, i: nat)
    requires i <= |s|
    ensures UnsignedDecimal(s, i).NaN? <==> !DigitsStart(s, i)
    ensures UnsignedDecimal(s, i).NaN? || (UnsignedDecimal(s, i).Finite? && UnsignedDecimal(s, i).value >= 0.0)
  {
    var intEnd := DigitRun(s, i);
    var fracStart := if intEnd < |s| && s[intEnd] == '.' then intEnd + 1 else intEnd;
    var fracEnd := DigitRun(s, fracStart);
    if !(intEnd == i && fracEnd == fracStart) {
      var f := DigitsIn(s, fracStart, fracEnd) as real;
      ScaleNonNegative(f, fracStart - fracEnd);
      ScaleNonNegative(DigitsIn(s, i, intEnd) as real + Scale(f, fracStart - fracEnd), Exponent(s, fracEnd));
    }
  }

  /** parseFloat: skips leading white space and reads the longest prefix
      that is a decimal literal (optional sign, digits with an optional
      fraction, an optional exponent) or "Infinity"; NaN when there is none.
      Trailing text is ignored. */
  function ParseFloat(s: string): Num {
    var p := SpaceEnd(s, 0);
    var i := SignEnd(s, p);
    var magnitude := if MatchesAt(s, i, "Infinity") then PosInf else UnsignedDecimal(s, i);
    if i == p + 1 && s[p] == '-' then Negate(magnitude) else magnitude
  }

  /** The first character that is not white space is a minus sign. */
  predicate StartsWithMinus(s: string) {
    var p := SpaceEnd(s, 0);
    p < |s| && s[p] == '-'
  }

  /** parseFloat is NaN exactly when the text does not start like a number;
      a leading '-' never gives a positive number, and without one the
      result is NaN or not negative. */
  lemma ParseFloatSpec(s: string)
    ensures ParseFloat(s).NaN? <==> !StartsNumeric(s)
    ensures StartsWithMinus(s) ==> !IsPositive(ParseFloat(s))
    ensures !StartsWithMinus(s) ==> ParseFloat(s).NaN? || IsNonNegative(ParseFloat(s))
  {
    UnsignedDecimalSpec(s, SignEnd(s, SpaceEnd(s, 0)));
  }

  /** A plain string of digits reads as its decimal value. */
  lemma ParseDigits(ds: string)
    requires |ds| > 0
    requires forall k :: 0 <= k < |ds| ==> IsDigit(ds[k])
    ensures ParseFloat(ds) == Finite(DigitsIn(ds, 0, |ds|) as real)
  {
    var n := |ds|;
    var d := DigitsIn(ds, 0, n) as real;
    assert SpaceEnd(ds, 0) == 0 by {
      assert IsDigit(ds[0]) && !IsWhiteSpace(ds[0]);
    }
    assert SignEnd(ds, 0) == 0;
    assert !MatchesAt(ds, 0, "Infinity");
    assert DigitRun(ds, 0) == n by {
      DigitRunSpec(ds, 0);
    }
    assert DigitRun(ds, n) == n;
    assert DigitsIn(ds, n, n) == 0;
    assert Scale(0.0, 0) == 0.0;
    assert Exponent(ds, n) == 0;
    assert Scale(d + 0.0, 0) == d;
    assert UnsignedDecimal(ds, 0) == Finite(d);
  }
}
