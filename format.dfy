/** `format_value(value, decimals)`: the text shown for one number on the
    dashboard. A number is carried as the exact real its float denotes; the
    fixed-point text is built the way CPython's correctly rounded formatting
    builds it (round half to even on `value * 10^decimals`), and then stripped
    of trailing zeros and of a trailing decimal point. */
module Formatting {

  /** A Python float: finite (its exact value) or one of the non-finite ones. */
  datatype Float = Finite(r: real) | NaN | PosInf | NegInf

  /** What `format_value` may be handed: `None`, an object `float()` rejects,
      an `int`, or a float (Python or NumPy). */
  datatype Cell = NoneCell | NotNumeric | IntCell(i: int) | FloatCell(f: Float)

  /** The em dash shown for a missing or undefined value. */
  const Placeholder: string := "\U{2014}"

  predicate IsDigit(c: char) {
    '0' <= c <= '9'
  }

  predicate AllDigits(s: string) {
    forall k :: 0 <= k < |s| ==> IsDigit(s[k])
  }

  /** The number a digit character stands for. */
  function CharValue(c: char): nat
    requires IsDigit(c)
  {
    c as int - '0' as int
  }

  /** The number a string of decimal digits stands for, most significant digit first. */
  function DigitsValue(s: string): nat
    requires AllDigits(s)
  {
    if s == [] then 0 else 10 * DigitsValue(s[..|s| - 1]) + CharValue(s[|s| - 1])
  }

  function DigitChar(n: nat): (c: char)
    requires n < 10
    ensures IsDigit(c) && CharValue(c) == n
  {
    (n + '0' as int) as char
  }

  /** Appending one digit shifts the value one place left. */
  lemma DigitsValueSnoc(s: string, c: char)
    requires AllDigits(s) && IsDigit(c)
    ensures AllDigits(s + [c]) && DigitsValue(s + [c]) == 10 * DigitsValue(s) + CharValue(c)
  {
    assert (s + [c])[..|s|] == s;
  }

  /** Decimal digits of a natural number, without leading zeros (`str(n)`). */
  function NatText(n: nat): (s: string)
    ensures 1 <= |s| && AllDigits(s)
    ensures DigitsValue(s) == n
    ensures 1 < |s| ==> s[0] != '0'
  {
    if n < 10 then [DigitChar(n)]
    else
      var t := NatText(n / 10);
      DigitsValueSnoc(t, DigitChar(n % 10));
      t + [DigitChar(n % 10)]
  }

  /** `str(i)` for a Python int. */
  function IntText(i: int): (s: string)
    ensures 1 <= |s|
    ensures s[0] == '-' <==> i < 0
    ensures i < 0 ==> AllDigits(s[1..]) && DigitsValue(s[1..]) == -i
    ensures 0 <= i ==> AllDigits(s) && DigitsValue(s) == i
  {
    if i < 0 then
      var t := NatText(-i);
      assert ("-" + t)[1..] == t;
      "-" + t
    else NatText(i)
  }

  function Zeros(n: nat): (z: string)
    ensures |z| == n
    ensures forall k :: 0 <= k < n ==> z[k] == '0'
  {
    seq(n, _ => '0')
  }

  /** The integer nearest to `x`, ties going to the even neighbour. */
  function RoundHalfEven(x: real): (n: int)
    ensures -0.5 <= n as real - x <= 0.5
    ensures n as real - x == 0.5 || x - n as real == 0.5 ==> n % 2 == 0
  {
    var f := x.Floor;
    var frac := x - f as real;
    if frac < 0.5 then f
    else if 0.5 < frac then f + 1
    else if f % 2 == 0 then f
    else f + 1
  }

  /** `x * 10^d`. */
  function Shift(x: real, d: nat): real {
    if d == 0 then x else 10.0 * Shift(x, d - 1)
  }

  /** `n * 10^d` on integers. */
  function ShiftInt(n: int, d: nat): int {
    if d == 0 then n else 10 * ShiftInt(n, d - 1)
  }

  /** `abs(value) * 10^decimals` rounded: the digits of the fixed-point text. */
  function Scaled(x: real, decimals: nat): nat {
    var n := RoundHalfEven(Shift(x, decimals));
    if n < 0 then -n else n
  }

  /** Python prints a minus sign for every negative value, even one that rounds to zero. */
  function Sign(x: real): (s: string)
    ensures s == [] || s == ['-']
  {
    if x < 0.0 then "-" else ""
  }

  /** `n` with its last `d` decimal digits dropped. */
  function HighPart(n: nat, d: nat): nat {
    if d == 0 then n else HighPart(n / 10, d - 1)
  }

  /** The last `d` decimal digits of `n`, leading zeros included: together with
      `HighPart` they give `n` back, and they stand for less than `10^d`. */
  function LowDigits(n: nat, d: nat): (s: string)
    ensures |s| == d && AllDigits(s)
    ensures ShiftInt(HighPart(n, d), d) + DigitsValue(s) == n
    ensures DigitsValue(s) < ShiftInt(1, d)
  {
    if d == 0 then ""
    else
      var t := LowDigits(n / 10, d - 1);
      DigitsValueSnoc(t, DigitChar(n % 10));
      t + [DigitChar(n % 10)]
  }

  /** The digits before the point: the rounded, scaled magnitude without its last `decimals` digits. */
  function WholeDigits(x: real, decimals: nat): (w: string)
    ensures 1 <= |w| && AllDigits(w)
    ensures DigitsValue(w) == HighPart(Scaled(x, decimals), decimals)
    ensures 1 < |w| ==> w[0] != '0'
  {
    NatText(HighPart(Scaled(x, decimals), decimals))
  }

  /** The `decimals` digits after the point. Whole and fraction digits read together
      stand for the rounded value of `|x| * 10^decimals`. */
  function FractionDigits(x: real, decimals: nat): (f: string)
    ensures |f| == decimals && AllDigits(f)
    ensures ShiftInt(DigitsValue(WholeDigits(x, decimals)), decimals) + DigitsValue(f)
         == Scaled(x, decimals)
    ensures DigitsValue(f) < ShiftInt(1, decimals)
  {
    LowDigits(Scaled(x, decimals), decimals)
  }

  /** `f"{value:.{decimals}f}"` for `decimals >= 1`: a minus sign exactly for a
      negative value, then digits, one point, and exactly `decimals` digits after it. */
  function FixedText(x: real, decimals: nat): (s: string)
    requires 1 <= decimals
    ensures decimals < |s| && s[|s| - decimals - 1] == '.'
    ensures s[0] == '-' <==> x < 0.0
    ensures AllDigits(s[|s| - decimals..])
    ensures forall k :: 0 <= k < |s| && s[k] == '.' ==> k == |s| - decimals - 1
  {
    var sign, w, f := Sign(x), WholeDigits(x, decimals), FractionDigits(x, decimals);
    FixedShape(sign, w, f);
    sign + w + "." + f
  }

  /** The layout of fixed-point text built from a sign, integer digits and fraction digits. */
  lemma FixedShape(sign: string, w: string, f: string)
    requires sign == [] || sign == ['-']
    requires 1 <= |w| && AllDigits(w) && AllDigits(f)
    ensures var s := sign + w + "." + f;
      |f| < |s| && s[|s| - |f| - 1] == '.' &&
      (s[0] == '-' <==> sign == ['-']) &&
      s[|s| - |f|..] == f &&
      forall k :: 0 <= k < |s| && s[k] == '.' ==> k == |s| - |f| - 1
  {
    var p := sign + w;
    var s := p + "." + f;
    NoPointBeforeFraction(sign, w);
    assert s[|s| - |f|..] == f;
    assert s[0] == p[0];
    forall k | 0 <= k < |s| && k != |s| - |f| - 1 ensures s[k] != '.' {
      if k < |p| {
        assert s[k] == p[k];
      } else if k > |p| {
        assert s[k] == f[k - |p| - 1];
      }
    }
  }

  /** `s.rstrip(c)` for a single character `c`. */
  function RStrip(s: string, c: char): (r: string)
    ensures r <= s
    ensures r == [] || r[|r| - 1] != c
    ensures forall k :: |r| <= k < |s| ==> s[k] == c
  {
    if s != [] && s[|s| - 1] == c then RStrip(s[..|s| - 1], c) else s
  }

  /** `.rstrip("0").rstrip(".")`: a prefix of the text, not ending in `'.'`, from
      which only `'0'` and `'.'` characters were cut. */
  function Strip(s: string): (r: string)
    ensures r <= s
    ensures r == [] || r[|r| - 1] != '.'
    ensures forall k :: |r| <= k < |s| ==> s[k] == '0' || s[k] == '.'
  {
    var t := RStrip(s, '0');
    var r := RStrip(t, '.');
    assert forall k :: |r| <= k < |t| ==> s[k] == t[k];
    r
  }

  /** The number part of `format_value`, once the value is known to be finite: the
      text is non-empty and starts with a minus sign or a digit; with decimals it is
      a prefix of the fixed-point text that does not end in `'.'`. */
  function FormatNumber(x: real, decimals: nat): (s: string)
    ensures 1 <= |s| && (s[0] == '-' || IsDigit(s[0]))
    ensures 1 <= decimals ==> s <= FixedText(x, decimals) && s[|s| - 1] != '.'
  {
    if decimals == 0 then IntText(RoundHalfEven(x))
    else
      var sign, w, f := Sign(x), WholeDigits(x, decimals), FractionDigits(x, decimals);
      StripFixed(sign, w, f);
      StrippedShape(sign, w, f);
      var t := Strip(FixedText(x, decimals));
      assert t == sign + w + PointAndFraction(f);
      assert t[0] == (sign + w)[0];
      if t != "" then t else "0"
  }

  /** `format_value`: the dash, or text starting with a minus sign or a digit. */
  function FormatValue(value: Cell, decimals: nat): (s: string)
    ensures 1 <= |s|
    ensures s == Placeholder || s[0] == '-' || IsDigit(s[0])
  {
    match value
    case NoneCell => Placeholder
    case NotNumeric => Placeholder
    case FloatCell(f) => if f.Finite? then FormatNumber(f.r, decimals) else Placeholder
    case IntCell(i) => FormatNumber(i as real, decimals)
  }

  /** The fraction part that survives stripping, with its point; empty when only zeros were left. */
  function PointAndFraction(f: string): string {
    var g := RStrip(f, '0');
    if g == [] then "" else "." + g
  }

  /** Stripping a string that is all `c` leaves nothing. */
  lemma RStripAll(s: string, c: char)
    requires forall k :: 0 <= k < |s| ==> s[k] == c
    ensures RStrip(s, c) == []
  {
  }

  /** A string that does not end in `c` is left alone. */
  lemma RStripNoop(s: string, c: char)
    requires s == [] || s[|s| - 1] != c
    ensures RStrip(s, c) == s
  {
  }

  /** Stripping `a + b` strips `b` first and reaches into `a` only when `b` is used up. */
  lemma {:induction false} RStripAppend(a: string, b: string, c: char)
    ensures RStrip(a + b, c) == if RStrip(b, c) == [] then RStrip(a, c) else a + RStrip(b, c)
  {
    if b == [] {
      assert a + b == a;
    } else if b[|b| - 1] == c {
      assert (a + b)[..|a + b| - 1] == a + b[..|b| - 1];
      RStripAppend(a, b[..|b| - 1], c);
    }
  }

  /** What stripping does to well-formed fixed-point text: the sign and every
      integer digit stay; trailing fraction zeros go, and the point goes with
      them when no fraction digit is left. */
  lemma StripFixed(sign: string, w: string, f: string)
    requires sign == [] || sign == ['-']
    requires 1 <= |w| && AllDigits(w) && AllDigits(f)
    ensures Strip(sign + w + "." + f) == sign + w + PointAndFraction(f)
  {
    var p := sign + w;
    assert p[|p| - 1] == w[|w| - 1];
    var g := RStrip(f, '0');
    RStripAppend(p + ".", f, '0');
    RStripNoop(p + ".", '0');
    assert sign + w + "." + f == (p + ".") + f;
    if g == [] {
      assert RStrip(p + ".", '.') == RStrip(p, '.') by {
        assert (p + ".")[..|p + "."| - 1] == p;
      }
      RStripNoop(p, '.');
    } else {
      assert IsDigit(g[|g| - 1]);
      RStripNoop(p + "." + g, '.');
      assert p + ("." + g) == p + "." + g;
    }
  }

  /** The shape of stripped fixed-point text: non-empty, a prefix of the text it
      came from, ending neither in `'.'` nor, when it keeps a point, in `'0'`. */
  lemma StrippedShape(sign: string, w: string, f: string)
    requires sign == [] || sign == ['-']
    requires 1 <= |w| && AllDigits(w) && AllDigits(f)
    ensures var s := sign + w + PointAndFraction(f);
      s <= sign + w + "." + f &&
      s[|s| - 1] != '.' && ('.' in s ==> s[|s| - 1] != '0')
  {
    var p := sign + w;
    var s := p + PointAndFraction(f);
    var g := RStrip(f, '0');
    NoPointBeforeFraction(sign, w);
    if g == [] {
      assert s == p;
      assert s[|s| - 1] == w[|w| - 1];
    } else {
      assert s == (p + ".") + g;
      assert s[|s| - 1] == g[|g| - 1];
      assert sign + w + "." + f == (p + ".") + f;
      PrefixAppend(p + ".", g, f);
    }
  }

  /** The sign and integer digits hold no point. */
  lemma NoPointBeforeFraction(sign: string, w: string)
    requires sign == [] || sign == ['-']
    requires AllDigits(w)
    ensures '.' !in sign + w
  {
    var p := sign + w;
    forall k | 0 <= k < |p| ensures p[k] != '.' {
      if k >= |sign| { assert p[k] == w[k - |sign|]; }
    }
  }

  lemma PrefixAppend(p: string, g: string, f: string)
    requires g <= f
    ensures p + g <= p + f
  {
    assert (p + f)[..|p + g|] == p + g;
  }

  /** `format_value` of a finite number with `decimals >= 1`: the fixed-point text
      with trailing fraction zeros and a bare point removed. The result is a
      non-empty prefix of that text, never the `"0"` fallback, and ends neither in
      `'.'` nor, when it keeps a fraction, in `'0'`. */
  lemma FormatFinite(x: real, decimals: nat)
    requires 1 <= decimals
    ensures FormatValue(FloatCell(Finite(x)), decimals)
         == Sign(x) + WholeDigits(x, decimals) + PointAndFraction(FractionDigits(x, decimals))
    ensures Strip(FixedText(x, decimals)) != ""
    ensures FormatValue(FloatCell(Finite(x)), decimals) <= FixedText(x, decimals)
    ensures var s := FormatValue(FloatCell(Finite(x)), decimals);
      s[|s| - 1] != '.' && ('.' in s ==> s[|s| - 1] != '0')
  {
    var sign, w, f := Sign(x), WholeDigits(x, decimals), FractionDigits(x, decimals);
    StripFixed(sign, w, f);
    StrippedShape(sign, w, f);
    assert FixedText(x, decimals) == sign + w + "." + f;
    assert FormatValue(FloatCell(Finite(x)), decimals) == Strip(FixedText(x, decimals));
  }

  /** The placeholder appears exactly for `None`, values `float()` rejects, NaN
      and the infinities; every number formats to text starting with a digit or
      a minus sign. */
  lemma PlaceholderIff(value: Cell, decimals: nat)
    ensures FormatValue(value, decimals) == Placeholder
        <==> value.NoneCell? || value.NotNumeric? || (value.FloatCell? && !value.f.Finite?)
    ensures var s := FormatValue(value, decimals);
      s != Placeholder ==> s[0] == '-' || IsDigit(s[0])
  {
    assert Placeholder[0] == '\U{2014}';
  }

  /** Rounding an integer gives it back. */
  lemma RoundInteger(n: int)
    ensures RoundHalfEven(n as real) == n
  {
  }

  lemma {:induction false} ShiftInteger(i: int, d: nat)
    ensures Shift(i as real, d) == ShiftInt(i, d) as real
  {
    if d != 0 {
      ShiftInteger(i, d - 1);
    }
  }

  lemma {:induction false} ShiftedDigits(m: nat, d: nat)
    ensures ShiftInt(m, d) >= 0
    ensures HighPart(ShiftInt(m, d), d) == m
    ensures LowDigits(ShiftInt(m, d), d) == Zeros(d)
  {
    if d != 0 {
      ShiftedDigits(m, d - 1);
      var y := ShiftInt(m, d - 1);
      assert ShiftInt(m, d) / 10 == y && ShiftInt(m, d) % 10 == 0;
      assert Zeros(d - 1) + [DigitChar(0)] == Zeros(d);
    }
  }

  /** A whole number `i` has `|i|` as integer digits and only zeros after the point. */
  lemma FixedTextOfInteger(i: int, decimals: nat)
    ensures WholeDigits(i as real, decimals) == NatText(if i < 0 then -i else i)
    ensures FractionDigits(i as real, decimals) == Zeros(decimals)
  {
    var m: nat := if i < 0 then -i else i;
    ShiftInteger(i, decimals);
    RoundInteger(ShiftInt(i, decimals));
    ShiftNegate(i, decimals);
    ShiftedDigits(m, decimals);
  }

  lemma {:induction false} ShiftNegate(i: int, d: nat)
    ensures ShiftInt(-i, d) == -ShiftInt(i, d)
  {
    if d != 0 {
      ShiftNegate(i, d - 1);
    }
  }

  /** An `int` (such as the sample size `N`) is shown as `str(N)` whatever the
      precision: its fixed-point text has only zeros after the point. */
  lemma FormatInteger(i: int, decimals: nat)
    ensures FormatValue(IntCell(i), decimals) == IntText(i)
  {
    var x := i as real;
    assert FormatValue(IntCell(i), decimals) == FormatNumber(x, decimals);
    if decimals == 0 {
      RoundInteger(i);
    } else {
      FixedTextOfInteger(i, decimals);
      RStripAll(Zeros(decimals), '0');
      assert PointAndFraction(FractionDigits(x, decimals)) == "";
      FormatFinite(x, decimals);
      assert Sign(x) + WholeDigits(x, decimals) == IntText(i);
    }
  }

  /** `format_value(0.25, 2)` is `"0.25"`: a single `0` before the point and both
      fraction digits kept. */
  lemma QuarterAtTwoDecimals()
    ensures FormatValue(FloatCell(Finite(0.25)), 2) == "0.25"
  {
    assert Scaled(0.25, 2) == 25 by {
      assert Shift(0.25, 1) == 2.5;
      assert Shift(0.25, 2) == 25.0;
      assert RoundHalfEven(25.0) == 25;
    }
    assert WholeDigits(0.25, 2) == "0" by {
      assert HighPart(2, 1) == HighPart(0, 0) == 0;
    }
    assert FractionDigits(0.25, 2) == "25" by {
      assert LowDigits(2, 1) == "2";
    }
    assert PointAndFraction("25") == ".25" by {
      assert RStrip("25", '0') == "25";
    }
    FormatFinite(0.25, 2);
  }

  lemma {:induction false} ShiftZero(d: nat)
    ensures ShiftInt(0, d) == 0
  {
    if d != 0 {
      ShiftZero(d - 1);
    }
  }

  /** A negative value whose scaled magnitude rounds to zero keeps its minus sign
      when `decimals >= 1` (`"-0.00"` strips to `"-0"`), and loses it at
      `decimals == 0`, where `int(round(value))` is the integer 0. */
  lemma NegativeRoundingToZero(x: real, decimals: nat)
    requires x < 0.0 && Scaled(x, decimals) == 0
    ensures FormatValue(FloatCell(Finite(x)), decimals) == if decimals == 0 then "0" else "-0"
  {
    if decimals == 0 {
      RoundingToZeroWithoutDecimals(x);
    } else {
      RoundingToZeroWithDecimals(x, decimals);
    }
  }

  lemma RoundingToZeroWithoutDecimals(x: real)
    requires Scaled(x, 0) == 0
    ensures FormatValue(FloatCell(Finite(x)), 0) == "0"
  {
    assert RoundHalfEven(x) == 0;
    assert IntText(0) == "0";
  }

  lemma RoundingToZeroWithDecimals(x: real, decimals: nat)
    requires x < 0.0 && 1 <= decimals && Scaled(x, decimals) == 0
    ensures FormatValue(FloatCell(Finite(x)), decimals) == "-0"
  {
    assert WholeDigits(x, decimals) == "0" by {
      ShiftZero(decimals);
      ShiftedDigits(0, decimals);
    }
    assert FractionDigits(x, decimals) == Zeros(decimals) by {
      ShiftZero(decimals);
      ShiftedDigits(0, decimals);
    }
    assert PointAndFraction(Zeros(decimals)) == "" by {
      RStripAll(Zeros(decimals), '0');
    }
    FormatFinite(x, decimals);
  }

  /** One instance: `format_value(-0.001, 2)` is `"-0"`. */
  lemma NegativeRoundsToMinusZero()
    ensures FormatValue(FloatCell(Finite(-0.001)), 2) == "-0"
  {
    assert Scaled(-0.001, 2) == 0 by {
      assert Shift(-0.001, 2) == -0.1;
      assert RoundHalfEven(-0.1) == 0;
    }
    NegativeRoundingToZero(-0.001, 2);
  }

  /** Each single `rstrip` is idempotent. */
  lemma RStripIdempotent(s: string, c: char)
    ensures RStrip(RStrip(s, c), c) == RStrip(s, c)
  {
    RStripNoop(RStrip(s, c), c);
  }

  /** The two-step strip is idempotent while its result keeps a decimal point. */
  lemma StripIdempotentWithFraction(s: string)
    requires '.' in Strip(s)
    requires Strip(s)[|Strip(s)| - 1] != '0'
    ensures Strip(Strip(s)) == Strip(s)
  {
    var t := Strip(s);
    RStripNoop(t, '0');
    RStripIdempotent(t, '.');
  }

  /** The two-step strip as a whole is not idempotent: `"10.00"` strips to `"10"`,
      which would strip further to `"1"`. `format_value` strips once, so its
      output `"10"` is right. */
  lemma StripNotIdempotent()
    ensures Strip("10.00") == "10" && Strip("10") == "1"
  {
    StripFixed([], "10", "00");
    RStripAll("00", '0');
    assert "10.00" == [] + "10" + "." + "00";
    assert RStrip("10", '0') == "1" by {
      assert "10"[..1] == "1";
    }
    RStripNoop("1", '.');
  }
}
