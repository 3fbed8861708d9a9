/**
 * Exact conversion between decimal strings and integer token amounts
 * (viem's `parseUnits` / `formatUnits`), and the value JavaScript's
 * `Number(..)` / `parseFloat(..)` read from a plain decimal string.
 *
 * A decimal string here is `[0-9]*` optionally followed by `.` and `[0-9]*`.
 * Numbers are exact `real`s; floating-point rounding is not modelled.
 */
module Units {
  import opened Wrappers
  import opened Digits

  /** Index of the first occurrence of `c` in `s`, or `|s|` when there is none. */
  function Find(s: string, c: char): (k: nat)
    ensures k <= |s|
    ensures forall i :: 0 <= i < k ==> s[i] != c
    ensures k < |s| ==> s[k] == c
    decreases |s|
  {
    if s == [] then 0 else if s[0] == c then 0 else 1 + Find(s[1..], c)
  }

  /** The part before the first '.' (`value.split('.')[0]`). */
  function Whole(s: string): string
  {
    s[..Find(s, '.')]
  }

  /** The part after the first '.', or "" when there is no '.'. */
  function Fraction(s: string): string
  {
    var k := Find(s, '.');
    if k < |s| then s[k + 1..] else ""
  }

  /** `s` matches `[0-9]*(\.[0-9]*)?`: one optional point, digits elsewhere. */
  predicate IsDecimal(s: string)
  {
    AllDigits(Whole(s)) && AllDigits(Fraction(s))
  }

  /** A decimal string with at least one digit, so that it denotes a number. */
  predicate IsNumeral(s: string)
  {
    IsDecimal(s) && |Whole(s)| + |Fraction(s)| > 0
  }

  /** The exact value of a decimal string. */
  function DecimalValue(s: string): real
    requires IsDecimal(s)
  {
    Value(Whole(s)) as real + Value(Fraction(s)) as real / Pow10(|Fraction(s)|) as real
  }

  /**
   * `Number(s)`: "" reads as 0, a numeral reads as its value, anything else
   * is NaN (None).
   */
  function NumberOf(s: string): Option<real>
  {
    if s == "" then Some(0.0)
    else if IsNumeral(s) then Some(DecimalValue(s))
    else None
  }

  /** `Number(s) > 0`. */
  predicate IsPositive(s: string)
  {
    NumberOf(s).Some? && NumberOf(s).value > 0.0
  }

  /** A string with a positive value is a numeral, and Number reads its decimal value. */
  lemma PositiveIsNumeral(s: string)
    requires IsPositive(s)
    ensures IsNumeral(s) && NumberOf(s) == Some(DecimalValue(s))
  {
  }

  /** Length of the run of digits at the start of `s`. */
  function LeadingDigits(s: string): (k: nat)
    ensures k <= |s| && AllDigits(s[..k])
    ensures k < |s| ==> !IsDigit(s[k])
    decreases |s|
  {
    if s == [] || !IsDigit(s[0]) then 0
    else
      var k := 1 + LeadingDigits(s[1..]);
      assert s[..k] == [s[0]] + s[1..][..k - 1];
      k
  }

  /** The longest prefix of `s` that is a decimal string. */
  function DecimalPrefix(s: string): (p: string)
    ensures |p| <= |s| && p == s[..|p|]
  {
    var w := LeadingDigits(s);
    if w < |s| && s[w] == '.' then s[..w + 1 + LeadingDigits(s[w + 1..])] else s[..w]
  }

  /** `parseFloat(s)`: the value of the longest numeric prefix, NaN (None) when it has no digit. */
  function ParseFloat(s: string): Option<real>
  {
    var p := DecimalPrefix(s);
    DecimalPrefixShape(s);
    if IsNumeral(p) then Some(DecimalValue(p)) else None
  }

  /** The longest decimal prefix is itself a decimal string. */
  lemma DecimalPrefixShape(s: string)
    ensures IsDecimal(DecimalPrefix(s))
  {
    var w := LeadingDigits(s);
    var p := DecimalPrefix(s);
    if w < |s| && s[w] == '.' {
      var t := LeadingDigits(s[w + 1..]);
      assert p == s[..w] + "." + s[w + 1..][..t];
      DigitsThenPoint(s[..w], s[w + 1..][..t]);
    } else {
      OnlyDigits(p);
    }
  }

  /** No longer prefix of `s` is a decimal string: the scan stops at the first character that cannot extend one. */
  lemma DecimalPrefixLongest(s: string, k: nat)
    requires |DecimalPrefix(s)| < k <= |s|
    ensures IsDecimal(DecimalPrefix(s))
    ensures !IsDecimal(s[..k])
  {
    DecimalPrefixShape(s);
    var w := LeadingDigits(s);
    var q := s[..k];
    assert forall i :: 0 <= i < w ==> q[i] == s[..w][i];
    if w < |s| && s[w] == '.' {
      var t := LeadingDigits(s[w + 1..]);
      assert q[w] == '.';
      assert Find(q, '.') == w;
      assert Fraction(q) == s[w + 1..k];
      assert s[w + 1..k][t] == s[w + 1..][t];
      assert !IsDigit(Fraction(q)[t]);
    } else {
      assert !IsDigit(q[w]) && q[w] != '.';
      var f := Find(q, '.');
      assert f > w;
      assert Whole(q)[w] == q[w];
    }
  }

  /** Where '.' falls in a string of digits, a point and more digits. */
  lemma DigitsThenPoint(a: string, b: string)
    requires AllDigits(a) && AllDigits(b)
    ensures Find(a + "." + b, '.') == |a|
    ensures Whole(a + "." + b) == a && Fraction(a + "." + b) == b
  {
    var s := a + "." + b;
    var k := Find(s, '.');
    assert s[|a|] == '.';
    assert s[..|a|] == a;
    assert s[|a| + 1..] == b;
  }

  /** A string of digits has no point: it is all whole part. */
  lemma OnlyDigits(a: string)
    requires AllDigits(a)
    ensures Find(a, '.') == |a|
    ensures Whole(a) == a && Fraction(a) == ""
  {
    var k := Find(a, '.');
  }

  /** `parseFloat` agrees with `Number` on numerals. */
  lemma ParseFloatOfNumeral(s: string)
    requires IsNumeral(s)
    ensures ParseFloat(s) == NumberOf(s)
  {
    var a, b := Whole(s), Fraction(s);
    var k := Find(s, '.');
    if k < |s| {
      assert s == a + ("." + b);
      LeadingDigitsStop(a, "." + b);
      assert s[|a|] == '.' && s[|a| + 1..] == b;
      LeadingDigitsStop(b, "");
      assert b + "" == b;
      assert DecimalPrefix(s) == s[..|a| + 1 + |b|];
    } else {
      assert s == a + "";
      LeadingDigitsStop(a, "");
    }
    assert DecimalPrefix(s) == s;
  }

  /** The digit run of `a + t` is exactly `a` when `t` does not start with a digit. */
  lemma {:induction false} LeadingDigitsStop(a: string, t: string)
    requires AllDigits(a)
    requires t == [] || !IsDigit(t[0])
    ensures LeadingDigits(a + t) == |a|
    decreases |a|
  {
    if a != [] {
      assert (a + t)[1..] == a[1..] + t;
      LeadingDigitsStop(a[1..], t);
    }
  }

  /** `fraction.replace(/(0+)$/, '')`: drop the trailing zeros. */
  function TrimZeros(f: string): (r: string)
    ensures |r| <= |f| && f == r + Zeros(|f| - |r|)
    ensures r == [] || r[|r| - 1] != '0'
    ensures AllDigits(f) ==> AllDigits(r)
    decreases |f|
  {
    if f != [] && f[|f| - 1] == '0' then
      var r := TrimZeros(f[..|f| - 1]);
      assert f == f[..|f| - 1] + ['0'];
      assert Zeros(|f| - |r|) == Zeros(|f| - 1 - |r|) + ['0'];
      r
    else
      assert Zeros(0) == [];
      f
  }

  /**
   * `parseUnits(s, decimals)`: the integer `s × 10^decimals`.  None is the
   * thrown error: `s` is not a decimal string, or more fraction digits than
   * `decimals` remain once trailing zeros are dropped (a case viem rounds and
   * this model refuses).
   */
  function ParseUnits(s: string, decimals: nat): Option<nat>
  {
    if !IsDecimal(s) then None
    else
      var f := TrimZeros(Fraction(s));
      if |f| > decimals then None
      else
        ValueConcat(f, Zeros(decimals - |f|));
        ValueConcat(Whole(s), f + Zeros(decimals - |f|));
        Some(Value(Whole(s) + (f + Zeros(decimals - |f|))))
  }

  /**
   * `formatUnits(n, decimals)`: the decimal string of `n / 10^decimals`, with
   * "0" for an empty whole part and no point when the fraction is all zeros.
   */
  function FormatUnits(n: nat, decimals: nat): string
  {
    var digits := NatToString(n);
    var padded := Pad(digits, decimals);
    var whole := padded[..|padded| - decimals];
    Glue(whole, TrimZeros(padded[|padded| - decimals..]))
  }

  /** `${integer || '0'}${fraction ? `.${fraction}` : ''}` */
  function Glue(whole: string, frac: string): string
  {
    (if whole == "" then "0" else whole) + (if frac == "" then "" else "." + frac)
  }

  /** `padStart(width, '0')`. */
  function Pad(s: string, width: nat): (p: string)
    ensures |p| >= width && |p| >= |s|
  {
    if |s| < width then Zeros(width - |s|) + s else s
  }

  /** The pieces FormatUnits glues together, with the facts the proofs below need. */
  lemma FormatPieces(n: nat, decimals: nat)
    returns (whole: string, frac: string, rest: string)
    ensures AllDigits(whole) && AllDigits(frac) && AllDigits(rest)
    ensures frac == TrimZeros(rest)
    ensures |rest| == decimals && |frac| <= decimals && rest == frac + Zeros(decimals - |frac|)
    ensures Value(whole + rest) == n
    ensures FormatUnits(n, decimals) ==
      Glue(whole, frac)
  {
    var digits := NatToString(n);
    var padded := Pad(digits, decimals);
    whole := padded[..|padded| - decimals];
    rest := padded[|padded| - decimals..];
    assert AllDigits(whole) && AllDigits(rest) && Value(whole + rest) == n by {
      PadValue(digits, decimals);
      assert padded == whole + rest;
    }
    frac := TrimZeros(rest);
  }

  /** Padding with leading zeros keeps the digits and the value. */
  lemma PadValue(digits: string, width: nat)
    requires AllDigits(digits)
    ensures AllDigits(Pad(digits, width)) && Value(Pad(digits, width)) == Value(digits)
  {
    if |digits| < width {
      LeadingZeros(width - |digits|, digits);
    }
  }

  /** A string glued like FormatUnits' output is a numeral whose parts are the pieces. */
  lemma FormatShape(s: string, whole: string, frac: string)
    requires AllDigits(whole) && AllDigits(frac)
    requires s == Glue(whole, frac)
    ensures IsNumeral(s)
    ensures Whole(s) == (if whole == "" then "0" else whole)
    ensures Fraction(s) == frac
  {
    var w := if whole == "" then "0" else whole;
    assert AllDigits(w);
    if frac == "" {
      assert s == w;
      OnlyDigits(w);
    } else {
      assert s == w + "." + frac;
      DigitsThenPoint(w, frac);
    }
  }

  /** Parsing what FormatUnits printed gives back the amount: the conversion is exact. */
  lemma ParseFormatRoundTrip(n: nat, decimals: nat)
    ensures ParseUnits(FormatUnits(n, decimals), decimals) == Some(n)
  {
    var whole, frac, rest := FormatPieces(n, decimals);
    ParsePieces(FormatUnits(n, decimals), whole, frac, rest, n, decimals);
  }

  /** ParseFormatRoundTrip on the pieces, without FormatUnits in sight. */
  lemma ParsePieces(s: string, whole: string, frac: string, rest: string, n: nat, decimals: nat)
    requires AllDigits(whole) && AllDigits(frac) && AllDigits(rest)
    requires |rest| == decimals && |frac| <= decimals && rest == frac + Zeros(decimals - |frac|)
    requires frac == TrimZeros(rest)
    requires Value(whole + rest) == n
    requires s == Glue(whole, frac)
    ensures ParseUnits(s, decimals) == Some(n)
  {
    TrimmedFixed(frac);
    FormatShape(s, whole, frac);
    assert Value(Whole(s)) == Value(whole) by {
      if whole == "" {
        assert Value("0") == 0;
      }
    }
    ParseUnitsValue(s, decimals, Value(whole), frac);
    var k := decimals - |frac|;
    assert Value(rest) == Value(frac) * Pow10(k) by {
      TrailingZeros(frac, k);
    }
    assert n == Value(whole) * Pow10(decimals) + Value(frac) * Pow10(k) by {
      ValueConcat(whole, rest);
    }
  }

  /** A fraction without a trailing zero is already trimmed. */
  lemma TrimmedFixed(f: string)
    requires f == [] || f[|f| - 1] != '0'
    ensures TrimZeros(f) == f
  {
  }

  /** FormatUnits prints exactly the value `n / 10^decimals`. */
  lemma FormatUnitsValue(n: nat, decimals: nat)
    ensures NumberOf(FormatUnits(n, decimals)) == Some(n as real / Pow10(decimals) as real)
    ensures ParseFloat(FormatUnits(n, decimals)) == Some(n as real / Pow10(decimals) as real)
  {
    var whole, frac, rest := FormatPieces(n, decimals);
    ValuePieces(FormatUnits(n, decimals), whole, frac, rest, n, decimals);
  }

  /** FormatUnitsValue on the pieces. */
  lemma ValuePieces(s: string, whole: string, frac: string, rest: string, n: nat, decimals: nat)
    requires AllDigits(whole) && AllDigits(frac) && AllDigits(rest)
    requires |rest| == decimals && |frac| <= decimals && rest == frac + Zeros(decimals - |frac|)
    requires Value(whole + rest) == n
    requires s == Glue(whole, frac)
    ensures NumberOf(s) == Some(n as real / Pow10(decimals) as real)
    ensures ParseFloat(s) == Some(n as real / Pow10(decimals) as real)
  {
    FormatShape(s, whole, frac);
    assert Value(Whole(s)) == Value(whole) by {
      if whole == "" {
        assert Value("0") == 0;
      }
    }
    var k := decimals - |frac|;
    var p, q := Pow10(|frac|), Pow10(k);
    assert Pow10(decimals) == p * q by {
      PowSplit(|frac|, k);
    }
    assert n == Value(whole) * (p * q) + Value(frac) * q by {
      TrailingZeros(frac, k);
      ValueConcat(whole, rest);
    }
    ScaleFraction(Value(whole), Value(frac), p, q, n);
    assert NumberOf(s) == Some(DecimalValue(s));
    ParseFloatOfNumeral(s);
  }

  /** 10^(a+b) = 10^a × 10^b. */
  lemma {:induction false} PowSplit(a: nat, b: nat)
    ensures Pow10(a + b) == Pow10(a) * Pow10(b)
  {
    if a > 0 {
      PowSplit(a - 1, b);
    }
  }

  /** Real arithmetic behind FormatUnitsValue. */
  lemma ScaleFraction(w: nat, f: nat, p: nat, q: nat, n: nat)
    requires p >= 1 && q >= 1
    requires n == w * (p * q) + f * q
    ensures w as real + f as real / p as real == n as real / (p * q) as real
  {
    var P := p as real;
    var Q := q as real;
    assert (p * q) as real == P * Q;
    assert n as real == w as real * (P * Q) + f as real * Q;
    calc {
      n as real / (P * Q);
      (w as real * (P * Q) + f as real * Q) / (P * Q);
      w as real + (f as real * Q) / (P * Q);
      w as real + f as real / P;
    }
  }

  /** FormatUnits never prints "0.00": its fraction has no trailing zero. */
  lemma FormatUnitsNotZeroPlaceholder(n: nat, decimals: nat)
    ensures FormatUnits(n, decimals) != "0.00"
  {
    var whole, frac, rest := FormatPieces(n, decimals);
    NotPlaceholder(FormatUnits(n, decimals), whole, frac);
  }

  lemma NotPlaceholder(s: string, whole: string, frac: string)
    requires AllDigits(whole) && AllDigits(frac)
    requires frac == [] || frac[|frac| - 1] != '0'
    requires s == Glue(whole, frac)
    ensures s != "0.00"
  {
    FormatShape(s, whole, frac);
    if s == "0.00" {
      assert s == "0" + "." + "00";
      DigitsThenPoint("0", "00");
    }
  }

  /** The number ParseUnits computes, from the value `w` of the whole part and the trimmed fraction `f`. */
  lemma ParseUnitsValue(s: string, decimals: nat, w: nat, f: string)
    requires IsDecimal(s) && w == Value(Whole(s))
    requires f == TrimZeros(Fraction(s)) && |f| <= decimals
    ensures ParseUnits(s, decimals) == Some(w * Pow10(decimals) + Value(f) * Pow10(decimals - |f|))
  {
    var e := decimals - |f|;
    var tail := f + Zeros(e);
    assert |tail| == decimals;
    assert Value(tail) == Value(f) * Pow10(e) by {
      TrailingZeros(f, e);
    }
    assert Value(Whole(s) + tail) == w * Pow10(decimals) + Value(tail) by {
      TrailingZeros(f, e);
      ValueConcat(Whole(s), tail);
    }
    assert ParseUnits(s, decimals) == Some(Value(Whole(s) + tail));
  }

  /** What parseUnits returns is the value of the decimal string scaled by 10^decimals. */
  lemma ParseUnitsScales(s: string, decimals: nat)
    requires ParseUnits(s, decimals).Some?
    ensures IsDecimal(s)
    ensures DecimalValue(s) == ParseUnits(s, decimals).value as real / Pow10(decimals) as real
  {
    var fraction := Fraction(s);
    var f := TrimZeros(fraction);
    var m := |f|;
    var e := decimals - m;
    var n := ParseUnits(s, decimals).value;
    var p, q, r := Pow10(m), Pow10(e), Pow10(|fraction| - m);
    assert n == Value(Whole(s)) * (p * q) + Value(f) * q by {
      ParseUnitsValue(s, decimals, Value(Whole(s)), f);
      PowSplit(m, e);
    }
    ScaleFraction(Value(Whole(s)), Value(f), p, q, n);
    assert Pow10(decimals) == p * q by {
      PowSplit(m, e);
    }
    assert Value(fraction) == 0 * (p * r) + Value(f) * r by {
      TrailingZeros(f, |fraction| - m);
    }
    ScaleFraction(0, Value(f), p, r, Value(fraction));
    assert Pow10(|fraction|) == p * r by {
      PowSplit(m, |fraction| - m);
    }
  }

  /** A string of digits without a point parses to its value scaled by 10^decimals. */
  lemma ParseWhole(w: string, decimals: nat)
    requires AllDigits(w)
    ensures ParseUnits(w, decimals) == Some(Value(w) * Pow10(decimals))
  {
    var f := TrimZeros(Fraction(w));
    assert Whole(w) == w && f == "" by {
      OnlyDigits(w);
    }
    ParseUnitsValue(w, decimals, Value(w), f);
    ZeroTimes(Value(f), Pow10(decimals - |f|));
  }

  lemma ZeroTimes(a: nat, b: nat)
    requires a == 0
    ensures a * b == 0
  {
  }

  /** "0" parses to 0 at every precision. */
  lemma ParseZero(decimals: nat)
    ensures ParseUnits("0", decimals) == Some(0)
  {
    assert AllDigits("0");
    ParseWhole("0", decimals);
    assert "0"[..0] == "";
    assert Value("0") == 0;
  }
}
