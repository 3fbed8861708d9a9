/**
 * components/vaults/supply/NumericKeypad.tsx: the on-screen keypad of the
 * supply page, as a transition function from the current input text, the
 * pressed key and the token's decimal count to the next input text.
 *
 * The source reads the current input twice, once directly and once through
 * the `prev` of a functional state update; one key press at a time, both are
 * the same text here.
 */
module Keypad {
  import opened Digits
  import opened Text
  import opened Units

  datatype Key = Del | Point | Digit(c: char)

  /** The text each key passes to the handler. */
  function Label(k: Key): string
  {
    match k
    case Del => "DEL"
    case Point => "."
    case Digit(c) => [c]
  }

  /** The twelve keys, row by row. */
  const Layout: seq<Key> := [Digit('1'), Digit('2'), Digit('3'), Digit('4'), Digit('5'), Digit('6'),
                             Digit('7'), Digit('8'), Digit('9'), Point, Digit('0'), Del]

  /** The `decimals` prop when none is given. */
  const DefaultDecimals: nat := 6

  /** The text shown for an empty amount. */
  const Placeholder: string := "0.00"

  /** The layout has twelve keys: digits, the point and DEL. */
  lemma LayoutKeys()
    ensures |Layout| == 12
    ensures Point in Layout && Del in Layout
    ensures forall i :: 0 <= i < |Layout| && Layout[i].Digit? ==> IsDigit(Layout[i].c)
  {
    assert Layout[9] == Point && Layout[11] == Del;
  }

  /** Every digit has its key. */
  lemma LayoutDigits(c: char)
    requires IsDigit(c)
    ensures Digit(c) in Layout
  {
    var d := c as int - '0' as int;
    assert Digit(c) == Layout[if d == 0 then 10 else d - 1];
  }

  /** `s.includes('.')`. */
  predicate HasPoint(s: string)
  {
    Find(s, '.') < |s|
  }

  lemma HasPointIsContains(s: string)
    ensures HasPoint(s) <==> Contains(s, ".")
  {
    var k := Find(s, '.');
    if k < |s| {
      assert OccursAt(s, ".", k);
    }
    if Contains(s, ".") {
      var j :| 0 <= j <= |s| - 1 && OccursAt(s, ".", j);
      assert s[j] == s[j..j + 1][0];
    }
  }

  /** `s.split('.').length === 2`: exactly one point. */
  predicate OnePoint(s: string)
  {
    HasPoint(s) && !HasPoint(Fraction(s))
  }

  /** `s.slice(0, -1)`. */
  function DropLast(s: string): (r: string)
    ensures |r| == if s == "" then 0 else |s| - 1
    ensures r == s[..|r|]
  {
    if s == "" then "" else s[..|s| - 1]
  }

  /**
   * DEL: drop the last character; an input left empty, "0" or "0." becomes
   * the placeholder, and a trailing point goes as well.
   */
  function AfterDelete(input: string): string
  {
    var next := DropLast(input);
    if next == "" || next == "0" || next == "0." then Placeholder
    else if EndsWith(next, ".") then DropLast(next)
    else next
  }

  /** The point key: append a point (after a 0 on an empty input) unless there is one already. */
  function AfterPoint(input: string): string
  {
    if HasPoint(input) then input
    else input + (if input == "" then "0." else ".")
  }

  /** A digit typed on the placeholder or on "0" starts a new number. */
  function Clean(input: string): string
  {
    if input == Placeholder || input == "0" then "" else input
  }

  /** The input with the digit appended and a leading zero of a whole number dropped. */
  function Typed(input: string, c: char): (v: string)
    ensures |v| >= 1 && v[|v| - 1] == c
    ensures HasPoint(Clean(input) + [c]) ==> v == Clean(input) + [c]
  {
    var raw := Clean(input) + [c];
    if raw[0] == '0' && |raw| > 1 && !HasPoint(raw) then raw[1..] else raw
  }

  /** Dropping the leading zero never changes the number typed: the digits read as the old number times ten plus the digit. */
  lemma TypedKeepsValue(input: string, c: char)
    requires AllDigits(Clean(input)) && IsDigit(c)
    ensures AllDigits(Typed(input, c))
    ensures Value(Typed(input, c)) == Value(Clean(input)) * 10 + DigitValue(c)
  {
    var raw := Clean(input) + [c];
    assert raw[..|raw| - 1] == Clean(input);
    if raw[0] == '0' && |raw| > 1 && !HasPoint(raw) {
      assert raw == "0" + raw[1..];
      ValueConcat("0", raw[1..]);
      assert "0"[..0] == "";
    }
  }

  /** A text with one point keeps at most `decimals` digits after it. */
  function Cut(value: string, decimals: nat): string
  {
    if OnePoint(value) && |Fraction(value)| > decimals then Whole(value) + "." + Fraction(value)[..decimals]
    else value
  }

  /** A digit key: the typed text, its fraction cut to `decimals` digits. */
  function AfterDigit(input: string, c: char, decimals: nat): string
  {
    Cut(Typed(input, c), decimals)
  }

  /** `handleKeyClick(key)` with the component's `decimals`. */
  function Press(input: string, key: Key, decimals: nat): string
  {
    match key
    case Del => AfterDelete(input)
    case Point => AfterPoint(input)
    case Digit(c) => AfterDigit(input, c, decimals)
  }

  /** `Find` is the first position of the character, or the length. */
  lemma FindAt(s: string, c: char, k: nat)
    requires k <= |s|
    requires forall i :: 0 <= i < k ==> s[i] != c
    requires k < |s| ==> s[k] == c
    ensures Find(s, c) == k
  {
    var f := Find(s, c);
    assert f < |s| ==> s[f] == c;
  }

  // ---- examples the source's comments and branches describe ----

  /** DEL on the placeholder drops a zero; DEL on "0.0" comes back to the placeholder. */
  lemma DeleteExamples()
    ensures Press("0.00", Del, DefaultDecimals) == "0.0"
    ensures Press("0.0", Del, DefaultDecimals) == Placeholder
    ensures Press("12.5", Del, DefaultDecimals) == "12"
    ensures Press("7", Del, DefaultDecimals) == Placeholder
  {
    assert DropLast("0.00") == "0.0";
    assert !EndsWith("0.0", ".");
    assert DropLast("12.5") == "12.";
    assert EndsWith("12.", ".");
    assert DropLast("12.") == "12";
    assert DropLast("7") == "";
  }

  /** The point key on an empty input gives "0.", and on any text holding a point changes nothing. */
  lemma PointRules(input: string)
    ensures input == "" ==> Press(input, Point, DefaultDecimals) == "0."
    ensures HasPoint(input) ==> Press(input, Point, DefaultDecimals) == input
    ensures !HasPoint(input) && input != "" ==> Press(input, Point, DefaultDecimals) == input + "."
    ensures Press(Placeholder, Point, DefaultDecimals) == Placeholder
  {
    assert Placeholder[1] == '.';
    assert Find(Placeholder, '.') <= 1;
  }

  /** Pressing the point twice is pressing it once. */
  lemma PointIdempotent(input: string, decimals: nat)
    ensures Press(Press(input, Point, decimals), Point, decimals) == Press(input, Point, decimals)
  {
    if !HasPoint(input) {
      var r := Press(input, Point, decimals);
      var k := |r| - 1;
      assert r[k] == '.';
      assert Find(r, '.') <= k;
    }
  }

  /** A digit typed on the placeholder or on "0" replaces it. */
  lemma DigitReplacesZero(input: string, c: char, decimals: nat)
    requires input == Placeholder || input == "0"
    requires IsDigit(c)
    ensures Press(input, Digit(c), decimals) == [c]
  {
    var v := [c];
    assert Find(v, '.') == 1;
  }

  /** A whole number typed after a zero loses the zero: "0" then 5 is "5". */
  lemma LeadingZeroDropped()
    ensures Press("0", Digit('5'), DefaultDecimals) == "5"
  {
    assert Find("5", '.') == 1;
  }

  /** Zeros after the first digit stay: "10" then 0 is "100". */
  lemma InnerZeroKept()
    ensures Press("10", Digit('0'), DefaultDecimals) == "100"
  {
    assert "10" + ['0'] == "100";
    FindAt("100", '.', 3);
  }

  /** A zero before the point stays: "0." then 5 is "0.5". */
  lemma ZeroBeforePointKept()
    ensures Press("0.", Digit('5'), DefaultDecimals) == "0.5"
  {
    assert "0." + ['5'] == "0.5";
    FindAt("0.5", '.', 1);
    assert Fraction("0.5") == "5";
    FindAt("5", '.', 1);
  }

  // ---- what a digit key does in general ----

  /**
   * A digit key never rounds: the new input is the typed text or a prefix
   * of it that keeps the whole part, the point and exactly `decimals`
   * fraction digits.
   */
  lemma DigitTruncates(input: string, c: char, decimals: nat)
    ensures var value := Typed(input, c);
      var r := Press(input, Digit(c), decimals);
      && |r| <= |value| && r == value[..|r|]
      && (r != value ==> OnePoint(value) && |r| == Find(value, '.') + 1 + decimals)
  {
    var value := Typed(input, c);
    if OnePoint(value) && |Fraction(value)| > decimals {
      var k := Find(value, '.');
      assert value == Whole(value) + "." + Fraction(value);
      assert Whole(value) + "." + Fraction(value)[..decimals] == value[..k + 1 + decimals];
    }
  }

  /**
   * The input shape the keypad keeps: digits with at most one point, at
   * least one digit before the point, and no more than `decimals` digits
   * after it (or the empty text).
   */
  predicate WellFormed(s: string, decimals: nat)
  {
    IsDecimal(s) && |Fraction(s)| <= decimals && (s == "" || |Whole(s)| >= 1)
  }

  /** Appending a digit to a decimal string extends its fraction, or its whole part when there is no point. */
  lemma AppendDigit(s: string, c: char)
    requires IsDecimal(s) && IsDigit(c)
    ensures IsDecimal(s + [c])
    ensures HasPoint(s) <==> HasPoint(s + [c])
    ensures HasPoint(s) ==> Whole(s + [c]) == Whole(s) && Fraction(s + [c]) == Fraction(s) + [c]
    ensures !HasPoint(s) ==> Whole(s + [c]) == s + [c] && Fraction(s + [c]) == ""
  {
    var t := s + [c];
    var k := Find(s, '.');
    if k < |s| {
      FindAt(t, '.', k);
      assert t[k + 1..] == s[k + 1..] + [c];
      assert t[..k] == s[..k];
    } else {
      FindAt(t, '.', |t|);
      assert s == Whole(s);
    }
  }

  /** A decimal string without a point is all digits. */
  lemma NoPointDigits(s: string)
    requires IsDecimal(s) && !HasPoint(s)
    ensures AllDigits(s) && Whole(s) == s && Fraction(s) == ""
  {
  }

  /** Dropping the first character of a string of digits leaves a string of digits. */
  lemma DropFirstDigit(s: string)
    requires |s| >= 1 && AllDigits(s)
    ensures AllDigits(s[1..]) && !HasPoint(s[1..])
  {
    FindAt(s[1..], '.', |s| - 1);
  }

  /** Every digit key gives digits with at most one point, a whole part, and at most `decimals` after the point. */
  lemma DigitKeepsShape(input: string, c: char, decimals: nat)
    requires WellFormed(input, decimals) && IsDigit(c)
    ensures WellFormed(Press(input, Digit(c), decimals), decimals)
  {
    TypedShape(input, c, decimals);
    CutShape(Typed(input, c), decimals);
  }

  /** Typing a digit on a well-formed input gives a decimal text with a whole part. */
  lemma TypedShape(input: string, c: char, decimals: nat)
    requires WellFormed(input, decimals) && IsDigit(c)
    ensures IsDecimal(Typed(input, c)) && |Whole(Typed(input, c))| >= 1
  {
    var clean := Clean(input);
    assert IsDecimal(clean) && (clean == "" || |Whole(clean)| >= 1) by {
      if clean == "" {
        FindAt(clean, '.', 0);
      }
    }
    var raw := clean + [c];
    AppendDigit(clean, c);
    var value := Typed(input, c);
    if value != raw {
      NoPointDigits(raw);
      DropFirstDigit(raw);
      NoPointDigits(value);
    }
  }

  /** Cutting the fraction of a decimal text with a whole part makes it well formed. */
  lemma CutShape(value: string, decimals: nat)
    requires IsDecimal(value) && |Whole(value)| >= 1
    ensures WellFormed(Cut(value, decimals), decimals)
  {
    if OnePoint(value) && |Fraction(value)| > decimals {
      var w, f := Whole(value), Fraction(value)[..decimals];
      DigitsThenPoint(w, f);
    } else if HasPoint(value) {
      assert !HasPoint(Fraction(value)) by {
        assert AllDigits(Fraction(value));
        assert Find(Fraction(value), '.') == |Fraction(value)|;
      }
    }
  }

  /** The point key keeps the shape: it adds a point only where there is none, with nothing after it. */
  lemma PointKeepsShape(input: string, decimals: nat)
    requires WellFormed(input, decimals)
    ensures WellFormed(Press(input, Point, decimals), decimals)
  {
    if !HasPoint(input) {
      NoPointDigits(input);
      var w := if input == "" then "0" else input;
      DigitsThenPoint(w, "");
      assert w + "." + "" == Press(input, Point, decimals);
    }
  }

  /**
   * Dropping the last character of a decimal string keeps it a decimal
   * string with no longer a fraction, and the whole part stays unless the
   * point goes.
   */
  lemma DropLastDecimal(s: string)
    requires IsDecimal(s) && s != ""
    ensures IsDecimal(DropLast(s)) && |Fraction(DropLast(s))| <= |Fraction(s)|
    ensures HasPoint(DropLast(s)) ==> Whole(DropLast(s)) == Whole(s)
    ensures !HasPoint(DropLast(s)) ==> Whole(DropLast(s)) == DropLast(s) && DropLast(s) == s[..|s| - 1]
    ensures !HasPoint(DropLast(s)) && HasPoint(s) ==> DropLast(s) == Whole(s)
  {
    var t := DropLast(s);
    var k := Find(s, '.');
    if k < |t| {
      FindAt(t, '.', k);
      assert t[k + 1..] == s[k + 1..][..|t| - k - 1];
      assert t[..k] == s[..k];
    } else {
      FindAt(t, '.', |t|);
      assert t == s[..k][..|t|];
    }
  }

  /** A decimal string ending in its point is its whole part and the point. */
  lemma TrailingPoint(s: string)
    requires IsDecimal(s) && EndsWith(s, ".")
    ensures Find(s, '.') == |s| - 1 && Whole(s) == DropLast(s) && !HasPoint(DropLast(s)) && IsDecimal(DropLast(s))
  {
    var n := |s| - 1;
    assert s[n] == '.' by {
      assert s[n] == s[n..][0];
    }
    LastPointIsFirst(s, n);
    FindAt(DropLast(s), '.', n);
  }

  /** In a decimal string, a point in the last place is the only one. */
  lemma LastPointIsFirst(s: string, n: nat)
    requires IsDecimal(s) && n == |s| - 1 && s[n] == '.'
    ensures Find(s, '.') == n
  {
  }

  /**
   * DEL keeps the shape for any `decimals` of at least 2, the fraction
   * length of the placeholder it may fall back to.
   */
  lemma DeleteKeepsShape(input: string, decimals: nat)
    requires WellFormed(input, decimals) && decimals >= 2
    ensures WellFormed(Press(input, Del, decimals), decimals)
  {
    var next := DropLast(input);
    if next == "" || next == "0" || next == "0." {
      PlaceholderShape(decimals);
    } else {
      DropLastDecimal(input);
      if EndsWith(next, ".") {
        PointDropped(next, decimals);
      }
    }
  }

  /** The placeholder is well formed once two decimals are allowed. */
  lemma PlaceholderShape(decimals: nat)
    requires decimals >= 2
    ensures WellFormed(Placeholder, decimals)
  {
    DigitsThenPoint("0", "00");
    assert "0" + "." + "00" == Placeholder;
  }

  /** Dropping a trailing point leaves the whole part, itself well formed. */
  lemma PointDropped(next: string, decimals: nat)
    requires IsDecimal(next) && EndsWith(next, ".") && next != "."
    ensures WellFormed(DropLast(next), decimals)
  {
    TrailingPoint(next);
    var r := DropLast(next);
    NoPointDigits(r);
  }

  /** Every key of the layout keeps the input well formed (for `decimals` of at least 2). */
  lemma PressKeepsShape(input: string, key: Key, decimals: nat)
    requires key in Layout
    requires WellFormed(input, decimals) && decimals >= 2
    ensures WellFormed(Press(input, key, decimals), decimals)
  {
    LayoutKeys();
    var i :| 0 <= i < |Layout| && Layout[i] == key;
    match key
    case Del => DeleteKeepsShape(input, decimals);
    case Point => PointKeepsShape(input, decimals);
    case Digit(c) => DigitKeepsShape(input, c, decimals);
  }

  /** A well-formed input is a number `Number(..)` reads, so the amount always has a value. */
  lemma WellFormedReads(s: string, decimals: nat)
    requires WellFormed(s, decimals)
    ensures NumberOf(s).Some?
  {
  }
}
