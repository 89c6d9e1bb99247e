/**
 Day cells of the roster table and the one numeric test the timesheet uses.

 A cell holds either a number of hours (the pattern values 11.5, 7.5 and 8)
 or a piece of text (the empty non-working marker "", a status code such as
 "б/л", a note such as "ГО", or a number typed as text such as "4").
 A cell counts towards the monthly total when it looks numeric: its text
 form, with every '.' removed, is a non-empty run of digits.
 */
module Cells {

  datatype Cell = Hours(h: real) | Text(s: string)

  predicate IsDigit(c: char) {
    '0' <= c <= '9'
  }

  predicate AllDigits(s: string) {
    forall i :: 0 <= i < |s| ==> IsDigit(s[i])
  }

  function DigitValue(c: char): (r: nat)
    requires IsDigit(c)
    ensures r < 10
  {
    c as int - '0' as int
  }

  function DigitChar(n: nat): (c: char)
    requires n < 10
    ensures IsDigit(c) && DigitValue(c) == n
  {
    ('0' as int + n) as char
  }

  /** Number of '.' characters in `s`. */
  function DotCount(s: string): nat {
    if |s| == 0 then 0 else (if s[0] == '.' then 1 else 0) + DotCount(s[1..])
  }

  /** `s` with every '.' removed, keeping the order of the other characters. */
  function StripDots(s: string): (r: string)
    ensures |r| + DotCount(s) == |s|
    ensures forall i :: 0 <= i < |r| ==> r[i] != '.'
  {
    if |s| == 0 then ""
    else (if s[0] == '.' then "" else [s[0]]) + StripDots(s[1..])
  }

  /** The text test of app.py: dots removed, what is left is non-empty and all digits. */
  predicate NumericText(s: string) {
    var d := StripDots(s);
    |d| > 0 && AllDigits(d)
  }

  /**
   The numeric test applied to any cell. A number's text form contains no
   character other than digits and one dot unless it is negative, in which
   case the leading '-' makes the test fail.
   */
  predicate IsNumeric(c: Cell) {
    match c
    case Hours(h) => h >= 0.0
    case Text(s) => NumericText(s)
  }

  /** A cell whose value can be read as a number once it passes the test. */
  predicate Parsable(c: Cell) {
    c.Text? && NumericText(c.s) ==> DotCount(c.s) <= 1
  }

  predicate AllParsable(cells: seq<Cell>) {
    forall i :: 0 <= i < |cells| ==> Parsable(cells[i])
  }

  /** Value of a run of decimal digits, most significant first. */
  function DigitsValue(s: string): nat
    requires AllDigits(s)
  {
    if |s| == 0 then 0 else DigitsValue(s[..|s| - 1]) * 10 + DigitValue(s[|s| - 1])
  }

  function Pow10(n: nat): (r: nat)
    ensures r > 0
  {
    if n == 0 then 1 else 10 * Pow10(n - 1)
  }

  /** Index of the first `ch` in `s`, or |s| when there is none (Python's str.find, with |s| for -1). */
  function CharIndex(s: string, ch: char): (i: nat)
    ensures i <= |s|
    ensures i < |s| ==> s[i] == ch
    ensures forall j :: 0 <= j < i ==> s[j] != ch
  {
    if |s| == 0 then 0 else if s[0] == ch then 0 else 1 + CharIndex(s[1..], ch)
  }

  /** The first `ch` in `s` is at `k` exactly when `s[k]` is `ch` and no earlier character is. */
  lemma {:induction false} CharIndexAt(s: string, ch: char, k: nat)
    requires k < |s| && s[k] == ch
    requires forall j :: 0 <= j < k ==> s[j] != ch
    ensures CharIndex(s, ch) == k
  {
    if k > 0 {
      CharIndexAt(s[1..], ch, k - 1);
    }
  }

  /**
   Reading a numeric-looking text with at most one dot as a decimal number,
   as Python's float() does: "4" is 4, ".5" is 0.5, "5." is 5.
   */
  function ParseDecimal(s: string): (r: real)
    requires NumericText(s) && DotCount(s) <= 1
    ensures r >= 0.0
  {
    NumericTextChars(s);
    var i := CharIndex(s, '.');
    if i == |s| then DigitsValue(s) as real
    else
      DotCountSplit(s, i);
      var whole := s[..i];
      var frac := s[i + 1..];
      assert AllDigits(whole);
      assert AllDigits(frac) by {
        forall j | 0 <= j < |frac| ensures IsDigit(frac[j]) {
          assert frac[j] == s[i + 1 + j];
          if frac[j] == '.' {
            DotCountPositive(frac, j);
          }
        }
      }
      DigitsValue(whole) as real + DigitsValue(frac) as real / Pow10(|frac|) as real
  }

  /** What a cell adds to the monthly total: its value when it looks numeric, else 0. */
  function Contribution(c: Cell): (r: real)
    requires Parsable(c)
    ensures r >= 0.0
    ensures !IsNumeric(c) ==> r == 0.0
    ensures c.Hours? && IsNumeric(c) ==> r == c.h
  {
    if !IsNumeric(c) then 0.0
    else match c
      case Hours(h) => h
      case Text(s) => ParseDecimal(s)
  }

  /** Sum of the contributions of `cells`, in order (the generator's `sum`). */
  function TotalHours(cells: seq<Cell>): (r: real)
    requires AllParsable(cells)
    ensures r >= 0.0
  {
    if |cells| == 0 then 0.0 else Contribution(cells[0]) + TotalHours(cells[1..])
  }

  /** Decimal rendering of a natural number, as Python's str() writes it. */
  function NatToString(n: nat): (s: string)
    ensures |s| > 0 && AllDigits(s)
    ensures n > 0 ==> s[0] != '0'
  {
    if n < 10 then [DigitChar(n)] else NatToString(n / 10) + [DigitChar(n % 10)]
  }

  /** The key under which a day is looked up in the override maps (str(day)). */
  function DayKey(day: nat): string {
    NatToString(day)
  }

  // ---- lemmas ----

  lemma {:induction false} DotCountPositive(s: string, j: nat)
    requires j < |s| && s[j] == '.'
    ensures DotCount(s) > 0
  {
    if j > 0 {
      DotCountPositive(s[1..], j - 1);
    }
  }

  lemma {:induction false} DotCountSplit(s: string, i: nat)
    requires i <= |s|
    ensures DotCount(s) == DotCount(s[..i]) + DotCount(s[i..])
  {
    if i > 0 {
      assert s[1..][..i - 1] == s[..i][1..];
      assert s[1..][i - 1..] == s[i..];
      DotCountSplit(s[1..], i - 1);
    }
  }

  lemma AllDigitsAppend(a: string, b: string)
    ensures AllDigits(a + b) <==> AllDigits(a) && AllDigits(b)
  {
    if AllDigits(a) && AllDigits(b) {
      forall i | 0 <= i < |a + b| ensures IsDigit((a + b)[i]) {
        if i >= |a| { assert (a + b)[i] == b[i - |a|]; }
      }
    }
    if AllDigits(a + b) {
      forall i | 0 <= i < |a| ensures IsDigit(a[i]) { assert (a + b)[i] == a[i]; }
      forall i | 0 <= i < |b| ensures IsDigit(b[i]) { assert (a + b)[|a| + i] == b[i]; }
    }
  }

  lemma {:induction false} StripDotsDigits(s: string)
    ensures AllDigits(StripDots(s)) <==> forall i :: 0 <= i < |s| ==> IsDigit(s[i]) || s[i] == '.'
    ensures |StripDots(s)| > 0 <==> exists i :: 0 <= i < |s| && s[i] != '.'
  {
    if |s| > 0 {
      StripDotsDigits(s[1..]);
      var h := if s[0] == '.' then "" else [s[0]];
      AllDigitsAppend(h, StripDots(s[1..]));
      if forall i :: 0 <= i < |s[1..]| ==> IsDigit(s[1..][i]) || s[1..][i] == '.' {
        if IsDigit(s[0]) || s[0] == '.' {
          forall i | 0 <= i < |s| ensures IsDigit(s[i]) || s[i] == '.' {
            if i > 0 { assert s[i] == s[1..][i - 1]; }
          }
        }
      }
      if exists i :: 0 <= i < |s[1..]| && s[1..][i] != '.' {
        var i :| 0 <= i < |s[1..]| && s[1..][i] != '.';
        assert s[i + 1] != '.';
      }
      if exists i :: 0 <= i < |s| && s[i] != '.' {
        var i :| 0 <= i < |s| && s[i] != '.';
        if i > 0 { assert s[1..][i - 1] != '.'; }
      }
    }
  }

  /**
   The numeric text test, stated character by character: every character is
   a digit or a dot, and at least one is a digit.
   */
  lemma NumericTextChars(s: string)
    ensures NumericText(s) <==>
      (forall i :: 0 <= i < |s| ==> IsDigit(s[i]) || s[i] == '.') &&
      (exists i :: 0 <= i < |s| && IsDigit(s[i]))
  {
    StripDotsDigits(s);
  }

  lemma {:induction false} DigitsValueSnoc(s: string, c: char)
    requires AllDigits(s) && IsDigit(c)
    ensures AllDigits(s + [c])
    ensures DigitsValue(s + [c]) == DigitsValue(s) * 10 + DigitValue(c)
  {
    assert (s + [c])[..|s|] == s;
  }

  /** Reading back the decimal rendering of a number gives the number. */
  lemma {:induction false} NatToStringRoundTrip(n: nat)
    ensures DigitsValue(NatToString(n)) == n
  {
    if n >= 10 {
      NatToStringRoundTrip(n / 10);
      DigitsValueSnoc(NatToString(n / 10), DigitChar(n % 10));
    } else {
      assert NatToString(n)[..0] == "";
    }
  }

  /** Different days are looked up under different keys. */
  lemma DayKeyInjective(a: nat, b: nat)
    requires DayKey(a) == DayKey(b)
    ensures a == b
  {
    NatToStringRoundTrip(a);
    NatToStringRoundTrip(b);
  }

  /**
   A whole number typed as text (such as the override "4") passes the numeric
   test and contributes exactly that many hours.
   */
  lemma WholeNumberTextContributes(n: nat)
    ensures IsNumeric(Text(NatToString(n)))
    ensures Parsable(Text(NatToString(n)))
    ensures Contribution(Text(NatToString(n))) == n as real
  {
    var s := NatToString(n);
    NoDotsInDigits(s);
    NumericTextChars(s);
    assert IsDigit(s[0]);
    NatToStringRoundTrip(n);
  }

  /** A run of digits, a dot and a run of digits holds exactly one dot, right after the first run. */
  lemma OneDotBetween(whole: string, frac: string)
    requires AllDigits(whole) && AllDigits(frac)
    ensures DotCount(whole + "." + frac) == 1
    ensures CharIndex(whole + "." + frac, '.') == |whole|
  {
    var s := whole + "." + frac;
    NoDotsInDigits(whole);
    NoDotsInDigits(frac);
    DotCountSplit(s, |whole|);
    assert s[..|whole|] == whole;
    assert s[|whole|..][1..] == frac;
    forall j | 0 <= j < |whole| ensures s[j] != '.' {
      assert s[j] == whole[j];
    }
    CharIndexAt(s, '.', |whole|);
  }

  /**
   Digits, a dot and digits, with at least one digit, pass the numeric test
   and read as the whole part plus the fraction scaled by its length.
   */
  lemma ParseDecimalSplit(whole: string, frac: string)
    requires AllDigits(whole) && AllDigits(frac) && |whole| + |frac| > 0
    ensures NumericText(whole + "." + frac) && DotCount(whole + "." + frac) == 1
    ensures ParseDecimal(whole + "." + frac) ==
      DigitsValue(whole) as real + DigitsValue(frac) as real / Pow10(|frac|) as real
  {
    var s := whole + "." + frac;
    OneDotBetween(whole, frac);
    NumericTextChars(s);
    forall i | 0 <= i < |s| ensures IsDigit(s[i]) || s[i] == '.' {
      if i < |whole| {
        assert s[i] == whole[i];
      } else if i > |whole| {
        assert s[i] == frac[i - |whole| - 1];
      }
    }
    if |whole| > 0 {
      assert s[0] == whole[0];
    } else {
      assert s[1] == frac[0];
    }
    assert s[..|whole|] == whole;
    assert s[|whole| + 1..] == frac;
  }

  /**
   A non-empty run of digits with no dot, leading zeros included (such as
   "04"), passes the numeric test and reads as the number its digits spell.
   */
  lemma ParseDecimalWhole(digits: string)
    requires AllDigits(digits) && |digits| > 0
    ensures NumericText(digits) && DotCount(digits) == 0
    ensures ParseDecimal(digits) == DigitsValue(digits) as real
  {
    NoDotsInDigits(digits);
    NumericTextChars(digits);
    assert IsDigit(digits[0]);
  }

  /**
   A decimal typed as text with one digit after the dot (such as "11.5")
   passes the numeric test and contributes exactly its decimal value.
   */
  lemma DecimalTextContributes(w: nat, t: nat)
    requires t < 10
    ensures IsNumeric(Text(NatToString(w) + "." + [DigitChar(t)]))
    ensures Parsable(Text(NatToString(w) + "." + [DigitChar(t)]))
    ensures Contribution(Text(NatToString(w) + "." + [DigitChar(t)])) == w as real + t as real / 10.0
  {
    var whole, frac := NatToString(w), [DigitChar(t)];
    ParseDecimalSplit(whole, frac);
    NatToStringRoundTrip(w);
    OneDigitValue(t);
    var v := ParseDecimal(whole + "." + frac);
    assert v == w as real + t as real / 10.0 by {
      assert Pow10(|frac|) == 10;
    }
  }

  /** A single digit reads as its own value. */
  lemma OneDigitValue(t: nat)
    requires t < 10
    ensures DigitsValue([DigitChar(t)]) == t
  {
    assert [DigitChar(t)][..0] == [];
  }

  lemma {:induction false} NoDotsInDigits(s: string)
    requires AllDigits(s)
    ensures DotCount(s) == 0 && CharIndex(s, '.') == |s| && StripDots(s) == s
  {
    if |s| > 0 {
      NoDotsInDigits(s[1..]);
    }
  }

  lemma {:induction false} TotalAppend(a: seq<Cell>, b: seq<Cell>)
    requires AllParsable(a) && AllParsable(b)
    ensures AllParsable(a + b)
    ensures TotalHours(a + b) == TotalHours(a) + TotalHours(b)
  {
    if |a| > 0 {
      assert (a + b)[1..] == a[1..] + b;
      TotalAppend(a[1..], b);
    } else {
      assert a + b == b;
    }
  }

  /** Replacing one cell changes the total by exactly the difference of the two contributions. */
  lemma {:induction false} TotalUpdate(cells: seq<Cell>, i: nat, c: Cell)
    requires AllParsable(cells) && i < |cells| && Parsable(c)
    ensures AllParsable(cells[i := c])
    ensures TotalHours(cells[i := c]) == TotalHours(cells) - Contribution(cells[i]) + Contribution(c)
  {
    if i > 0 {
      assert cells[i := c][1..] == cells[1..][i - 1 := c];
      TotalUpdate(cells[1..], i - 1, c);
    } else {
      assert cells[i := c][1..] == cells[1..];
    }
  }
}
