/**
 * Score extraction (`clean_numeric` in app.py): the text of a score cell is
 * searched for the regular expression `\d+\.?\d*`; the leftmost, greedy
 * match is read as a decimal number, and a cell with no match scores 0.
 * Values are exact rationals, not IEEE doubles.
 */
module Scores {
  import opened Wrappers

  /** `\d`, restricted to the ASCII digits. */
  predicate IsDigit(c: char) {
    '0' <= c <= '9'
  }

  ghost predicate AllDigits(t: string) {
    forall k :: 0 <= k < |t| ==> IsDigit(t[k])
  }

  ghost predicate NoDigit(s: string) {
    forall k :: 0 <= k < |s| ==> !IsDigit(s[k])
  }

  /**
   * The language of `\d+\.?\d*`: one or more digits, then either nothing or
   * a full stop followed by any number of digits.
   */
  ghost predicate IsNumeral(t: string) {
    exists k :: 1 <= k <= |t| && AllDigits(t[..k]) && (k == |t| || (t[k] == '.' && AllDigits(t[k + 1..])))
  }

  /** `s[i..j]` is a match of the pattern. */
  ghost predicate MatchAt(s: string, i: int, j: int) {
    0 <= i < j <= |s| && IsNumeral(s[i..j])
  }

  /** The end of the run of digits that starts at `i`. */
  function DigitRunEnd(s: string, i: nat): (j: nat)
    requires i <= |s|
    ensures i <= j <= |s|
    ensures forall k :: i <= k < j ==> IsDigit(s[k])
    ensures j == |s| || !IsDigit(s[j])
    decreases |s| - i
  {
    if i < |s| && IsDigit(s[i]) then DigitRunEnd(s, i + 1) else i
  }

  /** The index of the first digit at or after `i`. */
  function FirstDigit(s: string, i: nat): (r: Option<nat>)
    requires i <= |s|
    ensures r.None? ==> forall k :: i <= k < |s| ==> !IsDigit(s[k])
    ensures r.Some? ==> i <= r.value < |s| && IsDigit(s[r.value])
    ensures r.Some? ==> forall k :: i <= k < r.value ==> !IsDigit(s[k])
    decreases |s| - i
  {
    if i == |s| then None
    else if IsDigit(s[i]) then Some(i)
    else FirstDigit(s, i + 1)
  }

  /**
   * Where a greedy match that starts at `i` ends: `\d+` takes the whole
   * digit run, `\.?` a full stop if one follows, and `\d*` the digit run
   * after it.
   */
  function GreedyEnd(s: string, i: nat): (j: nat)
    requires i <= |s|
    ensures i <= j <= |s|
  {
    var d := DigitRunEnd(s, i);
    if d < |s| && s[d] == '.' then DigitRunEnd(s, d + 1) else d
  }

  /** The bounds of the leftmost, greedy match; a match begins at any digit, so at the first one. */
  function Search(s: string): (r: Option<(nat, nat)>)
    ensures r.Some? ==> r.value.0 < r.value.1 <= |s|
  {
    match FirstDigit(s, 0)
    case None => None
    case Some(i) => Some((i, GreedyEnd(s, i)))
  }

  /** `str.extract(r"(\d+\.?\d*)")` on one cell: the matched text, if any. */
  function Extract(s: string): Option<string> {
    match Search(s)
    case None => None
    case Some((i, j)) => Some(s[i..j])
  }

  /** A digit run contained in `s[a..b]` ends no later than `DigitRunEnd(s, a)`. */
  lemma {:induction false} DigitRunIsMaximal(s: string, a: nat, b: nat)
    requires a <= b <= |s|
    requires forall k :: a <= k < b ==> IsDigit(s[k])
    ensures b <= DigitRunEnd(s, a)
    decreases |s| - a
  {
    if a < b {
      DigitRunIsMaximal(s, a + 1, b);
    }
  }

  /** From a digit, the greedy end gives a match. */
  lemma {:induction false} GreedyEndMatches(s: string, i: nat)
    requires i < |s| && IsDigit(s[i])
    ensures MatchAt(s, i, GreedyEnd(s, i))
  {
    var d := DigitRunEnd(s, i);
    var j := GreedyEnd(s, i);
    var t := s[i..j];
    assert AllDigits(t[..d - i]);
    if d < |s| && s[d] == '.' {
      var tail := t[d - i + 1..];
      forall m | 0 <= m < |tail| ensures IsDigit(tail[m]) {
        assert tail[m] == s[d + 1 + m];
      }
      assert t[d - i] == '.';
    } else {
      assert d - i == |t|;
    }
    assert IsNumeral(t);
  }

  /** A slice made of digits marks its positions of `s` as digits. */
  lemma {:induction false} SliceDigits(s: string, a: nat, b: nat)
    requires a <= b <= |s| && AllDigits(s[a..b])
    ensures forall m :: a <= m < b ==> IsDigit(s[m])
  {
    forall m | a <= m < b ensures IsDigit(s[m]) { assert s[m] == s[a..b][m - a]; }
  }

  /** Every match starts at a digit and ends no later than the greedy end. */
  lemma {:induction false} MatchWithinGreedyEnd(s: string, i: nat, j: nat)
    requires MatchAt(s, i, j)
    ensures IsDigit(s[i]) && j <= GreedyEnd(s, i)
  {
    var u := s[i..j];
    var k :| 1 <= k <= |u| && AllDigits(u[..k]) && (k == |u| || (u[k] == '.' && AllDigits(u[k + 1..])));
    assert u[..k] == s[i..i + k];
    SliceDigits(s, i, i + k);
    DigitRunIsMaximal(s, i, i + k);
    var d := DigitRunEnd(s, i);
    if k < |u| && i + k == d {
      assert s[d] == u[k] == '.';
      assert u[k + 1..] == s[d + 1..j];
      SliceDigits(s, d + 1, j);
      DigitRunIsMaximal(s, d + 1, j);
    }
  }

  /**
   * The match found is the leftmost-longest one: there is none when `s`
   * has no digit, and otherwise `Search` returns a match that no other
   * match starts before, and that no match starting at the same place
   * outlasts.
   */
  lemma {:induction false} SearchSpec(s: string)
    ensures Search(s).None? <==> NoDigit(s)
    ensures Search(s).None? ==> forall i, j :: !MatchAt(s, i, j)
    ensures Search(s).Some? ==> MatchAt(s, Search(s).value.0, Search(s).value.1)
    ensures Search(s).Some? ==> forall i, j :: MatchAt(s, i, j) ==>
      Search(s).value.0 < i || (Search(s).value.0 == i && j <= Search(s).value.1)
  {
    forall i, j | MatchAt(s, i, j) ensures IsDigit(s[i]) && j <= GreedyEnd(s, i) {
      MatchWithinGreedyEnd(s, i, j);
    }
    if FirstDigit(s, 0).Some? {
      GreedyEndMatches(s, FirstDigit(s, 0).value);
    }
  }

  /** The value of a string of digits, read in base ten. */
  function DigitsValue(t: string): nat
    requires AllDigits(t)
  {
    if t == [] then 0 else 10 * DigitsValue(t[..|t| - 1]) + (t[|t| - 1] as int - '0' as int)
  }

  function Pow10(n: nat): (p: nat)
    ensures p >= 1
  {
    if n == 0 then 1 else 10 * Pow10(n - 1)
  }

  /**
   * `pd.to_numeric` on a matched numeral: the integer digits, plus the
   * digits after the full stop scaled by a power of ten. Only the leading
   * numeral part of `t` is read, so the function is total.
   */
  function NumeralValue(t: string): (v: real)
    ensures v >= 0.0
  {
    var d := DigitRunEnd(t, 0);
    var whole := DigitsValue(t[..d]) as real;
    if d < |t| && t[d] == '.' then
      var e := DigitRunEnd(t, d + 1);
      whole + DigitsValue(t[d + 1..e]) as real / Pow10(e - d - 1) as real
    else whole
  }

  /**
   * `clean_numeric` on one cell's text: the value of the extracted numeral,
   * 0.0 when there is none (the `NaN` that `fillna(0.0)` replaces).
   */
  function CleanNumeric(text: string): (v: real)
    ensures v >= 0.0
    ensures NoDigit(text) ==> v == 0.0
  {
    SearchSpec(text);
    match Extract(text)
    case None => 0.0
    case Some(lexeme) => NumeralValue(lexeme)
  }

  /** The base-ten numeral of `n`, without leading zeros. */
  function Decimal(n: nat): (t: string)
    ensures |t| >= 1 && AllDigits(t)
  {
    var digit := ['0' + (n % 10) as char];
    if n < 10 then digit else Decimal(n / 10) + digit
  }

  lemma {:induction false} DecimalValue(n: nat)
    ensures DigitsValue(Decimal(n)) == n
  {
    var t := Decimal(n);
    if n >= 10 {
      DecimalValue(n / 10);
      assert t[..|t| - 1] == Decimal(n / 10);
    }
  }

  /**
   * Round trip: a whole number written in decimal, with any digit-free
   * text before it and any text after it that does not continue the
   * numeral, is read back as that number.
   */
  lemma {:induction false} CleanNumericReadsDecimal(n: nat, before: string, after: string)
    requires NoDigit(before)
    requires after == [] || (!IsDigit(after[0]) && after[0] != '.')
    ensures CleanNumeric(before + Decimal(n) + after) == n as real
  {
    var d := Decimal(n);
    var s := before + d + after;
    var i := |before|;
    assert s[i] == d[0];
    assert FirstDigit(s, 0) == Some(i) by {
      forall k | 0 <= k < i ensures !IsDigit(s[k]) { assert s[k] == before[k]; }
    }
    forall k | i <= k < i + |d| ensures IsDigit(s[k]) { assert s[k] == d[k - i]; }
    DigitRunIsMaximal(s, i, i + |d|);
    assert i + |d| < |s| ==> s[i + |d|] == after[0];
    assert DigitRunEnd(s, i) == i + |d|;
    assert GreedyEnd(s, i) == i + |d|;
    assert Extract(s) == Some(d) by { assert s[i..i + |d|] == d; }
    DigitRunIsMaximal(d, 0, |d|);
    assert d[..|d|] == d;
    DecimalValue(n);
  }

  /** Reading two digit strings one after the other: the first is shifted left by the length of the second. */
  lemma {:induction false} DigitsValueAppend(a: string, b: string)
    requires AllDigits(a) && AllDigits(b)
    ensures AllDigits(a + b)
    ensures DigitsValue(a + b) == DigitsValue(a) * Pow10(|b|) + DigitsValue(b)
    decreases |b|
  {
    if b == [] {
      assert a + b == a;
    } else {
      var n := |b| - 1;
      var c := b[n] as int - '0' as int;
      DigitsValueAppend(a, b[..n]);
      assert (a + b)[..|a + b| - 1] == a + b[..n];
      assert (a + b)[|a + b| - 1] == b[n];
      var x, y, p := DigitsValue(a), DigitsValue(b[..n]), Pow10(n);
      assert DigitsValue(a + b) == 10 * (x * p + y) + c;
      assert DigitsValue(b) == 10 * y + c;
      ShiftByDigit(x, p, y, c);
    }
  }

  /** Appending one digit to both numbers multiplies by ten on either side. */
  lemma {:induction false} ShiftByDigit(x: int, p: int, y: int, c: int)
    ensures 10 * (x * p + y) + c == x * (10 * p) + (10 * y + c)
  {
  }

  /** A run of digits followed by a non-digit, or by the end, is where `DigitRunEnd` stops. */
  lemma {:induction false} RunEndsAt(s: string, i: nat, j: nat)
    requires i <= j <= |s| && AllDigits(s[i..j])
    requires j == |s| || !IsDigit(s[j])
    ensures DigitRunEnd(s, i) == j
  {
    SliceDigits(s, i, j);
    DigitRunIsMaximal(s, i, j);
  }

  /** The two digit runs of a numeral with a fractional part. */
  lemma {:induction false} FractionRuns(a: string, b: string)
    requires AllDigits(a) && AllDigits(b)
    ensures DigitRunEnd(a + "." + b, 0) == |a|
    ensures DigitRunEnd(a + "." + b, |a| + 1) == |a| + 1 + |b|
    ensures (a + "." + b)[..|a|] == a && (a + "." + b)[|a| + 1..] == b
  {
    var t := a + "." + b;
    var d := |a|;
    assert t[0..d] == a;
    assert t[d] == '.';
    RunEndsAt(t, 0, d);
    assert t[d + 1..|t|] == b;
    RunEndsAt(t, d + 1, |t|);
  }

  /** A numeral with a fractional part: whole digits plus the fraction digits over a power of ten. */
  lemma {:induction false} NumeralValueOfFraction(a: string, b: string)
    requires |a| >= 1 && AllDigits(a) && AllDigits(b)
    ensures NumeralValue(a + "." + b) == DigitsValue(a) as real + DigitsValue(b) as real / Pow10(|b|) as real
    ensures AllDigits(a + b) && NumeralValue(a + "." + b) == DigitsValue(a + b) as real / Pow10(|b|) as real
  {
    var t := a + "." + b;
    var d := |a|;
    FractionRuns(a, b);
    assert t[d] == '.';
    assert t[d + 1..|t|] == b;
    DigitsValueAppend(a, b);
    ScaledSum(DigitsValue(a), Pow10(|b|), DigitsValue(b));
  }

  /** In a digit-free prefix, a numeral with a fractional part, and a non-digit after it, the match is that numeral. */
  lemma {:induction false} ExtractFraction(before: string, a: string, b: string, after: string)
    requires NoDigit(before)
    requires |a| >= 1 && AllDigits(a) && AllDigits(b)
    requires after == [] || !IsDigit(after[0])
    ensures Extract(before + (a + "." + b) + after) == Some(a + "." + b)
  {
    var lex := a + "." + b;
    var s := before + lex + after;
    var i := |before|;
    var d := i + |a|;
    var e := d + 1 + |b|;
    assert s[i] == a[0];
    assert FirstDigit(s, 0) == Some(i) by {
      forall k | 0 <= k < i ensures !IsDigit(s[k]) { assert s[k] == before[k]; }
    }
    assert s[i..d] == a;
    assert s[d] == '.';
    RunEndsAt(s, i, d);
    assert s[d + 1..e] == b;
    assert e < |s| ==> s[e] == after[0];
    RunEndsAt(s, d + 1, e);
    assert GreedyEnd(s, i) == e;
    assert s[i..e] == lex;
  }

  /**
   * Round trip with a fractional part: a whole number in decimal, a full
   * stop and any digits, between digit-free text before it and text after
   * it that does not start with a digit, is read back as the whole number
   * plus the digits' fraction, that is the digits with the full stop
   * removed divided by ten to the number of fraction digits.
   */
  lemma {:induction false} CleanNumericReadsFraction(n: nat, ds: string, before: string, after: string)
    requires NoDigit(before)
    requires AllDigits(ds)
    requires after == [] || !IsDigit(after[0])
    ensures CleanNumeric(before + (Decimal(n) + "." + ds) + after) == n as real + DigitsValue(ds) as real / Pow10(|ds|) as real
    ensures CleanNumeric(before + (Decimal(n) + "." + ds) + after) == DigitsValue(Decimal(n) + ds) as real / Pow10(|ds|) as real
  {
    var d := Decimal(n);
    ExtractFraction(before, d, ds, after);
    NumeralValueOfFraction(d, ds);
    DecimalValue(n);
  }

  /** `(n * p + w) / p` is `n + w / p` for a positive `p`. */
  lemma {:induction false} ScaledSum(n: nat, p: nat, w: nat)
    requires p >= 1
    ensures (n * p + w) as real / p as real == n as real + w as real / p as real
  {
    assert (n * p + w) as real == n as real * p as real + w as real;
  }

  lemma ExtractExample()
    ensures Extract("55.5 (General)") == Some("55.5")
    ensures Extract("0") == Some("0")
    ensures Extract("None") == None
  {
    var s := "55.5 (General)";
    assert FirstDigit(s, 0) == Some(0);
    assert DigitRunEnd(s, 0) == 2;
    assert DigitRunEnd(s, 3) == 4;
    assert s[2] == '.';
    assert GreedyEnd(s, 0) == 4;
    assert s[0..4] == "55.5";
    assert FirstDigit("0", 0) == Some(0);
    assert DigitRunEnd("0", 0) == 1;
    assert "0"[0..1] == "0";
    assert FirstDigit("None", 0) == None;
  }

  /** The example of a GATE cell with a category note after the score. */
  lemma CleanNumericExample()
    ensures CleanNumeric("55.5 (General)") == 55.5
    ensures CleanNumeric("0") == 0.0
    ensures CleanNumeric("None") == 0.0
  {
    ExtractExample();
    var t := "55.5";
    assert DigitRunEnd(t, 0) == 2;
    assert DigitRunEnd(t, 3) == 4;
    assert t[..2] == "55" && t[3..4] == "5";
    assert DigitsValue("55") == 55;
    assert DigitsValue("5") == 5;
    assert DigitRunEnd("0", 0) == 1;
    assert DigitsValue("0") == 0;
  }
}
