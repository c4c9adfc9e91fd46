/** The pure string building of `CurrencyExchangeRate.format` (models.py:96-115). */
module Formatting {
  import opened Text
  import opened Currencies

  function Pow10(k: nat): (p: nat)
    ensures p >= 1
  {
    if k == 0 then 1 else 10 * Pow10(k - 1)
  }

  predicate IsDigit(c: char) { '0' <= c <= '9' }

  predicate AllDigits(s: string) { forall i :: 0 <= i < |s| ==> IsDigit(s[i]) }

  function DigitChar(d: nat): (c: char)
    requires d < 10
    ensures IsDigit(c)
  {
    ('0' as int + d) as char
  }

  function DigitValue(c: char): (d: nat)
    requires IsDigit(c)
    ensures d < 10
  {
    c as int - '0' as int
  }

  /** `str(n)` for a non-negative integer: decimal digits, no leading zero. */
  function Digits(n: nat): (s: string)
    ensures |s| >= 1 && AllDigits(s)
    ensures s[0] == '0' <==> n == 0
    ensures n == 0 ==> s == "0"
  {
    if n < 10 then [DigitChar(n)] else Digits(n / 10) + [DigitChar(n % 10)]
  }

  /** The number a string of decimal digits stands for (`int(s)`, 0 for ""). */
  function ValueOf(s: string): nat
    requires AllDigits(s)
  {
    if s == [] then 0 else 10 * ValueOf(s[..|s| - 1]) + DigitValue(s[|s| - 1])
  }

  /** `int(str(n)) == n` */
  lemma {:induction false} DigitsRoundTrip(n: nat)
    ensures ValueOf(Digits(n)) == n
  {
    if n >= 10 {
      var s := Digits(n);
      assert s[..|s| - 1] == Digits(n / 10);
      DigitsRoundTrip(n / 10);
    }
  }

  /** A number below 10^k has at most k digits. */
  lemma {:induction false} DigitsLength(n: nat, k: nat)
    requires 1 <= k && n < Pow10(k)
    ensures |Digits(n)| <= k
  {
    if n >= 10 {
      assert k >= 2;
      assert n / 10 < Pow10(k - 1);
      DigitsLength(n / 10, k - 1);
    }
  }

  // ---------------------------------------------------------------------------
  // Thousands grouping (models.py:104-106)
  // ---------------------------------------------------------------------------

  /** The digit string grouped in threes from the right. models.py:106 reverses the
      string, joins its chunks with `mark` and reverses the result, so the mark itself
      comes out reversed; for a one-character mark that makes no difference. */
  function Group(d: string, mark: string): string
    decreases |d|
  {
    if |d| <= 3 then d else Group(d[..|d| - 3], mark) + Reverse(mark) + d[|d| - 3..]
  }

  /** `re.findall('((?:\d+\.)?\d{1,3})', s)` on a string of digits: the optional
      `\d+\.` part never matches a string without a dot, so this is the run of
      greedy chunks of at most three digits from the left. */
  function Chunks3(s: string): seq<string>
    decreases |s|
  {
    if s == [] then [] else if |s| <= 3 then [s] else [s[..3]] + Chunks3(s[3..])
  }

  /** The expression of models.py:106, step by step. */
  function RegexGroup(d: string, mark: string): string
  {
    Reverse(Join(mark, Chunks3(Reverse(d))))
  }

  /** The reverse-chunk-join-reverse pipeline is the direct grouping from the right. */
  lemma {:induction false} RegexGroupIsGroup(d: string, mark: string)
    ensures RegexGroup(d, mark) == Group(d, mark)
  {
    var r := Reverse(d);
    if |d| == 0 {
    } else if |d| <= 3 {
      ReverseReverse(d);
    } else {
      var head, tail := d[..|d| - 3], d[|d| - 3..];
      assert d == head + tail;
      ReverseAppend(head, tail);
      assert r[..3] == Reverse(tail);
      assert r[3..] == Reverse(head);
      var rest := Chunks3(r[3..]);
      assert |rest| >= 1;
      var parts := [r[..3]] + rest;
      assert Chunks3(r) == parts;
      assert parts[1..] == rest;
      assert Join(mark, parts) == Reverse(tail) + mark + Join(mark, rest);
      ReverseAppend(Reverse(tail) + mark, Join(mark, rest));
      ReverseAppend(Reverse(tail), mark);
      ReverseReverse(tail);
      RegexGroupIsGroup(head, mark);
    }
  }

  /** The groups of a digit string, left to right: the leftmost has one to three
      digits, every other one exactly three, and together they spell the string. */
  function GroupsOf(d: string): (gs: seq<string>)
    decreases |d|
    ensures |gs| >= 1
    ensures |gs[0]| <= 3 && (d != "" ==> |gs[0]| >= 1)
    ensures forall i :: 1 <= i < |gs| ==> |gs[i]| == 3
    ensures Join("", gs) == d
  {
    if |d| <= 3 then [d]
    else
      var gs := GroupsOf(d[..|d| - 3]) + [d[|d| - 3..]];
      JoinSnoc("", GroupsOf(d[..|d| - 3]), d[|d| - 3..]);
      assert d == d[..|d| - 3] + d[|d| - 3..];
      gs
  }

  /** Grouping places the (reversed) mark between consecutive groups. */
  lemma {:induction false} GroupJoinsGroups(d: string, mark: string)
    ensures Group(d, mark) == Join(Reverse(mark), GroupsOf(d))
  {
    if |d| > 3 {
      GroupJoinsGroups(d[..|d| - 3], mark);
      JoinSnoc(Reverse(mark), GroupsOf(d[..|d| - 3]), d[|d| - 3..]);
    }
  }

  /** With a one-character mark that is not a digit, removing the marks gives back
      the digits. */
  lemma {:induction false} GroupUnmarks(d: string, c: char)
    requires AllDigits(d) && !IsDigit(c)
    ensures Remove(Group(d, [c]), c) == d
  {
    if |d| <= 3 {
      RemoveAbsent(d, c);
    } else {
      var head, tail := d[..|d| - 3], d[|d| - 3..];
      assert AllDigits(head) && AllDigits(tail);
      assert Group(d, [c]) == Group(head, [c]) + [c] + tail by {
        assert Reverse([c]) == [c];
      }
      RemoveAround(Group(head, [c]), c, tail);
      GroupUnmarks(head, c);
      assert head + tail == d;
    }
  }

  /** Removing a mark from `g`, the mark and a run of digits removes it from `g` alone. */
  lemma RemoveAround(g: string, c: char, tail: string)
    requires AllDigits(tail) && !IsDigit(c)
    ensures Remove(g + [c] + tail, c) == Remove(g, c) + tail
  {
    assert forall i :: 0 <= i < |tail| ==> tail[i] != c;
    RemoveAbsent(tail, c);
    assert Remove([c], c) == [] by {
      assert [c][1..] == [];
    }
    RemoveAppend(g, [c], c);
    assert Remove(g + [c], c) == Remove(g, c);
    RemoveAppend(g + [c], tail, c);
  }

  /** The integer part as rendered: `str(n)`, grouped when a thousand mark is set. */
  function IntegerText(n: nat, mark: string): (r: string)
    ensures mark == "" ==> r == Digits(n)
    ensures mark != "" ==> r == Join(Reverse(mark), GroupsOf(Digits(n)))
    ensures |mark| == 1 && !IsDigit(mark[0]) ==> Remove(r, mark[0]) == Digits(n)
  {
    if mark != "" then
      GroupJoinsGroups(Digits(n), mark);
      if |mark| == 1 && !IsDigit(mark[0]) then
        assert mark == [mark[0]];
        GroupUnmarks(Digits(n), mark[0]);
        Group(Digits(n), mark)
      else
        Group(Digits(n), mark)
    else Digits(n)
  }

  // ---------------------------------------------------------------------------
  // Fractional part (models.py:102-103, 107-115)
  // ---------------------------------------------------------------------------

  /** The fractional part `divmod(amount, 1)[1]` of a non-negative amount. */
  function Frac(amount: real): (f: real)
    requires amount >= 0.0
    ensures 0.0 <= f < 1.0
  {
    amount - amount.Floor as real
  }

  /** `int(frac * 10**dp)`: the fraction scaled to `dp` places and truncated, not rounded. */
  function FractionDigits(amount: real, dp: nat): (f: nat)
    requires amount >= 0.0
    ensures f as real <= Frac(amount) * Pow10(dp) as real < f as real + 1.0
    ensures f < Pow10(dp)
  {
    ScaledFloor(Frac(amount), Pow10(dp))
  }

  /** `int(x * p)` for 0 <= x < 1 and p >= 1. */
  function ScaledFloor(x: real, p: nat): (f: nat)
    requires 0.0 <= x < 1.0 && p >= 1
    ensures f as real <= x * p as real < f as real + 1.0
    ensures f < p
  {
    var s := x * p as real;
    ScaleBelow(x, p as real);
    var f := s.Floor;
    assert f as real <= s < f as real + 1.0;
    assert f < p by { assert f as real < p as real; }
    f
  }

  lemma ScaleBelow(x: real, p: real)
    requires 0.0 <= x < 1.0 && p >= 1.0
    ensures 0.0 <= x * p < p
  {
    assert p - x * p == (1.0 - x) * p;
  }

  function Zeros(k: nat): (z: string)
    ensures |z| == k && forall i :: 0 <= i < k ==> z[i] == '0'
  {
    seq(k, i => '0')
  }

  /** `s.rstrip('0')` */
  function StripZeros(s: string): (r: string)
    ensures |r| <= |s| && s == r + Zeros(|s| - |r|)
    ensures r == "" || r[|r| - 1] != '0'
    ensures AllDigits(s) ==> AllDigits(r)
  {
    if s != [] && s[|s| - 1] == '0' then
      assert s == s[..|s| - 1] + ['0'];
      StripZeros(s[..|s| - 1])
    else s
  }

  /** The fraction string of models.py:108-112: `str(f)`, then either its trailing zeros
      stripped or zeros padded on the right up to `dp` characters. Padding on the right
      of a string that has no leading zeros is where an amount like 0.05 loses its zero. */
  function FractionText(f: nat, dp: nat, removeZero: bool): (r: string)
    ensures AllDigits(r)
    ensures removeZero ==> |r| <= |Digits(f)|
    ensures removeZero ==> Digits(f) == r + Zeros(|Digits(f)| - |r|)
    ensures removeZero ==> r == "" || r[|r| - 1] != '0'
    ensures !removeZero ==> |r| >= |Digits(f)| && r == Digits(f) + Zeros(|r| - |Digits(f)|)
    ensures !removeZero && 1 <= dp && f < Pow10(dp) ==> |r| == dp
  {
    var dec := Digits(f);
    if removeZero then StripZeros(dec)
    else if |dec| < dp then dec + Zeros(dp - |dec|)
    else
      assert dec == dec + Zeros(0);
      if 1 <= dp && f < Pow10(dp) then DigitsLength(f, dp); dec else dec
  }

  /** `CurrencyExchangeRate.format` once the currency's record has been looked up. */
  function FormatAmount(amount: real, rec: Record): (r: string)
    requires amount >= 0.0
    ensures rec.decimalPlaces == 0 ==> r == IntegerText(amount.Floor, rec.thousandMark)
    ensures rec.decimalPlaces != 0 ==>
      var dec := FractionText(FractionDigits(amount, rec.decimalPlaces), rec.decimalPlaces, rec.removeDecimalZero);
      r == IntegerText(amount.Floor, rec.thousandMark) + (if dec != "" then rec.decimalMark + dec else "")
  {
    var v := IntegerText(amount.Floor, rec.thousandMark);
    if rec.decimalPlaces != 0 then
      var dec := FractionText(FractionDigits(amount, rec.decimalPlaces), rec.decimalPlaces, rec.removeDecimalZero);
      if dec != "" then v + rec.decimalMark + dec else v
    else v
  }

  // ---------------------------------------------------------------------------
  // The fraction as evidently intended: `str(f)` left-padded to `dp` digits
  // ---------------------------------------------------------------------------

  /** `s.zfill(dp)` */
  function ZeroFill(s: string, dp: nat): (r: string)
    ensures AllDigits(s) ==> AllDigits(r)
    ensures |r| == if |s| < dp then dp else |s|
  {
    if |s| < dp then Zeros(dp - |s|) + s else s
  }

  lemma {:induction false} ValueOfZeros(k: nat)
    ensures ValueOf(Zeros(k)) == 0
  {
    if k > 0 {
      assert Zeros(k)[..k - 1] == Zeros(k - 1);
      ValueOfZeros(k - 1);
    }
  }

  /** Leading zeros do not change the value of a digit string. */
  lemma {:induction false} ValueOfZerosPrefix(k: nat, s: string)
    requires AllDigits(s)
    ensures AllDigits(Zeros(k) + s) && ValueOf(Zeros(k) + s) == ValueOf(s)
  {
    var t := Zeros(k) + s;
    if s == [] {
      assert t == Zeros(k);
      ValueOfZeros(k);
    } else {
      assert t[..|t| - 1] == Zeros(k) + s[..|s| - 1];
      ValueOfZerosPrefix(k, s[..|s| - 1]);
    }
  }

  /** Stripping `k` trailing zeros divides the value by 10^k. */
  lemma {:induction false} ValueOfStripped(s: string)
    requires AllDigits(s)
    ensures ValueOf(s) == ValueOf(StripZeros(s)) * Pow10(|s| - |StripZeros(s)|)
  {
    if s != [] && s[|s| - 1] == '0' {
      var t := s[..|s| - 1];
      ValueOfStripped(t);
      var a, p := ValueOf(StripZeros(t)), Pow10(|t| - |StripZeros(t)|);
      assert StripZeros(s) == StripZeros(t);
      assert Pow10(|s| - |StripZeros(s)|) == 10 * p;
      assert ValueOf(s) == 10 * ValueOf(t);
      TimesTen(a, p, ValueOf(t));
    } else {
      assert StripZeros(s) == s;
      assert Pow10(|s| - |StripZeros(s)|) == 1;
    }
  }

  lemma TimesTen(a: nat, p: nat, v: nat)
    requires v == a * p
    ensures 10 * v == a * (10 * p)
  {
  }

  /** The fraction string that reads back as the truncated fraction: for f < 10^dp,
      its digits padded with zeros to `dp` places read as f, so "0." followed by it is
      f / 10^dp. */
  function FractionTextIntended(f: nat, dp: nat, removeZero: bool): (r: string)
    requires 1 <= dp && f < Pow10(dp)
    ensures AllDigits(r) && |r| <= dp
    ensures r + Zeros(dp - |r|) == ZeroFill(Digits(f), dp)
    ensures ValueOf(r + Zeros(dp - |r|)) == f
    ensures removeZero ==> r == "" || r[|r| - 1] != '0'
    ensures !removeZero ==> |r| == dp
  {
    var dec := ZeroFill(Digits(f), dp);
    ZeroFillValue(f, dp);
    if removeZero then
      StripZeros(dec)
    else
      assert dec + Zeros(0) == dec;
      dec
  }

  /** The intended fraction string, read as a number, times 10 to the number of zeros
      removed from it, is the truncated fraction. */
  lemma FractionTextIntendedValue(f: nat, dp: nat, removeZero: bool)
    requires 1 <= dp && f < Pow10(dp)
    ensures var r := FractionTextIntended(f, dp, removeZero);
      ValueOf(r) * Pow10(dp - |r|) == f
  {
    var r := FractionTextIntended(f, dp, removeZero);
    var dec := ZeroFill(Digits(f), dp);
    ZeroFillValue(f, dp);
    if removeZero {
      ValueOfStripped(dec);
    } else {
      assert Pow10(dp - |r|) == 1;
    }
  }

  /** `str(f).zfill(dp)` has exactly `dp` digits and reads back as `f`. */
  lemma ZeroFillValue(f: nat, dp: nat)
    requires 1 <= dp && f < Pow10(dp)
    ensures AllDigits(ZeroFill(Digits(f), dp)) && |ZeroFill(Digits(f), dp)| == dp
    ensures ValueOf(ZeroFill(Digits(f), dp)) == f
  {
    var digits := Digits(f);
    DigitsLength(f, dp);
    DigitsRoundTrip(f);
    if |digits| < dp {
      ValueOfZerosPrefix(dp - |digits|, digits);
    }
  }

  /** The fix changes nothing unless the scaled fraction has fewer than `dp` digits. */
  lemma FractionTextIntendedAgrees(f: nat, dp: nat, removeZero: bool)
    requires 1 <= dp && f < Pow10(dp) && |Digits(f)| >= dp
    ensures FractionTextIntended(f, dp, removeZero) == FractionText(f, dp, removeZero)
  {
  }

  /** `format` with the intended fraction string. */
  function FormatAmountIntended(amount: real, rec: Record): (r: string)
    requires amount >= 0.0
    ensures rec.decimalPlaces == 0 ==> r == FormatAmount(amount, rec)
    ensures rec.decimalPlaces != 0 ==>
      var dec := FractionTextIntended(FractionDigits(amount, rec.decimalPlaces), rec.decimalPlaces, rec.removeDecimalZero);
      r == IntegerText(amount.Floor, rec.thousandMark) + (if dec != "" then rec.decimalMark + dec else "")
  {
    var v := IntegerText(amount.Floor, rec.thousandMark);
    if rec.decimalPlaces != 0 then
      var dec := FractionTextIntended(FractionDigits(amount, rec.decimalPlaces), rec.decimalPlaces, rec.removeDecimalZero);
      if dec != "" then v + rec.decimalMark + dec else v
    else v
  }

  // ---------------------------------------------------------------------------
  // Worked examples
  // ---------------------------------------------------------------------------

  /** A currency formatted like the table's defaults: ',' decimals, ' ' thousands. */
  const CommaStyle: Record := Record("SEK", 1.0, ",", " ", 2, true, true)

  /** A currency formatted with '.' decimals and ',' thousands. */
  const PointStyle: Record := Record("USD", 1.0, ".", ",", 2, true, true)

  /** 12345.678 with two places is truncated to "12,345.67", not rounded. */
  lemma FormatTruncates()
    ensures FormatAmount(12345.678, PointStyle) == "12,345.67"
  {
    assert FractionDigits(12345.678, 2) == 67 by {
      assert Frac(12345.678) == 0.678;
      assert Pow10(2) == 100;
    }
    assert Digits(12345) == "12345";
    assert Digits(67) == "67";
    assert Group("12345", ",") == "12,345";
  }

  /** 0.05 with two places renders as "0,5": the fraction digits 5 lose the leading zero.
      The intended rendering is "0,05". */
  lemma FractionLeadingZeroLost()
    ensures FormatAmount(0.05, CommaStyle) == "0,5"
    ensures FormatAmountIntended(0.05, CommaStyle) == "0,05"
  {
    assert FractionDigits(0.05, 2) == 5 by {
      assert Frac(0.05) == 0.05;
      assert Pow10(2) == 100;
    }
    assert Digits(0) == "0";
    assert Digits(5) == "5";
    assert ZeroFill("5", 2) == "05";
  }
}
