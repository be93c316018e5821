/**
 * The part of .NET's DateTime that the archive core relies on: the calendar
 * fields, the chronological order used by the date-range query, and the
 * pieces of text the entry-name format string produces (en-US culture).
 */
module Dates {

  datatype DateTime = DateTime(year: int, month: int, day: int,
                               hour: int, minute: int, second: int, tick: int)
  {
    /** The ranges .NET guarantees for every DateTime value (ticks are 100 ns). */
    predicate Valid() {
      && 1 <= year <= 9999
      && 1 <= month <= 12
      && 1 <= day <= 31
      && 0 <= hour < 24
      && 0 <= minute < 60
      && 0 <= second < 60
      && 0 <= tick < 10_000_000
    }
  }

  type Timestamp = d: DateTime | d.Valid() witness DateTime(1, 1, 1, 0, 0, 0, 0)

  /** The fields from most to least significant; DateTime's order is the lexicographic order on them. */
  function Fields(d: DateTime): (s: seq<int>)
    ensures |s| == 7
  {
    [d.year, d.month, d.day, d.hour, d.minute, d.second, d.tick]
  }

  predicate LexAtMost(a: seq<int>, b: seq<int>)
    requires |a| == |b|
    decreases |a|
  {
    a == [] || a[0] < b[0] || (a[0] == b[0] && LexAtMost(a[1..], b[1..]))
  }

  /** `a <= b` on DateTime values: the year decides first, then the later fields. */
  predicate AtOrBefore(a: DateTime, b: DateTime)
    ensures AtOrBefore(a, b) ==> a.year <= b.year
    ensures a.year < b.year ==> AtOrBefore(a, b)
  {
    LexAtMost(Fields(a), Fields(b))
  }

  lemma {:induction false} LexReflexive(a: seq<int>)
    ensures LexAtMost(a, a)
    decreases |a|
  {
    if a != [] {
      LexReflexive(a[1..]);
    }
  }

  lemma {:induction false} LexTotal(a: seq<int>, b: seq<int>)
    requires |a| == |b|
    ensures LexAtMost(a, b) || LexAtMost(b, a)
    decreases |a|
  {
    if a != [] && a[0] == b[0] {
      LexTotal(a[1..], b[1..]);
    }
  }

  lemma {:induction false} LexTransitive(a: seq<int>, b: seq<int>, c: seq<int>)
    requires |a| == |b| == |c|
    requires LexAtMost(a, b) && LexAtMost(b, c)
    ensures LexAtMost(a, c)
    decreases |a|
  {
    if a != [] && a[0] == b[0] == c[0] {
      LexTransitive(a[1..], b[1..], c[1..]);
    }
  }

  lemma {:induction false} LexAntisymmetric(a: seq<int>, b: seq<int>)
    requires |a| == |b|
    requires LexAtMost(a, b) && LexAtMost(b, a)
    ensures a == b
    decreases |a|
  {
    if a != [] {
      LexAntisymmetric(a[1..], b[1..]);
      assert a == [a[0]] + a[1..] && b == [b[0]] + b[1..];
    }
  }

  /** DateTime comparison is a total order, so "between start and end" is well defined. */
  lemma AtOrBeforeTotalOrder(a: DateTime, b: DateTime, c: DateTime)
    ensures AtOrBefore(a, a)
    ensures AtOrBefore(a, b) || AtOrBefore(b, a)
    ensures AtOrBefore(a, b) && AtOrBefore(b, c) ==> AtOrBefore(a, c)
    ensures AtOrBefore(a, b) && AtOrBefore(b, a) ==> a == b
  {
    LexReflexive(Fields(a));
    LexTotal(Fields(a), Fields(b));
    if AtOrBefore(a, b) && AtOrBefore(b, c) {
      LexTransitive(Fields(a), Fields(b), Fields(c));
    }
    if AtOrBefore(a, b) && AtOrBefore(b, a) {
      LexAntisymmetric(Fields(a), Fields(b));
      assert a.year == Fields(a)[0] == Fields(b)[0] == b.year;
      assert a.month == Fields(a)[1] == Fields(b)[1] == b.month;
      assert a.day == Fields(a)[2] == Fields(b)[2] == b.day;
      assert a.hour == Fields(a)[3] == Fields(b)[3] == b.hour;
      assert a.minute == Fields(a)[4] == Fields(b)[4] == b.minute;
      assert a.second == Fields(a)[5] == Fields(b)[5] == b.second;
      assert a.tick == Fields(a)[6] == Fields(b)[6] == b.tick;
    }
  }

  // ---------------------------------------------------------------------
  // Text pieces of the entry-name format (en-US culture)
  // ---------------------------------------------------------------------

  /** "MMM": abbreviated month names. */
  const MONTH_ABBREVIATIONS: seq<string> :=
    ["Jan", "Feb", "Mar", "Apr", "May", "Jun", "Jul", "Aug", "Sep", "Oct", "Nov", "Dec"]

  function MonthAbbreviation(month: int): (s: string)
    requires 1 <= month <= 12
    ensures |s| == 3
    ensures 'A' <= s[0] <= 'Z' && 'a' <= s[1] <= 'z' && 'a' <= s[2] <= 'z'
  {
    MONTH_ABBREVIATIONS[month - 1]
  }

  lemma MonthAbbreviationInjective(m: int, n: int)
    requires 1 <= m <= 12 && 1 <= n <= 12
    requires MonthAbbreviation(m) == MonthAbbreviation(n)
    ensures m == n
  {
    var s := MonthAbbreviation(m);
    assert s[0] == MonthAbbreviation(n)[0] && s[1] == MonthAbbreviation(n)[1] && s[2] == MonthAbbreviation(n)[2];
  }

  function Digit(n: int): (c: char)
    requires 0 <= n < 10
    ensures '0' <= c <= '9'
  {
    (48 + n) as char
  }

  predicate IsDigitText(s: string) {
    forall i :: 0 <= i < |s| ==> '0' <= s[i] <= '9'
  }

  /** The number a text of decimal digits denotes, most significant digit first. */
  function DigitsValue(s: string): (n: nat)
    requires IsDigitText(s)
    decreases |s|
  {
    if s == [] then 0 else 10 * DigitsValue(s[..|s| - 1]) + (s[|s| - 1] as int - 48)
  }

  /** `int.ToString()` for a non-negative value: decimal digits, no padding, read back as `n`. */
  function DecimalText(n: nat): (s: string)
    ensures |s| >= 1 && IsDigitText(s)
    ensures DigitsValue(s) == n
    ensures |s| > 1 ==> s[0] != '0'
    decreases n
  {
    if n < 10 then [Digit(n)] else DecimalText(n / 10) + [Digit(n % 10)]
  }

  lemma {:induction false} DecimalTextInjective(m: nat, n: nat)
    requires DecimalText(m) == DecimalText(n)
    ensures m == n
    decreases m
  {
    var s := DecimalText(m);
    if m < 10 && n < 10 {
      assert Digit(m) == s[0] == Digit(n);
    } else if m >= 10 && n >= 10 {
      assert Digit(m % 10) == s[|s| - 1] == Digit(n % 10);
      assert DecimalText(m / 10) == s[..|s| - 1] == DecimalText(n / 10);
      DecimalTextInjective(m / 10, n / 10);
    }
  }

  /** "dd", "mm", "hh": exactly two digits, zero padded. */
  function TwoDigits(n: int): (s: string)
    requires 0 <= n < 100
    ensures |s| == 2 && IsDigitText(s)
    ensures DigitsValue(s) == n
  {
    assert [Digit(n / 10), Digit(n % 10)][..1] == [Digit(n / 10)];
    assert DigitsValue([Digit(n / 10)]) == n / 10 by {
      assert [Digit(n / 10)][..0] == [];
    }
    [Digit(n / 10), Digit(n % 10)]
  }

  lemma TwoDigitsInjective(m: int, n: int)
    requires 0 <= m < 100 && 0 <= n < 100
    requires TwoDigits(m) == TwoDigits(n)
    ensures m == n
  {
    assert Digit(m / 10) == TwoDigits(m)[0] == TwoDigits(n)[0] == Digit(n / 10);
    assert Digit(m % 10) == TwoDigits(m)[1] == TwoDigits(n)[1] == Digit(n % 10);
  }

  /** "hh": the hour on a 12-hour clock, 12 standing for 0. */
  function Hour12(hour: int): (h: int)
    requires 0 <= hour < 24
    ensures 1 <= h <= 12
    ensures h % 12 == hour % 12
  {
    if hour % 12 == 0 then 12 else hour % 12
  }

  /** "tt": the AM/PM designator. */
  function Designator(hour: int): (s: string)
    requires 0 <= hour < 24
    ensures |s| == 2
    ensures s == "AM" <==> hour < 12
    ensures s == "PM" <==> hour >= 12
  {
    if hour < 12 then "AM" else "PM"
  }

  /** The 12-hour reading together with its designator names exactly one hour of the day. */
  lemma ClockReadingInjective(g: int, h: int)
    requires 0 <= g < 24 && 0 <= h < 24
    requires Hour12(g) == Hour12(h) && Designator(g) == Designator(h)
    ensures g == h
  {
    assert Designator(g)[0] == Designator(h)[0];
  }

  /** `{d:hh.mmtt}`: seven characters, for instance "03.07PM". */
  function TimeLabel(d: Timestamp): (s: string)
    ensures |s| == 7
  {
    TwoDigits(Hour12(d.hour)) + "." + TwoDigits(d.minute) + Designator(d.hour)
  }
}
