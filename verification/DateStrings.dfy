/** Formatted dates and timestamps, their order as strings, and the allowlist expiry test. */
module DateStrings {
  import opened Bytes
  import opened Calendar

  // ----- Date order is day order

  lemma NextDayIsLater(d: Date)
    requires ValidDate(d)
    ensures Before(d, NextDay(d))
  {
  }

  /** Dates are strictly increasing in the day number. */
  lemma {:induction false} CivilIncreasing(a: int, b: int)
    requires a < b
    ensures Before(CivilFromDays(a), CivilFromDays(b))
    decreases b - a
  {
    hide CivilFromDays;
    CivilFollowsCalendar(b - 1);
    NextDayIsLater(CivilFromDays(b - 1));
    if a < b - 1 {
      CivilIncreasing(a, b - 1);
    }
  }

  lemma CivilOrder(a: int, b: int)
    ensures Before(CivilFromDays(a), CivilFromDays(b)) <==> a < b
  {
    if a < b { CivilIncreasing(a, b); }
    if b < a { CivilIncreasing(b, a); }
  }

  const FIRST_DAY_YEAR_0: int := -719_528
  const LAST_DAY_YEAR_9999: int := 2_932_896

  /** The days whose date has a year of at most four digits. */
  predicate FourDigitDay(z: int) { FIRST_DAY_YEAR_0 <= z <= LAST_DAY_YEAR_9999 }

  lemma FourDigitEnds()
    ensures CivilFromDays(FIRST_DAY_YEAR_0) == Date(0, 1, 1)
    ensures CivilFromDays(LAST_DAY_YEAR_9999) == Date(9999, 12, 31)
    ensures CivilFromDays(LAST_DAY_YEAR_9999 + 1) == Date(10_000, 1, 1)
  {
    assert EraOf(-60) == -1 && EraOf(3_652_364) == 24 && EraOf(3_652_365) == 24;
    assert YearOfEra(146_037) == 399 && YearOfEra(146_036) == 399;
    assert MonthPrime(306) == 10 && MonthPrime(305) == 9;
  }

  lemma FourDigitYears(z: int)
    ensures FourDigitDay(z) <==> 0 <= CivilFromDays(z).year <= 9999
  {
    hide CivilFromDays;
    FourDigitEnds();
    CivilOrder(FIRST_DAY_YEAR_0, z);
    CivilOrder(z, FIRST_DAY_YEAR_0);
    CivilOrder(LAST_DAY_YEAR_9999, z);
    CivilOrder(z, LAST_DAY_YEAR_9999);
    CivilFollowsCalendar(z);
  }

  // ----- Strings

  /** Lexicographic order of strings, character by character. */
  predicate StringLess(a: string, b: string)
  {
    b != [] && (a == [] || a[0] < b[0] || (a[0] == b[0] && StringLess(a[1..], b[1..])))
  }

  lemma StringLessIrreflexive(a: string)
    ensures !StringLess(a, a)
  {
  }

  /** Strings with equally long heads compare by the heads first. */
  lemma {:induction false} CompareHeads(p: string, q: string, x: string, y: string)
    requires |p| == |q|
    ensures StringLess(p + x, q + y) <==> StringLess(p, q) || (p == q && StringLess(x, y))
  {
    if p == [] {
      assert p + x == x && q + y == y;
    } else {
      assert (p + x)[1..] == p[1..] + x && (q + y)[1..] == q[1..] + y;
      CompareHeads(p[1..], q[1..], x, y);
      assert p == [p[0]] + p[1..] && q == [q[0]] + q[1..];
      if p[1..] == q[1..] { StringLessIrreflexive(p[1..]); }
    }
  }

  function Digit(d: nat): (c: char)
    requires d < 10
  {
    '0' + d as char
  }

  /** Decimal digits, zero-padded to at least `width`. */
  function Padded(n: nat, width: nat): (s: string)
    ensures |s| >= 1 && |s| >= width
    decreases n, width
  {
    if n < 10 && width <= 1 then [Digit(n)]
    else Padded(n / 10, if width == 0 then 0 else width - 1) + [Digit(n % 10)]
  }

  function Pow10(w: nat): (r: nat) { if w == 0 then 1 else 10 * Pow10(w - 1) }

  lemma {:induction false} PaddedLength(n: nat, w: nat)
    requires w >= 1 && n < Pow10(w)
    ensures |Padded(n, w)| == w
  {
    if w > 1 { PaddedLength(n / 10, w - 1); }
  }

  lemma PaddedSplit(n: nat, w: nat)
    requires w > 1
    ensures Padded(n, w) == Padded(n / 10, w - 1) + [Digit(n % 10)]
  {
  }

  lemma DigitOrder(a: nat, b: nat)
    requires a < 10 && b < 10
    ensures StringLess([Digit(a)], [Digit(b)]) <==> a < b
    ensures [Digit(a)] == [Digit(b)] <==> a == b
  {
    assert [Digit(a)][0] == Digit(a) && [Digit(b)][0] == Digit(b);
  }

  lemma TailsEqual(p: string, q: string, x: string, y: string)
    requires |p| == |q|
    ensures p + x == q + y <==> p == q && x == y
  {
    assert (p + x)[..|p|] == p && (p + x)[|p|..] == x && (q + y)[..|q|] == q && (q + y)[|q|..] == y;
  }

  /** Numbers that fit the width are ordered by their padded strings. */
  lemma {:induction false} PaddedOrder(a: nat, b: nat, w: nat)
    requires w >= 1 && a < Pow10(w) && b < Pow10(w)
    ensures StringLess(Padded(a, w), Padded(b, w)) <==> a < b
    ensures Padded(a, w) == Padded(b, w) <==> a == b
  {
    hide StringLess, Padded, Digit;
    if w == 1 {
      OneDigit(a);
      OneDigit(b);
      DigitOrder(a, b);
    } else {
      PaddedOrder(a / 10, b / 10, w - 1);
      PaddedLength(a / 10, w - 1);
      PaddedLength(b / 10, w - 1);
      PaddedSplit(a, w);
      PaddedSplit(b, w);
      DigitOrder(a % 10, b % 10);
      var p, q := Padded(a / 10, w - 1), Padded(b / 10, w - 1);
      CompareHeads(p, q, [Digit(a % 10)], [Digit(b % 10)]);
      TailsEqual(p, q, [Digit(a % 10)], [Digit(b % 10)]);
    }
  }

  lemma OneDigit(n: nat)
    requires n < 10
    ensures Padded(n, 1) == [Digit(n)]
  {
  }

  lemma {:induction false} PaddedTo(n: nat, w: nat)
    ensures n < Pow10(|Padded(n, w)|) && Padded(n, |Padded(n, w)|) == Padded(n, w)
    decreases n, w
  {
    if n >= 10 || w > 1 {
      PaddedTo(n / 10, if w == 0 then 0 else w - 1);
    }
  }

  lemma {:induction false} WidthMonotone(a: nat, b: nat, w: nat)
    requires a <= b
    ensures |Padded(a, w)| <= |Padded(b, w)|
    decreases a, w
  {
    if a >= 10 || w > 1 {
      WidthMonotone(a / 10, b / 10, if w == 0 then 0 else w - 1);
    }
  }

  lemma AtLeastOnce(x: int, d: nat)
    requires x >= 1
    ensures x * d >= d
  {
    assert x * d == (x - 1) * d + d;
  }

  lemma DivUnique(n: nat, d: nat, q: nat, k: nat, rest: nat, other: nat)
    requires rest < d && other < d && n == q * d + rest && n == k * d + other
    ensures q == k
  {
    assert (q - k) * d == other - rest && (k - q) * d == rest - other;
    if q > k { AtLeastOnce(q - k, d); }
    if k > q { AtLeastOnce(k - q, d); }
  }

  function Quotient(n: nat, d: nat): (q: nat)
    requires d > 0
  {
    n / d
  }

  lemma QuotientRest(n: nat, d: nat) returns (rest: nat)
    requires d > 0
    ensures n == Quotient(n, d) * d + rest && rest < d
  {
    rest := n % d;
  }

  lemma ShiftDigit(a: nat, digit: nat, q: nat, b: nat, s: nat)
    requires digit < 10 && a == b * q + s && s < q
    ensures 10 * a + digit == b * (10 * q) + (10 * s + digit) && 10 * s + digit < 10 * q
  {
  }

  lemma SameQuotient(n: nat, a: nat, digit: nat, q: nat, d: nat, b: nat, s: nat, k: nat, rest: nat)
    requires digit < 10 && n == 10 * a + digit && a == b * q + s && s < q && d == 10 * q && n == k * d + rest && rest < d
    ensures b == k
  {
    ShiftDigit(a, digit, q, b, s);
    DivUnique(n, d, b, k, 10 * s + digit, rest);
  }

  lemma DropDigit(n: nat, q: nat, d: nat)
    requires q > 0 && d == 10 * q
    ensures Quotient(Quotient(n, 10), q) == Quotient(n, d)
  {
    hide Quotient;
    var a := Quotient(n, 10);
    var digit := QuotientRest(n, 10);
    var s := QuotientRest(a, q);
    var rest := QuotientRest(n, d);
    SameQuotient(n, a, digit, q, d, Quotient(a, q), s, Quotient(n, d), rest);
  }

  lemma {:induction false} PowPositive(w: nat)
    ensures Pow10(w) > 0
  {
    if w > 0 { PowPositive(w - 1); }
  }

  /** The leading digits of a number are those of the number without its last digits, and a digit follows. */
  lemma {:induction false} CutDigits(n: nat, v: nat, w: nat)
    requires 1 <= w <= v && n < Pow10(v) && Pow10(v - w) > 0
    ensures |Padded(n, v)| == v && Quotient(n, Pow10(v - w)) < Pow10(w)
    ensures Padded(n, v)[..w] == Padded(Quotient(n, Pow10(v - w)), w)
    ensures w < v ==> Padded(n, v)[w] >= '0'
    decreases v
  {
    PaddedLength(n, v);
    if w == v {
      assert Padded(n, v)[..w] == Padded(n, v);
    } else {
      assert Quotient(n, 10) == n / 10;
      PowPositive(v - 1 - w);
      CutDigits(n / 10, v - 1, w);
      DropDigit(n, Pow10(v - 1 - w), Pow10(v - w));
    }
  }

  /** A padded field followed by more text compares by the field, then by the rest. */
  lemma FieldOrder(a: nat, b: nat, w: nat, x: string, y: string)
    requires w >= 1 && a < Pow10(w) && b < Pow10(w)
    ensures StringLess(Padded(a, w) + x, Padded(b, w) + y) <==> a < b || (a == b && StringLess(x, y))
  {
    PaddedOrder(a, b, w);
    PaddedLength(a, w);
    PaddedLength(b, w);
    CompareHeads(Padded(a, w), Padded(b, w), x, y);
  }

  lemma SeparatorOrder(c: char, x: string, y: string)
    ensures StringLess([c] + x, [c] + y) <==> StringLess(x, y)
  {
    assert ([c] + x)[1..] == x && ([c] + y)[1..] == y;
  }

  /** YYYY-MM-DD */
  function DateString(d: Date): (s: string)
    requires d.year >= 0 && ValidDate(d)
  {
    Padded(d.year, 4) + (['-'] + (Padded(d.month, 2) + (['-'] + Padded(d.day, 2))))
  }

  /** The number of characters that a year takes. */
  function YearWidth(year: nat): (w: nat)
    ensures w >= 4
  {
    |Padded(year, 4)|
  }

  /** Dates whose years are equally wide, followed by any text, are ordered first by date. */
  lemma SameWidthOrder(a: Date, b: Date, x: string, y: string)
    requires ValidDate(a) && ValidDate(b) && a.year >= 0 && b.year >= 0 && YearWidth(a.year) == YearWidth(b.year)
    ensures StringLess(DateString(a) + x, DateString(b) + y) <==> Before(a, b) || (a == b && StringLess(x, y))
  {
    hide Padded;
    var w := YearWidth(a.year);
    assert Pow10(2) == 100;
    var dx, dy := Padded(a.day, 2) + x, Padded(b.day, 2) + y;
    var mx, my := Padded(a.month, 2) + (['-'] + dx), Padded(b.month, 2) + (['-'] + dy);
    FieldOrder(a.day, b.day, 2, x, y);
    SeparatorOrder('-', dx, dy);
    FieldOrder(a.month, b.month, 2, ['-'] + dx, ['-'] + dy);
    SeparatorOrder('-', mx, my);
    PaddedTo(a.year, 4);
    PaddedTo(b.year, 4);
    FieldOrder(a.year, b.year, w, ['-'] + mx, ['-'] + my);
    Regroup(a, x);
    Regroup(b, y);
  }

  lemma DateTextOrder(a: Date, b: Date, x: string, y: string)
    requires ValidDate(a) && ValidDate(b) && 0 <= a.year <= 9999 && 0 <= b.year <= 9999
    ensures StringLess(DateString(a) + x, DateString(b) + y) <==> Before(a, b) || (a == b && StringLess(x, y))
  {
    assert Pow10(4) == 10_000;
    PaddedLength(a.year, 4);
    PaddedLength(b.year, 4);
    SameWidthOrder(a, b, x, y);
  }

  /** The year, cut to the width of a shorter one. */
  function CutYear(year: nat, width: nat): (r: nat)
    requires width <= YearWidth(year)
  {
    PowPositive(YearWidth(year) - width);
    Quotient(year, Pow10(YearWidth(year) - width))
  }

  /** A shorter year against a longer one: its digits against the first digits of the other; '-' precedes every digit. */
  lemma ShorterYearOrder(y: nat, z: nat, x: string, x': string)
    requires YearWidth(y) < YearWidth(z)
    ensures StringLess(Padded(y, 4) + (['-'] + x), Padded(z, 4) + x') <==> y <= CutYear(z, YearWidth(y))
    ensures StringLess(Padded(z, 4) + x', Padded(y, 4) + (['-'] + x)) <==> y > CutYear(z, YearWidth(y))
  {
    hide Padded;
    var w, v, p, q := YearWidth(y), YearWidth(z), Padded(y, 4), Padded(z, 4);
    PaddedTo(y, 4);
    PaddedTo(z, 4);
    PowPositive(v - w);
    CutDigits(z, v, w);
    var head, tail := q[..w], q[w..] + x';
    assert q + x' == head + tail;
    CompareHeads(p, head, ['-'] + x, tail);
    CompareHeads(head, p, tail, ['-'] + x);
    PaddedOrder(y, CutYear(z, w), w);
    PaddedOrder(CutYear(z, w), y, w);
    assert StringLess(['-'] + x, tail) && !StringLess(tail, ['-'] + x);
  }

  lemma Regroup(d: Date, x: string)
    requires d.year >= 0 && ValidDate(d)
    ensures DateString(d) + x
            == Padded(d.year, 4) + (['-'] + (Padded(d.month, 2) + (['-'] + (Padded(d.day, 2) + x))))
  {
  }

  /** For years 0 to 9999 the order of date strings is the order of days. */
  lemma DateStringOrder(a: int, b: int)
    requires FourDigitDay(a) && FourDigitDay(b)
    ensures var d, e := CivilFromDays(a), CivilFromDays(b);
            && ValidDate(d) && ValidDate(e) && d.year >= 0 && e.year >= 0
            && (StringLess(DateString(d), DateString(e)) <==> a < b)
  {
    hide CivilFromDays;
    var d, e := CivilFromDays(a), CivilFromDays(b);
    FourDigitYears(a);
    FourDigitYears(b);
    CivilFollowsCalendar(a);
    CivilFollowsCalendar(b);
    DateTextOrder(d, e, "", "");
    assert DateString(d) + "" == DateString(d) && DateString(e) + "" == DateString(e);
    CivilOrder(a, b);
    CivilOrder(b, a);
  }

  lemma EpochDaysAreDates(z: nat)
    ensures CivilFromDays(z).year >= 1970 && ValidDate(CivilFromDays(z))
  {
    EpochIsDayZero();
    CivilOrder(z, 0);
    CivilFollowsCalendar(z);
  }

  predicate PrintedDay(z: int) { CivilFromDays(z).year >= 0 && ValidDate(CivilFromDays(z)) }

  function DayString(z: int): (s: string)
    requires PrintedDay(z)
  {
    DateString(CivilFromDays(z))
  }

  /** The earlier of two days has a year of at most the first digits, equally many, of the later one's. */
  predicate SortsBefore(a: int, b: int)
    requires PrintedDay(a) && PrintedDay(b) && a <= b
  {
    hide CivilFromDays;
    YearsAscend(a, b);
    CivilFromDays(a).year <= CutYear(CivilFromDays(b).year, YearWidth(CivilFromDays(a).year))
  }

  lemma YearsAscend(a: int, b: int)
    requires PrintedDay(a) && PrintedDay(b) && a <= b
    ensures CivilFromDays(a).year <= CivilFromDays(b).year
    ensures YearWidth(CivilFromDays(a).year) <= YearWidth(CivilFromDays(b).year)
  {
    hide CivilFromDays;
    CivilOrder(b, a);
    WidthMonotone(CivilFromDays(a).year, CivilFromDays(b).year, 4);
  }

  /** For any two days of year 0 or later, exactly when string order is day order. */
  lemma DayStringOrder(a: int, b: int)
    requires PrintedDay(a) && PrintedDay(b) && a < b
    ensures StringLess(DayString(a), DayString(b)) <==> SortsBefore(a, b)
    ensures StringLess(DayString(b), DayString(a)) <==> !SortsBefore(a, b)
  {
    hide CivilFromDays, Padded;
    var d, e := CivilFromDays(a), CivilFromDays(b);
    YearsAscend(a, b);
    CivilOrder(a, b);
    assert DateString(d) + "" == DateString(d) && DateString(e) + "" == DateString(e);
    if YearWidth(d.year) == YearWidth(e.year) {
      SameWidthOrder(d, e, "", "");
      SameWidthOrder(e, d, "", "");
      assert Pow10(0) == 1;
    } else {
      ShorterYearOrder(d.year, e.year, Padded(d.month, 2) + (['-'] + Padded(d.day, 2)),
                       ['-'] + (Padded(e.month, 2) + (['-'] + Padded(e.day, 2))));
    }
  }

  /** Beyond four digits the order of strings is no longer the order of days. */
  lemma FiveDigitYearBreaksOrder()
    ensures var last, next := CivilFromDays(LAST_DAY_YEAR_9999), CivilFromDays(LAST_DAY_YEAR_9999 + 1);
            && ValidDate(last) && ValidDate(next) && last.year == 9999 && next.year == 10_000
            && StringLess(DateString(next), DateString(last))
  {
    hide CivilFromDays;
    FourDigitEnds();
    var last, next := Date(9999, 12, 31), Date(10_000, 1, 1);
    assert Padded(9, 1) == "9" && Padded(99, 2) == "99" && Padded(999, 3) == "999" && Padded(9999, 4) == "9999";
    assert Padded(1, 0) == "1" && Padded(10, 1) == "10" && Padded(100, 2) == "100";
    assert Padded(1000, 3) == "1000" && Padded(10_000, 4) == "10000";
    assert DateString(last)[0] == '9' && DateString(next)[0] == '1';
  }

  lemma DayZeroPrinted(z: nat)
    ensures PrintedDay(z)
  {
    EpochDaysAreDates(z);
  }

  /** String order is day order for all days up to a horizon. */
  ghost predicate OrderedUpTo(n: nat)
  {
    forall a: nat, b: nat :: a <= n && b <= n && PrintedDay(a) && PrintedDay(b)
                            ==> (StringLess(DayString(a), DayString(b)) <==> a < b)
  }

  /** The horizon is the last day of year 9999, and no later one. */
  lemma OrderHorizon(n: nat)
    ensures OrderedUpTo(n) <==> n <= LAST_DAY_YEAR_9999
  {
    hide CivilFromDays, StringLess;
    if n <= LAST_DAY_YEAR_9999 {
      forall a: nat, b: nat | a <= n && b <= n && PrintedDay(a) && PrintedDay(b)
        ensures StringLess(DayString(a), DayString(b)) <==> a < b
      {
        DateStringOrder(a, b);
      }
    } else {
      FiveDigitYearBreaksOrder();
      DayZeroPrinted(LAST_DAY_YEAR_9999);
      DayZeroPrinted(LAST_DAY_YEAR_9999 + 1);
      assert StringLess(DayString(LAST_DAY_YEAR_9999 + 1), DayString(LAST_DAY_YEAR_9999));
    }
  }

  // ----- Timestamps

  function TimeString(secondsOfDay: nat): (s: string)
  {
    ['T'] + (Padded(secondsOfDay / 3600, 2) + ([':'] + (Padded(secondsOfDay % 3600 / 60, 2)
      + ([':'] + (Padded(secondsOfDay % 60, 2) + ['Z'])))))
  }

  /** The fields of a time of day are in range, and times are ordered by them. */
  lemma TimeFields(a: nat, b: nat)
    requires a < 86_400 && b < 86_400
    ensures a / 3600 < 24 && a % 3600 / 60 < 60 && a % 60 < 60
    ensures a < b <==> a / 3600 < b / 3600
                       || (a / 3600 == b / 3600
                           && (a % 3600 / 60 < b % 3600 / 60 || (a % 3600 / 60 == b % 3600 / 60 && a % 60 < b % 60)))
  {
    assert a == 3600 * (a / 3600) + 60 * (a % 3600 / 60) + a % 60;
    assert b == 3600 * (b / 3600) + 60 * (b % 3600 / 60) + b % 60;
  }

  /** A separator, a two-digit field, and more text. */
  lemma TwoDigitOrder(c: char, a: nat, b: nat, x: string, y: string)
    requires a < 100 && b < 100
    ensures StringLess([c] + (Padded(a, 2) + x), [c] + (Padded(b, 2) + y)) <==> a < b || (a == b && StringLess(x, y))
  {
    hide Padded, StringLess;
    assert Pow10(2) == 100;
    FieldOrder(a, b, 2, x, y);
    SeparatorOrder(c, Padded(a, 2) + x, Padded(b, 2) + y);
  }

  lemma TimeOrder(a: nat, b: nat)
    requires a < 86_400 && b < 86_400
    ensures StringLess(TimeString(a), TimeString(b)) <==> a < b
  {
    hide Padded, StringLess;
    TimeFields(a, b);
    TimeFields(b, a);
    var zs: string := ['Z'];
    StringLessIrreflexive(zs);
    var sx, sy := [':'] + (Padded(a % 60, 2) + zs), [':'] + (Padded(b % 60, 2) + zs);
    var mx, my := [':'] + (Padded(a % 3600 / 60, 2) + sx), [':'] + (Padded(b % 3600 / 60, 2) + sy);
    TwoDigitOrder(':', a % 60, b % 60, zs, zs);
    TwoDigitOrder(':', a % 3600 / 60, b % 3600 / 60, sx, sy);
    TwoDigitOrder('T', a / 3600, b / 3600, mx, my);
  }

  /** The RFC 3339 timestamp of a unix time. */
  function UtcTimestamp(unix: nat): (s: string)
  {
    EpochDaysAreDates(unix / 86_400);
    DateString(CivilFromDays(unix / 86_400)) + TimeString(unix % 86_400)
  }

  lemma SmallNumbers()
    ensures Padded(0, 2) == "00" && Padded(1, 2) == "01" && Padded(1970, 4) == "1970"
  {
    assert Padded(0, 1) == "0" && Padded(1, 1) == "1" && Padded(19, 2) == "19" && Padded(197, 3) == "197";
  }

  /** Unix time zero, as the timestamp test of the flasher expects it. */
  lemma EpochTimestamp()
    ensures UtcTimestamp(0) == "1970-01-01T00:00:00Z"
  {
    hide CivilFromDays, Padded;
    EpochIsDayZero();
    SmallNumbers();
    var date, time: string := DateString(Date(1970, 1, 1)), TimeString(0);
    assert date == "1970-01-01";
    assert time == "T00:00:00Z";
  }

  /** Up to the end of year 9999, timestamps sort by time. */
  lemma TimestampOrder(a: nat, b: nat)
    requires a / 86_400 <= LAST_DAY_YEAR_9999 && b / 86_400 <= LAST_DAY_YEAR_9999
    ensures StringLess(UtcTimestamp(a), UtcTimestamp(b)) <==> a < b
  {
    var p, q := a / 86_400, b / 86_400;
    EpochDaysAreDates(p);
    EpochDaysAreDates(q);
    FourDigitYears(p);
    FourDigitYears(q);
    DateTextOrder(CivilFromDays(p), CivilFromDays(q), TimeString(a % 86_400), TimeString(b % 86_400));
    TimeOrder(a % 86_400, b % 86_400);
    CivilOrder(p, q);
    CivilOrder(q, p);
  }

  // ----- The allowlist

  datatype AllowEntry = AllowEntry(package: string, feature: string, expires: string, owner: string)

  /** Today's date as the gates format it. */
  function CurrentUtcDate(unix: nat): (s: string)
  {
    EpochDaysAreDates(unix / 86_400);
    DateString(CivilFromDays(unix / 86_400))
  }

  predicate EntryMatches(e: AllowEntry, package: string, feature: string)
  {
    e.package == package && (e.feature == "*" || e.feature == feature) && e.owner != ""
  }

  predicate Allowlisted(entries: seq<AllowEntry>, package: string, feature: string, unix: nat)
  {
    exists i :: 0 <= i < |entries|
      && EntryMatches(entries[i], package, feature) && StringLess(CurrentUtcDate(unix), entries[i].expires)
  }

  /** The string of one day precedes that of another. */
  predicate Precedes(a: int, b: int)
    requires PrintedDay(a) && PrintedDay(b)
  {
    (a < b && SortsBefore(a, b)) || (b < a && !SortsBefore(b, a))
  }

  lemma PrecedesExactly(a: int, b: int)
    requires PrintedDay(a) && PrintedDay(b)
    ensures StringLess(DayString(a), DayString(b)) <==> Precedes(a, b)
    ensures FourDigitDay(a) && FourDigitDay(b) ==> (Precedes(a, b) <==> a < b)
  {
    hide CivilFromDays, SortsBefore;
    StringLessIrreflexive(DayString(a));
    if a < b { DayStringOrder(a, b); }
    if b < a { DayStringOrder(b, a); }
    if FourDigitDay(a) && FourDigitDay(b) { DateStringOrder(a, b); }
  }

  /** The expiry text of an entry is the date of the given day, where it is a date at all. */
  predicate Dated(entry: AllowEntry, day: Option<int>)
  {
    day.Some? ==> PrintedDay(day.value) && entry.expires == DayString(day.value)
  }

  predicate Ahead(entry: AllowEntry, day: Option<int>, today: nat)
    requires Dated(entry, day) && PrintedDay(today)
  {
    if day.Some? then Precedes(today, day.value) else StringLess(DayString(today), entry.expires)
  }

  /**
   An allowlist, some entries of which carry dates, exempts a feature exactly while some
   matching entry lies ahead; up to the end of year 9999 that means that its day is still to
   come.
   */
  lemma AllowlistedUntilExpiry(entries: seq<AllowEntry>, days: seq<Option<int>>, package: string, feature: string, unix: nat)
    requires |days| == |entries| && forall i :: 0 <= i < |days| ==> Dated(entries[i], days[i])
    ensures PrintedDay(unix / 86_400)
    ensures Allowlisted(entries, package, feature, unix) <==>
              exists i :: 0 <= i < |entries| && EntryMatches(entries[i], package, feature)
                && Ahead(entries[i], days[i], unix / 86_400)
    ensures forall i :: 0 <= i < |days| && days[i].Some? && FourDigitDay(days[i].value) && unix / 86_400 <= LAST_DAY_YEAR_9999
              ==> (Ahead(entries[i], days[i], unix / 86_400) <==> unix / 86_400 < days[i].value)
  {
    hide CivilFromDays, Precedes, StringLess;
    var today := unix / 86_400;
    DayZeroPrinted(today);
    forall i | 0 <= i < |entries| && days[i].Some?
      ensures StringLess(DayString(today), entries[i].expires) <==> Precedes(today, days[i].value)
      ensures FourDigitDay(days[i].value) && FourDigitDay(today) ==> (Precedes(today, days[i].value) <==> today < days[i].value)
    {
      assert Dated(entries[i], days[i]);
      PrecedesExactly(today, days[i].value);
    }
  }
}
