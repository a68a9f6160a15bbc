/** Day numbers to Gregorian dates: the closed formula and the calendar it follows. */
module Calendar {
  datatype Date = Date(year: int, month: int, day: int)

  // ----- The Gregorian calendar

  predicate Leap(y: int) { y % 4 == 0 && (y % 100 != 0 || y % 400 == 0) }

  function DaysInMonth(y: int, m: int): (n: int)
  {
    if m == 2 then (if Leap(y) then 29 else 28)
    else if m == 4 || m == 6 || m == 9 || m == 11 then 30
    else 31
  }

  predicate ValidDate(d: Date)
  {
    1 <= d.month <= 12 && 1 <= d.day <= DaysInMonth(d.year, d.month)
  }

  function NextDay(d: Date): (r: Date)
  {
    if d.day < DaysInMonth(d.year, d.month) then d.(day := d.day + 1)
    else if d.month < 12 then Date(d.year, d.month + 1, 1)
    else Date(d.year + 1, 1, 1)
  }

  predicate Before(a: Date, b: Date)
  {
    a.year < b.year || (a.year == b.year && (a.month < b.month || (a.month == b.month && a.day < b.day)))
  }

  // ----- civil_from_days

  /** Integer division as the source language performs it: truncated toward zero. */
  function TruncDiv(a: int, b: int): (q: int)
    requires b > 0
  {
    if a >= 0 then a / b else -((-a) / b)
  }

  function EraOf(shifted: int): (era: int)
  {
    TruncDiv(if shifted >= 0 then shifted else shifted - 146_096, 146_097)
  }

  function YearOfEra(dayOfEra: int): (y: int)
  {
    (dayOfEra - dayOfEra / 1_460 + dayOfEra / 36_524 - dayOfEra / 146_096) / 365
  }

  function MonthPrime(dayOfYear: int): (mp: int) { (5 * dayOfYear + 2) / 153 }

  function CivilFromDays(z: int): (d: Date)
  {
    var shifted := z + 719_468;
    var era := EraOf(shifted);
    var dayOfEra := shifted - era * 146_097;
    var yearOfEra := YearOfEra(dayOfEra);
    var year := yearOfEra + era * 400;
    var dayOfYear := dayOfEra - (365 * yearOfEra + yearOfEra / 4 - yearOfEra / 100);
    var mp := MonthPrime(dayOfYear);
    var day := dayOfYear - (153 * mp + 2) / 5 + 1;
    var month := if mp < 10 then mp + 3 else mp - 9;
    Date(if month <= 2 then year + 1 else year, month, day)
  }

  /** The adjustment for negative numbers turns truncation into the floor. */
  lemma EraIsFloor(s: int)
    ensures EraOf(s) == s / 146_097
  {
  }

  /** First day, counted from 1 March of year 0 of the era, of the March-based year `y`. */
  function YearStart(y: int): (n: int) { 365 * y + y / 4 - y / 100 + y / 400 }

  /** A year of the era as century `c`, four-year group `q` and year in group `t`. */
  predicate Split(c: int, q: int, t: int) { 0 <= c < 4 && 0 <= q < 25 && 0 <= t < 4 }

  /** The March-based years that hold a 29 February are the last of their group. */
  predicate LongYear(c: int, q: int, t: int) { t == 3 && (q < 24 || c == 3) }

  function YearLength(c: int, q: int, t: int): (n: int) { if LongYear(c, q, t) then 366 else 365 }

  lemma YearStartOfSplit(c: int, q: int, t: int)
    requires Split(c, q, t)
    ensures var y := 100 * c + 4 * q + t;
            YearStart(y) == 36_524 * c + 1_461 * q + 365 * t && YearStart(y + 1) == YearStart(y) + YearLength(c, q, t)
  {
    var y := 100 * c + 4 * q + t;
    assert y / 4 == 25 * c + q && y / 100 == c && y / 400 == 0;
    if t == 3 {
      assert (y + 1) / 4 == 25 * c + q + 1;
      assert (y + 1) / 100 == if q == 24 then c + 1 else c;
    } else {
      assert (y + 1) / 4 == 25 * c + q && (y + 1) / 100 == c;
    }
  }

  /** The year formula on a day written as century, group, year and day of year. */
  lemma YearOfSplit(c: int, q: int, t: int, u: int)
    requires Split(c, q, t) && 0 <= u < YearLength(c, q, t)
    ensures YearOfEra(36_524 * c + 1_461 * q + 365 * t + u) == 100 * c + 4 * q + t
  {
    var doe := 36_524 * c + 1_461 * q + 365 * t + u;
    if t < 3 {
      assert doe / 1_460 == 25 * c + q && doe / 36_524 == c && doe / 146_096 == 0;
    } else if q == 24 && u == 365 {
      assert doe == 146_096;
    } else {
      var carry := if 24 * c + q + 1_095 + u >= 1_460 then 1 else 0;
      assert doe / 1_460 == 25 * c + q + carry;
      assert doe / 36_524 == c && doe / 146_096 == 0;
    }
  }

  lemma SplitDay(doe: int) returns (c: int, q: int, t: int, u: int)
    requires 0 <= doe < 146_097
    ensures Split(c, q, t) && 0 <= u < YearLength(c, q, t)
    ensures doe == 36_524 * c + 1_461 * q + 365 * t + u
  {
    c := if doe == 146_096 then 3 else doe / 36_524;
    var r := doe - 36_524 * c;
    q := r / 1_461;
    var s := r - 1_461 * q;
    t := if s == 1_460 then 3 else s / 365;
    u := s - 365 * t;
  }

  /** The closed form finds the year whose span contains the day. */
  lemma YearBracket(doe: int)
    requires 0 <= doe < 146_097
    ensures var y := YearOfEra(doe); 0 <= y < 400 && YearStart(y) <= doe < YearStart(y + 1)
  {
    hide YearOfEra, YearStart, LongYear;
    var c, q, t, u := SplitDay(doe);
    YearOfSplit(c, q, t, u);
    YearStartOfSplit(c, q, t);
  }

  lemma LeapOfCycle(p: int, r: int)
    requires 0 <= r < 400
    ensures Leap(400 * p + r) == Leap(r)
  {
    Mod4(100 * p, r);
    Mod100(4 * p, r);
    Mod400(p, r);
  }

  lemma Mod4(q: int, r: int)
    ensures (4 * q + r) % 4 == r % 4
  {
  }

  lemma Mod100(q: int, r: int)
    ensures (100 * q + r) % 100 == r % 100
  {
  }

  lemma Mod400(q: int, r: int)
    ensures (400 * q + r) % 400 == r % 400
  {
  }

  /** Leap years repeat with the 400-year era. */
  lemma LeapRepeats(y: int, era: int)
    ensures Leap(y + era * 400) == Leap(y)
  {
    LeapOfCycle(y / 400, y % 400);
    LeapOfCycle(y / 400 + era, y % 400);
    assert y + era * 400 == 400 * (y / 400 + era) + y % 400;
  }

  lemma LongYearIsLeap(c: int, q: int, t: int)
    requires Split(c, q, t)
    ensures LongYear(c, q, t) <==> Leap(100 * c + 4 * q + t + 1)
  {
  }

  /** A March-based year has 366 days exactly when the February in it is in a leap year. */
  lemma YearStartStep(era: int, y: int)
    requires 0 <= y < 400
    ensures YearStart(y + 1) - YearStart(y) == if Leap(y + 1 + era * 400) then 366 else 365
    ensures YearStart(y) == 365 * y + y / 4 - y / 100
  {
    var c, r := y / 100, y % 100;
    var q, t := r / 4, r % 4;
    assert y == 100 * c + 4 * q + t;
    YearStartOfSplit(c, q, t);
    LongYearIsLeap(c, q, t);
    LeapRepeats(y + 1, era);
  }

  /** The March-based year `y` of era `era`, day `doy` of it, as a date. */
  function DateIn(era: int, y: int, doy: int): (d: Date)
  {
    var mp := MonthPrime(doy);
    var month := if mp < 10 then mp + 3 else mp - 9;
    var year := y + era * 400;
    Date(if month <= 2 then year + 1 else year, month, doy - (153 * mp + 2) / 5 + 1)
  }

  /** Within one March-based year the month formula walks the calendar. */
  lemma DateInValid(era: int, y: int, doy: int)
    requires 0 <= doy < (if Leap(y + 1 + era * 400) then 366 else 365)
    ensures ValidDate(DateIn(era, y, doy))
  {
    var mp := MonthPrime(doy);
    assert 0 <= mp <= 11;
  }

  lemma DateInNext(era: int, y: int, doy: int)
    requires 0 <= doy && doy + 1 < (if Leap(y + 1 + era * 400) then 366 else 365)
    ensures NextDay(DateIn(era, y, doy)) == DateIn(era, y, doy + 1)
  {
    var mp := MonthPrime(doy);
    assert 0 <= mp <= 11;
  }

  /** The last day of a March-based year is followed by 1 March of the next. */
  lemma DateInLast(era: int, y: int, era': int, y': int, doy: int)
    requires doy + 1 == (if Leap(y + 1 + era * 400) then 366 else 365)
    requires y' + era' * 400 == y + 1 + era * 400
    ensures NextDay(DateIn(era, y, doy)) == DateIn(era', y', 0)
  {
    assert MonthPrime(doy) == 11 && MonthPrime(0) == 0;
  }

  lemma CivilIsDateIn(z: int) returns (era: int, y: int, doy: int)
    ensures CivilFromDays(z) == DateIn(era, y, doy)
    ensures 0 <= y < 400 && z + 719_468 == era * 146_097 + YearStart(y) + doy
    ensures 0 <= doy < YearStart(y + 1) - YearStart(y)
  {
    hide EraOf, YearOfEra, MonthPrime;
    EraIsFloor(z + 719_468);
    era := EraOf(z + 719_468);
    var doe := z + 719_468 - era * 146_097;
    YearBracket(doe);
    y := YearOfEra(doe);
    YearStartStep(era, y);
    doy := doe - YearStart(y);
  }

  /** Only one year of the era brackets a day. */
  lemma BracketUnique(era: int, y: int, doy: int, era': int, y': int, doy': int)
    requires 0 <= y < 400 && 0 <= doy < YearStart(y + 1) - YearStart(y)
    requires 0 <= y' < 400 && 0 <= doy' < YearStart(y' + 1) - YearStart(y')
    requires era * 146_097 + YearStart(y) + doy == era' * 146_097 + YearStart(y') + doy'
    ensures era == era' && y == y' && doy == doy'
  {
    YearStartMonotone(y + 1, 400);
    YearStartMonotone(y' + 1, 400);
    YearStartMonotone(0, y);
    YearStartMonotone(0, y');
    assert era == era';
    if y < y' { YearStartMonotone(y + 1, y'); }
    if y' < y { YearStartMonotone(y' + 1, y); }
  }

  lemma YearStartMonotone(a: int, b: int)
    requires 0 <= a <= b <= 400
    ensures YearStart(a) <= YearStart(b)
  {
  }

  /** Day 0 is 1970-01-01. */
  lemma EpochIsDayZero()
    ensures CivilFromDays(0) == Date(1970, 1, 1)
  {
  }

  /** Every day number gives a calendar date, and the next number gives the next calendar date. */
  lemma CivilFollowsCalendar(z: int)
    ensures ValidDate(CivilFromDays(z))
    ensures CivilFromDays(z + 1) == NextDay(CivilFromDays(z))
  {
    hide CivilFromDays, DateIn, Leap, NextDay, ValidDate;
    var era, y, doy := CivilIsDateIn(z);
    var era', y', doy' := CivilIsDateIn(z + 1);
    YearStartStep(era, y);
    DateInValid(era, y, doy);
    if doy + 1 < YearStart(y + 1) - YearStart(y) {
      BracketUnique(era, y, doy + 1, era', y', doy');
      DateInNext(era, y, doy);
    } else {
      var nextEra, nextYear := if y == 399 then era + 1 else era, if y == 399 then 0 else y + 1;
      YearStartStep(nextEra, nextYear);
      BracketUnique(nextEra, nextYear, 0, era', y', doy');
      DateInLast(era, y, era', y', doy);
    }
  }
}
