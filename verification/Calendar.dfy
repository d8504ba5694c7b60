/** Calendar arithmetic: the parser's closed form against a day-by-day Gregorian count. */
module Calendar {

  datatype Date = Date(year: int, month: int, day: int)

  // ---------------------------------------------------------------- the Gregorian calendar, day by day

  predicate IsLeap(y: int) { y % 4 == 0 && (y % 100 != 0 || y % 400 == 0) }

  function DaysIn(y: int, m: int): int {
    if m == 2 then (if IsLeap(y) then 29 else 28)
    else if m == 4 || m == 6 || m == 9 || m == 11 then 30
    else 31
  }

  predicate IsDate(d: Date) { 1 <= d.month <= 12 && 1 <= d.day <= DaysIn(d.year, d.month) }

  function NextDay(d: Date): Date {
    if d.day < DaysIn(d.year, d.month) then d.(day := d.day + 1)
    else if d.month < 12 then Date(d.year, d.month + 1, 1)
    else Date(d.year + 1, 1, 1)
  }

  function PrevDay(d: Date): Date {
    if d.day > 1 then d.(day := d.day - 1)
    else if d.month > 1 then Date(d.year, d.month - 1, DaysIn(d.year, d.month - 1))
    else Date(d.year - 1, 12, 31)
  }

  /** The date n days after 1 January 1970, or before it if n is negative. */
  function DateOf(n: int): (d: Date)
    ensures IsDate(d) && (0 <= n ==> 1970 <= d.year)
    decreases if n < 0 then -n else n
  {
    if n == 0 then Date(1970, 1, 1) else if n > 0 then NextDay(DateOf(n - 1)) else PrevDay(DateOf(n + 1))
  }

  lemma NextAfterPrev(d: Date)
    requires IsDate(d)
    ensures IsDate(PrevDay(d)) && NextDay(PrevDay(d)) == d
  {
  }

  lemma DateAdvances(n: int)
    ensures DateOf(n + 1) == NextDay(DateOf(n))
  {
    if n < 0 {
      NextAfterPrev(DateOf(n + 1));
    }
  }

  // ---------------------------------------------------------------- tm_to_time_t

  datatype Tm = Tm(year: int, mon: int, mday: int, hour: int, min: int, sec: int, wday: int)

  const MDAYS: seq<int> := [0, 31, 59, 90, 120, 151, 181, 212, 243, 273, 304, 334]

  /** Days since the epoch of a tm with years since 1900 and months from 0. */
  function TmDays(year: int, mon: int, mday: int): int
    requires 0 <= mon < 12
  {
    var y := year - 70;
    y * 365 + (y + 1) / 4 + MDAYS[mon] + (if mon < 2 || (y + 2) % 4 != 0 then mday - 1 else mday)
  }

  function TmToTime(tm: Tm): int {
    if tm.year < 70 || tm.year > 199 || tm.mon < 0 || tm.mon > 11 then -1
    else if tm.hour < 0 || tm.min < 0 || tm.sec < 0 then -1
    else TmDays(tm.year, tm.mon, tm.mday) * 86400 + tm.hour * 3600 + tm.min * 60 + tm.sec
  }

  function DayNumber(d: Date): int
    requires IsDate(d)
  {
    TmDays(d.year - 1900, d.month - 1, d.day)
  }

  /** 2000 is a leap year and 2100 is out of range, so every fourth year is one. */
  lemma LeapInRange(y: int)
    requires 1970 <= y <= 2099
    ensures IsLeap(y) <==> y % 4 == 0
  {
  }

  /** From the last of a month to the first of the next one. */
  lemma NextMonthNumber(y: int, m: int)
    requires 1970 <= y <= 2099 && 1 <= m < 12
    ensures TmDays(y - 1900, m, 1) == TmDays(y - 1900, m - 1, DaysIn(y, m)) + 1
  {
    LeapInRange(y);
    hide IsLeap;
    var k := y - 1970;
    assert (k + 2) % 4 == y % 4;
  }

  lemma NextYearNumber(y: int)
    requires 1970 <= y < 2099
    ensures TmDays(y + 1 - 1900, 0, 1) == TmDays(y - 1900, 11, 31) + 1
  {
  }

  lemma NextDayNumber(d: Date)
    requires IsDate(d) && 1970 <= d.year <= 2099 && NextDay(d).year <= 2099
    ensures IsDate(NextDay(d)) && DayNumber(NextDay(d)) == DayNumber(d) + 1
  {
    if d.day == DaysIn(d.year, d.month) {
      hide TmDays;
      if d.month < 12 {
        NextMonthNumber(d.year, d.month);
      } else {
        NextYearNumber(d.year);
      }
    }
  }

  /** The closed form counts the days one by one, through 2099. */
  lemma {:induction false} DayNumberCounts(n: nat)
    requires DateOf(n).year <= 2099
    ensures DayNumber(DateOf(n)) == n
  {
    if n > 0 {
      DayNumberCounts(n - 1);
      NextDayNumber(DateOf(n - 1));
    }
  }

  lemma DayNumberRange(d: Date)
    requires IsDate(d) && 1970 <= d.year <= 2099
    ensures 0 <= DayNumber(d)
    ensures DayNumber(d) == 0 <==> d == Date(1970, 1, 1)
  {
  }

  /** And it numbers every date of the range: the two directions make it a bijection. */
  lemma {:induction false} DateOfDayNumber(d: Date)
    requires IsDate(d) && 1970 <= d.year <= 2099
    ensures 0 <= DayNumber(d) && DateOf(DayNumber(d)) == d
    decreases d.year, d.month, d.day
  {
    hide TmDays;
    hide PrevDay;
    hide NextDay;
    DayNumberRange(d);
    if d != Date(1970, 1, 1) {
      var p := PrevDay(d);
      PrevDayIsBefore(d);
      NextDayNumber(p);
      DateOfDayNumber(p);
    }
  }

  lemma PrevDayIsBefore(d: Date)
    requires IsDate(d) && 1970 <= d.year && d != Date(1970, 1, 1)
    ensures var p := PrevDay(d); IsDate(p) && NextDay(p) == d && 1970 <= p.year
    ensures var p := PrevDay(d);
      p.year < d.year || (p.year == d.year && (p.month < d.month || (p.month == d.month && p.day < d.day)))
  {
  }

  // ---------------------------------------------------------------- instants

  /** gmtime: the date and time of day of an instant. */
  function DayOf(t: int): Date { DateOf(t / 86400) }

  function GmTime(t: int): Tm {
    var d, s := DayOf(t), t % 86400;
    Tm(d.year - 1900, d.month - 1, d.day, s / 3600, s / 60 % 60, s % 60, (4 + t / 86400) % 7)
  }

  /** The epoch is a Thursday, and each day is a weekday later. */
  lemma WeekdayAdvances(t: int)
    ensures 0 <= t < 86400 ==> GmTime(t).wday == 4
    ensures GmTime(t + 86400).wday == if GmTime(t).wday == 6 then 0 else GmTime(t).wday + 1
  {
    hide DateOf;
    assert (t + 86400) / 86400 == t / 86400 + 1;
  }

  /** tm_to_time_t inverts gmtime on every instant of 1970-2099. */
  lemma TmToTimeInvertsGmTime(t: nat)
    requires DayOf(t).year <= 2099
    ensures TmToTime(GmTime(t)) == t
  {
    hide TmDays;
    hide DateOf;
    DayNumberCounts(t / 86400);
    ClockParts(t % 86400);
  }

  lemma ClockParts(s: nat)
    ensures s == s / 3600 * 3600 + s / 60 % 60 * 60 + s % 60
  {
    assert s / 3600 == s / 60 / 60;
    var m := s / 60;
    assert m == m / 60 * 60 + m % 60 && s == m * 60 + s % 60;
  }

  lemma {:induction false} DateOfGrows(a: int, b: int)
    requires a < b
    ensures DayColumn(DateOf(a)) < DayColumn(DateOf(b))
    decreases b - a
  {
    hide DateOf;
    DateAdvances(b - 1);
    if a + 1 < b {
      DateOfGrows(a, b - 1);
    }
  }

  /** YYYYmmdd as a number. */
  function DayColumn(d: Date): int { d.year * 10000 + d.month * 100 + d.day }

  /** HHMMSS as a number. */
  function ClockColumn(s: nat): int { s / 3600 * 10000 + s / 60 % 60 * 100 + s % 60 }

  lemma ClockColumnGrows(a: nat, b: nat)
    requires a < b < 86400
    ensures 0 <= ClockColumn(a) < ClockColumn(b) < 1000000
  {
    ClockParts(a);
    ClockParts(b);
    PartsGrow(a / 3600, a / 60 % 60, a % 60, b / 3600, b / 60 % 60, b % 60);
  }

  lemma PartsGrow(h: nat, m: nat, s: nat, h': nat, m': nat, s': nat)
    requires m < 60 && s < 60 && m' < 60 && s' < 60 && h' < 24
    requires h * 3600 + m * 60 + s < h' * 3600 + m' * 60 + s'
    ensures h * 10000 + m * 100 + s < h' * 10000 + m' * 100 + s' < 1000000
  {
    assert h <= h' && (h == h' ==> m <= m');
  }

  /** YYYYmmddHHMMSS as a number. */
  function TimeColumn(t: int): int { DayColumn(DayOf(t)) * 1000000 + ClockColumn(t % 86400) }

  /** Both columns order instants as time does: the day column by day, the time column by second. */
  lemma ColumnsFollowTime(a: int, b: int)
    ensures a < b <==> TimeColumn(a) < TimeColumn(b)
    ensures a / 86400 < b / 86400 <==> DayColumn(DayOf(a)) < DayColumn(DayOf(b))
    ensures a / 86400 == b / 86400 <==> DayColumn(DayOf(a)) == DayColumn(DayOf(b))
  {
    if a < b {
      TimeColumnGrows(a, b);
    } else if b < a {
      TimeColumnGrows(b, a);
    }
  }

  lemma TimeColumnGrows(a: int, b: int)
    requires a < b
    ensures TimeColumn(a) < TimeColumn(b)
    ensures a / 86400 < b / 86400 ==> DayColumn(DayOf(a)) < DayColumn(DayOf(b))
  {
    hide DateOf;
    hide DayColumn;
    hide ClockColumn;
    var x, y := a % 86400, b % 86400;
    ClockColumnBound(x);
    ClockColumnBound(y);
    if a / 86400 < b / 86400 {
      DateOfGrows(a / 86400, b / 86400);
    } else {
      assert a / 86400 == b / 86400 && x < y;
      ClockColumnGrows(x, y);
    }
  }

  lemma ClockColumnBound(s: nat)
    requires s < 86400
    ensures 0 <= ClockColumn(s) < 1000000
  {
  }

  /** In the years 1000-9999 a column is a positive integer below 2^53, which a double holds exactly. */
  lemma ColumnsAreExact(t: int)
    requires 1000 <= DayOf(t).year <= 9999
    ensures 0 < DayColumn(DayOf(t)) < 100000000
    ensures 0 < TimeColumn(t) < 100000000000000 < 0x20_0000_0000_0000
  {
    ClockColumnBound(t % 86400);
  }
}
