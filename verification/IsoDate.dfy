/** Dates written year first, before or after the time, and the parser's refusal of dates in the future. */
module IsoDate {
  import opened Strings
  import opened Calendar
  import opened DateParse
  import opened Rfc2822

  /** The instant a date and the time of day found so far stand for. */
  function Instant(n: nat, tm: Tm): int { n * 86400 + tm.hour * 3600 + tm.min * 60 + tm.sec }

  predicate HasTime(tm: Tm) { 0 <= tm.hour && 0 <= tm.min && 0 <= tm.sec }

  /** More than ten days ahead of the system clock. */
  predicate TooFarAhead(n: nat, tm: Tm, env: Env) { env.now + 10 * 24 * 3600 < Instant(n, tm) }

  predicate HasClock(env: Env) { 0 <= env.now && env.nowTm.Some? }

  function Dated(tm: Tm, d: Date): Tm { tm.(year := d.year - 1900, mon := d.month - 1, mday := d.day) }

  /**
    A date of the covered years is refused as lying in the future exactly when it does and the time of
    day is already known: with the date first, the check has nothing to compare and lets it pass.
  */
  lemma FutureRefusedIff(n: nat, d: Date, env: Env, tm: Tm)
    requires DateOf(n) == d && d.year <= 2099 && HasClock(env)
    ensures TryDate(d.year, d.month, d.day, env, tm)
         == if HasTime(tm) && TooFarAhead(n, tm, env) then (false, tm) else (true, Dated(tm, d))
  {
    hide DateOf;
    hide TmDays;
    DayNumberCounts(n);
  }

  // ---------------------------------------------------------------- the token

  function YearFirstText(d: Date): string
    requires IsDate(d) && 1970 <= d.year <= 2099
  {
    Two(d.year / 100) + Two(d.year % 100) + ("-" + Two(d.month) + "-" + Two(d.day))
  }

  /** The date with day and month exchanged. */
  function Swapped(d: Date): Date { Date(d.year, d.day, d.month) }

  lemma SwappedIsDate(d: Date)
    requires IsDate(d) && d.day <= 12
    ensures IsDate(Swapped(d))
  {
  }

  /** What the four readings of a year-first date come to: itself, exchanged, or nothing. */
  function TryBoth(d: Date, env: Env, tm: Tm): (bool, Tm) {
    var r := TryDate(d.year, d.month, d.day, env, tm);
    if r.0 then r
    else
      var s := TryDate(d.year, d.day, d.month, env, tm);
      if s.0 then s else (false, tm)
  }

  lemma RefusedUnchanged(year: int, month: int, day: int, env: Env, tm: Tm)
    requires env.nowTm.Some? && !TryDate(year, month, day, env, tm).0
    ensures TryDate(year, month, day, env, tm) == (false, tm)
  {
  }

  lemma NextTry(tries: seq<(int, int, int)>, env: Env, tm: Tm)
    requires tries != [] && env.nowTm.Some?
    requires 0 <= tries[0].0 < 0x8000_0000 && 0 <= tries[0].1 < 0x8000_0000 && 0 <= tries[0].2 < 0x8000_0000
    ensures FirstDate(tries, env, tm) ==
      var r := TryDate(tries[0].0, tries[0].1, tries[0].2, env, tm);
      if r.0 then r else FirstDate(tries[1..], env, tm)
  {
    hide TryDate;
    var x := tries[0];
    assert ToInt(x.0) == x.0 && ToInt(x.1) == x.1 && ToInt(x.2) == x.2;
    if !TryDate(x.0, x.1, x.2, env, tm).0 {
      RefusedUnchanged(x.0, x.1, x.2, env, tm);
    }
  }

  /** A year is neither a month nor a day, so the last two readings never hold. */
  lemma YearIsNoMonth(d: Date, env: Env, tm: Tm)
    requires 1970 <= d.year
    ensures TryDate(d.day, d.year, d.month, env, tm) == (false, tm)
    ensures TryDate(d.day, d.month, d.year, env, tm) == (false, tm)
  {
  }

  lemma FourReadings(d: Date, env: Env, tm: Tm)
    requires IsDate(d) && 1970 <= d.year <= 2099 && env.nowTm.Some?
    ensures FirstDate([(d.year, d.month, d.day), (d.year, d.day, d.month)] + [(d.day, d.year, d.month)]
                      + [(d.day, d.month, d.year)] + [], env, tm) == TryBoth(d, env, tm)
  {
    hide TryDate;
    hide FirstDate;
    var one, two := (d.year, d.month, d.day), (d.year, d.day, d.month);
    var three, four := (d.day, d.year, d.month), (d.day, d.month, d.year);
    assert [one, two] + [three] + [four] + [] == [one, two, three, four];
    NextTry([one, two, three, four], env, tm);
    assert [one, two, three, four][1..] == [two, three, four];
    NextTry([two, three, four], env, tm);
    assert [two, three, four][1..] == [three, four];
    NextTry([three, four], env, tm);
    assert [three, four][1..] == [four];
    NextTry([four], env, tm);
    assert [four][1..] == [];
    YearIsNoMonth(d, env, tm);
    NoReadings(env, tm);
  }

  lemma NoReadings(env: Env, tm: Tm)
    ensures FirstDate([], env, tm) == (false, tm)
  {
  }

  lemma ThreeNumbers(d: Date, rest: string, env: Env, tm: Tm)
    requires IsDate(d) && 1970 <= d.year <= 2099 && env.nowTm.Some? && !IsDigit(At(rest, 0))
    ensures var s := YearFirstText(d) + rest;
      && DigitRun(s) == 4 && Number(s, 4, 0) == d.year && s[4] == '-' && IsDigit(s[5])
      && MatchMultiNumber(d.year, '-', s, 4, env, tm) ==
         var r := TryBoth(d, env, tm); (if r.0 then 10 else 0, r.1)
  {
    hide Number;
    hide DigitRun;
    hide Strtol;
    hide FirstDate;
    hide TryBoth;
    hide Two;
    var s := YearFirstText(d) + rest;
    var year := Two(d.year / 100) + Two(d.year % 100);
    var tail := "-" + Two(d.month) + "-" + Two(d.day) + rest;
    assert s == year + tail;
    FourDigits(d.year, tail);
    assert s[5..] == Two(d.month) + ("-" + Two(d.day) + rest);
    TwoDigits(d.month, "-" + Two(d.day) + rest);
    Strto(s[5..]);
    assert s[8..] == Two(d.day) + rest;
    TwoDigits(d.day, rest);
    Strto(s[8..]);
    FourReadings(d, env, tm);
  }

  /** A year-first date is taken whole, or only its year is taken and the rest is left to be read as zones. */
  lemma DateToken(d: Date, rest: string, f: Found, env: Env)
    requires IsDate(d) && 1970 <= d.year <= 2099 && env.nowTm.Some? && !IsDigit(At(rest, 0))
    ensures Token(YearFirstText(d) + rest, f, env) ==
      var r := TryBoth(d, env, f.tm);
      if r.0 then (10, f.(tm := r.1)) else (4, f.(tm := f.tm.(year := d.year - 1900)))
  {
    hide Number;
    hide DigitRun;
    hide MatchMultiNumber;
    ThreeNumbers(d, rest, env, f.tm);
    BothOrNothing(d, env, f.tm);
  }

  lemma BothOrNothing(d: Date, env: Env, tm: Tm)
    requires env.nowTm.Some?
    ensures !TryBoth(d, env, tm).0 ==> TryBoth(d, env, tm).1 == tm
  {
  }

  // ---------------------------------------------------------------- date first

  function DateFirst(t: Stamp, y: Style): string
    requires Expressible(t, y)
  {
    YearFirstText(t.date) + (y.gaps.day + FromClock(t, y))
  }

  /** YYYY-MM-DD hh:mm[:ss] +hhmm is read like the form of RFC 2822, however far ahead it lies. */
  lemma YearFirstParses(n: nat, t: Stamp, y: Style, env: Env)
    requires Expressible(t, y) && y.weekday.None? && DateOf(n) == t.date && HasClock(env)
    ensures ParseDate(DateFirst(t, y), env) == ParseDate(Text(t, y), env)
    ensures KeepsFields(t, y) && Offset(t) != -1 ==>
      ParseDate(DateFirst(t, y), env) == Some((LocalSeconds(n, t) - Offset(t) * 60, Offset(t)))
  {
    hide Token;
    hide Text;
    hide FromClock;
    hide DateOf;
    hide ScanAll;
    hide TailOk;
    hide TryDate;
    hide Conclude;
    hide ReadOffset;
    hide ReadTm;
    hide KeepsFields;
    hide TailMonth;
    hide TailHour;
    hide TailWeekday;
    hide Words;
    hide LocalSeconds;
    hide SystemOffset;
    var day, rest := YearFirstText(t.date), y.gaps.day + FromClock(t, y);
    var g := NOTHING.(tm := Dated(NOTHING.tm, t.date));
    GapSeparates(y.gaps.day, FromClock(t, y));
    FutureRefusedIff(n, t.date, env, NOTHING.tm);
    DateToken(t.date, rest, NOTHING, env);
    Advance(day, rest, NOTHING, g, env);
    SkipBlank(y.gaps.day, FromClock(t, y), g, env);
    ScanClock(t, y, g, env);
    NoStampMark(t, y);
    ScanText(t, y, env);
    ParsesExactlyIff(n, t, y, env);
  }

  // ---------------------------------------------------------------- time first

  function TimeFirst(t: Stamp, y: Style): string
    requires Expressible(t, y)
  {
    ClockText(t.hour, t.min, t.sec, y.seconds) +
      (y.gaps.clock + (YearFirstText(t.date) + (y.gaps.day + FromZone(t, y))))
  }

  /** The fields once the clock was read. */
  function Timed(t: Stamp): Found {
    NOTHING.(tm := NOTHING.tm.(hour := t.hour, min := t.min, sec := t.sec))
  }

  lemma ScanTimeFirst(t: Stamp, y: Style, env: Env)
    requires Expressible(t, y)
    ensures ScanAll(TimeFirst(t, y), NOTHING, env)
         == ScanAll(YearFirstText(t.date) + (y.gaps.day + FromZone(t, y)), Timed(t), env)
  {
    hide Token;
    hide ScanAll;
    hide FromZone;
    hide TailOk;
    hide YearFirstText;
    var clock := ClockText(t.hour, t.min, t.sec, y.seconds);
    var rest := YearFirstText(t.date) + (y.gaps.day + FromZone(t, y));
    GapSeparates(y.gaps.clock, rest);
    ClockToken(t.hour, t.min, t.sec, y.seconds, y.gaps.clock + rest, NOTHING, env);
    Advance(clock, y.gaps.clock + rest, NOTHING, Timed(t), env);
    SkipBlank(y.gaps.clock, rest, Timed(t), env);
  }

  /** A date that was accepted, as itself or exchanged, is followed by the zone. */
  lemma ScanAccepted(t: Stamp, y: Style, d: Date, env: Env)
    requires Expressible(t, y) && env.nowTm.Some? && TryBoth(t.date, env, Timed(t).tm) == (true, Dated(Timed(t).tm, d))
    ensures ScanAll(YearFirstText(t.date) + (y.gaps.day + FromZone(t, y)), Timed(t), env)
         == Found(ReadTm(y, Dated(Timed(t).tm, d)), ReadOffset(t, y), false)
  {
    hide Token;
    hide ScanAll;
    hide FromZone;
    hide TailOk;
    hide TryBoth;
    hide ReadOffset;
    hide ReadTm;
    var rest := y.gaps.day + FromZone(t, y);
    var g := Timed(t).(tm := Dated(Timed(t).tm, d));
    GapSeparates(y.gaps.day, FromZone(t, y));
    DateToken(t.date, rest, Timed(t), env);
    Advance(YearFirstText(t.date), rest, Timed(t), g, env);
    SkipBlank(y.gaps.day, FromZone(t, y), g, env);
    ScanZone(t, y, g, env);
  }

  /** A date that was refused leaves its year, and its month and day pass for zones: no month is found. */
  lemma ScanRefused(t: Stamp, y: Style, env: Env)
    requires Expressible(t, y) && env.nowTm.Some? && !TryBoth(t.date, env, Timed(t).tm).0
    ensures ScanAll(YearFirstText(t.date) + (y.gaps.day + FromZone(t, y)), Timed(t), env)
         == Found(ReadTm(y, Timed(t).tm.(year := t.date.year - 1900)), ReadOffset(t, y), false)
  {
    hide Token;
    hide ScanAll;
    hide FromZone;
    hide TailOk;
    hide TryBoth;
    hide ReadOffset;
    hide ReadTm;
    hide Two;
    var d, rest := t.date, y.gaps.day + FromZone(t, y);
    var year, month, day := Two(d.year / 100) + Two(d.year % 100), "-" + Two(d.month), "-" + Two(d.day);
    GapSeparates(y.gaps.day, FromZone(t, y));
    DateToken(d, rest, Timed(t), env);
    var g := Timed(t).(tm := Timed(t).tm.(year := d.year - 1900));
    assert YearFirstText(d) + rest == year + (month + (day + rest));
    Advance(year, month + (day + rest), Timed(t), g, env);
    AsZones(month, day, d, rest, g, env);
    var h := g.(offset := if d.day < 24 then -(d.day * 60) else -(d.month * 60));
    SkipBlank(y.gaps.day, FromZone(t, y), h, env);
    ScanZone(t, y, h, env);
  }

  lemma AsZones(month: string, day: string, d: Date, rest: string, g: Found, env: Env)
    requires IsDate(d) && Separated(rest) && month == "-" + Two(d.month) && day == "-" + Two(d.day)
    ensures ScanAll(month + (day + rest), g, env)
         == ScanAll(rest, g.(offset := if d.day < 24 then -(d.day * 60) else -(d.month * 60)), env)
  {
    hide Token;
    hide ScanAll;
    hide Two;
    var first := g.(offset := -(d.month * 60));
    var second := g.(offset := if d.day < 24 then -(d.day * 60) else -(d.month * 60));
    assert ['-'] + Two(d.month) + (day + rest) == month + (day + rest);
    ShortZoneToken(true, d.month, day + rest, g, env);
    Advance(month, day + rest, g, first, env);
    assert ['-'] + Two(d.day) + rest == day + rest;
    ShortZoneToken(true, d.day, rest, first, env);
    Advance(day, rest, first, second, env);
  }

  /** How a year-first date is taken once the time of day is known. */
  lemma TimedReadings(n: nat, k: nat, t: Stamp, y: Style, env: Env)
    requires Expressible(t, y) && DateOf(n) == t.date && HasClock(env)
    requires t.date.day <= 12 ==> DateOf(k) == Swapped(t.date)
    ensures TryBoth(t.date, env, Timed(t).tm) ==
      if !TooFarAhead(n, Timed(t).tm, env) then (true, Dated(Timed(t).tm, t.date))
      else if t.date.day <= 12 && !TooFarAhead(k, Timed(t).tm, env) then (true, Dated(Timed(t).tm, Swapped(t.date)))
      else (false, Timed(t).tm)
  {
    hide DateOf;
    hide TooFarAhead;
    FutureRefusedIff(n, t.date, env, Timed(t).tm);
    if t.date.day <= 12 {
      FutureRefusedIff(k, Swapped(t.date), env, Timed(t).tm);
    }
  }

  /**
    hh:mm[:ss] YYYY-MM-DD +hhmm is read like the form of RFC 2822 if it is at most ten days ahead. Further
    ahead, day and month are exchanged if that gives a date that is not; otherwise there is no date at all.
  */
  lemma TimeFirstParses(n: nat, k: nat, t: Stamp, y: Style, env: Env)
    requires Expressible(t, y) && y.weekday.None? && DateOf(n) == t.date && HasClock(env)
    requires t.date.day <= 12 ==> DateOf(k) == Swapped(t.date)
    ensures var swapped := t.(date := Swapped(t.date));
      if !TooFarAhead(n, Timed(t).tm, env) then ParseDate(TimeFirst(t, y), env) == ParseDate(Text(t, y), env)
      else if t.date.day <= 12 && !TooFarAhead(k, Timed(t).tm, env) then
        && Expressible(swapped, y.(padded := true))
        && ParseDate(TimeFirst(t, y), env) == ParseDate(Text(swapped, y.(padded := true)), env)
      else TailMonth(Words(y.tail), -1) == -1 ==> ParseDate(TimeFirst(t, y), env) == None
  {
    hide ScanAll;
    hide Text;
    hide TimeFirst;
    hide DateOf;
    hide TooFarAhead;
    hide TryBoth;
    hide SystemOffset;
    hide TailOk;
    hide TailOffset;
    hide TailMonth;
    hide TailHour;
    hide TailWeekday;
    hide Words;
    hide FromZone;
    hide TmDays;
    StartsWithClock(t, y);
    ScanTimeFirst(t, y, env);
    TimedReadings(n, k, t, y, env);
    if !TooFarAhead(n, Timed(t).tm, env) {
      ScanAccepted(t, y, t.date, env);
      NoStampMark(t, y);
      ScanText(t, y, env);
    } else if t.date.day <= 12 && !TooFarAhead(k, Timed(t).tm, env) {
      var swapped, padded := t.(date := Swapped(t.date)), y.(padded := true);
      SwappedIsDate(t.date);
      ScanAccepted(t, y, Swapped(t.date), env);
      NoStampMark(swapped, padded);
      ScanText(swapped, padded, env);
    } else {
      ScanRefused(t, y, env);
    }
  }

  lemma StartsWithClock(t: Stamp, y: Style)
    requires Expressible(t, y)
    ensures TimeFirst(t, y) != "" && TimeFirst(t, y)[0] != '@'
  {
    hide FromZone;
    hide TailOk;
    hide YearFirstText;
    assert TimeFirst(t, y)[0] == Two(t.hour)[0];
  }

  const LAST_DAY: Stamp := Stamp(Date(2099, 12, 31), 12, 0, 0, false, 0, 0)

  /** In 1970, noon of 31 December 2099 is read when the date comes first, and not when the time does. */
  lemma FarFutureExample(n: nat, env: Env)
    requires DateOf(n) == LAST_DAY.date && env.now == 0 && env.nowTm.Some?
    ensures Expressible(LAST_DAY, FULL)
    ensures ParseDate(DateFirst(LAST_DAY, FULL), env) == Some((LocalSeconds(n, LAST_DAY), 0))
    ensures ParseDate(TimeFirst(LAST_DAY, FULL), env) == None
  {
    hide ParseDate;
    hide DateFirst;
    hide TimeFirst;
    hide Text;
    hide DateOf;
    hide SystemOffset;
    hide Words;
    LastDayFacts(n);
    YearFirstParses(n, LAST_DAY, FULL, env);
    TimeFirstParses(n, 0, LAST_DAY, FULL, env);
  }

  lemma LastDayFacts(n: nat)
    requires DateOf(n) == LAST_DAY.date
    ensures Expressible(LAST_DAY, FULL) && 365 * 129 <= n && Offset(LAST_DAY) == 0
    ensures KeepsFields(LAST_DAY, FULL) && TailMonth(Words(FULL.tail), -1) == -1
  {
    hide DateOf;
    DayNumberCounts(n);
  }
}
