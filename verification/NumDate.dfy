/** Numbers in dates: what a bare one is taken for, numeric dates, raw timestamps, and the twelve-hour clock. */
module NumDate {
  import opened Strings
  import opened Calendar
  import opened DateParse
  import opened Rfc2822
  import opened ZoneWords
  import opened IsoDate
  import opened ObsDate

  // ---------------------------------------------------------------- AM and PM

  /** The hour on the twelve-hour clock: 12 AM is midnight, and an hour from 13 on loses or keeps its half day. */
  lemma AmPmToken(w: string, rest: string, f: Found, env: Env)
    requires (SameLetters(w, "AM") || SameLetters(w, "PM")) && WordEnds(rest) && 0 <= f.tm.hour < 24
    ensures var h := if f.tm.hour < 12 then f.tm.hour else f.tm.hour - 12;
      Token(w + rest, f, env) == (2, f.(tm := f.tm.(hour := if SameLetters(w, "PM") then h + 12 else h)))
  {
    hide Token;
    hide Kind;
    assert "AM"[0] == 'A' && "PM"[0] == 'P' && "NT"[0] == 'N' && "Z"[0] == 'Z' && |"Z"| == 1;
    assert AllAlpha(w) && |w| == 2;
    assert forall name :: SameLetters(w, name) ==> |name| == 2 && Upper(w[0]) == Upper(name[0]);
    ShortWord(w);
    WordToken(w, rest, f, env);
  }

  // ---------------------------------------------------------------- a number by itself

  predicate NumberMark(c: char) { c == ':' || DateMark(c) }

  /** Neither a digit comes next, nor a mark and a digit. */
  predicate Alone(rest: string) {
    !IsDigit(At(rest, 0)) && (rest != "" && NumberMark(rest[0]) ==> !IsDigit(At(rest, 1)))
  }

  /** One or two digits: the day if there is none yet, else perhaps a year after the day, else a month. */
  lemma NumberToken(v: nat, padded: bool, rest: string, f: Found, env: Env)
    requires v < 100 && (padded || v < 10) && Alone(rest)
    ensures Token(DayText(v, padded) + rest, f, env) == (if padded then 2 else 1,
      if 1 <= v <= 31 && f.tm.mday < 0 then f.(tm := f.tm.(mday := v))
      else if padded && f.tm.year < 0 && f.tm.mday >= 0 && v < 10 then f.(tm := f.tm.(year := 2000 - 1900 + v))
      else if padded && f.tm.year < 0 && 70 <= v then f.(tm := f.tm.(year := v))
      else if 1 <= v <= 12 && f.tm.mon < 0 then f.(tm := f.tm.(mon := v - 1))
      else f)
  {
    hide Number;
    hide DigitRun;
    var s := DayText(v, padded) + rest;
    if padded {
      TwoDigits(v, rest);
    } else {
      OneDigit(s);
    }
  }

  /** Four digits: a zone up to 1400 hours if there is none yet, else a year of 1901-2099. */
  lemma FourToken(v: nat, rest: string, f: Found, env: Env)
    requires v < 10000 && Alone(rest)
    ensures Token(Two(v / 100) + Two(v % 100) + rest, f, env) == (4,
      if v <= 1400 && f.offset == -1 then f.(offset := v / 100 * 60 + v % 100)
      else if 1901 <= v <= 2099 then f.(tm := f.tm.(year := v - 1900))
      else f)
  {
    hide Number;
    hide DigitRun;
    FourDigits(v, rest);
  }

  /** What n digits are worth is what the parser reads them as. */
  lemma DigitsRead(d: string, rest: string)
    requires d != "" && AllDigits(d) && !IsDigit(At(rest, 0))
    ensures DigitRun(d + rest) == |d| && Number(d + rest, |d|, 0) == Number(d, |d|, 0)
    ensures IsDigit((d + rest)[0]) && At(d + rest, |d|) == At(rest, 0)
    ensures rest != "" ==> At(d + rest, |d| + 1) == At(rest, 1)
  {
    DigitRunExact(d, rest);
    NumberExact(d, rest, 0);
  }

  /** strtoul stops at the largest value. */
  function Saturated(v: nat): nat { if v > 0xffff_ffff_ffff_ffff then 0xffff_ffff_ffff_ffff else v }

  /**
    Three digits, or five and more that are no timestamp the system can break down, or that come after a part of a
    date or time, are skipped.
  */
  lemma SkippedToken(d: string, rest: string, f: Found, env: Env)
    requires AllDigits(d) && 3 <= |d| && |d| != 4 && Alone(rest)
    requires || Number(d, |d|, 0) < 100000000 || env.gmtime(Saturated(Number(d, |d|, 0))).None?
             || 0 <= f.tm.year || 0 <= f.tm.mon || 0 <= f.tm.mday
             || 0 <= f.tm.hour || 0 <= f.tm.min || 0 <= f.tm.sec
    ensures Token(d + rest, f, env) == (|d|, f)
  {
    hide Number;
    hide DigitRun;
    hide AllDigits;
    hide MatchMultiNumber;
    hide MatchAlpha;
    hide MatchTz;
    DigitsRead(d, rest);
  }

  /** A signed number of other than two or four digits is no zone. */
  lemma OddZoneToken(minus: bool, d: string, rest: string, f: Found, env: Env)
    requires AllDigits(d) && (|d| == 1 || |d| == 3) && Separated(rest)
    ensures Token([if minus then '-' else '+'] + (d + rest), f, env) == (1 + |d|, f)
  {
    hide MatchAlpha;
    hide MatchDigit;
    hide DigitRun;
    hide Strtoul;
    var s := [if minus then '-' else '+'] + (d + rest);
    DigitsRead(d, rest);
    FewDigits(d);
    Strto(d + rest);
    assert s[1..] == d + rest && s[1] == (d + rest)[0];
  }

  lemma FewDigits(d: string)
    requires AllDigits(d) && (|d| == 1 || |d| == 3)
    ensures Number(d, |d|, 0) < 1000
  {
    if |d| == 1 {
      assert Number(d[1..], 0, DigitVal(d[0])) == DigitVal(d[0]);
    } else {
      NumberFrom(d[1..], DigitVal(d[0]));
      assert d == [d[0]] + d[1..] && AllDigits(d[1..]);
      assert Number(d, 3, 0) == Number(d[1..], 2, DigitVal(d[0]));
    }
  }

  /** What stands behind the first and the second of two marks. */
  lemma Behind(head: string, c: char, x: string, c': char, rest: string)
    requires |x| == 2
    ensures var s, n := head + ([c] + (x + ([c'] + rest))), |head|;
      n + 3 < |s| && s[n] == c && s[n + 3] == c' && s[n + 1..] == x + ([c'] + rest) && s[n + 4..] == rest
  {
    var s, tail := head + ([c] + (x + ([c'] + rest))), x + ([c'] + rest);
    assert s[|head|..] == [c] + tail && s[|head| + 1..] == tail;
    assert tail[2..] == [c'] + rest && tail[3..] == rest;
  }

  // ---------------------------------------------------------------- the time of day

  /** What the parser takes for a time: 24 hours and a leap second included. */
  predicate IsClock(h: nat, m: nat, sec: nat) { h < 25 && m < 60 && sec <= 60 }

  lemma ClockRead(s: string, h: nat, m: nat, sec: nat, seconds: bool, env: Env, tm: Tm)
    requires 5 <= |s| && s[2] == ':' && Strtol(s[3..]) == (m, 2) && h < 100 && m < 100 && sec < 100
    requires if seconds then 8 <= |s| && s[5] == ':' && IsDigit(s[6]) && Strtol(s[6..]) == (sec, 2)
             else sec == 0 && (At(s, 5) == ':' ==> !IsDigit(At(s, 6)))
    ensures MatchMultiNumber(h, ':', s, 2, env, tm) ==
      if IsClock(h, m, sec) then (if seconds then 8 else 5, tm.(hour := h, min := m, sec := sec)) else (0, tm)
  {
    hide Strtol;
    hide FirstDate;
  }

  /** hh:mm[:ss] is taken as a time exactly when it can be one; otherwise its hour is read as a bare number. */
  lemma ClockIff(h: nat, m: nat, sec: nat, seconds: bool, rest: string, f: Found, env: Env)
    requires h < 100 && m < 100 && sec < 100 && (seconds || sec == 0) && Alone(rest)
    ensures Token(ClockText(h, m, sec, seconds) + rest, f, env) ==
      if IsClock(h, m, sec) then
        (if seconds then 8 else 5, f.(tm := f.tm.(hour := h, min := m, sec := sec)))
      else Token(Two(h) + " ", f, env)
  {
    hide Number;
    hide DigitRun;
    hide Strtol;
    hide MatchMultiNumber;
    hide GuessNumber;
    hide Two;
    hide ClockText;
    ClockNumbersAny(h, m, sec, seconds, rest);
    TwoDigits(h, " ");
    ClockRead(ClockText(h, m, sec, seconds) + rest, h, m, sec, seconds, env, f.tm);
  }

  lemma ClockNumbersAny(h: nat, m: nat, sec: nat, seconds: bool, rest: string)
    requires h < 100 && m < 100 && sec < 100 && (seconds || sec == 0) && Alone(rest)
    ensures var s := ClockText(h, m, sec, seconds) + rest;
      && 5 <= |s| && DigitRun(s) == 2 && Number(s, 2, 0) == h && IsDigit(s[0]) && s[2] == ':' && IsDigit(s[3])
      && Strtol(s[3..]) == (m, 2)
      && (if seconds then 8 <= |s| && s[5] == ':' && IsDigit(s[6]) && Strtol(s[6..]) == (sec, 2)
          else At(s, 5) == ':' ==> !IsDigit(At(s, 6)))
  {
    hide Number;
    hide DigitRun;
    hide Strtol;
    hide Two;
    var s := ClockText(h, m, sec, seconds) + rest;
    var tail := if seconds then [':'] + (Two(sec) + rest) else rest;
    assert s == Two(h) + ([':'] + (Two(m) + tail));
    TwoDigits(h, [':'] + (Two(m) + tail));
    assert s[3..] == Two(m) + tail && s[2] == ':';
    TwoDigits(m, tail);
    Strto(s[3..]);
    if seconds {
      Behind(Two(h), ':', Two(m), ':', Two(sec) + rest);
      TwoDigits(sec, rest);
      Strto(s[6..]);
    } else {
      assert s[5..] == rest;
      assert At(s, 5) == At(rest, 0) && (rest != "" ==> At(s, 6) == At(rest, 1));
    }
  }

  // ---------------------------------------------------------------- numeric dates

  predicate DateMark(c: char) { c == '/' || c == '.' || c == '-' }

  /** a, b and a year, with the same mark between them. */
  function NumericText(a: nat, b: nat, c: char, year: nat, short: bool): string
    requires a < 100 && b < 100 && year < 10000
  {
    Two(a) + ([c] + (Two(b) + ([c] + YearText(year, short))))
  }

  /** The years a numeric date can have in two digits. */
  predicate NumericYear(year: nat) { 1971 <= year <= 1999 || 2000 <= year <= 2037 }

  /** A two-digit year stands for itself after 1900 from 71 on, and after 2000 up to 37. */
  lemma ShortYearTry(yy: nat, month: int, day: int, env: Env, tm: Tm)
    requires yy < 100 && env.nowTm.Some?
    ensures TryDate(yy, month, day, env, tm) ==
      if yy < 38 then TryDate(2000 + yy, month, day, env, tm)
      else if 70 < yy then TryDate(1900 + yy, month, day, env, tm)
      else (false, tm)
  {
    hide TmToTime;
  }

  lemma YearValue(year: nat, short: bool, rest: string)
    requires 1970 <= year <= 2099 && !IsDigit(At(rest, 0))
    ensures var s := YearText(year, short) + rest;
      s != "" && IsDigit(s[0]) && Strtol(s) == (if short then year % 100 else year, if short then 2 else 4)
  {
    hide Number;
    hide DigitRun;
    hide Strtol;
    hide Two;
    if short {
      TwoDigits(year % 100, rest);
    } else {
      FourDigits(year, rest);
    }
    Strto(YearText(year, short) + rest);
  }

  /** Two readings, the second with day and month exchanged; a number of used characters if one is a date. */
  function EitherDate(first: (bool, Tm), second: (bool, Tm), used: nat, tm: Tm): (nat, Tm) {
    if first.0 then (used, first.1) else if second.0 then (used, second.1) else (0, tm)
  }

  /** The three numbers of a numeric date are tried with the month first, or with the day first after dots. */
  lemma ThreeRead(s: string, a: nat, b: nat, c: char, v: nat, used: nat, env: Env, tm: Tm)
    requires 6 < |s| && s[2] == c && s[5] == c && IsDigit(s[6]) && DateMark(c) && env.nowTm.Some?
    requires Strtol(s[3..]) == (b, 2) && Strtol(s[6..]) == (v, used) && a < 70 && b < 100 && v < 10000
    ensures var monthFirst, dayFirst := TryDate(v, a, b, env, tm), TryDate(v, b, a, env, tm);
      MatchMultiNumber(a, c, s, 2, env, tm) ==
      if c == '.' then EitherDate(dayFirst, monthFirst, 6 + used, tm)
      else EitherDate(monthFirst, dayFirst, 6 + used, tm)
  {
    hide Strtol;
    hide FirstDate;
    hide TryDate;
    TwoReadings((v, a, b), (v, b, a), c, env, tm);
  }

  lemma NumericReadings(a: nat, b: nat, c: char, year: nat, short: bool, rest: string, env: Env, tm: Tm)
    requires a < 70 && b < 100 && 1970 <= year <= 2099 && DateMark(c) && !IsDigit(At(rest, 0)) && env.nowTm.Some?
    ensures var s, v := NumericText(a, b, c, year, short) + rest, if short then year % 100 else year;
      var monthFirst, dayFirst := TryDate(v, a, b, env, tm), TryDate(v, b, a, env, tm);
      && |s| > 3 && DigitRun(s) == 2 && Number(s, 2, 0) == a && s[2] == c && IsDigit(s[3])
      && MatchMultiNumber(a, c, s, 2, env, tm) ==
         if c == '.' then EitherDate(dayFirst, monthFirst, if short then 8 else 10, tm)
         else EitherDate(monthFirst, dayFirst, if short then 8 else 10, tm)
  {
    hide Number;
    hide DigitRun;
    hide Strtol;
    hide MatchMultiNumber;
    hide EitherDate;
    hide TryDate;
    hide Two;
    hide YearText;
    var v := if short then year % 100 else year;
    var yearText := YearText(year, short) + rest;
    var s := NumericText(a, b, c, year, short) + rest;
    var tail := [c] + yearText;
    assert s == Two(a) + ([c] + (Two(b) + tail));
    TwoDigits(a, [c] + (Two(b) + tail));
    assert s[3..] == Two(b) + tail && s[2] == c;
    TwoDigits(b, tail);
    Strto(s[3..]);
    assert s[6..] == yearText && s[5] == c;
    YearValue(year, short, rest);
    assert s[6] == yearText[0];
    ThreeRead(s, a, b, c, v, if short then 2 else 4, env, tm);
  }

  lemma TwoReadings(x: (int, int, int), y: (int, int, int), c: char, env: Env, tm: Tm)
    requires env.nowTm.Some? && y == (x.0, x.2, x.1)
    requires 0 <= x.0 < 10000 && 0 <= x.1 < 10000 && 0 <= x.2 < 10000
    ensures FirstDate([] + (if c != '.' then [x] else []) + [y] + (if c == '.' then [x] else []), env, tm) ==
      var first := if c == '.' then TryDate(y.0, y.1, y.2, env, tm) else TryDate(x.0, x.1, x.2, env, tm);
      var second := if c == '.' then TryDate(x.0, x.1, x.2, env, tm) else TryDate(y.0, y.1, y.2, env, tm);
      if first.0 then first else if second.0 then second else (false, tm)
  {
    hide TryDate;
    hide FirstDate;
    var p, q := if c == '.' then y else x, if c == '.' then x else y;
    assert [] + (if c != '.' then [x] else []) + [y] + (if c == '.' then [x] else []) == [p, q];
    NextTry([p, q], env, tm);
    assert [p, q][1..] == [q];
    NextTry([q], env, tm);
    assert [q][1..] == [];
    NoReadings(env, tm);
  }

  /** Before the time of day is known, any month and day up to 31 of a covered year will do. */
  lemma UntimedTry(year: nat, month: int, day: int, env: Env, tm: Tm)
    requires 1970 <= year <= 2099 && HasClock(env) && tm.hour < 0
    ensures TryDate(year, month, day, env, tm) ==
      if 1 <= month <= 12 && 1 <= day <= 31 then (true, tm.(year := year - 1900, mon := month - 1, mday := day))
      else (false, tm)
  {
    hide TmDays;
  }

  /** Without a year only month and day are taken, in the year of the system clock. */
  lemma YearlessTry(month: int, day: int, env: Env, tm: Tm)
    requires HasClock(env) && tm.hour < 0
    ensures TryDate(-1, month, day, env, tm) ==
      if 1 <= month <= 12 && 1 <= day <= 31 then (true, tm.(mon := month - 1, mday := day)) else (false, tm)
  {
    hide TmDays;
  }

  lemma UntimedYear(year: nat, short: bool, month: int, day: int, env: Env, tm: Tm)
    requires 1970 <= year <= 2099 && HasClock(env) && tm.hour < 0 && (short ==> NumericYear(year))
    ensures TryDate(if short then year % 100 else year, month, day, env, tm) ==
      if 1 <= month <= 12 && 1 <= day <= 31 then (true, tm.(year := year - 1900, mon := month - 1, mday := day))
      else (false, tm)
  {
    hide TryDate;
    UntimedTry(year, month, day, env, tm);
    if short {
      ShortYearTry(year % 100, month, day, env, tm);
    }
  }

  predicate MonthAndDay(month: int, day: int) { 1 <= month <= 12 && 1 <= day <= 31 }

  /**
    A numeric date before the time: the month is the first number, after dots the second, where that can be; if
    neither can be, the first number is read by itself.
  */
  lemma NumericToken(a: nat, b: nat, c: char, year: nat, short: bool, rest: string, f: Found, env: Env)
    requires a < 70 && b < 100 && DateMark(c) && !IsDigit(At(rest, 0))
    requires 1970 <= year <= 2099 && (short ==> NumericYear(year)) && HasClock(env) && f.tm.hour < 0
    ensures var monthFirst := MonthAndDay(a, b) && (c != '.' || !MonthAndDay(b, a));
      Token(NumericText(a, b, c, year, short) + rest, f, env) ==
      if MonthAndDay(a, b) || MonthAndDay(b, a) then
        (if short then 8 else 10,
         f.(tm := f.tm.(year := year - 1900, mon := (if monthFirst then a else b) - 1,
                        mday := if monthFirst then b else a)))
      else Token(Two(a) + " ", f, env)
  {
    hide Number;
    hide DigitRun;
    hide MatchMultiNumber;
    hide GuessNumber;
    hide TryDate;
    hide NumericText;
    TwoDigits(a, " ");
    NumericReadings(a, b, c, year, short, rest, env, f.tm);
    UntimedYear(year, short, a, b, env, f.tm);
    UntimedYear(year, short, b, a, env, f.tm);
  }

  lemma YearFirstRead(s: string, n: nat, v: nat, m: nat, d: nat, c: char, env: Env, tm: Tm)
    requires n + 4 < |s| && s[n] == c && s[n + 3] == c && IsDigit(s[n + 4]) && DateMark(c) && env.nowTm.Some?
    requires Strtol(s[n + 1..]) == (m, 2) && Strtol(s[n + 4..]) == (d, 2) && 70 < v < 10000 && m < 100 && d < 100
    requires TryDate(v, m, d, env, tm).0
    ensures MatchMultiNumber(v, c, s, n, env, tm) == (n + 6, TryDate(v, m, d, env, tm).1)
  {
    hide Strtol;
    hide FirstDate;
    hide TryDate;
    var tries := [(v, m, d), (v, d, m)] + (if c != '.' then [(d, v, m)] else []) + [(d, m, v)]
      + (if c == '.' then [(d, v, m)] else []);
    NextTry(tries, env, tm);
  }

  function YearFirstMarked(year: nat, short: bool, m: nat, d: nat, c: char, rest: string): string
    requires year < 10000 && m < 100 && d < 100
  {
    YearText(year, short) + ([c] + (Two(m) + ([c] + (Two(d) + rest))))
  }

  lemma YearFirstNumbers(year: nat, short: bool, m: nat, d: nat, c: char, rest: string)
    requires year < 10000 && m < 100 && d < 100 && DateMark(c) && !IsDigit(At(rest, 0))
    ensures var s, n := YearFirstMarked(year, short, m, d, c, rest), if short then 2 else 4;
      && n + 4 < |s| && s[n] == c && s[n + 3] == c && IsDigit(s[n + 1]) && IsDigit(s[n + 4])
      && DigitRun(s) == n && Number(s, n, 0) == (if short then year % 100 else year)
      && Strtol(s[n + 1..]) == (m, 2) && Strtol(s[n + 4..]) == (d, 2)
  {
    hide Number;
    hide DigitRun;
    hide Strtol;
    hide Two;
    hide YearText;
    var n, day := if short then 2 else 4, Two(d) + rest;
    var s, tail := YearFirstMarked(year, short, m, d, c, rest), Two(m) + ([c] + day);
    YearDigits(year, short, [c] + tail);
    Behind(YearText(year, short), c, Two(m), c, day);
    TwoDigits(m, [c] + day);
    Strto(tail);
    TwoDigits(d, rest);
    Strto(day);
  }

  lemma YearDigits(year: nat, short: bool, rest: string)
    requires year < 10000 && !IsDigit(At(rest, 0))
    ensures var s := YearText(year, short) + rest;
      && |YearText(year, short)| == (if short then 2 else 4) == DigitRun(s)
      && Number(s, if short then 2 else 4, 0) == (if short then year % 100 else year)
  {
    hide Number;
    hide DigitRun;
    hide Two;
    if short {
      TwoDigits(year % 100, rest);
    } else {
      FourDigits(year, rest);
    }
  }

  /** A year first, in four digits or, from 71 on, in two: month and day follow, whatever the mark. */
  lemma YearFirstToken(year: nat, short: bool, m: nat, d: nat, c: char, rest: string, f: Found, env: Env)
    requires 1970 <= year <= 2099 && (short ==> 1971 <= year <= 1999) && MonthAndDay(m, d)
    requires DateMark(c) && !IsDigit(At(rest, 0)) && HasClock(env) && f.tm.hour < 0
    ensures Token(YearFirstMarked(year, short, m, d, c, rest), f, env) ==
      (if short then 8 else 10, f.(tm := f.tm.(year := year - 1900, mon := m - 1, mday := d)))
  {
    hide Number;
    hide DigitRun;
    hide Strtol;
    hide MatchMultiNumber;
    hide TryDate;
    hide YearFirstMarked;
    var s, n := YearFirstMarked(year, short, m, d, c, rest), if short then 2 else 4;
    YearFirstNumbers(year, short, m, d, c, rest);
    UntimedYear(year, short, m, d, env, f.tm);
    YearFirstRead(s, n, if short then year % 100 else year, m, d, c, env, f.tm);
    YearFirstStarts(s, n);
  }

  lemma YearFirstStarts(s: string, n: nat)
    requires s != "" && DigitRun(s) == n && n > 0
    ensures IsDigit(s[0])
  {
  }

  /** A date-time with a numeric date in front. */
  function NumericFirst(t: Stamp, y: Style, c: char, dayFirst: bool, short: bool): string
    requires Expressible(t, y)
  {
    var d, m := t.date.day, t.date.month;
    NumericText(if dayFirst then d else m, if dayFirst then m else d, c, t.date.year, short)
      + (y.gaps.day + FromClock(t, y))
  }

  /** The order is the one the mark calls for, or the other one cannot be or does not matter. */
  predicate ReadStraight(d: Date, c: char, dayFirst: bool) { dayFirst == (c == '.') || 12 < d.day || d.day == d.month }

  /**
    dd.mm.yyyy, mm/dd/yyyy and mm-dd-yyyy, also with two-digit years of 1971-2037, are read like the form of
    RFC 2822. In the other order, so are the dates whose day is no month; the rest have day and month exchanged.
  */
  lemma NumericParses(t: Stamp, y: Style, c: char, dayFirst: bool, short: bool, env: Env)
    requires Expressible(t, y) && y.weekday.None? && DateMark(c) && HasClock(env)
    requires short ==> NumericYear(t.date.year)
    ensures if ReadStraight(t.date, c, dayFirst) then
        ParseDate(NumericFirst(t, y, c, dayFirst, short), env) == ParseDate(Text(t, y), env)
      else
        var swapped, padded := t.(date := Swapped(t.date)), y.(padded := true);
        && Expressible(swapped, padded)
        && ParseDate(NumericFirst(t, y, c, dayFirst, short), env) == ParseDate(Text(swapped, padded), env)
  {
    hide Token;
    hide Text;
    hide FromClock;
    hide ScanAll;
    hide TailOk;
    hide Conclude;
    hide Words;
    hide TailMonth;
    hide TailHour;
    hide TailWeekday;
    hide TailOffset;
    hide NumericText;
    var d := if ReadStraight(t.date, c, dayFirst) then t.date else Swapped(t.date);
    var a, b := if dayFirst then t.date.day else t.date.month, if dayFirst then t.date.month else t.date.day;
    var date, rest := NumericText(a, b, c, t.date.year, short), y.gaps.day + FromClock(t, y);
    var g := NOTHING.(tm := Dated(NOTHING.tm, d));
    GapSeparates(y.gaps.day, FromClock(t, y));
    NumericToken(a, b, c, t.date.year, short, rest, NOTHING, env);
    NumericStarts(a, b, c, t.date.year, short);
    Advance(date, rest, NOTHING, g, env);
    SkipBlank(y.gaps.day, FromClock(t, y), g, env);
    ScanClock(t, y, g, env);
    if d != t.date {
      SwappedIsDate(t.date);
      NoStampMark(t.(date := d), y.(padded := true));
      ScanText(t.(date := d), y.(padded := true), env);
    } else {
      NoStampMark(t, y);
      ScanText(t, y, env);
    }
  }

  lemma NumericStarts(a: nat, b: nat, c: char, year: nat, short: bool)
    requires a < 100 && b < 100 && year < 10000
    ensures var s := NumericText(a, b, c, year, short); |s| == (if short then 8 else 10) && IsDigit(s[0])
  {
  }

  // ---------------------------------------------------------------- raw timestamps

  /** The system breaks this instant down as the calendar does. */
  predicate Broken(n: nat, env: Env) { DayOf(n).year <= 2099 && env.gmtime(n) == Some(GmTime(n)) }

  /** A sign and four digits. */
  function SignedZone(minus: bool, zh: nat, zm: nat): string
    requires zh < 100 && zm < 100
  {
    [if minus then '-' else '+'] + Two(zh) + Two(zm)
  }

  function Minutes(minus: bool, zh: nat, zm: nat): int { if minus then -(zh * 60 + zm) else zh * 60 + zm }

  /** Nine digits and more are seconds since 1970, in UTC. */
  lemma RawToken(n: nat, rest: string, env: Env)
    requires 100000000 <= n <= LONG_MAX && env.gmtime(n).Some? && !IsDigit(At(rest, 0))
    ensures Token(Decimal(n) + rest, NOTHING, env)
         == (|Decimal(n)|, NOTHING.(tm := env.gmtime(n).value, gmt := true))
  {
    hide Number;
    hide DigitRun;
    hide Decimal;
    DigitsRead(Decimal(n), rest);
    ReadDecimal(n);
  }

  /** n, or n +hhmm, is the instant n; the zone is only passed on. */
  lemma RawParses(n: nat, gap: string, minus: bool, zh: nat, zm: nat, env: Env)
    requires 100000000 <= n <= LONG_MAX && Broken(n, env) && Blank(gap) && gap != "" && zh < 24 && zm < 60
    ensures ParseDate(Decimal(n), env) == Some((n, SystemOffset(GmTime(n), env)))
    ensures ParseDate(Decimal(n) + (gap + SignedZone(minus, zh, zm)), env) ==
      var off := Minutes(minus, zh, zm);
      Some((n, if off == -1 then SystemOffset(GmTime(n), env) else off))
  {
    hide Token;
    hide ScanAll;
    hide Decimal;
    hide GmTime;
    hide TmToTime;
    hide DateOf;
    hide Two;
    var stamp, zone := Decimal(n), SignedZone(minus, zh, zm);
    var f := NOTHING.(tm := GmTime(n), gmt := true);
    var g := f.(offset := Minutes(minus, zh, zm));
    TmToTimeInvertsGmTime(n);
    assert stamp == stamp + "" && IsDigit(stamp[0]);
    RawToken(n, "", env);
    Advance(stamp, "", NOTHING, f, env);
    ScanNothing(f, env);
    GapSeparates(gap, zone);
    RawToken(n, gap + zone, env);
    Advance(stamp, gap + zone, NOTHING, f, env);
    SkipBlank(gap, zone, f, env);
    ZoneToken(minus, zh, zm, "", f, env);
    assert zone + "" == zone;
    Advance(zone, "", f, g, env);
    ScanNothing(g, env);
  }

  lemma ScanNothing(f: Found, env: Env)
    ensures ScanAll("", f, env) == f
  {
  }

  // ---------------------------------------------------------------- timestamps as in commit headers

  /** @n +hhmm */
  function HeaderText(n: nat, minus: bool, zh: nat, zm: nat): string
    requires zh < 100 && zm < 100
  {
    "@" + (Decimal(n) + (" " + SignedZone(minus, zh, zm)))
  }

  lemma HeaderNumbers(n: nat, minus: bool, zh: nat, zm: nat)
    requires n <= LONG_MAX && zh < 100 && zm < 100
    ensures var s := Decimal(n) + (" " + SignedZone(minus, zh, zm));
      && |s| == |Decimal(n)| + 6 && Strtoul(s) == (n, |Decimal(n)|) && s[0] == Decimal(n)[0]
      && s[|Decimal(n)|] == ' ' && s[|Decimal(n)| + 1] == (if minus then '-' else '+')
      && Strtol(s[|Decimal(n)| + 2..]) == (zh * 100 + zm, 4)
  {
    hide Number;
    hide DigitRun;
    hide Decimal;
    hide Strtol;
    hide Strtoul;
    hide Two;
    var d, v := Decimal(n), zh * 100 + zm;
    var s := d + (" " + SignedZone(minus, zh, zm));
    DigitsRead(d, " " + SignedZone(minus, zh, zm));
    ReadDecimal(n);
    Strto(s);
    assert v / 100 == zh && v % 100 == zm;
    FourDigits(v, "");
    var digits := Two(zh) + Two(zm);
    assert Two(v / 100) + Two(v % 100) + "" == digits && s[|d| + 2..] == digits;
    Strto(digits);
  }

  /** Read at once, unless the first digit is a 9: the instant is n, and the zone is passed on as it is. */
  lemma HeaderParses(n: nat, minus: bool, zh: nat, zm: nat, env: Env)
    requires n <= LONG_MAX && zh < 100 && zm < 100 && Decimal(n)[0] != '9'
    ensures ParseDate(HeaderText(n, minus, zh, zm), env) == Some((n, Minutes(minus, zh, zm)))
  {
    hide ScanAll;
    hide Strtol;
    hide Strtoul;
    hide Decimal;
    hide Two;
    var s := Decimal(n) + (" " + SignedZone(minus, zh, zm));
    assert HeaderText(n, minus, zh, zm)[1..] == s;
    HeaderNumbers(n, minus, zh, zm);
    ZoneNumber(zh, zm);
  }

  lemma ZoneNumber(zh: nat, zm: nat)
    requires zh < 100 && zm < 100
    ensures var v := ToInt(zh * 100 + zm); CDiv(v, 100) * 60 + CRem(v, 100) == zh * 60 + zm
  {
    var v := zh * 100 + zm;
    assert v / 100 == zh && v % 100 == zm;
  }

  /** With a leading 9 the mark @ is skipped and the rest read as any other text. */
  lemma NineSkipped(n: nat, minus: bool, zh: nat, zm: nat, env: Env)
    requires zh < 100 && zm < 100 && Decimal(n)[0] == '9'
    ensures ParseDate(HeaderText(n, minus, zh, zm), env)
         == ParseDate(Decimal(n) + (" " + SignedZone(minus, zh, zm)), env)
  {
    hide ScanAll;
    hide Strtol;
    hide Strtoul;
    hide Decimal;
    hide Two;
    hide Conclude;
    var s := Decimal(n) + (" " + SignedZone(minus, zh, zm));
    assert HeaderText(n, minus, zh, zm) == ['@'] + s && (['@'] + s)[1..] == s && s[0] == '9';
    Skip('@', s, NOTHING, env);
  }

  /** A number below nine digits finds no month, and no clock. */
  lemma SmallNumber(n: nat, rest: string, env: Env)
    requires n < 100000000 && Separated(rest)
    ensures exists f :: Token(Decimal(n) + rest, NOTHING, env) == (|Decimal(n)|, f) && f.tm.mon == -1
  {
    hide Number;
    hide DigitRun;
    hide Decimal;
    DigitsRead(Decimal(n), rest);
    ReadDecimal(n);
  }

  /** A commit stamp is read as itself if and only if it does not start with a 9 or has at least nine digits. */
  lemma HeaderIff(n: nat, minus: bool, zh: nat, zm: nat, env: Env)
    requires n <= LONG_MAX && Broken(n, env) && zh < 24 && zm < 60 && Minutes(minus, zh, zm) != -1
    ensures ParseDate(HeaderText(n, minus, zh, zm), env) == Some((n, Minutes(minus, zh, zm)))
      <==> Decimal(n)[0] != '9' || 100000000 <= n
  {
    hide ParseDate;
    hide Decimal;
    hide HeaderText;
    hide SignedZone;
    hide Broken;
    if Decimal(n)[0] != '9' {
      HeaderParses(n, minus, zh, zm, env);
    } else {
      NineSkipped(n, minus, zh, zm, env);
      if 100000000 <= n {
        RawParses(n, " ", minus, zh, zm, env);
      } else {
        SmallFails(n, minus, zh, zm, env);
      }
    }
  }

  lemma SmallFails(n: nat, minus: bool, zh: nat, zm: nat, env: Env)
    requires n < 100000000 && zh < 24 && zm < 60
    ensures ParseDate(Decimal(n) + (" " + SignedZone(minus, zh, zm)), env) == None
  {
    hide Token;
    hide ScanAll;
    hide Decimal;
    hide Two;
    hide SystemOffset;
    var stamp, zone := Decimal(n), SignedZone(minus, zh, zm);
    SmallNumber(n, " " + zone, env);
    var f :| Token(stamp + (" " + zone), NOTHING, env) == (|stamp|, f) && f.tm.mon == -1;
    var g := f.(offset := Minutes(minus, zh, zm));
    assert IsDigit(stamp[0]);
    Advance(stamp, " " + zone, NOTHING, f, env);
    SkipBlank(" ", zone, f, env);
    ZoneToken(minus, zh, zm, "", f, env);
    assert zone + "" == zone;
    Advance(zone, "", f, g, env);
    ScanNothing(g, env);
  }

  /** Nine seconds past the epoch, as git writes it, is no date at all. */
  lemma NineExample(env: Env)
    ensures ParseDate("@9 +0000", env) == None
  {
    hide ParseDate;
    assert Decimal(9) == ['9'] && Two(0) == "00";
    assert SignedZone(false, 0, 0) == "+0000" && HeaderText(9, false, 0, 0) == "@9 +0000";
    NineSkipped(9, false, 0, 0, env);
    SmallFails(9, false, 0, 0, env);
  }
}
