/** The date-time form of section 3.3 of RFC 2822, and how the greedy parser reads it back. */
module Rfc2822 {
  import opened Strings
  import opened Calendar
  import opened DateParse

  // ---------------------------------------------------------------- names

  /** month-name of section 3.3, by the number of the month. */
  function MonthName(month: nat): (name: string)
    requires 1 <= month <= 12
    ensures |name| == 3
  {
    match month
    case 1 => "Jan"
    case 2 => "Feb"
    case 3 => "Mar"
    case 4 => "Apr"
    case 5 => "May"
    case 6 => "Jun"
    case 7 => "Jul"
    case 8 => "Aug"
    case 9 => "Sep"
    case 10 => "Oct"
    case 11 => "Nov"
    case 12 => "Dec"
  }

  /** day-name of section 3.3; the days are numbered from Sunday. */
  function DayName(day: nat): (name: string)
    requires day < 7
    ensures |name| == 3
  {
    match day
    case 0 => "Sun"
    case 1 => "Mon"
    case 2 => "Tue"
    case 3 => "Wed"
    case 4 => "Thu"
    case 5 => "Fri"
    case 6 => "Sat"
  }

  /** The names the parser knows start with those of the standard, in the same order. */
  lemma NamesOfStandard()
    ensures forall m :: 1 <= m <= 12 ==> StartsWith(MONTHS[m - 1], MonthName(m))
    ensures forall d :: 0 <= d < 7 ==> StartsWith(WEEKDAYS[d], DayName(d))
  {
  }

  lemma NamesAreWords(names: seq<string>, i: nat)
    requires (names == MONTHS || names == WEEKDAYS) && i < |names|
    ensures |names[i]| >= 3 && forall k :: 0 <= k < |names[i]| ==> IsAlpha(names[i][k])
  {
  }

  /** Two names differ within their first three letters. */
  predicate Differ(a: string, b: string)
    requires |a| >= 3 && |b| >= 3
  {
    Upper(a[0]) != Upper(b[0]) || Upper(a[1]) != Upper(b[1]) || Upper(a[2]) != Upper(b[2])
  }

  lemma MonthsDiffer(i: nat, j: nat)
    requires i < 12 && j < 12 && i != j
    ensures |MONTHS[i]| >= 3 && |MONTHS[j]| >= 3 && Differ(MONTHS[i], MONTHS[j])
  {
  }

  lemma WeekdaysDiffer(i: nat, j: nat)
    requires i < 7 && j < 7 && i != j
    ensures |WEEKDAYS[i]| >= 3 && |WEEKDAYS[j]| >= 3 && Differ(WEEKDAYS[i], WEEKDAYS[j])
  {
  }

  lemma MonthsAndWeekdaysDiffer(m: nat, w: nat)
    requires m < 12 && w < 7
    ensures |MONTHS[m]| >= 3 && |WEEKDAYS[w]| >= 3 && Differ(WEEKDAYS[w], MONTHS[m])
  {
  }

  // ---------------------------------------------------------------- matching an abbreviated name

  /** s starts with the three-letter abbreviation of a name, as a word of its own. */
  predicate Abbreviates(s: string, name: string) {
    && |name| >= 3 && |s| >= 3 && s[..3] == name[..3] && (|s| > 3 ==> !IsAlnum(s[3]))
    && forall k :: 0 <= k < |name| ==> IsAlpha(name[k])
  }

  lemma MatchesOwn(s: string, name: string)
    requires Abbreviates(s, name)
    ensures MatchString(s, name, 0) == 3
  {
    assert s[0] == s[..3][0] && s[1] == s[..3][1] && s[2] == s[..3][2];
    assert MatchString(s, name, 3) == 3;
    assert MatchString(s, name, 2) == 3;
    assert MatchString(s, name, 1) == 3;
  }

  lemma MissesOther(s: string, name: string, other: string)
    requires Abbreviates(s, name) && |other| >= 3 && Differ(name, other)
    ensures MatchString(s, other, 0) == 0
  {
    assert s[0] == s[..3][0] && s[1] == s[..3][1] && s[2] == s[..3][2];
    if Upper(s[0]) == Upper(other[0]) && Upper(s[1]) == Upper(other[1]) {
      assert MatchString(s, other, 2) == 0;
      assert MatchString(s, other, 1) == 0;
    } else if Upper(s[0]) == Upper(other[0]) {
      assert MatchString(s, other, 1) == 0;
    }
  }

  lemma {:induction false} FirstNameIs(s: string, names: seq<string>, i: nat, m: nat)
    requires i <= m <= |names|
    requires forall j :: i <= j < m ==> MatchString(s, names[j], 0) == 0
    requires m < |names| ==> MatchString(s, names[m], 0) >= 3
    ensures FirstName(s, names, i) == m
    decreases m - i
  {
    if i < m {
      FirstNameIs(s, names, i + 1, m);
    }
  }

  lemma MonthFound(s: string, m: nat)
    requires m < 12 && Abbreviates(s, MONTHS[m])
    ensures FirstName(s, MONTHS, 0) == m && MatchString(s, MONTHS[m], 0) == 3
  {
    hide MatchString;
    hide FirstName;
    forall j | 0 <= j < m ensures MatchString(s, MONTHS[j], 0) == 0 {
      MonthsDiffer(m, j);
      MissesOther(s, MONTHS[m], MONTHS[j]);
    }
    MatchesOwn(s, MONTHS[m]);
    FirstNameIs(s, MONTHS, 0, m);
  }

  /** s starts with this name, as a word of its own. */
  predicate Named(s: string, name: string) { StartsWith(s, name) && (|s| > |name| ==> !IsAlnum(s[|name|])) }

  lemma NamedAbbreviates(s: string, name: string, full: string)
    requires Named(s, name) && |name| == 3 && StartsWith(full, name)
    requires forall k :: 0 <= k < |full| ==> IsAlpha(full[k])
    ensures Abbreviates(s, full)
  {
  }

  lemma MonthToken(s: string, month: nat, f: Found, env: Env)
    requires 1 <= month <= 12 && Named(s, MonthName(month))
    ensures Token(s, f, env) == (3, f.(tm := f.tm.(mon := month - 1)))
  {
    hide MatchString;
    hide FirstName;
    hide MonthName;
    NamesOfStandard();
    NamesAreWords(MONTHS, month - 1);
    NamedAbbreviates(s, MonthName(month), MONTHS[month - 1]);
    assert s[0] == s[..3][0];
    MonthFound(s, month - 1);
  }

  lemma WeekdayToken(s: string, w: nat, f: Found, env: Env)
    requires w < 7 && Named(s, DayName(w))
    ensures Token(s, f, env) == (3, f.(tm := f.tm.(wday := w)))
  {
    hide MatchString;
    hide FirstName;
    hide DayName;
    NamesOfStandard();
    NamesAreWords(WEEKDAYS, w);
    NamedAbbreviates(s, DayName(w), WEEKDAYS[w]);
    assert s[0] == s[..3][0];
    forall j | 0 <= j < 12 ensures MatchString(s, MONTHS[j], 0) == 0 {
      MonthsAndWeekdaysDiffer(j, w);
      MissesOther(s, WEEKDAYS[w], MONTHS[j]);
    }
    forall j | 0 <= j < w ensures MatchString(s, WEEKDAYS[j], 0) == 0 {
      WeekdaysDiffer(w, j);
      MissesOther(s, WEEKDAYS[w], WEEKDAYS[j]);
    }
    MatchesOwn(s, WEEKDAYS[w]);
    FirstNameIs(s, MONTHS, 0, 12);
    FirstNameIs(s, WEEKDAYS, 0, w);
  }

  // ---------------------------------------------------------------- numbers

  /** Two digits, with a leading zero. */
  function Two(n: nat): (s: string)
    requires n < 100
    ensures |s| == 2 && IsDigit(s[0]) && IsDigit(s[1])
  {
    [Digit(n / 10), Digit(n % 10)]
  }

  lemma OneDigit(s: string)
    requires s != "" && IsDigit(s[0]) && !IsDigit(At(s, 1))
    ensures DigitRun(s) == 1 && Number(s, 1, 0) == DigitVal(s[0])
  {
    assert s[1..] == "" || s[1..][0] == s[1];
    assert DigitRun(s[1..]) == 0;
    assert Number(s[1..], 0, DigitVal(s[0])) == DigitVal(s[0]);
  }

  lemma TwoDigits(n: nat, rest: string)
    requires n < 100 && !IsDigit(At(rest, 0))
    ensures var s := Two(n) + rest; DigitRun(s) == 2 && Number(s, 2, 0) == n
  {
    var s := Two(n) + rest;
    assert s[2..] == rest && s[1..][1..] == rest;
    assert DigitRun(rest) == 0;
    assert DigitRun(s[1..]) == 1;
    assert Number(s[1..][1..], 0, n) == n;
    assert Number(s[1..], 1, n / 10) == n;
  }

  lemma FourDigits(n: nat, rest: string)
    requires n < 10000 && !IsDigit(At(rest, 0))
    ensures var s := Two(n / 100) + Two(n % 100) + rest; DigitRun(s) == 4 && Number(s, 4, 0) == n
  {
    var tail := Two(n % 100) + rest;
    var s := Two(n / 100) + Two(n % 100) + rest;
    assert s[1..][1..] == tail;
    TwoDigits(n % 100, rest);
    assert DigitRun(tail) == 2;
    assert DigitRun(s[1..]) == 3;
    NumberFrom(tail, n / 100);
    assert Number(s[1..], 3, n / 100 / 10) == n;
  }

  lemma NumberFrom(tail: string, high: nat)
    requires |tail| >= 2 && IsDigit(tail[0]) && IsDigit(tail[1])
    ensures Number(tail, 2, high) == high * 100 + DigitVal(tail[0]) * 10 + DigitVal(tail[1])
  {
    assert Number(tail[1..], 1, high * 10 + DigitVal(tail[0])) ==
           Number(tail[1..][1..], 0, (high * 10 + DigitVal(tail[0])) * 10 + DigitVal(tail[1]));
  }

  /** A number in the text that starts with a digit is read by strtol and strtoul alike. */
  lemma Strto(s: string)
    requires s != "" && IsDigit(s[0]) && Number(s, DigitRun(s), 0) <= LONG_MAX
    ensures Strtol(s) == (Number(s, DigitRun(s), 0), DigitRun(s))
    ensures Strtoul(s) == (Number(s, DigitRun(s), 0), DigitRun(s))
  {
    assert SpaceRun(s) == 0;
    assert s[0..] == s;
  }

  /** The next character is a separator that ends a number or a name. */
  predicate Separated(rest: string) { rest != "" && (rest[0] == ' ' || rest[0] == '\t' || rest[0] == ',') }

  function DayText(d: nat, padded: bool): (s: string)
    requires d < 100 && (padded || d < 10)
    ensures s != "" && |s| <= 2
  {
    if padded then Two(d) else [Digit(d)]
  }

  lemma DayToken(d: nat, padded: bool, rest: string, f: Found, env: Env)
    requires 1 <= d <= 31 && (padded || d < 10) && Separated(rest) && f.tm.mday < 0
    ensures Token(DayText(d, padded) + rest, f, env) == (|DayText(d, padded)|, f.(tm := f.tm.(mday := d)))
  {
    hide Number;
    hide DigitRun;
    var s := DayText(d, padded) + rest;
    if padded {
      TwoDigits(d, rest);
    } else {
      OneDigit(s);
    }
  }

  lemma YearToken(y: nat, rest: string, f: Found, env: Env)
    requires 1970 <= y <= 2099 && Separated(rest)
    ensures Token(Two(y / 100) + Two(y % 100) + rest, f, env) == (4, f.(tm := f.tm.(year := y - 1900)))
  {
    hide Number;
    hide DigitRun;
    FourDigits(y, rest);
  }

  function ClockText(h: nat, m: nat, sec: nat, seconds: bool): string
    requires h < 100 && m < 100 && sec < 100
  {
    Two(h) + ":" + Two(m) + if seconds then ":" + Two(sec) else ""
  }

  /** hh:mm[:ss] is taken whole, as a time. */
  ghost predicate ReadsClock(s: string, n: nat, h: nat, m: nat, sec: nat, env: Env, tm: Tm) {
    && n <= |s| && 5 <= |s| && DigitRun(s) == 2 && Number(s, 2, 0) == h && s[2] == ':' && IsDigit(s[3])
    && MatchMultiNumber(h, ':', s, 2, env, tm) == (n, tm.(hour := h, min := m, sec := sec))
  }

  lemma MinutesRead(h: nat, m: nat, rest: string, env: Env, tm: Tm)
    requires h < 24 && m < 60 && Separated(rest)
    ensures ReadsClock(Two(h) + (":" + (Two(m) + rest)), 5, h, m, 0, env, tm)
  {
    hide Number;
    hide DigitRun;
    hide Strtol;
    hide Two;
    hide FirstDate;
    var s := Two(h) + (":" + (Two(m) + rest));
    TwoDigits(h, ":" + (Two(m) + rest));
    assert s[3..] == Two(m) + rest && s[2] == ':';
    TwoDigits(m, rest);
    Strto(s[3..]);
  }

  lemma SecondsRead(h: nat, m: nat, sec: nat, rest: string, env: Env, tm: Tm)
    requires h < 24 && m < 60 && sec <= 60 && Separated(rest)
    ensures ReadsClock(Two(h) + (":" + (Two(m) + (":" + (Two(sec) + rest)))), 8, h, m, sec, env, tm)
  {
    hide Number;
    hide DigitRun;
    hide Strtol;
    hide Two;
    hide FirstDate;
    var tail := ":" + (Two(sec) + rest);
    var s := Two(h) + (":" + (Two(m) + tail));
    TwoDigits(h, ":" + (Two(m) + tail));
    assert s[3..] == Two(m) + tail && s[2] == ':';
    TwoDigits(m, tail);
    Strto(s[3..]);
    assert s[6..] == Two(sec) + rest && s[5] == ':';
    TwoDigits(sec, rest);
    Strto(s[6..]);
  }

  lemma ClockNumbers(h: nat, m: nat, sec: nat, seconds: bool, rest: string, env: Env, tm: Tm)
    requires h < 24 && m < 60 && sec <= 60 && (seconds || sec == 0) && Separated(rest)
    ensures ReadsClock(ClockText(h, m, sec, seconds) + rest, |ClockText(h, m, sec, seconds)|, h, m, sec, env, tm)
  {
    hide ReadsClock;
    hide Two;
    if seconds {
      SecondsRead(h, m, sec, rest, env, tm);
      assert ClockText(h, m, sec, true) + rest == Two(h) + (":" + (Two(m) + (":" + (Two(sec) + rest))));
    } else {
      MinutesRead(h, m, rest, env, tm);
      assert ClockText(h, m, sec, false) + rest == Two(h) + (":" + (Two(m) + rest));
    }
  }

  lemma ClockToken(h: nat, m: nat, sec: nat, seconds: bool, rest: string, f: Found, env: Env)
    requires h < 24 && m < 60 && sec <= 60 && (seconds || sec == 0) && Separated(rest)
    ensures Token(ClockText(h, m, sec, seconds) + rest, f, env)
         == (|ClockText(h, m, sec, seconds)|, f.(tm := f.tm.(hour := h, min := m, sec := sec)))
  {
    hide Number;
    hide DigitRun;
    hide MatchMultiNumber;
    hide Two;
    hide GuessNumber;
    ClockNumbers(h, m, sec, seconds, rest, env, f.tm);
  }

  lemma ZoneToken(minus: bool, zh: nat, zm: nat, rest: string, f: Found, env: Env)
    requires zh < 24 && zm < 60 && !IsDigit(At(rest, 0))
    ensures Token([if minus then '-' else '+'] + Two(zh) + Two(zm) + rest, f, env)
         == (5, f.(offset := if minus then -(zh * 60 + zm) else zh * 60 + zm))
  {
    hide Number;
    hide DigitRun;
    hide MatchAlpha;
    hide MatchDigit;
    hide Strtoul;
    hide Two;
    var s := [if minus then '-' else '+'] + Two(zh) + Two(zm) + rest;
    var n := zh * 100 + zm;
    FourDigits(n, rest);
    assert s[1..] == Two(n / 100) + Two(n % 100) + rest;
    Strto(s[1..]);
  }

  /** The other zone forms: +hh, and +hh:mm. */
  lemma ShortZoneToken(minus: bool, zh: nat, rest: string, f: Found, env: Env)
    requires zh < 100 && !IsDigit(At(rest, 0)) && At(rest, 0) != ':'
    ensures Token([if minus then '-' else '+'] + Two(zh) + rest, f, env)
         == (3, if zh < 24 then f.(offset := if minus then -(zh * 60) else zh * 60) else f)
  {
    hide Number;
    hide DigitRun;
    hide MatchAlpha;
    hide MatchDigit;
    hide Strtoul;
    hide Two;
    var s := [if minus then '-' else '+'] + Two(zh) + rest;
    TwoDigits(zh, rest);
    assert s[1..] == Two(zh) + rest;
    Strto(s[1..]);
  }

  lemma ColonZoneToken(minus: bool, zh: nat, zm: nat, rest: string, f: Found, env: Env)
    requires zh < 100 && zm < 100 && !IsDigit(At(rest, 0))
    ensures Token([if minus then '-' else '+'] + Two(zh) + (":" + (Two(zm) + rest)), f, env)
         == (6, if zh < 24 && zm < 60 then f.(offset := if minus then -(zh * 60 + zm) else zh * 60 + zm) else f)
  {
    hide MatchAlpha;
    hide MatchDigit;
    hide MatchTz;
    hide Two;
    ColonZone([if minus then '-' else '+'] + Two(zh) + (":" + (Two(zm) + rest)), zh, zm, rest, f);
  }

  lemma ColonZone(s: string, zh: nat, zm: nat, rest: string, f: Found)
    requires zh < 100 && zm < 100 && !IsDigit(At(rest, 0)) && s != "" && (s[0] == '+' || s[0] == '-')
    requires s == [s[0]] + Two(zh) + (":" + (Two(zm) + rest))
    ensures MatchTz(s, f)
         == (6, if zh < 24 && zm < 60 then f.(offset := if s[0] == '-' then -(zh * 60 + zm) else zh * 60 + zm) else f)
  {
    hide Number;
    hide DigitRun;
    hide Strtoul;
    hide Two;
    hide MatchTz;
    var minutes := Two(zm) + rest;
    TwoDigits(zh, ":" + minutes);
    assert s[1..] == Two(zh) + (":" + minutes);
    Strto(s[1..]);
    assert s[3] == ':' && s[4..] == minutes;
    TwoDigits(zm, rest);
    Strto(s[4..]);
    ColonZoneRead(s, zh, zm, f);
  }

  lemma ColonZoneRead(s: string, zh: nat, zm: nat, f: Found)
    requires 6 <= |s| && zh < 100 && zm < 100 && (s[0] == '+' || s[0] == '-') && IsDigit(s[1]) && s[3] == ':'
    requires Strtoul(s[1..]) == (zh, 2) && Strtoul(s[4..]) == (zm, 2)
    ensures MatchTz(s, f)
         == (6, if zh < 24 && zm < 60 then f.(offset := if s[0] == '-' then -(zh * 60 + zm) else zh * 60 + zm) else f)
  {
    hide Strtoul;
    hide ToInt;
    SmallInt(zh);
    SmallInt(zm);
  }

  lemma SmallInt(v: nat)
    requires v < 0x8000_0000
    ensures ToInt(v) == v
  {
  }

  // ---------------------------------------------------------------- words

  predicate AllAlpha(w: string) { forall k :: 0 <= k < |w| ==> IsAlpha(w[k]) }

  /** A word is over where the text is, or at a character that no word has. */
  predicate WordEnds(rest: string) { rest == "" || !IsAlnum(rest[0]) }

  /** A name is matched by the whole word or not at all, whatever follows the word. */
  lemma {:induction false} MatchWord(w: string, rest: string, name: string, i: nat)
    requires AllAlpha(w) && AllAlpha(name) && WordEnds(rest) && i <= |w|
    ensures MatchString(w + rest, name, i) == MatchString(w, name, i)
    ensures MatchString(w, name, i) == 0 || MatchString(w, name, i) == |w|
    decreases |w| - i
  {
    if i < |w| {
      MatchWord(w, rest, name, i + 1);
    } else if rest != "" {
      assert (w + rest)[i] == rest[0];
    }
  }

  lemma ZonesAreWords(z: nat)
    requires z < ZONE_COUNT
    ensures AllAlpha(ZoneAt(z).name)
  {
  }

  lemma {:induction false} FirstNameOfWord(w: string, rest: string, names: seq<string>, i: nat)
    requires i <= |names| && AllAlpha(w) && WordEnds(rest)
    requires forall j :: 0 <= j < |names| ==> AllAlpha(names[j])
    ensures FirstName(w + rest, names, i) == FirstName(w, names, i)
    decreases |names| - i
  {
    hide MatchString;
    hide AllAlpha;
    if i < |names| {
      MatchWord(w, rest, names[i], 0);
      FirstNameOfWord(w, rest, names, i + 1);
    }
  }

  lemma ZoneHitOfWord(w: string, rest: string, z: nat)
    requires z < ZONE_COUNT && AllAlpha(w) && WordEnds(rest)
    ensures ZoneHit(w + rest, z) <==> ZoneHit(w, z)
  {
    hide MatchString;
    ZonesAreWords(z);
    MatchWord(w, rest, ZoneAt(z).name, 0);
  }

  lemma {:induction false} FirstZoneOfWord(w: string, rest: string, i: nat)
    requires i <= ZONE_COUNT && AllAlpha(w) && WordEnds(rest)
    ensures FirstZone(w + rest, i) == FirstZone(w, i)
    decreases ZONE_COUNT - i
  {
    hide ZoneHit;
    if i < ZONE_COUNT {
      ZoneHitOfWord(w, rest, i);
      FirstZoneOfWord(w, rest, i + 1);
    }
  }

  lemma {:induction false} AlphaRunOfWord(w: string, rest: string, i: nat)
    requires AllAlpha(w) && WordEnds(rest) && 0 < i <= |w|
    ensures AlphaRun(w + rest, i) == |w|
    decreases |w| - i
  {
    if i < |w| {
      AlphaRunOfWord(w, rest, i + 1);
    } else if rest != "" {
      assert (w + rest)[i] == rest[0];
    }
  }

  /** What a word of letters can be to the parser. */
  datatype WordKind = Month(m: nat) | Weekday(d: nat) | ZoneName(minutes: int) | Pm | Am | Unknown

  function Kind(w: string): WordKind {
    var m, d, z := FirstName(w, MONTHS, 0), FirstName(w, WEEKDAYS, 0), FirstZone(w, 0);
    if m < |MONTHS| then Month(m)
    else if d < |WEEKDAYS| then Weekday(d)
    else if z < ZONE_COUNT then ZoneName(60 * (ZoneAt(z).offset + ZoneAt(z).dst))
    else if MatchString(w, "PM", 0) == 2 then Pm
    else if MatchString(w, "AM", 0) == 2 then Am
    else Unknown
  }

  /** What a word changes; a zone name counts only while no zone was found. */
  function Apply(k: WordKind, f: Found): Found {
    match k
    case Month(m) => f.(tm := f.tm.(mon := m))
    case Weekday(d) => f.(tm := f.tm.(wday := d))
    case ZoneName(minutes) => if f.offset == -1 then f.(offset := minutes) else f
    case Pm => f.(tm := f.tm.(hour := CRem(f.tm.hour, 12) + 12))
    case Am => f.(tm := f.tm.(hour := CRem(f.tm.hour, 12)))
    case Unknown => f
  }

  /** Every word is taken whole, and does what it does on its own, whatever follows it. */
  lemma WordToken(w: string, rest: string, f: Found, env: Env)
    requires w != "" && AllAlpha(w) && WordEnds(rest)
    ensures Token(w + rest, f, env) == (|w|, Apply(Kind(w), f))
  {
    hide MatchAlpha;
    hide MatchDigit;
    hide MatchTz;
    hide Kind;
    WordMatched(w, rest, f);
  }

  lemma WordMatched(w: string, rest: string, f: Found)
    requires w != "" && AllAlpha(w) && WordEnds(rest)
    ensures MatchAlpha(w + rest, f) == (|w|, Apply(Kind(w), f))
  {
    hide MatchString;
    hide FirstName;
    hide FirstZone;
    hide AlphaRun;
    hide ZoneHit;
    hide CRem;
    SameKinds(w, rest);
    AlphaRunOfWord(w, rest, 1);
    WholeNames(w, rest);
  }

  lemma SameKinds(w: string, rest: string)
    requires AllAlpha(w) && WordEnds(rest)
    ensures FirstName(w + rest, MONTHS, 0) == FirstName(w, MONTHS, 0)
    ensures FirstName(w + rest, WEEKDAYS, 0) == FirstName(w, WEEKDAYS, 0)
    ensures FirstZone(w + rest, 0) == FirstZone(w, 0)
    ensures MatchString(w + rest, "PM", 0) == MatchString(w, "PM", 0)
    ensures MatchString(w + rest, "AM", 0) == MatchString(w, "AM", 0)
    ensures MatchString(w, "PM", 0) == 2 || MatchString(w, "AM", 0) == 2 ==> |w| == 2
  {
    hide MatchString;
    hide FirstName;
    hide FirstZone;
    NamesAllAlpha();
    FirstNameOfWord(w, rest, MONTHS, 0);
    FirstNameOfWord(w, rest, WEEKDAYS, 0);
    FirstZoneOfWord(w, rest, 0);
    MatchWord(w, rest, "PM", 0);
    MatchWord(w, rest, "AM", 0);
  }

  lemma NamesAllAlpha()
    ensures forall j :: 0 <= j < |MONTHS| ==> AllAlpha(MONTHS[j])
    ensures forall j :: 0 <= j < |WEEKDAYS| ==> AllAlpha(WEEKDAYS[j])
  {
    forall j | 0 <= j < |MONTHS| ensures AllAlpha(MONTHS[j]) {
      NamesAreWords(MONTHS, j);
    }
    forall j | 0 <= j < |WEEKDAYS| ensures AllAlpha(WEEKDAYS[j]) {
      NamesAreWords(WEEKDAYS, j);
    }
  }

  /** The name found is matched by the whole word. */
  lemma WholeNames(w: string, rest: string)
    requires AllAlpha(w) && WordEnds(rest)
    ensures var m := FirstName(w, MONTHS, 0); m < |MONTHS| ==> MatchString(w + rest, MONTHS[m], 0) == |w|
    ensures var d := FirstName(w, WEEKDAYS, 0); d < |WEEKDAYS| ==> MatchString(w + rest, WEEKDAYS[d], 0) == |w|
    ensures var z := FirstZone(w, 0); z < ZONE_COUNT ==> MatchString(w + rest, ZoneAt(z).name, 0) == |w|
  {
    hide MatchString;
    hide FirstName;
    hide FirstZone;
    NamesAllAlpha();
    var m, d, z := FirstName(w, MONTHS, 0), FirstName(w, WEEKDAYS, 0), FirstZone(w, 0);
    if m < |MONTHS| {
      MatchWord(w, rest, MONTHS[m], 0);
    }
    if d < |WEEKDAYS| {
      MatchWord(w, rest, WEEKDAYS[d], 0);
    }
    if z < ZONE_COUNT {
      ZonesAreWords(z);
      ZoneNamesNotEmpty(z);
      MatchWord(w, rest, ZoneAt(z).name, 0);
    }
  }

  // ---------------------------------------------------------------- the whole form

  /** A date-time of the years the closed form covers, in a zone of whole minutes. */
  datatype Stamp = Stamp(date: Date, hour: nat, min: nat, sec: nat, minus: bool, zh: nat, zm: nat)

  /** White space: before the text, after the comma, and after day, month, year and clock. */
  datatype Gaps = Gaps(lead: string, comma: string, day: string, month: string, year: string, clock: string)

  /**
    The choices the form leaves open: a day name, two digits for the day, seconds, white space, and what follows
    the zone, comments included.
  */
  datatype Style = Style(weekday: Option<nat>, padded: bool, seconds: bool, gaps: Gaps, tail: string)

  predicate Blank(s: string) { forall i :: 0 <= i < |s| ==> s[i] == ' ' || s[i] == '\t' }

  predicate GapsOk(g: Gaps) {
    && Blank(g.lead) && Blank(g.comma)
    && Blank(g.day) && g.day != "" && Blank(g.month) && g.month != ""
    && Blank(g.year) && g.year != "" && Blank(g.clock) && g.clock != ""
  }

  /** No digits in the rest of the line; what is on later lines does not matter. */
  predicate TailOk(tail: string) {
    tail == "" || tail[0] == '\n' || (!IsDigit(tail[0]) && tail[0] != NUL && TailOk(tail[1..]))
  }

  predicate Expressible(t: Stamp, y: Style) {
    && IsDate(t.date) && 1970 <= t.date.year <= 2099
    && t.hour < 24 && t.min < 60 && t.sec <= 60 && t.zh < 24 && t.zm < 60
    && (y.weekday.Some? ==> y.weekday.value < 7)
    && (y.padded || t.date.day < 10) && (y.seconds || t.sec == 0)
    && GapsOk(y.gaps) && TailOk(y.tail)
  }

  function ZoneText(t: Stamp): string
    requires t.zh < 24 && t.zm < 60
  {
    [if t.minus then '-' else '+'] + Two(t.zh) + Two(t.zm)
  }

  function FromZone(t: Stamp, y: Style): string
    requires Expressible(t, y)
  {
    ZoneText(t) + y.tail
  }

  function FromClock(t: Stamp, y: Style): string
    requires Expressible(t, y)
  {
    ClockText(t.hour, t.min, t.sec, y.seconds) + (y.gaps.clock + FromZone(t, y))
  }

  function FromYear(t: Stamp, y: Style): string
    requires Expressible(t, y)
  {
    Two(t.date.year / 100) + Two(t.date.year % 100) + (y.gaps.year + FromClock(t, y))
  }

  function FromMonth(t: Stamp, y: Style): string
    requires Expressible(t, y)
  {
    MonthName(t.date.month) + (y.gaps.month + FromYear(t, y))
  }

  function FromDay(t: Stamp, y: Style): string
    requires Expressible(t, y)
  {
    DayText(t.date.day, y.padded) + (y.gaps.day + FromMonth(t, y))
  }

  function FromWeekday(t: Stamp, y: Style): string
    requires Expressible(t, y)
  {
    match y.weekday
    case None => FromDay(t, y)
    case Some(w) => DayName(w) + ("," + (y.gaps.comma + FromDay(t, y)))
  }

  /** date-time = [ day-of-week "," ] date time, unfolded. */
  function Text(t: Stamp, y: Style): string
    requires Expressible(t, y)
  {
    y.gaps.lead + FromWeekday(t, y)
  }

  /** Minutes east of UTC. */
  function Offset(t: Stamp): int { if t.minus then -(t.zh * 60 + t.zm) else t.zh * 60 + t.zm }

  /** The clock reading as if it were UTC, on the n-th day from 1 January 1970. */
  function LocalSeconds(n: nat, t: Stamp): int { n * 86400 + t.hour * 3600 + t.min * 60 + t.sec }

  // ---------------------------------------------------------------- scanning it

  lemma Advance(tok: string, rest: string, f: Found, g: Found, env: Env)
    requires tok != "" && tok[0] != '\n' && Token(tok + rest, f, env) == (|tok|, g)
    ensures ScanAll(tok + rest, f, env) == ScanAll(rest, g, env)
  {
    hide Token;
    assert (tok + rest)[|tok|..] == rest;
  }

  lemma Skip(c: char, rest: string, f: Found, env: Env)
    requires !IsAlnum(c) && c != '\n' && (c == '+' || c == '-' ==> !IsDigit(At(rest, 0)))
    ensures ScanAll([c] + rest, f, env) == ScanAll(rest, f, env)
  {
    assert Token([c] + rest, f, env) == (1, f);
    Advance([c], rest, f, f, env);
  }

  lemma {:induction false} SkipBlank(gap: string, rest: string, f: Found, env: Env)
    requires Blank(gap)
    ensures ScanAll(gap + rest, f, env) == ScanAll(rest, f, env)
    decreases |gap|
  {
    hide ScanAll;
    if gap == "" {
      assert gap + rest == rest;
    } else {
      assert gap + rest == [gap[0]] + (gap[1..] + rest);
      Skip(gap[0], gap[1..] + rest, f, env);
      SkipBlank(gap[1..], rest, f, env);
    }
  }

  lemma GapSeparates(gap: string, rest: string)
    requires Blank(gap) && gap != ""
    ensures Separated(gap + rest)
  {
  }

  // ---------------------------------------------------------------- what follows the zone

  lemma {:induction false} AlphaRunEnds(s: string, i: nat)
    requires 0 < i <= |s| && AllAlpha(s[..i])
    ensures AllAlpha(s[..AlphaRun(s, i)]) && (AlphaRun(s, i) < |s| ==> !IsAlpha(s[AlphaRun(s, i)]))
    decreases |s| - i
  {
    if i < |s| && IsAlpha(s[i]) {
      assert s[..i + 1] == s[..i] + [s[i]];
      AlphaRunEnds(s, i + 1);
    }
  }

  /** The words of a line: its longest runs of letters. */
  function Words(tail: string): seq<string>
    decreases |tail|
  {
    if tail == "" || tail[0] == '\n' then []
    else if !IsAlpha(tail[0]) then Words(tail[1..])
    else
      var n := AlphaRun(tail, 1);
      [tail[..n]] + Words(tail[n..])
  }

  function AfterWords(words: seq<string>, f: Found): Found {
    if words == [] then f else AfterWords(words[1..], Apply(Kind(words[0]), f))
  }

  lemma {:induction false} TailOkAfter(tail: string, n: nat)
    requires TailOk(tail) && n <= |tail| && AllAlpha(tail[..n])
    ensures TailOk(tail[n..])
  {
    if n > 0 {
      assert tail[0] == tail[..n][0] && tail[1..][..n - 1] == tail[..n][1..] && tail[1..][n - 1..] == tail[n..];
      TailOkAfter(tail[1..], n - 1);
    }
  }

  /** A line without digits does what its words do, one after the other; what is on later lines is not read. */
  lemma {:induction false} ScanTail(tail: string, f: Found, env: Env)
    requires TailOk(tail)
    ensures ScanAll(tail, f, env) == AfterWords(Words(tail), f)
    decreases |tail|
  {
    hide Token;
    hide Apply;
    hide Kind;
    hide AlphaRun;
    if tail != "" && tail[0] != '\n' {
      if IsAlpha(tail[0]) {
        AlphaRunEnds(tail, 1);
        var n := AlphaRun(tail, 1);
        TailOkAfter(tail, n);
        var w, rest := tail[..n], tail[n..];
        assert tail == w + rest && (rest != "" ==> rest[0] == tail[n]);
        WordToken(w, rest, f, env);
        Advance(w, rest, f, Apply(Kind(w), f), env);
        ScanTail(rest, Apply(Kind(w), f), env);
      } else {
        assert tail == [tail[0]] + tail[1..];
        Skip(tail[0], tail[1..], f, env);
        ScanTail(tail[1..], f, env);
      }
    }
  }

  /** The month after the words: the last month they name. */
  function TailMonth(words: seq<string>, mon: int): int {
    if words == [] then mon
    else TailMonth(words[1..], match Kind(words[0]) case Month(m) => m case _ => mon)
  }

  /** The hour: each AM and PM takes it modulo 12, and PM adds 12. */
  function TailHour(words: seq<string>, hour: int): int {
    if words == [] then hour
    else
      TailHour(words[1..], match Kind(words[0])
                           case Pm => CRem(hour, 12) + 12
                           case Am => CRem(hour, 12)
                           case _ => hour)
  }

  function TailWeekday(words: seq<string>, wday: int): int {
    if words == [] then wday
    else TailWeekday(words[1..], match Kind(words[0]) case Weekday(d) => d case _ => wday)
  }

  /** The offset: the first zone they name, if there was no zone before. */
  function TailOffset(words: seq<string>, offset: int): int {
    if words == [] then offset
    else TailOffset(words[1..], match Kind(words[0])
                                case ZoneName(minutes) => if offset == -1 then minutes else offset
                                case _ => offset)
  }

  lemma {:induction false} AfterWordsParts(words: seq<string>, f: Found)
    ensures AfterWords(words, f) ==
      Found(f.tm.(mon := TailMonth(words, f.tm.mon), hour := TailHour(words, f.tm.hour),
                  wday := TailWeekday(words, f.tm.wday)),
            TailOffset(words, f.offset), f.gmt)
    decreases |words|
  {
    hide Kind;
    if words != [] {
      AfterWordsParts(words[1..], Apply(Kind(words[0]), f));
    }
  }

  lemma {:induction false} TailOffsetSet(words: seq<string>, offset: int)
    requires offset != -1
    ensures TailOffset(words, offset) == offset
  {
    hide Kind;
    if words != [] {
      TailOffsetSet(words[1..], offset);
    }
  }

  lemma {:induction false} TailOffsetUnset(words: seq<string>)
    ensures TailOffset(words, -1) == -1 || TailOffset(words, -1) % 60 == 0
  {
    hide FirstZone;
    hide FirstName;
    hide MatchString;
    if words != [] {
      match Kind(words[0])
      case ZoneName(minutes) => TailOffsetSet(words[1..], minutes);
      case _ => TailOffsetUnset(words[1..]);
    }
  }

  lemma {:induction false} TailInRange(words: seq<string>, mon: int, hour: int)
    requires 0 <= mon < 12 && 0 <= hour < 24
    ensures 0 <= TailMonth(words, mon) < 12 && 0 <= TailHour(words, hour) < 24
    decreases |words|
  {
    hide FirstZone;
    hide FirstName;
    hide MatchString;
    if words != [] {
      match Kind(words[0])
      case Month(m) => TailInRange(words[1..], m, hour);
      case Pm => TailInRange(words[1..], mon, CRem(hour, 12) + 12);
      case Am => TailInRange(words[1..], mon, CRem(hour, 12));
      case _ => TailInRange(words[1..], mon, hour);
    }
  }

  // ---------------------------------------------------------------- scanning the whole form

  /** What the tail makes of the fields, and of the zone. */
  function ReadTm(y: Style, tm: Tm): Tm {
    var words := Words(y.tail);
    tm.(mon := TailMonth(words, tm.mon), hour := TailHour(words, tm.hour), wday := TailWeekday(words, tm.wday))
  }

  function ReadOffset(t: Stamp, y: Style): int { TailOffset(Words(y.tail), Offset(t)) }

  lemma ScanZone(t: Stamp, y: Style, f: Found, env: Env)
    requires Expressible(t, y)
    ensures ScanAll(FromZone(t, y), f, env) == Found(ReadTm(y, f.tm), ReadOffset(t, y), f.gmt)
  {
    hide Token;
    hide Words;
    hide AfterWords;
    var g := f.(offset := Offset(t));
    ZoneToken(t.minus, t.zh, t.zm, y.tail, f, env);
    Advance(ZoneText(t), y.tail, f, g, env);
    ScanTail(y.tail, g, env);
    AfterWordsParts(Words(y.tail), g);
  }

  lemma ScanClock(t: Stamp, y: Style, f: Found, env: Env)
    requires Expressible(t, y)
    ensures ScanAll(FromClock(t, y), f, env)
         == Found(ReadTm(y, f.tm.(hour := t.hour, min := t.min, sec := t.sec)), ReadOffset(t, y), f.gmt)
  {
    hide Token;
    hide ScanAll;
    hide FromZone;
    hide TailOk;
    hide ReadOffset;
    hide ReadTm;
    var g := f.(tm := f.tm.(hour := t.hour, min := t.min, sec := t.sec));
    var clock, zone := ClockText(t.hour, t.min, t.sec, y.seconds), FromZone(t, y);
    GapSeparates(y.gaps.clock, zone);
    ClockToken(t.hour, t.min, t.sec, y.seconds, y.gaps.clock + zone, f, env);
    Advance(clock, y.gaps.clock + zone, f, g, env);
    SkipBlank(y.gaps.clock, zone, g, env);
    ScanZone(t, y, g, env);
  }

  lemma ScanYear(t: Stamp, y: Style, f: Found, env: Env)
    requires Expressible(t, y)
    ensures ScanAll(FromYear(t, y), f, env)
         == Found(ReadTm(y, f.tm.(year := t.date.year - 1900, hour := t.hour, min := t.min, sec := t.sec)),
                  ReadOffset(t, y), f.gmt)
  {
    hide Token;
    hide ScanAll;
    hide FromClock;
    hide TailOk;
    hide ReadOffset;
    hide ReadTm;
    var yr := t.date.year;
    var year, rest := Two(yr / 100) + Two(yr % 100), y.gaps.year + FromClock(t, y);
    var g := f.(tm := f.tm.(year := yr - 1900));
    GapSeparates(y.gaps.year, FromClock(t, y));
    YearToken(yr, rest, f, env);
    Advance(year, rest, f, g, env);
    SkipBlank(y.gaps.year, FromClock(t, y), g, env);
    ScanClock(t, y, g, env);
  }

  lemma NamesStart(month: nat, day: nat)
    requires 1 <= month <= 12 && day < 7
    ensures IsAlpha(MonthName(month)[0]) && IsAlpha(DayName(day)[0])
  {
  }

  lemma ScanMonth(t: Stamp, y: Style, f: Found, env: Env)
    requires Expressible(t, y)
    ensures ScanAll(FromMonth(t, y), f, env)
         == Found(ReadTm(y, f.tm.(mon := t.date.month - 1, year := t.date.year - 1900,
                                  hour := t.hour, min := t.min, sec := t.sec)),
                  ReadOffset(t, y), f.gmt)
  {
    hide Token;
    hide ScanAll;
    hide FromYear;
    hide TailOk;
    hide ReadOffset;
    hide ReadTm;
    hide MonthName;
    var m := t.date.month;
    var g := f.(tm := f.tm.(mon := m - 1));
    var s, rest := FromMonth(t, y), y.gaps.month + FromYear(t, y);
    GapSeparates(y.gaps.month, FromYear(t, y));
    assert s[..3] == MonthName(m) && s[3] == rest[0];
    MonthToken(s, m, f, env);
    NamesStart(m, 0);
    Advance(MonthName(m), rest, f, g, env);
    SkipBlank(y.gaps.month, FromYear(t, y), g, env);
    ScanYear(t, y, g, env);
  }

  function Fields(t: Stamp, y: Style): Tm {
    ReadTm(y, Tm(t.date.year - 1900, t.date.month - 1, t.date.day, t.hour, t.min, t.sec,
                 if y.weekday.Some? then y.weekday.value else 0))
  }

  lemma ScanDay(t: Stamp, y: Style, f: Found, env: Env)
    requires Expressible(t, y)
    requires f == NOTHING.(tm := NOTHING.tm.(wday := if y.weekday.Some? then y.weekday.value else 0))
    ensures ScanAll(FromDay(t, y), f, env) == Found(Fields(t, y), ReadOffset(t, y), false)
  {
    hide Token;
    hide ScanAll;
    hide FromMonth;
    hide TailOk;
    hide ReadOffset;
    hide ReadTm;
    var g := f.(tm := f.tm.(mday := t.date.day));
    var day, rest := DayText(t.date.day, y.padded), y.gaps.day + FromMonth(t, y);
    GapSeparates(y.gaps.day, FromMonth(t, y));
    DayToken(t.date.day, y.padded, rest, f, env);
    assert IsDigit(day[0]);
    Advance(day, rest, f, g, env);
    SkipBlank(y.gaps.day, FromMonth(t, y), g, env);
    ScanMonth(t, y, g, env);
  }

  lemma ScanText(t: Stamp, y: Style, env: Env)
    requires Expressible(t, y)
    ensures ScanAll(Text(t, y), NOTHING, env) == Found(Fields(t, y), ReadOffset(t, y), false)
  {
    hide Token;
    hide ScanAll;
    hide FromDay;
    hide TailOk;
    hide ReadOffset;
    hide ReadTm;
    var f := NOTHING.(tm := NOTHING.tm.(wday := if y.weekday.Some? then y.weekday.value else 0));
    SkipBlank(y.gaps.lead, FromWeekday(t, y), NOTHING, env);
    if y.weekday.Some? {
      var w := y.weekday.value;
      var s, day := FromWeekday(t, y), FromDay(t, y);
      assert s[..3] == DayName(w) && s[3] == ',';
      WeekdayToken(s, w, NOTHING, env);
      NamesStart(1, w);
      Advance(DayName(w), "," + (y.gaps.comma + day), NOTHING, f, env);
      Skip(',', y.gaps.comma + day, f, env);
      SkipBlank(y.gaps.comma, day, f, env);
    }
    ScanDay(t, y, f, env);
  }

  lemma NoStampMark(t: Stamp, y: Style)
    requires Expressible(t, y)
    ensures Text(t, y) != "" && Text(t, y)[0] != '@'
  {
    hide FromMonth;
    hide TailOk;
    if y.gaps.lead != "" {
      assert Text(t, y)[0] == y.gaps.lead[0];
    } else {
      assert Text(t, y) == FromWeekday(t, y);
      if y.weekday.Some? {
        NamesStart(1, y.weekday.value);
      }
    }
  }

  // ---------------------------------------------------------------- the instant it is read as

  /** The zone the parser falls back to when none was found. */
  function SystemOffset(tm: Tm, env: Env): int { CDiv(ToInt(TmToTime(tm) - env.mktime(tm)), 60) }

  /** On a system whose local time is so many minutes ahead, that is the number of minutes. */
  lemma SystemOffsetIs(tm: Tm, env: Env, minutes: int)
    requires -0x200_0000 < minutes < 0x200_0000 && env.mktime(tm) == TmToTime(tm) - 60 * minutes
    ensures SystemOffset(tm, env) == minutes
  {
    hide TmToTime;
  }

  /** The zone in effect: -0001 is the mark for "no zone", which a zone name in the tail or the system fills. */
  function EffectiveOffset(t: Stamp, y: Style, env: Env): int {
    if ReadOffset(t, y) == -1 then SystemOffset(Fields(t, y), env) else ReadOffset(t, y)
  }

  /** The date and time as read: words after the zone can replace the month and move the hour. */
  function ReadStamp(t: Stamp, y: Style): Stamp
    requires t.hour < 24
  {
    var words := Words(y.tail);
    TailInRange(words, 0, t.hour);
    t.(date := t.date.(month := TailMonth(words, t.date.month - 1) + 1), hour := TailHour(words, t.hour))
  }

  /** Every expressible date-time is read field by field. */
  lemma ParsesFields(t: Stamp, y: Style, env: Env)
    requires Expressible(t, y)
    ensures 0 <= ReadStamp(t, y).date.month - 1 < 12 && ReadStamp(t, y).hour < 24
    ensures ParseDate(Text(t, y), env) ==
      var r, off := ReadStamp(t, y), EffectiveOffset(t, y, env);
      Some((TmDays(r.date.year - 1900, r.date.month - 1, r.date.day) * 86400
            + r.hour * 3600 + r.min * 60 + r.sec - off * 60, off))
  {
    hide ScanAll;
    hide Text;
    hide TmDays;
    hide Conclude;
    hide ReadOffset;
    hide SystemOffset;
    hide TailOk;
    hide TailMonth;
    hide TailHour;
    hide TailWeekday;
    TailInRange(Words(y.tail), t.date.month - 1, t.hour);
    NoStampMark(t, y);
    ScanText(t, y, env);
    ConcludeFields(Fields(t, y), ReadOffset(t, y), env);
  }

  lemma ConcludeFields(tm: Tm, offset: int, env: Env)
    requires 70 <= tm.year <= 199 && 0 <= tm.mon < 12 && 1 <= tm.mday && 0 <= tm.hour && 0 <= tm.min && 0 <= tm.sec
    ensures Conclude(Found(tm, offset, false), env) ==
      var off := if offset == -1 then SystemOffset(tm, env) else offset;
      Some((TmDays(tm.year, tm.mon, tm.mday) * 86400 + tm.hour * 3600 + tm.min * 60 + tm.sec - off * 60, off))
  {
    hide TmDays;
    DaysNotNegative(tm.year, tm.mon, tm.mday);
  }

  lemma DaysNotNegative(year: int, mon: int, mday: int)
    requires 70 <= year && 0 <= mon < 12 && 1 <= mday
    ensures 0 <= TmDays(year, mon, mday)
  {
  }

  /** So it is the instant of the clock and day that are read, in the zone in effect. */
  lemma ParsesText(n: nat, t: Stamp, y: Style, env: Env)
    requires Expressible(t, y) && DateOf(n) == ReadStamp(t, y).date
    ensures ParseDate(Text(t, y), env) ==
      Some((LocalSeconds(n, ReadStamp(t, y)) - EffectiveOffset(t, y, env) * 60, EffectiveOffset(t, y, env)))
  {
    hide ParseDate;
    hide Text;
    hide DateOf;
    hide TmDays;
    hide EffectiveOffset;
    hide TailMonth;
    hide TailHour;
    hide TailOk;
    ParsesFields(t, y, env);
    DayNumberCounts(n);
  }

  lemma MonthsApart(year: int, m: int, k: int, mday: int)
    requires 70 <= year && 0 <= m < 12 && 0 <= k < 12
    ensures TmDays(year, m, mday) == TmDays(year, k, mday) <==> m == k
  {
  }

  /** The words after the zone name no other month, and no AM or PM that moves the hour. */
  predicate KeepsFields(t: Stamp, y: Style) {
    TailMonth(Words(y.tail), t.date.month - 1) == t.date.month - 1 && TailHour(Words(y.tail), t.hour) == t.hour
  }

  /**
    It parses to exactly the UTC instant it denotes, with its own offset, if and only if the words after the
    zone keep month and hour, and the zone is not -0001 or no word names a zone and it is the system's own.
  */
  lemma ParsesExactlyIff(n: nat, t: Stamp, y: Style, env: Env)
    requires Expressible(t, y) && DateOf(n) == t.date
    ensures ParseDate(Text(t, y), env) == Some((LocalSeconds(n, t) - Offset(t) * 60, Offset(t)))
      <==> && KeepsFields(t, y)
           && (Offset(t) != -1 || (TailOffset(Words(y.tail), -1) == -1 && SystemOffset(Fields(t, y), env) == -1))
  {
    hide ParseDate;
    hide Text;
    hide DateOf;
    hide TmDays;
    hide TailOk;
    hide TailMonth;
    hide TailHour;
    hide TailOffset;
    hide Words;
    hide SystemOffset;
    ParsesFields(t, y, env);
    DayNumberCounts(n);
    MonthsApart(t.date.year - 1900, TailMonth(Words(y.tail), t.date.month - 1), t.date.month - 1, t.date.day);
    if Offset(t) != -1 {
      TailOffsetSet(Words(y.tail), Offset(t));
    } else {
      TailOffsetUnset(Words(y.tail));
    }
  }

  /** Single spaces and nothing after the zone. */
  const SINGLE: Gaps := Gaps("", " ", " ", " ", " ", " ")
  const FULL: Style := Style(None, true, true, SINGLE, "")
  const MINUS_ONE: Stamp := Stamp(Date(1970, 1, 1), 0, 0, 0, true, 0, 1)

  lemma MinusOneFacts()
    ensures Expressible(MINUS_ONE, FULL) && DateOf(0) == MINUS_ONE.date && ReadStamp(MINUS_ONE, FULL) == MINUS_ONE
    ensures Offset(MINUS_ONE) == ReadOffset(MINUS_ONE, FULL) == -1
    ensures LocalSeconds(0, MINUS_ONE) == 0
  {
  }

  /** On a system in UTC, one minute past the epoch, written in the zone -0001, is read as the epoch. */
  lemma MinusOneExample(env: Env)
    requires SystemOffset(Fields(MINUS_ONE, FULL), env) == 0
    ensures Expressible(MINUS_ONE, FULL) && LocalSeconds(0, MINUS_ONE) - Offset(MINUS_ONE) * 60 == 60
    ensures ParseDate(Text(MINUS_ONE, FULL), env) == Some((0, 0))
  {
    hide *;
    MinusOneFacts();
    ParsesText(0, MINUS_ONE, FULL, env);
    NoZoneFound(MINUS_ONE, FULL, env);
  }

  lemma NoZoneFound(t: Stamp, y: Style, env: Env)
    requires ReadOffset(t, y) == -1
    ensures EffectiveOffset(t, y, env) == SystemOffset(Fields(t, y), env)
  {
  }

  /** A comment is not skipped: " (May)" after the zone moves the date to May. */
  const IN_MAY: Style := FULL.(tail := " (May)")
  const EPOCH: Stamp := Stamp(Date(1970, 1, 1), 0, 0, 0, false, 0, 0)

  lemma WordsOfMay()
    ensures Words(" (May)") == ["May"]
  {
    var s := "May)";
    assert " (May)"[1..] == "(May)" && "(May)"[1..] == s;
    AlphaRunOfWord("May", ")", 1);
    assert "May" + ")" == s && s[..3] == "May" && s[3..] == ")";
    assert Words(")") == Words(")"[1..]) == [];
  }

  lemma MayIsMonth(w: string)
    requires w == "May"
    ensures Kind(w) == Month(4)
  {
    hide FirstName;
    assert Abbreviates(w, MONTHS[4]) by {
      NamesAreWords(MONTHS, 4);
    }
    MonthFound(w, 4);
  }

  lemma OneMonthWord(w: string, m: nat, t: Stamp, y: Style)
    requires Kind(w) == Month(m) && Words(y.tail) == [w] && t.hour < 24
    ensures ReadStamp(t, y) == t.(date := t.date.(month := m + 1)) && ReadOffset(t, y) == Offset(t)
  {
    hide Kind;
    hide Words;
    assert [w][0] == w && [w][1..] == [];
    assert TailMonth([], m) == m && TailHour([], t.hour) == t.hour && TailOffset([], Offset(t)) == Offset(t);
  }

  lemma CommentExample(env: Env)
    ensures Expressible(EPOCH, IN_MAY) && DateOf(0) == EPOCH.date
    ensures ParseDate(Text(EPOCH, IN_MAY), env) == Some((120 * 86400, 0))
  {
    hide ParseDate;
    hide Text;
    hide ReadStamp;
    hide ReadOffset;
    hide Kind;
    hide Words;
    WordsOfMay();
    MayIsMonth("May");
    OneMonthWord("May", 4, EPOCH, IN_MAY);
    ParsesFields(EPOCH, IN_MAY, env);
  }
}
