/** The obsolete forms of section 4.3 of RFC 2822: zones given by name, and years of two digits. */
module ObsDate {
  import opened Strings
  import opened Calendar
  import opened DateParse
  import opened Rfc2822
  import opened ZoneWords

  // ---------------------------------------------------------------- the zones of the standard

  /** The named zones of section 4.3, in minutes east of UTC. */
  const RFC_ZONES: seq<(string, int)> := [
    ("GMT", 0), ("EST", -300), ("EDT", -240), ("CST", -360), ("CDT", -300), ("MST", -420), ("MDT", -360),
    ("PST", -480), ("PDT", -420)
  ]

  /** The one-letter military zones, J excepted, which the standard has count as UTC. */
  predicate Military(w: string) { |w| == 1 && IsAlpha(w[0]) && Upper(w[0]) != 'J' }

  /** obs-zone, and what it means. */
  predicate ObsZone(w: string, minutes: int) {
    || (exists i :: 0 <= i < 9 && SameLetters(w, RFC_ZONES[i].0) && minutes == RFC_ZONES[i].1)
    || ((SameLetters(w, "UT") || Military(w)) && minutes == 0)
  }

  /** The zones of the standard that the parser knows: all but UT and the military ones other than Z. */
  predicate Recognized(w: string) { |w| == 3 || SameLetters(w, "Z") }

  /** Where the parser has a zone of the standard. */
  function KnownAs(i: nat): (z: nat)
    requires i < 9
    ensures z < 44
  {
    match i
    case 0 => 18
    case 1 => 13
    case 2 => 14
    case 3 => 11
    case 4 => 12
    case 5 => 9
    case 6 => 10
    case 7 => 7
    case 8 => 8
  }

  lemma RfcZonesKnown(i: nat)
    requires i < 9
    ensures RFC_ZONES[i] == (ZoneLabel(KnownAs(i)), 60 * ZoneHours(KnownAs(i))) && |RFC_ZONES[i].0| == 3
  {
  }

  /** The parser takes a zone of the standard for what it means there, or does not know it at all. */
  lemma ObsZoneKind(w: string, minutes: int)
    requires ObsZone(w, minutes)
    ensures w != "" && AllAlpha(w) && Kind(w) == if Recognized(w) then ZoneName(minutes) else Unknown
  {
    hide Kind;
    hide SameLetters;
    if i :| 0 <= i < 9 && SameLetters(w, RFC_ZONES[i].0) && minutes == RFC_ZONES[i].1 {
      RfcZonesKnown(i);
      SameLength(w, RFC_ZONES[i].0);
      ZoneWord(w, KnownAs(i));
    } else {
      UnknownLetters(w);
      ShortWord(w);
    }
  }

  lemma SameLength(w: string, name: string)
    requires SameLetters(w, name)
    ensures |w| == |name| && AllAlpha(w)
  {
  }

  lemma UnknownLetters(w: string)
    requires SameLetters(w, "UT") || Military(w)
    ensures 1 <= |w| <= 2 && AllAlpha(w)
    ensures !SameLetters(w, "NT") && !SameLetters(w, "PM") && !SameLetters(w, "AM")
    ensures SameLetters(w, "UT") ==> !SameLetters(w, "Z")
  {
    assert "NT"[0] == 'N' && "UT"[0] == 'U' && "PM"[0] == 'P' && "AM"[0] == 'A';
    assert forall name :: SameLetters(w, name) ==> |w| == |name| && Upper(w[0]) == Upper(name[0]);
  }

  // ---------------------------------------------------------------- the whole form

  /** The year in four digits or in its last two. */
  function YearText(year: nat, short: bool): string
    requires year < 10000
  {
    if short then Two(year % 100) else Two(year / 100) + Two(year % 100)
  }

  /** The years that two digits mean: up to 49 after 2000, from 50 on after 1900. */
  predicate ShortYear(year: nat) { var yy := year % 100; year == if yy < 50 then 2000 + yy else 1900 + yy }

  /** After the clock: a numeric zone, or only what follows it, where a zone may be named. */
  function ZonePart(t: Stamp, y: Style, named: bool): string
    requires Expressible(t, y)
  {
    if named then y.tail else FromZone(t, y)
  }

  function AfterYear(t: Stamp, y: Style, named: bool): string
    requires Expressible(t, y)
  {
    y.gaps.year + (ClockText(t.hour, t.min, t.sec, y.seconds) + (y.gaps.clock + ZonePart(t, y, named)))
  }

  function AfterHead(t: Stamp, y: Style, short: bool, named: bool): string
    requires Expressible(t, y)
  {
    YearText(t.date.year, short) + AfterYear(t, y, named)
  }

  /** A date-time with the year in two digits if `short`, and no numeric zone if `named`. */
  function ObsText(t: Stamp, y: Style, short: bool, named: bool): string
    requires Expressible(t, y)
  {
    y.gaps.lead + FromDayName(y, DayText(t.date.day, y.padded)
                  + (y.gaps.day + (MonthName(t.date.month) + (y.gaps.month + AfterHead(t, y, short, named)))))
  }

  function FromDayName(y: Style, day: string): string
    requires y.weekday.Some? ==> y.weekday.value < 7
  {
    match y.weekday
    case None => day
    case Some(w) => DayName(w) + ("," + (y.gaps.comma + day))
  }

  function WeekdayOf(y: Style): int { if y.weekday.Some? then y.weekday.value else 0 }

  lemma ScanDayName(y: Style, day: string, env: Env)
    requires y.weekday.Some? ==> y.weekday.value < 7
    requires GapsOk(y.gaps)
    ensures ScanAll(y.gaps.lead + FromDayName(y, day), NOTHING, env)
         == ScanAll(day, NOTHING.(tm := NOTHING.tm.(wday := WeekdayOf(y))), env)
  {
    hide Token;
    hide ScanAll;
    var f := NOTHING.(tm := NOTHING.tm.(wday := WeekdayOf(y)));
    SkipBlank(y.gaps.lead, FromDayName(y, day), NOTHING, env);
    if y.weekday.Some? {
      var w, s := y.weekday.value, FromDayName(y, day);
      assert s[..3] == DayName(w) && s[3] == ',';
      WeekdayToken(s, w, NOTHING, env);
      NamesStart(1, w);
      Advance(DayName(w), "," + (y.gaps.comma + day), NOTHING, f, env);
      Skip(',', y.gaps.comma + day, f, env);
      SkipBlank(y.gaps.comma, day, f, env);
    }
  }

  lemma ScanDayMonth(t: Stamp, y: Style, rest: string, f: Found, env: Env)
    requires Expressible(t, y) && f.tm.mday < 0
    ensures ScanAll(DayText(t.date.day, y.padded)
                    + (y.gaps.day + (MonthName(t.date.month) + (y.gaps.month + rest))), f, env)
         == ScanAll(rest, f.(tm := f.tm.(mday := t.date.day, mon := t.date.month - 1)), env)
  {
    hide Token;
    hide ScanAll;
    hide TailOk;
    hide MonthName;
    hide DayText;
    var day, month := DayText(t.date.day, y.padded), MonthName(t.date.month);
    var s := month + (y.gaps.month + rest);
    var g := f.(tm := f.tm.(mday := t.date.day));
    var h := g.(tm := g.tm.(mon := t.date.month - 1));
    GapSeparates(y.gaps.day, s);
    DayToken(t.date.day, y.padded, y.gaps.day + s, f, env);
    DayStarts(t.date.day, y.padded);
    Advance(day, y.gaps.day + s, f, g, env);
    SkipBlank(y.gaps.day, s, g, env);
    GapSeparates(y.gaps.month, rest);
    assert s[..3] == month && s[3] == (y.gaps.month + rest)[0];
    MonthToken(s, t.date.month, g, env);
    NamesStart(t.date.month, 0);
    Advance(month, y.gaps.month + rest, g, h, env);
    SkipBlank(y.gaps.month, rest, h, env);
  }

  lemma DayStarts(d: nat, padded: bool)
    requires d < 100 && (padded || d < 10)
    ensures IsDigit(DayText(d, padded)[0])
  {
  }

  /** The two-digit years that the parser understands. */
  predicate Understood(yy: nat) { yy < 10 || 70 <= yy }

  /** The year that is read: a two-digit one, once day and month are known, only if it is understood. */
  lemma ShortYearToken(yy: nat, rest: string, f: Found, env: Env)
    requires yy < 100 && Separated(rest) && 0 <= f.tm.mday && 0 <= f.tm.mon && f.tm.year < 0
    ensures Token(Two(yy) + rest, f, env) ==
      (2, if Understood(yy) then f.(tm := f.tm.(year := if yy < 50 then 100 + yy else yy)) else f)
  {
    hide Number;
    hide DigitRun;
    TwoDigits(yy, rest);
  }

  function YearRead(year: nat, short: bool): int {
    if short && !Understood(year % 100) then -1 else year - 1900
  }

  lemma ScanObsYear(t: Stamp, y: Style, short: bool, named: bool, f: Found, env: Env)
    requires Expressible(t, y) && (short ==> ShortYear(t.date.year))
    requires f.tm.year == -1 && 0 <= f.tm.mday && 0 <= f.tm.mon
    ensures ScanAll(AfterHead(t, y, short, named), f, env) ==
      ScanAll(ZonePart(t, y, named),
              f.(tm := f.tm.(year := YearRead(t.date.year, short), hour := t.hour, min := t.min, sec := t.sec)), env)
  {
    hide Token;
    hide ScanAll;
    hide ZonePart;
    hide TailOk;
    hide Two;
    var zone := ZonePart(t, y, named);
    var clock := ClockText(t.hour, t.min, t.sec, y.seconds);
    var year, rest := YearText(t.date.year, short), AfterYear(t, y, named);
    var g := f.(tm := f.tm.(year := YearRead(t.date.year, short)));
    var h := g.(tm := g.tm.(hour := t.hour, min := t.min, sec := t.sec));
    GapSeparates(y.gaps.year, clock + (y.gaps.clock + zone));
    if short {
      ShortYearToken(t.date.year % 100, rest, f, env);
    } else {
      YearToken(t.date.year, rest, f, env);
    }
    YearStarts(t.date.year, short);
    Advance(year, rest, f, g, env);
    SkipBlank(y.gaps.year, clock + (y.gaps.clock + zone), g, env);
    GapSeparates(y.gaps.clock, zone);
    ClockToken(t.hour, t.min, t.sec, y.seconds, y.gaps.clock + zone, g, env);
    YearStarts(t.hour, true);
    Advance(clock, y.gaps.clock + zone, g, h, env);
    SkipBlank(y.gaps.clock, zone, h, env);
  }

  lemma YearStarts(year: nat, short: bool)
    requires year < 10000
    ensures var s := YearText(year, short); |s| == (if short then 2 else 4) && IsDigit(s[0])
  {
  }

  function ObsFields(t: Stamp, y: Style, short: bool): Tm
    requires Expressible(t, y)
  {
    ReadTm(y, Tm(YearRead(t.date.year, short), t.date.month - 1, t.date.day, t.hour, t.min, t.sec, WeekdayOf(y)))
  }

  function ObsOffset(t: Stamp, y: Style, named: bool): int {
    TailOffset(Words(y.tail), if named then -1 else Offset(t))
  }

  lemma ScanObs(t: Stamp, y: Style, short: bool, named: bool, env: Env)
    requires Expressible(t, y) && (short ==> ShortYear(t.date.year))
    ensures ScanAll(ObsText(t, y, short, named), NOTHING, env)
         == Found(ObsFields(t, y, short), ObsOffset(t, y, named), false)
  {
    hide Token;
    hide ScanAll;
    hide TailOk;
    hide Words;
    hide AfterWords;
    hide DayText;
    hide AfterHead;
    hide MonthName;
    hide ReadTm;
    hide FromZone;
    hide FromDayName;
    hide WeekdayOf;
    hide YearRead;
    hide ShortYear;
    hide TailOffset;
    hide Offset;
    hide GapsOk;
    assert GapsOk(y.gaps);
    var rest := AfterHead(t, y, short, named);
    var day := DayText(t.date.day, y.padded) + (y.gaps.day + (MonthName(t.date.month) + (y.gaps.month + rest)));
    var f := NOTHING.(tm := NOTHING.tm.(wday := WeekdayOf(y)));
    var g := f.(tm := f.tm.(mday := t.date.day, mon := t.date.month - 1));
    var h := g.(tm := g.tm.(year := YearRead(t.date.year, short), hour := t.hour, min := t.min, sec := t.sec));
    ScanDayName(y, day, env);
    ScanDayMonth(t, y, rest, f, env);
    ScanObsYear(t, y, short, named, g, env);
    if named {
      ScanTail(y.tail, h, env);
      TailParts(y, h);
    } else {
      ScanZone(t, y, h, env);
    }
  }

  lemma TailParts(y: Style, f: Found)
    ensures AfterWords(Words(y.tail), f) == Found(ReadTm(y, f.tm), TailOffset(Words(y.tail), f.offset), f.gmt)
  {
    hide Words;
    AfterWordsParts(Words(y.tail), f);
  }

  lemma ObsNoStampMark(t: Stamp, y: Style, short: bool, named: bool)
    requires Expressible(t, y)
    ensures ObsText(t, y, short, named) != "" && ObsText(t, y, short, named)[0] != '@'
  {
    hide AfterHead;
    hide TailOk;
    DayStarts(t.date.day, y.padded);
    if y.gaps.lead != "" {
      assert ObsText(t, y, short, named)[0] == y.gaps.lead[0];
    } else if y.weekday.Some? {
      NamesStart(1, y.weekday.value);
    }
  }

  lemma ConcludeObs(t: Stamp, y: Style, short: bool, offset: int, env: Env)
    requires Expressible(t, y)
    ensures ObsFields(t, y, false) == Fields(t, y)
    ensures Conclude(Found(ObsFields(t, y, short), offset, false), env) ==
      if short && !Understood(t.date.year % 100) then None
      else Conclude(Found(Fields(t, y), offset, false), env)
  {
    hide TmDays;
    hide Words;
    hide TailMonth;
    hide TailHour;
    hide TailWeekday;
    hide TailOk;
  }

  /**
    A year of two digits is read as the standard has it if and only if it is below 10 or from 70 on; a date-time
    with any other is refused altogether.
  */
  lemma ShortYearIff(t: Stamp, y: Style, named: bool, env: Env)
    requires Expressible(t, y) && ShortYear(t.date.year)
    ensures ParseDate(ObsText(t, y, true, named), env) ==
      if Understood(t.date.year % 100) then ParseDate(ObsText(t, y, false, named), env) else None
  {
    hide ScanAll;
    hide ObsText;
    hide Conclude;
    hide ObsFields;
    hide ObsOffset;
    hide TailOk;
    ScanObs(t, y, true, named, env);
    ScanObs(t, y, false, named, env);
    ObsNoStampMark(t, y, true, named);
    ObsNoStampMark(t, y, false, named);
    ConcludeObs(t, y, true, ObsOffset(t, y, named), env);
    ConcludeObs(t, y, false, ObsOffset(t, y, named), env);
  }

  /** With a four-digit year and a numeric zone it is the form of section 3.3. */
  lemma ObsIsCurrent(t: Stamp, y: Style, env: Env)
    requires Expressible(t, y)
    ensures ParseDate(ObsText(t, y, false, false), env) == ParseDate(Text(t, y), env)
  {
    hide ScanAll;
    hide ObsText;
    hide Text;
    hide Conclude;
    hide ObsFields;
    hide Fields;
    hide TailOk;
    ScanObs(t, y, false, false, env);
    ScanText(t, y, env);
    ObsNoStampMark(t, y, false, false);
    NoStampMark(t, y);
    ConcludeObs(t, y, false, ReadOffset(t, y), env);
  }

  lemma WordsFrom(w: string, rest: string)
    requires w != "" && AllAlpha(w) && WordEnds(rest)
    ensures Words(w + rest) == [w] + Words(rest)
  {
    AlphaRunOfWord(w, rest, 1);
    assert (w + rest)[..|w|] == w && (w + rest)[|w|..] == rest;
  }

  /** The offset when no zone, or only one the parser does not know, is named first. */
  function Fallback(t: Stamp, y: Style, rest: string, env: Env): int {
    var off := TailOffset(Words(rest), -1);
    if off == -1 then SystemOffset(Fields(t, y), env) else off
  }

  lemma NamedOffset(t: Stamp, y: Style, zone: string, rest: string, minutes: int)
    requires ObsZone(zone, minutes) && WordEnds(rest) && y.tail == zone + rest
    ensures ObsOffset(t, y, true) == if Recognized(zone) then minutes else TailOffset(Words(rest), -1)
    ensures minutes % 60 == 0
  {
    hide Kind;
    hide Words;
    ObsZoneKind(zone, minutes);
    WordsFrom(zone, rest);
    var words := Words(y.tail);
    assert words == [zone] + Words(rest);
    assert words[0] == zone && words[1..] == Words(rest);
    WholeHours(zone, minutes);
    if Recognized(zone) {
      TailOffsetSet(Words(rest), minutes);
    }
  }

  lemma WholeHours(zone: string, minutes: int)
    requires ObsZone(zone, minutes)
    ensures minutes % 60 == 0
  {
    hide SameLetters;
  }

  /**
    A date-time in a named zone of the standard parses to exactly the UTC instant it denotes if and only if the
    words after the clock keep month and hour, and the zone is not UT nor a military one other than Z; for
    those the first zone named later counts, or the system's own, which may happen to be UTC too.
  */
  lemma NamedZoneIff(n: nat, t: Stamp, y: Style, zone: string, rest: string, minutes: int, env: Env)
    requires Expressible(t, y) && DateOf(n) == t.date
    requires ObsZone(zone, minutes) && WordEnds(rest) && y.tail == zone + rest
    ensures ParseDate(ObsText(t, y, false, true), env) == Some((LocalSeconds(n, t) - minutes * 60, minutes))
      <==> KeepsFields(t, y) && (Recognized(zone) || Fallback(t, y, rest, env) == 0)
  {
    hide ScanAll;
    hide ObsText;
    hide Conclude;
    hide ObsFields;
    hide ObsZone;
    hide DateOf;
    hide TmDays;
    hide TailOk;
    hide TailMonth;
    hide TailHour;
    hide TailOffset;
    hide Words;
    hide SystemOffset;
    hide Recognized;
    ScanObs(t, y, false, true, env);
    ObsNoStampMark(t, y, false, true);
    NamedOffset(t, y, zone, rest, minutes);
    UnknownMeansUtc(zone, minutes);
    ConcludeObs(t, y, false, ObsOffset(t, y, true), env);
    TailInRange(Words(y.tail), t.date.month - 1, t.hour);
    ConcludeFields(Fields(t, y), ObsOffset(t, y, true), env);
    DayNumberCounts(n);
    MonthsApart(t.date.year - 1900, TailMonth(Words(y.tail), t.date.month - 1), t.date.month - 1, t.date.day);
  }

  lemma UnknownMeansUtc(zone: string, minutes: int)
    requires ObsZone(zone, minutes)
    ensures !Recognized(zone) ==> minutes == 0
  {
  }

  const NEW_YEAR_2020: Stamp := Stamp(Date(2020, 1, 1), 0, 0, 0, false, 0, 0)

  lemma NewYearFacts()
    ensures Expressible(NEW_YEAR_2020, FULL) && ShortYear(NEW_YEAR_2020.date.year)
  {
  }

  /** 01 Jan 20 00:00:00 +0000 is no date. */
  lemma ShortYearExample(env: Env)
    ensures Expressible(NEW_YEAR_2020, FULL)
    ensures ParseDate(ObsText(NEW_YEAR_2020, FULL, true, false), env) == None
  {
    hide *;
    NewYearFacts();
    TwentyNotUnderstood();
    ShortYearIff(NEW_YEAR_2020, FULL, false, env);
  }

  lemma TwentyNotUnderstood()
    ensures !Understood(NEW_YEAR_2020.date.year % 100)
  {
  }

  const IN_UT: Style := FULL.(tail := "UT")

  lemma UtTail()
    ensures TailOk(IN_UT.tail) && IN_UT.tail == "UT" + ""
  {
    assert TailOk("") && TailOk("UT"[1..]);
  }

  lemma UtStamp()
    ensures Expressible(EPOCH, IN_UT) && DateOf(0) == EPOCH.date && LocalSeconds(0, EPOCH) == 0
  {
    hide TailOk;
    UtTail();
  }

  lemma UtZone()
    ensures ObsZone("UT", 0) && !Recognized("UT") && WordEnds("") && TailOffset(Words(""), -1) == -1
  {
  }

  /** 01 Jan 1970 00:00:00 UT is read in the system's zone, so anywhere else than in UTC it is another instant. */
  lemma UtExample(env: Env)
    requires SystemOffset(Fields(EPOCH, IN_UT), env) != 0
    ensures Expressible(EPOCH, IN_UT)
    ensures ParseDate(ObsText(EPOCH, IN_UT, false, true), env) != Some((0, 0))
  {
    hide *;
    UtTail();
    UtStamp();
    UtZone();
    NamedZoneIff(0, EPOCH, IN_UT, "UT", "", 0, env);
    NoFallback(EPOCH, IN_UT, env);
  }

  lemma NoFallback(t: Stamp, y: Style, env: Env)
    requires TailOffset(Words(""), -1) == -1
    ensures Fallback(t, y, "", env) == SystemOffset(Fields(t, y), env)
  {
  }
}
