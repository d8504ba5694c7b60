/** Date range columns: text to a decimal column, and what a range of columns selects. */
module DateColumn {
  import opened Strings
  import opened Bits
  import opened Doubles
  import opened Calendar
  import opened DateParse
  import opened Rfc2822

  datatype Format = Day | Seconds | Epoch

  /** The column of an instant, as stored with each message. */
  function Column(fmt: Format, t: int): int {
    match fmt
    case Day => DayColumn(DayOf(t))
    case Seconds => TimeColumn(t)
    case Epoch => t
  }

  /** The forms that bypass date parsing. */
  predicate Bypass(fmt: Format, s: string) {
    && AllDigits(s)
    && match fmt
       case Day => |s| == 8
       case Seconds => |s| == 14
       case Epoch => |s| >= 5
  }

  // ---------------------------------------------------------------- formatting

  /**
    What the environment decides: git's date parser, and how %Y writes a year outside 1000-9999, whose
    padding and sign the C standard leaves open.
  */
  datatype Sys = Sys(parse: string -> Option<int>, yearText: int -> string)

  function YearText(y: int, sys: Sys): string {
    if 1000 <= y <= 9999 then Two(y / 100) + Two(y % 100) else sys.yearText(y)
  }

  function MonthDay(d: Date): string
    requires IsDate(d)
  {
    Two(d.month) + Two(d.day)
  }

  function Clock(c: nat): string
    requires c < 86400
  {
    Two(c / 3600) + (Two(c / 60 % 60) + Two(c % 60))
  }

  /** %Y%m%d, and %H%M%S for the finer format. */
  function Formatted(fmt: Format, t: int, sys: Sys): string {
    YearText(DayOf(t).year, sys) + (MonthDay(DayOf(t)) + if fmt == Day then "" else Clock(t % 86400))
  }

  /** gmtime_r, which fails when the year does not fit an int, and strftime into 20 bytes. */
  function Strftime(fmt: Format, t: int, sys: Sys): Option<string> {
    var s := Formatted(fmt, t, sys);
    if !(-0x8000_0000 <= DayOf(t).year - 1900 <= 0x7fff_ffff) || |s| > 19 then None else Some(s)
  }

  /** strtoll: text after the number and overflow are failures. */
  function Strtoll(s: string): Option<int> {
    var (q, e) := Scan(s);
    if e < |s| || q == e then None
    else
      var v := Number(s[q..], e - q, 0);
      if 0 < q && s[q - 1] == '-' then (if v > LONG_MAX + 1 then None else Some(-(v as int)))
      else if v > LONG_MAX then None else Some(v)
  }

  /** to_column_fmt: failures throw; the result is cast to a double. */
  function ToColumn(fmt: Format, s: string, sys: Sys): Option<int> {
    if Bypass(fmt, s) then Cast(Strtoll(s))
    else match sys.parse(s)
      case None => None
      case Some(t) =>
        if fmt == Epoch then Some(Double(t))
        else match Strftime(fmt, t, sys)
          case None => None
          case Some(text) => Cast(Strtoll(text))
  }

  function Cast(v: Option<int>): Option<int> { if v.None? then None else Some(Double(v.value)) }

  // ---------------------------------------------------------------- formatted digits read back as the column

  /** A text of digits with value v. */
  predicate Reads(s: string, v: int) { s != "" && AllDigits(s) && Number(s, |s|, 0) == v }

  lemma ReadTwo(n: nat, sofar: nat)
    requires n < 100
    ensures AllDigits(Two(n)) && Number(Two(n), 2, sofar) == sofar * 100 + n
  {
    NumberFrom(Two(n), sofar);
  }

  lemma ReadMonthDay(d: Date, year: nat)
    requires IsDate(d) && d.year == year
    ensures AllDigits(MonthDay(d)) && Number(MonthDay(d), 4, year) == DayColumn(d)
  {
    hide Number;
    ReadTwo(d.month, year);
    ReadTwo(d.day, year * 100 + d.month);
    NumberAppend(Two(d.month), Two(d.day), year);
  }

  lemma ReadSix(h: nat, m: nat, s: nat, day: nat)
    requires h < 100 && m < 100 && s < 100
    ensures var text := Two(h) + (Two(m) + Two(s));
      AllDigits(text) && Number(text, 6, day) == day * 1000000 + h * 10000 + m * 100 + s
  {
    hide Number;
    hide Two;
    ReadTwo(h, day);
    ReadTwo(m, day * 100 + h);
    ReadTwo(s, (day * 100 + h) * 100 + m);
    NumberAppend(Two(m), Two(s), day * 100 + h);
    NumberAppend(Two(h), Two(m) + Two(s), day);
  }

  lemma ReadClock(c: nat, day: nat)
    requires c < 86400
    ensures AllDigits(Clock(c)) && Number(Clock(c), 6, day) == day * 1000000 + ClockColumn(c)
  {
    hide Number;
    hide Two;
    ReadSix(c / 3600, c / 60 % 60, c % 60, day);
  }

  lemma ReadYear(y: nat, sys: Sys)
    requires 1000 <= y <= 9999
    ensures Reads(YearText(y, sys), y) && |YearText(y, sys)| == 4
  {
    hide Number;
    ReadTwo(y / 100, 0);
    ReadTwo(y % 100, y / 100);
    NumberAppend(Two(y / 100), Two(y % 100), 0);
  }

  /** However the system pads a year, digits that read as the year are followed by the rest of the column. */
  lemma FormattedReads(fmt: Format, t: int, sys: Sys)
    requires fmt != Epoch && Reads(YearText(DayOf(t).year, sys), DayOf(t).year)
    ensures Reads(Formatted(fmt, t, sys), Column(fmt, t))
    ensures |Formatted(fmt, t, sys)| == |YearText(DayOf(t).year, sys)| + if fmt == Day then 4 else 10
  {
    hide Number;
    hide DateOf;
    hide YearText;
    hide MonthDay;
    hide Clock;
    hide DayColumn;
    hide ClockColumn;
    var d, year := DayOf(t), YearText(DayOf(t).year, sys);
    var rest := MonthDay(d) + if fmt == Day then "" else Clock(t % 86400);
    ReadMonthDay(d, d.year);
    DayDigits(d);
    if fmt == Seconds {
      ReadClock(t % 86400, Number(MonthDay(d), 4, d.year));
      NumberAppend(MonthDay(d), Clock(t % 86400), d.year);
    } else {
      assert MonthDay(d) + "" == MonthDay(d);
    }
    NumberAppend(year, rest, 0);
  }

  lemma DayDigits(d: Date)
    requires IsDate(d)
    ensures |MonthDay(d)| == 4
    ensures forall c: nat :: c < 86400 ==> |Clock(c)| == 6
  {
  }

  lemma ReadsBack(s: string, v: int)
    requires Reads(s, v)
    ensures Strtoll(s) == if v > LONG_MAX then None else Some(v)
  {
    assert SpaceRun(s) == 0 && s[0..] == s;
    AllDigitsRun(s);
  }

  lemma {:induction false} AllDigitsRun(s: string)
    requires AllDigits(s)
    ensures DigitRun(s) == |s|
  {
    if s != "" {
      AllDigitsRun(s[1..]);
    }
  }

  /** Reading the formatted date back as a number gives the column, exactly, in the years 1000-9999. */
  lemma StrftimeIsColumn(fmt: Format, t: int, sys: Sys)
    requires 1000 <= DayOf(t).year <= 9999 && fmt != Epoch
    ensures var s := Formatted(fmt, t, sys);
      && Strftime(fmt, t, sys) == Some(s) && Bypass(fmt, s)
      && Strtoll(s) == Some(Column(fmt, t)) && Double(Column(fmt, t)) == Column(fmt, t)
  {
    hide Number;
    hide DateOf;
    hide Strtoll;
    hide YearText;
    hide Formatted;
    hide DayColumn;
    ReadYear(DayOf(t).year, sys);
    FormattedReads(fmt, t, sys);
    ReadsBack(Formatted(fmt, t, sys), Column(fmt, t));
    ColumnsAreExact(t);
    DoubleExact(Column(fmt, t));
  }

  /** A date already in column form and the instant it denotes get the same column. */
  lemma ColumnOfFormatted(fmt: Format, t: int, sys: Sys)
    requires 1000 <= DayOf(t).year <= 9999 && fmt != Epoch
    ensures ToColumn(fmt, Formatted(fmt, t, sys), sys) == Some(Column(fmt, t))
  {
    StrftimeIsColumn(fmt, t, sys);
  }

  lemma ColumnOfParsed(fmt: Format, s: string, t: int, sys: Sys)
    requires !Bypass(fmt, s) && sys.parse(s) == Some(t) && 1000 <= DayOf(t).year <= 9999
    ensures ToColumn(fmt, s, sys) == Some(Double(Column(fmt, t)))
    ensures fmt != Epoch ==> Double(Column(fmt, t)) == Column(fmt, t)
  {
    if fmt != Epoch {
      StrftimeIsColumn(fmt, t, sys);
    }
  }

  /**
    In any other year that the system writes in digits, a parsed date gets the cast of its column, unless the
    text outgrows the buffer or the number a long long.
  */
  lemma ColumnOfAnyYear(fmt: Format, s: string, t: int, sys: Sys)
    requires !Bypass(fmt, s) && sys.parse(s) == Some(t) && fmt != Epoch
    requires DayOf(t).year <= 0x7fff_ffff + 1900 && Reads(YearText(DayOf(t).year, sys), DayOf(t).year)
    ensures ToColumn(fmt, s, sys) ==
      if |YearText(DayOf(t).year, sys)| + (if fmt == Day then 4 else 10) > 19 || Column(fmt, t) > LONG_MAX then None
      else Some(Double(Column(fmt, t)))
  {
    hide Number;
    hide DateOf;
    hide Strtoll;
    hide YearText;
    hide Formatted;
    hide DayColumn;
    FormattedReads(fmt, t, sys);
    ReadsBack(Formatted(fmt, t, sys), Column(fmt, t));
  }

  // ---------------------------------------------------------------- ranges

  const DBL_MIN: real := 1.0 / (Pow2(1022) as real)

  datatype Query = AtLeast(from: real) | AtMost(to: real) | Between(from: real, to: real)

  /** Stored columns are doubles too. */
  predicate Selects(q: Query, column: int) {
    var v := Double(column) as real;
    match q
    case AtLeast(from) => from <= v
    case AtMost(to) => v <= to
    case Between(from, to) => from <= v <= to
  }

  /** GitDateRangeProcessor::operator(): an empty end is open. */
  function RangeQuery(fmt: Format, b: string, e: string, sys: Sys): Option<Query> {
    var from := if b == "" then Some(DBL_MIN) else
      match ToColumn(fmt, b, sys) case None => None case Some(v) => Some(v as real);
    if from.None? then None
    else if e == "" then Some(AtLeast(from.value))
    else match ToColumn(fmt, e, sys)
      case None => None
      case Some(to) => Some(if b == "" then AtMost(to as real) else Between(from.value, to as real))
  }

  /** Instants are compared by day for the day column and by second otherwise. */
  predicate NotAfter(fmt: Format, a: int, b: int) { if fmt == Day then a / 86400 <= b / 86400 else a <= b }

  /** The distance to the next instant with another column. */
  function Tick(fmt: Format): int { if fmt == Day then 86400 else 1 }

  lemma ColumnOrder(fmt: Format, a: int, b: int)
    ensures Column(fmt, a) <= Column(fmt, b) <==> NotAfter(fmt, a, b)
  {
    hide TimeColumn;
    hide DayColumn;
    hide DateOf;
    ColumnsFollowTime(a, b);
    ColumnsFollowTime(b, a);
  }

  lemma Ticks(fmt: Format, a: int, b: int)
    ensures NotAfter(fmt, a, b) <==> !NotAfter(fmt, b, a - Tick(fmt))
    ensures NotAfter(fmt, a, b) <==> !NotAfter(fmt, b + Tick(fmt), a)
  {
    if fmt == Day {
      assert (a - 86400) / 86400 == a / 86400 - 1 && (b + 86400) / 86400 == b / 86400 + 1;
    }
  }

  /** The column of x is a different double from the one before, so that x is a sharp lower end. */
  predicate SharpBelow(fmt: Format, x: int) { Double(Column(fmt, x - Tick(fmt))) < Double(Column(fmt, x)) }

  predicate SharpAbove(fmt: Format, y: int) { Double(Column(fmt, y)) < Double(Column(fmt, y + Tick(fmt))) }

  lemma CastOrder(fmt: Format, a: int, b: int)
    ensures NotAfter(fmt, a, b) ==> Double(Column(fmt, a)) <= Double(Column(fmt, b))
    ensures SharpBelow(fmt, a) || SharpAbove(fmt, b) ==>
      (NotAfter(fmt, a, b) <==> Double(Column(fmt, a)) <= Double(Column(fmt, b)))
    ensures !SharpBelow(fmt, a) ==> Double(Column(fmt, a)) <= Double(Column(fmt, a - Tick(fmt)))
    ensures !SharpAbove(fmt, b) ==> Double(Column(fmt, b + Tick(fmt))) <= Double(Column(fmt, b))
  {
    hide Double;
    hide Column;
    hide NotAfter;
    hide Tick;
    var a', b' := a - Tick(fmt), b + Tick(fmt);
    ColumnOrder(fmt, a, b);
    Ticks(fmt, a, b);
    if NotAfter(fmt, a, b) {
      DoubleMonotone(Column(fmt, a), Column(fmt, b));
    } else {
      ColumnOrder(fmt, b, a');
      ColumnOrder(fmt, b', a);
      DoubleMonotone(Column(fmt, b), Column(fmt, a'));
      DoubleMonotone(Column(fmt, b'), Column(fmt, a));
    }
  }

  /** Within 2^53 every end is sharp. */
  lemma SharpWithin(fmt: Format, x: int)
    requires -EXACT <= Column(fmt, x) <= EXACT
    ensures -EXACT < Column(fmt, x) ==> SharpBelow(fmt, x)
    ensures Column(fmt, x) < EXACT ==> SharpAbove(fmt, x)
  {
    hide Double;
    hide Column;
    var c, before, after := Column(fmt, x), Column(fmt, x - Tick(fmt)), Column(fmt, x + Tick(fmt));
    ColumnOrder(fmt, x, x - Tick(fmt));
    ColumnOrder(fmt, x + Tick(fmt), x);
    Ticks(fmt, x, x);
    SharpAt(c);
    DoubleMonotone(before, c - 1);
    DoubleMonotone(c + 1, after);
  }

  lemma SharpAt(c: int)
    requires -EXACT <= c <= EXACT
    ensures c == EXACT || Double(c) < Double(c + 1)
    ensures c == -EXACT || Double(c - 1) < Double(c)
  {
    hide Double;
    DoubleExact(c);
    if c < EXACT {
      DoubleExact(c + 1);
    }
    if -EXACT < c {
      DoubleExact(c - 1);
    }
  }

  /** What a range whose ends denote x and y is meant to select; both ends empty means every positive column. */
  predicate InRange(fmt: Format, b: string, e: string, x: int, y: int, t: int) {
    && (b != "" ==> NotAfter(fmt, x, t))
    && (e != "" ==> NotAfter(fmt, t, y))
    && (b == "" && e == "" ==> 0 < Column(fmt, t))
  }

  /** A parsed or formatted end: its text gets the cast of the column of an instant. */
  predicate Denotes(fmt: Format, s: string, x: int, sys: Sys) {
    ToColumn(fmt, s, sys) == Some(Double(Column(fmt, x)))
  }

  /** What the query compares, over the cast columns. */
  lemma SelectsCast(fmt: Format, b: string, e: string, x: int, y: int, t: int, sys: Sys)
    requires b != "" ==> Denotes(fmt, b, x, sys)
    requires e != "" ==> Denotes(fmt, e, y, sys)
    ensures RangeQuery(fmt, b, e, sys).Some?
    ensures Selects(RangeQuery(fmt, b, e, sys).value, Column(fmt, t)) <==>
      && (b != "" ==> Double(Column(fmt, x)) <= Double(Column(fmt, t)))
      && (e != "" ==> Double(Column(fmt, t)) <= Double(Column(fmt, y)))
      && (b == "" && e == "" ==> 0 < Column(fmt, t))
  {
    hide ToColumn;
    hide Column;
    hide Double;
    DoubleSign(Column(fmt, t));
    assert 0.0 < DBL_MIN <= 1.0;
  }

  /** A range whose ends are sharp selects exactly the instants from x to y. */
  lemma RangeSelectsInstants(fmt: Format, b: string, e: string, x: int, y: int, t: int, sys: Sys)
    requires b != "" ==> Denotes(fmt, b, x, sys) && SharpBelow(fmt, x)
    requires e != "" ==> Denotes(fmt, e, y, sys) && SharpAbove(fmt, y)
    ensures RangeQuery(fmt, b, e, sys).Some?
    ensures Selects(RangeQuery(fmt, b, e, sys).value, Column(fmt, t)) <==> InRange(fmt, b, e, x, y, t)
  {
    hide Column;
    hide NotAfter;
    hide Denotes;
    hide Selects;
    hide RangeQuery;
    hide SharpBelow;
    hide SharpAbove;
    SelectsCast(fmt, b, e, x, y, t, sys);
    CastOrder(fmt, x, t);
    CastOrder(fmt, t, y);
  }

  /** The range is right for every instant. */
  ghost predicate RangeExact(fmt: Format, b: string, e: string, x: int, y: int, sys: Sys) {
    && RangeQuery(fmt, b, e, sys).Some?
    && forall t :: Selects(RangeQuery(fmt, b, e, sys).value, Column(fmt, t)) <==> InRange(fmt, b, e, x, y, t)
  }

  /** Both ends are given and the lower one is a greater double: the query selects nothing. */
  predicate Crossed(fmt: Format, b: string, e: string, x: int, y: int) {
    b != "" && e != "" && Double(Column(fmt, y)) < Double(Column(fmt, x))
  }

  /** And only then, unless the ends are crossed and nothing is selected at all. */
  lemma RangeExactIff(fmt: Format, b: string, e: string, x: int, y: int, sys: Sys)
    requires b != "" ==> Denotes(fmt, b, x, sys)
    requires e != "" ==> Denotes(fmt, e, y, sys)
    ensures RangeExact(fmt, b, e, x, y, sys) <==>
      || Crossed(fmt, b, e, x, y)
      || ((b != "" ==> SharpBelow(fmt, x)) && (e != "" ==> SharpAbove(fmt, y)))
  {
    hide Column;
    hide Double;
    hide Denotes;
    hide RangeExact;
    hide SharpBelow;
    hide SharpAbove;
    if Crossed(fmt, b, e, x, y) {
      CrossedSelectsNothing(fmt, b, e, x, y, sys);
    } else if b != "" && !SharpBelow(fmt, x) {
      BluntBelow(fmt, b, e, x, y, sys);
    } else if e != "" && !SharpAbove(fmt, y) {
      BluntAbove(fmt, b, e, x, y, sys);
    } else {
      SharpSelects(fmt, b, e, x, y, sys);
    }
  }

  lemma SharpSelects(fmt: Format, b: string, e: string, x: int, y: int, sys: Sys)
    requires b != "" ==> Denotes(fmt, b, x, sys) && SharpBelow(fmt, x)
    requires e != "" ==> Denotes(fmt, e, y, sys) && SharpAbove(fmt, y)
    ensures RangeExact(fmt, b, e, x, y, sys)
  {
    hide Denotes;
    hide Selects;
    hide RangeQuery;
    hide InRange;
    hide SharpBelow;
    hide SharpAbove;
    RangeSelectsInstants(fmt, b, e, x, y, x, sys);
    forall t ensures (Selects(RangeQuery(fmt, b, e, sys).value, Column(fmt, t)) <==> InRange(fmt, b, e, x, y, t))
    {
      RangeSelectsInstants(fmt, b, e, x, y, t, sys);
    }
  }

  lemma CrossedSelectsNothing(fmt: Format, b: string, e: string, x: int, y: int, sys: Sys)
    requires Crossed(fmt, b, e, x, y) && Denotes(fmt, b, x, sys) && Denotes(fmt, e, y, sys)
    ensures RangeExact(fmt, b, e, x, y, sys)
  {
    hide Column;
    hide NotAfter;
    hide Denotes;
    hide Selects;
    hide RangeQuery;
    SelectsCast(fmt, b, e, x, y, x, sys);
    forall t ensures !Selects(RangeQuery(fmt, b, e, sys).value, Column(fmt, t)) && !InRange(fmt, b, e, x, y, t) {
      SelectsCast(fmt, b, e, x, y, t, sys);
      CastOrder(fmt, x, t);
      CastOrder(fmt, t, y);
    }
  }

  /** The instant just below a blunt lower end is selected too. */
  lemma BluntBelow(fmt: Format, b: string, e: string, x: int, y: int, sys: Sys)
    requires b != "" && Denotes(fmt, b, x, sys) && !SharpBelow(fmt, x) && !Crossed(fmt, b, e, x, y)
    requires e != "" ==> Denotes(fmt, e, y, sys)
    ensures !RangeExact(fmt, b, e, x, y, sys)
  {
    hide Column;
    hide NotAfter;
    hide Denotes;
    hide Selects;
    hide RangeQuery;
    var t := x - Tick(fmt);
    Ticks(fmt, x, x);
    CastOrder(fmt, x, x);
    CastOrder(fmt, t, x);
    Ticks(fmt, x, t);
    Reflexive(fmt, t, x);
    SelectsCast(fmt, b, e, x, y, t, sys);
    assert Selects(RangeQuery(fmt, b, e, sys).value, Column(fmt, t)) && !InRange(fmt, b, e, x, y, t);
  }

  lemma BluntAbove(fmt: Format, b: string, e: string, x: int, y: int, sys: Sys)
    requires e != "" && Denotes(fmt, e, y, sys) && !SharpAbove(fmt, y) && !Crossed(fmt, b, e, x, y)
    requires b != "" ==> Denotes(fmt, b, x, sys)
    ensures !RangeExact(fmt, b, e, x, y, sys)
  {
    hide Column;
    hide NotAfter;
    hide Denotes;
    hide Selects;
    hide RangeQuery;
    var t := y + Tick(fmt);
    CastOrder(fmt, y, y);
    CastOrder(fmt, y, t);
    Reflexive(fmt, y, t);
    SelectsCast(fmt, b, e, x, y, t, sys);
    assert Selects(RangeQuery(fmt, b, e, sys).value, Column(fmt, t)) && !InRange(fmt, b, e, x, y, t);
  }

  lemma Reflexive(fmt: Format, a: int, b: int)
    requires b == a + Tick(fmt)
    ensures NotAfter(fmt, a, b) && !NotAfter(fmt, b, a)
  {
  }

  /** Ends of the years 1000-9999, or within 2^53 seconds of the epoch, are always exact. */
  lemma OrdinaryRangesExact(fmt: Format, b: string, e: string, x: int, y: int, sys: Sys)
    requires b != "" ==> Denotes(fmt, b, x, sys) && Ordinary(fmt, x)
    requires e != "" ==> Denotes(fmt, e, y, sys) && Ordinary(fmt, y)
    ensures RangeExact(fmt, b, e, x, y, sys)
  {
    hide RangeExact;
    hide Denotes;
    hide Column;
    if b != "" {
      OrdinaryColumn(fmt, x);
      SharpWithin(fmt, x);
    }
    if e != "" {
      OrdinaryColumn(fmt, y);
      SharpWithin(fmt, y);
    }
    SharpSelects(fmt, b, e, x, y, sys);
  }

  predicate Ordinary(fmt: Format, x: int) {
    if fmt == Epoch then -EXACT < x < EXACT else 1000 <= DayOf(x).year <= 9999
  }

  lemma OrdinaryColumn(fmt: Format, x: int)
    requires Ordinary(fmt, x)
    ensures -EXACT < Column(fmt, x) < EXACT
  {
    if fmt != Epoch {
      ColumnsAreExact(x);
    }
  }

  lemma {:induction false} DecimalLength(n: nat)
    ensures 10 <= n ==> 2 <= |Decimal(n)|
    ensures 100 <= n ==> 3 <= |Decimal(n)|
    ensures 1000 <= n ==> 4 <= |Decimal(n)|
    ensures 10000 <= n ==> 5 <= |Decimal(n)|
  {
    if 10 <= n {
      DecimalLength(n / 10);
    }
  }

  /** A raw timestamp of five or more digits denotes itself. */
  lemma EpochText(x: nat, sys: Sys)
    requires 10000 <= x <= LONG_MAX
    ensures Denotes(Epoch, Decimal(x), x, sys)
  {
    hide Double;
    hide Strtoll;
    DecimalLength(x);
    ReadDecimal(x);
    ReadsBack(Decimal(x), x);
  }

  /** From 2^53 + 1 on, the open range from a raw timestamp can also select the second before it. */
  lemma BluntExample(sys: Sys)
    ensures var x := 9007199254740993;
      && Denotes(Epoch, Decimal(x), x, sys)
      && RangeQuery(Epoch, Decimal(x), "", sys).Some?
      && Selects(RangeQuery(Epoch, Decimal(x), "", sys).value, x - 1)
      && !InRange(Epoch, Decimal(x), "", x, x, x - 1)
  {
    hide Double;
    hide Decimal;
    hide Denotes;
    hide RangeQuery;
    hide Selects;
    var x := 9007199254740993;
    EpochText(x, sys);
    FirstInexact();
    DoubleExact(x - 1);
    SelectsCast(Epoch, Decimal(x), "", x, x, x - 1, sys);
  }

  // ---------------------------------------------------------------- a single date

  /** The upper end of a single date: 86400 past its cast column, whatever the format. */
  function FieldEnd(fmt: Format, x: int): int { Double(Double(Column(fmt, x)) + 86400) }

  /** GitDateFieldProcessor::operator() */
  function FieldQuery(fmt: Format, s: string, sys: Sys): Option<Query> {
    match ToColumn(fmt, s, sys)
    case None => None
    case Some(v) => Some(Between(v as real, Double(v + 86400) as real))
  }

  /** The query selects the instants from x to one day later. */
  ghost predicate FieldExact(fmt: Format, s: string, x: int, sys: Sys) {
    && FieldQuery(fmt, s, sys).Some?
    && forall t :: Selects(FieldQuery(fmt, s, sys).value, Column(fmt, t)) <==>
         NotAfter(fmt, x, t) && NotAfter(fmt, t, x + 86400)
  }

  /** The lower end is sharp, and the upper end lies between the casts of the last instant meant and the next. */
  predicate FieldSharp(fmt: Format, x: int) {
    && SharpBelow(fmt, x)
    && Double(Column(fmt, x + 86400)) <= FieldEnd(fmt, x) < Double(Column(fmt, x + 86400 + Tick(fmt)))
  }

  lemma FieldSelects(fmt: Format, s: string, x: int, t: int, sys: Sys)
    requires Denotes(fmt, s, x, sys)
    ensures FieldQuery(fmt, s, sys).Some?
    ensures Selects(FieldQuery(fmt, s, sys).value, Column(fmt, t)) <==>
      Double(Column(fmt, x)) <= Double(Column(fmt, t)) <= FieldEnd(fmt, x)
  {
    hide Column;
    hide Double;
    hide ToColumn;
  }

  /** In any format, a single date selects the day from it on exactly if both its ends are sharp. */
  lemma FieldExactIffSharp(fmt: Format, s: string, x: int, sys: Sys)
    requires Denotes(fmt, s, x, sys)
    ensures FieldExact(fmt, s, x, sys) <==> FieldSharp(fmt, x)
  {
    hide Column;
    hide Double;
    hide NotAfter;
    hide Selects;
    hide FieldQuery;
    hide Denotes;
    hide FieldEnd;
    hide Tick;
    var y := x + 86400;
    FieldSelects(fmt, s, x, x, sys);
    if FieldSharp(fmt, x) {
      forall t ensures Selects(FieldQuery(fmt, s, sys).value, Column(fmt, t)) <==>
        NotAfter(fmt, x, t) && NotAfter(fmt, t, y)
      {
        FieldSelects(fmt, s, x, t, sys);
        CastOrder(fmt, x, t);
        Ticks(fmt, t, y);
        CastOrder(fmt, t, y);
        CastOrder(fmt, y + Tick(fmt), t);
        Total(fmt, y + Tick(fmt), t);
      }
    } else {
      FieldBlunt(fmt, s, x, sys);
    }
  }

  lemma Total(fmt: Format, a: int, b: int)
    ensures NotAfter(fmt, a, b) || NotAfter(fmt, b, a)
  {
  }

  lemma DayIsNotEmpty(fmt: Format, x: int)
    ensures NotAfter(fmt, x, x) && NotAfter(fmt, x, x + 86400) && NotAfter(fmt, x, x + 86400 + Tick(fmt))
    ensures NotAfter(fmt, x + 86400, x + 86400) && !NotAfter(fmt, x, x - Tick(fmt))
    ensures !NotAfter(fmt, x + 86400 + Tick(fmt), x + 86400) && NotAfter(fmt, x - Tick(fmt), x)
  {
  }

  /** Otherwise the instant before x, the last one meant or the one after it is wrong. */
  lemma FieldBlunt(fmt: Format, s: string, x: int, sys: Sys)
    requires Denotes(fmt, s, x, sys) && !FieldSharp(fmt, x)
    ensures !FieldExact(fmt, s, x, sys)
  {
    hide Column;
    hide Double;
    hide NotAfter;
    hide Selects;
    hide FieldQuery;
    hide Denotes;
    hide FieldEnd;
    hide Tick;
    var last := x + 86400;
    var before, next := x - Tick(fmt), last + Tick(fmt);
    DayIsNotEmpty(fmt, x);
    FieldSelects(fmt, s, x, x, sys);
    FieldSelects(fmt, s, x, before, sys);
    FieldSelects(fmt, s, x, last, sys);
    FieldSelects(fmt, s, x, next, sys);
    CastOrder(fmt, x, x);
    CastOrder(fmt, before, x);
    CastOrder(fmt, x, next);
  }

  // ---------------------------------------------------------------- in the decimal formats

  lemma NextDayColumn(n: int)
    ensures DayColumn(DateOf(n)) < DayColumn(DateOf(n + 1)) <= DayColumn(DateOf(n)) + 8870
  {
    hide DateOf;
    DateAdvances(n);
  }

  /** Two days later is still selected by a day, one day later is not selected by a second. */
  lemma ColumnsOneDayOn(x: int)
    ensures Column(Day, x) < Column(Day, x + 2 * 86400) <= Column(Day, x) + 17740
    ensures Column(Seconds, x) + 1000000 <= Column(Seconds, x + 86400)
  {
    hide DateOf;
    hide DayColumn;
    hide ClockColumn;
    var n := x / 86400;
    assert (x + 86400) / 86400 == n + 1 && (x + 2 * 86400) / 86400 == n + 2 && (x + 86400) % 86400 == x % 86400;
    NextDayColumn(n);
    NextDayColumn(n + 1);
  }

  /** strtoll keeps within 64 bits. */
  lemma StrtollBounded(s: string)
    ensures Strtoll(s).Some? ==> -TWO64 / 2 <= Strtoll(s).value <= TWO64 / 2
  {
    hide Number;
  }

  lemma DenotedBounded(fmt: Format, s: string, x: int, sys: Sys)
    requires Denotes(fmt, s, x, sys) && fmt != Epoch
    ensures -TWO64 < Column(fmt, x) < TWO64
  {
    hide Double;
    hide Column;
    hide Strtoll;
    hide Strftime;
    hide Pow2;
    var text := if Bypass(fmt, s) then s else Strftime(fmt, sys.parse(s).value, sys).value;
    var v := Strtoll(text).value;
    StrtollBounded(text);
    Pow2Of64();
    DoublePower(63);
    DoubleNegates(TWO64 / 2);
    DoubleMonotone(v, TWO64 / 2);
    DoubleMonotone(-TWO64 / 2, v);
    CastBounded(Column(fmt, x));
  }

  /** The day after next is within 86400 of a day's column, and a day later is further than that from a second's. */
  lemma DecimalBlunt(fmt: Format, x: int)
    requires fmt != Epoch && -TWO64 < Column(fmt, x) < TWO64
    ensures !FieldSharp(fmt, x)
  {
    hide Double;
    hide Column;
    hide SharpBelow;
    var c := Column(fmt, x);
    ColumnsOneDayOn(x);
    DoubleNear(c);
    if fmt == Day {
      DoubleMonotone(Column(Day, x + 2 * 86400), Double(c) + 86400);
    } else {
      SecondsBlunt(c, Column(Seconds, x + 86400));
    }
  }

  lemma SecondsBlunt(c: int, d: int)
    requires -TWO64 < c < TWO64 && c + 1000000 <= d
    ensures Double(Double(c) + 86400) < Double(d)
  {
    hide Double;
    DoubleNear(c);
    DoubleMonotone(Double(c) + 86400, c + 90000);
    DoubleNear(c + 90000);
    DoubleNear(c + 1000000);
    DoubleMonotone(c + 1000000, d);
  }

  /** A single date selects the day from it on exactly in the format of raw seconds, when its ends are sharp. */
  lemma FieldExactIff(fmt: Format, s: string, x: int, sys: Sys)
    requires Denotes(fmt, s, x, sys)
    ensures FieldExact(fmt, s, x, sys) <==> fmt == Epoch && FieldSharp(Epoch, x)
  {
    hide Denotes;
    hide FieldExact;
    hide FieldSharp;
    hide Column;
    FieldExactIffSharp(fmt, s, x, sys);
    if fmt != Epoch {
      DenotedBounded(fmt, s, x, sys);
      DecimalBlunt(fmt, x);
    }
  }

  /** Within 2^53 the ends are sharp. */
  lemma EpochFieldSharp(x: int)
    requires -EXACT < x && x + 86400 < EXACT
    ensures FieldSharp(Epoch, x)
  {
    hide Double;
    DoubleExact(x - 1);
    DoubleExact(x);
    DoubleExact(x + 86400);
    DoubleExact(x + 86401);
  }

  /** So every date of the years 1000-9999, written in column form, selects something else than its day. */
  lemma FieldExample(fmt: Format, t: int, sys: Sys)
    requires fmt != Epoch && 1000 <= DayOf(t).year <= 9999
    ensures FieldQuery(fmt, Formatted(fmt, t, sys), sys).Some?
    ensures !FieldExact(fmt, Formatted(fmt, t, sys), t, sys)
  {
    hide ToColumn;
    hide Double;
    hide Column;
    hide Formatted;
    hide FieldExact;
    hide DateOf;
    StrftimeIsColumn(fmt, t, sys);
    ColumnOfFormatted(fmt, t, sys);
    FieldExactIff(fmt, Formatted(fmt, t, sys), t, sys);
  }

  // ---------------------------------------------------------------- dates that are parsed

  /** The form of section 3.3 of RFC 2822 gets the column of the UTC instant it denotes. */
  lemma ColumnOfRfc2822(fmt: Format, n: nat, t: Stamp, y: Style, env: Env, sys: Sys)
    requires Expressible(t, y) && DateOf(n) == t.date && Offset(t) != -1
    requires KeepsFields(t, y)
    requires forall s :: ParseDate(s, env).Some? ==> sys.parse(s) == Some(ParseDate(s, env).value.0)
    ensures Denotes(fmt, Text(t, y), LocalSeconds(n, t) - Offset(t) * 60, sys)
  {
    hide ParseDate;
    hide DateOf;
    hide ToColumn;
    hide Expressible;
    hide Text;
    ParsesExactlyIff(n, t, y, env);
    NotAllDigits(t, y);
    UtcYear(n, t, y);
    ColumnOfParsed(fmt, Text(t, y), LocalSeconds(n, t) - Offset(t) * 60, sys);
  }

  /** A zone moves the instant by less than a day. */
  lemma UtcYear(n: nat, t: Stamp, y: Style)
    requires DateOf(n) == t.date && Expressible(t, y)
    ensures 1000 <= DayOf(LocalSeconds(n, t) - Offset(t) * 60).year <= 9999
  {
    hide DateOf;
    var utc := LocalSeconds(n, t) - Offset(t) * 60;
    assert n - 1 <= utc / 86400 <= n + 1;
    DateAdvances(n);
    DateAdvances(n - 1);
  }

  lemma NotAllDigits(t: Stamp, y: Style)
    requires Expressible(t, y)
    ensures !AllDigits(Text(t, y))
  {
    hide FromMonth;
    hide TailOk;
    var n := |y.gaps.lead|;
    assert Text(t, y)[n..] == FromWeekday(t, y);
    if y.weekday.Some? {
      NamesAreWords(WEEKDAYS, y.weekday.value);
      assert FromWeekday(t, y)[3] == ',' == Text(t, y)[n + 3];
    } else {
      var d := |DayText(t.date.day, y.padded)|;
      assert FromWeekday(t, y)[d] == y.gaps.day[0] == Text(t, y)[n + d];
    }
  }
}
