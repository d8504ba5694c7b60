/** parse_date_basic: the greedy date parser, over NUL-terminated text. */
module DateParse {
  import opened Strings
  import opened Calendar

  /** What the parser asks of the system. */
  datatype Env = Env(now: int, nowTm: Option<Tm>, gmtime: int -> Option<Tm>, mktime: Tm -> int)

  /** The fields found so far: the broken-down time, the zone offset (-1 if unset), and tm_gmt. */
  datatype Found = Found(tm: Tm, offset: int, gmt: bool)

  const NOTHING: Found := Found(Tm(-1, -1, -1, -1, -1, -1, 0), -1, false)

  // ---------------------------------------------------------------- characters and numbers

  predicate IsAlpha(c: char) { 'a' <= c <= 'z' || 'A' <= c <= 'Z' }

  predicate IsAlnum(c: char) { IsDigit(c) || IsAlpha(c) }

  predicate IsSpace(c: char) { c == ' ' || '\t' <= c <= '\r' }

  function Upper(c: char): char { if 'a' <= c <= 'z' then (c as int - 32) as char else c }

  function SpaceRun(s: string): (n: nat)
    ensures n <= |s|
  {
    if s == "" || !IsSpace(s[0]) then 0 else 1 + SpaceRun(s[1..])
  }

  const ULONG_MAX: nat := 0xffff_ffff_ffff_ffff
  const LONG_MAX: nat := 0x7fff_ffff_ffff_ffff

  /** The digits of a number in base 10 after white space and a sign: where they start and end. */
  function Scan(s: string): (r: (nat, nat))
    ensures r.0 <= r.1 <= |s| && forall i :: r.0 <= i < r.1 ==> IsDigit(s[i])
  {
    var p := SpaceRun(s);
    var q := if At(s, p) == '+' || At(s, p) == '-' then p + 1 else p;
    var n := DigitRun(s[q..]);
    assert forall i :: q <= i < q + n ==> s[i] == s[q..][i - q];
    (q, q + n)
  }

  /** strtoul: the value modulo 2^64 (saturated) and the characters used, none if there are no digits. */
  function Strtoul(s: string): (r: (nat, nat))
    ensures r.1 <= |s|
  {
    var (q, e) := Scan(s);
    if q == e then (0, 0)
    else
      var v := Number(s[q..], e - q, 0);
      if v > ULONG_MAX then (ULONG_MAX, e)
      else if 0 < q && s[q - 1] == '-' && v > 0 then (ULONG_MAX + 1 - v, e)
      else (v, e)
  }

  /** strtol, saturated. */
  function Strtol(s: string): (r: (int, nat))
    ensures r.1 <= |s|
  {
    var (q, e) := Scan(s);
    if q == e then (0, 0)
    else
      var v := Number(s[q..], e - q, 0);
      if 0 < q && s[q - 1] == '-' then (if v > LONG_MAX then -(LONG_MAX as int) - 1 else -(v as int), e)
      else (if v > LONG_MAX then LONG_MAX else v, e)
  }

  /** Conversion to a 32-bit int. */
  function ToInt(v: int): int {
    var m := v % 0x1_0000_0000;
    if m < 0x8000_0000 then m else m - 0x1_0000_0000
  }

  /** C's remainder, which takes the sign of the dividend. */
  function CRem(a: int, b: nat): int
    requires b > 0
  {
    if a >= 0 then a % b else -((-a) % b)
  }

  function CDiv(a: int, b: nat): int
    requires b > 0
  {
    if a >= 0 then a / b else -((-a) / b)
  }

  // ---------------------------------------------------------------- names

  const MONTHS: seq<string> := ["January", "February", "March", "April", "May", "June", "July", "August",
                                "September", "October", "November", "December"]

  const WEEKDAYS: seq<string> := ["Sundays", "Mondays", "Tuesdays", "Wednesdays", "Thursdays", "Fridays", "Saturdays"]

  datatype Zone = Zone(name: string, offset: int, dst: int)

  const ZONE_COUNT: nat := 44

  /** timezone_names */
  function ZoneAt(z: nat): Zone
    requires z < ZONE_COUNT
  {
    match z
    case 0 => Zone("IDLW", -12, 0)
    case 1 => Zone("NT", -11, 0)
    case 2 => Zone("CAT", -10, 0)
    case 3 => Zone("HST", -10, 0)
    case 4 => Zone("HDT", -10, 1)
    case 5 => Zone("YST", -9, 0)
    case 6 => Zone("YDT", -9, 1)
    case 7 => Zone("PST", -8, 0)
    case 8 => Zone("PDT", -8, 1)
    case 9 => Zone("MST", -7, 0)
    case 10 => Zone("MDT", -7, 1)
    case 11 => Zone("CST", -6, 0)
    case 12 => Zone("CDT", -6, 1)
    case 13 => Zone("EST", -5, 0)
    case 14 => Zone("EDT", -5, 1)
    case 15 => Zone("AST", -3, 0)
    case 16 => Zone("ADT", -3, 1)
    case 17 => Zone("WAT", -1, 0)
    case 18 => Zone("GMT", 0, 0)
    case 19 => Zone("UTC", 0, 0)
    case 20 => Zone("Z", 0, 0)
    case 21 => Zone("WET", 0, 0)
    case 22 => Zone("BST", 0, 1)
    case 23 => Zone("CET", 1, 0)
    case 24 => Zone("MET", 1, 0)
    case 25 => Zone("MEWT", 1, 0)
    case 26 => Zone("MEST", 1, 1)
    case 27 => Zone("CEST", 1, 1)
    case 28 => Zone("MESZ", 1, 1)
    case 29 => Zone("FWT", 1, 0)
    case 30 => Zone("FST", 1, 1)
    case 31 => Zone("EET", 2, 0)
    case 32 => Zone("EEST", 2, 1)
    case 33 => Zone("WAST", 7, 0)
    case 34 => Zone("WADT", 7, 1)
    case 35 => Zone("CCT", 8, 0)
    case 36 => Zone("JST", 9, 0)
    case 37 => Zone("EAST", 10, 0)
    case 38 => Zone("EADT", 10, 1)
    case 39 => Zone("GST", 10, 0)
    case 40 => Zone("NZT", 12, 0)
    case 41 => Zone("NZST", 12, 0)
    case 42 => Zone("NZDT", 12, 1)
    case 43 => Zone("IDLE", 12, 0)
  }

  /** match_string from offset i on: how far s follows str, or 0 if it leaves it inside a word. */
  function MatchString(s: string, str: string, i: nat): (n: nat)
    requires i <= |s|
    ensures n == 0 || i <= n <= |s|
    ensures n != 0 && n < |s| ==> !IsAlnum(s[n])
    decreases |s| - i
  {
    if i == |s| then i
    else if i < |str| && Upper(s[i]) == Upper(str[i]) then MatchString(s, str, i + 1)
    else if IsAlnum(s[i]) then 0
    else i
  }

  /** It finds the longest common prefix, without regard to case, unless the word goes on behind it. */
  lemma {:induction false} MatchStringIs(s: string, str: string, i: nat, k: nat)
    requires i <= k <= |s| && k <= |str|
    requires forall j :: i <= j < k ==> Upper(s[j]) == Upper(str[j])
    requires k < |s| && k < |str| ==> Upper(s[k]) != Upper(str[k])
    ensures MatchString(s, str, i) == if k < |s| && IsAlnum(s[k]) then 0 else k
    decreases k - i
  {
    if i < k {
      MatchStringIs(s, str, i + 1, k);
    }
  }

  /** The first name from index i on of which s has at least three letters, or |names|. */
  function FirstName(s: string, names: seq<string>, i: nat): (r: nat)
    requires i <= |names|
    ensures i <= r <= |names| && (r < |names| ==> MatchString(s, names[r], 0) >= 3)
    decreases |names| - i
  {
    if i == |names| || MatchString(s, names[i], 0) >= 3 then i else FirstName(s, names, i + 1)
  }

  predicate ZoneHit(s: string, z: nat)
    requires z < ZONE_COUNT
  {
    var m := MatchString(s, ZoneAt(z).name, 0);
    m >= 3 || m == |ZoneAt(z).name|
  }

  function FirstZone(s: string, i: nat): (r: nat)
    requires i <= ZONE_COUNT
    ensures r <= ZONE_COUNT && (r < ZONE_COUNT ==> ZoneHit(s, r))
    decreases ZONE_COUNT - i
  {
    if i == ZONE_COUNT || ZoneHit(s, i) then i else FirstZone(s, i + 1)
  }

  /** skip_alpha */
  function AlphaRun(s: string, i: nat): (n: nat)
    requires 0 < i <= |s|
    ensures i <= n <= |s|
    decreases |s| - i
  {
    if i < |s| && IsAlpha(s[i]) then AlphaRun(s, i + 1) else i
  }

  // ---------------------------------------------------------------- one word, number or zone

  /** match_alpha: a month, weekday or zone name, AM or PM, or a word to skip. */
  function MatchAlpha(s: string, f: Found): (r: (nat, Found))
    requires s != "" && IsAlpha(s[0])
    ensures 1 <= r.0 <= |s|
  {
    var m := FirstName(s, MONTHS, 0);
    if m < |MONTHS| then (MatchString(s, MONTHS[m], 0), f.(tm := f.tm.(mon := m)))
    else
      var w := FirstName(s, WEEKDAYS, 0);
      if w < |WEEKDAYS| then (MatchString(s, WEEKDAYS[w], 0), f.(tm := f.tm.(wday := w)))
      else
        var z := FirstZone(s, 0);
        if z < ZONE_COUNT then
          ZoneNamesNotEmpty(z);
          (MatchString(s, ZoneAt(z).name, 0),
           if f.offset == -1 then f.(offset := 60 * (ZoneAt(z).offset + ZoneAt(z).dst)) else f)
        else if MatchString(s, "PM", 0) == 2 then (2, f.(tm := f.tm.(hour := CRem(f.tm.hour, 12) + 12)))
        else if MatchString(s, "AM", 0) == 2 then (2, f.(tm := f.tm.(hour := CRem(f.tm.hour, 12))))
        else (AlphaRun(s, 1), f)
  }

  lemma ZoneNamesNotEmpty(z: nat)
    requires z < ZONE_COUNT
    ensures |ZoneAt(z).name| > 0
  {
  }

  /** is_date: sets the date if the numbers can be one and it is not more than ten days ahead. */
  function TryDate(year: int, month: int, day: int, env: Env, tm: Tm): (bool, Tm) {
    if !(0 < month < 13 && 0 < day < 32) then (false, tm)
    else
      var r := tm.(mon := month - 1, mday := day);
      if year == -1 && env.nowTm.None? then (true, r)
      else if !(year == -1 || 1970 <= year < 2100 || 70 < year < 100 || year < 38) then
        (false, if env.nowTm.None? then r else tm)
      else
        var y := if year == -1 then env.nowTm.value.year
                 else if 1970 <= year < 2100 then year - 1900
                 else if 70 < year < 100 then year
                 else year + 100;
        if env.nowTm.None? then (true, r.(year := y))
        else if env.now + 10 * 24 * 3600 < TmToTime(r.(year := y)) then (false, tm)
        else (true, if year == -1 then r else r.(year := y))
  }

  /** The first of the readings of three numbers as a date that is_date accepts. */
  function FirstDate(tries: seq<(int, int, int)>, env: Env, tm: Tm): (bool, Tm) {
    if tries == [] then (false, tm)
    else
      var (ok, tm') := TryDate(ToInt(tries[0].0), ToInt(tries[0].1), ToInt(tries[0].2), env, tm);
      if ok then (true, tm') else FirstDate(tries[1..], env, tm')
  }

  /** match_multi_number: num c num2 [c num3], where s[e] == c; 0 if it is neither a time nor a date. */
  function MatchMultiNumber(num: nat, c: char, s: string, e: nat, env: Env, tm: Tm): (r: (nat, Tm))
    requires e < |s| && s[e] == c && c != NUL
    ensures r.0 <= |s|
  {
    var (num2, used2) := Strtol(s[e + 1..]);
    var e2 := e + 1 + used2;
    var third := At(s, e2) == c && IsDigit(At(s, e2 + 1));
    var (num3, used3) := if third then Strtol(s[e2 + 1..]) else (-1, 0);
    var end := if third then e2 + 1 + used3 else e2;
    if c == ':' then
      var sec := if num3 < 0 then 0 else num3;
      if num < 25 && 0 <= num2 < 60 && 0 <= sec <= 60 then (end, tm.(hour := num, min := num2, sec := sec))
      else (0, tm)
    else
      var (ok, tm') := FirstDate(
        (if num > 70 then [(num, num2, num3), (num, num3, num2)] else [])
        + (if c != '.' then [(num3, num, num2)] else [])
        + [(num3, num2, num)]
        + (if c == '.' then [(num3, num, num2)] else []), env, tm);
      (if ok then end else 0, tm')
  }

  predicate NoDate(tm: Tm) { tm.year < 0 && tm.mon < 0 && tm.mday < 0 && tm.hour < 0 && tm.min < 0 && tm.sec < 0 }

  /** The guess for a number that is no time, date or timestamp, by how many digits it has. */
  function GuessNumber(num: nat, n: nat, f: Found): Found {
    var tm := f.tm;
    if n == 4 then
      if num <= 1400 && f.offset == -1 then f.(offset := num / 100 * 60 + num % 100)
      else if 1900 < num < 2100 then f.(tm := tm.(year := num - 1900))
      else f
    else if n > 2 then f
    else if 0 < num < 32 && tm.mday < 0 then f.(tm := tm.(mday := num))
    else if n == 2 && tm.year < 0 && num < 10 && tm.mday >= 0 then f.(tm := tm.(year := num + 100))
    else if n == 2 && tm.year < 0 && num >= 70 then f.(tm := tm.(year := num))
    else if 0 < num < 13 && tm.mon < 0 then f.(tm := tm.(mon := num - 1))
    else f
  }

  /** match_digit */
  function MatchDigit(s: string, f: Found, env: Env): (r: (nat, Found))
    requires s != "" && IsDigit(s[0])
    ensures r.0 <= |s|
  {
    var n := DigitRun(s);
    var v := Number(s, n, 0);
    var num := if v > ULONG_MAX then ULONG_MAX else v;
    if num >= 100000000 && NoDate(f.tm) && env.gmtime(num).Some? then
      (n, f.(tm := env.gmtime(num).value, gmt := true))
    else
      var c := At(s, n);
      var (m, tm) := if (c == ':' || c == '.' || c == '/' || c == '-') && IsDigit(At(s, n + 1))
                     then MatchMultiNumber(num, c, s, n, env, f.tm) else (0, f.tm);
      if m != 0 then (m, f.(tm := tm)) else (n, GuessNumber(num, n, f.(tm := tm)))
  }

  /** match_tz: +hhmm, +hh or +hh:mm; anything else is skipped. */
  function MatchTz(s: string, f: Found): (r: (nat, Found))
    requires |s| >= 2 && (s[0] == '+' || s[0] == '-') && IsDigit(s[1])
    ensures r.0 <= |s|
  {
    var (v, n) := Strtoul(s[1..]);
    var colon := n == 2 && At(s, 3) == ':';
    var (v2, n2) := if colon then Strtoul(s[4..]) else (0, 0);
    var end := if colon then 4 + n2 else 1 + n;
    var hour := if n == 4 then v / 100 else ToInt(v);
    var min := if n == 4 then v % 100
               else if n != 2 then 99
               else if !colon then 0
               else if end - 1 != 5 then 99 else ToInt(v2);
    var off := hour * 60 + min;
    (end, if min < 60 && hour < 24 then f.(offset := if s[0] == '-' then -off else off) else f)
  }

  // ---------------------------------------------------------------- the whole text

  /** One step of the scan: the characters it takes and what it finds. */
  function Token(s: string, f: Found, env: Env): (r: (nat, Found))
    requires s != ""
    ensures 1 <= r.0 <= |s|
  {
    var (m, g) :=
      if IsAlpha(s[0]) then MatchAlpha(s, f)
      else if IsDigit(s[0]) then MatchDigit(s, f, env)
      else if (s[0] == '-' || s[0] == '+') && IsDigit(At(s, 1)) then MatchTz(s, f)
      else (0, f);
    (if m == 0 then 1 else m, g)
  }

  /** The scan to the end of the string or line. Every step takes a character, so it ends. */
  function ScanAll(s: string, f: Found, env: Env): Found
    decreases |s|
  {
    if s == "" || s[0] == '\n' then f
    else
      var (m, g) := Token(s, f, env);
      ScanAll(s[m..], g, env)
  }

  /** An @timestamp +hhmm stamp: the time and the offset. */
  function ObjectHeaderDate(s: string): Option<(int, int)> {
    if !('0' <= At(s, 0) < '9') then None
    else
      var (stamp, e) := Strtoul(s);
      if At(s, e) != ' ' || stamp == ULONG_MAX || (At(s, e + 1) != '+' && At(s, e + 1) != '-') then None
      else
        var (v, n) := Strtol(s[e + 2..]);
        var ofs := ToInt(v);
        var after := At(s, e + 2 + n);
        if (after != NUL && after != '\n') || n != 4 then None
        else
          var minutes := CDiv(ofs, 100) * 60 + CRem(ofs, 100);
          Some((stamp, if s[e + 1] == '-' then -minutes else minutes))
  }

  /** What the fields amount to: the instant and the offset, or failure. */
  function Conclude(f: Found, env: Env): Option<(int, int)> {
    var t := TmToTime(f.tm);
    var offset := if f.offset == -1 then CDiv(ToInt(t - env.mktime(f.tm)), 60) else f.offset;
    if t == -1 then None else Some((if f.gmt then t else t - offset * 60, offset))
  }

  function ParseDate(s: string, env: Env): Option<(int, int)> {
    if At(s, 0) == '@' && ObjectHeaderDate(s[1..]).Some? then ObjectHeaderDate(s[1..])
    else Conclude(ScanAll(s, NOTHING, env), env)
  }

  /** parse_date_basic: the cursor moves forward at every step and stops at the terminator. */
  method ParseDateBasic(s: string, env: Env) returns (r: Option<(int, int)>)
    ensures r == ParseDate(s, env)
  {
    hide Token;
    hide Conclude;
    hide ObjectHeaderDate;
    if At(s, 0) == '@' {
      r := ObjectHeaderDate(s[1..]);
      if r.Some? {
        return;
      }
    }
    var p, f := 0, NOTHING;
    assert s[0..] == s;
    while p < |s| && s[p] != '\n'
      invariant 0 <= p <= |s| && ScanAll(s[p..], f, env) == ScanAll(s, NOTHING, env)
    {
      var m, g := Token(s[p..], f, env).0, Token(s[p..], f, env).1;
      assert s[p..][m..] == s[p + m..];
      p, f := p + m, g;
    }
    r := Conclude(f, env);
  }
}
