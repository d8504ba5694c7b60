/** The words the date parser knows: months, zones by name, and the words of one or two letters. */
module ZoneWords {
  import opened Strings
  import opened DateParse
  import opened Rfc2822

  // ---------------------------------------------------------------- names told apart

  predicate SameAt(a: string, b: string, k: nat) { k < |a| && k < |b| && Upper(a[k]) == Upper(b[k]) }

  predicate DifferAt(a: string, b: string, k: nat) { k < |a| && k < |b| && Upper(a[k]) != Upper(b[k]) }

  /** Two names differ within four letters, before either ends. */
  predicate Apart(a: string, b: string) {
    || DifferAt(a, b, 0)
    || (SameAt(a, b, 0) && (
          || DifferAt(a, b, 1)
          || (SameAt(a, b, 1) && (DifferAt(a, b, 2) || (SameAt(a, b, 2) && DifferAt(a, b, 3))))))
  }

  /** The same letters, in whatever case. */
  predicate SameLetters(w: string, name: string) {
    |w| == |name| && forall k :: 0 <= k < |w| ==> IsAlpha(w[k]) && Upper(w[k]) == Upper(name[k])
  }

  lemma ApartMisses(w: string, name: string, other: string)
    requires SameLetters(w, name) && Apart(name, other)
    ensures MatchString(w, other, 0) == 0
  {
    var k := if DifferAt(name, other, 0) then 0 else if DifferAt(name, other, 1) then 1
             else if DifferAt(name, other, 2) then 2 else 3;
    MatchStringIs(w, other, 0, k);
  }

  lemma OwnMatches(w: string, name: string)
    requires SameLetters(w, name)
    ensures MatchString(w, name, 0) == |w|
  {
    MatchStringIs(w, name, 0, |w|);
  }

  lemma {:induction false} NoName(w: string, names: seq<string>, i: nat)
    requires i <= |names| && forall j :: i <= j < |names| ==> MatchString(w, names[j], 0) < 3
    ensures FirstName(w, names, i) == |names|
    decreases |names| - i
  {
    hide MatchString;
    if i < |names| {
      NoName(w, names, i + 1);
    }
  }

  lemma {:induction false} FirstZoneIs(w: string, i: nat, z: nat)
    requires i <= z <= ZONE_COUNT && (forall j :: i <= j < z ==> !ZoneHit(w, j)) && (z < ZONE_COUNT ==> ZoneHit(w, z))
    ensures FirstZone(w, i) == z
    decreases z - i
  {
    hide ZoneHit;
    if i < z {
      FirstZoneIs(w, i + 1, z);
    }
  }

  // ---------------------------------------------------------------- months and weekdays written out

  function FullMonth(month: nat): string
    requires 1 <= month <= 12
  {
    match month
    case 1 => "January"
    case 2 => "February"
    case 3 => "March"
    case 4 => "April"
    case 5 => "May"
    case 6 => "June"
    case 7 => "July"
    case 8 => "August"
    case 9 => "September"
    case 10 => "October"
    case 11 => "November"
    case 12 => "December"
  }

  lemma FullMonthsKnown(month: nat)
    requires 1 <= month <= 12
    ensures MONTHS[month - 1] == FullMonth(month)
  {
  }

  /** Three or more letters that start the English name of a month, in any case, are that month. */
  lemma MonthWord(w: string, month: nat)
    requires 1 <= month <= 12 && 3 <= |w| <= |FullMonth(month)| && SameLetters(w, FullMonth(month)[..|w|])
    ensures Kind(w) == Month(month - 1)
  {
    hide MatchString;
    hide FirstName;
    hide FullMonth;
    hide FirstZone;
    FullMonthsKnown(month);
    var name := FullMonth(month);
    forall j | 0 <= j < month - 1 ensures MatchString(w, MONTHS[j], 0) == 0 {
      MonthsDiffer(month - 1, j);
      StartDiffers(w, name, MONTHS[j]);
    }
    MatchStringIs(w, name, 0, |w|);
    FirstNameIs(w, MONTHS, 0, month - 1);
  }

  lemma StartDiffers(w: string, name: string, other: string)
    requires 3 <= |w| <= |name| && |other| >= 3 && SameLetters(w, name[..|w|]) && Differ(name, other)
    ensures MatchString(w, other, 0) == 0
  {
    assert forall k :: 0 <= k < |w| ==> Upper(w[k]) == Upper(name[k]);
    var k := if Upper(name[0]) != Upper(other[0]) then 0 else if Upper(name[1]) != Upper(other[1]) then 1 else 2;
    MatchStringIs(w, other, 0, k);
  }

  // ---------------------------------------------------------------- zones by name

  /** Every zone the parser knows by name. */
  function ZoneLabel(z: nat): string
    requires z < 44
  {
    match z
    case 0 => "IDLW"
    case 1 => "NT"
    case 2 => "CAT"
    case 3 => "HST"
    case 4 => "HDT"
    case 5 => "YST"
    case 6 => "YDT"
    case 7 => "PST"
    case 8 => "PDT"
    case 9 => "MST"
    case 10 => "MDT"
    case 11 => "CST"
    case 12 => "CDT"
    case 13 => "EST"
    case 14 => "EDT"
    case 15 => "AST"
    case 16 => "ADT"
    case 17 => "WAT"
    case 18 => "GMT"
    case 19 => "UTC"
    case 20 => "Z"
    case 21 => "WET"
    case 22 => "BST"
    case 23 => "CET"
    case 24 => "MET"
    case 25 => "MEWT"
    case 26 => "MEST"
    case 27 => "CEST"
    case 28 => "MESZ"
    case 29 => "FWT"
    case 30 => "FST"
    case 31 => "EET"
    case 32 => "EEST"
    case 33 => "WAST"
    case 34 => "WADT"
    case 35 => "CCT"
    case 36 => "JST"
    case 37 => "EAST"
    case 38 => "EADT"
    case 39 => "GST"
    case 40 => "NZT"
    case 41 => "NZST"
    case 42 => "NZDT"
    case 43 => "IDLE"
  }

  /** Its hours east of UTC; summer time counts. */
  function ZoneHours(z: nat): int
    requires z < 44
  {
    match z
    case 0 => -12
    case 1 => -11
    case 2 => -10
    case 3 => -10
    case 4 => -9
    case 5 => -9
    case 6 => -8
    case 7 => -8
    case 8 => -7
    case 9 => -7
    case 10 => -6
    case 11 => -6
    case 12 => -5
    case 13 => -5
    case 14 => -4
    case 15 => -3
    case 16 => -2
    case 17 => -1
    case 18 => 0
    case 19 => 0
    case 20 => 0
    case 21 => 0
    case 22 => 1
    case 23 => 1
    case 24 => 1
    case 25 => 1
    case 26 => 2
    case 27 => 2
    case 28 => 2
    case 29 => 1
    case 30 => 2
    case 31 => 2
    case 32 => 3
    case 33 => 7
    case 34 => 8
    case 35 => 8
    case 36 => 9
    case 37 => 10
    case 38 => 11
    case 39 => 10
    case 40 => 12
    case 41 => 12
    case 42 => 13
    case 43 => 12
  }

  lemma ZoneTable(z: nat)
    requires z < 44
    ensures ZoneAt(z).name == ZoneLabel(z) && ZoneAt(z).offset + ZoneAt(z).dst == ZoneHours(z)
  {
  }

  lemma LabelLength(z: nat)
    requires z < 44
    ensures |ZoneLabel(z)| >= 3 || z == 1 || z == 20
  {
  }

  lemma WesternApart(i: nat, j: nat)
    requires i < j < 44 && i < 5
    ensures Apart(ZoneLabel(j), ZoneLabel(i))
  {
  }

  lemma AmericanApart(i: nat, j: nat)
    requires 5 <= i < j < 44 && i < 14
    ensures Apart(ZoneLabel(j), ZoneLabel(i))
  {
  }

  lemma EuropeanApart(i: nat, j: nat)
    requires 14 <= i < j < 44 && i < 24
    ensures Apart(ZoneLabel(j), ZoneLabel(i))
  {
  }

  lemma EasternApart(i: nat, j: nat)
    requires 24 <= i < j < 44
    ensures Apart(ZoneLabel(j), ZoneLabel(i))
  {
  }

  /** No name of the table is the start of another, so each is found as itself. */
  lemma ZonesApart(i: nat, j: nat)
    requires i < j < 44
    ensures Apart(ZoneLabel(j), ZoneLabel(i))
  {
    hide *;
    if i < 5 {
      WesternApart(i, j);
    } else if i < 14 {
      AmericanApart(i, j);
    } else if i < 24 {
      EuropeanApart(i, j);
    } else {
      EasternApart(i, j);
    }
  }

  predicate StartsMonth(c: char) {
    c == 'J' || c == 'F' || c == 'M' || c == 'A' || c == 'S' || c == 'O' || c == 'N' || c == 'D'
  }

  /** A second letter of zones that no month has. */
  predicate NotInMonth(c: char) { c == 'S' || c == 'W' || c == 'D' || c == 'T' || c == 'Z' }

  /** How the zone names that start like a month go on. */
  lemma ZoneHeads(z: nat)
    requires z < 44
    ensures var name := ZoneLabel(z);
      name != "" && (StartsMonth(name[0]) ==> |name| > 1 && (NotInMonth(name[1]) || (name[0] == 'M' && name[1] == 'E')))
  {
  }

  lemma ZoneUpper(z: nat)
    requires z < 44
    ensures var name := ZoneLabel(z);
      |name| > 0 && 'A' <= name[0] <= 'Z' && (|name| > 1 ==> 'A' <= name[1] <= 'Z')
  {
  }

  /** And those that start like a weekday. */
  lemma WesternHeads(z: nat)
    requires z < 44
    ensures var name := ZoneLabel(z);
      && name != "" && name[0] != 'S' && name[0] != 'T'
      && (name[0] == 'W' ==> |name| > 2 && (name[1] == 'A' || (name[1] == 'E' && name[2] == 'T')))
  {
  }

  lemma MonthHeads(m: nat)
    requires m < 12
    ensures var name := MONTHS[m];
      && |name| > 2 && StartsMonth(Upper(name[0])) && !NotInMonth(Upper(name[1]))
      && (Upper(name[0]) == 'M' ==> Upper(name[1]) == 'A')
  {
  }

  lemma WeekdayHeads(d: nat)
    requires d < 7
    ensures var name := WEEKDAYS[d];
      && |name| > 2
      && match Upper(name[0])
         case 'M' => Upper(name[1]) == 'O'
         case 'F' => Upper(name[1]) == 'R'
         case 'W' => Upper(name[1]) == 'E' && Upper(name[2]) == 'D'
         case c => c == 'S' || c == 'T'
  {
  }

  lemma ZoneNoMonth(z: nat, m: nat)
    requires z < 44 && m < 12
    ensures Apart(ZoneLabel(z), MONTHS[m])
  {
    hide StartsMonth;
    hide NotInMonth;
    ZoneHeads(z);
    ZoneUpper(z);
    MonthHeads(m);
  }

  lemma ZoneNoWeekday(z: nat, d: nat)
    requires z < 44 && d < 7
    ensures Apart(ZoneLabel(z), WEEKDAYS[d])
  {
    ZoneUpper(z);
    WesternHeads(z);
    WeekdayHeads(d);
  }

  lemma NoZoneHit(w: string, z: nat)
    requires z < 44 && MatchString(w, ZoneLabel(z), 0) == 0
    ensures !ZoneHit(w, z)
  {
    hide MatchString;
    hide ZoneLabel;
    ZoneTable(z);
    ZoneNamesNotEmpty(z);
  }

  /** Each zone name, in any case, is that zone. */
  lemma ZoneWord(w: string, z: nat)
    requires z < 44 && SameLetters(w, ZoneLabel(z))
    ensures Kind(w) == ZoneName(60 * ZoneHours(z))
  {
    hide MatchString;
    hide FirstName;
    hide FirstZone;
    hide Apart;
    hide ZoneHit;
    hide SameLetters;
    hide ZoneLabel;
    hide ZoneHours;
    ZoneTable(z);
    var name := ZoneLabel(z);
    forall m | 0 <= m < 12 ensures MatchString(w, MONTHS[m], 0) < 3 {
      ZoneNoMonth(z, m);
      ApartMisses(w, name, MONTHS[m]);
    }
    forall d | 0 <= d < 7 ensures MatchString(w, WEEKDAYS[d], 0) < 3 {
      ZoneNoWeekday(z, d);
      ApartMisses(w, name, WEEKDAYS[d]);
    }
    NoName(w, MONTHS, 0);
    NoName(w, WEEKDAYS, 0);
    forall i | 0 <= i < z ensures !ZoneHit(w, i) {
      ZonesApart(i, z);
      ZoneTable(i);
      ApartMisses(w, name, ZoneLabel(i));
      NoZoneHit(w, i);
    }
    OwnZoneHit(w, z);
    FirstZoneIs(w, 0, z);
  }

  lemma OwnZoneHit(w: string, z: nat)
    requires z < 44 && SameLetters(w, ZoneLabel(z))
    ensures ZoneHit(w, z)
  {
    hide ZoneLabel;
    ZoneTable(z);
    OwnMatches(w, ZoneLabel(z));
  }

  /** A word of one or two letters is the zone NT or Z, PM or AM, or nothing. */
  lemma ShortWord(w: string)
    requires 1 <= |w| <= 2 && AllAlpha(w)
    ensures Kind(w) ==
      if SameLetters(w, "NT") then ZoneName(-660)
      else if SameLetters(w, "Z") then ZoneName(0)
      else if SameLetters(w, "PM") then Pm
      else if SameLetters(w, "AM") then Am
      else Unknown
  {
    hide MatchString;
    hide FirstName;
    hide FirstZone;
    hide ZoneHit;
    hide SameLetters;
    NamesAllAlpha();
    forall m | 0 <= m < 12 ensures MatchString(w, MONTHS[m], 0) < 3 {
      AtMostWord(w, MONTHS[m]);
    }
    forall d | 0 <= d < 7 ensures MatchString(w, WEEKDAYS[d], 0) < 3 {
      AtMostWord(w, WEEKDAYS[d]);
    }
    NoName(w, MONTHS, 0);
    NoName(w, WEEKDAYS, 0);
    AllOrNothing(w, "PM");
    AllOrNothing(w, "AM");
    ShortLetters(w);
    ShortZone(w);
    ZoneTable(1);
    ZoneTable(20);
  }

  lemma ShortZone(w: string)
    requires 1 <= |w| <= 2 && AllAlpha(w)
    ensures FirstZone(w, 0) == if SameLetters(w, "NT") then 1 else if SameLetters(w, "Z") then 20 else 44
  {
    hide MatchString;
    hide FirstZone;
    hide ZoneHit;
    hide SameLetters;
    hide AllAlpha;
    ShortLetters(w);
    forall z | 0 <= z < 44
      ensures ZoneHit(w, z) <==> (z == 1 && SameLetters(w, "NT")) || (z == 20 && SameLetters(w, "Z"))
    {
      ShortZoneHit(w, z);
    }
    if SameLetters(w, "NT") {
      FirstZoneIs(w, 0, 1);
    } else if SameLetters(w, "Z") {
      FirstZoneIs(w, 0, 20);
    } else {
      FirstZoneIs(w, 0, 44);
    }
  }

  lemma AtMostWord(w: string, name: string)
    requires |w| <= 2
    ensures MatchString(w, name, 0) <= 2
  {
  }

  /** A word matches a name of its own length entirely or not at all. */
  lemma AllOrNothing(w: string, name: string)
    requires 1 <= |w| <= 2 && AllAlpha(w) && 1 <= |name| <= 2
    ensures MatchString(w, name, 0) == |name| <==> SameLetters(w, name)
  {
    if SameLetters(w, name) {
      OwnMatches(w, name);
    } else if |w| == |name| {
      var k := if Upper(w[0]) != Upper(name[0]) then 0 else 1;
      assert Upper(w[k]) != Upper(name[k]);
      MatchStringIs(w, name, 0, k);
    } else {
      LengthMismatch(w, name);
    }
  }

  lemma LengthMismatch(w: string, name: string)
    requires 1 <= |w| <= 2 && AllAlpha(w) && 1 <= |name| <= 2 && |w| != |name|
    ensures MatchString(w, name, 0) != |name|
  {
    if |w| == 1 {
      assert MatchString(w, name, 1) == 1;
    } else if Upper(w[0]) == Upper(name[0]) {
      assert MatchString(w, name, 1) == 0;
    }
  }

  lemma ShortLetters(w: string)
    requires 1 <= |w| <= 2
    ensures SameLetters(w, "NT") ==> !SameLetters(w, "Z") && !SameLetters(w, "PM") && !SameLetters(w, "AM")
    ensures SameLetters(w, "PM") ==> !SameLetters(w, "Z") && !SameLetters(w, "AM")
  {
    assert "NT"[0] == 'N' && "Z"[0] == 'Z' && "PM"[0] == 'P' && "AM"[0] == 'A';
    assert forall name :: SameLetters(w, name) ==> Upper(w[0]) == Upper(name[0]);
  }

  lemma ShortZoneHit(w: string, z: nat)
    requires 1 <= |w| <= 2 && AllAlpha(w) && z < 44
    ensures ZoneHit(w, z) <==> (z == 1 && SameLetters(w, "NT")) || (z == 20 && SameLetters(w, "Z"))
  {
    hide MatchString;
    hide SameLetters;
    ZoneTable(z);
    LabelLength(z);
    AtMostWord(w, ZoneLabel(z));
    ZoneNamesNotEmpty(z);
    if |ZoneLabel(z)| <= 2 {
      AllOrNothing(w, ZoneLabel(z));
    }
  }
}
