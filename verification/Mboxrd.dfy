/** mboxrd quoting, as public-inbox-edit applies it around the editor. */
module Mboxrd {
  import opened Strings

  const FROM: string := "From "

  /** >*From at the start of s. */
  predicate IsFrom(s: string) {
    if s != "" && s[0] == '>' then IsFrom(s[1..]) else StartsWith(s, FROM)
  }

  /** s/^(>*From )/>$1/gm; `bol` says whether s begins a line. */
  function Escape(s: string, bol: bool): string {
    if s == "" then ""
    else (if bol && IsFrom(s) then ">" else "") + [s[0]] + Escape(s[1..], s[0] == '\n')
  }

  /** s/^>(>*From )/$1/gm */
  function Unescape(s: string, bol: bool): string {
    if s == "" then ""
    else if bol && s[0] == '>' && IsFrom(s[1..]) then Unescape(s[1..], false)
    else [s[0]] + Unescape(s[1..], s[0] == '\n')
  }

  /** No line of s begins with "From ". */
  predicate NoFromLine(s: string, bol: bool) {
    s == "" || ((bol ==> !StartsWith(s, FROM)) && NoFromLine(s[1..], s[0] == '\n'))
  }

  // ---------------------------------------------------------------- the substitutions as loops

  method EscapeAll(text: string) returns (r: string)
    ensures r == Escape(text, true)
  {
    r := "";
    var bol := true;
    assert text[0..] == text;
    for p := 0 to |text|
      invariant r + Escape(text[p..], bol) == Escape(text, true)
    {
      ghost var s := text[p..];
      assert s[1..] == text[p + 1..];
      ghost var rest := Escape(text[p + 1..], text[p] == '\n');
      ghost var r0, quote := r, if bol && IsFrom(s) then ">" else "";
      if bol && IsFrom(text[p..]) {
        r := r + ">";
      }
      r := r + [text[p]];
      assert r0 + (quote + [text[p]] + rest) == r0 + quote + [text[p]] + rest;
      assert r == r0 + quote + [text[p]];
      bol := text[p] == '\n';
    }
  }

  method UnescapeAll(text: string) returns (r: string)
    ensures r == Unescape(text, true)
  {
    r := "";
    var p, bol := 0, true;
    assert text[0..] == text;
    while p < |text|
      invariant 0 <= p <= |text| && r + Unescape(text[p..], bol) == Unescape(text, true)
    {
      ghost var s := text[p..];
      assert s[1..] == text[p + 1..];
      if bol && text[p] == '>' && IsFrom(text[p + 1..]) {
        bol := false;
      } else {
        ghost var rest := Unescape(text[p + 1..], text[p] == '\n');
        assert r + ([text[p]] + rest) == r + [text[p]] + rest;
        r := r + [text[p]];
        bol := text[p] == '\n';
      }
      p := p + 1;
    }
  }

  // ---------------------------------------------------------------- round trip

  /** Inside a line, quoting changes nothing before the next newline. */
  lemma {:induction false} PrefixKept(s: string, p: string)
    requires '\n' !in p
    ensures StartsWith(Escape(s, false), p) <==> StartsWith(s, p)
  {
    if s != "" && p != "" {
      var e := Escape(s, false);
      assert e == [s[0]] + Escape(s[1..], s[0] == '\n');
      assert e[1..] == Escape(s[1..], s[0] == '\n');
      StartsWithCons(e, p);
      StartsWithCons(s, p);
      if s[0] != '\n' {
        PrefixKept(s[1..], p[1..]);
      }
    }
  }

  lemma {:induction false} FromKept(s: string)
    ensures IsFrom(Escape(s, false)) <==> IsFrom(s)
  {
    PrefixKept(s, FROM);
    if s != "" {
      var e := Escape(s, false);
      assert e == [s[0]] + Escape(s[1..], s[0] == '\n');
      assert e[1..] == Escape(s[1..], s[0] == '\n');
      if s[0] == '>' {
        FromKept(s[1..]);
      }
    }
  }

  lemma EscapeStep(s: string, bol: bool)
    requires s != ""
    ensures Escape(s, bol) != ""
    ensures var e := Escape(s, bol);
      if bol && IsFrom(s) then e[0] == '>' && e[1..] == Escape(s, false)
      else e[0] == s[0] && e[1..] == Escape(s[1..], s[0] == '\n')
  {
    var rest := Escape(s[1..], s[0] == '\n');
    assert Escape(s, false) == "" + [s[0]] + rest == [s[0]] + rest;
    if bol && IsFrom(s) {
      assert Escape(s, bol) == ">" + ([s[0]] + rest);
    }
  }

  lemma UnescapeStep(s: string, bol: bool)
    requires s != ""
    ensures var u := Unescape(s, bol);
      if bol && s[0] == '>' && IsFrom(s[1..]) then u == Unescape(s[1..], false)
      else u != "" && u[0] == s[0] && u[1..] == Unescape(s[1..], s[0] == '\n')
  {
  }

  /** Unquoting undoes quoting, for every text. */
  lemma {:induction false} RoundTrip(s: string, bol: bool)
    ensures Unescape(Escape(s, bol), bol) == s
    decreases |s|, bol
  {
    if s == "" {
      assert Escape(s, bol) == "";
    } else {
      Unquoted(s, bol);
    }
  }

  lemma {:induction false} Unquoted(s: string, bol: bool)
    requires s != ""
    ensures Unescape(Escape(s, bol), bol) == s
    decreases |s|, bol, 0
  {
    hide Escape;
    hide Unescape;
    var e := Escape(s, bol);
    EscapeStep(s, bol);
    UnescapeStep(e, bol);
    if bol && IsFrom(s) {
      FromKept(s);
      RoundTrip(s, false);
    } else {
      RoundTrip(s[1..], s[0] == '\n');
      if bol && s[0] == '>' {
        FromKept(s[1..]);
      }
      assert s == [s[0]] + s[1..] && Unescape(e, bol) == [s[0]] + Unescape(e, bol)[1..];
    }
  }

  lemma EscapeInjective(a: string, b: string)
    ensures Escape(a, true) == Escape(b, true) <==> a == b
  {
    RoundTrip(a, true);
    RoundTrip(b, true);
  }

  /** A quoted text has no line that a mailbox reader would take for a separator. */
  lemma {:induction false} NoSeparator(s: string, bol: bool)
    ensures NoFromLine(Escape(s, bol), bol)
  {
    if s != "" {
      var rest := Escape(s[1..], s[0] == '\n');
      var e := Escape(s, bol);
      NoSeparator(s[1..], s[0] == '\n');
      if bol && IsFrom(s) {
        assert e == [">"[0]] + ([s[0]] + rest);
        assert e[0] == '>' && e[1..] == [s[0]] + rest && e[1..][1..] == rest;
      } else {
        assert e == [s[0]] + rest && e[1..] == rest;
        if bol {
          StartsWithCons(e, FROM);
          StartsWithCons(s, FROM);
          if s[0] != '\n' {
            PrefixKept(s[1..], FROM[1..]);
          }
        }
      }
    }
  }

  /** Quoting undoes unquoting exactly on the texts without an unquoted "From " line. */
  lemma QuotesBackIff(s: string)
    ensures Escape(Unescape(s, true), true) == s <==> NoFromLine(s, true)
  {
    NoSeparator(Unescape(s, true), true);
    if NoFromLine(s, true) {
      QuotesBack(s, true);
    }
  }

  lemma {:induction false} UnescapeKeeps(s: string)
    ensures IsFrom(Unescape(s, false)) <==> IsFrom(s)
  {
    UnescapePrefix(s, FROM);
    if s != "" {
      var u := Unescape(s, false);
      assert u[1..] == Unescape(s[1..], s[0] == '\n');
      if s[0] == '>' {
        UnescapeKeeps(s[1..]);
      }
    }
  }

  lemma {:induction false} UnescapePrefix(s: string, p: string)
    requires '\n' !in p
    ensures StartsWith(Unescape(s, false), p) <==> StartsWith(s, p)
  {
    if s != "" && p != "" {
      var u := Unescape(s, false);
      assert u[1..] == Unescape(s[1..], s[0] == '\n');
      StartsWithCons(u, p);
      StartsWithCons(s, p);
      if s[0] != '\n' {
        UnescapePrefix(s[1..], p[1..]);
      }
    }
  }

  lemma {:induction false} QuotesBack(s: string, bol: bool)
    requires NoFromLine(s, bol)
    ensures Escape(Unescape(s, bol), bol) == s
    decreases |s|, 1
  {
    if s == "" {
      assert Unescape(s, bol) == "";
    } else {
      Quoted(s, bol);
    }
  }

  lemma {:induction false} Quoted(s: string, bol: bool)
    requires s != "" && NoFromLine(s, bol)
    ensures Escape(Unescape(s, bol), bol) == s
    decreases |s|, 0
  {
    hide Escape;
    hide Unescape;
    var u := Unescape(s, bol);
    UnescapeStep(s, bol);
    assert s == [s[0]] + s[1..];
    if bol && s[0] == '>' && IsFrom(s[1..]) {
      UnescapeKeeps(s[1..]);
      QuotesBack(s[1..], false);
      EscapeStep(u, true);
      assert Escape(u, true) == [s[0]] + Escape(u, true)[1..];
    } else {
      QuotesBack(s[1..], s[0] == '\n');
      if bol {
        NotFromKept(s);
      }
      EscapeStep(u, bol);
      assert Escape(u, bol) == [s[0]] + Escape(u, bol)[1..];
    }
  }

  /** A line the unquoting leaves alone is not one that quoting would touch. */
  lemma NotFromKept(s: string)
    requires s != "" && !StartsWith(s, FROM) && !(s[0] == '>' && IsFrom(s[1..]))
    ensures !IsFrom(Unescape(s, true))
  {
    var u := Unescape(s, true);
    assert u[1..] == Unescape(s[1..], s[0] == '\n');
    if s[0] == '>' {
      UnescapeKeeps(s[1..]);
    } else {
      StartsWithCons(u, FROM);
      StartsWithCons(s, FROM);
      if s[0] != '\n' {
        UnescapePrefix(s[1..], FROM[1..]);
      }
    }
  }

  // ---------------------------------------------------------------- the same, line by line

  /** The five characters F, r, o, m and blank at position p. */
  predicate SeparatorAt(s: string, p: nat) {
    p + 5 <= |s| && s[p] == 'F' && s[p + 1] == 'r' && s[p + 2] == 'o' && s[p + 3] == 'm' && s[p + 4] == ' '
  }

  predicate LineStart(s: string, p: nat) { p == 0 || (p <= |s| && s[p - 1] == '\n') }

  /** Some line of s begins with the separator. */
  predicate HasSeparator(s: string) { exists p :: 0 <= p <= |s| && LineStart(s, p) && SeparatorAt(s, p) }

  lemma SeparatorIs(s: string)
    ensures StartsWith(s, FROM) <==> SeparatorAt(s, 0)
  {
    if |s| >= 5 {
      assert s[..5] == [s[0], s[1], s[2], s[3], s[4]];
      assert FROM == ['F', 'r', 'o', 'm', ' '];
    }
  }

  lemma {:induction false} NoFromLineIs(s: string, bol: bool)
    ensures NoFromLine(s, bol) <==>
      forall p :: 0 <= p <= |s| && (if p == 0 then bol else LineStart(s, p)) ==> !SeparatorAt(s, p)
    decreases |s|
  {
    if s != "" {
      var t := s[1..];
      SeparatorIs(s);
      NoFromLineIs(t, s[0] == '\n');
      forall p | 0 <= p <= |t| ensures SeparatorAt(s, p + 1) <==> SeparatorAt(t, p) {
      }
      forall p | 0 < p <= |t| ensures LineStart(s, p + 1) <==> LineStart(t, p) {
      }
      forall p | 1 <= p <= |s| ensures SeparatorAt(s, p) <==> SeparatorAt(t, p - 1) {
      }
    }
  }

  /** No line of a quoted text begins with the separator, so a mailbox reader finds no other message in it. */
  lemma QuotedHasNone(s: string)
    ensures !HasSeparator(Escape(s, true))
  {
    NoSeparator(s, true);
    NoFromLineIs(Escape(s, true), true);
  }

  predicate OnOneLine(s: string) { forall i :: 0 <= i < |s| ==> s[i] != '\n' }

  /** n characters > and then the separator. */
  predicate FromAfter(line: string, n: nat) {
    n <= |line| && (forall i :: 0 <= i < n ==> line[i] == '>') && SeparatorAt(line, n)
  }

  /** The lines that quoting touches. */
  predicate IsFromLine(line: string) { exists n :: 0 <= n <= |line| && FromAfter(line, n) }

  /** They are recognized whatever follows them. */
  lemma {:induction false} FromLineSeen(line: string, more: string)
    requires OnOneLine(line) && (more == "" || more[0] == '\n')
    ensures IsFrom(line + more) <==> IsFromLine(line)
  {
    var s := line + more;
    if line != "" && line[0] == '>' {
      var rest := line[1..];
      assert s[1..] == rest + more;
      FromLineSeen(rest, more);
      if n :| 0 <= n <= |rest| && FromAfter(rest, n) {
        assert FromAfter(line, n + 1);
      }
      if n :| 0 <= n <= |line| && FromAfter(line, n) {
        assert n > 0 && FromAfter(rest, n - 1);
      }
    } else {
      SeparatorIs(s);
      assert SeparatorAt(s, 0) <==> SeparatorAt(line, 0);
      assert FromAfter(line, 0) <==> SeparatorAt(line, 0);
    }
  }

  lemma {:induction false} RestOfLine(line: string, more: string)
    requires OnOneLine(line)
    ensures Escape(line + more, false) == line + Escape(more, false)
    ensures Unescape(line + more, false) == line + Unescape(more, false)
  {
    if line == "" {
      assert line + more == more;
    } else {
      assert (line + more)[1..] == line[1..] + more;
      RestOfLine(line[1..], more);
      assert line == [line[0]] + line[1..];
    }
  }

  lemma NextLine(more: string)
    ensures Escape("\n" + more, false) == "\n" + Escape(more, true)
    ensures Unescape("\n" + more, false) == "\n" + Unescape(more, true)
  {
    assert ("\n" + more)[1..] == more;
  }

  /** A line of any number of > and the separator gains exactly one >; every other line is kept as it is. */
  lemma EscapesLine(line: string, more: string)
    requires OnOneLine(line)
    ensures Escape(line + "\n" + more, true)
         == (if IsFromLine(line) then ">" else "") + line + "\n" + Escape(more, true)
    ensures Escape(line, true) == (if IsFromLine(line) then ">" else "") + line
  {
    hide IsFrom;
    hide IsFromLine;
    var s := line + "\n" + more;
    assert s == line + ("\n" + more) && line == line + "";
    FromLineSeen(line, "\n" + more);
    FromLineSeen(line, "");
    EscapeInside(s);
    EscapeInside(line);
    RestOfLine(line, "\n" + more);
    RestOfLine(line, "");
    NextLine(more);
    EmptyLine();
    var mark := if IsFromLine(line) then ">" else "";
    assert Escape(line, true) == mark + (line + Escape("", false)) == mark + line;
  }

  lemma EmptyLine()
    ensures !IsFrom("") && !IsFromLine("") && Escape("", false) == ""
  {
  }

  lemma EscapeInside(s: string)
    ensures Escape(s, true) == (if s != "" && IsFrom(s) then ">" else "") + Escape(s, false)
  {
  }

  /** Unquoting takes one > from a line of at least one > before the separator, and keeps every other line. */
  lemma UnescapesLine(line: string, more: string)
    requires OnOneLine(line)
    ensures Unescape(line + "\n" + more, true)
         == (if line != "" && line[0] == '>' && IsFromLine(line) then line[1..] else line) + "\n" + Unescape(more, true)
  {
    hide IsFrom;
    hide IsFromLine;
    var s := line + "\n" + more;
    assert s == line + ("\n" + more);
    NextLine(more);
    if line != "" && line[0] == '>' {
      var rest := line[1..];
      assert s[1..] == rest + ("\n" + more);
      FromLineSeen(rest, "\n" + more);
      OneLess(line);
      RestOfLine(rest, "\n" + more);
    }
    RestOfLine(line, "\n" + more);
    UnescapeInside(s);
  }

  lemma OneLess(line: string)
    requires line != "" && line[0] == '>'
    ensures IsFromLine(line) <==> IsFromLine(line[1..])
  {
    var rest := line[1..];
    if n :| 0 <= n <= |rest| && FromAfter(rest, n) {
      assert FromAfter(line, n + 1);
    }
    if n :| 0 <= n <= |line| && FromAfter(line, n) {
      assert n > 0 && FromAfter(rest, n - 1);
    }
  }

  lemma UnescapeInside(s: string)
    ensures s == "" || !(s[0] == '>' && IsFrom(s[1..])) ==> Unescape(s, true) == Unescape(s, false)
    ensures s != "" && s[0] == '>' && IsFrom(s[1..]) ==> Unescape(s, true) == Unescape(s[1..], false)
  {
  }

  // ---------------------------------------------------------------- the mailbox handed to the editor

  /** Eml::strip_from: drops a leading "From " line, after any blank ones. */
  function StripFrom(s: string): string {
    var n := BlankRun(s);
    var line := NewlineAt(s[n..]);
    if StartsWith(s[n..], FROM) && line < |s[n..]| then s[n..][line + 1..] else s
  }

  function BlankRun(s: string): (n: nat)
    ensures n <= |s|
  {
    if s != "" && (s[0] == '\r' || s[0] == '\n') then 1 + BlankRun(s[1..]) else 0
  }

  /** The position of the first newline, or |s|. */
  function NewlineAt(s: string): (n: nat)
    ensures n <= |s|
  {
    if s == "" || s[0] == '\n' then 0 else 1 + NewlineAt(s[1..])
  }

  lemma {:induction false} NewlineAtEnd(line: string, rest: string)
    requires '\n' !in line
    ensures NewlineAt(line + "\n" + rest) == |line|
  {
    if line != "" {
      assert (line + "\n" + rest)[1..] == line[1..] + "\n" + rest;
      NewlineAtEnd(line[1..], rest);
    }
  }

  predicate LineEnds(s: string) { forall i :: 0 <= i < |s| ==> s[i] == '\r' || s[i] == '\n' }

  lemma {:induction false} SkipsBlank(blank: string, rest: string)
    requires LineEnds(blank)
    requires rest != "" && rest[0] != '\r' && rest[0] != '\n'
    ensures BlankRun(blank + rest) == |blank|
  {
    if blank == "" {
      assert blank + rest == rest;
    } else {
      assert (blank + rest)[1..] == blank[1..] + rest;
      SkipsBlank(blank[1..], rest);
    }
  }

  /** The envelope line goes, with any line ends before it. */
  lemma StripsEnvelope(blank: string, tail: string, rest: string)
    requires LineEnds(blank)
    requires OnOneLine(tail)
    ensures StripFrom(blank + (['F', 'r', 'o', 'm', ' '] + tail + "\n" + rest)) == rest
  {
    var line := FROM + tail;
    var s := line + "\n" + rest;
    assert FROM == ['F', 'r', 'o', 'm', ' '] && s[0] == 'F';
    SkipsBlank(blank, s);
    assert (blank + s)[|blank|..] == s;
    NewlineAtEnd(line, rest);
    assert s[..5] == FROM;
    assert s[|line| + 1..] == rest;
  }

  /** And only such a line does: without one at the start the text stays as it is. */
  lemma StripsNothingElse(s: string)
    requires forall n: nat :: n <= |s| && LineEnds(s[..n]) ==> !SeparatorAt(s, n)
    ensures StripFrom(s) == s
  {
    var n := BlankRun(s);
    BlankRunIs(s);
    SeparatorIs(s[n..]);
    assert SeparatorAt(s[n..], 0) <==> SeparatorAt(s, n);
  }

  lemma {:induction false} BlankRunIs(s: string)
    ensures LineEnds(s[..BlankRun(s)])
  {
    if s != "" && (s[0] == '\r' || s[0] == '\n') {
      BlankRunIs(s[1..]);
      assert s[..BlankRun(s)] == [s[0]] + s[1..][..BlankRun(s[1..])];
    }
  }

  /**
    A message that the editor leaves as it was comes back as it was, whatever its lines look like. What the
    editor is given has no separator line but its envelope, so there is no warning about extra ones.
  */
  method EditUnchanged(oid: string, text: string) returns (shown: string, back: string, warned: bool)
    requires OnOneLine(oid)
    ensures back == text && !warned
    ensures SeparatorAt(shown, 0) && forall p :: 0 < p <= |shown| && LineStart(shown, p) ==> !SeparatorAt(shown, p)
  {
    hide Escape;
    hide Unescape;
    hide StripFrom;
    var quoted := EscapeAll(text);
    var tail := "mboxrd@" + oid + " Thu Jan  1 00:00:00 1970";
    StripsEnvelope("", tail, quoted);
    shown := FROM + tail + "\n" + quoted;
    assert FROM == ['F', 'r', 'o', 'm', ' '] && "" + shown == shown;
    QuotedHasNone(text);
    OnlyEnvelope(FROM + tail, quoted);
    var reread := StripFrom(shown);
    NoSeparator(text, true);
    warned := !NoFromLine(reread, true);
    RoundTrip(text, true);
    back := UnescapeAll(reread);
  }

  lemma OnlyEnvelope(line: string, rest: string)
    requires OnOneLine(line) && !HasSeparator(rest)
    ensures var s := line + "\n" + rest; forall p :: 0 < p <= |s| && LineStart(s, p) ==> !SeparatorAt(s, p)
  {
    var s := line + "\n" + rest;
    forall p | 0 < p <= |s| && LineStart(s, p) ensures !SeparatorAt(s, p) {
      var q := p - |line| - 1;
      assert p > |line|;
      assert LineStart(rest, q) && (SeparatorAt(s, p) ==> SeparatorAt(rest, q));
    }
  }
}
