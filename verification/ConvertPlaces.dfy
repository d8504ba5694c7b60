/** Where each command of the converter's output comes from: nothing is lost, added or moved. */
module ConvertPlaces {
  import opened Strings
  import opened ConvertModel
  import opened Convert
  import opened ConvertBytes
  import opened ConvertReads

  // ---------------------------------------------------------------- what stands for each command

  predicate IsChange(cmd: Cmd) { cmd.Modify? || cmd.Delete? }

  /** A change the converter rewrites: to a v1 path, inside a commit, and not in a stream it copies unread. */
  predicate Rewritten(before: seq<Cmd>, cmd: Cmd) {
    IsChange(cmd) && InCommit(before) && IsV1Path(cmd.path) && !HasEmptyData(before)
  }

  /** The blobs live at v1 paths after these commands. */
  function Live(cmds: seq<Cmd>): map<string, string> {
    if cmds == [] then map[]
    else
      var front, last := cmds[..|cmds| - 1], cmds[|cmds| - 1];
      if !Rewritten(front, last) then Live(front)
      else if last.Modify? then Live(front)[last.path := last.mark]
      else Live(front) - {last.path}
  }

  /** The latest rewritten change added a message, or deleted one. */
  ghost predicate Latest(cmds: seq<Cmd>, added: bool) {
    exists j :: && 0 <= j < |cmds| && Rewritten(cmds[..j], cmds[j]) && cmds[j].Modify? == added
                && forall k :: j < k < |cmds| ==> !Rewritten(cmds[..k], cmds[k])
  }

  /**
    What is printed for a command after those before it. A rewritten change becomes the record of a blob as m
    or d: the one just added, or the one that was live at the deleted path; the other file, if it is there, is
    removed first. Everything else is printed as it is.
  */
  ghost predicate StandsFor(piece: seq<Cmd>, before: seq<Cmd>, cmd: Cmd) {
    if !Rewritten(before, cmd) then piece == [cmd]
    else if cmd.Modify? then
      piece == if Latest(before, false) then [Delete("d"), Modify(cmd.mark, "m")] else [Modify(cmd.mark, "m")]
    else
      && cmd.path in Live(before)
      && piece == if Latest(before, true) then [Delete("m"), Modify(Live(before)[cmd.path], "d")]
                  else [Modify(Live(before)[cmd.path], "d")]
  }

  /** The output, cut at the given places, has one piece for each command, in order. */
  ghost predicate Placed(out: seq<Cmd>, cuts: seq<nat>, cmds: seq<Cmd>) {
    && |cuts| == |cmds| + 1 && cuts[0] == 0 && cuts[|cmds|] == |out|
    && forall i :: 0 <= i < |cmds| ==> PieceAt(out, cuts[i], cuts[i + 1], cmds, i)
  }

  ghost predicate PieceAt(out: seq<Cmd>, from: nat, to: nat, cmds: seq<Cmd>, i: nat)
    requires i < |cmds|
  {
    from <= to <= |out| && StandsFor(out[from..to], cmds[..i], cmds[i])
  }

  // ---------------------------------------------------------------- lines and patterns

  /** The first line ends with the first newline, or with the text. */
  lemma {:induction false} LineIs(s: string)
    requires s != ""
    ensures var n := LineLen(s); (n == |s| || s[n - 1] == '\n') && forall i :: 0 <= i < n - 1 ==> s[i] != '\n'
  {
    if s[0] != '\n' && |s| > 1 {
      LineIs(s[1..]);
    }
  }

  const HEX: string := "0123456789abcdef"

  predicate HexDigits(s: string) { forall i :: 0 <= i < |s| ==> s[i] in HEX }

  lemma HexIs(c: char)
    ensures IsHex(c) <==> c in HEX
  {
    var k := if '0' <= c <= '9' then c as int - '0' as int else c as int - 'a' as int + 10;
    if IsHex(c) {
      assert HEX[k] == c;
    }
  }

  /** A v1 path is two hex digits, a slash and 38 hex digits. */
  lemma V1PathIs(p: string)
    ensures IsV1Path(p) <==>
      exists a, b :: |a| == 2 && |b| == 38 && HexDigits(a) && HexDigits(b) && p == a + "/" + b
  {
    forall i | 0 <= i < |p| ensures IsHex(p[i]) <==> p[i] in HEX {
      HexIs(p[i]);
    }
    if IsV1Path(p) {
      var a, b := p[..2], p[3..];
      assert p == a + "/" + b && HexDigits(a) && HexDigits(b);
    }
    if a, b :| |a| == 2 && |b| == 38 && HexDigits(a) && HexDigits(b) && p == a + "/" + b {
      forall i | 0 <= i < 41 && i != 2 ensures IsHex(p[i]) {
        assert p[i] == if i < 2 then a[i] else b[i - 3];
        HexIs(p[i]);
      }
    }
  }

  lemma ModifyFinds(line: string, mark: string, path: string)
    requires MatchModify(line) == Some((mark, path))
    ensures Digits(mark) && IsV1Path(path) && exists rest :: line == "M 100644 :" + mark + " " + path + rest
  {
    hide IsV1Path;
    hide DigitRun;
    var tail, n := line[10..], |mark|;
    var rest := tail[n + 42..];
    assert mark == tail[..n] && path == tail[n + 1..n + 42];
    assert tail == mark + " " + path + rest && line == "M 100644 :" + tail;
    assert line == "M 100644 :" + mark + " " + path + rest;
  }

  lemma ModifyTaken(mark: string, path: string, rest: string)
    requires Digits(mark) && IsV1Path(path)
    ensures MatchModify("M 100644 :" + mark + " " + path + rest) == Some((mark, path))
  {
    hide IsV1Path;
    hide DigitRun;
    var line := "M 100644 :" + mark + " " + path + rest;
    var tail, n := line[10..], |mark|;
    assert line[..10] == "M 100644 :" && tail == mark + (" " + path + rest);
    DigitRunExact(mark, " " + path + rest);
    V1PathLength(path);
    assert tail[..n] == mark && tail[n] == ' ' && tail[n + 1..n + 42] == path;
  }

  /** The pattern for an added message: it takes a mark and a v1 path, and leaves what follows the path unread. */
  lemma ModifyPattern(line: string, mark: string, path: string)
    ensures MatchModify(line) == Some((mark, path)) <==>
      Digits(mark) && IsV1Path(path) && exists rest :: line == "M 100644 :" + mark + " " + path + rest
  {
    hide IsV1Path;
    hide MatchModify;
    if MatchModify(line) == Some((mark, path)) {
      ModifyFinds(line, mark, path);
    }
    if rest :| Digits(mark) && IsV1Path(path) && line == "M 100644 :" + mark + " " + path + rest {
      ModifyTaken(mark, path, rest);
    }
  }

  lemma V1PathLength(path: string)
    requires IsV1Path(path)
    ensures |path| == 41
  {
  }

  /** The pattern for a deleted message. */
  lemma DeletePattern(line: string, path: string)
    ensures MatchDelete(line) == Some(path) <==> IsV1Path(path) && exists rest :: line == "D " + path + rest
  {
    hide IsV1Path;
    if MatchDelete(line) == Some(path) {
      assert line == "D " + path + line[43..];
    }
    if rest :| IsV1Path(path) && line == "D " + path + rest {
      V1PathLength(path);
      assert line[..2] == "D " && line[2..43] == path;
    }
  }

  /** A payload that the input does not have in full is fatal: only its header is printed. */
  lemma ShortPayloadFatal(c: Text, len: nat, rest: string)
    requires c.mode == Running && |rest| < len
    ensures var header := "data " + Decimal(len) + "\n";
      && header + rest != "" && Feed(c, header + rest) == c.(mode := Died, out := c.out + header)
  {
    hide DataDigits;
    hide Number;
    hide Decimal;
    var d, header := Decimal(len), "data " + Decimal(len) + "\n";
    ReadDecimal(len);
    DataMatches(d);
    LineLenExact(header, rest);
    assert (header + rest)[..|header|] == header && (header + rest)[|header|..] == rest;
    assert Round(c, header + rest) == (Printed(c, header).(mode := Died), rest);
  }

  // ---------------------------------------------------------------- the converter's state

  /** What the state says about the commands so far, until the stream is copied unread. */
  ghost predicate Tracks(c: Conv, cmds: seq<Cmd>) {
    && c.live == Live(cmds) && c.commit == InCommit(cmds) && !HasEmptyData(cmds)
    && c.last == if Latest(cmds, true) then "m" else if Latest(cmds, false) then "d" else ""
  }

  lemma LatestStep(front: seq<Cmd>, last: Cmd, added: bool)
    ensures Latest(front + [last], added) <==>
      if Rewritten(front, last) then last.Modify? == added else Latest(front, added)
  {
    var cmds, n := front + [last], |front|;
    assert cmds[..n] == front && forall k :: 0 <= k < n ==> cmds[..k] == front[..k];
    if Rewritten(front, last) {
      assert Rewritten(cmds[..n], cmds[n]);
      assert last.Modify? == added ==> Latest(cmds, added);
    } else {
      if j :| && 0 <= j < n && Rewritten(front[..j], front[j]) && front[j].Modify? == added
              && forall k :: j < k < n ==> !Rewritten(front[..k], front[k]) {
        assert Rewritten(cmds[..j], cmds[j]);
      }
      if j :| && 0 <= j <= n && Rewritten(cmds[..j], cmds[j]) && cmds[j].Modify? == added
              && forall k :: j < k <= n ==> !Rewritten(cmds[..k], cmds[k]) {
        assert Rewritten(front[..j], front[j]);
      }
    }
  }

  lemma OneLatest(cmds: seq<Cmd>)
    ensures !(Latest(cmds, true) && Latest(cmds, false))
  {
  }

  lemma EmptyDataStep(front: seq<Cmd>, last: Cmd)
    ensures HasEmptyData(front + [last]) <==> HasEmptyData(front) || last == Data("")
  {
    var cmds := front + [last];
    if i :| 0 <= i < |front| && front[i] == Data("") {
      assert cmds[i] == Data("");
    }
    assert cmds[|front|] == last;
  }

  /** One command while the converter is reading: the state goes on tracking, and the right piece is printed. */
  lemma StepTracks(c: Conv, front: seq<Cmd>, last: Cmd)
    requires c.mode == Running && Tracks(c, front)
    ensures var d := Step(c, last);
      && (d.mode == Died <==> Rewritten(front, last) && last.Delete? && last.path !in Live(front))
      && (d.mode == Finished <==> last == Done) && (d.mode == Verbatim <==> last == Data(""))
      && (d.mode == Running ==> Tracks(d, front + [last]))
      && (d.mode == Died || d.mode == Finished ==> d.out == c.out)
      && (d.mode == Running || d.mode == Verbatim ==>
            exists piece :: d.out == c.out + piece && StandsFor(piece, front, last))
  {
    hide Latest;
    var d := Step(c, last);
    LatestStep(front, last, true);
    LatestStep(front, last, false);
    OneLatest(front);
    EmptyDataStep(front, last);
    assert (front + [last])[..|front|] == front;
    if Rewritten(front, last) {
      var file := if last.Modify? then "m" else "d";
      if last.Modify? || last.path in c.live {
        var mark := if last.Modify? then last.mark else c.live[last.path];
        var piece := (if c.last != "" && c.last != file then [Delete(c.last)] else []) + [Modify(mark, file)];
        assert d.out == c.out + piece && StandsFor(piece, front, last);
      }
    } else if last != Done {
      assert d.out == c.out + [last] && StandsFor([last], front, last);
    }
  }

  lemma {:induction false} Copying(cmds: seq<Cmd>)
    requires Run(cmds).mode == Verbatim
    ensures HasEmptyData(cmds)
    decreases |cmds|
  {
    if cmds != [] {
      var n := |cmds| - 1;
      EmptyDataStep(cmds[..n], cmds[n]);
      assert cmds == cmds[..n] + [cmds[n]];
      if Run(cmds[..n]).mode == Verbatim {
        Copying(cmds[..n]);
      }
    }
  }

  lemma {:induction false} RunTracks(cmds: seq<Cmd>)
    requires Run(cmds).mode == Running
    ensures Tracks(Run(cmds), cmds)
    decreases |cmds|
  {
    hide Step;
    hide Tracks;
    if cmds == [] {
      Nothing();
      TracksNothing();
    } else {
      var n := |cmds| - 1;
      assert cmds == cmds[..n] + [cmds[n]];
      StaysHalted(Run(cmds[..n]), cmds[n]);
      RunTracks(cmds[..n]);
      StepTracks(Run(cmds[..n]), cmds[..n], cmds[n]);
    }
  }

  lemma TracksNothing()
    ensures Tracks(START, [])
  {
  }

  lemma StaysHalted(c: Conv, cmd: Cmd)
    ensures c.mode == Finished || c.mode == Died ==> Step(c, cmd) == c
    ensures c.mode == Verbatim ==> Step(c, cmd) == Emit(c, [cmd])
  {
  }

  /**
    Of any stream that the converter has read without coming to an end: every command is in the output, as
    itself or as the record that stands for it, once, in its place, and the output has nothing else.
  */
  lemma {:induction false} OutputPlaces(cmds: seq<Cmd>) returns (cuts: seq<nat>)
    requires Run(cmds).mode == Running || Run(cmds).mode == Verbatim
    ensures Placed(Run(cmds).out, cuts, cmds)
    decreases |cmds|
  {
    hide Step;
    hide Tracks;
    hide StandsFor;
    if cmds == [] {
      Nothing();
      cuts := [0];
    } else {
      var n := |cmds| - 1;
      var front, last := cmds[..n], cmds[n];
      var c := Run(front);
      StaysHalted(c, last);
      var before := OutputPlaces(front);
      var piece: seq<Cmd>;
      if c.mode == Running {
        RunTracks(front);
        StepTracks(c, front, last);
        piece :| Run(cmds).out == c.out + piece && StandsFor(piece, front, last);
      } else {
        Copying(front);
        piece := [last];
        CopiedPiece(front, last);
      }
      cuts := before + [|c.out| + |piece|];
      ExtendPlaces(c.out, before, front, piece, last);
      assert cmds == front + [last];
    }
  }

  lemma CopiedPiece(before: seq<Cmd>, cmd: Cmd)
    requires HasEmptyData(before)
    ensures StandsFor([cmd], before, cmd)
  {
  }

  lemma ExtendPlaces(out: seq<Cmd>, cuts: seq<nat>, front: seq<Cmd>, piece: seq<Cmd>, last: Cmd)
    requires Placed(out, cuts, front) && StandsFor(piece, front, last)
    ensures Placed(out + piece, cuts + [|out| + |piece|], front + [last])
  {
    hide StandsFor;
    var all, places, cmds := out + piece, cuts + [|out| + |piece|], front + [last];
    forall i | 0 <= i < |cmds| ensures PieceAt(all, places[i], places[i + 1], cmds, i) {
      assert cmds[..i] == front[..i];
      if i < |front| {
        assert PieceAt(out, cuts[i], cuts[i + 1], front, i) && cmds[i] == front[i];
        assert all[cuts[i]..cuts[i + 1]] == out[cuts[i]..cuts[i + 1]];
      } else {
        assert front[..i] == front && cmds[i] == last && places[i] == |out|;
        assert places[i + 1] == |all| && all[|out|..|all|] == piece;
      }
    }
  }

  /** A run that came to an end did so at a `done` or at a deletion of what is not live, and printed nothing since. */
  lemma {:induction false} EndsAt(cmds: seq<Cmd>) returns (k: nat)
    requires Run(cmds).mode == Finished || Run(cmds).mode == Died
    ensures k < |cmds| && Run(cmds[..k]).mode == Running && Run(cmds).out == Run(cmds[..k]).out
    ensures Run(cmds).mode == Finished <==> cmds[k] == Done
    ensures Run(cmds).mode == Died <==>
      cmds[k].Delete? && Rewritten(cmds[..k], cmds[k]) && cmds[k].path !in Live(cmds[..k])
    decreases |cmds|
  {
    hide Step;
    hide Tracks;
    if cmds == [] {
      Nothing();
    } else {
      var n := |cmds| - 1;
      var c := Run(cmds[..n]);
      StaysHalted(c, cmds[n]);
      if c.mode == Running {
        k := n;
        RunTracks(cmds[..n]);
        StepTracks(c, cmds[..n], cmds[n]);
      } else {
        k := EndsAt(cmds[..n]);
        assert cmds[..n][..k] == cmds[..k];
      }
    }
  }

  // ---------------------------------------------------------------- v1 streams

  /** The commands that are not file changes, in order. */
  function Others(cmds: seq<Cmd>): seq<Cmd> {
    if cmds == [] then []
    else Others(cmds[..|cmds| - 1]) + if IsChange(cmds[|cmds| - 1]) then [] else [cmds[|cmds| - 1]]
  }

  lemma {:induction false} OthersAppend(a: seq<Cmd>, b: seq<Cmd>)
    ensures Others(a + b) == Others(a) + Others(b)
  {
    if b == [] {
      assert a + b == a;
    } else {
      var n := |b| - 1;
      assert (a + b)[..|a| + n] == a + b[..n];
      OthersAppend(a, b[..n]);
    }
  }

  /** What is read of a v1 stream: all of it, but for the `done` that ends it. */
  function ReadOf(cmds: seq<Cmd>): seq<Cmd> {
    if cmds != [] && cmds[|cmds| - 1] == Done && !HasEmptyData(cmds) then cmds[..|cmds| - 1] else cmds
  }

  lemma ReadGoesOn(cmds: seq<Cmd>)
    requires V1Stream(cmds) && Replayable(cmds)
    ensures Run(cmds).out == Run(ReadOf(cmds)).out
    ensures Run(ReadOf(cmds)).mode == Running || Run(ReadOf(cmds)).mode == Verbatim
  {
    hide Step;
    PayloadsCopied(cmds);
    if HasEmptyData(cmds) {
      VerbatimFrom(cmds);
    } else {
      ConvertsHistory(cmds);
      if ReadOf(cmds) != cmds {
        var n := |cmds| - 1;
        Prefix(cmds);
        ConvertsHistory(cmds[..n]);
        NoDoneBefore(cmds, n);
        DoneEnds(Run(cmds[..n]));
      }
    }
  }

  lemma DoneEnds(c: Conv)
    requires c.mode == Running
    ensures Step(c, Done) == c.(mode := Finished)
  {
  }

  lemma NoDoneBefore(cmds: seq<Cmd>, n: nat)
    requires V1Stream(cmds) && n + 1 == |cmds|
    ensures n > 0 ==> cmds[..n][n - 1] != Done
  {
  }

  lemma {:induction false} OthersKept(out: seq<Cmd>, cuts: seq<nat>, cmds: seq<Cmd>)
    requires Placed(out, cuts, cmds) && forall i :: 0 <= i < |cmds| && IsChange(cmds[i]) ==> IsV1Path(cmds[i].path)
    ensures Others(out) == Others(cmds)
    decreases |cmds|
  {
    hide StandsFor;
    if cmds == [] {
      assert out == [];
    } else {
      var n := |cmds| - 1;
      var front, piece := out[..cuts[n]], out[cuts[n]..];
      assert PieceAt(out, cuts[n], cuts[n + 1], cmds, n) && out[cuts[n]..cuts[n + 1]] == piece;
      assert out == front + piece;
      ShorterPlaces(out, cuts, cmds);
      OthersKept(front, cuts[..n + 1], cmds[..n]);
      OthersAppend(front, piece);
      PieceOthers(piece, cmds[..n], cmds[n]);
    }
  }

  lemma ShorterPlaces(out: seq<Cmd>, cuts: seq<nat>, cmds: seq<Cmd>)
    requires Placed(out, cuts, cmds) && cmds != []
    ensures var n := |cmds| - 1; cuts[n] <= |out| && Placed(out[..cuts[n]], cuts[..n + 1], cmds[..n])
  {
    hide StandsFor;
    var n := |cmds| - 1;
    assert PieceAt(out, cuts[n], cuts[n + 1], cmds, n);
    var fewer, places, front := out[..cuts[n]], cuts[..n + 1], cmds[..n];
    forall i | 0 <= i < n ensures PieceAt(fewer, places[i], places[i + 1], front, i) {
      CutsGrow(out, cuts, cmds, i + 1, n);
      assert PieceAt(out, cuts[i], cuts[i + 1], cmds, i);
      assert fewer[cuts[i]..cuts[i + 1]] == out[cuts[i]..cuts[i + 1]] && front[..i] == cmds[..i];
    }
  }

  lemma {:induction false} CutsGrow(out: seq<Cmd>, cuts: seq<nat>, cmds: seq<Cmd>, i: nat, j: nat)
    requires Placed(out, cuts, cmds) && i <= j <= |cmds|
    ensures cuts[i] <= cuts[j]
    decreases j
  {
    if i < j {
      CutsGrow(out, cuts, cmds, i, j - 1);
      assert PieceAt(out, cuts[j - 1], cuts[j], cmds, j - 1);
    }
  }

  lemma PieceOthers(piece: seq<Cmd>, before: seq<Cmd>, cmd: Cmd)
    requires StandsFor(piece, before, cmd)
    ensures Others(piece) == if IsChange(cmd) then [] else [cmd]
  {
    hide Latest;
    hide Live;
    assert Others([]) == [];
    assert forall x :: Others([x]) == if IsChange(x) then [] else [x] by {
      forall x ensures Others([x]) == if IsChange(x) then [] else [x] {
        OthersOne(x);
      }
    }
    if |piece| == 2 {
      OthersAppend([piece[0]], [piece[1]]);
      assert piece == [piece[0]] + [piece[1]];
    }
  }

  lemma OthersOne(x: Cmd)
    ensures Others([x]) == if IsChange(x) then [] else [x]
  {
    assert [x][..0] == [];
  }

  /**
    A replayable v1 stream loses nothing in the conversion: its blobs, commits, payloads and all its other lines
    come out as they went in, once and in order, up to the `done` that ends it; and between them, where a
    change was, stands its record.
  */
  lemma NothingLost(cmds: seq<Cmd>)
    requires V1Stream(cmds) && Replayable(cmds)
    ensures Others(Run(cmds).out) == Others(ReadOf(cmds))
    ensures exists cuts :: Placed(Run(cmds).out, cuts, ReadOf(cmds))
  {
    hide Run;
    hide Placed;
    ReadGoesOn(cmds);
    var cuts := OutputPlaces(ReadOf(cmds));
    OthersKept(Run(cmds).out, cuts, ReadOf(cmds));
  }

  /** The same on bytes: reading the converted text gives the commands that reading the input gives, in place. */
  lemma TextPlaces(cmds: seq<Cmd>)
    requires Exported(cmds) && V1Stream(cmds) && Replayable(cmds)
    ensures var input, output := ReadAll(RenderAll(cmds)), ReadAll(Feed(INIT, RenderAll(cmds)).out);
      && Others(output) == Others(ReadOf(input))
      && exists cuts :: Placed(output, cuts, ReadOf(input))
  {
    hide *;
    OutputReads(cmds);
    ExportedReads(cmds);
    NothingLost(cmds);
  }
}
