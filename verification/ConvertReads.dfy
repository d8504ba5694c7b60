/** Reading the converter's output back: rendered commands decode uniquely, so its text means its commands. */
module ConvertReads {
  import opened Strings
  import opened ConvertModel
  import opened Convert
  import opened ConvertBytes

  predicate NoNewline(s: string) { forall i :: 0 <= i < |s| ==> s[i] != '\n' }

  /** A command that its text determines: changes to any path on one line, and no such change among the other lines. */
  predicate Readable(cmd: Cmd) {
    match cmd
    case Commit(ref) => NoNewline(ref)
    case Modify(mark, path) => Digits(mark) && NoNewline(path)
    case Delete(path) => NoNewline(path)
    case Other(line) =>
      && OneLine(line) && line != "blob\n" && line != "done\n" && DataDigits(line) == ""
      && !StartsWith(line, "commit ") && !StartsWith(line, "M 100644 :") && !StartsWith(line, "D ")
    case _ => true
  }

  // ---------------------------------------------------------------- the reader

  /** A line that is not a data header. */
  function ReadLine(line: string): Cmd
    requires line != ""
  {
    var end := |line| - 1;
    if line == "blob\n" then Blob
    else if line == "done\n" then Done
    else if StartsWith(line, "commit ") && 7 <= end then Commit(line[7..end])
    else if StartsWith(line, "M 100644 :") && 10 + DigitRun(line[10..]) < end then
      var n := DigitRun(line[10..]);
      Modify(line[10..10 + n], line[11 + n..end])
    else if StartsWith(line, "D ") && 2 <= end then Delete(line[2..end])
    else Other(line)
  }

  /** The first command of a text and what follows it; a payload is taken by its length. */
  function ReadCmd(s: string): (r: (Cmd, string))
    requires s != ""
    ensures |r.1| < |s|
  {
    var n := LineLen(s);
    var line, rest := s[..n], s[n..];
    var digits := DataDigits(line);
    if digits == "" then (ReadLine(line), rest)
    else
      var len := Number(digits, |digits|, 0);
      if len <= |rest| then (Data(rest[..len]), rest[len..]) else (Data(rest), "")
  }

  function ReadAll(s: string): seq<Cmd>
    decreases |s|
  {
    if s == "" then [] else var (cmd, rest) := ReadCmd(s); [cmd] + ReadAll(rest)
  }

  // ---------------------------------------------------------------- each kind of line

  lemma CommitLine(ref: string)
    requires NoNewline(ref)
    ensures var line := Render(Commit(ref)); OneLine(line) && DataDigits(line) == "" && ReadLine(line) == Commit(ref)
  {
    var line := Render(Commit(ref));
    assert line[..7] == "commit " && line[0] == 'c' && line[7..|line| - 1] == ref;
  }

  lemma ModifyLine(mark: string, path: string)
    requires Digits(mark) && NoNewline(path)
    ensures var line := Render(Modify(mark, path));
      OneLine(line) && DataDigits(line) == "" && ReadLine(line) == Modify(mark, path)
  {
    hide DigitRun;
    hide OneLine;
    var line := Render(Modify(mark, path));
    var n := |mark|;
    assert line[..10] == "M 100644 :" && line[0] == 'M';
    assert line[10..] == mark + (" " + path + "\n");
    DigitRunExact(mark, " " + path + "\n");
    assert line[10..10 + n] == mark && line[11 + n..|line| - 1] == path;
    OneLineParts("M 100644 :", mark, path);
  }

  lemma OneLineParts(head: string, mark: string, path: string)
    requires NoNewline(head) && AllDigits(mark) && NoNewline(path)
    ensures OneLine(head + mark + " " + path + "\n")
  {
    hide AllDigits;
    assert NoNewline(mark) by {
      DigitsOnly(mark);
    }
    assert NoNewline(head + mark + " " + path);
  }

  lemma DigitsOnly(s: string)
    requires AllDigits(s)
    ensures NoNewline(s)
  {
  }

  lemma DeleteLine(path: string)
    requires NoNewline(path)
    ensures var line := Render(Delete(path)); OneLine(line) && DataDigits(line) == "" && ReadLine(line) == Delete(path)
  {
    var line := Render(Delete(path));
    assert line[..2] == "D " && line[0] == 'D' && line[2..|line| - 1] == path;
  }

  lemma FixedLines()
    ensures OneLine("blob\n") && DataDigits("blob\n") == "" && OneLine("done\n") && DataDigits("done\n") == ""
  {
    assert "blob\n"[0] == 'b' && "done\n"[1] == 'o';
  }

  lemma LineReads(cmd: Cmd)
    requires Readable(cmd) && !cmd.Data?
    ensures var line := Render(cmd); OneLine(line) && DataDigits(line) == "" && ReadLine(line) == cmd
  {
    hide OneLine;
    hide DataDigits;
    hide StartsWith;
    match cmd
    case Commit(ref) => CommitLine(ref);
    case Modify(mark, path) => hide *; ModifyLine(mark, path);
    case Delete(path) => hide *; DeleteLine(path);
    case Other(_) =>
    case _ => FixedLines();
  }

  // ---------------------------------------------------------------- whole texts

  lemma DataReads(payload: string, rest: string)
    ensures Render(Data(payload)) + rest != "" && ReadCmd(Render(Data(payload)) + rest) == (Data(payload), rest)
  {
    hide DataDigits;
    hide Number;
    var d := Decimal(|payload|);
    var line := "data " + d + "\n";
    var s := Render(Data(payload)) + rest;
    ReadDecimal(|payload|);
    DataMatches(d);
    LineLenExact(line, payload + rest);
    assert s == line + (payload + rest);
    assert s[..|line|] == line && s[|line|..] == payload + rest;
    assert (payload + rest)[..|payload|] == payload && (payload + rest)[|payload|..] == rest;
  }

  lemma CmdReads(cmd: Cmd, rest: string)
    requires Readable(cmd)
    ensures Render(cmd) + rest != "" && ReadCmd(Render(cmd) + rest) == (cmd, rest)
  {
    hide DataDigits;
    hide Render;
    hide ReadLine;
    hide Readable;
    if cmd.Data? {
      DataReads(cmd.payload, rest);
    } else {
      LineReads(cmd);
      LineLenExact(Render(cmd), rest);
      assert (Render(cmd) + rest)[..|Render(cmd)|] == Render(cmd) && (Render(cmd) + rest)[|Render(cmd)|..] == rest;
    }
  }

  /** Reading undoes rendering: the text determines the commands, payload bytes and all. */
  lemma {:induction false} ReadsBack(cmds: seq<Cmd>)
    requires forall i :: 0 <= i < |cmds| ==> Readable(cmds[i])
    ensures ReadAll(RenderAll(cmds)) == cmds
    decreases |cmds|
  {
    hide Render;
    hide Readable;
    hide ReadCmd;
    if cmds != [] {
      var cmd, rest := cmds[0], cmds[1..];
      assert cmds == [cmd] + rest && RenderAll([cmd]) == RenderAll([]) + Render(cmd) == Render(cmd);
      RenderConcat([cmd], rest);
      CmdReads(cmd, RenderAll(rest));
      ReadsBack(rest);
    }
  }

  /** So two streams with the same text are the same stream. */
  lemma RenderInjective(a: seq<Cmd>, b: seq<Cmd>)
    requires forall i :: 0 <= i < |a| ==> Readable(a[i])
    requires forall i :: 0 <= i < |b| ==> Readable(b[i])
    ensures RenderAll(a) == RenderAll(b) <==> a == b
  {
    hide Readable;
    ReadsBack(a);
    ReadsBack(b);
  }

  // ---------------------------------------------------------------- the converter's output

  ghost predicate AllReadable(cmds: seq<Cmd>) { forall i :: 0 <= i < |cmds| ==> Readable(cmds[i]) }

  /** What the converter holds can be printed readably, and so can what it printed. */
  ghost predicate Sound(c: Conv) {
    && AllReadable(c.out)
    && (forall path :: path in c.live ==> Digits(c.live[path]))
    && NoNewline(c.last)
  }

  lemma EmitSound(c: Conv, cmd: Cmd)
    requires Sound(c) && Readable(cmd)
    ensures Sound(Emit(c, [cmd]))
  {
    hide Readable;
  }

  lemma RecordSound(c: Conv, mark: string, file: string)
    requires Sound(c) && Digits(mark) && NoNewline(file)
    ensures Sound(Record(c, mark, file))
  {
    hide Digits;
    var add := Modify(mark, file);
    if c.last != "" && c.last != file {
      var del := Delete(c.last);
      EmitSound(c, del);
      EmitSound(Emit(c, [del]), add);
      assert c.out + ([del] + [add]) == c.out + [del] + [add];
    } else {
      EmitSound(c, add);
      assert c.out + ([] + [add]) == c.out + [add];
    }
  }

  lemma StepSound(c: Conv, cmd: Cmd)
    requires Sound(c) && Readable(cmd)
    ensures Sound(Step(c, cmd))
  {
    hide Record;
    EmitSound(c, cmd);
    if c.mode == Running {
      match cmd
      case Modify(mark, path) => RecordSound(c, mark, "m");
      case Delete(path) => if path in c.live { RecordSound(c, c.live[path], "d"); }
      case _ =>
    }
  }

  lemma {:induction false} RunSound(cmds: seq<Cmd>)
    requires AllReadable(cmds)
    ensures Sound(Run(cmds))
  {
    hide Readable;
    hide Step;
    if cmds != [] {
      RunSound(cmds[..|cmds| - 1]);
      StepSound(Run(cmds[..|cmds| - 1]), cmds[|cmds| - 1]);
    }
  }

  /** The stream's text is what the converter takes, and determines the stream. */
  ghost predicate Exported(cmds: seq<Cmd>) {
    forall i :: 0 <= i < |cmds| ==> WellFormed(cmds[i]) && Readable(cmds[i])
  }

  /** Reading the converted bytes gives exactly the commands of the model. */
  lemma OutputReads(cmds: seq<Cmd>)
    requires Exported(cmds)
    ensures ReadAll(Feed(INIT, RenderAll(cmds)).out) == Run(cmds).out
  {
    hide WellFormed;
    hide Readable;
    hide Run;
    ConvertsText(cmds);
    RunSound(cmds);
    ReadsBack(Run(cmds).out);
  }

  /** On bytes: every payload of the input is a payload of the output, once and in order. */
  lemma TextPayloads(cmds: seq<Cmd>)
    requires Exported(cmds) && V1Stream(cmds) && Replayable(cmds)
    ensures Payloads(ReadAll(Feed(INIT, RenderAll(cmds)).out)) == Payloads(ReadAll(RenderAll(cmds)))
  {
    hide *;
    OutputReads(cmds);
    ExportedReads(cmds);
    PayloadsCopied(cmds);
  }

  lemma ExportedReads(cmds: seq<Cmd>)
    requires Exported(cmds)
    ensures ReadAll(RenderAll(cmds)) == cmds
    ensures forall k :: 0 <= k <= |cmds| ==> Exported(cmds[..k])
  {
    hide WellFormed;
    hide Readable;
    ReadsBack(cmds);
  }

  /**
    On bytes: after every command the tree of the converted text has one file, m or d, if and only if no
    message is added after an empty data block.
  */
  lemma TextLayoutIff(cmds: seq<Cmd>)
    requires Exported(cmds) && V1Stream(cmds) && Replayable(cmds)
    ensures (forall k :: 0 <= k <= |cmds| ==> OnlyMOrD(Tree(ReadAll(Feed(INIT, RenderAll(cmds[..k])).out))))
      <==> !AddsAfterEmptyData(cmds)
  {
    hide *;
    ExportedReads(cmds);
    LayoutIff(cmds);
    forall k | 0 <= k <= |cmds| ensures ReadAll(Feed(INIT, RenderAll(cmds[..k])).out) == Run(cmds[..k]).out {
      OutputReads(cmds[..k]);
    }
  }
}
