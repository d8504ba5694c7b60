/** On the text of any well-formed command stream, the byte-level pass does what the model does. */
module ConvertBytes {
  import opened Strings
  import opened ConvertModel
  import opened Convert

  // ---------------------------------------------------------------- rendering

  function Render(cmd: Cmd): string {
    match cmd
    case Blob => "blob\n"
    case Commit(ref) => "commit " + ref + "\n"
    case Data(payload) => "data " + Decimal(|payload|) + "\n" + payload
    case Modify(mark, path) => "M 100644 :" + mark + " " + path + "\n"
    case Delete(path) => "D " + path + "\n"
    case Other(line) => line
    case Done => "done\n"
  }

  function RenderAll(cmds: seq<Cmd>): string {
    if cmds == [] then "" else RenderAll(cmds[..|cmds| - 1]) + Render(cmds[|cmds| - 1])
  }

  lemma {:induction false} RenderConcat(a: seq<Cmd>, b: seq<Cmd>)
    ensures RenderAll(a + b) == RenderAll(a) + RenderAll(b)
  {
    hide Render;
    if b == [] {
      assert a + b == a;
    } else {
      var n := |b| - 1;
      assert (a + b)[..|a| + n] == a + b[..n] && (a + b)[|a| + n] == b[n];
      RenderConcat(a, b[..n]);
      assert RenderAll(a + b) == RenderAll(a + b[..n]) + Render(b[n]);
      var x, y, z := RenderAll(a), RenderAll(b[..n]), Render(b[n]);
      assert x + (y + z) == x + y + z;
    }
  }

  predicate OneLine(s: string) { s != "" && s[|s| - 1] == '\n' && forall i :: 0 <= i < |s| - 1 ==> s[i] != '\n' }

  predicate Digits(s: string) { s != "" && AllDigits(s) }

  /** The commands fast-export writes for a v1 inbox; the lines in between are of no other kind. */
  predicate WellFormed(cmd: Cmd) {
    match cmd
    case Commit(ref) => forall i :: 0 <= i < |ref| ==> ref[i] != '\n'
    case Modify(mark, path) => Digits(mark) && IsV1Path(path)
    case Delete(path) => IsV1Path(path)
    case Other(line) =>
      && OneLine(line) && line != "blob\n" && line != "done\n" && !StartsWith(line, "commit ")
      && DataDigits(line) == "" && MatchModify(line) == None && MatchDelete(line) == None
    case _ => true
  }

  // ---------------------------------------------------------------- reading a rendered command back

  lemma {:induction false} LineLenExact(line: string, rest: string)
    requires OneLine(line)
    ensures LineLen(line + rest) == |line|
  {
    if |line| > 1 {
      assert (line + rest)[1..] == line[1..] + rest;
      LineLenExact(line[1..], rest);
    }
  }

  lemma ModifyMatches(mark: string, path: string)
    requires Digits(mark) && IsV1Path(path)
    ensures MatchModify(Render(Modify(mark, path))) == Some((mark, path))
  {
    var line := Render(Modify(mark, path));
    var n := |mark|;
    assert line[..10] == "M 100644 :";
    assert line[10..] == mark + (" " + path + "\n");
    DigitRunExact(mark, " " + path + "\n");
    var rest := line[10..];
    assert rest[..n] == mark && rest[n] == ' ' && rest[n + 1..n + 42] == path;
  }

  lemma DeleteMatches(path: string)
    requires IsV1Path(path)
    ensures MatchDelete(Render(Delete(path))) == Some(path)
  {
    var line := Render(Delete(path));
    assert line[..2] == "D " && line[2..43] == path;
  }

  lemma DataMatches(d: string)
    requires Digits(d)
    ensures OneLine("data " + d + "\n") && DataDigits("data " + d + "\n") == d
  {
    hide DigitRun;
    var line := "data " + d + "\n";
    assert line[5..] == d + "\n";
    assert line[..5] == "data ";
    DigitRunExact(d, "\n");
    assert forall i :: 0 <= i < |d| ==> line[5 + i] == d[i];
  }

  // ---------------------------------------------------------------- the bridge

  function Image(v: Conv): Text { Text(v.mode, v.commit, v.live, v.last, RenderAll(v.out)) }

  lemma EmitImage(v: Conv, cmd: Cmd)
    ensures Image(Emit(v, [cmd])) == Printed(Image(v), Render(cmd))
  {
    hide Render;
    assert (v.out + [cmd])[..|v.out|] == v.out;
  }

  lemma RecordImage(v: Conv, mark: string, file: string)
    ensures Image(Record(v, mark, file)) == RecordText(Image(v), mark, file)
  {
    var add := Modify(mark, file);
    if v.last != "" && v.last != file {
      var del := Delete(v.last);
      assert v.out + ([del] + [add]) == v.out + [del] + [add];
      EmitImage(v, del);
      EmitImage(Emit(v, [del]), add);
    } else {
      assert v.out + ([] + [add]) == v.out + [add];
      EmitImage(v, add);
    }
  }

  /** What tells the kinds of line apart: the first characters. */
  ghost predicate Told(cmd: Cmd, line: string) {
    && OneLine(line) && DataDigits(line) == ""
    && (line == "blob\n" <==> cmd.Blob?) && (line == "done\n" <==> cmd.Done?)
    && (StartsWith(line, "commit ") <==> cmd.Commit?)
    && MatchModify(line) == (if cmd.Modify? then Some((cmd.mark, cmd.path)) else None)
    && MatchDelete(line) == (if cmd.Delete? then Some(cmd.path) else None)
  }

  lemma ModifyTold(mark: string, path: string)
    requires WellFormed(Modify(mark, path))
    ensures Told(Modify(mark, path), Render(Modify(mark, path)))
  {
    hide OneLine;
    hide IsV1Path;
    hide MatchModify;
    ModifyMatches(mark, path);
    OneLineChange(Modify(mark, path));
    assert Render(Modify(mark, path))[0] == 'M';
  }

  lemma DeleteTold(path: string)
    requires WellFormed(Delete(path))
    ensures Told(Delete(path), Render(Delete(path)))
  {
    hide OneLine;
    hide IsV1Path;
    hide MatchDelete;
    DeleteMatches(path);
    OneLineChange(Delete(path));
    assert Render(Delete(path))[0] == 'D';
  }

  lemma CommitTold(ref: string)
    requires WellFormed(Commit(ref))
    ensures Told(Commit(ref), Render(Commit(ref)))
  {
    hide DigitRun;
    hide IsV1Path;
    var line := Render(Commit(ref));
    assert line[0] == 'c' && line[..7] == "commit ";
  }

  lemma FixedTold(cmd: Cmd)
    requires cmd.Blob? || cmd.Done?
    ensures Told(cmd, Render(cmd))
  {
    hide DigitRun;
    hide IsV1Path;
    assert Render(cmd)[0] == (if cmd.Blob? then 'b' else 'd') && (cmd.Done? ==> Render(cmd)[1] == 'o');
  }

  lemma LineKinds(cmd: Cmd)
    requires WellFormed(cmd) && !cmd.Data?
    ensures Told(cmd, Render(cmd))
  {
    match cmd
    case Modify(mark, path) => hide *; ModifyTold(mark, path);
    case Delete(path) => hide *; DeleteTold(path);
    case Commit(ref) => hide *; CommitTold(ref);
    case Other(line) =>
    case _ => hide *; FixedTold(cmd);
  }

  lemma OneLineChange(cmd: Cmd)
    requires WellFormed(cmd) && (cmd.Modify? || cmd.Delete?)
    ensures OneLine(Render(cmd))
  {
    assert forall i :: 0 <= i < |cmd.path| ==> cmd.path[i] != '\n';
  }

  lemma ModifyImage(v: Conv, mark: string, path: string)
    requires v.mode == Running && WellFormed(Modify(mark, path))
    ensures OnLine(Image(v), Render(Modify(mark, path))) == Image(Step(v, Modify(mark, path)))
  {
    hide Render;
    hide Record;
    hide RecordText;
    hide MatchModify;
    hide MatchDelete;
    hide IsV1Path;
    hide OneLine;
    hide StartsWith;
    hide RenderAll;
    hide DataDigits;
    LineKinds(Modify(mark, path));
    EmitImage(v, Modify(mark, path));
    RecordImage(v, mark, "m");
  }

  lemma DeleteImage(v: Conv, path: string)
    requires v.mode == Running && WellFormed(Delete(path))
    ensures OnLine(Image(v), Render(Delete(path))) == Image(Step(v, Delete(path)))
  {
    hide Render;
    hide Record;
    hide RecordText;
    hide MatchModify;
    hide MatchDelete;
    hide IsV1Path;
    hide OneLine;
    hide StartsWith;
    hide RenderAll;
    hide DataDigits;
    LineKinds(Delete(path));
    EmitImage(v, Delete(path));
    if path in v.live {
      RecordImage(v, v.live[path], "d");
    }
  }

  lemma OtherImage(v: Conv, cmd: Cmd)
    requires v.mode == Running && WellFormed(cmd) && !cmd.Data? && !cmd.Modify? && !cmd.Delete?
    ensures OnLine(Image(v), Render(cmd)) == Image(Step(v, cmd))
  {
    hide Render;
    hide MatchModify;
    hide MatchDelete;
    hide IsV1Path;
    hide OneLine;
    hide StartsWith;
    hide RenderAll;
    hide DataDigits;
    LineKinds(cmd);
    EmitImage(v, cmd);
  }

  lemma LineImage(v: Conv, cmd: Cmd)
    requires v.mode == Running && WellFormed(cmd) && !cmd.Data?
    ensures OnLine(Image(v), Render(cmd)) == Image(Step(v, cmd))
  {
    hide *;
    match cmd
    case Modify(mark, path) => ModifyImage(v, mark, path);
    case Delete(path) => DeleteImage(v, path);
    case _ => OtherImage(v, cmd);
  }

  /** One round of the loop reads exactly one rendered command. */
  lemma RoundImage(v: Conv, cmd: Cmd, rest: string)
    requires v.mode == Running && WellFormed(cmd)
    ensures Render(cmd) + rest != ""
    ensures cmd != Data("") ==> Round(Image(v), Render(cmd) + rest) == (Image(Step(v, cmd)), rest)
    ensures cmd == Data("") ==> Round(Image(v), Render(cmd) + rest) == (Printed(Image(Step(v, cmd)), rest), "")
  {
    if cmd.Data? {
      DataImage(v, cmd.payload, rest);
    } else {
      LineKinds(cmd);
      LineImage(v, cmd);
      LineLenExact(Render(cmd), rest);
    }
  }

  lemma DataImage(v: Conv, payload: string, rest: string)
    requires v.mode == Running
    ensures var cmd := Data(payload);
      if payload == "" then Round(Image(v), Render(cmd) + rest) == (Printed(Image(Step(v, cmd)), rest), "")
      else Round(Image(v), Render(cmd) + rest) == (Image(Step(v, cmd)), rest)
  {
    hide RenderAll;
    hide DataDigits;
    var cmd, d := Data(payload), Decimal(|payload|);
    var line := "data " + d + "\n";
    var s := Render(cmd) + rest;
    ReadDecimal(|payload|);
    DataMatches(d);
    LineLenExact(line, payload + rest);
    EmitImage(v, cmd);
    assert s == line + (payload + rest);
    assert s[..|line|] == line && s[|line|..] == payload + rest;
    assert (payload + rest)[..|payload|] == payload && (payload + rest)[|payload|..] == rest;
    assert Image(v).out + line + payload == Image(v).out + (line + payload);
  }

  function RunFrom(v: Conv, cmds: seq<Cmd>): Conv
    decreases |cmds|
  {
    if cmds == [] then v else RunFrom(Step(v, cmds[0]), cmds[1..])
  }

  lemma {:induction false} RunFromAppend(v: Conv, cmds: seq<Cmd>, cmd: Cmd)
    ensures RunFrom(v, cmds + [cmd]) == Step(RunFrom(v, cmds), cmd)
    decreases |cmds|
  {
    hide Step;
    if cmds == [] {
      assert [] + [cmd] == [cmd];
    } else {
      assert (cmds + [cmd])[1..] == cmds[1..] + [cmd];
      RunFromAppend(Step(v, cmds[0]), cmds[1..], cmd);
    }
  }

  lemma {:induction false} RunIsRunFrom(cmds: seq<Cmd>)
    ensures Run(cmds) == RunFrom(START, cmds)
  {
    hide Step;
    if cmds != [] {
      var n := |cmds| - 1;
      RunIsRunFrom(cmds[..n]);
      RunFromAppend(START, cmds[..n], cmds[n]);
      assert cmds[..n] + [cmds[n]] == cmds;
    }
  }

  lemma {:induction false} RunFromHalted(v: Conv, cmds: seq<Cmd>)
    requires v.mode != Running
    ensures RunFrom(v, cmds) == if v.mode == Verbatim then Emit(v, cmds) else v
    decreases |cmds|
  {
    if cmds == [] {
      assert v.out + [] == v.out;
    } else {
      RunFromHalted(Step(v, cmds[0]), cmds[1..]);
      assert v.out + [cmds[0]] + cmds[1..] == v.out + cmds;
    }
  }

  lemma StepVerbatim(v: Conv, cmd: Cmd)
    requires v.mode == Running
    ensures Step(v, cmd).mode == Verbatim <==> cmd == Data("")
  {
  }

  lemma {:induction false} FeedImage(v: Conv, cmds: seq<Cmd>)
    requires v.mode == Running && forall i :: 0 <= i < |cmds| ==> WellFormed(cmds[i])
    ensures Feed(Image(v), RenderAll(cmds)) == Image(RunFrom(v, cmds))
    decreases |cmds|
  {
    hide Round;
    hide Step;
    hide Render;
    hide WellFormed;
    if cmds != [] {
      var cmd, rest := cmds[0], cmds[1..];
      var next := Step(v, cmd);
      assert cmds == [cmd] + rest && RenderAll([cmd]) == RenderAll([]) + Render(cmd) == Render(cmd);
      RenderConcat([cmd], rest);
      RoundImage(v, cmd, RenderAll(rest));
      StepVerbatim(v, cmd);
      if next.mode == Running {
        FeedImage(next, rest);
      } else {
        RunFromHalted(next, rest);
        RenderConcat(next.out, rest);
      }
    }
  }

  /** Converting the text of a command stream gives the text of the converted commands. */
  lemma ConvertsText(cmds: seq<Cmd>)
    requires forall i :: 0 <= i < |cmds| ==> WellFormed(cmds[i])
    ensures Feed(INIT, RenderAll(cmds)) == Image(Run(cmds))
  {
    hide WellFormed;
    FeedImage(START, cmds);
    RunIsRunFrom(cmds);
  }
}
