/**
  What converting a v1 history to v2 means, on the commands of a git fast-export stream.
  A v1 tree keeps each message under a hashed path; a v2 tree has a single file, m or d.
*/
module ConvertModel {

  datatype Cmd =
    | Blob
    | Commit(ref: string)
    | Data(payload: string)
    | Modify(mark: string, path: string)
    | Delete(path: string)
    | Other(line: string)
    | Done

  datatype Mode = Running | Verbatim | Finished | Died

  /** The converter: which object it is in, %D (v1 path to blob mark), $last, and what it printed. */
  datatype Conv = Conv(mode: Mode, commit: bool, live: map<string, string>, last: string, out: seq<Cmd>)

  const START: Conv := Conv(Running, false, map[], "", [])

  function Emit(c: Conv, cmds: seq<Cmd>): Conv { c.(out := c.out + cmds) }

  /** Removes the other file if it is there, then records the blob under `file`. */
  function Record(c: Conv, mark: string, file: string): Conv {
    Emit(c, (if c.last != "" && c.last != file then [Delete(c.last)] else []) + [Modify(mark, file)]).(last := file)
  }

  predicate IsHex(c: char) { '0' <= c <= '9' || 'a' <= c <= 'f' }

  /** Two hex digits, a slash, 38 hex digits. */
  predicate IsV1Path(p: string) {
    |p| == 41 && p[2] == '/' && forall i :: 0 <= i < 41 && i != 2 ==> IsHex(p[i])
  }

  /** One command. An empty data block makes the converter copy the rest of the stream unread. */
  function Step(c: Conv, cmd: Cmd): Conv {
    if c.mode == Verbatim then Emit(c, [cmd])
    else if c.mode != Running then c
    else match cmd
      case Blob => Emit(c, [cmd]).(commit := false)
      case Commit(_) => Emit(c, [cmd]).(commit := true)
      case Data(payload) => Emit(c, [cmd]).(mode := if payload == "" then Verbatim else Running)
      case Modify(mark, path) =>
        if c.commit && IsV1Path(path) then Record(c, mark, "m").(live := c.live[path := mark]) else Emit(c, [cmd])
      case Delete(path) =>
        if !c.commit || !IsV1Path(path) then Emit(c, [cmd])
        else if path !in c.live then c.(mode := Died)
        else Record(c, c.live[path], "d").(live := c.live - {path})
      case Other(_) => Emit(c, [cmd])
      case Done => c.(mode := Finished)
  }

  function Run(cmds: seq<Cmd>): Conv {
    if cmds == [] then START else Step(Run(cmds[..|cmds| - 1]), cmds[|cmds| - 1])
  }

  // ---------------------------------------------------------------- replaying a stream

  /** The tree after a linear history: each commit starts from the one before it. */
  function Tree(cmds: seq<Cmd>): map<string, string> {
    if cmds == [] then map[]
    else
      var t := Tree(cmds[..|cmds| - 1]);
      match cmds[|cmds| - 1]
      case Modify(mark, path) => t[path := mark]
      case Delete(path) => t - {path}
      case _ => t
  }

  lemma {:induction false} TreeAppend(a: seq<Cmd>, cmd: Cmd)
    ensures Tree(a + [cmd]) ==
      match cmd
      case Modify(mark, path) => Tree(a)[path := mark]
      case Delete(path) => Tree(a) - {path}
      case _ => Tree(a)
  {
    assert (a + [cmd])[..|a|] == a;
  }

  /** A stream as v1 produces it: changes only inside commits and only to v1 paths, nothing after done. */
  ghost predicate V1Stream(cmds: seq<Cmd>) {
    forall i :: 0 <= i < |cmds| ==>
      && (cmds[i].Modify? || cmds[i].Delete? ==> InCommit(cmds[..i]) && IsV1Path(cmds[i].path))
      && (cmds[i].Done? ==> i == |cmds| - 1)
  }

  predicate InCommit(cmds: seq<Cmd>) {
    if cmds == [] then false
    else
      var last := cmds[|cmds| - 1];
      if last.Commit? then true else if last.Blob? then false else InCommit(cmds[..|cmds| - 1])
  }

  /** Whether every deletion of the v1 history removes a file that is there. */
  predicate Replayable(cmds: seq<Cmd>) {
    cmds == [] ||
    (var last := |cmds| - 1;
     Replayable(cmds[..last]) && (cmds[last].Delete? ==> cmds[last].path in Tree(cmds[..last])))
  }

  predicate HasEmptyData(cmds: seq<Cmd>) { exists i :: 0 <= i < |cmds| && cmds[i] == Data("") }

  lemma Prefix(cmds: seq<Cmd>)
    requires V1Stream(cmds) && cmds != []
    ensures V1Stream(cmds[..|cmds| - 1])
    ensures HasEmptyData(cmds) <==> HasEmptyData(cmds[..|cmds| - 1]) || cmds[|cmds| - 1] == Data("")
  {
    var front := cmds[..|cmds| - 1];
    forall i | 0 <= i < |front| ensures front[..i] == cmds[..i] {
    }
  }

  /** The v2 tree a v1 history calls for: the blob last added, as m, or last deleted, as d. */
  function Shown(cmds: seq<Cmd>): map<string, string> {
    if cmds == [] then map[]
    else
      var front := cmds[..|cmds| - 1];
      match cmds[|cmds| - 1]
      case Modify(mark, _) => map["m" := mark]
      case Delete(path) => if path in Tree(front) then map["d" := Tree(front)[path]] else Shown(front)
      case _ => Shown(front)
  }

  /** $last names the one file of the v2 tree. */
  predicate Names(last: string, t: map<string, string>) {
    if last == "" then t == map[] else (last == "m" || last == "d") && t.Keys == {last}
  }

  /**
    As long as no data block was empty: %D is the v1 tree, so the "undeleted path" exit is taken exactly
    on a history that deletes what is not there, and after every command the v2 tree holds just the
    blob of the latest change.
  */
  lemma {:induction false} ConvertsHistory(cmds: seq<Cmd>)
    requires V1Stream(cmds) && !HasEmptyData(cmds)
    ensures Run(cmds).mode == Died <==> !Replayable(cmds)
    ensures Run(cmds).mode != Verbatim
    ensures Run(cmds).mode == Finished <==> cmds != [] && cmds[|cmds| - 1].Done? && Replayable(cmds)
    ensures Replayable(cmds) ==>
      && Run(cmds).live == Tree(cmds) && Run(cmds).commit == InCommit(cmds)
      && Tree(Run(cmds).out) == Shown(cmds) && Names(Run(cmds).last, Shown(cmds))
  {
    if cmds != [] {
      var n := |cmds| - 1;
      Prefix(cmds);
      ConvertsHistory(cmds[..n]);
      if Replayable(cmds[..n]) && Run(cmds[..n]).mode == Running {
        StepShows(Run(cmds[..n]), cmds[n]);
      }
    }
  }

  lemma StepShows(c: Conv, cmd: Cmd)
    requires c.mode == Running && Names(c.last, Tree(c.out))
    requires (cmd.Modify? || cmd.Delete?) ==> c.commit && IsV1Path(cmd.path)
    ensures Step(c, cmd).mode != Died ==>
      Tree(Step(c, cmd).out) ==
        if cmd.Modify? then map["m" := cmd.mark]
        else if cmd.Delete? then map["d" := c.live[cmd.path]]
        else Tree(c.out)
  {
    match cmd
    case Modify(mark, _) => RecordShows(c, mark, "m");
    case Delete(path) => if path in c.live { RecordShows(c, c.live[path], "d"); }
    case Done =>
    case _ => TreeAppend(c.out, cmd);
  }

  lemma RecordShows(c: Conv, mark: string, file: string)
    requires Names(c.last, Tree(c.out)) && (file == "m" || file == "d")
    ensures Tree(Record(c, mark, file).out) == map[file := mark]
  {
    if c.last != "" && c.last != file {
      TreeAppend(c.out, Delete(c.last));
      TreeAppend(c.out + [Delete(c.last)], Modify(mark, file));
      assert Record(c, mark, file).out == c.out + [Delete(c.last)] + [Modify(mark, file)];
    } else {
      TreeAppend(c.out, Modify(mark, file));
      assert Record(c, mark, file).out == c.out + [Modify(mark, file)];
    }
  }

  // ---------------------------------------------------------------- an empty data block

  predicate OnlyMOrD(t: map<string, string>) { t.Keys <= {"m"} || t.Keys <= {"d"} }

  /** A message added after an empty data block, a stream the converter copies instead of rewriting. */
  predicate AddsAfterEmptyData(cmds: seq<Cmd>) {
    exists k :: 0 <= k < |cmds| && cmds[k].Modify? && HasEmptyData(cmds[..k])
  }

  lemma {:induction false} VerbatimFrom(cmds: seq<Cmd>)
    requires V1Stream(cmds) && Replayable(cmds) && HasEmptyData(cmds)
    ensures Run(cmds).mode == Verbatim
    ensures !AddsAfterEmptyData(cmds) ==> OnlyMOrD(Tree(Run(cmds).out))
  {
    var n := |cmds| - 1;
    var front, last := cmds[..n], cmds[n];
    Prefix(cmds);
    TreeAppend(Run(front).out, last);
    if HasEmptyData(front) {
      VerbatimFrom(front);
      if !AddsAfterEmptyData(cmds) {
        forall k | 0 <= k < n && front[k].Modify? ensures !HasEmptyData(front[..k]) {
          assert front[..k] == cmds[..k];
        }
        assert !last.Modify?;
      }
    } else {
      ConvertsHistory(front);
    }
  }

  /** Where no message was added after an empty data block, the v2 tree has the one-file layout. */
  lemma LayoutKept(cmds: seq<Cmd>, k: nat)
    requires V1Stream(cmds) && Replayable(cmds) && !AddsAfterEmptyData(cmds) && k <= |cmds|
    ensures OnlyMOrD(Tree(Run(cmds[..k]).out))
  {
    hide Run;
    hide Tree;
    Prefixes(cmds, k);
    if HasEmptyData(cmds[..k]) {
      forall i | 0 <= i < k && cmds[..k][i].Modify? ensures !HasEmptyData(cmds[..k][..i]) {
        assert cmds[..k][..i] == cmds[..i];
      }
      VerbatimFrom(cmds[..k]);
    } else {
      ConvertsHistory(cmds[..k]);
    }
  }

  lemma ChangesAreV1(cmds: seq<Cmd>, k: nat)
    requires V1Stream(cmds) && k < |cmds| && cmds[k].Modify?
    ensures IsV1Path(cmds[k].path)
  {
  }

  lemma RunStep(cmds: seq<Cmd>, k: nat)
    requires k < |cmds|
    ensures Run(cmds[..k + 1]) == Step(Run(cmds[..k]), cmds[k])
  {
    assert cmds[..k + 1][..k] == cmds[..k];
  }

  lemma CopiedAdd(c: Conv, cmd: Cmd)
    requires c.mode == Verbatim && cmd.Modify? && IsV1Path(cmd.path)
    ensures !OnlyMOrD(Tree(Step(c, cmd).out))
  {
    TreeAppend(c.out, cmd);
    var t := Tree(Step(c, cmd).out);
    assert cmd.path in t.Keys && |cmd.path| == 41;
  }

  /** A message added after an empty data block lands in the v2 tree under its v1 path. */
  lemma LayoutBroken(cmds: seq<Cmd>, k: nat)
    requires V1Stream(cmds) && Replayable(cmds) && k < |cmds| && cmds[k].Modify? && HasEmptyData(cmds[..k])
    ensures !OnlyMOrD(Tree(Run(cmds[..k + 1]).out))
  {
    hide *;
    assert IsV1Path(cmds[k].path) by {
      ChangesAreV1(cmds, k);
    }
    Prefixes(cmds, k);
    VerbatimFrom(cmds[..k]);
    RunStep(cmds, k);
    CopiedAdd(Run(cmds[..k]), cmds[k]);
  }

  /**
    The one-file layout holds after every command of a replayable v1 stream if and only if no message is
    added after an empty data block.
  */
  lemma LayoutIff(cmds: seq<Cmd>)
    requires V1Stream(cmds) && Replayable(cmds)
    ensures (forall k :: 0 <= k <= |cmds| ==> OnlyMOrD(Tree(Run(cmds[..k]).out))) <==> !AddsAfterEmptyData(cmds)
  {
    hide Run;
    hide Tree;
    hide OnlyMOrD;
    if AddsAfterEmptyData(cmds) {
      var k :| 0 <= k < |cmds| && cmds[k].Modify? && HasEmptyData(cmds[..k]);
      LayoutBroken(cmds, k);
    } else {
      forall k | 0 <= k <= |cmds| ensures OnlyMOrD(Tree(Run(cmds[..k]).out)) {
        LayoutKept(cmds, k);
      }
    }
  }

  lemma {:induction false} Prefixes(cmds: seq<Cmd>, k: nat)
    requires V1Stream(cmds) && Replayable(cmds) && k <= |cmds|
    ensures V1Stream(cmds[..k]) && Replayable(cmds[..k])
    decreases |cmds|
  {
    if k == |cmds| {
      assert cmds[..k] == cmds;
    } else {
      Prefix(cmds);
      Prefixes(cmds[..|cmds| - 1], k);
      assert cmds[..|cmds| - 1][..k] == cmds[..k];
    }
  }

  // ---------------------------------------------------------------- payloads

  function Payloads(cmds: seq<Cmd>): seq<string> {
    if cmds == [] then []
    else
      var last := cmds[|cmds| - 1];
      Payloads(cmds[..|cmds| - 1]) + if last.Data? then [last.payload] else []
  }

  lemma {:induction false} PayloadsAppend(a: seq<Cmd>, b: seq<Cmd>)
    ensures Payloads(a + b) == Payloads(a) + Payloads(b)
  {
    if b == [] {
      assert a + b == a;
    } else {
      var n := |b| - 1;
      assert (a + b)[..|a| + n] == a + b[..n];
      PayloadsAppend(a, b[..n]);
    }
  }

  /** Every payload is copied, once and in order, whatever it looks like, empty data blocks included. */
  lemma {:induction false} PayloadsCopied(cmds: seq<Cmd>)
    requires V1Stream(cmds) && Replayable(cmds)
    ensures Payloads(Run(cmds).out) == Payloads(cmds) && Run(cmds).mode != Died
    ensures Run(cmds).mode == Finished ==> cmds[|cmds| - 1].Done?
  {
    if cmds != [] {
      var n := |cmds| - 1;
      var front, last := cmds[..n], cmds[n];
      Prefix(cmds);
      PayloadsCopied(front);
      if !HasEmptyData(cmds) {
        ConvertsHistory(cmds);
        ConvertsHistory(front);
      } else if HasEmptyData(front) {
        VerbatimFrom(front);
      } else {
        ConvertsHistory(front);
      }
      StepPayloads(Run(front), last);
    }
  }

  lemma StepPayloads(c: Conv, cmd: Cmd)
    requires c.mode == Running || c.mode == Verbatim
    ensures Payloads(Step(c, cmd).out) == Payloads(c.out) + if cmd.Data? then [cmd.payload] else []
  {
    PayloadsAppend(c.out, [cmd]);
    if c.mode == Running && c.commit {
      match cmd
      case Modify(mark, path) => RecordPayloads(c, mark, "m");
      case Delete(path) => if path in c.live { RecordPayloads(c, c.live[path], "d"); }
      case _ =>
    }
  }

  lemma RecordPayloads(c: Conv, mark: string, file: string)
    ensures Payloads(Record(c, mark, file).out) == Payloads(c.out)
  {
    if c.last != "" && c.last != file {
      PayloadsAppend(c.out, [Delete(c.last)]);
      PayloadsAppend(c.out + [Delete(c.last)], [Modify(mark, file)]);
      assert Record(c, mark, file).out == c.out + [Delete(c.last)] + [Modify(mark, file)];
    } else {
      PayloadsAppend(c.out, [Modify(mark, file)]);
      assert Record(c, mark, file).out == c.out + [Modify(mark, file)];
    }
  }

  // ---------------------------------------------------------------- conservation of blobs

  /** How often a blob is recorded under a file name. */
  function CountAs(file: string, mark: string, cmds: seq<Cmd>): nat {
    if cmds == [] then 0
    else CountAs(file, mark, cmds[..|cmds| - 1]) + if cmds[|cmds| - 1] == Modify(mark, file) then 1 else 0
  }

  lemma CountAppend(file: string, mark: string, a: seq<Cmd>, cmd: Cmd)
    ensures CountAs(file, mark, a + [cmd]) == CountAs(file, mark, a) + if cmd == Modify(mark, file) then 1 else 0
  {
    assert (a + [cmd])[..|a|] == a;
  }

  /** The paths that hold a blob in a v1 tree. */
  function PathsOf(t: map<string, string>, mark: string): set<string> {
    set p | p in t && t[p] == mark
  }

  /** How often a blob was replaced in place by a later one at its path. */
  function Overwrites(mark: string, cmds: seq<Cmd>): nat {
    if cmds == [] then 0
    else
      var front, last := cmds[..|cmds| - 1], cmds[|cmds| - 1];
      Overwrites(mark, front)
      + if last.Modify? && last.path in Tree(front) && Tree(front)[last.path] == mark then 1 else 0
  }

  /**
    Conservation, blob by blob: each time it was recorded as m, it was later recorded as d, is still
    live in v1, or was overwritten.
  */
  lemma {:induction false} BlobsConserved(cmds: seq<Cmd>, mark: string)
    requires V1Stream(cmds) && Replayable(cmds) && !HasEmptyData(cmds)
    ensures CountAs("m", mark, Run(cmds).out)
         == CountAs("d", mark, Run(cmds).out) + |PathsOf(Tree(cmds), mark)| + Overwrites(mark, cmds)
  {
    if cmds != [] {
      var n := |cmds| - 1;
      Prefix(cmds);
      BlobsConserved(cmds[..n], mark);
      ConvertsHistory(cmds[..n]);
      StepCounts(Run(cmds[..n]), cmds[n], mark);
      PathsStep(Tree(cmds[..n]), cmds[n], mark);
    }
  }

  /** For this blob, "added minus deleted" is its share of the live v1 tree. */
  predicate Balanced(cmds: seq<Cmd>, mark: string) {
    CountAs("m", mark, Run(cmds).out) - CountAs("d", mark, Run(cmds).out) == |PathsOf(Tree(cmds), mark)|
  }

  predicate NeverOverwritten(cmds: seq<Cmd>, mark: string) { Overwrites(mark, cmds) == 0 }

  /** So "added minus deleted" is the live v1 tree exactly when no live path was overwritten. */
  lemma BalancedIff(cmds: seq<Cmd>)
    requires V1Stream(cmds) && Replayable(cmds) && !HasEmptyData(cmds)
    ensures (forall mark :: Balanced(cmds, mark)) <==> (forall mark :: NeverOverwritten(cmds, mark))
  {
    forall mark ensures Balanced(cmds, mark) <==> NeverOverwritten(cmds, mark) {
      BlobsConserved(cmds, mark);
    }
  }

  lemma PathsRemove(t: map<string, string>, p: string, mark: string)
    ensures PathsOf(t - {p}, mark) == PathsOf(t, mark) - {p}
    ensures |PathsOf(t, mark)| == |PathsOf(t - {p}, mark)| + if p in t && t[p] == mark then 1 else 0
  {
    assert PathsOf(t - {p}, mark) == PathsOf(t, mark) - {p};
    assert p in PathsOf(t, mark) <==> p in t && t[p] == mark;
  }

  lemma PathsUpdate(t: map<string, string>, p: string, m: string, mark: string)
    ensures |PathsOf(t[p := m], mark)| == |PathsOf(t - {p}, mark)| + if m == mark then 1 else 0
  {
    PathsRemove(t[p := m], p, mark);
    assert t[p := m] - {p} == t - {p};
  }

  lemma PathsStep(t: map<string, string>, cmd: Cmd, mark: string)
    ensures cmd.Modify? ==>
      |PathsOf(t[cmd.path := cmd.mark], mark)| + (if cmd.path in t && t[cmd.path] == mark then 1 else 0)
      == |PathsOf(t, mark)| + if cmd.mark == mark then 1 else 0
    ensures cmd.Delete? && cmd.path in t ==>
      |PathsOf(t - {cmd.path}, mark)| + (if t[cmd.path] == mark then 1 else 0) == |PathsOf(t, mark)|
  {
    hide PathsOf;
    match cmd
    case Modify(m, path) =>
      PathsRemove(t, path, mark);
      PathsUpdate(t, path, m, mark);
    case Delete(path) => PathsRemove(t, path, mark);
    case _ =>
  }

  lemma StepCounts(c: Conv, cmd: Cmd, mark: string)
    requires c.mode == Running && (cmd.Modify? || cmd.Delete? ==> c.commit && IsV1Path(cmd.path))
    requires cmd.Delete? ==> cmd.path in c.live
    ensures CountAs("m", mark, Step(c, cmd).out)
         == CountAs("m", mark, c.out) + if cmd.Modify? && cmd.mark == mark then 1 else 0
    ensures CountAs("d", mark, Step(c, cmd).out)
         == CountAs("d", mark, c.out) + if cmd.Delete? && c.live[cmd.path] == mark then 1 else 0
  {
    match cmd
    case Modify(m, _) => RecordCounts(c, m, "m", mark);
    case Delete(path) => RecordCounts(c, c.live[path], "d", mark);
    case Done =>
    case _ =>
      CountAppend("m", mark, c.out, cmd);
      CountAppend("d", mark, c.out, cmd);
  }

  lemma RecordCounts(c: Conv, m: string, file: string, mark: string)
    ensures forall f :: CountAs(f, mark, Record(c, m, file).out)
                     == CountAs(f, mark, c.out) + if file == f && m == mark then 1 else 0
  {
    forall f ensures CountAs(f, mark, Record(c, m, file).out)
                  == CountAs(f, mark, c.out) + if file == f && m == mark then 1 else 0
    {
      if c.last != "" && c.last != file {
        CountAppend(f, mark, c.out, Delete(c.last));
        CountAppend(f, mark, c.out + [Delete(c.last)], Modify(m, file));
        assert Record(c, m, file).out == c.out + [Delete(c.last)] + [Modify(m, file)];
      } else {
        CountAppend(f, mark, c.out, Modify(m, file));
        assert Record(c, m, file).out == c.out + [Modify(m, file)];
      }
    }
  }

  // ---------------------------------------------------------------- where the layout and the balance fail

  const SOME_PATH: string := "01/23456789abcdef0123456789abcdef01234567"

  lemma SomePathIsV1()
    ensures IsV1Path(SOME_PATH)
  {
  }

  lemma Nothing()
    ensures Run([]) == START && Tree([]) == map[]
  {
  }

  /** The first three steps of a run and of a replay. */
  lemma ThreeSteps(a: Cmd, b: Cmd, c: Cmd)
    ensures Run([a, b, c]) == Step(Step(Step(START, a), b), c)
    ensures Tree([a]) == (match a case Modify(m, p) => map[p := m] case _ => map[])
    ensures Tree([a, b]) ==
      match b
      case Modify(m, p) => Tree([a])[p := m]
      case Delete(p) => Tree([a]) - {p}
      case _ => Tree([a])
    ensures InCommit([a]) == a.Commit? && InCommit([a, b]) == (b.Commit? || (!b.Blob? && a.Commit?))
    ensures Replayable([a, b, c]) <==>
      && !a.Delete?
      && (b.Delete? ==> b.path in Tree([a]))
      && (c.Delete? ==> c.path in Tree([a, b]))
  {
    hide Step;
    hide Tree;
    hide Run;
    var cmds := [a, b, c];
    Nothing();
    assert cmds[..0] == [] && cmds[..1] == [a] && cmds[..2] == [a, b] && cmds[..3] == cmds;
    RunStep(cmds, 0);
    RunStep(cmds, 1);
    RunStep(cmds, 2);
    TreeAppend([], a);
    TreeAppend([a], b);
    assert [] + [a] == [a] && [a] + [b] == [a, b];
    assert [a, b][..1] == [a] && [a][..0] == [];
    assert InCommit([a]) == (a.Commit? || (!a.Blob? && InCommit([])));
    assert Replayable([a]) == (Replayable([]) && (a.Delete? ==> a.path in Tree([])));
    assert Replayable([a, b]) == (Replayable([a]) && (b.Delete? ==> b.path in Tree([a])));
  }

  /** An empty commit message is enough: the message added by that commit keeps its v1 path. */
  lemma EmptyMessageExample()
    ensures var cmds := [Commit("refs/heads/master"), Data(""), Modify("1", SOME_PATH)];
      V1Stream(cmds) && Replayable(cmds) && SOME_PATH in Tree(Run(cmds).out)
  {
    hide IsV1Path;
    hide Tree;
    hide Run;
    hide InCommit;
    hide Replayable;
    SomePathIsV1();
    var a, b, c := Commit("refs/heads/master"), Data(""), Modify("1", SOME_PATH);
    ThreeSteps(a, b, c);
    assert [a, b, c][..2] == [a, b];
    TreeAppend(Step(Step(START, a), b).out, c);
  }

  /** Two messages at one path: the first is recorded as m, never as d, and is gone from the v1 tree. */
  lemma OverwriteExample()
    ensures var cmds := [Commit("r"), Modify("1", SOME_PATH), Modify("2", SOME_PATH)];
      V1Stream(cmds) && Replayable(cmds) && !HasEmptyData(cmds) && !Balanced(cmds, "1")
  {
    hide IsV1Path;
    hide Tree;
    hide Run;
    hide InCommit;
    hide Replayable;
    SomePathIsV1();
    var a, b, c := Commit("r"), Modify("1", SOME_PATH), Modify("2", SOME_PATH);
    var cmds := [a, b, c];
    ThreeSteps(a, b, c);
    assert cmds[..1] == [a] && cmds[..2] == [a, b];
    assert Overwrites("1", cmds) == Overwrites("1", [a, b]) + 1;
    BlobsConserved(cmds, "1");
  }
}
