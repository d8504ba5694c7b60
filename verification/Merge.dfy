/**
  Several dump_roots workers share one output pipe. Each buffers whole lines, and flushes them with
  partial writes while it holds the exclusive lock. A worker whose write fails gives up the lock and stops.
*/
module Merge {
  import opened Output

  /** Lines to be produced, lines buffered, how much of the buffer was written, and lines given up by a failure. */
  datatype Worker = Worker(todo: seq<string>, buf: seq<string>, sent: nat, lost: seq<string>)

  /** A line that a worker's flushes sent, or the part of it that they sent. */
  datatype Entry = Entry(w: nat, line: string, taken: nat)

  /** `log` records what the flushes so far put into the pipe, in order. */
  datatype System = System(workers: seq<Worker>, lock: int, pipe: string, log: seq<Entry>)

  const FREE: int := -1

  datatype Event =
    | Print(w: nat)           // a line is added to the buffer
    | Lock(w: nat)            // flock(LOCK_EX) succeeds; only non-empty buffers are flushed
    | Write(w: nat, n: nat)   // write(2) takes n bytes
    | Fail(w: nat)            // write(2) fails: unlock, and give up
    | Unlock(w: nat)          // everything written: unlock and rewind

  predicate Enabled(s: System, e: Event) {
    && e.w < |s.workers|
    && var x := s.workers[e.w];
       match e
       case Print(w) => s.lock != w && x.todo != []
       case Lock(w) => s.lock == FREE && x.buf != []
       case Write(w, n) => s.lock == w && 0 < n && x.sent + n <= |Concat(x.buf)|
       case Fail(w) => s.lock == w && x.sent < |Concat(x.buf)|
       case Unlock(w) => s.lock == w && x.sent == |Concat(x.buf)|
  }

  function Tagged(w: nat, lines: seq<string>): (r: seq<Entry>)
    ensures |r| == |lines| && forall i :: 0 <= i < |r| ==> r[i] == Entry(w, lines[i], |lines[i]|)
  {
    seq(|lines|, i requires 0 <= i < |lines| => Entry(w, lines[i], |lines[i]|))
  }

  /** How many lines the first n bytes of a buffer hold whole. */
  function WholeLines(buf: seq<string>, n: nat): (k: nat)
    ensures k <= |buf| && |Concat(buf[..k])| <= n
    ensures k < |buf| ==> n < |Concat(buf[..k + 1])|
  {
    if |Concat(buf)| <= n then
      assert buf[..|buf|] == buf;
      |buf|
    else
      var front := buf[..|buf| - 1];
      var k := WholeLines(front, n);
      assert front[..k] == buf[..k];
      assert if k < |front| then front[..k + 1] == buf[..k + 1] else buf[..k + 1] == buf;
      k
  }

  /** The bytes sent past those lines. */
  function CutAt(buf: seq<string>, n: nat): nat { n - |Concat(buf[..WholeLines(buf, n)])| }

  /** What a flush that stopped after n bytes leaves in the log: whole lines, then a part of the next one, if any. */
  function Partly(w: nat, buf: seq<string>, n: nat): seq<Entry>
    requires n < |Concat(buf)|
  {
    var k := WholeLines(buf, n);
    assert buf[..|buf|] == buf;
    Tagged(w, buf[..k]) + if CutAt(buf, n) == 0 then [] else [Entry(w, buf[k], CutAt(buf, n))]
  }

  function Step(s: System, e: Event): System
    requires Enabled(s, e)
  {
    var x := s.workers[e.w];
    match e
    case Print(w) => s.(workers := s.workers[w := x.(todo := x.todo[1..], buf := x.buf + [x.todo[0]])])
    case Lock(w) => s.(lock := w, workers := s.workers[w := x.(sent := 0)])
    case Write(w, n) =>
      s.(pipe := s.pipe + Concat(x.buf)[x.sent..x.sent + n], workers := s.workers[w := x.(sent := x.sent + n)])
    case Fail(w) =>
      s.(lock := FREE, log := s.log + Partly(w, x.buf, x.sent),
         workers := s.workers[w := GivenUp(x)])
    case Unlock(w) =>
      s.(lock := FREE, log := s.log + Tagged(w, x.buf), workers := s.workers[w := x.(buf := [], sent := 0)])
  }

  // ---------------------------------------------------------------- what a log stands for

  predicate Whole(e: Entry) { e.taken == |e.line| }

  predicate AllWhole(log: seq<Entry>) { forall i :: 0 <= i < |log| ==> Whole(log[i]) }

  function Sent(e: Entry): string { if e.taken <= |e.line| then e.line[..e.taken] else e.line }

  /** The text of a log, and the lines one worker contributed to it whole. */
  function Text(log: seq<Entry>): string {
    if log == [] then "" else Text(log[..|log| - 1]) + Sent(log[|log| - 1])
  }

  function By(w: nat, log: seq<Entry>): seq<string> {
    if log == [] then []
    else
      var last := log[|log| - 1];
      By(w, log[..|log| - 1]) + if last.w == w && Whole(last) then [last.line] else []
  }

  lemma AddEntry(log: seq<Entry>, e: Entry, v: nat)
    ensures Text(log + [e]) == Text(log) + Sent(e)
    ensures By(v, log + [e]) == if e.w == v && Whole(e) then By(v, log) + [e.line] else By(v, log)
  {
    assert (log + [e])[..|log|] == log;
  }

  lemma NoText()
    ensures Concat([]) == ""
  {
  }

  lemma LastLine(lines: seq<string>)
    requires lines != []
    ensures Concat(lines) == Concat(lines[..|lines| - 1]) + lines[|lines| - 1]
  {
  }

  lemma {:induction false} FlushLog(log: seq<Entry>, w: nat, lines: seq<string>, v: nat)
    ensures Text(log + Tagged(w, lines)) == Text(log) + Concat(lines)
    ensures By(v, log + Tagged(w, lines)) == By(v, log) + if v == w then lines else []
  {
    hide Text;
    hide By;
    hide Concat;
    if lines == [] {
      NoText();
      assert log + Tagged(w, lines) == log;
    } else {
      var n := |lines| - 1;
      var front, line := lines[..n], lines[n];
      LastLine(lines);
      FlushLog(log, w, front, v);
      AddEntry(log + Tagged(w, front), Entry(w, line, |line|), v);
      assert log + Tagged(w, lines) == log + Tagged(w, front) + [Entry(w, line, |line|)];
      assert lines == front + [line] && line[..|line|] == line;
      assert Text(log) + (Concat(front) + line) == Text(log) + Concat(front) + line;
      assert By(v, log) + (front + [line]) == By(v, log) + front + [line];
    }
  }

  /** The first n bytes of a buffer are its whole lines and a part of the next one. */
  lemma PrefixLines(buf: seq<string>, n: nat)
    requires n < |Concat(buf)|
    ensures WholeLines(buf, n) < |buf| && CutAt(buf, n) < |buf[WholeLines(buf, n)]|
    ensures Concat(buf)[..n] == Concat(buf[..WholeLines(buf, n)]) + buf[WholeLines(buf, n)][..CutAt(buf, n)]
  {
    var k := WholeLines(buf, n);
    assert buf[..|buf|] == buf;
    var whole, line := Concat(buf[..k]), buf[k];
    assert buf[..k + 1][..k] == buf[..k] && Concat(buf[..k + 1]) == whole + line;
    assert buf == buf[..k + 1] + buf[k + 1..];
    ConcatAppend(buf[..k + 1], buf[k + 1..]);
  }

  /** A failed flush adds its whole lines to the worker's, and its bytes to the text. */
  lemma FailLog(log: seq<Entry>, w: nat, buf: seq<string>, n: nat, v: nat)
    requires n < |Concat(buf)|
    ensures Text(log + Partly(w, buf, n)) == Text(log) + Concat(buf)[..n]
    ensures By(v, log + Partly(w, buf, n)) == By(v, log) + if v == w then buf[..WholeLines(buf, n)] else []
  {
    hide Concat;
    hide Text;
    hide By;
    var k, cut := WholeLines(buf, n), CutAt(buf, n);
    PrefixLines(buf, n);
    FlushLog(log, w, buf[..k], v);
    var flushed := log + Tagged(w, buf[..k]);
    assert Text(log) + (Concat(buf[..k]) + buf[k][..cut]) == Text(log) + Concat(buf[..k]) + buf[k][..cut];
    if cut == 0 {
      assert log + Partly(w, buf, n) == flushed;
    } else {
      AddEntry(flushed, Entry(w, buf[k], cut), v);
      assert log + Partly(w, buf, n) == flushed + [Entry(w, buf[k], cut)];
    }
  }

  // ---------------------------------------------------------------- nothing is lost or added

  predicate TaggedBelow(log: seq<Entry>, k: nat) { forall i :: 0 <= i < |log| ==> log[i].w < k }

  /** The whole lines of a log, and the lines of the first k workers, however often each occurs. */
  ghost function LinesOf(log: seq<Entry>): multiset<string> {
    if log == [] then multiset{}
    else LinesOf(log[..|log| - 1]) + if Whole(log[|log| - 1]) then multiset{log[|log| - 1].line} else multiset{}
  }

  ghost function All(programs: seq<seq<string>>, k: nat): multiset<string>
    requires k <= |programs|
  {
    if k == 0 then multiset{} else All(programs, k - 1) + multiset(programs[k - 1])
  }

  ghost function Shares(log: seq<Entry>, k: nat): multiset<string> {
    if k == 0 then multiset{} else Shares(log, k - 1) + multiset(By(k - 1, log))
  }

  /** What failures gave up. */
  ghost function Lost(workers: seq<Worker>, k: nat): multiset<string>
    requires k <= |workers|
  {
    if k == 0 then multiset{} else Lost(workers, k - 1) + multiset(workers[k - 1].lost)
  }

  ghost function Counted(e: Entry): multiset<string> { if Whole(e) then multiset{e.line} else multiset{} }

  lemma ByAppend(log: seq<Entry>, w: nat)
    requires log != []
    ensures multiset(By(w, log)) == multiset(By(w, log[..|log| - 1]))
      + if log[|log| - 1].w == w then Counted(log[|log| - 1]) else multiset{}
  {
    var front, last := By(w, log[..|log| - 1]), log[|log| - 1];
    if last.w == w && Whole(last) {
      assert By(w, log) == front + [last.line];
    } else {
      assert By(w, log) == front + [] == front;
    }
  }

  lemma {:induction false} ShareAppend(log: seq<Entry>, k: nat)
    requires log != []
    ensures Shares(log, k) == Shares(log[..|log| - 1], k)
      + if log[|log| - 1].w < k then Counted(log[|log| - 1]) else multiset{}
    decreases k
  {
    hide By;
    hide Counted;
    if k > 0 {
      ShareAppend(log, k - 1);
      ByAppend(log, k - 1);
    }
  }

  lemma {:induction false} SharesAreLines(log: seq<Entry>, k: nat)
    requires TaggedBelow(log, k)
    ensures Shares(log, k) == LinesOf(log)
    decreases |log|
  {
    if log == [] {
      NoShares(k);
    } else {
      ShareAppend(log, k);
      SharesAreLines(log[..|log| - 1], k);
    }
  }

  lemma {:induction false} NoShares(k: nat)
    ensures Shares([], k) == multiset{}
  {
    if k > 0 {
      NoShares(k - 1);
    }
  }

  lemma {:induction false} SharesArePrograms(s: System, programs: seq<seq<string>>, k: nat)
    requires k <= |programs| == |s.workers|
    requires forall w: nat :: w < k ==> By(w, s.log) + s.workers[w].lost == programs[w]
    ensures Shares(s.log, k) + Lost(s.workers, k) == All(programs, k)
    decreases k
  {
    hide By;
    if k > 0 {
      SharesArePrograms(s, programs, k - 1);
      var whole, lost := By(k - 1, s.log), s.workers[k - 1].lost;
      assert programs[k - 1] == whole + lost;
      assert multiset(whole + lost) == multiset(whole) + multiset(lost);
    }
  }

  // ---------------------------------------------------------------- the invariant

  /** The bytes of the flush in progress. */
  function Partial(s: System): string
    requires 0 <= s.lock < |s.workers| ==> s.workers[s.lock].sent <= |Concat(s.workers[s.lock].buf)|
  {
    if 0 <= s.lock < |s.workers| then Concat(s.workers[s.lock].buf)[..s.workers[s.lock].sent] else ""
  }

  /** What a worker sent whole, gave up, buffered and has yet to print; after giving up it prints no more. */
  ghost predicate Accounted(w: nat, log: seq<Entry>, x: Worker, program: seq<string>) {
    && By(w, log) + x.lost + x.buf + x.todo == program
    && (x.lost != [] ==> x.buf == [] && x.todo == [])
  }

  /**
    The pipe holds what the log says, in flush order, then a part of the flush in progress; and
    what a worker sent, gave up, buffered and has yet to print are together its own lines in order.
  */
  ghost predicate Inv(s: System, programs: seq<seq<string>>) {
    && |s.workers| == |programs| && (s.lock == FREE || 0 <= s.lock < |s.workers|)
    && (s.lock != FREE ==> s.workers[s.lock].sent <= |Concat(s.workers[s.lock].buf)|)
    && s.pipe == Text(s.log) + Partial(s) && TaggedBelow(s.log, |programs|)
    && forall w: nat :: w < |programs| ==> Accounted(w, s.log, s.workers[w], programs[w])
  }

  lemma UnlockKeepsInv(s: System, w: nat, programs: seq<seq<string>>)
    requires Inv(s, programs) && Enabled(s, Unlock(w))
    ensures Inv(Step(s, Unlock(w)), programs)
  {
    hide Concat;
    hide By;
    hide Text;
    var t, x := Step(s, Unlock(w)), s.workers[w];
    assert Concat(x.buf)[..x.sent] == Concat(x.buf);
    forall v: nat | v < |programs| ensures Accounted(v, t.log, t.workers[v], programs[v]) {
      FlushLog(s.log, w, x.buf, v);
      assert By(v, s.log) + [] == By(v, s.log);
      if v == w && x.buf != [] {
        assert By(v, s.log) + [] + x.buf + x.todo == (By(v, s.log) + x.buf) + [] + [] + x.todo;
      }
    }
    FlushLog(s.log, w, x.buf, w);
  }

  function GivenUp(x: Worker): Worker {
    Worker([], [], 0, x.lost + x.buf[WholeLines(x.buf, x.sent)..] + x.todo)
  }

  lemma FailAccounts(w: nat, log: seq<Entry>, x: Worker, program: seq<string>)
    requires Accounted(w, log, x, program) && x.sent < |Concat(x.buf)|
    ensures Accounted(w, log + Partly(w, x.buf, x.sent), GivenUp(x), program) && GivenUp(x).lost != []
  {
    hide Concat;
    hide By;
    hide Text;
    hide WholeLines;
    hide CutAt;
    hide Partly;
    var k, own := WholeLines(x.buf, x.sent), By(w, log);
    PrefixLines(x.buf, x.sent);
    FailLog(log, w, x.buf, x.sent, w);
    assert x.buf == x.buf[..k] + x.buf[k..];
    Regroup(own, x.buf[..k], x.buf[k..], x.todo);
  }

  lemma Regroup(a: seq<string>, b: seq<string>, c: seq<string>, d: seq<string>)
    ensures a + [] + (b + c) + d == a + b + ([] + c + d) + [] + []
  {
  }

  lemma FailTags(log: seq<Entry>, w: nat, buf: seq<string>, n: nat, k: nat)
    requires TaggedBelow(log, k) && w < k && n < |Concat(buf)|
    ensures TaggedBelow(log + Partly(w, buf, n), k)
  {
    hide Concat;
    hide WholeLines;
    hide CutAt;
  }

  lemma FailKeepsInv(s: System, w: nat, programs: seq<seq<string>>)
    requires Inv(s, programs) && Enabled(s, Fail(w))
    ensures Inv(Step(s, Fail(w)), programs)
    ensures Step(s, Fail(w)).workers[w].lost != []
  {
    hide Concat;
    hide By;
    hide Text;
    hide Partly;
    hide GivenUp;
    hide TaggedBelow;
    var t, x := Step(s, Fail(w)), s.workers[w];
    FailAccounts(w, s.log, x, programs[w]);
    FailTags(s.log, w, x.buf, x.sent, |programs|);
    FailLog(s.log, w, x.buf, x.sent, w);
    assert Text(t.log) + "" == Text(t.log);
    forall v: nat | v < |programs| ensures Accounted(v, t.log, t.workers[v], programs[v]) {
      FailLog(s.log, w, x.buf, x.sent, v);
      assert By(v, s.log) + [] == By(v, s.log);
    }
  }

  lemma PrintKeepsInv(s: System, w: nat, programs: seq<seq<string>>)
    requires Inv(s, programs) && Enabled(s, Print(w))
    ensures Inv(Step(s, Print(w)), programs)
  {
    hide Concat;
    hide By;
    hide Text;
    hide TaggedBelow;
    var x := s.workers[w];
    assert Accounted(w, s.log, x, programs[w]);
    assert x.todo == [x.todo[0]] + x.todo[1..];
    var sent := By(w, s.log) + x.lost;
    assert sent + (x.buf + [x.todo[0]]) + x.todo[1..] == sent + x.buf + x.todo;
  }

  /** Locking and writing change only how much was sent. */
  lemma SendKeepsInv(s: System, e: Event, programs: seq<seq<string>>)
    requires Inv(s, programs) && Enabled(s, e) && (e.Lock? || e.Write?)
    ensures Inv(Step(s, e), programs)
  {
    hide Concat;
    hide By;
    hide Text;
    hide TaggedBelow;
    var t, x := Step(s, e), s.workers[e.w];
    forall v: nat | v < |programs| ensures Accounted(v, t.log, t.workers[v], programs[v]) {
      assert Accounted(v, s.log, s.workers[v], programs[v]);
    }
    hide Accounted;
    if e.Write? {
      var c := Concat(x.buf);
      assert c[..x.sent] + c[x.sent..x.sent + e.n] == c[..x.sent + e.n];
      assert Text(s.log) + c[..x.sent] + c[x.sent..x.sent + e.n] == Text(s.log) + c[..x.sent + e.n];
    } else {
      assert Concat(x.buf)[..0] == "";
    }
  }

  lemma StepKeepsInv(s: System, e: Event, programs: seq<seq<string>>)
    requires Inv(s, programs) && Enabled(s, e)
    ensures Inv(Step(s, e), programs)
  {
    hide *;
    match e
    case Print(w) => PrintKeepsInv(s, w, programs);
    case Fail(w) => FailKeepsInv(s, w, programs);
    case Unlock(w) => UnlockKeepsInv(s, w, programs);
    case _ => SendKeepsInv(s, e, programs);
  }

  // ---------------------------------------------------------------- runs

  function Start(programs: seq<seq<string>>): (s: System) {
    System(seq(|programs|, w requires 0 <= w < |programs| => Worker(programs[w], [], 0, [])), FREE, "", [])
  }

  predicate Runs(s: System, events: seq<Event>)
    decreases |events|
  {
    events == [] || (Enabled(s, events[0]) && Runs(Step(s, events[0]), events[1..]))
  }

  function After(s: System, events: seq<Event>): System
    requires Runs(s, events)
    decreases |events|
  {
    if events == [] then s else After(Step(s, events[0]), events[1..])
  }

  lemma {:induction false} RunKeepsInv(s: System, events: seq<Event>, programs: seq<seq<string>>)
    requires Inv(s, programs) && Runs(s, events)
    ensures Inv(After(s, events), programs)
    decreases |events|
  {
    hide Inv;
    if events != [] {
      StepKeepsInv(s, events[0], programs);
      RunKeepsInv(Step(s, events[0]), events[1..], programs);
    }
  }

  /** A flush fails inside a line. */
  predicate Cuts(s: System, e: Event)
    requires Enabled(s, e)
  {
    e.Fail? && 0 < CutAt(s.workers[e.w].buf, s.workers[e.w].sent)
  }

  predicate NeverCuts(s: System, events: seq<Event>)
    requires Runs(s, events)
    decreases |events|
  {
    events == [] || (!Cuts(s, events[0]) && NeverCuts(Step(s, events[0]), events[1..]))
  }

  lemma {:induction false} NoFailNoCut(s: System, events: seq<Event>)
    requires Runs(s, events) && forall w: nat :: w < |s.workers| ==> Fail(w) !in events
    ensures NeverCuts(s, events)
    decreases |events|
  {
    if events != [] {
      assert events[0] in events && forall e :: e in events[1..] ==> e in events;
      assert !events[0].Fail?;
      NoFailNoCut(Step(s, events[0]), events[1..]);
    }
  }

  lemma StepWhole(s: System, e: Event)
    requires Enabled(s, e)
    ensures AllWhole(Step(s, e).log) <==> AllWhole(s.log) && !Cuts(s, e)
  {
    hide Concat;
    hide Partly;
    hide CutAt;
    hide AllWhole;
    if e.Fail? {
      var x := s.workers[e.w];
      PartlyWhole(e.w, x.buf, x.sent);
      WholeAppend(s.log, Partly(e.w, x.buf, x.sent));
    } else if e.Unlock? {
      TaggedWhole(e.w, s.workers[e.w].buf);
      WholeAppend(s.log, Tagged(e.w, s.workers[e.w].buf));
    }
  }

  lemma TaggedWhole(w: nat, lines: seq<string>)
    ensures AllWhole(Tagged(w, lines))
  {
  }

  lemma PartlyWhole(w: nat, buf: seq<string>, n: nat)
    requires n < |Concat(buf)|
    ensures AllWhole(Partly(w, buf, n)) <==> CutAt(buf, n) == 0
  {
    hide Concat;
    hide AllWhole;
    hide CutAt;
    var k, cut := WholeLines(buf, n), CutAt(buf, n);
    PrefixLines(buf, n);
    TaggedWhole(w, buf[..k]);
    if cut == 0 {
      assert Partly(w, buf, n) == Tagged(w, buf[..k]);
    } else {
      WholeAppend(Tagged(w, buf[..k]), [Entry(w, buf[k], cut)]);
      OneWhole(Entry(w, buf[k], cut));
    }
  }

  lemma OneWhole(e: Entry)
    ensures AllWhole([e]) <==> Whole(e)
  {
    assert [e][0] == e;
  }

  lemma WholeAppend(a: seq<Entry>, b: seq<Entry>)
    ensures AllWhole(a + b) <==> AllWhole(a) && AllWhole(b)
  {
    forall i | 0 <= i < |b| ensures (a + b)[|a| + i] == b[i] {
    }
    assert forall i :: 0 <= i < |a| ==> (a + b)[i] == a[i];
  }

  /** Every line in the pipe is intact exactly when no flush fails inside a line. */
  lemma {:induction false} IntactIff(s: System, events: seq<Event>)
    requires Runs(s, events)
    ensures AllWhole(After(s, events).log) <==> AllWhole(s.log) && NeverCuts(s, events)
    decreases |events|
  {
    hide AllWhole;
    hide Cuts;
    if events != [] {
      StepWhole(s, events[0]);
      IntactIff(Step(s, events[0]), events[1..]);
    }
  }

  /** A worker gives up lines exactly when one of its writes fails. */
  lemma {:induction false} LostIff(s: System, events: seq<Event>, programs: seq<seq<string>>, w: nat)
    requires Inv(s, programs) && Runs(s, events) && w < |programs|
    ensures |After(s, events).workers| == |programs| == |s.workers|
    ensures After(s, events).workers[w].lost != [] <==> s.workers[w].lost != [] || Fail(w) in events
    decreases |events|
  {
    hide Inv;
    hide Step;
    hide Enabled;
    SameWorkers(s, programs);
    if events != [] {
      var e, rest := events[0], events[1..];
      StepLost(s, e, programs, w);
      StepKeepsInv(s, e, programs);
      LostIff(Step(s, e), rest, programs, w);
      assert events == [e] + rest;
    }
  }

  lemma SameWorkers(s: System, programs: seq<seq<string>>)
    requires Inv(s, programs)
    ensures |s.workers| == |programs|
  {
  }

  lemma StepLost(s: System, e: Event, programs: seq<seq<string>>, w: nat)
    requires Inv(s, programs) && Enabled(s, e) && w < |s.workers|
    ensures |Step(s, e).workers| == |s.workers|
    ensures Step(s, e).workers[w].lost != [] <==> s.workers[w].lost != [] || e == Fail(w)
  {
    hide Inv;
    hide Partly;
    hide GivenUp;
    hide Concat;
    if e.Fail? {
      FailKeepsInv(s, e.w, programs);
    }
  }

  // ---------------------------------------------------------------- the finished pipe

  predicate Finished(s: System) {
    s.lock == FREE && forall w :: 0 <= w < |s.workers| ==> s.workers[w].todo == [] && s.workers[w].buf == []
  }

  lemma NothingLeft(s: System, programs: seq<seq<string>>)
    requires Inv(s, programs) && Finished(s)
    ensures s.pipe == Text(s.log) && TaggedBelow(s.log, |programs|) && |s.workers| == |programs|
    ensures forall w: nat :: w < |programs| ==> By(w, s.log) + s.workers[w].lost == programs[w]
  {
    hide By;
    hide Text;
    hide Concat;
    assert Text(s.log) + "" == Text(s.log);
    forall w: nat | w < |programs| ensures By(w, s.log) + s.workers[w].lost == programs[w] {
      var x := s.workers[w];
      assert Accounted(w, s.log, x, programs[w]);
      assert By(w, s.log) + x.lost + x.buf + x.todo == By(w, s.log) + x.lost;
    }
  }

  /**
    Whatever the interleaving, however the writes were cut and whichever of them failed: at the end the pipe is
    the text of some log, in which each worker's whole lines are its first lines in order; the rest of them it
    gave up, which happens exactly when one of its writes failed; no line is lost or added otherwise; and every
    line is intact exactly when no write failed inside one.
  */
  lemma OutputIsMerge(programs: seq<seq<string>>, events: seq<Event>)
    requires Runs(Start(programs), events) && Finished(After(Start(programs), events))
    ensures var end := After(Start(programs), events);
      && |end.workers| == |programs| && end.pipe == Text(end.log)
      && LinesOf(end.log) + Lost(end.workers, |programs|) == All(programs, |programs|)
      && (AllWhole(end.log) <==> NeverCuts(Start(programs), events))
      && forall w: nat :: w < |programs| ==>
           && By(w, end.log) + end.workers[w].lost == programs[w]
           && (end.workers[w].lost != [] <==> Fail(w) in events)
  {
    hide Inv;
    hide Finished;
    hide By;
    hide Text;
    hide Runs;
    hide After;
    hide NeverCuts;
    var end := After(Start(programs), events);
    StartIsSound(programs);
    RunKeepsInv(Start(programs), events, programs);
    NothingLeft(end, programs);
    SharesArePrograms(end, programs, |programs|);
    SharesAreLines(end.log, |programs|);
    IntactIff(Start(programs), events);
    forall w: nat | w < |programs| ensures end.workers[w].lost != [] <==> Fail(w) in events {
      LostIff(Start(programs), events, programs, w);
    }
  }

  lemma StartIsSound(programs: seq<seq<string>>)
    ensures Inv(Start(programs), programs) && AllWhole(Start(programs).log)
    ensures forall w: nat :: w < |programs| ==> Start(programs).workers[w].lost == []
  {
    var s := Start(programs);
    forall w: nat | w < |programs| ensures Accounted(w, s.log, s.workers[w], programs[w]) {
      assert By(w, s.log) == [] && [] + [] + [] + programs[w] == programs[w];
    }
  }

  /** Without a failing write nothing is given up. */
  lemma {:induction false} NoneLost(workers: seq<Worker>, k: nat)
    requires k <= |workers| && forall w :: 0 <= w < k ==> workers[w].lost == []
    ensures Lost(workers, k) == multiset{}
  {
    if k > 0 {
      NoneLost(workers, k - 1);
    }
  }

  function One(todo: seq<string>, buf: seq<string>, sent: nat, lock: int, pipe: string): System {
    System([Worker(todo, buf, sent, [])], lock, pipe, [])
  }

  lemma OneWorker(line: string)
    requires 1 < |line|
    ensures Start([[line]]) == One([line], [], 0, FREE, "")
    ensures var s := One([line], [], 0, FREE, "");
      Enabled(s, Print(0)) && Step(s, Print(0)) == One([], [line], 0, FREE, "")
    ensures var s := One([], [line], 0, FREE, "");
      Enabled(s, Lock(0)) && Step(s, Lock(0)) == One([], [line], 0, 0, "")
    ensures var s := One([], [line], 0, 0, "");
      Enabled(s, Write(0, 1)) && Step(s, Write(0, 1)) == One([], [line], 1, 0, line[..1])
  {
    ConcatOne(line);
    assert [line][1..] == [] && [] + [line] == [line] && "" + line[0..1] == line[..1];
    assert Start([[line]]).workers[0] == Worker([line], [], 0, []);
  }

  lemma OneFails(line: string)
    requires 1 < |line|
    ensures var s := One([], [line], 1, 0, line[..1]);
      && Enabled(s, Fail(0))
      && Step(s, Fail(0)) == System([Worker([], [], 0, [line])], FREE, line[..1], [Entry(0, line, 1)])
  {
    ConcatOne(line);
    PrefixLines([line], 1);
    assert [line][..0] == [] && [line][0..] == [line] && WholeLines([line], 1) == 0 && CutAt([line], 1) == 1;
    assert [] + [Entry(0, line, 1)] == [Entry(0, line, 1)] && [] + [line] + [] == [line];
  }

  /** One worker, one line, a write of one byte and then a failing one: a part of the line stays in the pipe. */
  lemma CutExample(line: string)
    requires 1 < |line|
    ensures var events := [Print(0), Lock(0), Write(0, 1), Fail(0)];
      && Runs(Start([[line]]), events) && Finished(After(Start([[line]]), events))
      && After(Start([[line]]), events).pipe == line[..1] && !AllWhole(After(Start([[line]]), events).log)
  {
    hide Enabled;
    hide Step;
    hide Start;
    OneWorker(line);
    OneFails(line);
    OneWhole(Entry(0, line, 1));
    FourSteps(Start([[line]]), [Print(0), Lock(0), Write(0, 1), Fail(0)]);
  }

  lemma ConcatOne(line: string)
    ensures Concat([line]) == line
  {
    assert [line][..0] == [] && "" + line == line;
  }

  lemma FourSteps(s: System, e: seq<Event>)
    requires |e| == 4 && Enabled(s, e[0]) && Enabled(Step(s, e[0]), e[1])
    requires Enabled(Step(Step(s, e[0]), e[1]), e[2]) && Enabled(Step(Step(Step(s, e[0]), e[1]), e[2]), e[3])
    ensures Runs(s, e) && After(s, e) == Step(Step(Step(Step(s, e[0]), e[1]), e[2]), e[3])
  {
    hide Step;
    hide Enabled;
    var s1 := Step(s, e[0]);
    var s2 := Step(s1, e[1]);
    var s3 := Step(s2, e[2]);
    var s4 := Step(s3, e[3]);
    assert e[1..][1..] == e[2..] && e[2..][1..] == e[3..] && e[3..][1..] == [];
    assert Runs(s4, []) && After(s4, []) == s4;
    assert Runs(s3, e[3..]) && After(s3, e[3..]) == s4;
    assert Runs(s2, e[2..]) && After(s2, e[2..]) == s4;
    assert Runs(s1, e[1..]) && After(s1, e[1..]) == s4;
  }
}
