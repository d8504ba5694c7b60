/** The prefork supervisor: a table of worker pids driven by child exits and SIGTTIN / SIGTTOU. */
module Supervisor {

  const WORKER_MAX: nat := 0xffff

  /**
    `pids` is the allocated table (0 is an empty slot), scanned up to the high-water mark `hwm`;
    `kids` are the forked children not yet reaped.
  */
  datatype State = State(pids: seq<nat>, nworker: nat, hwm: nat, alive: bool, kids: set<nat>)

  /** What fork returned for each slot; 0 stands for a failed fork. */
  type Forks = seq<nat>

  datatype Event =
    | Reap(pid: nat, noInput: bool, forks: Forks)
    | Ttin(grew: bool, forks: Forks)
    | Ttou

  // ---------------------------------------------------------------- steps as functions

  /** fork gives each new worker a pid that no unreaped child has. */
  ghost predicate ForksOk(forks: Forks, n: nat, kids: set<nat>) {
    && |forks| == n
    && (forall i :: 0 <= i < n && forks[i] != 0 ==> forks[i] !in kids)
    && (forall i, j :: 0 <= i < j < n && forks[i] != 0 ==> forks[i] != forks[j])
  }

  function Filled(pids: seq<nat>, n: nat, forks: Forks): (r: seq<nat>)
    requires n <= |pids| && n <= |forks|
    ensures |r| == |pids|
    ensures forall i :: 0 <= i < |pids| ==> r[i] == if i < n && pids[i] == 0 then forks[i] else pids[i]
  {
    seq(|pids|, i requires 0 <= i < |pids| => if i < n && pids[i] == 0 then forks[i] else pids[i])
  }

  function NewKids(pids: seq<nat>, n: nat, forks: Forks): set<nat>
    requires n <= |pids| && n <= |forks|
  {
    set i | 0 <= i < n && pids[i] == 0 && forks[i] != 0 :: forks[i]
  }

  /** start_workers */
  function Start(s: State, forks: Forks): State
    requires s.nworker <= |s.pids| && s.nworker <= |forks|
  {
    s.(pids := Filled(s.pids, s.nworker, forks), kids := s.kids + NewKids(s.pids, s.nworker, forks))
  }

  /** The slot a reaped pid is found in, or hwm. */
  function SlotOf(pids: seq<nat>, pid: nat, hwm: nat, from: nat): (nr: nat)
    requires from <= hwm <= |pids|
    ensures from <= nr <= hwm && (nr < hwm ==> pids[nr] == pid)
    ensures forall i :: from <= i < nr ==> pids[i] != pid
    decreases hwm - from
  {
    if from == hwm || pids[from] == pid then from else SlotOf(pids, pid, hwm, from + 1)
  }

  /** reaped_prefork_worker */
  function AfterReap(s: State, pid: nat, noInput: bool, forks: Forks): State
    requires s.nworker <= s.hwm <= |s.pids| && s.nworker <= |forks|
  {
    var nr := SlotOf(s.pids, pid, s.hwm, 0);
    var reaped := s.(kids := s.kids - {pid});
    if nr == s.hwm then reaped
    else
      var t := reaped.(pids := s.pids[nr := 0], alive := s.alive && !noInput);
      if t.alive then Start(t, forks) else t
  }

  /** The table after do_sigttin's resize, before the workers are started. */
  function Resized(s: State): State
    requires s.nworker <= |s.pids|
  {
    var n := s.nworker + 1;
    s.(pids := s.pids[..s.nworker] + [0], nworker := n, hwm := if s.hwm < n then n else s.hwm)
  }

  /** do_sigttin resizes the table to exactly nworker + 1 slots and empties the last one. */
  function AfterTtin(s: State, grew: bool, forks: Forks): State
    requires s.nworker <= |s.pids| && s.nworker < |forks|
  {
    if !s.alive || s.nworker >= WORKER_MAX || !grew then s
    else Start(Resized(s), forks)
  }

  /** do_sigttou: the surplus workers are told to leave, and go when they are reaped. */
  function AfterTtou(s: State): State {
    if !s.alive || s.nworker <= 1 then s else s.(nworker := s.nworker - 1)
  }

  // ---------------------------------------------------------------- what the steps leave, slot by slot

  /** After start_workers on `was`: the empty slots below n hold what fork gave them, all others are as before. */
  ghost predicate Restarted(was: State, n: nat, forks: Forks, pids: seq<nat>, kids: set<nat>)
    requires n <= |was.pids| && n <= |forks|
  {
    && |pids| == |was.pids|
    && (forall i :: 0 <= i < |pids| ==> pids[i] == if i < n && was.pids[i] == 0 then forks[i] else was.pids[i])
    && (forall k :: k in kids <==>
          k in was.kids || (k != 0 && exists i :: 0 <= i < n && was.pids[i] == 0 && forks[i] == k))
  }

  lemma StartRestarts(s: State, forks: Forks)
    requires s.nworker <= |s.pids| && s.nworker <= |forks|
    ensures var t := Start(s, forks);
      && t == s.(pids := t.pids, kids := t.kids)
      && Restarted(s, s.nworker, forks, t.pids, t.kids)
  {
  }

  /**
    A SIGTTIN that is acted on wants one worker more, in a table of exactly that many slots: the last one gets
    a new child, the earlier ones keep theirs or, where empty, get one too.
  */
  lemma TtinAddsOne(s: State, grew: bool, forks: Forks)
    requires s.nworker <= |s.pids| && s.nworker < |forks|
    ensures var t, n := AfterTtin(s, grew, forks), s.nworker;
      if !(s.alive && n < 0xffff && grew) then t == s
      else
        && t.alive && t.nworker == n + 1 == |t.pids| && t.pids[n] == forks[n]
        && (t.hwm == s.hwm || t.hwm == n + 1) && s.hwm <= t.hwm && n + 1 <= t.hwm
        && (forall i :: 0 <= i < n ==> t.pids[i] == if s.pids[i] == 0 then forks[i] else s.pids[i])
        && (forall k :: k in t.kids <==>
              k in s.kids || (k != 0 && exists i :: 0 <= i <= n && (i == n || s.pids[i] == 0) && forks[i] == k))
  {
  }

  /**
    A reaped child leaves the first slot that holds its pid. A no-input exit ends the helper; otherwise, while
    it lives, the empty wanted slots get new children. A pid in no slot changes no slot.
  */
  lemma ReapEmptiesSlot(s: State, pid: nat, noInput: bool, forks: Forks, nr: nat)
    requires s.nworker <= s.hwm <= |s.pids| && s.nworker <= |forks| && nr <= s.hwm
    requires (forall i :: 0 <= i < nr ==> s.pids[i] != pid) && (nr < s.hwm ==> s.pids[nr] == pid)
    ensures var t := AfterReap(s, pid, noInput, forks);
      if nr == s.hwm then t == s.(kids := s.kids - {pid})
      else
        && t.nworker == s.nworker && t.hwm == s.hwm && t.alive == (s.alive && !noInput)
        && (if t.alive then
              Restarted(s.(pids := s.pids[nr := 0], kids := s.kids - {pid}), s.nworker, forks, t.pids, t.kids)
            else t.pids == s.pids[nr := 0] && t.kids == s.kids - {pid})
  {
  }

  /** A SIGTTOU wants one worker less, down to one, and is ignored once the helper is ending. */
  lemma TtouDropsOne(s: State)
    ensures var t := AfterTtou(s);
      t == s.(nworker := t.nworker) && t.nworker == if s.alive && 1 < s.nworker then s.nworker - 1 else s.nworker
  {
  }

  /** The pids in the slots from..upTo, in slot order. */
  function PidsIn(pids: seq<nat>, from: nat, upTo: nat): (r: seq<nat>)
    requires from <= upTo <= |pids|
    ensures forall pid :: pid in r <==> pid != 0 && pid in pids[from..upTo]
    decreases upTo
  {
    if from == upTo then []
    else
      assert pids[from..upTo] == pids[from..upTo - 1] + [pids[upTo - 1]];
      PidsIn(pids, from, upTo - 1) + if pids[upTo - 1] != 0 then [pids[upTo - 1]] else []
  }

  // ---------------------------------------------------------------- the invariant

  /** Every unreaped child sits in exactly one slot below the high-water mark. */
  ghost predicate Inv(s: State) {
    && 1 <= s.nworker <= s.hwm <= WORKER_MAX && s.hwm <= |s.pids|
    && (forall i :: 0 <= i < s.hwm && s.pids[i] != 0 ==> s.pids[i] in s.kids)
    && (forall i, j :: 0 <= i < j < s.hwm && s.pids[i] != 0 ==> s.pids[i] != s.pids[j])
    && (forall k :: k in s.kids ==> k != 0 && exists i :: 0 <= i < s.hwm && s.pids[i] == k)
  }

  lemma StartKeepsInv(s: State, forks: Forks)
    requires Inv(s) && ForksOk(forks, s.nworker, s.kids)
    ensures Inv(Start(s, forks))
  {
    var t := Start(s, forks);
    forall k | k in t.kids ensures exists i :: 0 <= i < s.hwm && t.pids[i] == k {
      if k in s.kids {
        var i :| 0 <= i < s.hwm && s.pids[i] == k;
        assert t.pids[i] == k;
      } else {
        var i :| 0 <= i < s.nworker && s.pids[i] == 0 && forks[i] != 0 && forks[i] == k;
        assert t.pids[i] == k;
      }
    }
  }

  lemma ReapKeepsInv(s: State, pid: nat, noInput: bool, forks: Forks)
    requires Inv(s) && pid in s.kids && ForksOk(forks, s.nworker, s.kids - {pid})
    ensures Inv(AfterReap(s, pid, noInput, forks))
    ensures AfterReap(s, pid, noInput, forks).alive == (s.alive && !noInput)
    ensures s.kids - {pid} <= AfterReap(s, pid, noInput, forks).kids
  {
    var nr := SlotOf(s.pids, pid, s.hwm, 0);
    var t := s.(pids := s.pids[nr := 0], kids := s.kids - {pid}, alive := s.alive && !noInput);
    forall k | k in t.kids ensures exists i :: 0 <= i < t.hwm && t.pids[i] == k {
      var i :| 0 <= i < s.hwm && s.pids[i] == k;
      assert t.pids[i] == k;
    }
    assert Inv(t);
    if t.alive {
      StartKeepsInv(t, forks);
    }
  }

  /** The condition under which resizing to nworker + 1 slots loses nothing. */
  predicate TtinSafe(s: State)
    requires s.hwm <= |s.pids|
  {
    s.nworker + 1 >= s.hwm && (s.nworker < s.hwm ==> s.pids[s.nworker] == 0)
  }

  lemma SafeResize(s: State)
    requires Inv(s) && TtinSafe(s) && s.nworker < WORKER_MAX
    ensures Inv(Resized(s))
  {
    var t := Resized(s);
    forall k | k in s.kids ensures exists i :: 0 <= i < t.hwm && t.pids[i] == k {
      var i :| 0 <= i < s.hwm && s.pids[i] == k;
      assert t.pids[i] == k;
    }
  }

  lemma UnsafeResize(s: State, forks: Forks)
    requires Inv(s) && !TtinSafe(s) && ForksOk(forks, s.nworker + 1, s.kids)
    ensures !Inv(Start(Resized(s), forks))
  {
    var t := Start(Resized(s), forks);
    if s.nworker + 1 == s.hwm {
      var lost := s.pids[s.nworker];
      assert lost in t.kids;
      assert forall i :: 0 <= i < t.hwm ==> t.pids[i] != lost;
    }
  }

  /** SIGTTIN keeps the table in step with the children exactly when it is ignored or safe. */
  lemma TtinKeepsInvIff(s: State, grew: bool, forks: Forks)
    requires Inv(s) && ForksOk(forks, s.nworker + 1, s.kids)
    ensures Inv(AfterTtin(s, grew, forks)) <==>
      !s.alive || s.nworker >= WORKER_MAX || !grew || TtinSafe(s)
  {
    hide Inv;
    hide ForksOk;
    hide Start;
    assert s.hwm <= |s.pids| && s.nworker <= |s.pids| && |forks| == s.nworker + 1 by {
      Bounds(s, forks);
    }
    if s.alive && s.nworker < WORKER_MAX && grew {
      if TtinSafe(s) {
        SafeResize(s);
        StartKeepsInv(Resized(s), forks);
      } else {
        UnsafeResize(s, forks);
      }
    }
  }

  lemma Bounds(s: State, forks: Forks)
    requires Inv(s) && ForksOk(forks, s.nworker + 1, s.kids)
    ensures s.hwm <= |s.pids| && s.nworker <= |s.pids| && |forks| == s.nworker + 1
  {
  }

  /** Two workers, then SIGTTOU and SIGTTIN before the surplus worker has gone: its pid is overwritten. */
  lemma TtinCanLoseAChild()
    ensures
      var s := AfterTtou(State([7, 8], 2, 2, true, {7, 8}));
      Inv(s) && ForksOk([0, 9], 2, s.kids)
      && 8 in AfterTtin(s, true, [0, 9]).kids && 8 !in AfterTtin(s, true, [0, 9]).pids
  {
    var s0 := State([7, 8], 2, 2, true, {7, 8});
    assert s0.pids[0] == 7 && s0.pids[1] == 8;
    var s := AfterTtou(s0);
    assert s.pids[0] == 7 && s.pids[1] == 8 && Inv(s);
    var forks: Forks := [0, 9];
    assert forks[0] == 0 && forks[1] == 9 && ForksOk(forks, 2, s.kids);
    var t := AfterTtin(s, true, forks);
    assert t.pids == Filled([7, 0], 2, forks) && t.pids[0] == 7 && t.pids[1] == 9;
  }

  ghost predicate Distinct(pids: seq<nat>) {
    forall i, j :: 0 <= i < j < |pids| ==> pids[i] != pids[j]
  }

  lemma {:induction false} PidsOnce(s: State, from: nat, upTo: nat)
    requires Inv(s) && from <= upTo <= s.hwm
    ensures Distinct(PidsIn(s.pids, from, upTo))
    decreases upTo
  {
    if from < upTo {
      PidsOnce(s, from, upTo - 1);
      var last := s.pids[upTo - 1];
      assert last != 0 ==> last !in s.pids[from..upTo - 1];
      assert last != 0 ==> last !in PidsIn(s.pids, from, upTo - 1);
    }
  }

  /** The workers do_sigttou tells to leave are exactly the children outside the wanted slots, each told once. */
  lemma SurplusChildren(s: State)
    requires Inv(s)
    ensures var killed := PidsIn(s.pids, s.nworker, s.hwm);
      Distinct(killed) && forall k :: k in killed <==> k in s.kids && k !in s.pids[..s.nworker]
  {
    PidsOnce(s, s.nworker, s.hwm);
    var killed := PidsIn(s.pids, s.nworker, s.hwm);
    forall k ensures k in killed <==> k in s.kids && k !in s.pids[..s.nworker] {
      if k in s.kids {
        var i :| 0 <= i < s.hwm && s.pids[i] == k;
        if s.nworker <= i {
          assert s.pids[s.nworker..s.hwm][i - s.nworker] == k;
        } else {
          assert s.pids[..s.nworker][i] == k;
        }
      }
    }
  }

  // ---------------------------------------------------------------- runs

  /** All the steps need to be defined. */
  predicate Bounded(s: State) {
    s.nworker <= s.hwm <= |s.pids|
  }

  /** The environment's part: only unreaped children are reaped, and forks are fresh. */
  ghost predicate Enabled(s: State, e: Event)
    requires Bounded(s)
  {
    match e
    case Reap(pid, _, forks) => pid in s.kids && ForksOk(forks, s.nworker, s.kids - {pid})
    case Ttin(_, forks) => ForksOk(forks, s.nworker + 1, s.kids)
    case Ttou => true
  }

  /** A SIGTTIN that do_sigttin acts on comes when the resize is safe. */
  predicate Heedful(s: State, e: Event)
    requires Bounded(s)
  {
    e.Ttin? && s.alive && s.nworker < WORKER_MAX && e.grew ==> TtinSafe(s)
  }

  ghost function Step(s: State, e: Event): State
    requires Bounded(s) && Enabled(s, e)
  {
    match e
    case Reap(pid, noInput, forks) => AfterReap(s, pid, noInput, forks)
    case Ttin(grew, forks) => AfterTtin(s, grew, forks)
    case Ttou => AfterTtou(s)
  }

  /** An event keeps the invariant exactly when it is not an unsafe SIGTTIN. */
  lemma StepKeepsInv(s: State, e: Event)
    requires Inv(s) && Enabled(s, e)
    ensures Inv(Step(s, e)) <==> Heedful(s, e)
  {
    match e
    case Reap(pid, noInput, forks) => ReapKeepsInv(s, pid, noInput, forks);
    case Ttin(grew, forks) => TtinKeepsInvIff(s, grew, forks);
    case Ttou =>
  }

  /** The table of prefork_loop for a -j count of n, before any worker is started. */
  function Initial(n: nat): State {
    State(seq(n, _ => 0), n, n, true, {})
  }

  /**
    A run as the sequence of its states, from the first start_workers on. Nothing is asked of the states
    themselves: as long as the steps are defined, each state follows from the one before by its event.
  */
  ghost predicate IsRun(n: nat, forks: Forks, states: seq<State>, events: seq<Event>) {
    && 1 <= n <= WORKER_MAX && ForksOk(forks, n, {})
    && |states| == |events| + 1 && states[0] == Start(Initial(n), forks)
    && forall i :: 0 <= i < |events| && Bounded(states[i]) ==>
         Enabled(states[i], events[i]) && states[i + 1] == Step(states[i], events[i])
  }

  /** The guard of the supervisor loop, `alive || living_workers()`. */
  predicate LoopGoesOn(s: State)
    requires Bounded(s)
  {
    s.alive || exists i :: 0 <= i < s.hwm && s.pids[i] != 0
  }

  function ReapedIn(events: seq<Event>): nat {
    if events == [] then 0
    else ReapedIn(events[..|events| - 1]) + if events[|events| - 1].Reap? then 1 else 0
  }

  /** Every SIGTTIN of the run comes when it is safe, as far as the run is defined. */
  ghost predicate AllHeedful(states: seq<State>, events: seq<Event>)
    requires |states| == |events| + 1
  {
    forall i :: 0 <= i < |events| && Bounded(states[i]) ==> Heedful(states[i], events[i])
  }

  lemma {:induction false} RunKeepsInv(n: nat, forks: Forks, states: seq<State>, events: seq<Event>, i: nat)
    requires IsRun(n, forks, states, events) && AllHeedful(states, events) && i <= |events|
    ensures Inv(states[i])
  {
    if i == 0 {
      StartKeepsInv(Initial(n), forks);
    } else {
      RunKeepsInv(n, forks, states, events, i - 1);
      StepKeepsInv(states[i - 1], events[i - 1]);
    }
  }

  /** The table stays in step with the children throughout a run exactly when no SIGTTIN of it is unsafe. */
  lemma RunsAreSafeIff(n: nat, forks: Forks, states: seq<State>, events: seq<Event>)
    requires IsRun(n, forks, states, events)
    ensures (forall i :: 0 <= i <= |events| ==> Inv(states[i])) <==> AllHeedful(states, events)
  {
    if AllHeedful(states, events) {
      forall i | 0 <= i <= |events| ensures Inv(states[i]) {
        RunKeepsInv(n, forks, states, events, i);
      }
    } else {
      var i :| 0 <= i < |events| && Bounded(states[i]) && !Heedful(states[i], events[i]);
      if Inv(states[i]) {
        StepKeepsInv(states[i], events[i]);
        assert !Inv(states[i + 1]);
      }
    }
  }

  /** From the start of shutdown at i to any later j: no worker is started, each reaped child is gone for good. */
  lemma {:induction false} ShutdownLasts(n: nat, forks: Forks, states: seq<State>, events: seq<Event>, i: nat, j: nat)
    requires IsRun(n, forks, states, events) && i <= j <= |events| && Inv(states[i]) && !states[i].alive
    ensures Inv(states[j]) && !states[j].alive && states[j].kids <= states[i].kids
    ensures |states[j].kids| + ReapedIn(events[i..j]) == |states[i].kids|
    decreases j
  {
    hide Inv;
    hide Enabled;
    hide Step;
    if i < j {
      ShutdownLasts(n, forks, states, events, i, j - 1);
      InvBounded(states[j - 1]);
      StepKeepsInv(states[j - 1], events[j - 1]);
      ShutdownStep(states[j - 1], events[j - 1]);
      assert events[i..j][..j - 1 - i] == events[i..j - 1];
    }
  }

  lemma InvBounded(s: State)
    requires Inv(s)
    ensures Bounded(s)
  {
  }

  /**
    Whenever the invariant holds, the loop ends exactly when the helper is ending and no child is left. Once
    shutdown has begun, whatever signals follow, it stays, no worker is started and each reaped child leaves
    for good.
  */
  lemma RunsAreSafe(n: nat, forks: Forks, states: seq<State>, events: seq<Event>)
    requires IsRun(n, forks, states, events) && AllHeedful(states, events)
    ensures forall i :: 0 <= i <= |events| ==>
      Inv(states[i]) && (!LoopGoesOn(states[i]) <==> !states[i].alive && states[i].kids == {})
    ensures forall i, j :: 0 <= i <= j <= |events| && !states[i].alive ==>
      && !states[j].alive && states[j].kids <= states[i].kids
      && |states[j].kids| + ReapedIn(events[i..j]) == |states[i].kids|
  {
    hide Enabled;
    hide Step;
    hide ReapedIn;
    forall i | 0 <= i <= |events|
      ensures Inv(states[i]) && (!LoopGoesOn(states[i]) <==> !states[i].alive && states[i].kids == {})
    {
      RunKeepsInv(n, forks, states, events, i);
      LoopEnds(states[i]);
    }
    forall i, j | 0 <= i <= j <= |events| && !states[i].alive
      ensures !states[j].alive && states[j].kids <= states[i].kids
      ensures |states[j].kids| + ReapedIn(events[i..j]) == |states[i].kids|
    {
      ShutdownLasts(n, forks, states, events, i, j);
    }
  }

  lemma LoopEnds(s: State)
    requires Inv(s)
    ensures !LoopGoesOn(s) <==> !s.alive && s.kids == {}
  {
    if s.kids != {} {
      var k :| k in s.kids;
      var i :| 0 <= i < s.hwm && s.pids[i] == k;
    }
  }

  lemma ShutdownStep(s: State, e: Event)
    requires Inv(s) && Enabled(s, e) && !s.alive
    ensures !Step(s, e).alive && Step(s, e).kids == if e.Reap? then s.kids - {e.pid} else s.kids
    ensures |Step(s, e).kids| == |s.kids| - if e.Reap? then 1 else 0
  {
  }

  /** Every wanted worker is running. */
  predicate Full(s: State)
    requires s.nworker <= |s.pids|
  {
    forall i :: 0 <= i < s.nworker ==> s.pids[i] != 0
  }

  /** While the helper lives and fork succeeds, no event leaves a wanted slot empty, not even an unsafe SIGTTIN. */
  lemma StaysFull(s: State, e: Event)
    requires Inv(s) && Enabled(s, e) && Full(s)
    requires !e.Ttou? ==> forall i :: 0 <= i < |e.forks| ==> e.forks[i] != 0
    ensures Step(s, e).nworker <= |Step(s, e).pids| && (Step(s, e).alive ==> Full(Step(s, e)))
    ensures Heedful(s, e) ==> Inv(Step(s, e))
  {
    StepKeepsInv(s, e);
  }

  lemma NoNewKids(pids: seq<nat>, forks: Forks)
    ensures NewKids(pids, 0, forks) == {}
  {
  }

  lemma NewKidsStep(pids: seq<nat>, n: nat, forks: Forks)
    requires n < |pids| && n < |forks|
    ensures NewKids(pids, n + 1, forks) == NewKids(pids, n, forks)
      + if pids[n] == 0 && forks[n] != 0 then {forks[n]} else {}
    ensures forall k :: k in NewKids(pids, n, forks) ==> exists i :: 0 <= i < n && forks[i] != 0 && forks[i] == k
  {
  }

  // ---------------------------------------------------------------- the supervisor process

  class Prefork {
    var pids: seq<nat>
    var nworker: nat
    var hwm: nat
    var alive: bool
    /** Forked and not yet reaped, as the kernel sees it. */
    ghost var kids: set<nat>

    ghost function View(): State
      reads this
    {
      State(pids, nworker, hwm, alive, kids)
    }

    /** prefork_loop before the first start_workers, for a -j count of n. */
    constructor (n: nat)
      requires 1 <= n <= WORKER_MAX
      ensures Inv(View()) && View() == Initial(n)
      ensures alive && nworker == hwm == |pids| == n && kids == {} && forall i :: 0 <= i < n ==> pids[i] == 0
    {
      pids, nworker, hwm, alive, kids := seq(n, _ => 0), n, n, true, {};
    }

    /** insert_pid: the slot must be empty. */
    method InsertPid(pid: nat, nr: nat)
      requires nr < |pids| && pids[nr] == 0 && pid != 0 && pid !in kids
      modifies this`pids, this`kids
      ensures pids == old(pids)[nr := pid] && kids == old(kids) + {pid}
    {
      pids := pids[nr := pid];
      kids := kids + {pid};
    }

    method StartWorkers(forks: Forks)
      requires nworker <= |pids| && ForksOk(forks, nworker, kids)
      modifies this`pids, this`kids
      ensures View() == Start(old(View()), forks)
      ensures Restarted(old(View()), nworker, forks, pids, kids)
    {
      hide Restarted;
      hide NewKids;
      StartRestarts(View(), forks);
      NoNewKids(pids, forks);
      ghost var p0, k0 := pids, kids;
      for nr := 0 to nworker
        invariant pids == Filled(p0, nr, forks) && kids == k0 + NewKids(p0, nr, forks)
      {
        NewKidsStep(p0, nr, forks);
        if pids[nr] == 0 {
          var pid := forks[nr];
          if pid != 0 {
            InsertPid(pid, nr);
          }
        }
        assert pids == Filled(p0, nr + 1, forks);
      }
    }

    /** reaped_prefork_worker: a pid found in no slot is only reported. */
    method Reaped(pid: nat, noInput: bool, forks: Forks)
      requires nworker <= hwm <= |pids| && ForksOk(forks, nworker, kids - {pid})
      modifies this
      ensures View() == AfterReap(old(View()), pid, noInput, forks)
      ensures old(Inv(View())) && pid in old(kids) ==> Inv(View())
    {
      if Inv(View()) && pid in kids {
        ReapKeepsInv(View(), pid, noInput, forks);
      }
      kids := kids - {pid};
      var nr := 0;
      while nr < hwm && pids[nr] != pid
        invariant nr <= hwm && SlotOf(pids, pid, hwm, nr) == SlotOf(pids, pid, hwm, 0)
      {
        nr := nr + 1;
      }
      if nr >= hwm {
        return;
      }
      pids := pids[nr := 0];
      if noInput {
        alive := false;
      }
      if alive {
        StartWorkers(forks);
      }
    }

    method SigTtin(grew: bool, forks: Forks)
      requires nworker <= |pids| && ForksOk(forks, nworker + 1, kids)
      modifies this
      ensures View() == AfterTtin(old(View()), grew, forks)
      ensures !(old(alive) && old(nworker) < 0xffff && grew) ==> View() == old(View())
      ensures old(alive) && old(nworker) < 0xffff && grew ==>
        && alive && nworker == old(nworker) + 1 == |pids| && hwm >= nworker && hwm >= old(hwm)
        && (hwm == nworker || hwm == old(hwm)) && pids[old(nworker)] == forks[old(nworker)]
        && (forall i :: 0 <= i < old(nworker) ==> pids[i] == if old(pids)[i] == 0 then forks[i] else old(pids)[i])
        && (forall k :: k in kids <==>
              || k in old(kids)
              || (k != 0 && exists i :: 0 <= i < nworker && (i == old(nworker) || old(pids)[i] == 0) && forks[i] == k))
    {
      TtinAddsOne(View(), grew, forks);
      if !alive || nworker >= WORKER_MAX || !grew {
        return;
      }
      pids := pids[..nworker] + [0];
      nworker := nworker + 1;
      if hwm < nworker {
        hwm := nworker;
      }
      StartWorkers(forks);
    }

    /** The pids sent SIGTERM are those of the children outside the wanted slots, each once. */
    method SigTtou() returns (killed: seq<nat>)
      requires nworker <= hwm <= |pids|
      modifies this`nworker
      ensures View() == AfterTtou(old(View()))
      ensures nworker == if old(alive) && 1 < old(nworker) then old(nworker) - 1 else old(nworker)
      ensures !old(alive) || old(nworker) <= 1 ==> View() == old(View()) && killed == []
      ensures killed == if nworker < old(nworker) then PidsIn(pids, nworker, hwm) else []
      ensures nworker < old(nworker) && Inv(View()) ==>
        Distinct(killed) && forall k :: k in killed <==> k in kids && k !in pids[..nworker]
    {
      killed := [];
      if !alive || nworker <= 1 {
        return;
      }
      nworker := nworker - 1;
      for nr := nworker to hwm
        invariant killed == PidsIn(pids, nworker, nr)
      {
        if pids[nr] != 0 {
          killed := killed + [pids[nr]];
        }
      }
      if Inv(View()) {
        SurplusChildren(View());
      }
    }

    /** living_workers counts the unreaped children. */
    method LivingWorkers() returns (ret: nat)
      requires Inv(View())
      ensures ret == |kids|
    {
      ret := 0;
      ghost var seen: set<nat> := {};
      for nr := 0 to hwm
        invariant ret == |seen|
        invariant forall k :: k in seen <==> k != 0 && exists i :: 0 <= i < nr && pids[i] == k
      {
        if pids[nr] != 0 {
          assert pids[nr] !in seen;
          seen := seen + {pids[nr]};
          ret := ret + 1;
        }
      }
      assert seen == kids;
    }
  }
}
