/**
  The output of dump_roots: for each matching document, one line per wanted term, ending in the ids of the
  document's roots; buffered, flushed now and then, and merged with the output of the other workers.
*/
module DumpRoots {
  import opened Strings
  import opened KhashTable
  import opened Output
  import opened Bits
  import KhashRuns
  import TermScan
  import Roots
  import Merge

  /** A -A prefix, and the length its terms must have after it if that is not 0. */
  datatype Prefix = Prefix(pfx: string, len: nat)

  // ---------------------------------------------------------------- the lines of a document

  function RootTerms(terms: seq<string>): seq<string> { TermScan.Filter(terms, "G", 0) }

  predicate Known(terms: seq<string>, m: map<string, string>) {
    forall i :: 0 <= i < |RootTerms(terms)| ==> RootTerms(terms)[i] in m
  }

  /** The wanted terms, prefix by prefix. */
  function TermsOf(terms: seq<string>, pfxs: seq<Prefix>): seq<string> {
    if pfxs == [] then []
    else
      var p := pfxs[|pfxs| - 1];
      TermsOf(terms, pfxs[..|pfxs| - 1]) + TermScan.Filter(terms, p.pfx, p.len)
  }

  function Ended(vals: seq<string>, end: string): (r: seq<string>)
    ensures |r| == |vals| && forall i :: 0 <= i < |r| ==> r[i] == vals[i] + end
  {
    seq(|vals|, i requires 0 <= i < |vals| => vals[i] + end)
  }

  function DocLines(terms: seq<string>, pfxs: seq<Prefix>, m: map<string, string>): seq<string>
    requires Known(terms, m)
  {
    Ended(TermsOf(terms, pfxs), Roots.Ids(RootTerms(terms), m) + "\n")
  }

  predicate AllKnown(docs: seq<seq<string>>, m: map<string, string>) {
    forall i :: 0 <= i < |docs| ==> Known(docs[i], m)
  }

  function Lines(docs: seq<seq<string>>, pfxs: seq<Prefix>, m: map<string, string>): seq<string>
    requires AllKnown(docs, m)
  {
    if docs == [] then [] else Lines(docs[..|docs| - 1], pfxs, m) + DocLines(docs[|docs| - 1], pfxs, m)
  }

  /** The values between two places are the terms of one prefix, without it: each once, in byte order. */
  ghost predicate BlockAt(vals: seq<string>, from: nat, to: nat, terms: seq<string>, p: Prefix) {
    && from <= to <= |vals| && TermScan.Sorted(vals[from..to])
    && forall x :: x in vals[from..to] <==> p.pfx + x in terms && (p.len == 0 || |x| == p.len)
  }

  /** One block for each prefix in turn. */
  ghost predicate Blocks(vals: seq<string>, cuts: seq<nat>, terms: seq<string>, pfxs: seq<Prefix>) {
    && |cuts| == |pfxs| + 1 && cuts[0] == 0 && cuts[|pfxs|] == |vals|
    && forall p :: 0 <= p < |pfxs| ==> BlockAt(vals, cuts[p], cuts[p + 1], terms, pfxs[p])
  }

  /** The lines of a document: the blocks of its prefixes, every line with the ids of its roots at the end. */
  ghost predicate LinesOfDoc(lines: seq<string>, terms: seq<string>, pfxs: seq<Prefix>, m: map<string, string>) {
    exists vals, cuts, end ::
      && Roots.IsEnd(end, terms, m) && Blocks(vals, cuts, terms, pfxs)
      && |lines| == |vals| && forall i :: 0 <= i < |lines| ==> lines[i] == vals[i] + end
  }

  lemma BlockKept(vals: seq<string>, more: seq<string>, from: nat, to: nat, terms: seq<string>, p: Prefix)
    requires BlockAt(vals, from, to, terms, p)
    ensures BlockAt(vals + more, from, to, terms, p)
  {
    assert (vals + more)[from..to] == vals[from..to];
  }

  lemma BlockAdded(vals: seq<string>, terms: seq<string>, p: Prefix)
    requires TermScan.Sorted(terms)
    ensures var more := TermScan.Filter(terms, p.pfx, p.len);
      BlockAt(vals + more, |vals|, |vals| + |more|, terms, p)
  {
    hide TermScan.Filter;
    hide TermScan.Sorted;
    TermScan.FilterHolds(terms, p.pfx, p.len);
    var more := TermScan.Filter(terms, p.pfx, p.len);
    assert (vals + more)[|vals|..|vals| + |more|] == more;
    assert forall x :: x in more <==> TermScan.Holds(terms, p.pfx, p.len, x);
  }

  lemma {:induction false} TermBlocks(terms: seq<string>, pfxs: seq<Prefix>) returns (cuts: seq<nat>)
    requires TermScan.Sorted(terms)
    ensures Blocks(TermsOf(terms, pfxs), cuts, terms, pfxs)
    decreases |pfxs|
  {
    hide BlockAt;
    hide TermScan.Filter;
    hide TermScan.Sorted;
    if pfxs == [] {
      cuts := [0];
    } else {
      var n := |pfxs| - 1;
      var before := TermBlocks(terms, pfxs[..n]);
      var vals, more := TermsOf(terms, pfxs[..n]), TermScan.Filter(terms, pfxs[n].pfx, pfxs[n].len);
      assert TermsOf(terms, pfxs) == vals + more;
      cuts := before + [|vals| + |more|];
      BlockAdded(vals, terms, pfxs[n]);
      forall p | 0 <= p < |pfxs| ensures BlockAt(vals + more, cuts[p], cuts[p + 1], terms, pfxs[p]) {
        if p < n {
          assert BlockAt(vals, before[p], before[p + 1], terms, pfxs[..n][p]);
          BlockKept(vals, more, before[p], before[p + 1], terms, pfxs[p]);
        }
      }
    }
  }

  /** A document can be printed exactly when its root terms are known, and then these are its lines. */
  lemma DocLinesAre(terms: seq<string>, pfxs: seq<Prefix>, m: map<string, string>)
    requires TermScan.Sorted(terms)
    ensures Known(terms, m) <==> Roots.RootsKnown(terms, m)
    ensures Known(terms, m) ==> LinesOfDoc(DocLines(terms, pfxs, m), terms, pfxs, m)
  {
    hide Blocks;
    hide Roots.Ids;
    hide Roots.IsEnd;
    hide Roots.RootsKnown;
    hide TermScan.Filter;
    hide TermScan.Sorted;
    Roots.KnownRoots(terms, m);
    assert RootTerms(terms) == TermScan.Filter(terms, "G", 0);
    if Known(terms, m) {
      Roots.IdsEnd(terms, m);
      var end := Roots.Ids(RootTerms(terms), m) + "\n";
      var vals := TermsOf(terms, pfxs);
      var cuts := TermBlocks(terms, pfxs);
      assert Roots.IsEnd(end, terms, m) && Blocks(vals, cuts, terms, pfxs);
    }
  }

  // ---------------------------------------------------------------- printing a document

  lemma EndedAppend(a: seq<string>, b: seq<string>, end: string)
    ensures Ended(a + b, end) == Ended(a, end) + Ended(b, end)
  {
  }

  /** The loop of dump_roots_term over the terms it found. */
  method PrintTerms(wbuf: Memstream, vals: seq<string>, end: string)
    requires wbuf.Valid()
    modifies wbuf
    ensures wbuf.Valid() && wbuf.Pending() == old(wbuf.Pending()) + Concat(Ended(vals, end))
  {
    hide Concat;
    hide Ended;
    ghost var before := wbuf.Pending();
    NothingYet(before, end);
    assert vals[..0] == [];
    for i := 0 to |vals|
      invariant wbuf.Valid() && wbuf.Pending() == before + Concat(Ended(vals[..i], end))
    {
      wbuf.Print(vals[i]);
      wbuf.Print(end);
      OneMoreLine(before, vals, end, i);
    }
    assert vals[..|vals|] == vals;
  }

  /** dump_roots_term: one line for each term of the prefix. */
  method PrintPrefix(wbuf: Memstream, terms: seq<string>, p: Prefix, end: string) returns (n: nat)
    requires wbuf.Valid() && TermScan.Sorted(terms)
    modifies wbuf
    ensures wbuf.Valid() && n == |TermScan.Filter(terms, p.pfx, p.len)|
    ensures wbuf.Pending() == old(wbuf.Pending()) + Concat(Ended(TermScan.Filter(terms, p.pfx, p.len), end))
  {
    hide Concat;
    hide TermScan.Filter;
    var vals := TermScan.Scan(terms, p.pfx, p.len);
    PrintTerms(wbuf, vals, end);
    n := |vals|;
  }

  lemma OneMoreLine(before: string, vals: seq<string>, end: string, i: nat)
    requires i < |vals|
    ensures before + Concat(Ended(vals[..i], end)) + vals[i] + end == before + Concat(Ended(vals[..i + 1], end))
  {
    var was, line := Ended(vals[..i], end), vals[i] + end;
    var lines := Ended(vals[..i + 1], end);
    assert lines[..i] == was && lines[i] == line;
    var c := Concat(was);
    hide Concat;
    assert before + c + vals[i] + end == before + (c + (vals[i] + end));
  }

  /** dump_roots_iter: the root ids first, then the terms of each prefix; an unknown root prints nothing. */
  method PrintDoc(wbuf: Memstream, t: Table<string, string>, h: string -> uint32, terms: seq<string>,
                  pfxs: seq<Prefix>, ghost m: map<string, string>)
    returns (printed: Option<nat>)
    requires wbuf.Valid() && TermScan.Sorted(terms)
    requires t.Valid() && t.hashFn == h && KhashRuns.Mirrors(h, t.entries, m)
    modifies wbuf
    ensures wbuf.Valid() && (printed.Some? <==> Known(terms, m))
    ensures printed.None? ==> wbuf.Pending() == old(wbuf.Pending())
    ensures printed.Some? ==> printed.value == |DocLines(terms, pfxs, m)|
    ensures printed.Some? ==> wbuf.Pending() == old(wbuf.Pending()) + Concat(DocLines(terms, pfxs, m))
    ensures printed.Some? <==> Roots.RootsKnown(terms, m)
    ensures printed.Some? ==> LinesOfDoc(DocLines(terms, pfxs, m), terms, pfxs, m)
  {
    hide Concat;
    hide LinesOfDoc;
    hide Roots.Ids;
    hide Roots.IsEnd;
    hide Roots.RootsKnown;
    hide TermScan.Filter;
    hide TermScan.Sorted;
    DocLinesAre(terms, pfxs, m);
    var offs := Roots.RootOffs(t, h, terms, m);
    assert RootTerms(terms) == TermScan.Filter(terms, "G", 0);
    if offs.None? {
      return None;
    }
    var end, n := offs.value, 0;
    ghost var before := wbuf.Pending();
    ghost var vals: seq<string> := [];
    NothingYet(before, end);
    for p := 0 to |pfxs|
      invariant wbuf.Valid() && vals == TermsOf(terms, pfxs[..p]) && n == |vals|
      invariant wbuf.Pending() == before + Concat(Ended(vals, end))
    {
      ghost var more := TermScan.Filter(terms, pfxs[p].pfx, pfxs[p].len);
      var k := PrintPrefix(wbuf, terms, pfxs[p], end);
      n := n + k;
      assert pfxs[..p + 1][..p] == pfxs[..p];
      EndedAppend(vals, more, end);
      ConcatAppend(Ended(vals, end), Ended(more, end));
      assert before + Concat(Ended(vals, end)) + Concat(Ended(more, end))
          == before + (Concat(Ended(vals, end)) + Concat(Ended(more, end)));
      vals := vals + more;
    }
    assert pfxs[..|pfxs|] == pfxs;
    return Some(n);
  }

  lemma NothingYet(before: string, end: string)
    ensures before == before + Concat(Ended([], end))
  {
  }

  // ---------------------------------------------------------------- a worker's whole output

  lemma LinesSplit(docs: seq<seq<string>>, pfxs: seq<Prefix>, m: map<string, string>, i: nat)
    requires i < |docs| && AllKnown(docs[..i], m) && Known(docs[i], m)
    ensures AllKnown(docs[..i + 1], m)
    ensures Lines(docs[..i + 1], pfxs, m) == Lines(docs[..i], pfxs, m) + DocLines(docs[i], pfxs, m)
    ensures Concat(Lines(docs[..i + 1], pfxs, m))
         == Concat(Lines(docs[..i], pfxs, m)) + Concat(DocLines(docs[i], pfxs, m))
  {
    hide DocLines;
    hide Concat;
    hide Known;
    assert docs[..i + 1][..i] == docs[..i];
    ConcatAppend(Lines(docs[..i], pfxs, m), DocLines(docs[i], pfxs, m));
  }

  /** The lines of document i stand between two places. */
  predicate DocAt(lines: seq<string>, from: nat, to: nat, docs: seq<seq<string>>, i: nat, pfxs: seq<Prefix>,
                  m: map<string, string>)
    requires i < |docs| && AllKnown(docs, m)
  {
    from <= to <= |lines| && lines[from..to] == DocLines(docs[i], pfxs, m)
  }

  /** The lines of a list of documents are those of each document in turn. */
  lemma {:induction false} LinesInTurn(docs: seq<seq<string>>, pfxs: seq<Prefix>, m: map<string, string>)
    returns (cuts: seq<nat>)
    requires AllKnown(docs, m)
    ensures |cuts| == |docs| + 1 && cuts[0] == 0 && cuts[|docs|] == |Lines(docs, pfxs, m)|
    ensures forall i :: 0 <= i < |docs| ==> DocAt(Lines(docs, pfxs, m), cuts[i], cuts[i + 1], docs, i, pfxs, m)
    decreases |docs|
  {
    hide DocLines;
    hide Known;
    if docs == [] {
      cuts := [0];
    } else {
      var n := |docs| - 1;
      var front := Lines(docs[..n], pfxs, m);
      var before := LinesInTurn(docs[..n], pfxs, m);
      var lines := Lines(docs, pfxs, m);
      assert lines == front + DocLines(docs[n], pfxs, m);
      cuts := before + [|lines|];
      forall i | 0 <= i < |docs| ensures DocAt(lines, cuts[i], cuts[i + 1], docs, i, pfxs, m) {
        if i < n {
          assert DocAt(front, before[i], before[i + 1], docs[..n], i, pfxs, m);
          assert lines[cuts[i]..cuts[i + 1]] == front[cuts[i]..cuts[i + 1]];
        }
      }
    }
  }

  /** What the client has is a prefix of the lines of some first documents, all of them known. */
  ghost predicate GotSome(received: string, before: string, docs: seq<seq<string>>, pfxs: seq<Prefix>,
                          m: map<string, string>)
  {
    exists k :: 0 <= k <= |docs| && AllKnown(docs[..k], m) && Got(received, before, Concat(Lines(docs[..k], pfxs, m)))
  }

  lemma GotPrefix(received: string, before: string, a: string, b: string, docs: seq<seq<string>>, pfxs: seq<Prefix>,
                  m: map<string, string>, k: nat)
    requires k <= |docs| && AllKnown(docs[..k], m) && a + b == Concat(Lines(docs[..k], pfxs, m))
    requires Got(received, before + a, b)
    ensures GotSome(received, before, docs, pfxs, m)
  {
    hide Got;
    GotMore(received, before, a, b, "");
    assert a + b + "" == a + b;
  }

  /**
    The loop of cmd_dump_roots: buffered lines are flushed after a document whenever their number so far is a
    multiple of 0x4000 (with nothing pending that sends nothing), and at the end.
  */
  method Dump(fd: Client, t: Table<string, string>, h: string -> uint32, docs: seq<seq<string>>, pfxs: seq<Prefix>,
              ghost m: map<string, string>)
    returns (ok: bool)
    requires forall i :: 0 <= i < |docs| ==> TermScan.Sorted(docs[i])
    requires t.Valid() && t.hashFn == h && KhashRuns.Mirrors(h, t.entries, m)
    modifies fd
    ensures ok ==> AllKnown(docs, m) && fd.received == old(fd.received) + Concat(Lines(docs, pfxs, m))
    ensures !ok ==> fd.broken || !AllKnown(docs, m)
    ensures ok ==> fd.broken == old(fd.broken)
    ensures GotSome(fd.received, old(fd.received), docs, pfxs, m)
  {
    hide Concat;
    hide DocLines;
    hide Known;
    hide Got;
    hide GotSome;
    hide TermScan.Sorted;
    hide KhashRuns.Mirrors;
    hide Table.Valid;
    hide AllKnown;
    hide Lines;
    var wbuf := new Memstream();
    ghost var before, sent := fd.received, "";
    var nrOut := 0;
    NoLines(docs, pfxs, m);
    for i := 0 to |docs|
      invariant wbuf.Valid() && fresh(wbuf) && t.Valid() && fd.broken == old(fd.broken) && AllKnown(docs[..i], m)
      invariant fd.received == before + sent && nrOut == |Lines(docs[..i], pfxs, m)|
      invariant sent + wbuf.Pending() == Concat(Lines(docs[..i], pfxs, m))
    {
      ghost var pending := wbuf.Pending();
      var printed := PrintDoc(wbuf, t, h, docs[i], pfxs, m);
      if printed.None? {
        UnknownRoot(docs, m, i);
        GotStart(before + sent, pending);
        GotPrefix(fd.received, before, sent, pending, docs, pfxs, m, i);
        return false;
      }
      nrOut := nrOut + printed.value;
      LinesSplit(docs, pfxs, m, i);
      Reassociate(sent, pending, Concat(DocLines(docs[i], pfxs, m)));
      pending := wbuf.Pending();
      if nrOut % 0x4000 == 0 {
        ok := Flush(fd, wbuf);
        if !ok {
          GotPrefix(fd.received, before, sent, pending, docs, pfxs, m, i + 1);
          return;
        }
        Reassociate(before, sent, pending);
        sent := sent + pending;
        assert sent + "" == sent;
      }
    }
    assert docs[..|docs|] == docs;
    ghost var pending := wbuf.Pending();
    ok := Flush(fd, wbuf);
    GotPrefix(fd.received, before, sent, pending, docs, pfxs, m, |docs|);
    Reassociate(before, sent, pending);
  }

  lemma Reassociate(a: string, b: string, c: string)
    ensures a + b + c == a + (b + c)
  {
  }

  /** An unknown root in one document is enough. */
  lemma UnknownRoot(docs: seq<seq<string>>, m: map<string, string>, i: nat)
    requires i < |docs| && !Known(docs[i], m)
    ensures !AllKnown(docs, m)
  {
  }

  lemma NoLines(docs: seq<seq<string>>, pfxs: seq<Prefix>, m: map<string, string>)
    ensures AllKnown(docs[..0], m) && Lines(docs[..0], pfxs, m) == [] && Concat([]) == ""
  {
  }

  lemma GotStart(received: string, text: string)
    ensures Got(received, received, text)
  {
    assert received == received + text[..0];
  }

  // ---------------------------------------------------------------- all workers together

  /** What each worker prints for its share of the documents. */
  function Programs(shares: seq<seq<seq<string>>>, pfxs: seq<Prefix>, m: map<string, string>): (r: seq<seq<string>>)
    requires forall w :: 0 <= w < |shares| ==> AllKnown(shares[w], m)
    ensures |r| == |shares| && forall w :: 0 <= w < |r| ==> r[w] == Lines(shares[w], pfxs, m)
  {
    seq(|shares|, w requires 0 <= w < |shares| => Lines(shares[w], pfxs, m))
  }

  /** Every line of every document, as often as its terms call for. */
  ghost function DocumentLines(shares: seq<seq<seq<string>>>, pfxs: seq<Prefix>, m: map<string, string>, k: nat)
    : multiset<string>
    requires k <= |shares| && forall w :: 0 <= w < |shares| ==> AllKnown(shares[w], m)
  {
    if k == 0 then multiset{} else DocumentLines(shares, pfxs, m, k - 1) + multiset(Lines(shares[k - 1], pfxs, m))
  }

  lemma {:induction false} ProgramLines(shares: seq<seq<seq<string>>>, pfxs: seq<Prefix>, m: map<string, string>,
                                        k: nat)
    requires k <= |shares| && forall w :: 0 <= w < |shares| ==> AllKnown(shares[w], m)
    ensures Merge.All(Programs(shares, pfxs, m), k) == DocumentLines(shares, pfxs, m, k)
    decreases k
  {
    hide AllKnown;
    hide Lines;
    if k > 0 {
      ProgramLines(shares, pfxs, m, k - 1);
    }
  }

  /**
    However the workers interleave, however their writes are cut and whichever of them fail: the pipe ends up
    holding the first lines of each worker's documents, in order; a worker's other lines are given up exactly
    when one of its writes failed, and every line is intact exactly when none failed inside a line.
  */
  lemma DumpIsMerge(shares: seq<seq<seq<string>>>, pfxs: seq<Prefix>, m: map<string, string>, events: seq<Merge.Event>)
    requires forall w :: 0 <= w < |shares| ==> AllKnown(shares[w], m)
    requires var start := Merge.Start(Programs(shares, pfxs, m));
      Merge.Runs(start, events) && Merge.Finished(Merge.After(start, events))
    ensures var start := Merge.Start(Programs(shares, pfxs, m));
      var end := Merge.After(start, events);
      && |end.workers| == |shares| && end.pipe == Merge.Text(end.log)
      && Merge.LinesOf(end.log) + Merge.Lost(end.workers, |shares|) == DocumentLines(shares, pfxs, m, |shares|)
      && (Merge.AllWhole(end.log) <==> Merge.NeverCuts(start, events))
      && forall w: nat :: w < |shares| ==>
           && Merge.By(w, end.log) + end.workers[w].lost == Lines(shares[w], pfxs, m)
           && (end.workers[w].lost != [] <==> Merge.Fail(w) in events)
  {
    hide AllKnown;
    hide Lines;
    hide Merge.By;
    hide Merge.Text;
    hide Merge.NeverCuts;
    Merge.OutputIsMerge(Programs(shares, pfxs, m), events);
    ProgramLines(shares, pfxs, m, |shares|);
  }

  /** Without a failing write, every line of every document is in the pipe whole and exactly once. */
  lemma EveryLineOnce(shares: seq<seq<seq<string>>>, pfxs: seq<Prefix>, m: map<string, string>,
                      events: seq<Merge.Event>)
    requires forall w :: 0 <= w < |shares| ==> AllKnown(shares[w], m)
    requires var start := Merge.Start(Programs(shares, pfxs, m));
      Merge.Runs(start, events) && Merge.Finished(Merge.After(start, events))
    requires forall w: nat :: w < |shares| ==> Merge.Fail(w) !in events
    ensures var end := Merge.After(Merge.Start(Programs(shares, pfxs, m)), events);
      && end.pipe == Merge.Text(end.log) && Merge.AllWhole(end.log)
      && Merge.LinesOf(end.log) == DocumentLines(shares, pfxs, m, |shares|)
      && forall w: nat :: w < |shares| ==> Merge.By(w, end.log) == Lines(shares[w], pfxs, m)
  {
    hide AllKnown;
    hide Lines;
    hide Merge.By;
    hide Merge.Text;
    hide Merge.LinesOf;
    hide Merge.AllWhole;
    var start := Merge.Start(Programs(shares, pfxs, m));
    var end := Merge.After(start, events);
    DumpIsMerge(shares, pfxs, m, events);
    Merge.NoneLost(end.workers, |shares|);
    Merge.NoFailNoCut(start, events);
    forall w: nat | w < |shares| ensures Merge.By(w, end.log) == Lines(shares[w], pfxs, m) {
      assert Merge.By(w, end.log) + [] == Merge.By(w, end.log);
    }
  }
}
