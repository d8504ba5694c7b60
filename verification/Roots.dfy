/** Loading the root-to-id file of dump_roots into a presized table, and writing a document's root ids. */
module Roots {
  import opened Strings
  import opened Bits
  import opened Khashl
  import opened KhashTable
  import KhashRuns
  import opened Argv
  import TermScan

  datatype Entry = Entry(root: CString, id: CString)

  /** At least a 40-digit object name and a one-digit number: 43 bytes with the terminators. */
  predicate WellFormed(e: Entry) { |e.root| >= 40 && |e.id| >= 1 }

  function Flat(entries: seq<Entry>): seq<CString> {
    if entries == [] then []
    else Flat(entries[..|entries| - 1]) + [entries[|entries| - 1].root, entries[|entries| - 1].id]
  }

  /** The file: every root and id, NUL-terminated. */
  function FileOf(entries: seq<Entry>): string { Join(Flat(entries)) }

  /** The number of buckets asked for, an overestimate of the number of entries. */
  function Estimate(size: nat): nat { size / 32 + 1 }

  /** The table's resize takes a 32-bit count. */
  function Request(size: nat): uint32 { Estimate(size) % 0x1_0000_0000 }

  lemma {:induction false} FileSize(entries: seq<Entry>)
    requires forall i :: 0 <= i < |entries| ==> WellFormed(entries[i])
    ensures 43 * |entries| <= |FileOf(entries)|
    ensures |Flat(entries)| == 2 * |entries|
  {
    if entries != [] {
      var n := |entries| - 1;
      var front, e := Flat(entries[..n]), entries[n];
      FileSize(entries[..n]);
      JoinAppend(front, e.root);
      JoinAppend(front + [e.root], e.id);
      assert Flat(entries) == front + [e.root] + [e.id];
    }
  }

  /** The presizing bound: the estimate's load threshold exceeds the number of entries. */
  lemma EstimateSuffices(size: nat, n: nat, bits: nat)
    requires 43 * n <= size && BitsCover(Estimate(size), bits)
    ensures n < Load(Pow2(bits)) && n < Estimate(size)
  {
    Pow2Four(bits);
  }

  ghost predicate Distinct(entries: seq<Entry>) {
    forall i, j :: 0 <= i < j < |entries| ==> entries[i].root != entries[j].root
  }

  /** The pairs of the file, as a map; a later pair would win, but roots are distinct when it loads. */
  function Pairs(entries: seq<Entry>): map<string, string> {
    if entries == [] then map[]
    else Pairs(entries[..|entries| - 1])[entries[|entries| - 1].root := entries[|entries| - 1].id]
  }

  lemma {:induction false} PairsKeys(entries: seq<Entry>, root: string)
    ensures root in Pairs(entries) <==> exists i :: 0 <= i < |entries| && entries[i].root == root
  {
    if entries != [] {
      PairsKeys(entries[..|entries| - 1], root);
    }
  }

  lemma {:induction false} JoinCounts(pieces: seq<CString>)
    ensures NulCount(Join(pieces)) == |pieces|
  {
    if pieces != [] {
      var n := |pieces| - 1;
      assert pieces == pieces[..n] + [pieces[n]];
      JoinCounts(pieces[..n]);
      JoinAppend(pieces[..n], pieces[n]);
      NulCountAppend(Join(pieces[..n]), pieces[n]);
    }
  }

  lemma {:induction false} NulCountAppend(a: string, p: CString)
    ensures NulCount(a + p) == NulCount(a)
    ensures NulCount(a + p + [NUL]) == NulCount(a) + 1
  {
    assert (a + p + [NUL])[..|a + p|] == a + p;
    if p == "" {
      assert a + p == a;
    } else {
      var n := |p| - 1;
      assert (a + p)[..|a + p| - 1] == a + p[..n];
      NulCountAppend(a, p[..n]);
    }
  }

  // ---------------------------------------------------------------- loading

  datatype LoadResult = Loaded | Duplicate | Aborted

  lemma {:induction false} FlatAt(entries: seq<Entry>, k: nat)
    requires k < |entries|
    ensures |Flat(entries)| == 2 * |entries|
    ensures Flat(entries)[2 * k] == entries[k].root && Flat(entries)[2 * k + 1] == entries[k].id
    decreases |entries|
  {
    var n := |entries| - 1;
    if k < n {
      FlatAt(entries[..n], k);
    } else if n > 0 {
      FlatAt(entries[..n], 0);
    }
  }

  lemma FileFramed(entries: seq<Entry>)
    requires forall i :: 0 <= i < |entries| ==> WellFormed(entries[i])
    ensures Framed(FileOf(entries)) <==> entries != []
  {
    if entries != [] {
      var flat, n := Flat(entries), |entries| - 1;
      FlatAt(entries, 0);
      assert FileOf(entries)[0] == flat[0][0];
      JoinAppend(flat[..|flat| - 1], flat[|flat| - 1]);
      assert flat == flat[..|flat| - 1] + [flat[|flat| - 1]];
    }
  }

  /** The split pieces of the file are its roots and ids in turn. */
  lemma PiecesAreEntries(entries: seq<Entry>, starts: seq<nat>, k: nat)
    requires forall i :: 0 <= i < |starts| ==> starts[i] <= |FileOf(entries)|
    requires Join(PiecesAt(FileOf(entries), starts)) == FileOf(entries) && k < |entries|
    ensures |starts| == 2 * |entries|
    ensures CStringAt(FileOf(entries), starts[2 * k]) == entries[k].root
    ensures CStringAt(FileOf(entries), starts[2 * k + 1]) == entries[k].id
  {
    JoinInjective(PiecesAt(FileOf(entries), starts), Flat(entries));
    FlatAt(entries, k);
  }

  lemma {:induction false} PairsSize(entries: seq<Entry>)
    ensures |Pairs(entries)| <= |entries|
  {
    if entries != [] {
      var n := |entries| - 1;
      PairsSize(entries[..n]);
      var m := Pairs(entries[..n]);
      assert m[entries[n].root := entries[n].id].Keys == m.Keys + {entries[n].root};
    }
  }

  /** One put of the load loop; a table that has room is not rehashed. */
  method LoadOne(t: Table<string, string>, h: string -> uint32, root: string, id: string, ghost m: map<string, string>)
    returns (isNew: bool)
    requires t.Valid() && t.hashFn == h && KhashRuns.Mirrors(h, t.entries, m) && t.count < MAX_ENTRIES
    modifies t, t.keys, t.used
    ensures t.Valid() && isNew == (root !in m)
    ensures isNew ==> KhashRuns.Mirrors(h, t.entries, m[root := id])
    ensures t.keys == old(t.keys) || fresh(t.keys)
    ensures t.used == old(t.used) || fresh(t.used)
    ensures old(t.count) < Load(old(t.End())) ==>
      t.keys == old(t.keys) && t.used == old(t.used) && t.bits == old(t.bits)
  {
    hide TableOk;
    KhashRuns.MirrorStep(h, t.entries, m, root, id);
    ghost var e := t.entries;
    var key := Id(root, h(root));
    var k, absent := t.Put(Bucket(root, "", h(root)));
    isNew := absent != 0;
    if isNew {
      t.SetVal(k, id);
      assert t.entries == e[key := id];
    }
  }

  /**
    cmd_dump_roots up to the query: split the mapped file, presize the table and load it. A well-formed file
    loads exactly when its roots are distinct, the table then holds its pairs, and the split never met its
    limit. Unless the 32-bit request cut the estimate, the bucket count is still the presized one: no put
    rehashed.
  */
  method LoadRoots(file: string, h: string -> uint32, ghost entries: seq<Entry>)
    returns (r: LoadResult, t: Table<string, string>)
    requires file == FileOf(entries) && forall i :: 0 <= i < |entries| ==> WellFormed(entries[i])
    requires Request(|file|) <= 0x8000_0000 && |entries| <= MAX_ENTRIES
    ensures r == Aborted <==> entries == []
    ensures r == Loaded <==> entries != [] && Distinct(entries)
    ensures r == Loaded ==> t.Valid() && t.hashFn == h && KhashRuns.Mirrors(h, t.entries, Pairs(entries))
    ensures r == Loaded && |file| / 32 + 1 <= 0x8000_0000 ==> BitsCover(|file| / 32 + 1, t.bits)
  {
    hide TableOk;
    hide BitsCover;
    hide Join;
    hide NulCount;
    hide Framed;
    hide Distinct;
    hide KhashRuns.Mirrors;
    hide Request;
    hide Load;
    t := new Table<string, string>(false, h);
    var est := Estimate(|file|);
    var dst := new nat[est * 2];
    ghost var bits := Presizing(entries);
    var split := Split(dst, file, est * 2);
    if !split.Pieces? {
      return Aborted, t;
    }
    t.Resize(Request(|file|));
    r := LoadAll(t, file, h, dst[..split.nr], entries);
  }

  /** The split stays below its limit, and the presized width leaves room for every entry. */
  lemma Presizing(entries: seq<Entry>) returns (bits: nat)
    requires forall i :: 0 <= i < |entries| ==> WellFormed(entries[i])
    requires Request(|FileOf(entries)|) <= 0x8000_0000
    ensures var file := FileOf(entries);
      && (Framed(file) <==> entries != []) && NulCount(file) < Estimate(|file|) * 2
      && BitsCover(Request(|file|), bits)
      && (Estimate(|file|) <= 0x8000_0000 ==>
            Request(|file|) == Estimate(|file|) && |entries| <= Load(Pow2(bits)))
  {
    hide Join;
    hide NulCount;
    hide Framed;
    hide BitsCover;
    hide Load;
    hide Pow2;
    var size := |FileOf(entries)|;
    FileSize(entries);
    FileFramed(entries);
    JoinCounts(Flat(entries));
    bits := CoverExists(Request(size));
    if Estimate(size) <= 0x8000_0000 {
      EstimateSuffices(size, |entries|, bits);
    }
  }

  lemma CoverExists(n: nat) returns (b: nat)
    requires n <= 0x8000_0000
    ensures BitsCover(n, b)
  {
    b := 2;
    Pow2Of32();
    while Pow2(b) < n
      invariant 2 <= b && (2 < b ==> Pow2(b - 1) < n)
      decreases n - Pow2(b)
    {
      b := b + 1;
    }
  }

  method LoadAll(t: Table<string, string>, file: string, h: string -> uint32, starts: seq<nat>,
                 ghost entries: seq<Entry>)
    returns (r: LoadResult)
    requires t.Valid() && t.hashFn == h && t.entries == map[] && |entries| <= MAX_ENTRIES
    requires file == FileOf(entries) && entries != []
    requires forall i :: 0 <= i < |starts| ==> starts[i] <= |file|
    requires Join(PiecesAt(file, starts)) == file
    modifies t, t.keys, t.used
    ensures r == (if Distinct(entries) then Loaded else Duplicate) && t.Valid()
    ensures |entries| <= Load(old(t.End())) ==> t.bits == old(t.bits)
    ensures r == Loaded ==> KhashRuns.Mirrors(h, t.entries, Pairs(entries))
  {
    hide Table.Valid;
    hide Join;
    hide Load;
    hide CStringAt;
    hide FileOf;
    hide KhashRuns.Mirrors;
    hide Pairs;
    hide Distinct;
    assert Pairs(entries[..0]) == map[] && Distinct(entries[..0]) by {
      NoPairs(entries);
    }
    ghost var n := 0;
    var i := 0;
    PiecesAreEntries(entries, starts, 0);
    MirrorsNothing(h);
    while i < |starts|
      invariant i == 2 * n && n <= |entries| && |starts| == 2 * |entries|
      invariant t.Valid() && t.hashFn == h
      invariant t.keys == old(t.keys) || fresh(t.keys)
      invariant t.used == old(t.used) || fresh(t.used)
      invariant |entries| <= Load(old(t.End())) ==> t.keys == old(t.keys) && t.bits == old(t.bits)
      invariant KhashRuns.Mirrors(h, t.entries, Pairs(entries[..n])) && Distinct(entries[..n])
    {
      PiecesAreEntries(entries, starts, n);
      RoomFor(t, h, entries, n);
      NextPair(entries, n);
      var root := CStringAt(file, starts[i]);
      i := i + 1;
      var isNew := LoadOne(t, h, root, CStringAt(file, starts[i]), Pairs(entries[..n]));
      if !isNew {
        return Duplicate;
      }
      i := i + 1;
      n := n + 1;
    }
    assert entries[..n] == entries;
    return Loaded;
  }

  lemma NoPairs(entries: seq<Entry>)
    ensures Pairs(entries[..0]) == map[] && Distinct(entries[..0])
  {
  }

  /** The next pair extends the map, or repeats a root. */
  lemma NextPair(entries: seq<Entry>, n: nat)
    requires n < |entries| && Distinct(entries[..n])
    ensures Pairs(entries[..n + 1]) == Pairs(entries[..n])[entries[n].root := entries[n].id]
    ensures entries[n].root !in Pairs(entries[..n]) ==> Distinct(entries[..n + 1])
    ensures entries[n].root in Pairs(entries[..n]) ==> !Distinct(entries)
  {
    assert entries[..n + 1][..n] == entries[..n];
    PairsKeys(entries[..n], entries[n].root);
  }

  lemma MirrorsNothing(h: string -> uint32)
    ensures KhashRuns.Mirrors<string, string>(h, map[], map[])
  {
  }

  lemma RoomFor(t: Table<string, string>, h: string -> uint32, entries: seq<Entry>, n: nat)
    requires n <= |entries| && t.Valid() && KhashRuns.Mirrors(h, t.entries, Pairs(entries[..n]))
    ensures t.count <= n
  {
    PairsSize(entries[..n]);
    KhashRuns.MirrorSize(h, t.entries, Pairs(entries[..n]));
  }

  // ---------------------------------------------------------------- the root ids of a document

  function Ids(roots: seq<string>, m: map<string, string>): string
    requires forall i :: 0 <= i < |roots| ==> roots[i] in m
  {
    if roots == [] then "" else Ids(roots[..|roots| - 1], m) + " " + m[roots[|roots| - 1]]
  }

  /** Between two of the places where `end` is cut there is a blank and the id of this root. */
  predicate IdAt(end: string, from: nat, to: nat, root: string, m: map<string, string>) {
    root in m && from <= to < |end| && end[from..to] == [' '] + m[root]
  }

  /** A line end: for each root in turn a blank and its id, cut at the given places, then a newline. */
  predicate EndsWith(end: string, roots: seq<string>, m: map<string, string>, cuts: seq<nat>) {
    && |cuts| == |roots| + 1 && cuts[0] == 0 && cuts[|roots|] + 1 == |end| && end[|end| - 1] == '\n'
    && forall i :: 0 <= i < |roots| ==> IdAt(end, cuts[i], cuts[i + 1], roots[i], m)
  }

  lemma IdKept(was: string, more: string, from: nat, to: nat, root: string, m: map<string, string>)
    requires IdAt(was + "\n", from, to, root, m)
    ensures IdAt(was + more + "\n", from, to, root, m)
  {
    assert (was + more + "\n")[from..to] == (was + "\n")[from..to];
  }

  lemma IdAdded(was: string, root: string, m: map<string, string>)
    requires root in m
    ensures IdAt(was + (" " + m[root]) + "\n", |was|, |was| + 1 + |m[root]|, root, m)
  {
    assert (was + (" " + m[root]) + "\n")[|was|..|was| + 1 + |m[root]|] == [' '] + m[root];
  }

  lemma {:induction false} IdsInTurn(roots: seq<string>, m: map<string, string>) returns (cuts: seq<nat>)
    requires forall i :: 0 <= i < |roots| ==> roots[i] in m
    ensures EndsWith(Ids(roots, m) + "\n", roots, m, cuts)
  {
    hide IdAt;
    if roots == [] {
      cuts := [0];
    } else {
      var n := |roots| - 1;
      var before := IdsInTurn(roots[..n], m);
      var was, more := Ids(roots[..n], m), " " + m[roots[n]];
      var end := was + more + "\n";
      assert Ids(roots, m) + "\n" == end;
      cuts := before + [|was| + |more|];
      IdAdded(was, roots[n], m);
      forall i | 0 <= i < |roots| ensures IdAt(end, cuts[i], cuts[i + 1], roots[i], m) {
        if i < n {
          assert IdAt(was + "\n", before[i], before[i + 1], roots[..n][i], m);
          IdKept(was, more, before[i], before[i + 1], roots[i], m);
        }
      }
    }
  }

  /** The line end of a document: the ids of its root terms, which start with G, in term order. */
  ghost predicate IsEnd(end: string, terms: seq<string>, m: map<string, string>) {
    exists roots, cuts :: EndsWith(end, roots, m, cuts) && TermScan.Sorted(roots) && RootsOf(roots, terms)
  }

  predicate RootsOf(roots: seq<string>, terms: seq<string>) {
    && (forall x :: x in roots ==> ['G'] + x in terms)
    && forall t :: t in terms && t != "" && t[0] == 'G' ==> t[1..] in roots
  }

  lemma FilterRoots(terms: seq<string>)
    requires TermScan.Sorted(terms)
    ensures var roots := TermScan.Filter(terms, "G", 0); RootsOf(roots, terms) && TermScan.Sorted(roots)
  {
    hide TermScan.Filter;
    TermScan.FilterHolds(terms, "G", 0);
    var roots := TermScan.Filter(terms, "G", 0);
    assert "G" == ['G'];
    forall t | t in terms && t != "" && t[0] == 'G' ensures t[1..] in roots {
      assert t == "G" + t[1..] && TermScan.Holds(terms, "G", 0, t[1..]);
    }
    forall x | x in roots ensures ['G'] + x in terms {
      assert TermScan.Holds(terms, "G", 0, x);
    }
  }

  lemma IdsEnd(terms: seq<string>, m: map<string, string>)
    requires TermScan.Sorted(terms)
    ensures var roots := TermScan.Filter(terms, "G", 0);
      (forall i :: 0 <= i < |roots| ==> roots[i] in m) ==> IsEnd(Ids(roots, m) + "\n", terms, m)
  {
    hide Ids;
    FilterRoots(terms);
    var roots := TermScan.Filter(terms, "G", 0);
    if forall i :: 0 <= i < |roots| ==> roots[i] in m {
      var cuts := IdsInTurn(roots, m);
    }
  }

  /** Every root term of the document is in the file. */
  predicate RootsKnown(terms: seq<string>, m: map<string, string>) {
    forall t :: t in terms && t != "" && t[0] == 'G' ==> t[1..] in m
  }

  lemma KnownRoots(terms: seq<string>, m: map<string, string>)
    requires TermScan.Sorted(terms)
    ensures var roots := TermScan.Filter(terms, "G", 0);
      (forall i :: 0 <= i < |roots| ==> roots[i] in m) <==> RootsKnown(terms, m)
  {
    hide TermScan.Filter;
    FilterRoots(terms);
    var roots := TermScan.Filter(terms, "G", 0);
    forall i | 0 <= i < |roots| && RootsKnown(terms, m) ensures roots[i] in m {
      assert roots[i] in roots;
      assert (['G'] + roots[i])[1..] == roots[i];
    }
  }

  /**
    root2offs_str: the ids of the document's root terms, in term order, as the end of an output line; it
    aborts exactly when a root is not in the file.
  */
  method RootOffs(t: Table<string, string>, h: string -> uint32, terms: seq<string>, ghost m: map<string, string>)
    returns (r: Option<string>)
    requires t.Valid() && t.hashFn == h && KhashRuns.Mirrors(h, t.entries, m) && TermScan.Sorted(terms)
    ensures var roots := TermScan.Filter(terms, "G", 0);
      if forall i :: 0 <= i < |roots| ==> roots[i] in m then r == Some(Ids(roots, m) + "\n") else r == None
    ensures r.Some? <==> RootsKnown(terms, m)
    ensures r.Some? ==> IsEnd(r.value, terms, m)
  {
    hide Table.Valid;
    hide KhashRuns.Mirrors;
    hide Ids;
    hide TermScan.Filter;
    hide TermScan.Sorted;
    hide RootsKnown;
    hide IsEnd;
    KnownRoots(terms, m);
    IdsEnd(terms, m);
    var roots := TermScan.Scan(terms, "G", 0);
    r := JoinIds(t, h, roots, m);
  }

  /** Its loop over the roots it found. */
  method JoinIds(t: Table<string, string>, h: string -> uint32, roots: seq<string>, ghost m: map<string, string>)
    returns (r: Option<string>)
    requires t.Valid() && t.hashFn == h && KhashRuns.Mirrors(h, t.entries, m)
    ensures if forall i :: 0 <= i < |roots| ==> roots[i] in m then r == Some(Ids(roots, m) + "\n") else r == None
  {
    hide TableOk;
    var out := "";
    for i := 0 to |roots|
      invariant forall k :: 0 <= k < i ==> roots[k] in m
      invariant out == Ids(roots[..i], m)
    {
      KhashRuns.MirrorStep(h, t.entries, m, roots[i], "");
      var k := t.Get(Id(roots[i], h(roots[i])));
      if k >= t.End() {
        return None;
      }
      assert roots[..i + 1][..i] == roots[..i];
      out := out + " " + t.keys[k].val;
    }
    assert roots[..|roots|] == roots;
    return Some(out + "\n");
  }
}
