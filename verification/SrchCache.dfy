/**
  The search helper's cache of open databases: objects keyed by their encoded option list,
  under a file-descriptor budget that is enforced by evicting everything but the newest entry.
*/
module SrchCache {
  import opened Bits
  import opened Khashl
  import opened KhashTable
  import opened Argv

  /** Descriptors reserved per -d shard. */
  const SHARD_COST: nat := 8

  /** Whether the databases of a request open at once, only after evicting the rest, or never. */
  datatype Opening = Opens | OpensOnRetry | NeverOpens

  datatype Request = Request(opts: seq<Opt>, opening: Opening)

  datatype Outcome = Served(srch: nat, hit: bool) | Aborted | Exited

  // ---------------------------------------------------------------- the cache as a value

  /** What is cached, by option list; `nfd` is the descriptor count charged so far. */
  datatype Cached = Cached(objects: map<seq<Opt>, nat>, nfd: int, newest: seq<Opt>)

  function Cost(opts: seq<Opt>): nat { DirCount(opts) * SHARD_COST }

  /** The cache after a request that is neither aborted nor fatal; `srch` is the newly allocated object. */
  function Admit(c: Cached, opts: seq<Opt>, opening: Opening, srch: nat, fdMax: int): Cached {
    if opts in c.objects then c
    else
      var charged := c.nfd + Cost(opts);
      var over := charged > fdMax;
      var objects := if over || opening != Opens then map[opts := srch] else c.objects[opts := srch];
      Cached(objects, if over then Cost(opts) else charged, opts)
  }

  /** The answer to a request: without a shard it is aborted, and databases that never open end the process. */
  function Reply(c: Cached, req: Request, next: nat): Outcome {
    if DirCount(req.opts) == 0 then Aborted
    else if req.opts in c.objects then Served(c.objects[req.opts], true)
    else if req.opening == NeverOpens then Exited
    else Served(next, false)
  }

  ghost function TotalCost(s: set<seq<Opt>>): nat {
    if s == {} then 0 else var x :| x in s; Cost(x) + TotalCost(s - {x})
  }

  lemma {:induction false} TotalCostAdd(s: set<seq<Opt>>, x: seq<Opt>)
    requires x !in s
    ensures TotalCost(s + {x}) == TotalCost(s) + Cost(x)
    decreases |s|
  {
    var t := s + {x};
    var y :| y in t && TotalCost(t) == Cost(y) + TotalCost(t - {y});
    if y == x {
      assert t - {x} == s;
    } else {
      assert t - {y} == (s - {y}) + {x} && s == (s - {y}) + {y};
      TotalCostAdd(s - {y}, x);
      TotalCostAdd(s - {y}, y);
    }
  }

  /**
    The budget at request boundaries: the charge covers every cached entry, each of which has a shard,
    and it exceeds the limit only while nothing but the newest entry is cached.
  */
  ghost predicate Budgeted(c: Cached, fdMax: int) {
    && TotalCost(c.objects.Keys) <= c.nfd
    && (c.nfd <= fdMax || c.objects.Keys <= {c.newest})
    && (forall o :: o in c.objects ==> 0 < DirCount(o))
  }

  lemma AdmitKeepsBudget(c: Cached, opts: seq<Opt>, opening: Opening, srch: nat, fdMax: int)
    requires Budgeted(c, fdMax) && 0 < DirCount(opts)
    ensures Budgeted(Admit(c, opts, opening, srch, fdMax), fdMax)
  {
    if opts !in c.objects {
      var keys := c.objects.Keys;
      TotalCostAdd(keys, opts);
      TotalCostAdd({}, opts);
      assert {} + {opts} == {opts};
      assert c.objects[opts := srch].Keys == keys + {opts};
      assert map[opts := srch].Keys == {opts};
    }
  }

  /**
    The charge is exact after an overflow and stays exact while databases open at once; and a request
    within the budget that opens at once evicts nothing.
  */
  lemma AdmitCharges(c: Cached, opts: seq<Opt>, opening: Opening, srch: nat, fdMax: int)
    requires opts !in c.objects
    ensures var d := Admit(c, opts, opening, srch, fdMax);
      && (c.nfd + Cost(opts) > fdMax ==> d.nfd == TotalCost(d.objects.Keys))
      && (opening == Opens && c.nfd == TotalCost(c.objects.Keys) ==> d.nfd == TotalCost(d.objects.Keys))
      && (opening == Opens && c.nfd + Cost(opts) <= fdMax ==> d.objects.Keys == c.objects.Keys + {opts})
  {
    TotalCostAdd(c.objects.Keys, opts);
    TotalCostAdd({}, opts);
    assert {} + {opts} == {opts} == map[opts := srch].Keys;
    assert c.objects[opts := srch].Keys == c.objects.Keys + {opts};
  }

  /** Eight descriptors for each -d option; -Q options are free. */
  function Fee(opts: seq<Opt>): nat { 8 * |DirsAt(opts)| }

  lemma CostIsFee(opts: seq<Opt>)
    ensures Cost(opts) == Fee(opts)
  {
    DirCountIs(opts);
  }

  /**
    A hit changes nothing. A miss is charged its fee; if that would exceed the limit it is all that is charged.
    Then, as when the databases open only on the second try, the new entry is all that stays cached.
  */
  lemma AdmitExactly(c: Cached, opts: seq<Opt>, opening: Opening, srch: nat, fdMax: int)
    ensures var d, over := Admit(c, opts, opening, srch, fdMax), c.nfd + Fee(opts) > fdMax;
      if opts in c.objects then d == c
      else
        && d.newest == opts && d.nfd == (if over then Fee(opts) else c.nfd + Fee(opts))
        && d.objects == if over || opening == OpensOnRetry || opening == NeverOpens then map[opts := srch]
                        else c.objects[opts := srch]
  {
    CostIsFee(opts);
  }

  /** What a request is answered: only -Q options abort it, and a miss that cannot be opened ends the process. */
  lemma ReplyExactly(c: Cached, req: Request, next: nat)
    ensures Reply(c, req, next) ==
      if forall o :: o in req.opts ==> o.Prefix? then Aborted
      else if req.opts in c.objects then Served(c.objects[req.opts], true)
      else if req.opening == NeverOpens then Exited
      else Served(next, false)
  {
    DirCountIs(req.opts);
  }

  lemma NoDirsAborts(opts: seq<Opt>)
    ensures DirCount(opts) == 0 <==> forall o :: o in opts ==> o.Prefix?
  {
    DirCountIs(opts);
  }

  /** Entries cost at least one shard each, so the budget bounds how many there are. */
  lemma {:induction false} EntriesBounded(s: set<seq<Opt>>)
    requires forall o :: o in s ==> 0 < DirCount(o)
    ensures |s| * SHARD_COST <= TotalCost(s)
    decreases |s|
  {
    if s != {} {
      var x :| x in s && TotalCost(s) == Cost(x) + TotalCost(s - {x});
      EntriesBounded(s - {x});
      assert |s - {x}| == |s| - 1 && Cost(x) >= SHARD_COST;
    }
  }

  // ---------------------------------------------------------------- the cache in memory

  function IdFor(h: string -> uint32, opts: seq<Opt>): Id<string> {
    Id(Encode(opts), h(Encode(opts)))
  }

  /** The hash table holds exactly the cached objects, under their encoded keys. */
  ghost predicate Keyed(h: string -> uint32, entries: map<Id<string>, nat>, objects: map<seq<Opt>, nat>) {
    && (forall o :: o in objects ==> IdFor(h, o) in entries && entries[IdFor(h, o)] == objects[o])
    && (forall id :: id in entries ==> exists o :: o in objects && IdFor(h, o) == id)
  }

  lemma KeyedLookup(h: string -> uint32, entries: map<Id<string>, nat>, objects: map<seq<Opt>, nat>, opts: seq<Opt>)
    requires Keyed(h, entries, objects)
    ensures IdFor(h, opts) in entries <==> opts in objects
    ensures opts in objects ==> entries[IdFor(h, opts)] == objects[opts]
  {
    if IdFor(h, opts) in entries {
      var o :| o in objects && IdFor(h, o) == IdFor(h, opts);
      EncodeInjective(o, opts);
    }
  }

  lemma KeyedAdd(h: string -> uint32, entries: map<Id<string>, nat>, objects: map<seq<Opt>, nat>, opts: seq<Opt>,
                 srch: nat)
    requires Keyed(h, entries, objects) && opts !in objects
    ensures Keyed(h, entries[IdFor(h, opts) := srch], objects[opts := srch])
  {
    KeyedLookup(h, entries, objects, opts);
    var after, added := entries[IdFor(h, opts) := srch], objects[opts := srch];
    forall id | id in after ensures exists o :: o in added && IdFor(h, o) == id {
      if id == IdFor(h, opts) {
        assert opts in added;
      } else {
        var o :| o in objects && IdFor(h, o) == id;
        assert o in added;
      }
    }
  }

  lemma KeyedOne(h: string -> uint32, opts: seq<Opt>, srch: nat)
    ensures Keyed(h, map[IdFor(h, opts) := srch], map[opts := srch])
  {
    assert opts in map[opts := srch];
  }

  /** What srch_init leaves in the table after a miss stands for the admitted cache. */
  lemma AdmitKeyed(h: string -> uint32, entries: map<Id<string>, nat>, c: Cached, opts: seq<Opt>, opening: Opening,
                   srch: nat, fdMax: int)
    requires Keyed(h, entries, c.objects) && opts !in c.objects
    ensures var d := Admit(c, opts, opening, srch, fdMax);
      && opts in d.objects && d.objects[opts] == srch
      && d.nfd == (if c.nfd + Cost(opts) > fdMax then Cost(opts) else c.nfd + Cost(opts))
      && Keyed(h, if opening != Opens || c.nfd + Cost(opts) > fdMax then map[IdFor(h, opts) := srch]
                  else entries[IdFor(h, opts) := srch], d.objects)
  {
    KeyedAdd(h, entries, c.objects, opts, srch);
    KeyedOne(h, opts, srch);
  }

  ghost predicate Injective(m: map<Id<string>, nat>) {
    forall a, b :: a in m && b in m && m[a] == m[b] ==> a == b
  }

  /** Once every object but the kept one is gone, the kept one is all there is. */
  lemma AllGone(all: seq<Bucket<string, nat>>, keep: seq<Bucket<string, nat>>, entries: map<Id<string>, nat>,
                gone: set<nat>)
    requires Enumerates(all, entries) && Injective(entries) && |keep| <= 1
    requires keep != [] ==> IdOf(keep[0]) in entries && entries[IdOf(keep[0])] == keep[0].val
    requires forall v :: v in gone <==> exists k :: 0 <= k < |all| && all[k].val == v && keep != [all[k]]
    ensures entries.Values - gone == if keep == [] then {} else {keep[0].val}
  {
    forall v | v in entries.Values ensures exists k :: 0 <= k < |all| && all[k].val == v {
      var id :| id in entries && entries[id] == v;
    }
  }

  class Cache {
    const h: string -> uint32
    const fdMax: int
    const table: Table<string, nat>
    /** The srch objects that are allocated and not yet freed. */
    var live: set<nat>
    var nextId: nat
    var shardNfd: int

    ghost var cached: Cached

    ghost predicate Owned()
      reads this, table, table.keys, table.used
    {
      && table.Valid() && table.hashFn == h && Injective(table.entries)
      && (forall id :: id in table.entries ==> table.entries[id] < nextId)
      && live == table.entries.Values
    }

    /** At a request boundary the live objects are exactly the cached ones, within the budget. */
    ghost predicate Valid()
      reads this, table, table.keys, table.used
    {
      && Owned() && Keyed(h, table.entries, cached.objects)
      && shardNfd == cached.nfd && Budgeted(cached, fdMax)
    }

    constructor (hash: string -> uint32, limit: int)
      ensures Valid() && cached == Cached(map[], 0, []) && nextId == 0 && fdMax == limit && fresh(table)
      ensures fresh(table.keys) && fresh(table.used)
    {
      h, fdMax, live, nextId, shardNfd := hash, limit, {}, 0, 0;
      table := new Table<string, nat>(false, hash);
      cached := Cached(map[], 0, []);
      new;
      assert TotalCost({}) == 0;
      assert table.entries.Values == {};
    }

    /** srch_free: an object is freed once, while live. */
    method Free(srch: nat)
      requires srch in live
      modifies this`live
      ensures live == old(live) - {srch}
    {
      live := live - {srch};
    }

    /** srch_cache_renew: frees every cached object but `keep`, and leaves only `keep` cached. */
    method Renew(keep: seq<Bucket<string, nat>>)
      requires Owned() && |keep| <= 1
      requires keep != [] ==> IdOf(keep[0]) in table.entries && table.entries[IdOf(keep[0])] == keep[0].val
      modifies this`live, table, table.keys, table.used
      ensures Owned() && table.entries == if keep == [] then map[] else map[IdOf(keep[0]) := keep[0].val]
      ensures table.keys == old(table.keys) || fresh(table.keys)
      ensures table.used == old(table.used) || fresh(table.used)
    {
      hide TableOk;
      var all := table.Each();
      ghost var entries := table.entries;
      FreeAll(all, keep, entries);
      table.Clear();
      if keep != [] {
        var k, absent := table.Put(keep[0]);
        assert absent == 1 && k < table.End();
        assert table.entries[IdOf(keep[0])] == keep[0].val;
      }
    }

    method FreeAll(all: seq<Bucket<string, nat>>, keep: seq<Bucket<string, nat>>, ghost entries: map<Id<string>, nat>)
      requires Enumerates(all, entries) && Injective(entries) && live == entries.Values && |keep| <= 1
      requires keep != [] ==> IdOf(keep[0]) in entries && entries[IdOf(keep[0])] == keep[0].val
      modifies this`live
      ensures live == if keep == [] then {} else {keep[0].val}
    {
      ghost var gone: set<nat> := {};
      for i := 0 to |all|
        invariant live == entries.Values - gone
        invariant forall v :: v in gone <==> exists k :: 0 <= k < i && all[k].val == v && keep != [all[k]]
      {
        if keep == [] || all[i].val != keep[0].val {
          assert all[i].val in entries.Values && all[i].val !in gone;
          Free(all[i].val);
          gone := gone + {all[i].val};
        }
      }
      AllGone(all, keep, entries, gone);
    }

    /** cleanup_all at exit. */
    method FreeEverything()
      requires Valid()
      modifies this`live, table, table.keys, table.used
      ensures live == {}
    {
      hide TableOk;
      Renew([]);
    }

    lemma CountIsObjects()
      requires Valid()
      ensures table.count == |cached.objects|
    {
      KeyedSize(h, table.entries, cached.objects);
    }

    /** Puts a newly allocated object under its key; an equal key keeps its object and frees the new one. */
    method PutOrReuse(opts: seq<Opt>) returns (srch: nat, hit: bool)
      requires Valid() && |cached.objects| < MAX_ENTRIES
      modifies this`live, this`nextId, table, table.keys, table.used
      ensures Owned() && nextId == old(nextId) + 1
      ensures hit <==> opts in old(cached.objects)
      ensures hit ==> table.entries == old(table.entries) && srch == old(cached.objects[opts])
      ensures !hit ==> table.entries == old(table.entries)[IdFor(h, opts) := srch] && srch == old(nextId)
      ensures table.keys == old(table.keys) || fresh(table.keys)
      ensures table.used == old(table.used) || fresh(table.used)
    {
      hide TableOk;
      hide Keyed;
      hide Budgeted;
      hide Encode;
      CountIsObjects();
      KeyedLookup(h, table.entries, cached.objects, opts);
      var id := IdFor(h, opts);
      ghost var before := table.entries;
      srch := nextId;
      nextId := nextId + 1;
      live := live + {srch};
      var ki, absent := table.Put(Bucket(id.key, srch, id.hash));
      hit := absent == 0;
      if hit {
        Free(srch);
        srch := table.keys[ki].val;
      } else {
        GrowValues(before, id, srch);
      }
    }

    /**
      srch_init: charges the budget, evicting everything else when it overflows, and opens the databases.
      A failed first attempt evicts the other entries and retries; a second failure exits, and the
      exit handler (cleanup_all) frees the whole cache.
    */
    method Init(opts: seq<Opt>, opening: Opening, srch: nat) returns (ready: bool)
      requires Owned() && IdFor(h, opts) in table.entries && table.entries[IdFor(h, opts)] == srch
      modifies this`live, this`shardNfd, table, table.keys, table.used
      ensures Owned() && ready == (opening != NeverOpens)
      ensures shardNfd == var charged := old(shardNfd) + Cost(opts); if charged > fdMax then Cost(opts) else charged
      ensures table.entries ==
        if !ready then map[]
        else if opening == OpensOnRetry || old(shardNfd) + Cost(opts) > fdMax then map[IdFor(h, opts) := srch]
        else old(table.entries)
      ensures table.keys == old(table.keys) || fresh(table.keys)
      ensures table.used == old(table.used) || fresh(table.used)
    {
      hide TableOk;
      var id := IdFor(h, opts);
      var self := [Bucket(id.key, srch, id.hash)];
      var nfd := DirCount(opts) * SHARD_COST;
      shardNfd := shardNfd + nfd;
      if shardNfd > fdMax {
        Renew(self);
        shardNfd := nfd;
      }
      if opening != Opens {
        Renew(self);
        if opening == NeverOpens {
          Renew([]);
          return false;
        }
      }
      return true;
    }

    /** dispatch: serves one request from the cache, or opens its databases and caches them. */
    method Serve(req: Request) returns (out: Outcome)
      requires Valid() && |cached.objects| < MAX_ENTRIES
      modifies this`live, this`nextId, this`shardNfd, this`cached, table, table.keys, table.used
      ensures out == Reply(old(cached), req, old(nextId))
      ensures out.Aborted? <==> forall o :: o in req.opts ==> o.Prefix?
      ensures out.Exited? <==> !out.Aborted? && req.opts !in old(cached.objects) && req.opening == NeverOpens
      ensures out.Served? ==> (out.hit <==> req.opts in old(cached.objects))
      ensures out.Served? && out.hit ==> cached == old(cached) && shardNfd == old(shardNfd)
      ensures out.Served? && !out.hit ==>
        var over := old(shardNfd) + 8 * |DirsAt(req.opts)| > fdMax;
        && shardNfd == (if over then 8 * |DirsAt(req.opts)| else old(shardNfd) + 8 * |DirsAt(req.opts)|)
        && cached.objects == (if over || req.opening == OpensOnRetry then map[req.opts := out.srch]
                              else old(cached.objects)[req.opts := out.srch])
      ensures out.Exited? ==> live == {}
      ensures !out.Exited? ==> Valid()
      ensures out.Aborted? ==> cached == old(cached) && nextId == old(nextId)
      ensures out.Served? ==>
        && nextId == old(nextId) + 1 && out.srch in live
        && cached == Admit(old(cached), req.opts, req.opening, old(nextId), fdMax)
        && req.opts in cached.objects && cached.objects[req.opts] == out.srch
      ensures table.keys == old(table.keys) || fresh(table.keys)
      ensures table.used == old(table.used) || fresh(table.used)
    {
      hide TableOk;
      hide Keyed;
      hide Budgeted;
      hide DirCount;
      hide DirsAt;
      hide Encode;
      hide Admit;
      hide Reply;
      ReplyExactly(cached, req, nextId);
      NoDirsAborts(req.opts);
      if DirCount(req.opts) == 0 {
        return Aborted;
      }
      ghost var before := cached;
      AdmitExactly(before, req.opts, req.opening, nextId, fdMax);
      AdmitKeepsBudget(before, req.opts, req.opening, nextId, fdMax);
      KeyedLookup(h, table.entries, before.objects, req.opts);
      var srch, hit := PutOrReuse(req.opts);
      if hit {
        return Served(srch, true);
      }
      AdmitKeyed(h, old(table.entries), before, req.opts, req.opening, srch, fdMax);
      var ready := Init(req.opts, req.opening, srch);
      if !ready {
        return Exited;
      }
      cached := Admit(before, req.opts, req.opening, srch, fdMax);
      assert srch in table.entries.Values by {
        assert table.entries[IdFor(h, req.opts)] == srch;
      }
      return Served(srch, false);
    }
  }

  lemma GrowValues(m: map<Id<string>, nat>, id: Id<string>, v: nat)
    requires id !in m && v !in m.Values && Injective(m)
    ensures m[id := v].Values == m.Values + {v} && Injective(m[id := v])
  {
    var m' := m[id := v];
    assert m'[id] == v;
    forall w | w in m.Values ensures w in m'.Values {
      var k :| k in m && m[k] == w;
      assert k in m' && m'[k] == w;
    }
  }

  lemma KeyedWithout(h: string -> uint32, entries: map<Id<string>, nat>, objects: map<seq<Opt>, nat>, o: seq<Opt>)
    requires Keyed(h, entries, objects) && o in objects
    ensures Keyed(h, entries - {IdFor(h, o)}, objects - {o})
  {
    hide Encode;
    var fewer, rest := entries - {IdFor(h, o)}, objects - {o};
    forall p | p in rest ensures IdFor(h, p) in fewer && fewer[IdFor(h, p)] == rest[p] {
      EncodeInjective(o, p);
    }
    forall id | id in fewer ensures exists p :: p in rest && IdFor(h, p) == id {
      var p :| p in objects && IdFor(h, p) == id;
      assert p in rest;
    }
  }

  lemma SizeWithout<X, Y>(m: map<X, Y>, x: X)
    requires x in m
    ensures |m - {x}| == |m| - 1
  {
    assert (m - {x}).Keys == m.Keys - {x};
  }

  lemma {:induction false} KeyedSize(h: string -> uint32, entries: map<Id<string>, nat>, objects: map<seq<Opt>, nat>)
    requires Keyed(h, entries, objects)
    ensures |entries| == |objects|
    decreases |objects|
  {
    hide IdFor;
    if objects == map[] {
      assert entries.Keys == {};
    } else {
      var o :| o in objects;
      KeyedWithout(h, entries, objects, o);
      SizeWithout(objects, o);
      SizeWithout(entries, IdFor(h, o));
      KeyedSize(h, entries - {IdFor(h, o)}, objects - {o});
    }
  }

  // ---------------------------------------------------------------- whole runs

  /** The cache after serving reqs in order; request k allocates object k. */
  function After(reqs: seq<Request>, fdMax: int): Cached {
    if reqs == [] then Cached(map[], 0, [])
    else
      var last := |reqs| - 1;
      Admit(After(reqs[..last], fdMax), reqs[last].opts, reqs[last].opening, last, fdMax)
  }

  /** A request the process survives. */
  predicate Survives(reqs: seq<Request>, i: nat, fdMax: int)
    requires i < |reqs|
  {
    && 0 < DirCount(reqs[i].opts)
    && (reqs[i].opts in After(reqs[..i], fdMax).objects || reqs[i].opening != NeverOpens)
  }

  /** The answer the model prescribes: a hit exactly when the same ordered option list is still cached. */
  predicate Answers(reqs: seq<Request>, i: nat, out: Outcome, fdMax: int)
    requires i < |reqs|
  {
    var before, after := After(reqs[..i], fdMax), After(reqs[..i + 1], fdMax);
    && reqs[i].opts in after.objects
    && out == Served(after.objects[reqs[i].opts], reqs[i].opts in before.objects)
  }

  lemma AfterNothing(reqs: seq<Request>, fdMax: int)
    ensures After(reqs[..0], fdMax) == Cached(map[], 0, [])
  {
  }

  lemma AfterStep(reqs: seq<Request>, i: nat, fdMax: int)
    requires i < |reqs|
    ensures After(reqs[..i + 1], fdMax)
         == Admit(After(reqs[..i], fdMax), reqs[i].opts, reqs[i].opening, i, fdMax)
  {
    assert reqs[..i + 1][..i] == reqs[..i];
  }

  /** A request that leaves nothing but itself cached: a miss over the limit, or one that opens only later. */
  predicate Evicts(reqs: seq<Request>, k: nat, fdMax: int)
    requires k < |reqs|
  {
    var c := After(reqs[..k], fdMax);
    reqs[k].opts !in c.objects && (reqs[k].opening != Opens || c.nfd + 8 * |DirsAt(reqs[k].opts)| > fdMax)
  }

  /** So an option list is cached exactly when it was requested and no later request evicted it. */
  lemma {:induction false} CachedIff(reqs: seq<Request>, i: nat, opts: seq<Opt>, fdMax: int)
    requires i <= |reqs|
    ensures opts in After(reqs[..i], fdMax).objects <==>
      exists j :: 0 <= j < i && reqs[j].opts == opts && forall k :: j < k < i ==> !Evicts(reqs, k, fdMax)
    decreases i
  {
    hide Admit;
    hide Evicts;
    if i == 0 {
      AfterNothing(reqs, fdMax);
    } else {
      var last := i - 1;
      CachedIff(reqs, last, opts, fdMax);
      AfterStep(reqs, last, fdMax);
      AdmitEvicts(reqs, last, fdMax);
      if reqs[last].opts == opts {
        assert reqs[last].opts == opts && last + 1 == i;
      } else if Evicts(reqs, last, fdMax) {
        assert opts !in After(reqs[..i], fdMax).objects;
      } else if opts in After(reqs[..last], fdMax).objects {
        var j :| 0 <= j < last && reqs[j].opts == opts && forall k :: j < k < last ==> !Evicts(reqs, k, fdMax);
        assert forall k :: j < k < i ==> !Evicts(reqs, k, fdMax);
      }
    }
  }

  lemma AdmitEvicts(reqs: seq<Request>, k: nat, fdMax: int)
    requires k < |reqs|
    ensures var c, d := After(reqs[..k], fdMax), After(reqs[..k + 1], fdMax);
      d.objects.Keys == if Evicts(reqs, k, fdMax) then {reqs[k].opts} else c.objects.Keys + {reqs[k].opts}
  {
    AfterStep(reqs, k, fdMax);
    var c := After(reqs[..k], fdMax);
    AdmitExactly(c, reqs[k].opts, reqs[k].opening, k, fdMax);
    assert map[reqs[k].opts := k].Keys == {reqs[k].opts};
    assert c.objects[reqs[k].opts := k].Keys == c.objects.Keys + {reqs[k].opts};
    if reqs[k].opts in c.objects {
      assert c.objects.Keys + {reqs[k].opts} == c.objects.Keys;
    }
  }

  lemma ReplyAnswers(reqs: seq<Request>, i: nat, fdMax: int)
    requires i < |reqs|
    ensures var out := Reply(After(reqs[..i], fdMax), reqs[i], i);
      (out.Served? <==> Survives(reqs, i, fdMax)) && (out.Served? ==> Answers(reqs, i, out, fdMax))
  {
    AfterStep(reqs, i, fdMax);
  }

  /** As long as no request was fatal, the cache has stayed below the hash table's capacity. */
  ghost predicate Fits(reqs: seq<Request>, fdMax: int) {
    forall n :: 0 <= n < |reqs| && (forall k :: 0 <= k < n ==> Survives(reqs, k, fdMax)) ==>
      |After(reqs[..n], fdMax).objects| < MAX_ENTRIES
  }

  lemma FitsAt(reqs: seq<Request>, n: nat, fdMax: int)
    requires Fits(reqs, fdMax) && n < |reqs| && forall k :: 0 <= k < n ==> Survives(reqs, k, fdMax)
    ensures |After(reqs[..n], fdMax).objects| < MAX_ENTRIES
  {
  }

  lemma {:induction false} RunBudgeted(reqs: seq<Request>, n: nat, fdMax: int)
    requires n <= |reqs| && forall k :: 0 <= k < n ==> Survives(reqs, k, fdMax)
    ensures Budgeted(After(reqs[..n], fdMax), fdMax)
  {
    hide Admit;
    if n == 0 {
      assert After(reqs[..0], fdMax).objects.Keys == {} && TotalCost({}) == 0;
    } else {
      RunBudgeted(reqs, n - 1, fdMax);
      assert Survives(reqs, n - 1, fdMax);
      AfterStep(reqs, n - 1, fdMax);
      AdmitKeepsBudget(After(reqs[..n - 1], fdMax), reqs[n - 1].opts, reqs[n - 1].opening, n - 1, fdMax);
    }
  }

  /** A descriptor limit below 12 * 2^30 keeps every run within the table's capacity. */
  lemma LimitFits(reqs: seq<Request>, fdMax: int)
    requires fdMax < 12 * 0x4000_0000
    ensures Fits(reqs, fdMax)
  {
    forall n | 0 <= n < |reqs| && (forall k :: 0 <= k < n ==> Survives(reqs, k, fdMax))
      ensures |After(reqs[..n], fdMax).objects| < MAX_ENTRIES
    {
      RunBudgeted(reqs, n, fdMax);
      var c := After(reqs[..n], fdMax);
      EntriesBounded(c.objects.Keys);
      if c.objects.Keys <= {c.newest} {
        assert c.objects.Keys == {} || c.objects.Keys == {c.newest};
      }
      assert |c.objects| == |c.objects.Keys|;
    }
  }

  /**
    Serves requests until one is fatal. Every answer is the object the cache model prescribes, a hit
    exactly when the same ordered option list is still cached, and on exit nothing stays allocated.
  */
  method Run(hash: string -> uint32, limit: int, reqs: seq<Request>)
    returns (outs: seq<Outcome>, leaked: set<nat>)
    requires Fits(reqs, limit)
    ensures |outs| <= |reqs|
    ensures forall i :: 0 <= i < |outs| ==> Survives(reqs, i, limit) && Answers(reqs, i, outs[i], limit)
    ensures |outs| < |reqs| ==> !Survives(reqs, |outs|, limit)
    ensures Budgeted(After(reqs[..|outs|], limit), limit)
    ensures (|outs| < |reqs| ==> 0 < DirCount(reqs[|outs|].opts)) ==> leaked == {}
  {
    hide Cache.Valid;
    hide Fits;
    hide Budgeted;
    hide Admit;
    hide After;
    hide Survives;
    hide Answers;
    hide DirCount;
    var c := new Cache(hash, limit);
    outs := [];
    AfterNothing(reqs, limit);
    for i := 0 to |reqs|
      invariant c.Valid() && c.nextId == i == |outs| && c.fdMax == limit
      invariant fresh(c) && fresh(c.table) && fresh(c.table.keys) && fresh(c.table.used)
      invariant c.cached == After(reqs[..i], limit)
      invariant forall k :: 0 <= k < i ==> Survives(reqs, k, limit) && Answers(reqs, k, outs[k], limit)
    {
      AfterStep(reqs, i, limit);
      ReplyAnswers(reqs, i, limit);
      FitsAt(reqs, i, limit);
      RunBudgeted(reqs, i, limit);
      var out := c.Serve(reqs[i]);
      if !out.Served? {
        return outs, c.live;
      }
      outs := outs + [out];
    }
    RunBudgeted(reqs, |outs|, limit);
    c.FreeEverything();
    leaked := c.live;
  }
}
