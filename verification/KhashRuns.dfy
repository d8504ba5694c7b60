/** The set and map forms over whole runs: a table driven by a hash function is a map on keys. */
module KhashRuns {
  import opened Bits
  import opened Khashl
  import opened KhashTable

  datatype Op<K, V> =
    | Put(key: K, val: V)        // put: an existing entry is left untouched
    | Set(key: K, val: V)        // put, then assign kh_val
    | Get(key: K)
    | Del(key: K)                // get, then del if present
    | Resize(want: uint32)
    | Clear

  datatype Out<V> = Absent(flag: int) | Found(val: V) | Missing | Deleted | Done

  /** One operation on the mathematical map. */
  function Step<K(==), V>(m: map<K, V>, op: Op<K, V>): (map<K, V>, Out<V>) {
    match op
    case Put(k, v) => if k in m then (m, Absent(0)) else (m[k := v], Absent(1))
    case Set(k, v) => (m[k := v], Absent(if k in m then 0 else 1))
    case Get(k) => (m, if k in m then Found(m[k]) else Missing)
    case Del(k) => (m - {k}, if k in m then Deleted else Missing)
    case Resize(_) => (m, Done)
    case Clear => (map[], Done)
  }

  function RunMap<K(==), V>(ops: seq<Op<K, V>>): map<K, V> {
    if ops == [] then map[] else Step(RunMap(ops[..|ops| - 1]), ops[|ops| - 1]).0
  }

  function RunOuts<K(==), V>(ops: seq<Op<K, V>>): seq<Out<V>> {
    if ops == [] then []
    else RunOuts(ops[..|ops| - 1]) + [Step(RunMap(ops[..|ops| - 1]), ops[|ops| - 1]).1]
  }

  predicate Touches<K(==), V>(op: Op<K, V>, k: K) {
    op.Clear? || ((op.Set? || op.Del?) && op.key == k)
  }

  /** This operation stores v under k: a put only if nothing is stored there yet. */
  predicate Stores<K(==), V(==)>(ops: seq<Op<K, V>>, j: nat, k: K, v: V)
    requires j < |ops|
  {
    ops[j] == Set(k, v) || (ops[j] == Put(k, v) && k !in RunMap(ops[..j]))
  }

  /** After a run a key has the value that was stored last, unless it was removed since. */
  lemma {:induction false} LatestStored<K, V>(ops: seq<Op<K, V>>, k: K, v: V)
    ensures k in RunMap(ops) && RunMap(ops)[k] == v <==>
      exists j :: 0 <= j < |ops| && Stores(ops, j, k, v) && forall i :: j < i < |ops| ==> !Touches(ops[i], k)
    decreases |ops|
  {
    if ops != [] {
      var n := |ops| - 1;
      var front, last := ops[..n], ops[n];
      LatestStored(front, k, v);
      assert forall j :: 0 <= j < n ==> front[..j] == ops[..j];
      if j :| 0 <= j < n && Stores(front, j, k, v) && forall i :: j < i < n ==> !Touches(front[i], k) {
        assert Stores(ops, j, k, v);
      }
      if j :| 0 <= j < n && Stores(ops, j, k, v) && forall i :: j < i <= n ==> !Touches(ops[i], k) {
        assert Stores(front, j, k, v);
        assert k in RunMap(front) && RunMap(front)[k] == v && !Touches(last, k);
      }
      assert Stores(ops, n, k, v) ==> k in RunMap(ops) && RunMap(ops)[k] == v;
    }
  }

  /** Every stored hash is the hash of its key, and the entries are m. */
  ghost predicate Mirrors<K(!new), V>(h: K -> uint32, entries: map<Id<K>, V>, m: map<K, V>) {
    && (forall id :: id in entries ==> id.hash == h(id.key) && id.key in m && m[id.key] == entries[id])
    && (forall k :: k in m ==> Id(k, h(k)) in entries)
  }

  lemma MirrorStep<K(!new), V>(h: K -> uint32, entries: map<Id<K>, V>, m: map<K, V>, k: K, v: V)
    requires Mirrors(h, entries, m)
    ensures Id(k, h(k)) in entries <==> k in m
    ensures k in m ==> m[k] == entries[Id(k, h(k))]
    ensures Mirrors(h, entries[Id(k, h(k)) := v], m[k := v])
    ensures Mirrors(h, entries - {Id(k, h(k))}, m - {k})
  {
  }

  method ApplyPut<K(==, 0, !new), V(0)>(t: Table<K, V>, h: K -> uint32, k: K, v: V, assign: bool, ghost m: map<K, V>)
    returns (absent: int)
    requires t.Valid() && t.hashFn == h && Mirrors(h, t.entries, m) && t.count < MAX_ENTRIES
    modifies t, t.keys, t.used
    ensures t.Valid() && Mirrors(h, t.entries, if assign || k !in m then m[k := v] else m)
    ensures absent == if k in m then 0 else 1
    ensures t.keys == old(t.keys) || fresh(t.keys)
    ensures t.used == old(t.used) || fresh(t.used)
  {
    hide Represents;
    hide Chained;
    MirrorStep(h, t.entries, m, k, v);
    if assign {
      absent := t.Store(Bucket(k, v, h(k)));
    } else {
      var i: nat;
      i, absent := t.Put(Bucket(k, v, h(k)));
    }
  }

  method ApplyDel<K(==, 0, !new), V(0)>(t: Table<K, V>, h: K -> uint32, k: K, ghost m: map<K, V>) returns (found: bool)
    requires t.Valid() && t.hashFn == h && Mirrors(h, t.entries, m)
    modifies t, t.keys, t.used
    ensures t.Valid() && Mirrors(h, t.entries, m - {k}) && (found <==> k in m)
    ensures t.keys == old(t.keys) && t.used == old(t.used)
  {
    hide TableOk;
    var i := t.Get(Id(k, h(k)));
    found := i < t.End();
    if i < t.End() {
      MirrorStep(h, t.entries, m, k, t.keys[i].val);
      var r := t.Del(i);
    } else {
      assert m - {k} == m;
    }
  }

  method ApplyGet<K(==, 0, !new), V(0)>(t: Table<K, V>, h: K -> uint32, k: K, ghost m: map<K, V>) returns (out: Out<V>)
    requires t.Valid() && t.hashFn == h && Mirrors(h, t.entries, m)
    ensures out == if k in m then Found(m[k]) else Missing
  {
    var i := t.Get(Id(k, h(k)));
    out := if i < t.End() then Found(t.keys[i].val) else Missing;
  }

  /** Runs one operation. */
  method Apply<K(==, 0, !new), V(0)>(t: Table<K, V>, h: K -> uint32, op: Op<K, V>, ghost m: map<K, V>)
    returns (out: Out<V>)
    requires t.Valid() && t.hashFn == h && Mirrors(h, t.entries, m)
    requires op.Put? || op.Set? ==> t.count < MAX_ENTRIES
    requires op.Resize? ==> op.want <= 0x8000_0000
    modifies t, t.keys, t.used
    ensures t.Valid() && Mirrors(h, t.entries, Step(m, op).0) && out == Step(m, op).1
    ensures t.keys == old(t.keys) || fresh(t.keys)
    ensures t.used == old(t.used) || fresh(t.used)
  {
    hide Represents;
    hide Chained;
    match op
    case Put(k, v) =>
      var absent := ApplyPut(t, h, k, v, false, m);
      out := Absent(absent);
    case Set(k, v) =>
      var absent := ApplyPut(t, h, k, v, true, m);
      out := Absent(absent);
    case Get(k) =>
      out := ApplyGet(t, h, k, m);
    case Del(k) =>
      var found := ApplyDel(t, h, k, m);
      out := if found then Deleted else Missing;
    case Resize(n) =>
      t.Resize(n);
      out := Done;
    case Clear =>
      t.Clear();
      out := Done;
  }

  /** Every put of the run comes while the map is below the table's capacity. */
  ghost predicate Fits<K(!new), V>(ops: seq<Op<K, V>>) {
    forall n :: 0 <= n < |ops| && (ops[n].Put? || ops[n].Set?) ==> |RunMap(ops[..n])| < MAX_ENTRIES
  }

  /**
    Any run from the empty table, of any length, answers as the mathematical map does: in the plain forms
    and in the cached ones.
  */
  method Replay<K(==, 0, !new), V(0)>(plain: bool, h: K -> uint32, ops: seq<Op<K, V>>)
    returns (outs: seq<Out<V>>, size: nat)
    requires Fits(ops)
    requires forall op :: op in ops && op.Resize? ==> op.want <= 0x8000_0000
    ensures outs == RunOuts(ops) && size == |RunMap(ops)|
  {
    hide Represents;
    hide Chained;
    var t := new Table<K, V>(plain, h);
    outs := [];
    for n := 0 to |ops|
      invariant t.Valid() && t.hashFn == h && fresh(t) && fresh(t.keys) && fresh(t.used)
      invariant Mirrors(h, t.entries, RunMap(ops[..n])) && outs == RunOuts(ops[..n])
    {
      assert ops[..n + 1][..n] == ops[..n];
      MirrorSize(h, t.entries, RunMap(ops[..n]));
      var out := Apply(t, h, ops[n], RunMap(ops[..n]));
      outs := outs + [out];
    }
    assert ops[..|ops|] == ops;
    MirrorSize(h, t.entries, RunMap(ops));
    size := t.count;
  }

  lemma MirrorSize<K(!new), V>(h: K -> uint32, entries: map<Id<K>, V>, m: map<K, V>)
    requires Mirrors(h, entries, m)
    ensures |entries| == |m|
    decreases |m|
  {
    if m == map[] {
      assert entries.Keys == {};
    } else {
      var k :| k in m;
      var rest, ids := m - {k}, entries - {Id(k, h(k))};
      assert rest.Keys == m.Keys - {k} && ids.Keys == entries.Keys - {Id(k, h(k))};
      MirrorSize(h, ids, rest);
    }
  }
}
