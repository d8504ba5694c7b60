/** The mutable table itself: one class over the key array and the used flags. */
module KhashTable {
  import opened Bits
  import opened Khashl

  /** The largest entry count for which growing stays within 2^31 buckets. */
  const MAX_ENTRIES: nat := 0x6000_0000

  /** The smallest b >= 2 with 2^b buckets covering a request for n. */
  ghost predicate BitsCover(n: nat, b: nat) {
    2 <= b && n <= Pow2(b) && (2 < b ==> Pow2(b - 1) < n)
  }

  lemma {:induction false} BitsCoverUnique(n: nat, a: nat, b: nat)
    requires BitsCover(n, a) && BitsCover(n, b)
    ensures a == b
  {
    if a < b {
      Pow2Monotone(a, b - 1);
    } else if b < a {
      Pow2Monotone(b, a - 1);
    }
  }

  /** A full table asks for one bucket more than it has: that doubles it, or starts it at four. */
  lemma GrowthBits(n: nat, bits: nat, count: nat, empty: bool)
    requires if empty then n == 0 else 2 <= bits <= 31 && n == Pow2(bits)
    requires count == Load(n) && count < MAX_ENTRIES
    ensures n + 1 <= 0x8000_0000
    ensures BitsCover(n + 1, if empty then 2 else bits + 1)
    ensures count < Load(Pow2(if empty then 2 else bits + 1))
  {
    Pow2Of32();
    if !empty {
      Pow2Four(bits);
      if bits < 31 {
        Pow2Monotone(bits, 30);
      }
    }
  }

  /** The shift loop that turns a requested bucket count into a bit width. */
  method BucketBits(n: uint32) returns (b: nat)
    requires n <= 0x8000_0000
    ensures BitsCover(n, b) && b <= 31
  {
    var j: nat, x: nat := 0, n / 2;
    while x != 0
      invariant Log2(n) == if x == 0 then j else j + 1 + Log2(x)
      decreases x
    {
      x, j := x / 2, j + 1;
    }
    if n >= 1 {
      Log2Bounds(n);
      PowerOfTwoTest(n, j);
      if BitAnd(n, n - 1) != 0 {
        j := j + 1;
      }
    }
    Pow2Of32();
    if j >= 32 {
      Pow2Monotone(31, j - 1);
    }
    b := if j > 2 then j else 2;
    Pow2Monotone(if j > 2 then 2 else j, 2);
  }

  /** Copies the common prefix into a new array, as reallocarray does. */
  method Realloc<T(0)>(a: array<T>, n: nat) returns (r: array<T>)
    ensures fresh(r) && r.Length == n
    ensures if a.Length <= n then a[..] <= r[..] else r[..] == a[..n]
  {
    r := new T[n];
    forall p | 0 <= p < a.Length && p < n {
      r[p] := a[p];
    }
  }

  /** The innermost loop of a rehash: the first slot of a probe that is free in the new table. */
  method FirstFree(used: array<bool>, home: nat, bits: nat) returns (i: nat)
    requires used.Length == Pow2(bits) && home < used.Length
    requires |UsedSet(used[..])| < used.Length
    ensures i < used.Length && !used[i]
    ensures forall q: nat :: q < used.Length && Between(home, q, i) ==> used[q]
  {
    i := home;
    ghost var f := FreeSlot(used[..]);
    while used[i]
      invariant i < used.Length && Dist(i, f, used.Length) <= Dist(home, f, used.Length)
      invariant forall q: nat :: q < used.Length && Between(home, q, i) ==> used[q]
      decreases Dist(i, f, used.Length)
    {
      MaskWraps(i + 1, bits);
      i := BitAnd(i + 1, Pow2(bits) - 1);
    }
  }

  class Table<K(==, 0, !new), V(0)> {
    /**
      The plain set and map forms hash a bucket's key whenever they need its hash and compare keys alone;
      the cached forms store the hash in the bucket and compare it too.
    */
    const plain: bool
    const hashFn: K -> uint32
    var bits: nat
    var count: nat
    /** NULL until the first allocation, which is a zero-length array here. */
    var used: array<bool>
    var keys: array<Bucket<K, V>>

    /** The mathematical map this table stands for. */
    ghost var entries: map<Id<K>, V>

    ghost predicate Valid()
      reads this, keys, used
    {
      && Coherent(entries)
      && if keys.Length == 0 then
           used.Length == 0 && bits == 0 && count == 0 && entries == map[]
         else
           TableOk(keys[..], used[..], bits, count, entries)
    }

    /** __hash_fn of a bucket. */
    function HashOf(b: Bucket<K, V>): uint32 { if plain then hashFn(b.key) else b.hash }

    /** __hash_eq of a bucket and a key. */
    predicate Same(b: Bucket<K, V>, id: Id<K>) { if plain then b.key == id.key else IdOf(b) == id }

    /** In the plain forms the hash is always that of the key; the cached forms take what the caller stored. */
    ghost predicate Agrees(id: Id<K>) { plain ==> id.hash == hashFn(id.key) }

    ghost predicate Coherent(m: map<Id<K>, V>) { forall id :: id in m ==> Agrees(id) }

    lemma SlotsAgree(k: seq<Bucket<K, V>>, u: seq<bool>, m: map<Id<K>, V>)
      requires |k| == |u| && Represents(k, u, m) && Coherent(m)
      ensures forall p: nat :: p < |u| && u[p] ==> Agrees(IdOf(k[p]))
    {
      forall p: nat | p < |u| && u[p] ensures Agrees(IdOf(k[p])) {
        assert Holds(k, u, IdOf(k[p]), p);
      }
    }

    /** kh_end: one past the last bucket. */
    function End(): nat
      reads this
    {
      if keys.Length == 0 then 0 else Pow2(bits)
    }

    constructor (uncached: bool, h: K -> uint32)
      ensures Valid() && entries == map[] && End() == 0 && fresh(keys) && fresh(used)
      ensures plain == uncached && hashFn == h
    {
      plain, hashFn, bits, count := uncached, h, 0, 0;
      used, keys := new bool[0], new Bucket<K, V>[0];
      entries := map[];
    }

    method Clear()
      requires Valid()
      modifies this, used
      ensures Valid() && entries == map[] && count == 0
      ensures keys == old(keys) && used == old(used) && bits == old(bits)
    {
      if used.Length != 0 {
        forall p | 0 <= p < used.Length {
          used[p] := false;
        }
        count := 0;
        entries := map[];
        Emptied(keys[..], used[..], bits);
      }
    }

    /**
      The probe loop shared by getp and putp: from the home bucket to the first slot that is free or
      holds the key. `wrapped` reports the `i == last` exit, which a free slot makes unreachable.
    */
    method Scan(id: Id<K>, last: nat) returns (i: nat, wrapped: bool)
      requires bits <= 32 && keys.Length == used.Length == Pow2(bits)
      requires last < used.Length && |UsedSet(used[..])| < used.Length
      requires Agrees(id) && forall p :: 0 <= p < used.Length && used[p] ==> Agrees(IdOf(keys[p]))
      ensures !wrapped && i < used.Length && (used[i] ==> IdOf(keys[i]) == id)
      ensures forall q: nat :: q < used.Length && Between(last, q, i) ==> used[q] && IdOf(keys[q]) != id
    {
      var n := Pow2(bits);
      i, wrapped := last, false;
      ghost var f := FreeSlot(used[..]);
      while used[i] && !Same(keys[i], id)
        invariant i < n && Dist(i, f, n) <= Dist(last, f, n)
        invariant forall q: nat :: q < n && Between(last, q, i) ==> used[q] && IdOf(keys[q]) != id
        decreases Dist(i, f, n)
      {
        MaskWraps(i + 1, bits);
        i := BitAnd(i + 1, n - 1);
        assert i != last;
        if i == last {
          wrapped := true;
          break;
        }
      }
    }

    /** A probe of a valid table decides membership. */
    method Probe(id: Id<K>) returns (i: nat, wrapped: bool)
      requires Valid() && keys.Length != 0 && Agrees(id)
      ensures !wrapped && i < End()
      ensures used[i] <==> id in entries
      ensures used[i] ==> Holds(keys[..], used[..], id, i)
      ensures forall q: nat :: q < End() && Between(Home(id.hash, bits), q, i) ==> used[q]
    {
      Pow2Four(bits);
      SlotsAgree(keys[..], used[..], entries);
      i, wrapped := Scan(id, Home(id.hash, bits));
      if !used[i] {
        ProbeMiss(keys[..], used[..], bits, entries, id, i);
      } else {
        assert Holds(keys[..], used[..], id, i);
      }
    }

    /** getp: the bucket of the key, or kh_end. */
    method Get(id: Id<K>) returns (r: nat)
      requires Valid() && Agrees(id)
      ensures r <= End()
      ensures r < End() <==> id in entries
      ensures r < End() ==> r < keys.Length == used.Length
      ensures r < End() ==> used[r] && IdOf(keys[r]) == id && entries[id] == keys[r].val
    {
      if keys.Length == 0 {
        return 0;
      }
      Pow2Four(bits);
      var i, wrapped := Probe(id);
      return if wrapped || !used[i] then Pow2(bits) else i;
    }

    /** putp: absent is 1 if the bucket was inserted, 0 if an equal key was there (left untouched). */
    method Put(b: Bucket<K, V>) returns (i: nat, absent: int)
      requires Valid() && count < MAX_ENTRIES && Agrees(IdOf(b))
      modifies this, keys, used
      ensures Valid() && i < End() && i < keys.Length && i < used.Length
      ensures used[i] && IdOf(keys[i]) == IdOf(b) && entries[IdOf(b)] == keys[i].val
      ensures absent == (if IdOf(b) in old(entries) then 0 else 1)
      ensures entries == if IdOf(b) in old(entries) then old(entries) else old(entries)[IdOf(b) := b.val]
      ensures keys == old(keys) || fresh(keys)
      ensures used == old(used) || fresh(used)
      ensures old(count) < Load(old(End())) ==> keys == old(keys) && used == old(used) && bits == old(bits)
      ensures 4 * old(count) < 3 * old(End()) ==> keys == old(keys) && used == old(used) && bits == old(bits)
    {
      hide Represents;
      hide Chained;
      var n := End();
      if keys.Length != 0 {
        LoadIs(bits);
      }
      if count >= Load(n) {
        ghost var bigger := if keys.Length == 0 then 2 else bits + 1;
        GrowthBits(n, bits, count, keys.Length == 0);
        Resize(n + 1);
        assert bits == bigger;
      }
      i, absent := ProbeAndInsert(b);
    }

    /** The part of putp after the rehash check. */
    method ProbeAndInsert(b: Bucket<K, V>) returns (i: nat, absent: int)
      requires Valid() && keys.Length != 0 && count < Load(End()) && Agrees(IdOf(b))
      modifies this`count, this`entries, keys, used
      ensures Valid() && i < End() && i < keys.Length && i < used.Length
      ensures used[i] && IdOf(keys[i]) == IdOf(b) && entries[IdOf(b)] == keys[i].val
      ensures absent == (if IdOf(b) in old(entries) then 0 else 1)
      ensures entries == if IdOf(b) in old(entries) then old(entries) else old(entries)[IdOf(b) := b.val]
    {
      hide Represents;
      hide Chained;
      ghost var k, u := keys[..], used[..];
      var wrapped: bool;
      i, wrapped := Probe(IdOf(b));
      if !used[i] {
        Insert(k, u, bits, count, entries, i, b);
        keys[i] := b;
        used[i] := true;
        count := count + 1;
        absent := 1;
        entries := entries[IdOf(b) := b.val];
        assert keys[..] == k[i := b] && used[..] == u[i := true];
      } else {
        ValAt(i);
        absent := 0;
      }
    }

    /** Also an unallocated table represents its (empty) entries. */
    lemma Contents()
      requires Valid()
      ensures keys.Length == used.Length && Represents(keys[..], used[..], entries)
      ensures count == |entries| == |UsedSet(used[..])| && keys.Length == End()
      ensures 4 * count <= 3 * End()
    {
      if keys.Length != 0 {
        LoadIs(bits);
      }
    }

    /** A used slot holds its entry's value. */
    lemma ValAt(i: nat)
      requires Valid() && i < End() && used[i]
      ensures IdOf(keys[i]) in entries && entries[IdOf(keys[i])] == keys[i].val
    {
      assert Holds(keys[..], used[..], IdOf(keys[i]), i);
    }

    /** kh_val(h, i) = v, for a stored bucket. */
    method SetVal(i: nat, v: V)
      requires Valid() && i < End() && used[i]
      modifies this`entries, keys
      ensures Valid() && entries == old(entries)[IdOf(old(keys[i])) := v]
    {
      hide Represents;
      hide Chained;
      ghost var k := keys[..];
      Revalue(k, used[..], bits, count, entries, i, v);
      entries := entries[IdOf(keys[i]) := v];
      keys[i] := keys[i].(val := v);
      assert keys[..] == k[i := k[i].(val := v)];
    }

    /** put, then kh_val(h, i) = v, as every map client does. */
    method Store(b: Bucket<K, V>) returns (absent: int)
      requires Valid() && count < MAX_ENTRIES && Agrees(IdOf(b))
      modifies this, keys, used
      ensures Valid() && entries == old(entries)[IdOf(b) := b.val]
      ensures absent == if IdOf(b) in old(entries) then 0 else 1
      ensures keys == old(keys) || fresh(keys)
      ensures used == old(used) || fresh(used)
      ensures old(count) < Load(old(End())) ==> keys == old(keys) && used == old(used) && bits == old(bits)
    {
      hide Represents;
      hide Chained;
      var i: nat;
      i, absent := Put(b);
      SetVal(i, b.val);
    }

    /** kh_foreach: the stored buckets, each once, in slot order. */
    method Each() returns (s: seq<Bucket<K, V>>)
      requires Valid()
      ensures Enumerates(s, entries)
    {
      hide TableOk;
      hide Represents;
      Contents();
      s := [];
      ghost var at: seq<nat> := [];
      for p := 0 to End()
        invariant |at| == |s| && forall i :: 0 <= i < |at| ==> at[i] < p && used[at[i]] && keys[at[i]] == s[i]
        invariant forall i, j :: 0 <= i < j < |at| ==> at[i] < at[j]
        invariant forall q: nat :: q < p && used[q] ==> q in at
      {
        if used[p] {
          s, at := s + [keys[p]], at + [p];
        }
      }
      EnumeratesSlots(keys[..], used[..], entries, s, at);
    }

    /** del: removes the bucket at an occupied index by shifting its cluster back. */
    method Del(at: nat) returns (r: int)
      requires Valid() && (keys.Length != 0 ==> at < End() && used[at])
      modifies this`count, this`entries, keys, used
      ensures Valid()
      ensures keys.Length == 0 ==> r == 0 && entries == old(entries)
      ensures keys.Length != 0 ==> r == 1 && entries == old(entries) - {IdOf(old(keys[at]))}
    {
      hide Represents;
      hide Chained;
      hide Shifting;
      if keys.Length == 0 {
        return 0;
      }
      ShiftStart(keys[..], used[..], bits, entries, at);
      entries := entries - {IdOf(keys[at])};
      var i := ShiftBack(at);
      ghost var u := used[..];
      used[i] := false;
      count := count - 1;
      assert used[..] == u[i := false];
      return 1;
    }

    lemma ShiftAgrees(i: nat, j0: nat, j: nat)
      requires Shifting(keys[..], used[..], bits, entries, i, j0) && Coherent(entries)
      requires j < used.Length && j != i && used[j]
      ensures j < keys.Length && HashOf(keys[j]) == keys[j].hash
    {
      assert Holds(keys[..], used[..][i := false], IdOf(keys[j]), j);
    }

    /** The loop of del: carries the hole to the end of its cluster and returns where it ends up. */
    method ShiftBack(at: nat) returns (i: nat)
      requires 2 <= bits <= 31
      requires Shifting(keys[..], used[..], bits, entries, at, at)
      requires |entries| + 1 == |UsedSet(used[..])| <= Load(Pow2(bits)) && Coherent(entries)
      modifies keys
      ensures i < used.Length && TableOk(keys[..], used[..][i := false], bits, |entries|, entries)
    {
      hide Represents;
      hide ChainedBut;
      hide Settled;
      hide Home;
      hide BitAnd;
      hide Pow2;
      Pow2Four(bits);
      ghost var k, u := keys[..], used[..];
      ghost var f := FreeSlot(u);
      var j, n := at, Pow2(bits);
      i := at;
      ghost var j0 := j;
      while true
        invariant keys[..] == k && Shifting(k, u, bits, entries, i, j)
        invariant u[j] && Dist(j, f, n) <= Dist(i, f, n)
        decreases Dist(j, f, n)
      {
        j0 := j;
        MaskWraps(j + 1, bits);
        j := BitAnd(j + 1, n - 1);
        assert j != i;
        if j == i || !used[j] {
          break;
        }
        ShiftAgrees(i, j0, j);
        ShiftRound(k, u, bits, entries, i, j0, j);
        if ShouldMove(i, j, Home(HashOf(keys[j]), bits)) {
          keys[i] := keys[j];
          i := j;
          k := keys[..];
        }
      }
      ShiftEnd(k, u, bits, entries, i, j0, j);
    }

    /**
      resize: rehashes in place into the smallest power of two of at least `want` (and 4) buckets, or
      does nothing if that could not hold the entries below the load threshold.
    */
    method Resize(want: uint32)
      requires Valid() && want <= 0x8000_0000
      modifies this, keys, used
      ensures Valid() && entries == old(entries) && count == old(count)
      ensures keys == old(keys) || fresh(keys)
      ensures used == old(used) || fresh(used)
      ensures forall b :: BitsCover(want, b) ==>
        if count <= Load(Pow2(b)) then keys.Length != 0 && bits == b
        else bits == old(bits) && keys == old(keys) && used == old(used)
             && keys[..] == old(keys[..]) && used[..] == old(used[..])
    {
      hide TableOk;
      var newBits := BucketBits(want);
      forall b | BitsCover(want, b) ensures b == newBits {
        BitsCoverUnique(want, b, newBits);
      }
      if count <= Load(Pow2(newBits)) {
        Rehash(newBits);
      }
    }

    method Rehash(newBits: nat)
      requires Valid() && 2 <= newBits <= 31 && count <= Load(Pow2(newBits))
      modifies this, keys, used
      ensures Valid() && keys.Length != 0 && entries == old(entries) && count == old(count) && bits == newBits
      ensures keys == old(keys) || fresh(keys)
      ensures fresh(used)
    {
      hide TableOk;
      hide Represents;
      var newN, n := Pow2(newBits), End();
      var newUsed := new bool[newN](_ => false);
      ghost var k := keys[..];
      Contents();
      if n < newN {
        keys := Realloc(keys, newN);
      }
      MoveInto(used, newUsed, newBits, k);
      k := keys[..];
      if n > newN {
        keys := Realloc(keys, newN);
      }
      assert keys[..] == k[..newN];
      used, bits := newUsed, newBits;
    }

    method MoveInto(oldUsed: array<bool>, newUsed: array<bool>, newBits: nat, ghost before: seq<Bucket<K, V>>)
      requires oldUsed != newUsed && |before| == oldUsed.Length && before <= keys[..]
      requires Represents(before, oldUsed[..], entries) && |entries| == |UsedSet(oldUsed[..])|
      requires 2 <= newBits <= 31 && newUsed.Length == Pow2(newBits) <= keys.Length
      requires Coherent(entries)
      requires |entries| <= Load(newUsed.Length) && forall p :: 0 <= p < newUsed.Length ==> !newUsed[p]
      modifies keys, oldUsed, newUsed
      ensures TableOk(keys[..][..newUsed.Length], newUsed[..], newBits, |entries|, entries)
    {
      hide Rehashing;
      hide Represents;
      RehashStart(before, keys[..], oldUsed[..], newUsed[..], newBits, entries);
      MoveAll(oldUsed, newUsed, newBits);
      RehashEnd(keys[..], oldUsed[..], newUsed[..], newBits, entries);
    }

    /** The outer loop of a rehash: every old bucket not yet kicked out is moved. */
    method MoveAll(oldUsed: array<bool>, newUsed: array<bool>, newBits: nat)
      requires oldUsed != newUsed && |entries| <= newUsed.Length && Coherent(entries)
      requires Rehashing(keys[..], oldUsed[..], newUsed[..], newBits, entries)
      modifies keys, oldUsed, newUsed
      ensures Rehashing(keys[..], oldUsed[..], newUsed[..], newBits, entries)
      ensures UsedSet(oldUsed[..]) == {}
    {
      hide Rehashing;
      ghost var k, o, u := keys[..], oldUsed[..], newUsed[..];
      for j := 0 to oldUsed.Length
        invariant keys[..] == k && oldUsed[..] == o && newUsed[..] == u
        invariant Rehashing(k, o, u, newBits, entries)
        invariant forall p :: p in UsedSet(o) ==> j <= p
      {
        if oldUsed[j] {
          Move(oldUsed, newUsed, newBits, j);
          k, o, u := keys[..], oldUsed[..], newUsed[..];
        }
      }
    }

    method Move(oldUsed: array<bool>, newUsed: array<bool>, newBits: nat, j: nat)
      requires oldUsed != newUsed && |entries| <= newUsed.Length && Coherent(entries)
      requires Rehashing(keys[..], oldUsed[..], newUsed[..], newBits, entries)
      requires j < oldUsed.Length && oldUsed[j]
      modifies keys, oldUsed, newUsed
      ensures Rehashing(keys[..], oldUsed[..], newUsed[..], newBits, entries)
      ensures UsedSet(oldUsed[..]) <= old(UsedSet(oldUsed[..])) - {j}
    {
      hide Represents;
      hide Chained;
      var key := keys[j];
      ghost var k, o, u := keys[..], oldUsed[..], newUsed[..];
      RehashLift(k, o, u, newBits, entries, j);
      oldUsed[j] := false;
      assert keys[..] == k && oldUsed[..] == o[j := false] && newUsed[..] == u;
      assert UsedSet(o[j := false]) == UsedSet(o) - {j};
      Relocate(oldUsed, newUsed, newBits, key, entries);
    }

    /**
      One round of the kick-out process: writes the bucket in hand to its slot in the new table
      and takes out the bucket of the old table that lived there, if any.
    */
    method Place(oldUsed: array<bool>, newUsed: array<bool>, newBits: nat, key: Bucket<K, V>)
      returns (i: nat, kicked: bool, tenant: Bucket<K, V>)
      requires newBits <= 32 && newUsed.Length == Pow2(newBits) && |UsedSet(newUsed[..])| < newUsed.Length
      requires oldUsed != newUsed && newUsed.Length <= keys.Length && oldUsed.Length <= keys.Length
      requires Agrees(IdOf(key))
      modifies keys, oldUsed, newUsed
      ensures i < newUsed.Length && !old(newUsed[i]) && tenant == old(keys[i])
      ensures forall q: nat :: q < newUsed.Length && Between(Home(key.hash, newBits), q, i) ==> old(newUsed[q])
      ensures kicked <==> i < oldUsed.Length && old(oldUsed[i])
      ensures keys[..] == old(keys[..])[i := key] && newUsed[..] == old(newUsed[..])[i := true]
      ensures oldUsed[..] == if kicked then old(oldUsed[..])[i := false] else old(oldUsed[..])
    {
      i := FirstFree(newUsed, Home(HashOf(key), newBits), newBits);
      newUsed[i] := true;
      tenant := keys[i];
      keys[i] := key;
      kicked := i < oldUsed.Length && oldUsed[i];
      if kicked {
        oldUsed[i] := false;
      }
    }

    /** Moves the bucket in hand, and every bucket kicked out on the way, to the new table. */
    method Relocate(oldUsed: array<bool>, newUsed: array<bool>, newBits: nat, first: Bucket<K, V>,
                    ghost m: map<Id<K>, V>)
      requires oldUsed != newUsed && IdOf(first) in m && m[IdOf(first)] == first.val
      requires Rehashing(keys[..], oldUsed[..], newUsed[..], newBits, m - {IdOf(first)})
      requires |m| <= newUsed.Length && Coherent(m)
      modifies keys, oldUsed, newUsed
      ensures Rehashing(keys[..], oldUsed[..], newUsed[..], newBits, m)
      ensures UsedSet(oldUsed[..]) <= old(UsedSet(oldUsed[..]))
    {
      hide Represents;
      hide Chained;
      ghost var k0, o0, n0 := keys[..], oldUsed[..], newUsed[..];
      var key, kicked := first, true;
      while kicked
        invariant keys[..] == k0 && oldUsed[..] == o0 && newUsed[..] == n0
        invariant kicked ==> IdOf(key) in m && m[IdOf(key)] == key.val
        invariant Rehashing(k0, o0, n0, newBits, if kicked then m - {IdOf(key)} else m)
        invariant UsedSet(o0) <= old(UsedSet(oldUsed[..]))
        decreases |UsedSet(o0)|, kicked
      {
        RehashRoom(k0, o0, n0, newBits, m, IdOf(key));
        var i, again, tenant := Place(oldUsed, newUsed, newBits, key);
        RehashRound(k0, o0, n0, newBits, m, i, key);
        k0, n0 := keys[..], newUsed[..];
        o0 := oldUsed[..];
        key, kicked := tenant, again;
      }
    }
  }
}
