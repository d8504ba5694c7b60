/**
  The khashl open-addressing hash table: linear probing over a power-of-two array,
  an in-place kick-out rehash, and deletion by backward shift.

  Buckets carry their hash, as in the cached-hash set and map forms, which are the two
  forms the search helper instantiates; in the plain forms it is always the hash of the key.
*/
module Khashl {
  import opened Bits

  datatype Bucket<K, V> = Bucket(key: K, val: V, hash: uint32)

  /** What the cached-hash equality compares: the hash and the key. */
  datatype Id<K> = Id(key: K, hash: uint32)

  function IdOf<K, V>(b: Bucket<K, V>): Id<K> { Id(b.key, b.hash) }

  /** __kh_h2b: Fibonacci hashing to the top `bits` bits of the 32-bit product. */
  function Home(hash: uint32, bits: nat): (i: nat)
    requires bits <= 32
    ensures i < Pow2(bits)
  {
    var product := hash * 2654435769 % 0x1_0000_0000;
    Pow2Of32();
    ShrBound(product, 32 - bits, bits);
    Shr(product, 32 - bits)
  }

  /** The load threshold, three quarters of the buckets. */
  function Load(n: nat): nat { n / 2 + n / 4 }

  /** The home bucket is the number that the top bits of the 32-bit product spell. */
  lemma HomeIsTopBits(hash: uint32, bits: nat)
    requires bits <= 32
    ensures var product, low := hash * 0x9e3779b9 % 0x1_0000_0000, Pow2(32 - bits);
      Home(hash, bits) * low <= product < Home(hash, bits) * low + low
  {
    ShrBounds(hash * 2654435769 % 0x1_0000_0000, 32 - bits);
  }

  /** Of 2^bits buckets, at least four, the threshold is exactly three quarters. */
  lemma LoadIs(bits: nat)
    requires 2 <= bits
    ensures 4 * Load(Pow2(bits)) == 3 * Pow2(bits)
  {
    Pow2Four(bits);
  }

  function Next(i: nat, n: nat): nat { if i + 1 == n then 0 else i + 1 }

  /** q lies in the cyclic interval [h, p). */
  predicate Between(h: nat, q: nat, p: nat) {
    if h <= p then h <= q < p else h <= q || q < p
  }

  /** Steps of a cyclic scan from i to f. */
  function Dist(i: nat, f: nat, n: nat): int { if i <= f then f - i else f - i + n }

  function Homes<K, V>(keys: seq<Bucket<K, V>>, bits: nat): (h: seq<nat>)
    requires bits <= 32
    ensures |h| == |keys|
    ensures forall p :: 0 <= p < |keys| ==> h[p] == Home(keys[p].hash, bits)
  {
    seq(|keys|, p requires 0 <= p < |keys| => Home(keys[p].hash, bits))
  }

  ghost function UsedSet(used: seq<bool>): set<nat> {
    set p: nat | p < |used| && used[p]
  }

  /** The probe invariant: no free slot between a used bucket's home and its position. */
  ghost predicate Chained(homes: seq<nat>, used: seq<bool>)
    requires |homes| == |used|
  {
    forall p: nat, q: nat :: p < |used| && q < |used| && used[p] && Between(homes[p], q, p) ==> used[q]
  }

  ghost predicate Holds<K, V>(keys: seq<Bucket<K, V>>, used: seq<bool>, id: Id<K>, p: nat)
    requires |keys| == |used|
  {
    p < |used| && used[p] && IdOf(keys[p]) == id
  }

  /** The used buckets are exactly the entries of m, each stored once. */
  ghost predicate Represents<K(!new), V>(keys: seq<Bucket<K, V>>, used: seq<bool>, m: map<Id<K>, V>)
    requires |keys| == |used|
  {
    && (forall id, p: nat :: Holds(keys, used, id, p) ==> id in m && m[id] == keys[p].val)
    && (forall id :: id in m ==> exists p: nat :: Holds(keys, used, id, p))
    && (forall id, p: nat, q: nat :: Holds(keys, used, id, p) && Holds(keys, used, id, q) ==> p == q)
  }

  // ---------------------------------------------------------------- one-slot changes

  lemma TakeOut<K(!new), V>(keys: seq<Bucket<K, V>>, used: seq<bool>, m: map<Id<K>, V>, i: nat)
    requires |keys| == |used| && Represents(keys, used, m) && i < |used| && used[i]
    ensures IdOf(keys[i]) in m && m[IdOf(keys[i])] == keys[i].val
    ensures Represents(keys, used[i := false], m - {IdOf(keys[i])})
    ensures |m - {IdOf(keys[i])}| == |m| - 1
  {
    var x := IdOf(keys[i]);
    assert Holds(keys, used, x, i);
    var u := used[i := false];
    forall id, p: nat ensures Holds(keys, u, id, p) <==> Holds(keys, used, id, p) && p != i {
    }
    assert (m - {x}).Keys == m.Keys - {x};
  }

  lemma MapGrows<X, Y>(m: map<X, Y>, x: X, y: Y)
    requires x !in m
    ensures |m[x := y]| == |m| + 1
  {
    assert m[x := y].Keys == m.Keys + {x};
  }

  lemma PutIn<K(!new), V>(keys: seq<Bucket<K, V>>, used: seq<bool>, m: map<Id<K>, V>, i: nat, b: Bucket<K, V>)
    requires |keys| == |used| && Represents(keys, used, m) && i < |used| && !used[i]
    requires IdOf(b) !in m
    ensures Represents(keys[i := b], used[i := true], m[IdOf(b) := b.val])
    ensures |m[IdOf(b) := b.val]| == |m| + 1
  {
    var k, u := keys[i := b], used[i := true];
    assert Holds(k, u, IdOf(b), i);
    forall id, p: nat ensures Holds(k, u, id, p) <==> if p == i then id == IdOf(b) else Holds(keys, used, id, p) {
    }
    MapGrows(m, IdOf(b), b.val);
  }

  lemma UsedSetChange(used: seq<bool>, i: nat)
    requires i < |used|
    ensures used[i] ==> |UsedSet(used[i := false])| == |UsedSet(used)| - 1
    ensures !used[i] ==> |UsedSet(used[i := true])| == |UsedSet(used)| + 1
  {
    if used[i] {
      assert UsedSet(used[i := false]) == UsedSet(used) - {i};
    } else {
      assert UsedSet(used[i := true]) == UsedSet(used) + {i};
    }
  }

  lemma {:induction false} UsedSetBound(used: seq<bool>)
    ensures |UsedSet(used)| <= |used|
    ensures (forall p: nat :: p < |used| ==> used[p]) ==> |UsedSet(used)| == |used|
  {
    if used == [] {
      assert UsedSet(used) == {};
    } else {
      var n := |used| - 1;
      UsedSetBound(used[..n]);
      assert UsedSet(used) == if used[n] then UsedSet(used[..n]) + {n} else UsedSet(used[..n]);
    }
  }

  lemma FreeSlot(used: seq<bool>) returns (f: nat)
    requires |UsedSet(used)| < |used|
    ensures f < |used| && !used[f]
  {
    UsedSetBound(used);
    f :| f < |used| && !used[f];
  }

  lemma NoneUsed(used: seq<bool>)
    requires forall p: nat :: p < |used| ==> !used[p]
    ensures UsedSet(used) == {}
  {
  }

  /** Filling the first free slot of a probe keeps the probe invariant. */
  lemma ChainExtends(homes: seq<nat>, used: seq<bool>, i: nat, h: nat)
    requires |homes| == |used| && Chained(homes, used) && i < |used| && h < |used| && !used[i]
    requires forall q: nat :: q < |used| && Between(h, q, i) ==> used[q]
    ensures Chained(homes[i := h], used[i := true])
  {
  }

  // ---------------------------------------------------------------- probing

  /** A probe that met only other used buckets up to a free slot proves absence. */
  lemma ProbeMiss<K(!new), V>(keys: seq<Bucket<K, V>>, used: seq<bool>, bits: nat, m: map<Id<K>, V>, id: Id<K>, i: nat)
    requires |keys| == |used| == Pow2(bits) && bits <= 32
    requires Represents(keys, used, m) && Chained(Homes(keys, bits), used)
    requires i < |used| && !used[i]
    requires forall q: nat :: q < |used| && Between(Home(id.hash, bits), q, i) ==> IdOf(keys[q]) != id
    ensures id !in m
  {
    hide Home;
    hide Represents;
    hide Pow2;
    forall p: nat ensures !Holds(keys, used, id, p) {
      if p < |used| && used[p] {
        var home := Home(keys[p].hash, bits);
        assert Homes(keys, bits)[p] == home && !Between(home, i, p);
        assert Between(home, p, i);
      }
    }
    NotHeld(keys, used, m, id);
  }

  lemma NotHeld<K(!new), V>(keys: seq<Bucket<K, V>>, used: seq<bool>, m: map<Id<K>, V>, id: Id<K>)
    requires |keys| == |used| && Represents(keys, used, m) && forall p: nat :: !Holds(keys, used, id, p)
    ensures id !in m
  {
  }

  // ---------------------------------------------------------------- the table invariant

  ghost predicate TableOk<K(!new), V>(keys: seq<Bucket<K, V>>, used: seq<bool>, bits: nat, count: nat,
                                      m: map<Id<K>, V>)
  {
    && 2 <= bits <= 31 && |keys| == |used| == Pow2(bits)
    && Represents(keys, used, m)
    && Chained(Homes(keys, bits), used)
    && count == |m| == |UsedSet(used)|
    && count <= Load(Pow2(bits))
  }

  lemma Insert<K(!new), V>(keys: seq<Bucket<K, V>>, used: seq<bool>, bits: nat, count: nat, m: map<Id<K>, V>, i: nat,
                           b: Bucket<K, V>)
    requires TableOk(keys, used, bits, count, m) && count < Load(Pow2(bits)) && IdOf(b) !in m
    requires i < |used| && !used[i]
    requires forall q: nat :: q < |used| && Between(Home(b.hash, bits), q, i) ==> used[q]
    ensures TableOk(keys[i := b], used[i := true], bits, count + 1, m[IdOf(b) := b.val])
  {
    hide Represents;
    hide Chained;
    PutIn(keys, used, m, i, b);
    UsedSetChange(used, i);
    ChainExtends(Homes(keys, bits), used, i, Home(b.hash, bits));
    assert Homes(keys[i := b], bits) == Homes(keys, bits)[i := Home(b.hash, bits)];
  }

  lemma Emptied<K(!new), V>(keys: seq<Bucket<K, V>>, used: seq<bool>, bits: nat)
    requires 2 <= bits <= 31 && |keys| == |used| == Pow2(bits)
    requires forall p: nat :: p < |used| ==> !used[p]
    ensures TableOk(keys, used, bits, 0, map[])
  {
    NoneUsed(used);
  }

  /** Overwriting the value of a stored bucket. */
  lemma Revalue<K(!new), V>(keys: seq<Bucket<K, V>>, used: seq<bool>, bits: nat, count: nat, m: map<Id<K>, V>, i: nat,
                            v: V)
    requires TableOk(keys, used, bits, count, m) && i < |used| && used[i]
    ensures IdOf(keys[i]) in m
    ensures TableOk(keys[i := keys[i].(val := v)], used, bits, count, m[IdOf(keys[i]) := v])
  {
    hide Represents;
    hide Chained;
    var b := keys[i].(val := v);
    TakeOut(keys, used, m, i);
    PutIn(keys, used[i := false], m - {IdOf(b)}, i, b);
    assert used[i := false][i := true] == used;
    assert (m - {IdOf(b)})[IdOf(b) := v] == m[IdOf(b) := v];
    assert Homes(keys[i := b], bits) == Homes(keys, bits);
  }

  /** s lists every entry of m once. */
  ghost predicate Enumerates<K, V>(s: seq<Bucket<K, V>>, m: map<Id<K>, V>) {
    && (forall i :: 0 <= i < |s| ==> IdOf(s[i]) in m && m[IdOf(s[i])] == s[i].val)
    && (forall i, j :: 0 <= i < j < |s| ==> IdOf(s[i]) != IdOf(s[j]))
    && (forall id :: id in m ==> exists i :: 0 <= i < |s| && IdOf(s[i]) == id)
  }

  lemma EnumeratesSlots<K(!new), V>(keys: seq<Bucket<K, V>>, used: seq<bool>, m: map<Id<K>, V>,
                                    s: seq<Bucket<K, V>>, at: seq<nat>)
    requires |keys| == |used| && Represents(keys, used, m) && |at| == |s|
    requires forall i :: 0 <= i < |at| ==> at[i] < |used| && used[at[i]] && keys[at[i]] == s[i]
    requires forall i, j :: 0 <= i < j < |at| ==> at[i] < at[j]
    requires forall q: nat :: q < |used| && used[q] ==> q in at
    ensures Enumerates(s, m)
  {
    forall i | 0 <= i < |s| ensures Holds(keys, used, IdOf(s[i]), at[i]) {
    }
    forall id | id in m ensures exists i :: 0 <= i < |s| && IdOf(s[i]) == id {
      var p: nat :| Holds(keys, used, id, p);
      var i :| 0 <= i < |at| && at[i] == p;
      assert IdOf(s[i]) == id;
    }
  }

  // ---------------------------------------------------------------- rehash

  /** While rehashing, one key array serves both tables: a slot is taken by the old or the new one. */
  ghost function Occupied(oldUsed: seq<bool>, newUsed: seq<bool>, n: nat): (r: seq<bool>)
    ensures |r| == n
    ensures forall p :: 0 <= p < n ==> r[p] == ((p < |oldUsed| && oldUsed[p]) || (p < |newUsed| && newUsed[p]))
  {
    seq(n, p requires 0 <= p < n => (p < |oldUsed| && oldUsed[p]) || (p < |newUsed| && newUsed[p]))
  }

  /**
    The state of a rehash between two steps: old and new table share no slot, together they hold
    exactly m, and the new one already satisfies the probe invariant for its own size.
  */
  ghost predicate Rehashing<K(!new), V>(keys: seq<Bucket<K, V>>, oldUsed: seq<bool>, newUsed: seq<bool>, bits: nat,
                                        m: map<Id<K>, V>)
  {
    && bits <= 32 && |newUsed| == Pow2(bits) && |newUsed| <= |keys| && |oldUsed| <= |keys|
    && (forall p: nat :: p < |oldUsed| && p < |newUsed| && oldUsed[p] ==> !newUsed[p])
    && Represents(keys, Occupied(oldUsed, newUsed, |keys|), m)
    && Chained(Homes(keys[..|newUsed|], bits), newUsed)
    && |m| == |UsedSet(oldUsed)| + |UsedSet(newUsed)|
  }

  /** Taking a bucket out of the old table. */
  lemma RehashLift<K(!new), V>(keys: seq<Bucket<K, V>>, oldUsed: seq<bool>, newUsed: seq<bool>, bits: nat,
                               m: map<Id<K>, V>, j: nat)
    requires Rehashing(keys, oldUsed, newUsed, bits, m) && j < |oldUsed| && oldUsed[j]
    ensures IdOf(keys[j]) in m && m[IdOf(keys[j])] == keys[j].val
    ensures Rehashing(keys, oldUsed[j := false], newUsed, bits, m - {IdOf(keys[j])})
    ensures |UsedSet(oldUsed[j := false])| == |UsedSet(oldUsed)| - 1
  {
    hide Represents;
    hide Chained;
    var occ := Occupied(oldUsed, newUsed, |keys|);
    TakeOut(keys, occ, m, j);
    UsedSetChange(oldUsed, j);
    assert Occupied(oldUsed[j := false], newUsed, |keys|) == occ[j := false];
  }

  /** Writing the bucket in hand to the first slot of its new probe that is free in both tables. */
  lemma RehashPlace<K(!new), V>(keys: seq<Bucket<K, V>>, oldUsed: seq<bool>, newUsed: seq<bool>, bits: nat,
                                m: map<Id<K>, V>, i: nat, b: Bucket<K, V>)
    requires Rehashing(keys, oldUsed, newUsed, bits, m) && IdOf(b) !in m
    requires i < |newUsed| && !newUsed[i] && !(i < |oldUsed| && oldUsed[i])
    requires forall q: nat :: q < |newUsed| && Between(Home(b.hash, bits), q, i) ==> newUsed[q]
    ensures Rehashing(keys[i := b], oldUsed, newUsed[i := true], bits, m[IdOf(b) := b.val])
  {
    hide Represents;
    hide Chained;
    var occ := Occupied(oldUsed, newUsed, |keys|);
    var n := |newUsed|;
    PutIn(keys, occ, m, i, b);
    UsedSetChange(newUsed, i);
    ChainExtends(Homes(keys[..n], bits), newUsed, i, Home(b.hash, bits));
    assert Occupied(oldUsed, newUsed[i := true], |keys|) == occ[i := true];
    assert keys[i := b][..n] == keys[..n][i := b];
    assert Homes(keys[..n][i := b], bits) == Homes(keys[..n], bits)[i := Home(b.hash, bits)];
  }

  lemma Swap<X, Y>(m: map<X, Y>, a: X, b: X)
    requires a in m && a != b
    ensures (m - {a} - {b})[a := m[a]] == m - {b}
  {
  }

  /** The kick-out step: the bucket in hand takes the slot, its old tenant becomes the one in hand. */
  lemma RehashKick<K(!new), V>(keys: seq<Bucket<K, V>>, oldUsed: seq<bool>, newUsed: seq<bool>, bits: nat,
                               m: map<Id<K>, V>, i: nat, b: Bucket<K, V>)
    requires IdOf(b) in m && m[IdOf(b)] == b.val
    requires Rehashing(keys, oldUsed, newUsed, bits, m - {IdOf(b)})
    requires i < |newUsed| && !newUsed[i] && i < |oldUsed| && oldUsed[i]
    requires forall q: nat :: q < |newUsed| && Between(Home(b.hash, bits), q, i) ==> newUsed[q]
    ensures IdOf(keys[i]) in m && m[IdOf(keys[i])] == keys[i].val
    ensures Rehashing(keys[i := b], oldUsed[i := false], newUsed[i := true], bits, m - {IdOf(keys[i])})
    ensures |UsedSet(oldUsed[i := false])| == |UsedSet(oldUsed)| - 1
  {
    hide Represents;
    hide Chained;
    var rest := m - {IdOf(b)};
    RehashLift(keys, oldUsed, newUsed, bits, rest, i);
    RehashPlace(keys, oldUsed[i := false], newUsed, bits, rest - {IdOf(keys[i])}, i, b);
    Swap(m, IdOf(b), IdOf(keys[i]));
  }

  /** Any round of the kick-out process; the old table shrinks unless the chain ends here. */
  lemma RehashRound<K(!new), V>(keys: seq<Bucket<K, V>>, oldUsed: seq<bool>, newUsed: seq<bool>, bits: nat,
                                m: map<Id<K>, V>, i: nat, b: Bucket<K, V>)
    requires IdOf(b) in m && m[IdOf(b)] == b.val
    requires Rehashing(keys, oldUsed, newUsed, bits, m - {IdOf(b)})
    requires i < |newUsed| && !newUsed[i]
    requires forall q: nat :: q < |newUsed| && Between(Home(b.hash, bits), q, i) ==> newUsed[q]
    ensures i < |oldUsed| && oldUsed[i] ==>
              && IdOf(keys[i]) in m && m[IdOf(keys[i])] == keys[i].val
              && Rehashing(keys[i := b], oldUsed[i := false], newUsed[i := true], bits, m - {IdOf(keys[i])})
              && |UsedSet(oldUsed[i := false])| < |UsedSet(oldUsed)|
              && UsedSet(oldUsed[i := false]) <= UsedSet(oldUsed)
    ensures !(i < |oldUsed| && oldUsed[i]) ==> Rehashing(keys[i := b], oldUsed, newUsed[i := true], bits, m)
  {
    hide Represents;
    hide Chained;
    if i < |oldUsed| && oldUsed[i] {
      RehashKick(keys, oldUsed, newUsed, bits, m, i, b);
    } else {
      RehashPlace(keys, oldUsed, newUsed, bits, m - {IdOf(b)}, i, b);
      assert (m - {IdOf(b)})[IdOf(b) := b.val] == m;
    }
  }

  lemma RehashRoom<K(!new), V>(keys: seq<Bucket<K, V>>, oldUsed: seq<bool>, newUsed: seq<bool>, bits: nat,
                               m: map<Id<K>, V>, id: Id<K>)
    requires Rehashing(keys, oldUsed, newUsed, bits, m - {id}) && id in m && |m| <= |newUsed|
    ensures |UsedSet(newUsed)| < |newUsed|
  {
    hide Represents;
    hide Chained;
    assert (m - {id}).Keys == m.Keys - {id};
  }

  /** A fresh new bitmap beside the old table is the rehash's starting state. */
  lemma RehashStart<K(!new), V>(before: seq<Bucket<K, V>>, keys: seq<Bucket<K, V>>, oldUsed: seq<bool>,
                                newUsed: seq<bool>, bits: nat, m: map<Id<K>, V>)
    requires |before| == |oldUsed| && before <= keys && Represents(before, oldUsed, m)
    requires bits <= 32 && |newUsed| == Pow2(bits) <= |keys|
    requires forall p: nat :: p < |newUsed| ==> !newUsed[p]
    requires |m| == |UsedSet(oldUsed)|
    ensures Rehashing(keys, oldUsed, newUsed, bits, m)
  {
    var occ := Occupied(oldUsed, newUsed, |keys|);
    NoneUsed(newUsed);
    assert forall id, p: nat :: Holds(keys, occ, id, p) <==> Holds(before, oldUsed, id, p);
  }

  /** With the old table emptied, the new one alone holds m in the first 2^bits slots. */
  lemma RehashEnd<K(!new), V>(keys: seq<Bucket<K, V>>, oldUsed: seq<bool>, newUsed: seq<bool>, bits: nat,
                              m: map<Id<K>, V>)
    requires Rehashing(keys, oldUsed, newUsed, bits, m) && UsedSet(oldUsed) == {}
    requires 2 <= bits <= 31 && |m| <= Load(Pow2(bits))
    ensures TableOk(keys[..|newUsed|], newUsed, bits, |m|, m)
  {
    var occ := Occupied(oldUsed, newUsed, |keys|);
    assert forall p: nat :: p < |oldUsed| && oldUsed[p] ==> p in UsedSet(oldUsed);
    assert forall id, p: nat :: Holds(keys[..|newUsed|], newUsed, id, p) <==> Holds(keys, occ, id, p);
  }

  // ---------------------------------------------------------------- backward shift

  /**
    Deletion carries a hole i along the cluster: the buckets other than the hole hold m, every
    probe path is used when the hole counts as used, and no bucket in (i, j] needs the hole.
  */
  ghost predicate Shifting<K(!new), V>(keys: seq<Bucket<K, V>>, used: seq<bool>, bits: nat, m: map<Id<K>, V>, i: nat,
                                       j: nat)
  {
    && bits <= 32 && |keys| == |used| == Pow2(bits) && i < |used| && j < |used| && used[i]
    && Represents(keys, used[i := false], m)
    && ChainedBut(Homes(keys, bits), used, i)
    && Settled(Homes(keys, bits), used, i, j)
  }

  ghost predicate ChainedBut(homes: seq<nat>, used: seq<bool>, i: nat)
    requires |homes| == |used|
  {
    forall p: nat, q: nat ::
      p < |used| && q < |used| && used[p] && p != i && Between(homes[p], q, p) ==> used[q]
  }

  ghost predicate Settled(homes: seq<nat>, used: seq<bool>, i: nat, j: nat)
    requires |homes| == |used|
  {
    forall p: nat :: p < |used| && used[p] && InReach(i, p, j) ==> !Between(homes[p], i, p)
  }

  /** p lies in the cyclic interval (i, j]. */
  predicate InReach(i: nat, p: nat, j: nat) {
    if i <= j then i < p <= j else i < p || p <= j
  }

  /** The condition under which bucket j, homed at k, moves into the hole i. */
  predicate ShouldMove(i: nat, j: nat, k: nat) {
    (j > i && (k <= i || k > j)) || (j < i && (k <= i && k > j))
  }

  lemma ShiftStart<K(!new), V>(keys: seq<Bucket<K, V>>, used: seq<bool>, bits: nat, m: map<Id<K>, V>, i: nat)
    requires bits <= 32 && |keys| == |used| == Pow2(bits) && i < |used| && used[i]
    requires Represents(keys, used, m) && Chained(Homes(keys, bits), used)
    ensures Shifting(keys, used, bits, m - {IdOf(keys[i])}, i, i)
    ensures |m - {IdOf(keys[i])}| == |m| - 1
  {
    TakeOut(keys, used, m, i);
  }

  /** Bucket j reaches its position without the hole and stays. */
  lemma ShiftSkip<K(!new), V>(keys: seq<Bucket<K, V>>, used: seq<bool>, bits: nat, m: map<Id<K>, V>, i: nat,
                              j0: nat, j: nat)
    requires Shifting(keys, used, bits, m, i, j0) && j == Next(j0, |used|) && j != i && used[j]
    requires !ShouldMove(i, j, Home(keys[j].hash, bits))
    ensures Shifting(keys, used, bits, m, i, j)
  {
    SettledSkip(Homes(keys, bits), used, i, j0, j);
  }

  lemma SettledSkip(homes: seq<nat>, used: seq<bool>, i: nat, j0: nat, j: nat)
    requires |homes| == |used| && Settled(homes, used, i, j0) && i < |used| && j0 < |used|
    requires j == Next(j0, |used|) && j != i && !ShouldMove(i, j, homes[j])
    ensures Settled(homes, used, i, j)
  {
  }

  lemma Transfer<K(!new), V>(keys: seq<Bucket<K, V>>, used: seq<bool>, m: map<Id<K>, V>, i: nat, j: nat)
    requires |keys| == |used| && i < |used| && j < |used| && i != j && used[i] && used[j]
    requires Represents(keys, used[i := false], m)
    ensures Represents(keys[i := keys[j]], used[j := false], m)
  {
    hide Represents;
    var without := used[i := false];
    TakeOut(keys, without, m, j);
    PutIn(keys, without[j := false], m - {IdOf(keys[j])}, i, keys[j]);
    assert without[j := false][i := true] == used[j := false];
    assert (m - {IdOf(keys[j])})[IdOf(keys[j]) := keys[j].val] == m;
  }

  /** Bucket j needs the hole: it moves there and leaves the hole behind. */
  lemma ShiftMove<K(!new), V>(keys: seq<Bucket<K, V>>, used: seq<bool>, bits: nat, m: map<Id<K>, V>, i: nat,
                              j0: nat, j: nat)
    requires Shifting(keys, used, bits, m, i, j0) && j == Next(j0, |used|) && j != i && used[j]
    requires ShouldMove(i, j, Home(keys[j].hash, bits))
    ensures Shifting(keys[i := keys[j]], used, bits, m, j, j)
  {
    hide Represents;
    hide ChainedBut;
    hide Settled;
    hide Home;
    hide Pow2;
    Transfer(keys, used, m, i, j);
    MoveKeepsPaths(Homes(keys, bits), used, i, j0, j);
    assert Homes(keys[i := keys[j]], bits) == Homes(keys, bits)[i := Home(keys[j].hash, bits)];
  }

  /** On the homes alone: probe paths survive the move, and the new hole has nothing behind it yet. */
  lemma MoveKeepsPaths(homes: seq<nat>, used: seq<bool>, i: nat, j0: nat, j: nat)
    requires |homes| == |used| && i < |used| && j0 < |used| && j < |used| && used[i] && used[j]
    requires forall p :: 0 <= p < |homes| ==> homes[p] < |used|
    requires ChainedBut(homes, used, i) && Settled(homes, used, i, j0)
    requires j == Next(j0, |used|) && j != i && ShouldMove(i, j, homes[j])
    ensures ChainedBut(homes[i := homes[j]], used, j) && Settled(homes[i := homes[j]], used, j, j)
  {
    var moved := homes[i := homes[j]];
    forall p: nat, q: nat | p < |used| && q < |used| && used[p] && p != j && Between(moved[p], q, p)
      ensures used[q]
    {
      if p == i {
        assert Between(homes[j], q, j) || q == i;
      }
    }
  }

  lemma ShiftRound<K(!new), V>(keys: seq<Bucket<K, V>>, used: seq<bool>, bits: nat, m: map<Id<K>, V>, i: nat, j0: nat,
                               j: nat)
    requires Shifting(keys, used, bits, m, i, j0) && j == Next(j0, |used|) && j != i && used[j]
    ensures if ShouldMove(i, j, Home(keys[j].hash, bits)) then Shifting(keys[i := keys[j]], used, bits, m, j, j)
            else Shifting(keys, used, bits, m, i, j)
  {
    hide Represents;
    hide ChainedBut;
    hide Settled;
    if ShouldMove(i, j, Home(keys[j].hash, bits)) {
      ShiftMove(keys, used, bits, m, i, j0, j);
    } else {
      ShiftSkip(keys, used, bits, m, i, j0, j);
    }
  }

  /** When the scan meets a free slot, the hole can be freed. */
  lemma ShiftEnd<K(!new), V>(keys: seq<Bucket<K, V>>, used: seq<bool>, bits: nat, m: map<Id<K>, V>, i: nat,
                             j0: nat, j: nat)
    requires Shifting(keys, used, bits, m, i, j0) && j == Next(j0, |used|) && j != i && !used[j]
    requires 2 <= bits <= 31 && |m| + 1 == |UsedSet(used)| <= Load(Pow2(bits)) + 1
    ensures TableOk(keys, used[i := false], bits, |m|, m)
  {
    UsedSetChange(used, i);
    var homes := Homes(keys, bits);
    forall p: nat, q: nat | p < |used| && q < |used| && used[i := false][p] && Between(homes[p], q, p)
      ensures used[i := false][q]
    {
      assert used[q];
      if q == i && !InReach(i, p, j0) {
        assert Between(homes[p], j, p);
      }
    }
  }
}
