/** Scanning a document's byte-sorted term list for the terms of one prefix. */
module TermScan {
  import opened Strings

  /** Byte order. */
  predicate Less(a: string, b: string) {
    b != "" && (a == "" || a[0] < b[0] || (a[0] == b[0] && Less(a[1..], b[1..])))
  }

  predicate Sorted(terms: seq<string>) { forall i, j :: 0 <= i < j < |terms| ==> Less(terms[i], terms[j]) }

  lemma {:induction false} LessTransitive(a: string, b: string, c: string)
    requires Less(a, b) && Less(b, c)
    ensures Less(a, c)
  {
    if a != "" && a[0] == b[0] && b[0] == c[0] {
      LessTransitive(a[1..], b[1..], c[1..]);
    }
  }

  lemma {:induction false} PrefixNotAbove(p: string, s: string)
    requires StartsWith(s, p)
    ensures !Less(s, p)
  {
    if p != "" {
      assert s[0] == p[0] && s[1..][..|p| - 1] == p[1..];
      PrefixNotAbove(p[1..], s[1..]);
    }
  }

  /** Past a term at or above the prefix that lacks it, no term has it. */
  lemma {:induction false} PrefixBlockEnds(p: string, t: string, u: string)
    requires !Less(t, p) && !StartsWith(t, p) && Less(t, u)
    ensures !StartsWith(u, p)
  {
    if p != "" && t != "" && u != "" && t[0] == p[0] && u[0] == p[0] {
      StartsWithCons(t, p);
      StartsWithCons(u, p);
      PrefixBlockEnds(p[1..], t[1..], u[1..]);
    }
  }

  /** A wanted term: it has the prefix and, if a length is given, that many characters after it. */
  predicate Wanted(t: string, pfx: string, len: nat) {
    StartsWith(t, pfx) && (len == 0 || |t| - |pfx| == len)
  }

  /** What a full pass over the list would give: the wanted terms without the prefix. */
  function Filter(terms: seq<string>, pfx: string, len: nat): seq<string> {
    if terms == [] then []
    else
      var t := terms[|terms| - 1];
      Filter(terms[..|terms| - 1], pfx, len) + if Wanted(t, pfx, len) then [t[|pfx|..]] else []
  }

  lemma {:induction false} FilterNone(terms: seq<string>, from: nat, pfx: string, len: nat)
    requires from <= |terms| && forall i :: from <= i < |terms| ==> !StartsWith(terms[i], pfx)
    ensures Filter(terms, pfx, len) == Filter(terms[..from], pfx, len)
    decreases |terms|
  {
    if from == |terms| {
      assert terms[..from] == terms;
    } else {
      var n := |terms| - 1;
      assert terms[..n][..from] == terms[..from];
      FilterNone(terms[..n], from, pfx, len);
    }
  }

  /** Byte order is decided by the first byte that differs, or by which string ends first. */
  lemma {:induction false} LessIs(a: string, b: string, k: nat)
    requires k <= |a| && k <= |b| && a[..k] == b[..k]
    requires k < |a| && k < |b| ==> a[k] != b[k]
    requires k == |a| || k == |b| || a[k] != b[k]
    ensures Less(a, b) <==> k < |b| && (k == |a| || a[k] < b[k])
  {
    if k > 0 {
      assert a[0] == a[..k][0] && b[0] == b[..k][0];
      assert a[1..][..k - 1] == a[..k][1..] && b[1..][..k - 1] == b[..k][1..];
      LessIs(a[1..], b[1..], k - 1);
    }
  }

  lemma {:induction false} LessBehind(p: string, a: string, b: string)
    ensures Less(p + a, p + b) <==> Less(a, b)
  {
    if p == "" {
      assert p + a == a && p + b == b;
    } else {
      assert (p + a)[1..] == p[1..] + a && (p + b)[1..] == p[1..] + b;
      LessBehind(p[1..], a, b);
    }
  }

  /** The rest of a term after the prefix is wanted: of any length, or of the given one. */
  predicate Holds(terms: seq<string>, pfx: string, len: nat, x: string) {
    pfx + x in terms && (len == 0 || |x| == len)
  }

  /** What the filter gives: the wanted rests and nothing else, each once and in byte order. */
  lemma {:induction false} FilterHolds(terms: seq<string>, pfx: string, len: nat)
    requires Sorted(terms)
    ensures forall x :: x in Filter(terms, pfx, len) <==> Holds(terms, pfx, len, x)
    ensures Sorted(Filter(terms, pfx, len))
  {
    if terms != [] {
      var n := |terms| - 1;
      var t, front := terms[n], terms[..n];
      FilterHolds(front, pfx, len);
      assert terms == front + [t];
      var before := Filter(front, pfx, len);
      if Wanted(t, pfx, len) {
        var last := t[|pfx|..];
        assert t == pfx + last;
        forall x ensures pfx + x == t <==> x == last {
          assert x == (pfx + x)[|pfx|..];
        }
        forall i | 0 <= i < |before| ensures Less(before[i], last) {
          assert before[i] in before && Holds(front, pfx, len, before[i]);
          LessBehind(pfx, before[i], last);
        }
      } else {
        forall x ensures !(pfx + x == t && (len == 0 || |x| == len)) {
          assert (pfx + x)[..|pfx|] == pfx;
        }
      }
    }
  }

  /** TermIterator::skip_to: the first term at or above the prefix. */
  method SkipTo(terms: seq<string>, pfx: string) returns (i: nat)
    ensures i <= |terms| && (i < |terms| ==> !Less(terms[i], pfx))
    ensures forall k :: 0 <= k < i ==> Less(terms[k], pfx)
  {
    i := 0;
    while i < |terms| && Less(terms[i], pfx)
      invariant i <= |terms| && forall k :: 0 <= k < i ==> Less(terms[k], pfx)
    {
      i := i + 1;
    }
  }

  /**
    dump_roots_term, dump_ibx_term: skip to the prefix, stop at the first term without it. On a sorted
    list this emits exactly what a full pass would, in order.
  */
  method Scan(terms: seq<string>, pfx: string, len: nat) returns (out: seq<string>)
    requires Sorted(terms)
    ensures out == Filter(terms, pfx, len)
    ensures forall x :: x in out <==> pfx + x in terms && (len == 0 || |x| == len)
    ensures Sorted(out)
  {
    FilterHolds(terms, pfx, len);
    var i := SkipTo(terms, pfx);
    forall k | 0 <= k < i ensures !StartsWith(terms[k], pfx) {
      if StartsWith(terms[k], pfx) {
        PrefixNotAbove(pfx, terms[k]);
        assert false;
      }
    }
    FilterNone(terms[..i], 0, pfx, len);
    assert terms[..i][..0] == [];
    ghost var start := i;
    out := [];
    while i < |terms|
      invariant start <= i <= |terms| && out == Filter(terms[..i], pfx, len)
    {
      var t := terms[i];
      assert terms[..i + 1][..i] == terms[..i];
      if !StartsWith(t, pfx) {
        break;
      }
      if len == 0 || |t| - |pfx| == len {
        out := out + [t[|pfx|..]];
      }
      i := i + 1;
    }
    assert terms[..|terms|] == terms;
    if i < |terms| {
      NotBelow(terms, start, i, pfx);
      forall k | i <= k < |terms| ensures !StartsWith(terms[k], pfx) {
        if k > i {
          PrefixBlockEnds(pfx, terms[i], terms[k]);
        }
      }
      FilterNone(terms, i, pfx, len);
    }
  }

  lemma NotBelow(terms: seq<string>, start: nat, i: nat, pfx: string)
    requires Sorted(terms) && start <= i < |terms| && !Less(terms[start], pfx)
    ensures !Less(terms[i], pfx)
  {
    if start < i && Less(terms[i], pfx) {
      LessTransitive(terms[start], terms[i], pfx);
    }
  }
}
