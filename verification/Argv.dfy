/** NUL framing: splitting a request into arguments, and the encoded option list that keys the cache. */
module Argv {
  import opened Strings

  predicate NulFree(s: string) { forall i :: 0 <= i < |s| ==> s[i] != NUL }

  type CString = s: string | NulFree(s)

  /** The pieces, each followed by its terminator. */
  function Join(pieces: seq<CString>): string {
    if pieces == [] then [] else pieces[0] + [NUL] + Join(pieces[1..])
  }

  lemma {:induction false} JoinAppend(pieces: seq<CString>, piece: CString)
    ensures Join(pieces + [piece]) == Join(pieces) + piece + [NUL]
  {
    if pieces == [] {
      assert pieces + [piece] == [piece];
    } else {
      assert (pieces + [piece])[1..] == pieces[1..] + [piece];
      JoinAppend(pieces[1..], piece);
    }
  }

  /** The terminator ends the first piece unambiguously. */
  lemma {:induction false} CutAtNul(p: CString, x: string, q: CString, y: string)
    requires p + [NUL] + x == q + [NUL] + y
    ensures p == q && x == y
  {
    var s, t := p + [NUL] + x, q + [NUL] + y;
    assert s[|p|] == NUL && forall i :: 0 <= i < |p| ==> s[i] == p[i];
    assert t[|q|] == NUL && forall i :: 0 <= i < |q| ==> t[i] == q[i];
    assert |p| == |q|;
    assert p == s[..|p|] && q == t[..|q|] && x == s[|p| + 1..] && y == t[|q| + 1..];
  }

  lemma {:induction false} JoinInjective(a: seq<CString>, b: seq<CString>)
    requires Join(a) == Join(b)
    ensures a == b
  {
    if a != [] && b != [] {
      CutAtNul(a[0], Join(a[1..]), b[0], Join(b[1..]));
      JoinInjective(a[1..], b[1..]);
      assert a == [a[0]] + a[1..] && b == [b[0]] + b[1..];
    }
  }

  datatype SplitResult = Pieces(nr: nat) | Bogus | TooMany

  /** The C string that starts at offset p of a buffer. */
  function CStringAt(buf: string, p: nat): CString
    requires p <= |buf|
    decreases |buf| - p
  {
    if p == |buf| || buf[p] == NUL then [] else
      var rest: string := CStringAt(buf, p + 1);
      [buf[p]] + rest
  }

  ghost function PiecesAt(buf: string, offsets: seq<nat>): (r: seq<CString>)
    requires forall i :: 0 <= i < |offsets| ==> offsets[i] <= |buf|
    ensures |r| == |offsets| && forall i :: 0 <= i < |r| ==> r[i] == CStringAt(buf, offsets[i])
  {
    seq(|offsets|, i requires 0 <= i < |offsets| => CStringAt(buf, offsets[i]))
  }

  lemma {:induction false} CStringSlice(buf: string, p: nat, i: nat)
    requires p <= i < |buf| && buf[i] == NUL && NulFree(buf[p..i])
    ensures CStringAt(buf, p) == buf[p..i]
    decreases i - p
  {
    if p < i {
      assert buf[p] == buf[p..i][0];
      assert buf[p + 1..i] == buf[p..i][1..];
      CStringSlice(buf, p + 1, i);
    }
  }

  ghost function NulCount(s: string): nat {
    if s == [] then 0 else NulCount(s[..|s| - 1]) + if s[|s| - 1] == NUL then 1 else 0
  }

  /** A request the helper accepts as framed: not empty, no empty first piece, terminated. */
  predicate Framed(buf: string) { |buf| > 0 && buf[0] != NUL && buf[|buf| - 1] == NUL }

  /**
    split2argv: records in dst where each NUL-terminated piece of buf starts. The pieces joined back
    are the buffer, and the call aborts exactly when the framing is wrong or the limit is reached.
  */
  method Split(dst: array<nat>, buf: string, limit: nat) returns (r: SplitResult)
    requires 1 <= limit <= dst.Length
    modifies dst
    ensures r.Bogus? <==> buf == "" || buf[0] == '\0' || buf[|buf| - 1] != '\0'
    ensures r.Bogus? <==> !Framed(buf)
    ensures r.TooMany? <==> Framed(buf) && NulCount(buf) >= limit
    ensures r.Pieces? ==> 0 < r.nr == NulCount(buf) < limit
    ensures r.Pieces? ==> forall i :: 0 <= i < r.nr ==> dst[i] <= |buf|
    ensures r.Pieces? ==> Join(PiecesAt(buf, dst[..r.nr])) == buf
    ensures forall i :: limit <= i < dst.Length ==> dst[i] == old(dst[i])
  {
    if |buf| == 0 || buf[0] == NUL || buf[|buf| - 1] != NUL {
      return Bogus;
    }
    hide Join;
    hide NulCount;
    hide SplitState;
    hide PiecesAt;
    hide CStringAt;
    hide NulFree;
    var nr: nat, c: nat, i: nat := 0, 0, 1;
    ghost var starts: seq<nat> := [];
    SplitStart(buf);
    while i < |buf|
      invariant 1 <= i <= |buf| && SplitState(buf, i, c, starts) && nr == |starts| < limit && dst[..nr] == starts
      invariant forall k :: limit <= k < dst.Length ==> dst[k] == old(dst[k])
    {
      SplitStep(buf, i, c, starts);
      if buf[i] == NUL {
        dst[nr] := c;
        assert dst[..nr + 1] == starts + [c];
        starts := starts + [c];
        nr, c := nr + 1, i + 1;
      }
      if nr == limit {
        SplitCount(buf, i + 1, c, starts);
        NulCountMonotone(buf, i + 1);
        return TooMany;
      }
      i := i + 1;
    }
    SplitDone(buf, c, starts);
    return Pieces(nr);
  }

  lemma SplitCount(buf: string, i: nat, c: nat, starts: seq<nat>)
    requires SplitState(buf, i, c, starts)
    ensures |starts| == NulCount(buf[..i])
  {
  }

  /** At the end of a framed request the pieces make it up. */
  lemma SplitDone(buf: string, c: nat, starts: seq<nat>)
    requires SplitState(buf, |buf|, c, starts) && Framed(buf)
    ensures forall k :: 0 <= k < |starts| ==> starts[k] <= |buf|
    ensures Join(PiecesAt(buf, starts)) == buf && 0 < |starts| == NulCount(buf)
  {
    assert buf[..|buf|] == buf && c == |buf|;
  }

  /** The split after i bytes: `starts` are the finished pieces, the current one starts at c. */
  ghost predicate SplitState(buf: string, i: nat, c: nat, starts: seq<nat>) {
    && 1 <= i <= |buf| && c <= i && NulFree(buf[c..i])
    && (forall k :: 0 <= k < |starts| ==> starts[k] <= |buf|)
    && Join(PiecesAt(buf, starts)) == buf[..c] && |starts| == NulCount(buf[..i])
    && (buf[i - 1] == NUL <==> c == i)
  }

  lemma SplitStart(buf: string)
    requires Framed(buf)
    ensures SplitState(buf, 1, 0, [])
  {
    assert buf[..1] == buf[0..1] == [buf[0]] && NulCount(buf[..1]) == NulCount([]);
    assert PiecesAt(buf, []) == [];
  }

  lemma SplitStep(buf: string, i: nat, c: nat, starts: seq<nat>)
    requires SplitState(buf, i, c, starts) && i < |buf|
    ensures if buf[i] == NUL then SplitState(buf, i + 1, i + 1, starts + [c]) else SplitState(buf, i + 1, c, starts)
  {
    assert buf[..i + 1][..i] == buf[..i];
    assert buf[c..i + 1] == buf[c..i] + [buf[i]];
    if buf[i] == NUL {
      CStringSlice(buf, c, i);
      JoinAppend(PiecesAt(buf, starts), buf[c..i]);
      assert PiecesAt(buf, starts + [c]) == PiecesAt(buf, starts) + [buf[c..i]];
      assert buf[..i + 1] == buf[..c] + buf[c..i] + [NUL];
    }
  }

  lemma {:induction false} NulCountMonotone(s: string, i: nat)
    requires i <= |s|
    ensures NulCount(s[..i]) <= NulCount(s)
    decreases |s| - i
  {
    if i == |s| {
      assert s[..i] == s;
    } else {
      assert s[..i + 1][..i] == s[..i];
      NulCountMonotone(s, i + 1);
    }
  }

  /** The options that identify a database: -d shard directories and -Q query prefixes, in order. */
  datatype Opt = Dir(path: CString) | Prefix(spec: CString)

  function OptKey(o: Opt): string {
    match o
    case Dir(p) => "-d" + [NUL] + p + [NUL]
    case Prefix(q) => "-Q" + [NUL] + q + [NUL]
  }

  /** The cache key built while parsing options. */
  function Encode(opts: seq<Opt>): string {
    if opts == [] then [] else OptKey(opts[0]) + Encode(opts[1..])
  }

  /** The same list as the NUL-terminated pieces it is made of. */
  function OptPieces(opts: seq<Opt>): seq<CString> {
    if opts == [] then []
    else match opts[0]
      case Dir(p) => ["-d", p] + OptPieces(opts[1..])
      case Prefix(q) => ["-Q", q] + OptPieces(opts[1..])
  }

  lemma JoinTwo(a: CString, b: CString, rest: seq<CString>)
    ensures Join([a, b] + rest) == a + [NUL] + b + [NUL] + Join(rest)
  {
    var pieces := [a, b] + rest;
    assert pieces[1..] == [b] + rest && pieces[1..][1..] == rest;
    assert Join(pieces[1..]) == b + [NUL] + Join(rest);
    assert Join(pieces) == a + [NUL] + Join(pieces[1..]);
  }

  lemma {:induction false} EncodeIsJoin(opts: seq<Opt>)
    ensures Encode(opts) == Join(OptPieces(opts))
  {
    hide Join;
    if opts == [] {
      JoinNothing();
    } else {
      EncodeIsJoin(opts[1..]);
      match opts[0]
      case Dir(p) => JoinTwo("-d", p, OptPieces(opts[1..]));
      case Prefix(q) => JoinTwo("-Q", q, OptPieces(opts[1..]));
    }
  }

  lemma JoinNothing()
    ensures Join([]) == ""
  {
  }

  lemma {:induction false} OptPiecesInjective(a: seq<Opt>, b: seq<Opt>)
    requires OptPieces(a) == OptPieces(b)
    ensures a == b
  {
    if a != [] && b != [] {
      var p, q := OptPieces(a), OptPieces(b);
      assert p[0] == q[0] && p[1] == q[1] && p[2..] == q[2..];
      assert p[0][1] == q[0][1];
      OptPiecesInjective(a[1..], b[1..]);
      assert a == [a[0]] + a[1..] && b == [b[0]] + b[1..];
    }
  }

  /** Distinct ordered option lists have distinct cache keys. */
  lemma EncodeInjective(a: seq<Opt>, b: seq<Opt>)
    ensures Encode(a) == Encode(b) <==> a == b
  {
    if Encode(a) == Encode(b) {
      EncodeIsJoin(a);
      EncodeIsJoin(b);
      JoinInjective(OptPieces(a), OptPieces(b));
      OptPiecesInjective(a, b);
    }
  }

  function DirCount(opts: seq<Opt>): nat {
    if opts == [] then 0 else (if opts[0].Dir? then 1 else 0) + DirCount(opts[1..])
  }

  /** The places of the -d options. */
  function DirsAt(opts: seq<Opt>): set<nat> { set i: nat | i < |opts| && opts[i].Dir? }

  /** It counts the -d options and no others. */
  lemma {:induction false} DirCountIs(opts: seq<Opt>)
    ensures DirCount(opts) == |DirsAt(opts)|
    ensures DirCount(opts) == 0 <==> forall o :: o in opts ==> o.Prefix?
    decreases |opts|
  {
    if opts != [] {
      var rest := opts[1..];
      DirCountIs(rest);
      DirsShift(opts);
      assert opts == [opts[0]] + rest;
      assert opts[0] in opts && forall o :: o in rest ==> o in opts;
      forall o | o in opts ensures o == opts[0] || o in rest {
      }
    }
  }

  lemma DirsShift(opts: seq<Opt>)
    requires opts != []
    ensures |DirsAt(opts)| == |DirsAt(opts[1..])| + if opts[0].Dir? then 1 else 0
  {
    var later := set i | i in DirsAt(opts[1..]) :: i + 1;
    Shifted(DirsAt(opts[1..]), later);
    forall i: nat ensures i in later <==> 0 < i && i in DirsAt(opts) {
      DirBehind(opts, i, later);
    }
    assert DirsAt(opts) == later + if opts[0].Dir? then {0} else {};
  }

  lemma DirBehind(opts: seq<Opt>, i: nat, later: set<nat>)
    requires opts != [] && later == set k | k in DirsAt(opts[1..]) :: k + 1
    ensures i in later <==> 0 < i && i in DirsAt(opts)
  {
    if 0 < i < |opts| {
      assert opts[1..][i - 1] == opts[i];
      assert i - 1 in DirsAt(opts[1..]) ==> i - 1 + 1 in later;
    }
  }

  lemma {:induction false} Shifted(s: set<nat>, t: set<nat>)
    requires t == set i | i in s :: i + 1
    ensures |t| == |s|
    decreases |s|
  {
    if s != {} {
      var x :| x in s;
      var t' := set i | i in s - {x} :: i + 1;
      forall y ensures y in t <==> y in t' || y == x + 1 {
        if y in t && y != x + 1 {
          assert y - 1 in s - {x} && (y - 1) + 1 in t';
        }
      }
      assert t == t' + {x + 1} && x + 1 !in t';
      Shifted(s - {x}, t');
    }
  }
}
