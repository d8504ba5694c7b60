/** Sending buffered results to a client that may accept any part of each write. */
module Output {

  function Concat(lines: seq<string>): string {
    if lines == [] then "" else Concat(lines[..|lines| - 1]) + lines[|lines| - 1]
  }

  lemma {:induction false} ConcatAppend(a: seq<string>, b: seq<string>)
    ensures Concat(a + b) == Concat(a) + Concat(b)
  {
    if b == [] {
      assert a + b == a;
    } else {
      var n := |b| - 1;
      assert (a + b)[..|a| + n] == a + b[..n] && (a + b)[|a| + n] == b[n];
      ConcatAppend(a, b[..n]);
      assert Concat(a + b) == Concat(a + b[..n]) + b[n];
    }
  }

  /** A client's descriptor: what it has received. Each write takes a prefix of its own choosing. */
  class Client {
    var received: string
    /** Whether some write took nothing. */
    var broken: bool

    constructor ()
      ensures received == "" && !broken
    {
      received, broken := "", false;
    }

    /** write(2): a positive result is the length of the prefix that was taken. */
    method Write(bytes: string) returns (n: int)
      modifies this
      ensures n <= |bytes|
      ensures received == old(received) + if n > 0 then bytes[..n] else ""
      ensures broken == (old(broken) || n <= 0)
    {
      n := *;
      if n > |bytes| {
        n := |bytes|;
      }
      if n > 0 {
        received := received + bytes[..n];
      } else {
        broken := true;
      }
    }
  }

  /** write_all: fails exactly when a write takes nothing; the client has everything, or else a prefix. */
  method WriteAll(fd: Client, bytes: string) returns (ok: bool)
    modifies fd
    ensures ok ==> bytes != "" && fd.received == old(fd.received) + bytes
    ensures exists k :: 0 <= k <= |bytes| && fd.received == old(fd.received) + bytes[..k]
    ensures if ok then fd.broken == old(fd.broken) else fd.broken
  {
    var p := 0;
    while true
      invariant fd.broken == old(fd.broken)
      invariant 0 <= p <= |bytes| && fd.received == old(fd.received) + bytes[..p]
      decreases |bytes| - p
    {
      var n := fd.Write(bytes[p..]);
      if n > 0 {
        assert bytes[..p] + bytes[p..][..n] == bytes[..p + n];
        p := p + n;
      } else {
        return false;
      }
      if p == |bytes| {
        assert bytes[..p] == bytes;
        return true;
      }
    }
  }

  /** open_memstream: seeking back keeps the old bytes, and later writes overwrite them. */
  class Memstream {
    var data: string
    var pos: nat

    ghost predicate Valid()
      reads this
    {
      pos <= |data|
    }

    /** What was written since the last rewind. */
    function Pending(): string
      requires Valid()
      reads this
    {
      data[..pos]
    }

    constructor ()
      ensures Valid() && Pending() == ""
    {
      data, pos := "", 0;
    }

    method Print(s: string)
      requires Valid()
      modifies this
      ensures Valid() && Pending() == old(Pending()) + s
    {
      var end := pos + |s|;
      data := data[..pos] + s + if end <= |data| then data[end..] else "";
      pos := end;
    }

    method Rewind()
      requires Valid()
      modifies this
      ensures Valid() && Pending() == ""
    {
      pos := 0;
    }
  }

  /** a is the client's data so far followed by a prefix of the text. */
  ghost predicate Got(received: string, before: string, text: string) {
    exists k :: 0 <= k <= |text| && received == before + text[..k]
  }

  lemma GotMore(received: string, before: string, a: string, b: string, c: string)
    requires Got(received, before + a, b)
    ensures Got(received, before, a + b + c)
  {
    var k :| 0 <= k <= |b| && received == before + a + b[..k];
    assert (a + b + c)[..|a| + k] == a + b[..k];
    assert before + a + b[..k] == before + (a + b[..k]);
  }

  lemma Extend(a: string, b: string, c: string, d: string, x: string)
    requires a + b == c + d
    ensures a + (b + x) == c + (d + x)
  {
    assert a + (b + x) == (a + b) + x && c + (d + x) == (c + d) + x;
  }

  /**
    dump_roots_flush: sends what is pending, if anything, and rewinds the buffer whether or not that worked;
    a failure leaves the client with a prefix of it.
  */
  method Flush(fd: Client, wbuf: Memstream) returns (ok: bool)
    requires wbuf.Valid()
    modifies fd, wbuf
    ensures wbuf.Valid() && wbuf.Pending() == ""
    ensures ok ==> fd.received == old(fd.received) + old(wbuf.Pending())
    ensures Got(fd.received, old(fd.received), old(wbuf.Pending()))
    ensures if ok then fd.broken == old(fd.broken) else fd.broken
    ensures old(wbuf.Pending()) == "" ==> ok && fd.received == old(fd.received)
  {
    ok := true;
    if wbuf.pos == 0 {
      GotAll(fd.received);
      return;
    }
    ok := WriteAll(fd, wbuf.Pending());
    wbuf.Rewind();
  }

  /**
    The output loop of cmd_mset: results are buffered, and flushed and rewound past a threshold. On success
    the client has the header and every line, once and in order; on failure a prefix of that.
  */
  method Mset(fd: Client, header: string, lines: seq<string>, threshold: nat) returns (ok: bool)
    modifies fd
    ensures ok ==> fd.received == old(fd.received) + (header + Concat(lines))
    ensures Got(fd.received, old(fd.received), header + Concat(lines))
    ensures if ok then fd.broken == old(fd.broken) else fd.broken
  {
    hide Got;
    ghost var before := fd.received;
    var wbuf := new Memstream();
    wbuf.Print(header);
    ghost var sent := "";
    for i := 0 to |lines|
      invariant wbuf.Valid() && fresh(wbuf) && fd.broken == old(fd.broken)
      invariant fd.received == before + sent && sent + wbuf.Pending() == header + Concat(lines[..i])
    {
      ghost var pending := wbuf.Pending();
      SplitAt(header, lines, i);
      if wbuf.pos > threshold {
        ok := Flush(fd, wbuf);
        if !ok {
          GotMore(fd.received, before, sent, pending, Concat(lines[i..]));
          return;
        }
        assert before + sent + pending == before + (sent + pending);
        sent, pending := sent + pending, "";
      }
      assert pending == wbuf.Pending();
      wbuf.Print(lines[i]);
      assert lines[..i + 1][..i] == lines[..i];
      Extend(sent, pending, header, Concat(lines[..i]), lines[i]);
    }
    assert lines[..|lines|] == lines;
    ghost var pending := wbuf.Pending();
    if wbuf.pos > 0 {
      ok := Flush(fd, wbuf);
    } else {
      ok := true;
      GotAll(fd.received);
    }
    GotMore(fd.received, before, sent, pending, "");
    assert sent + pending + "" == header + Concat(lines);
    assert before + sent + pending == before + (sent + pending);
  }

  lemma GotAll(received: string)
    ensures Got(received, received, "")
  {
    assert received == received + ""[..0];
  }

  lemma SplitAt(header: string, lines: seq<string>, i: nat)
    requires i <= |lines|
    ensures header + Concat(lines) == header + Concat(lines[..i]) + Concat(lines[i..])
  {
    hide Concat;
    assert lines == lines[..i] + lines[i..];
    ConcatAppend(lines[..i], lines[i..]);
    var a, b := Concat(lines[..i]), Concat(lines[i..]);
    assert header + (a + b) == header + a + b;
  }
}
