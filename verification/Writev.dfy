/** The writev loop of cat_oid: header, object and newline, over partial and interrupted writes. */
module Writev {

  /** What one writev call did: took a number of bytes, took nothing, or failed. */
  datatype Result = Took(n: nat) | Again | Interrupted | Error

  datatype Outcome = Sent | Croaked | Waiting

  function Total(vec: seq<string>): string {
    if vec == [] then "" else vec[0] + Total(vec[1..])
  }

  class Socket {
    var received: string
    /** How often it was written to. */
    var calls: nat

    constructor ()
      ensures received == "" && calls == 0
    {
      received, calls := "", 0;
    }

    /** writev(2): a positive count never exceeds what is offered. */
    method Writev(vec: seq<string>, result: Result) returns (w: int)
      modifies this
      ensures w > 0 <==> result.Took? && result.n > 0 && Total(vec) != ""
      ensures w > 0 ==> w <= |Total(vec)| && w <= result.n && received == old(received) + Total(vec)[..w]
      ensures w == 0 <==> result.Took? && (result.n == 0 || Total(vec) == "")
      ensures w <= 0 ==> received == old(received)
      ensures calls == old(calls) + 1
    {
      calls := calls + 1;
      match result
      case Took(n) =>
        w := if n <= |Total(vec)| then n else |Total(vec)|;
        received := received + Total(vec)[..w];
      case _ => w := -1;
    }
  }

  /** The vectors left when the first w bytes are gone: whole ones drop out, a partly written one advances. */
  function Drop(vec: seq<string>, w: nat): seq<string> {
    if vec == [] then []
    else if w >= |vec[0]| then Drop(vec[1..], w - |vec[0]|)
    else [vec[0][w..]] + vec[1..]
  }

  /** Dropping loses exactly the first w bytes, and nothing is left to send just when no vector is. */
  lemma {:induction false} DropSends(vec: seq<string>, w: nat)
    requires w <= |Total(vec)|
    ensures Total(Drop(vec, w)) == Total(vec)[w..]
    ensures Drop(vec, w) == [] <==> w == |Total(vec)|
  {
    if vec != [] {
      if w >= |vec[0]| {
        DropSends(vec[1..], w - |vec[0]|);
        assert Total(vec)[w..] == Total(vec[1..])[w - |vec[0]|..];
      } else {
        var rest := [vec[0][w..]] + vec[1..];
        assert rest[1..] == vec[1..];
        assert Total(vec)[w..] == vec[0][w..] + Total(vec[1..]);
      }
    }
  }

  /** The bookkeeping after a positive writev: advances the vectors in place and counts the finished ones. */
  method Consume(vec: array<string>, nvec: nat, written: nat) returns (left: nat)
    requires nvec <= vec.Length
    modifies vec
    ensures left <= nvec && vec[vec.Length - left..] == Drop(old(vec[vec.Length - nvec..]), written)
  {
    var w, done, n := written, 0, vec.Length;
    while done < nvec
      invariant done <= nvec && 0 <= w && vec[..] == old(vec[..])
      invariant Drop(vec[n - nvec + done..], w) == Drop(vec[n - nvec..], written)
    {
      var i := n - nvec + done;
      ghost var rest := vec[i..];
      assert rest[1..] == vec[i + 1..];
      if w >= |vec[i]| {
        w := w - |vec[i]|;
        done := done + 1;
      } else {
        vec[i] := vec[i][w..];
        assert vec[i..] == [rest[0][w..]] + rest[1..];
        break;
      }
    }
    left := nvec - done;
  }

  /**
    cat_oid's loop for any results of writev, retrying when interrupted or asked to wait: the bytes sent
    are header, object and newline, each once and in order, and it succeeds only when all are sent.
    It fails only on an error or when writev takes nothing, and waits when the results run out.
  */
  method CatOid(fd: Socket, header: string, body: string, results: seq<Result>) returns (r: Outcome)
    modifies fd
    ensures r == Sent ==> fd.received == old(fd.received) + (header + body + "\n")
    ensures var used := fd.calls - old(fd.calls);
      && 0 <= used <= |results|
      && (r == Croaked ==> 0 < used && (results[used - 1] == Error || results[used - 1] == Took(0)))
      && (forall i :: 0 <= i < (if r == Croaked then used - 1 else used) ==>
            results[i] != Error && results[i] != Took(0))
      && (r == Waiting ==> used == |results|)
    ensures r != Sent ==> exists left ::
      left != "" && |left| <= |header + body + "\n"| && fd.received + left == old(fd.received) + (header + body + "\n")
  {
    hide Drop;
    hide Progress;
    hide Total;
    ghost var before, text := fd.received, header + body + "\n";
    var vec := new string[3];
    vec[0], vec[1], vec[2] := header, body, "\n";
    var nvec: nat := 3;
    assert vec[0..] == [header, body, "\n"];
    ProgressStart(before, header, body);
    for i := 0 to |results|
      invariant nvec <= 3 && Progress(fd.received, before, text, vec[3 - nvec..])
      invariant fd.calls == old(fd.calls) + i && forall k :: 0 <= k < i ==> results[k] != Error && results[k] != Took(0)
    {
      if nvec == 0 {
        break;
      }
      ghost var sent, rest := fd.received, vec[3 - nvec..];
      ProgressLeft(fd.received, before, text, rest);
      var w := fd.Writev(vec[3 - nvec..], results[i]);
      if w > 0 {
        ProgressStep(sent, before, text, rest, w);
        nvec := Consume(vec, nvec, w);
      } else if w == 0 || results[i] == Error {
        r := Croaked;
        return;
      }
    }
    ProgressLeft(fd.received, before, text, vec[3 - nvec..]);
    r := if nvec == 0 then Sent else Waiting;
  }

  /** What was received and what is left make up the text; something is left as long as a vector is. */
  ghost predicate Progress(received: string, before: string, text: string, rest: seq<string>) {
    && |Total(rest)| <= |text| && received + Total(rest) == before + text
    && (rest == [] <==> Total(rest) == "")
  }

  lemma ProgressStart(before: string, header: string, body: string)
    ensures Progress(before, before, header + body + "\n", [header, body, "\n"])
  {
    TotalOfThree(header, body);
  }

  lemma ProgressStep(sent: string, before: string, text: string, rest: seq<string>, w: nat)
    requires 0 < w <= |Total(rest)| && Progress(sent, before, text, rest)
    ensures Progress(sent + Total(rest)[..w], before, text, Drop(rest, w))
  {
    DropSends(rest, w);
    assert sent + Total(rest)[..w] + Total(rest)[w..] == sent + Total(rest);
  }

  lemma ProgressLeft(received: string, before: string, text: string, rest: seq<string>)
    requires Progress(received, before, text, rest)
    ensures rest == [] ==> received == before + text
    ensures rest != [] ==> Total(rest) != "" && |Total(rest)| <= |text|
    ensures received + Total(rest) == before + text
  {
    if rest == [] {
      assert received + "" == received;
    }
  }

  lemma TotalOfThree(a: string, b: string)
    ensures Total([a, b, "\n"]) == a + b + "\n"
  {
    assert [a, b, "\n"][1..] == [b, "\n"] && [b, "\n"][1..] == ["\n"];
    assert Total(["\n"]) == "\n" + Total([]);
  }
}
