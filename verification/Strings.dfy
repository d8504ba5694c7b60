/** Byte strings, and the digits in them. */
module Strings {

  datatype Option<T> = None | Some(value: T)

  const NUL: char := '\0'

  /** The character at i, or the terminator at the end; nothing past it may be read. */
  function At(s: string, i: nat): char
    requires i <= |s|
  {
    if i < |s| then s[i] else NUL
  }

  predicate StartsWith(s: string, p: string) { |p| <= |s| && s[..|p|] == p }

  lemma StartsWithCons(s: string, p: string)
    requires s != "" && p != ""
    ensures StartsWith(s, p) <==> s[0] == p[0] && StartsWith(s[1..], p[1..])
  {
    if |p| <= |s| {
      assert s[..|p|] == [s[0]] + s[1..][..|p| - 1] && p == [p[0]] + p[1..];
    }
  }

  predicate IsDigit(c: char) { '0' <= c <= '9' }

  predicate AllDigits(s: string) { forall i :: 0 <= i < |s| ==> IsDigit(s[i]) }

  function DigitVal(c: char): nat
    requires IsDigit(c)
  {
    c as int - '0' as int
  }

  function Digit(d: nat): (c: char)
    requires d < 10
    ensures IsDigit(c) && DigitVal(c) == d
  {
    ('0' as int + d) as char
  }

  /** Length of the run of digits s starts with. */
  function DigitRun(s: string): (n: nat)
    ensures n <= |s| && forall i :: 0 <= i < n ==> IsDigit(s[i])
    ensures !IsDigit(At(s, n))
  {
    if s == "" || !IsDigit(s[0]) then 0 else 1 + DigitRun(s[1..])
  }

  /** The value of the first n characters, all digits, after a number read so far. */
  function Number(s: string, n: nat, sofar: nat): nat
    requires n <= |s| && forall i :: 0 <= i < n ==> IsDigit(s[i])
    decreases n
  {
    if n == 0 then sofar else Number(s[1..], n - 1, sofar * 10 + DigitVal(s[0]))
  }

  lemma {:induction false} DigitRunExact(d: string, rest: string)
    requires AllDigits(d) && !IsDigit(At(rest, 0))
    ensures DigitRun(d + rest) == |d|
  {
    if d == "" {
      assert d + rest == rest;
    } else {
      assert (d + rest)[1..] == d[1..] + rest;
      DigitRunExact(d[1..], rest);
    }
  }

  /** What follows the digits does not matter to their value. */
  lemma {:induction false} NumberExact(d: string, rest: string, sofar: nat)
    requires AllDigits(d)
    ensures forall i :: 0 <= i < |d| ==> IsDigit((d + rest)[i])
    ensures Number(d + rest, |d|, sofar) == Number(d, |d|, sofar)
    decreases |d|
  {
    if d != "" {
      assert (d + rest)[1..] == d[1..] + rest;
      NumberExact(d[1..], rest, sofar * 10 + DigitVal(d[0]));
    }
  }

  lemma {:induction false} NumberSnoc(s: string, c: char, sofar: nat)
    requires AllDigits(s) && IsDigit(c)
    ensures Number(s + [c], |s| + 1, sofar) == Number(s, |s|, sofar) * 10 + DigitVal(c)
    decreases |s|
  {
    if s == "" {
      assert s + [c] == [c] && Number([c][1..], 0, sofar * 10 + DigitVal(c)) == sofar * 10 + DigitVal(c);
    } else {
      assert (s + [c])[1..] == s[1..] + [c];
      NumberSnoc(s[1..], c, sofar * 10 + DigitVal(s[0]));
    }
  }

  lemma {:induction false} NumberAppend(a: string, b: string, sofar: nat)
    requires AllDigits(a) && AllDigits(b)
    ensures AllDigits(a + b) && Number(a + b, |a| + |b|, sofar) == Number(b, |b|, Number(a, |a|, sofar))
    decreases |a|
  {
    if a == "" {
      assert a + b == b;
    } else {
      assert (a + b)[1..] == a[1..] + b;
      NumberAppend(a[1..], b, sofar * 10 + DigitVal(a[0]));
    }
  }

  function Decimal(n: nat): (s: string)
    ensures s != "" && AllDigits(s)
  {
    if n < 10 then [Digit(n)] else Decimal(n / 10) + [Digit(n % 10)]
  }

  lemma {:induction false} ReadDecimal(n: nat)
    ensures Number(Decimal(n), |Decimal(n)|, 0) == n
    ensures Decimal(n) == "0" <==> n == 0
    ensures |Decimal(n)| == 1 <==> n < 10
  {
    if n < 10 {
      NumberSnoc("", Digit(n), 0);
      assert "" + [Digit(n)] == Decimal(n);
      assert Decimal(n) == [Decimal(n)[0]] && "0" == ['0'];
    } else {
      ReadDecimal(n / 10);
      NumberSnoc(Decimal(n / 10), Digit(n % 10), 0);
    }
  }
}
