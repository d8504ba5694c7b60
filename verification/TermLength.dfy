/** The length that the digits at the end of a -A prefix ask for. */
module TermLength {
  import opened Strings

  const SIZE_MAX: nat := 0xffff_ffff_ffff_ffff

  function Value(digits: string): nat
    requires AllDigits(digits)
  {
    Number(digits, |digits|, 0)
  }

  /** From j on there are only digits, and their number is a possible length. */
  predicate LengthAt(pfx: string, j: nat) {
    1 <= j < |pfx| && AllDigits(pfx[j..]) && Value(pfx[j..]) < SIZE_MAX
  }

  /** strtoull over the text from a digit on: its value, saturated, and whether it used up the text. */
  function Strtoull(s: string): (nat, bool)
    requires s != "" && IsDigit(s[0])
  {
    var n := DigitRun(s);
    var v := Number(s, n, 0);
    (if v > SIZE_MAX then SIZE_MAX else v, n == |s|)
  }

  lemma {:induction false} WholeRun(s: string)
    ensures DigitRun(s) == |s| <==> AllDigits(s)
  {
    if s != "" {
      WholeRun(s[1..]);
      assert s == [s[0]] + s[1..];
    }
  }

  /** term_length_extract, for one prefix: the first place from which the rest is a length. */
  method Extract(pfx: string) returns (p: string, len: nat)
    ensures (forall j :: 0 <= j <= |pfx| ==> !LengthAt(pfx, j)) ==> p == pfx && len == 0
    ensures (exists j :: 0 <= j <= |pfx| && LengthAt(pfx, j)) ==>
      && LengthAt(pfx, |p|) && p == pfx[..|p|] && len == Value(pfx[|p|..])
      && forall j :: 0 <= j < |p| ==> !LengthAt(pfx, j)
  {
    for j := 0 to |pfx|
      invariant forall i :: 0 <= i < j ==> !LengthAt(pfx, i)
    {
      WholeRun(pfx[j..]);
      if !IsDigit(pfx[j]) {
        assert pfx[j..][0] == pfx[j];
        continue;
      }
      if j == 0 {
        continue;
      }
      var (v, whole) := Strtoull(pfx[j..]);
      if whole && v < SIZE_MAX {
        assert LengthAt(pfx, j);
        return pfx[..j], v;
      }
    }
    return pfx, 0;
  }

  /** The digits at the end of a prefix start at k. */
  predicate TrailingFrom(pfx: string, k: nat) {
    k <= |pfx| && AllDigits(pfx[k..]) && (k > 0 ==> !IsDigit(pfx[k - 1]))
  }

  /** Past the first digit that is not at the end there is no length, and past k there are only shorter ones. */
  lemma FirstLength(pfx: string, k: nat, j: nat)
    requires TrailingFrom(pfx, k) && LengthAt(pfx, j)
    ensures k <= j
  {
  }

  /**
    It splits off all the digits at the end and takes their value, as the source's comment has it, if and only if
    there are none, or something comes before them and the value is below the largest size.
  */
  method ExtractsTrailing(pfx: string, ghost k: nat) returns (p: string, len: nat)
    requires TrailingFrom(pfx, k)
    ensures p == pfx[..k] && len == (if k == |pfx| then 0 else Value(pfx[k..]))
      <==> k == |pfx| || (1 <= k && Value(pfx[k..]) < SIZE_MAX)
  {
    p, len := Extract(pfx);
    if exists j :: 0 <= j <= |pfx| && LengthAt(pfx, j) {
      FirstLength(pfx, k, |p|);
      assert |pfx[..k]| == k;
    }
    assert 1 <= k < |pfx| && Value(pfx[k..]) < SIZE_MAX ==> LengthAt(pfx, k);
    assert k == |pfx| ==> pfx[..k] == pfx;
  }

  /** Of the prefix 12 only the 2 is split off. */
  method TwelveExample() returns (p: string, len: nat)
    ensures p == "1" && len == 2
  {
    assert "12"[1..] == "2" && Number("2"[1..], 0, 2) == 2;
    assert LengthAt("12", 1);
    p, len := Extract("12");
    assert "12"[..1] == "1";
  }
}
