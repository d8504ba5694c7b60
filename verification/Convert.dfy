/** The converter on bytes: one pass over the fast-export text, as the script reads and prints it. */
module Convert {
  import opened Strings
  import opened ConvertModel

  // ---------------------------------------------------------------- lines and patterns

  /** Length of the first line, with its newline if it has one. */
  function LineLen(s: string): (n: nat)
    requires s != ""
    ensures 0 < n <= |s|
  {
    if s[0] == '\n' || |s| == 1 then 1 else 1 + LineLen(s[1..])
  }

  /** /^data ([0-9]+)/: the digits, or empty if the line does not match. */
  function DataDigits(line: string): (d: string)
    ensures AllDigits(d)
    ensures !StartsWith(line, "data ") ==> d == ""
    ensures StartsWith(line, "data ") ==>
      5 + |d| <= |line| && line[5..5 + |d|] == d && !IsDigit(At(line, 5 + |d|))
  {
    if StartsWith(line, "data ") then line[5..][..DigitRun(line[5..])] else ""
  }

  /** m{^M 100644 :([0-9]+) (hh/h*38)}: mark and path. */
  function MatchModify(line: string): Option<(string, string)> {
    if !StartsWith(line, "M 100644 :") then None
    else
      var rest := line[10..];
      var n := DigitRun(rest);
      if 0 < n && n + 42 <= |rest| && rest[n] == ' ' && IsV1Path(rest[n + 1..n + 42])
      then Some((rest[..n], rest[n + 1..n + 42])) else None
  }

  /** m{^D (hh/h*38)}: the path. */
  function MatchDelete(line: string): Option<string> {
    if StartsWith(line, "D ") && 43 <= |line| && IsV1Path(line[2..43]) then Some(line[2..43]) else None
  }

  // ---------------------------------------------------------------- the pass

  datatype Text = Text(mode: Mode, commit: bool, live: map<string, string>, last: string, out: string)

  function Printed(c: Text, s: string): Text { c.(out := c.out + s) }

  function RecordText(c: Text, mark: string, file: string): Text {
    Printed(if c.last != "" && c.last != file then Printed(c, "D " + c.last + "\n") else c,
            "M 100644 :" + mark + " " + file + "\n").(last := file)
  }

  /** A line that is not a data header. */
  function OnLine(c: Text, line: string): Text {
    if line == "blob\n" then Printed(c, line).(commit := false)
    else if StartsWith(line, "commit ") then Printed(c, line).(commit := true)
    else if c.commit && MatchModify(line).Some? then
      var (mark, path) := MatchModify(line).value;
      RecordText(c, mark, "m").(live := c.live[path := mark])
    else if c.commit && MatchDelete(line).Some? then
      var path := MatchDelete(line).value;
      if path !in c.live then c.(mode := Died)
      else RecordText(c, c.live[path], "d").(live := c.live - {path})
    else if line == "done\n" then c.(mode := Finished)
    else Printed(c, line)
  }

  /**
    One round of the reading loop: the state after it and the input left. A payload is read by length and
    never looked at; a length of 0 reads to the end of the file, and a short payload is fatal.
  */
  function Round(c: Text, s: string): (r: (Text, string))
    requires s != ""
    ensures |r.1| < |s|
  {
    var n := LineLen(s);
    var line, rest := s[..n], s[n..];
    var digits := DataDigits(line);
    if digits == "" then (OnLine(c, line), rest)
    else if digits == "0" then (Printed(Printed(c, line), rest).(mode := Verbatim), "")
    else
      var len := Number(digits, |digits|, 0);
      if len == 0 || |rest| < len then (Printed(c, line).(mode := Died), rest)
      else (Printed(Printed(c, line), rest[..len]), rest[len..])
  }

  /** Everything up to end of file. */
  function Feed(c: Text, s: string): Text
    decreases |s|
  {
    if c.mode != Running || s == "" then c else var (next, rest) := Round(c, s); Feed(next, rest)
  }

  const INIT: Text := Text(Running, false, map[], "", "")

  /** One round at position p of the input. */
  method ReadRound(input: string, p: nat, c: Text) returns (next: Text, q: nat)
    requires p < |input|
    ensures p < q <= |input| && Round(c, input[p..]) == (next, input[q..])
  {
    hide OnLine;
    hide DataDigits;
    hide Number;
    var n := LineLen(input[p..]);
    var line := input[p..][..n];
    q := p + n;
    assert input[p..][n..] == input[q..];
    var digits := DataDigits(line);
    if digits == "" {
      return OnLine(c, line), q;
    }
    next := Printed(c, line);
    if digits == "0" {
      next := Printed(next, input[q..]).(mode := Verbatim);
      q := |input|;
      assert input[q..] == "";
    } else {
      var len := Number(digits, |digits|, 0);
      if len == 0 || |input| - q < len {
        next := next.(mode := Died);
      } else {
        next := Printed(next, input[q..][..len]);
        assert input[q..][len..] == input[q + len..];
        q := q + len;
      }
    }
  }

  /** The script's reading loop. */
  method Convert(input: string) returns (c: Text)
    ensures c == Feed(INIT, input)
  {
    hide Round;
    c := INIT;
    var p := 0;
    assert input[0..] == input;
    while c.mode == Running && p < |input|
      invariant 0 <= p <= |input| && Feed(c, input[p..]) == Feed(INIT, input)
      decreases |input| - p
    {
      c, p := ReadRound(input, p, c);
    }
  }
}
