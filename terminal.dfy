/** The operator's terminal: standard input read a line at a time by a `bufio.Scanner`, and
    the prompt loop `scan` that both handshake revisions use to ask the operator to confirm
    a key. */
module Terminal {
  import opened Wrappers

  /** What is left of standard input: the lines still to be typed, in order, and whether
      reading past the last of them fails (a read error) rather than reporting end of input. */
  datatype Stdin = Stdin(lines: seq<string>, fails: bool)

  /** The outcome of one call of `scan`, and the input left after it. */
  datatype Scanned = Scanned(result: Result<string>, rest: Stdin)

  /** unicode.IsSpace: the Latin-1 spaces and the other characters with the Unicode
      White_Space property. */
  predicate IsSpace(c: char) {
    '\t' <= c <= '\r' || c == ' ' || c == '\U{0085}' || c == '\U{00A0}' || c == '\U{1680}'
    || '\U{2000}' <= c <= '\U{200A}' || c == '\U{2028}' || c == '\U{2029}' || c == '\U{202F}'
    || c == '\U{205F}' || c == '\U{3000}'
  }

  /** The number of white-space characters s starts with. */
  function Leading(s: string): (n: nat)
    ensures n <= |s| && forall k :: 0 <= k < n ==> IsSpace(s[k])
    ensures n < |s| ==> !IsSpace(s[n])
  {
    if s == [] || !IsSpace(s[0]) then 0 else 1 + Leading(s[1..])
  }

  /** The number of white-space characters s ends with. */
  function Trailing(s: string): (n: nat)
    ensures n <= |s| && forall k :: |s| - n <= k < |s| ==> IsSpace(s[k])
    ensures n < |s| ==> !IsSpace(s[|s| - n - 1])
  {
    if s == [] || !IsSpace(s[|s| - 1]) then 0 else 1 + Trailing(s[..|s| - 1])
  }

  /** strings.TrimSpace: s without its leading and trailing white space. */
  function TrimSpace(s: string): (r: string)
    ensures var i := Leading(s);
      i + |r| <= |s| && r == s[i..i + |r|] && forall k :: i + |r| <= k < |s| ==> IsSpace(s[k])
    ensures r == [] || (!IsSpace(r[0]) && !IsSpace(r[|r| - 1]))
  {
    var i := Leading(s);
    var j := Trailing(s[i..]);
    var t := s[i..];
    assert t[..|t| - j] == s[i..|s| - j];
    forall k | |s| - j <= k < |s| ensures IsSpace(s[k]) {
      assert s[k] == t[k - i];
    }
    s[i..|s| - j]
  }

  /** One `scanner.Scan()` followed by `scanner.Err()` and `scanner.Text()`: the next line;
      at the end of input the empty text, with the input left as it is, or the read error. */
  function ReadLine(input: Stdin): (r: Scanned)
    ensures input.lines != [] ==> r == Scanned(Ok(input.lines[0]), Stdin(input.lines[1..], input.fails))
    ensures input.lines == [] ==> r.rest == input && r.result == (if input.fails then Err(StdinFailure) else Ok(""))
  {
    if input.lines != [] then Scanned(Ok(input.lines[0]), Stdin(input.lines[1..], input.fails))
    else if input.fails then Scanned(Err(StdinFailure), input)
    else Scanned(Ok(""), input)
  }

  /** What `scan` does, line by line: the first line whose trimmed text is an allowed
      response is the answer; at the end of input the answer is the empty response, or the
      read error. `responses` must allow the empty response, as at every call site: otherwise
      `scan` would prompt for ever once the input has ended. */
  function ScanSpec(responses: seq<string>, input: Stdin): (r: Scanned)
    requires "" in responses
    ensures r.result.Ok? ==> r.result.value in responses
    ensures r.rest.fails == input.fails
    ensures |r.rest.lines| <= |input.lines| && r.rest.lines == input.lines[|input.lines| - |r.rest.lines|..]
    decreases |input.lines|
  {
    if input.lines == [] then
      if input.fails then Scanned(Err(StdinFailure), input) else Scanned(Ok(""), input)
    else
      var response := TrimSpace(input.lines[0]);
      var rest := Stdin(input.lines[1..], input.fails);
      if response in responses then Scanned(Ok(response), rest) else ScanSpec(responses, rest)
  }

  /** The answer of `scan` is the first line the operator typed whose trimmed text is
      allowed; every line before it was re-prompted, and the lines after it are left unread. */
  lemma {:induction false} ScanFirstAllowed(responses: seq<string>, input: Stdin, k: nat)
    requires "" in responses
    requires k < |input.lines| && TrimSpace(input.lines[k]) in responses
    requires forall j :: 0 <= j < k ==> TrimSpace(input.lines[j]) !in responses
    ensures ScanSpec(responses, input) == Scanned(Ok(TrimSpace(input.lines[k])), Stdin(input.lines[k + 1..], input.fails))
    decreases k
  {
    if k > 0 {
      var rest := Stdin(input.lines[1..], input.fails);
      assert forall j :: 0 <= j < k - 1 ==> rest.lines[j] == input.lines[j + 1];
      ScanFirstAllowed(responses, rest, k - 1);
      assert rest.lines[k..] == input.lines[k + 1..];
    }
  }

  /** When no line the operator typed is allowed, `scan` reads all of them and then answers
      the empty response at the end of input, or reports the read error. */
  lemma {:induction false} ScanNoneAllowed(responses: seq<string>, input: Stdin)
    requires "" in responses
    requires forall j :: 0 <= j < |input.lines| ==> TrimSpace(input.lines[j]) !in responses
    ensures ScanSpec(responses, input)
      == Scanned(if input.fails then Err(StdinFailure) else Ok(""), Stdin([], input.fails))
    decreases |input.lines|
  {
    if input.lines != [] {
      var rest := Stdin(input.lines[1..], input.fails);
      assert forall j :: 0 <= j < |rest.lines| ==> rest.lines[j] == input.lines[j + 1];
      ScanNoneAllowed(responses, rest);
    }
  }

  /** The answers both handshake revisions allow when asking the operator to confirm a
      key. */
  const KeyResponses: seq<string> := ["yes", "no", ""]

  /** What is left of the prompt loop once `response` has been read and `rest` remains. */
  function Continue(responses: seq<string>, response: string, rest: Stdin): Scanned
    requires "" in responses
  {
    if response in responses then Scanned(Ok(response), rest) else ScanSpec(responses, rest)
  }

  /** scan (handshake/receive.go:123-139, and the same code at handshake.go:197-213): reads
      with one scanner until the trimmed line is one of `responses`. */
  method Scan(responses: seq<string>, input: Stdin) returns (result: Result<string>, rest: Stdin)
    requires "" in responses
    ensures Scanned(result, rest) == ScanSpec(responses, input)
  {
    var read := ReadLine(input);
    if read.result.Err? {
      return Err(read.result.error), read.rest;
    }
    rest := read.rest;
    var response := TrimSpace(read.result.value);
    while response !in responses
      invariant Continue(responses, response, rest) == ScanSpec(responses, input)
      decreases |rest.lines| + (if response in responses then 0 else 1)
    {
      read := ReadLine(rest);
      if read.result.Err? {
        return Err(read.result.error), read.rest;
      }
      rest := read.rest;
      response := TrimSpace(read.result.value);
    }
    result := Ok(response);
  }
}
