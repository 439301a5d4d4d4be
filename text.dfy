/** The two byte-text splitters the known-hosts file is read with: `bufio.ScanLines`, which
    cuts the file into lines, and `bytes.Fields`, which cuts a line into fields. */
module Text {
  import opened Bytes

  const Newline: byte := 10
  const CarriageReturn: byte := 13
  const Space: byte := 32

  /** The ASCII white space bytes.Fields separates fields at. */
  predicate IsAsciiSpace(c: byte) {
    c == 9 || c == 10 || c == 11 || c == 12 || c == 13 || c == 32
  }

  /** The index of the first newline in s, or |s| when there is none. */
  function IndexOfNewline(s: seq<byte>): (n: nat)
    ensures n <= |s| && forall i :: 0 <= i < n ==> s[i] != Newline
    ensures n < |s| ==> s[n] == Newline
  {
    if s == [] || s[0] == Newline then 0 else 1 + IndexOfNewline(s[1..])
  }

  /** A line without the carriage return it may end with. */
  function DropCR(s: seq<byte>): seq<byte> {
    if |s| > 0 && s[|s| - 1] == CarriageReturn then s[..|s| - 1] else s
  }

  /** bufio.ScanLines applied until the input is used up: the text up to each newline, less
      a carriage return before it; a last line without a newline is still a line, and the
      empty text after a final newline is not. */
  function Lines(data: seq<byte>): (r: seq<seq<byte>>)
    ensures r == [] <==> data == []
    ensures forall i :: 0 <= i < |r| ==> Newline !in r[i]
    decreases |data|
  {
    if data == [] then []
    else
      var n := IndexOfNewline(data);
      if n == |data| then [DropCR(data)]
      else [DropCR(data[..n])] + Lines(data[n + 1..])
  }

  /** A line written without newline and without a final carriage return, followed by a
      newline, is read back as that line. */
  lemma LinesOfLine(line: seq<byte>, rest: seq<byte>)
    requires forall i :: 0 <= i < |line| ==> line[i] != Newline
    requires |line| > 0 ==> line[|line| - 1] != CarriageReturn
    ensures Lines(line + [Newline] + rest) == [line] + Lines(rest)
  {
    var data := line + [Newline] + rest;
    IndexOfNewlineAfter(line, [Newline] + rest);
    assert data == line + ([Newline] + rest);
    assert data[..|line|] == line;
    assert data[|line| + 1..] == rest;
    assert DropCR(line) == line;
  }

  lemma {:induction false} IndexOfNewlineAfter(line: seq<byte>, rest: seq<byte>)
    requires forall i :: 0 <= i < |line| ==> line[i] != Newline
    requires |rest| > 0 && rest[0] == Newline
    ensures IndexOfNewline(line + rest) == |line|
  {
    if line != [] {
      assert (line + rest)[1..] == line[1..] + rest;
      IndexOfNewlineAfter(line[1..], rest);
    }
  }

  /** The index of the first white space in b, or |b| when there is none. */
  function FieldEnd(b: seq<byte>): (n: nat)
    ensures n <= |b| && forall i :: 0 <= i < n ==> !IsAsciiSpace(b[i])
    ensures n < |b| ==> IsAsciiSpace(b[n])
  {
    if b == [] || IsAsciiSpace(b[0]) then 0 else 1 + FieldEnd(b[1..])
  }

  /** Whether b is a field: not empty, and no white space in it. */
  predicate IsField(b: seq<byte>) {
    |b| > 0 && forall i :: 0 <= i < |b| ==> !IsAsciiSpace(b[i])
  }

  /** bytes.Fields on ASCII text: the maximal runs of bytes that are not white space. */
  function Fields(b: seq<byte>): (r: seq<seq<byte>>)
    ensures forall k :: 0 <= k < |r| ==> IsField(r[k])
    decreases |b|
  {
    if b == [] then []
    else if IsAsciiSpace(b[0]) then Fields(b[1..])
    else
      var n := FieldEnd(b);
      [b[..n]] + Fields(b[n..])
  }

  lemma {:induction false} FieldEndOf(f: seq<byte>, rest: seq<byte>)
    requires IsField(f)
    requires rest == [] || IsAsciiSpace(rest[0])
    ensures FieldEnd(f + rest) == |f|
    decreases |f|
  {
    if |f| > 1 {
      assert (f + rest)[1..] == f[1..] + rest;
      FieldEndOf(f[1..], rest);
    }
  }

  /** A field followed by white space or nothing is the first field. */
  lemma FieldsCons(f: seq<byte>, rest: seq<byte>)
    requires IsField(f)
    requires rest == [] || IsAsciiSpace(rest[0])
    ensures Fields(f + rest) == [f] + Fields(rest)
  {
    FieldEndOf(f, rest);
    assert (f + rest)[..|f|] == f;
    assert (f + rest)[|f|..] == rest;
  }

  lemma FieldsSkipSpace(t: seq<byte>)
    ensures Fields([Space] + t) == Fields(t)
  {
    assert ([Space] + t)[1..] == t;
  }

  /** Two fields joined by a space are split back into the two. */
  lemma FieldsTwo(y: seq<byte>, z: seq<byte>)
    requires IsField(y) && IsField(z)
    ensures Fields(y + ([Space] + z)) == [y, z]
  {
    FieldsCons(z, []);
    assert z + [] == z;
    FieldsSkipSpace(z);
    FieldsCons(y, [Space] + z);
  }

  /** Three fields joined by single spaces are split back into the three. */
  lemma FieldsThree(x: seq<byte>, y: seq<byte>, z: seq<byte>)
    requires IsField(x) && IsField(y) && IsField(z)
    ensures Fields(x + ([Space] + (y + ([Space] + z)))) == [x, y, z]
  {
    var t := y + ([Space] + z);
    FieldsTwo(y, z);
    FieldsSkipSpace(t);
    FieldsCons(x, [Space] + t);
  }

  /** A blank line, or one of white space alone, has no fields. */
  lemma {:induction false} FieldsOfBlank(b: seq<byte>)
    requires forall i :: 0 <= i < |b| ==> IsAsciiSpace(b[i])
    ensures Fields(b) == []
  {
    if b != [] {
      FieldsOfBlank(b[1..]);
    }
  }
}
