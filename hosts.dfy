/** hosts/hosts.go: the known-hosts store. A host is an address with the box public key and
    the signature public key it presented; the store is a text file with one line
    "addr hexbox hexsig" per host, read into a list kept strictly increasing in `cmpHost`
    order. Entries are told apart by the whole triple, so a second key pair for a known
    address is kept beside the first rather than replacing it. */
module Hosts {
  import opened Bytes
  import opened Wrappers
  import opened Os
  import opened SortedKeys
  import Search
  import Hex
  import Ip
  import Text
  import Box
  import Sig
  import KeyFile

  /** knownHostsFile: $XDG_DATA_HOME/hose/known_hosts. */
  const KnownHostsFile: Path := Path(KeyFile.DataDir, "known_hosts")

  datatype Host = Host(addr: Ip.Addr, box: Box.BoxPublicKey, sig: Sig.SigPublicKey)

  /** The bytes of a host in the order cmpHost looks at them: address, box key, signature
      key, each of a fixed width. */
  function HostKey(h: Host): (k: seq<byte>)
    ensures |k| == 68
  {
    h.addr + h.box + h.sig
  }

  /** Two hosts with the same bytes are the same host. */
  lemma HostKeyInjective(a: Host, b: Host)
    requires HostKey(a) == HostKey(b)
    ensures a == b
  {
    assert a.addr == HostKey(a)[..4] && b.addr == HostKey(b)[..4];
    assert a.box == HostKey(a)[4..36] && b.box == HostKey(b)[4..36];
    assert a.sig == HostKey(a)[36..] && b.sig == HostKey(b)[36..];
  }

  /** cmpHost (hosts/hosts.go:128-136): by address, then box key, then signature key. It is
      zero exactly for equal hosts, and a difference in address decides alone. */
  function CmpHost(a: Host, b: Host): (r: int)
    ensures r == 0 <==> a == b
    ensures Ip.Compare(a.addr, b.addr) != 0 ==> r == Ip.Compare(a.addr, b.addr)
  {
    CompareZeroIffEqual(a.addr, b.addr);
    var x := Ip.Compare(a.addr, b.addr);
    if x != 0 then x
    else
      var y := Box.Compare(a.box, b.box);
      if y != 0 then y else Sig.Compare(a.sig, b.sig)
  }

  /** cmpHost is bytes.Compare on the hosts' bytes, so it orders hosts totally. */
  lemma CmpHostIsKeyOrder(a: Host, b: Host)
    ensures CmpHost(a, b) == Compare(HostKey(a), HostKey(b))
  {
    assert HostKey(a) == a.addr + (a.box + a.sig);
    assert HostKey(b) == b.addr + (b.box + b.sig);
    CompareConcat(a.addr, a.box + a.sig, b.addr, b.box + b.sig);
    CompareConcat(a.box, a.sig, b.box, b.sig);
    CompareAntisymmetric(a.box, b.box);
    CompareAntisymmetric(a.sig, b.sig);
  }

  /** cmpHostAddr (hosts/hosts.go:138-140): a host against an address, by address alone. */
  function CmpHostAddr(host: Host, addr: Ip.Addr): (r: int)
    ensures r == 0 <==> host.addr == addr
    ensures forall other: Host :: other.addr == addr && Ip.Compare(host.addr, addr) != 0 ==> r == CmpHost(host, other)
  {
    CompareZeroIffEqual(host.addr, addr);
    Ip.Compare(host.addr, addr)
  }

  /** In a list sorted by cmpHost the addresses do not decrease, so cmpHostAddr is a valid
      comparison for a binary search over it: once an entry is at or above an address, so
      are all later ones. */
  lemma SortedByAddress(hosts: seq<Host>, addr: Ip.Addr)
    requires StrictlySorted(hosts, HostKey)
    ensures forall i, j :: 0 <= i < j < |hosts| ==> Ip.Compare(hosts[i].addr, hosts[j].addr) <= 0
    ensures forall i, j :: 0 <= i < j < |hosts| && CmpHostAddr(hosts[i], addr) >= 0 ==> CmpHostAddr(hosts[j], addr) >= 0
  {
    forall i, j | 0 <= i < j < |hosts| ensures Ip.Compare(hosts[i].addr, hosts[j].addr) <= 0 {
      CmpHostIsKeyOrder(hosts[i], hosts[j]);
    }
    forall i, j | 0 <= i < j < |hosts| && CmpHostAddr(hosts[i], addr) >= 0 ensures CmpHostAddr(hosts[j], addr) >= 0 {
      CompareIsTotalOrder(addr, hosts[i].addr, hosts[j].addr);
      CompareAntisymmetric(addr, hosts[i].addr);
      CompareAntisymmetric(addr, hosts[j].addr);
    }
  }

  /** Host.String (hosts/hosts.go:142-144): the dotted address and the two keys in lower-case
      hexadecimal, separated by single spaces. The text is one line: it holds no newline and
      no carriage return. */
  function HostString(h: Host): (r: seq<byte>)
    ensures |r| > 0
    ensures forall i :: 0 <= i < |r| ==> r[i] != Text.Newline && r[i] != Text.CarriageReturn
  {
    Ip.String(h.addr) + ([Text.Space] + (Hex.Encode(h.box) + ([Text.Space] + Hex.Encode(h.sig))))
  }

  /** parseHost (hosts/hosts.go:87-109): exactly three fields, else the field-count error;
      then the address, the box key and the signature key, the first failure reported. What
      it accepts is a host's text up to white space and the case of the hex digits. */
  function ParseHost(b: seq<byte>): (r: Result<Host>)
    ensures |Text.Fields(b)| != 3 ==> r == Err(FieldCount(|Text.Fields(b)|))
    ensures var f := Text.Fields(b);
      |f| == 3 && Ip.ParseAddr(f[0]).Err? ==> r == Err(Ip.ParseAddr(f[0]).error)
    ensures var f := Text.Fields(b);
      |f| == 3 && Ip.ParseAddr(f[0]).Ok? && Box.DecodeBoxPublicKey(f[1]).err.Some? ==>
        r == Err(Box.DecodeBoxPublicKey(f[1]).err.value)
    ensures var f := Text.Fields(b);
      (|f| == 3 && Ip.ParseAddr(f[0]).Ok? && Box.DecodeBoxPublicKey(f[1]).err.None?
       && Sig.DecodeSigPublicKey(f[2]).err.Some?) ==> r == Err(Sig.DecodeSigPublicKey(f[2]).err.value)
    ensures var f := Text.Fields(b);
      (|f| == 3 && Ip.ParseAddr(f[0]).Ok?
       && |f[1]| == 64 && (forall i :: 0 <= i < 64 ==> Hex.IsHexDigit(f[1][i]))
       && |f[2]| == 64 && (forall i :: 0 <= i < 64 ==> Hex.IsHexDigit(f[2][i]))) ==>
        r.Ok? && r.value.addr == Ip.ParseAddr(f[0]).value
    ensures r.Ok? ==> var f := Text.Fields(b);
      |f| == 3 && f[0] == Ip.String(r.value.addr)
      && |f[1]| == 64 && (forall i :: 0 <= i < 64 ==> Hex.IsHexDigit(f[1][i]))
      && |f[2]| == 64 && (forall i :: 0 <= i < 64 ==> Hex.IsHexDigit(f[2][i]))
      && Hex.Encode(r.value.box) == Hex.Lower(f[1]) && Hex.Encode(r.value.sig) == Hex.Lower(f[2])
  {
    var f := Text.Fields(b);
    if |f| != 3 then Err(FieldCount(|f|))
    else
      match Ip.ParseAddr(f[0])
      case Err(e) => Err(e)
      case Ok(addr) =>
        Ip.ParseCanonical(f[0]);
        var box := Box.DecodeBoxPublicKey(f[1]);
        if box.err.Some? then Err(box.err.value)
        else
          var sig := Sig.DecodeSigPublicKey(f[2]);
          if sig.err.Some? then Err(sig.err.value)
          else Ok(Host(addr, box.value, sig.value))
  }

  /** A host's text parses back to the host. */
  lemma ParseHostString(h: Host)
    ensures ParseHost(HostString(h)) == Ok(h)
  {
    var a, x, y := Ip.String(h.addr), Hex.Encode(h.box), Hex.Encode(h.sig);
    assert Text.IsField(a);
    assert Text.IsField(x);
    assert Text.IsField(y);
    Text.FieldsThree(a, x, y);
    Ip.ParseString(h.addr);
    Box.DecodeBoxKeyEncode(h.box);
    Sig.DecodeSigKeysEncode(h.sig, Sig.ZeroKeypair.private);
  }

  /** A blank line, or one of white space alone, is not a host. */
  lemma ParseBlankLine(b: seq<byte>)
    requires forall i :: 0 <= i < |b| ==> Text.IsAsciiSpace(b[i])
    ensures ParseHost(b) == Err(FieldCount(0))
  {
    Text.FieldsOfBlank(b);
  }
  /** One line of the file: fmt.Fprintf(f, "%s\n", host). */
  function Line(h: Host): seq<byte> {
    HostString(h) + [Text.Newline]
  }

  /** The lines Store prints, one per host in order. */
  function LinesOf(hosts: seq<Host>): (r: seq<seq<byte>>)
    ensures |r| == |hosts| && forall i :: 0 <= i < |hosts| ==> r[i] == Line(hosts[i])
  {
    seq(|hosts|, i requires 0 <= i < |hosts| => Line(hosts[i]))
  }

  /** The file Store writes for hosts already in order: their lines one after another. */
  function Render(hosts: seq<Host>): seq<byte> {
    Concat(LinesOf(hosts))
  }

  /** Each host's text, in order. */
  function Strings(hosts: seq<Host>): (r: seq<seq<byte>>)
    ensures |r| == |hosts| && forall i :: 0 <= i < |hosts| ==> r[i] == HostString(hosts[i])
  {
    if hosts == [] then [] else [HostString(hosts[0])] + Strings(hosts[1..])
  }

  /** The scanner reads a written file back as the hosts' texts, one per line. */
  lemma {:induction false} LinesOfRender(hosts: seq<Host>)
    ensures Text.Lines(Render(hosts)) == Strings(hosts)
  {
    if hosts != [] {
      assert LinesOf(hosts) == [Line(hosts[0])] + LinesOf(hosts[1..]);
      ConcatCons(Line(hosts[0]), LinesOf(hosts[1..]));
      Text.LinesOfLine(HostString(hosts[0]), Render(hosts[1..]));
      LinesOfRender(hosts[1..]);
    }
  }

  /** The list Load builds and Add keeps: strictly increasing in cmpHost order. */
  predicate Sorted(hosts: seq<Host>) {
    StrictlySorted(hosts, HostKey)
  }

  /** What parseHost makes of each line. */
  function ParseLines(lines: seq<seq<byte>>): (r: seq<Result<Host>>)
    ensures |r| == |lines| && forall j :: 0 <= j < |lines| ==> r[j] == ParseHost(lines[j])
  {
    seq(|lines|, j requires 0 <= j < |lines| => ParseHost(lines[j]))
  }

  /** One iteration of Load's loop (hosts/hosts.go:73-81) on line number `lineNo`, given
      what parseHost made of the line: a parse error is reported with the line number;
      otherwise the host is binary-searched with cmpHost and inserted where the search
      ended, unless the search found the identical host there. */
  function LoadLine(hosts: seq<Host>, parsed: Result<Host>, lineNo: nat): (r: Result<seq<Host>>)
    ensures parsed.Err? ==> r == Err(BadLine(lineNo, parsed.error))
    ensures parsed.Ok? && r.Err? ==> parsed.value in hosts && r.error == DuplicateEntry(HostString(parsed.value))
    ensures r.Ok? ==> parsed.Ok? && multiset(r.value) == multiset(hosts) + multiset{parsed.value}
  {
    match parsed
    case Err(e) => Err(BadLine(lineNo, e))
    case Ok(h) =>
      var i := Position(hosts, HostKey, HostKey(h));
      if i < |hosts| && hosts[i] == h then Err(DuplicateEntry(HostString(h)))
      else Ok(Search.Insert(hosts, i, h))
  }

  /** In a sorted list, host h sits at the position of its bytes exactly when the list
      holds it. */
  lemma HeldHost(hosts: seq<Host>, h: Host)
    requires Sorted(hosts)
    ensures var i := Position(hosts, HostKey, HostKey(h));
      h in hosts <==> i < |hosts| && hosts[i] == h
  {
    var i := Position(hosts, HostKey, HostKey(h));
    HeldAtPosition(hosts, HostKey, HostKey(h));
    if h in hosts {
      var j :| 0 <= j < |hosts| && hosts[j] == h;
      assert HostKey(hosts[j]) == HostKey(h);
      HostKeyInjective(hosts[i], h);
    }
  }

  /** One line on a sorted list: a line that does not parse is reported with its number; a
      host the list holds already is a duplicate; any other host is added, and the list
      stays sorted. */
  lemma LoadLineSpec(hosts: seq<Host>, parsed: Result<Host>, lineNo: nat)
    requires Sorted(hosts)
    ensures var r := LoadLine(hosts, parsed, lineNo);
      (parsed.Err? ==> r == Err(BadLine(lineNo, parsed.error)))
      && (parsed.Ok? && parsed.value in hosts ==> r == Err(DuplicateEntry(HostString(parsed.value))))
      && (parsed.Ok? && parsed.value !in hosts ==>
            r.Ok? && Sorted(r.value) && multiset(r.value) == multiset(hosts) + multiset{parsed.value})
  {
    if parsed.Ok? {
      var h := parsed.value;
      var i := Position(hosts, HostKey, HostKey(h));
      HeldHost(hosts, h);
      if h !in hosts {
        ImportSpec(hosts, HostKey, h);
        if i < |hosts| && HostKey(hosts[i]) == HostKey(h) {
          HostKeyInjective(hosts[i], h);
        }
        assert Import(hosts, HostKey, h) == Search.Insert(hosts, i, h);
      }
    }
  }

  /** A loop over numbered lines that stops at the first error: `step` applied to the list
      and each line's parse result in turn, the first line numbered `lineNo`. */
  function Loop(parsed: seq<Result<Host>>, hosts: seq<Host>, lineNo: nat,
                step: (seq<Host>, Result<Host>, nat) -> Result<seq<Host>>): Result<seq<Host>>
    decreases |parsed|
  {
    if parsed == [] then Ok(hosts)
    else
      match step(hosts, parsed[0], lineNo)
      case Err(e) => Err(e)
      case Ok(next) => Loop(parsed[1..], next, lineNo + 1, step)
  }

  /** A step that keeps `inv` and, when it succeeds, adds exactly the host of its line. */
  ghost predicate Grows(step: (seq<Host>, Result<Host>, nat) -> Result<seq<Host>>, inv: seq<Host> -> bool) {
    forall hs, p, n :: inv(hs) && step(hs, p, n).Ok? ==>
      p.Ok? && inv(step(hs, p, n).value) && multiset(step(hs, p, n).value) == multiset(hs) + multiset{p.value}
  }

  /** A step that accepts every host its list does not hold. */
  ghost predicate AcceptsNew(step: (seq<Host>, Result<Host>, nat) -> Result<seq<Host>>, inv: seq<Host> -> bool) {
    forall hs, h, n :: inv(hs) && h !in hs ==> step(hs, Ok(h), n).Ok?
  }

  /** Load's step is one of those, with sortedness as the invariant. */
  lemma LoadLineGrows()
    ensures Grows(LoadLine, Sorted) && AcceptsNew(LoadLine, Sorted)
  {
    forall hs, p, n | Sorted(hs) && LoadLine(hs, p, n).Ok?
      ensures p.Ok? && Sorted(LoadLine(hs, p, n).value)
        && multiset(LoadLine(hs, p, n).value) == multiset(hs) + multiset{p.value}
    {
      LoadLineSpec(hs, p, n);
    }
    forall hs, h, n | Sorted(hs) && h !in hs ensures LoadLine(hs, Ok(h), n).Ok? {
      LoadLineSpec(hs, Ok(h), n);
    }
  }

  /** The loop after its first line. */
  lemma LoopCons(parsed: seq<Result<Host>>, hosts: seq<Host>, lineNo: nat,
                 step: (seq<Host>, Result<Host>, nat) -> Result<seq<Host>>)
    requires parsed != []
    ensures var r := step(hosts, parsed[0], lineNo);
      Loop(parsed, hosts, lineNo, step) == if r.Err? then Err(r.error) else Loop(parsed[1..], r.value, lineNo + 1, step)
  {
  }

  /** Once the lines `front` have gone through the loop, it goes on over the lines after
      them from the list they left, with the line number advanced past them. */
  lemma {:induction false} LoopAppend(front: seq<Result<Host>>, back: seq<Result<Host>>, hosts: seq<Host>, lineNo: nat,
                                      step: (seq<Host>, Result<Host>, nat) -> Result<seq<Host>>)
    requires Loop(front, hosts, lineNo, step).Ok?
    ensures Loop(front + back, hosts, lineNo, step) == Loop(back, Loop(front, hosts, lineNo, step).value, lineNo + |front|, step)
    decreases |front|
  {
    if front == [] {
      assert front + back == back;
    } else {
      var all := front + back;
      assert all[0] == front[0] && all[1..] == front[1..] + back;
      LoopAppend(front[1..], back, step(hosts, front[0], lineNo).value, lineNo + 1, step);
    }
  }

  /** When the first k lines went through and line k fails, the loop ends with that
      line's error. */
  lemma LoopStopsAt(parsed: seq<Result<Host>>, hosts: seq<Host>, lineNo: nat, k: nat,
                    step: (seq<Host>, Result<Host>, nat) -> Result<seq<Host>>)
    requires k < |parsed| && Loop(parsed[..k], hosts, lineNo, step).Ok?
    requires step(Loop(parsed[..k], hosts, lineNo, step).value, parsed[k], lineNo + k).Err?
    ensures Loop(parsed, hosts, lineNo, step) == Err(step(Loop(parsed[..k], hosts, lineNo, step).value, parsed[k], lineNo + k).error)
  {
    var front, back := parsed[..k], parsed[k..];
    assert front + back == parsed;
    LoopAppend(front, back, hosts, lineNo, step);
    assert back[0] == parsed[k];
    LoopCons(back, Loop(front, hosts, lineNo, step).value, lineNo + k, step);
  }

  /** A step that keeps `inv` makes the loop keep it. */
  lemma {:induction false} LoopKeeps(parsed: seq<Result<Host>>, hosts: seq<Host>, lineNo: nat,
                                     step: (seq<Host>, Result<Host>, nat) -> Result<seq<Host>>, inv: seq<Host> -> bool)
    requires Grows(step, inv) && inv(hosts)
    ensures Loop(parsed, hosts, lineNo, step).Ok? ==> inv(Loop(parsed, hosts, lineNo, step).value)
    decreases |parsed|
  {
    if parsed != [] && step(hosts, parsed[0], lineNo).Ok? {
      LoopKeeps(parsed[1..], step(hosts, parsed[0], lineNo).value, lineNo + 1, step, inv);
    }
  }

  /** With a step that adds the host of its line, every host the loop starts from is in
      its result, so is the host of every line, and the result has one entry per line more
      than the start. */
  lemma {:induction false} LoopContents(parsed: seq<Result<Host>>, hosts: seq<Host>, lineNo: nat,
                                        step: (seq<Host>, Result<Host>, nat) -> Result<seq<Host>>, inv: seq<Host> -> bool)
    requires Grows(step, inv) && inv(hosts)
    ensures var r := Loop(parsed, hosts, lineNo, step);
      r.Ok? ==>
        |r.value| == |hosts| + |parsed|
        && (forall h :: h in hosts ==> h in r.value)
        && (forall j :: 0 <= j < |parsed| ==> parsed[j].Ok? && parsed[j].value in r.value)
    decreases |parsed|
  {
    var r := Loop(parsed, hosts, lineNo, step);
    if parsed != [] && r.Ok? {
      var next := step(hosts, parsed[0], lineNo).value;
      LoopContents(parsed[1..], next, lineNo + 1, step, inv);
      forall j | 0 <= j < |parsed| ensures parsed[j].Ok? && parsed[j].value in r.value {
        if j > 0 {
          assert parsed[1..][j - 1] == parsed[j];
        } else {
          assert parsed[0].value in multiset(next);
        }
      }
      forall g | g in hosts ensures g in r.value {
        assert g in multiset(next);
      }
    }
  }

  /** With a step that adds the host of its line and accepts any host its list does not
      hold, lines whose hosts all parse and differ from each other and from the starting
      list all go through. */
  lemma {:induction false} LoopSucceeds(parsed: seq<Result<Host>>, hosts: seq<Host>, lineNo: nat,
                                        step: (seq<Host>, Result<Host>, nat) -> Result<seq<Host>>, inv: seq<Host> -> bool)
    requires Grows(step, inv) && AcceptsNew(step, inv) && inv(hosts)
    requires forall j :: 0 <= j < |parsed| ==> parsed[j].Ok? && parsed[j].value !in hosts
    requires forall j, k :: 0 <= j < k < |parsed| ==> parsed[j] != parsed[k]
    ensures Loop(parsed, hosts, lineNo, step).Ok?
    decreases |parsed|
  {
    if parsed != [] {
      var h := parsed[0].value;
      assert step(hosts, Ok(h), lineNo).Ok?;
      var next := step(hosts, parsed[0], lineNo).value;
      assert multiset(next) == multiset(hosts) + multiset{h};
      forall j | 0 <= j < |parsed| - 1 ensures parsed[1..][j].Ok? && parsed[1..][j].value !in next {
        assert parsed[1..][j] == parsed[j + 1];
        assert parsed[j + 1] != parsed[0];
        assert parsed[j + 1].value !in multiset(next);
      }
      forall a, b | 0 <= a < b < |parsed| - 1 ensures parsed[1..][a] != parsed[1..][b] {
        assert parsed[1..][a] == parsed[a + 1] && parsed[1..][b] == parsed[b + 1];
      }
      LoopSucceeds(parsed[1..], next, lineNo + 1, step, inv);
    }
  }

  /** Load (hosts/hosts.go:60-84): a missing file is the empty list; any other failure to
      open or read it is returned; otherwise the loop over the file's lines, numbered from 1.
      What it returns is strictly increasing in cmpHost order, whatever the order of the
      lines. */
  function LoadSpec(st: FsState, faults: Faults): (r: Result<seq<Host>>)
    ensures KnownHostsFile !in st.files ==> r == Ok([])
    ensures var f := ReadFileOf(st, faults, KnownHostsFile);
      f.Err? && !f.error.NotExist? ==> r == Err(f.error)
    ensures r.Ok? ==> Sorted(r.value)
  {
    match ReadFileOf(st, faults, KnownHostsFile)
    case Err(e) => if e.NotExist? then Ok([]) else Err(e)
    case Ok(data) =>
      var parsed := ParseLines(Text.Lines(data));
      LoadLineGrows();
      LoopKeeps(parsed, [], 1, LoadLine, Sorted);
      Loop(parsed, [], 1, LoadLine)
  }

  /** slices.BinarySearchFunc(hosts, host, cmpHost) on a list sorted by cmpHost: where the
      host is or would be inserted, and whether the list holds it. */
  method SearchHost(hosts: seq<Host>, host: Host) returns (i: nat, found: bool)
    requires Sorted(hosts)
    ensures i == Position(hosts, HostKey, HostKey(host))
    ensures found <==> host in hosts
    ensures found ==> i < |hosts| && hosts[i] == host
  {
    forall x: Host ensures CmpHost(x, host) == Compare(HostKey(x), HostKey(host)) {
      CmpHostIsKeyOrder(x, host);
    }
    SortedMonotone(hosts, HostKey, HostKey(host));
    i, found := Search.BinarySearch(hosts, host, CmpHost);
    PositionUnique(hosts, HostKey, HostKey(host), i);
    HeldHost(hosts, host);
  }

  /** Load (hosts/hosts.go:60-84), reading the file through the file system. */
  method Load(fs: FileSystem) returns (r: Result<seq<Host>>)
    ensures r == LoadSpec(fs.state, fs.faults)
  {
    var read := ReadFileOf(fs.state, fs.faults, KnownHostsFile);
    if read.Err? {
      if read.error.NotExist? {
        return Ok([]);
      }
      return Err(read.error);
    }
    var lines := Text.Lines(read.value);
    ghost var parsed := ParseLines(lines);
    var hosts: seq<Host> := [];
    var n := 0;
    assert parsed[n..] == parsed;
    while n < |lines|
      invariant n <= |lines|
      invariant Sorted(hosts)
      invariant Loop(parsed[n..], hosts, n + 1, LoadLine) == Loop(parsed, [], 1, LoadLine)
    {
      ghost var rest := parsed[n..];
      assert rest[0] == ParseHost(lines[n]) && rest[1..] == parsed[n + 1..];
      LoopCons(rest, hosts, n + 1, LoadLine);
      var line := n + 1;
      var host := ParseHost(lines[n]);
      LoadLineSpec(hosts, host, line);
      if host.Err? {
        return Err(BadLine(line, host.error));
      }
      var i, found := SearchHost(hosts, host.value);
      if found {
        return Err(DuplicateEntry(HostString(host.value)));
      }
      hosts := Search.Insert(hosts, i, host.value);
      n := n + 1;
    }
    return Ok(hosts);
  }

  /** Load stops at the first line that does not parse, and reports it by its number,
      counted from 1, with the parser's error. */
  lemma LoadStopsAtBadLine(lines: seq<seq<byte>>, k: nat)
    requires k < |lines| && Loop(ParseLines(lines)[..k], [], 1, LoadLine).Ok?
    requires ParseHost(lines[k]).Err?
    ensures Loop(ParseLines(lines), [], 1, LoadLine) == Err(BadLine(k + 1, ParseHost(lines[k]).error))
  {
    var parsed := ParseLines(lines);
    var mid := Loop(parsed[..k], [], 1, LoadLine).value;
    LoadLineGrows();
    LoopKeeps(parsed[..k], [], 1, LoadLine, Sorted);
    LoadLineSpec(mid, parsed[k], k + 1);
    LoopStopsAt(parsed, [], 1, k, LoadLine);
  }

  /** Load fails on a line whose host equals that of an earlier line, naming that host. */
  lemma LoadStopsAtDuplicate(lines: seq<seq<byte>>, j: nat, k: nat)
    requires j < k < |lines| && Loop(ParseLines(lines)[..k], [], 1, LoadLine).Ok?
    requires ParseHost(lines[k]).Ok? && ParseHost(lines[j]) == ParseHost(lines[k])
    ensures Loop(ParseLines(lines), [], 1, LoadLine) == Err(DuplicateEntry(HostString(ParseHost(lines[k]).value)))
  {
    var parsed := ParseLines(lines);
    var front := parsed[..k];
    var mid := Loop(front, [], 1, LoadLine).value;
    LoadLineGrows();
    LoopKeeps(front, [], 1, LoadLine, Sorted);
    LoopContents(front, [], 1, LoadLine, Sorted);
    assert front[j] == parsed[j];
    LoadLineSpec(mid, parsed[k], k + 1);
    LoopStopsAt(parsed, [], 1, k, LoadLine);
  }

  /** A file whose lines all parse, to hosts that differ from each other, loads into a
      sorted list holding exactly those hosts, one entry per line. */
  lemma LoadAllLines(lines: seq<seq<byte>>)
    requires forall j :: 0 <= j < |lines| ==> ParseHost(lines[j]).Ok?
    requires forall j, k :: 0 <= j < k < |lines| ==> ParseHost(lines[j]) != ParseHost(lines[k])
    ensures var r := Loop(ParseLines(lines), [], 1, LoadLine);
      r.Ok? && Sorted(r.value) && |r.value| == |lines|
      && forall j :: 0 <= j < |lines| ==> ParseHost(lines[j]).value in r.value
  {
    var parsed := ParseLines(lines);
    LoadLineGrows();
    LoopSucceeds(parsed, [], 1, LoadLine, Sorted);
    LoopKeeps(parsed, [], 1, LoadLine, Sorted);
    LoopContents(parsed, [], 1, LoadLine, Sorted);
  }

  /** Two hosts with one address and different keys are both kept: a file of two lines
      naming them (as Store writes them, by ParseHostString) loads into a list of both. */
  lemma LoadKeepsSameAddress(lines: seq<seq<byte>>, g: Host, h: Host)
    requires g.addr == h.addr && g != h
    requires |lines| == 2 && ParseHost(lines[0]) == Ok(g) && ParseHost(lines[1]) == Ok(h)
    ensures var r := Loop(ParseLines(lines), [], 1, LoadLine);
      r.Ok? && |r.value| == 2 && g in r.value && h in r.value
  {
    TwoLinesDistinct(lines);
    LoadAllLines(lines);
  }

  /** Two lines that parse to different hosts parse to pairwise different results. */
  lemma TwoLinesDistinct(lines: seq<seq<byte>>)
    requires |lines| == 2 && ParseHost(lines[0]) != ParseHost(lines[1])
    ensures forall j, k :: 0 <= j < k < |lines| ==> ParseHost(lines[j]) != ParseHost(lines[k])
  {
    forall j, k | 0 <= j < k < |lines| ensures ParseHost(lines[j]) != ParseHost(lines[k]) {
      assert j == 0 && k == 1;
    }
  }
  /** slices.SortFunc(hosts, cmpHost): the hosts in cmpHost order (CmpHostIsKeyOrder), an
      entry that occurs twice kept twice. */
  function SortHosts(hosts: seq<Host>): (r: seq<Host>)
    ensures multiset(r) == multiset(hosts) && SortedBy(r, HostKey)
  {
    Sort(hosts, HostKey)
  }

  /** Any arrangement of the hosts in cmpHost order is the one SortHosts gives, so the model
      does not depend on the sorting algorithm. */
  lemma SortHostsUnique(hosts: seq<Host>, r: seq<Host>)
    requires multiset(r) == multiset(hosts) && SortedBy(r, HostKey)
    ensures r == SortHosts(hosts)
  {
    forall x, y | HostKey(x) == HostKey(y) ensures x == y {
      HostKeyInjective(x, y);
    }
    SortedUnique(r, SortHosts(hosts), HostKey);
  }

  /** Sorting hosts that are already in strictly increasing order changes nothing. */
  lemma SortSortedHosts(hosts: seq<Host>)
    requires Sorted(hosts)
    ensures SortHosts(hosts) == hosts
  {
    SortStrictlySorted(hosts, HostKey);
  }

  /** Hosts none of which occurs twice sort into a strictly increasing list. */
  lemma SortDistinctHosts(hosts: seq<Host>)
    requires forall h :: multiset(hosts)[h] <= 1
    ensures Sorted(SortHosts(hosts))
  {
    var r := SortHosts(hosts);
    forall x ensures multiset(r)[x] <= 1 {
      assert multiset(r)[x] == multiset(hosts)[x];
    }
    NoRepeats(r);
    forall i, j | 0 <= i < j < |r| ensures HostKey(r[i]) != HostKey(r[j]) {
      if HostKey(r[i]) == HostKey(r[j]) {
        HostKeyInjective(r[i], r[j]);
      }
    }
    SortedDistinct(r, HostKey);
  }

  /** The mode the known-hosts file has after os.Create: that of the file it truncates, or
      0666 for a new one. */
  function StoredMode(st: FsState): nat {
    if KnownHostsFile in st.files then st.files[KnownHostsFile].mode else CreateMode
  }

  /** Store (hosts/hosts.go:112-126): the hosts sorted, the file created or truncated, one
      line per host. Only the creation can fail; if the writes fail, the file is left empty
      and Store still reports success. */
  function StoreSpec(st: FsState, faults: Faults, hosts: seq<Host>): (r: Step)
    ensures r.err.Some? <==> KnownHostsFile.dir !in st.dirs || KnownHostsFile in faults.create
    ensures r.err.Some? ==> r.st == st
    ensures r.err.None? ==> r.st == st.(files := st.files[KnownHostsFile := File(
      if KnownHostsFile in faults.write then [] else Render(SortHosts(hosts)), StoredMode(st))])
  {
    var created := CreateStep(st, faults, KnownHostsFile);
    if created.err.Some? then created
    else
      var lines := LinesOf(SortHosts(hosts));
      CreateThenWrite(st, faults, KnownHostsFile, lines);
      Step(None, WriteEach(created.st, faults, KnownHostsFile, lines))
  }

  /** Store (hosts/hosts.go:112-126), through the file system. The caller's slice is sorted
      in place in the source; here the sorted list is a new value. */
  method Store(fs: FileSystem, hosts: seq<Host>) returns (err: Option<Error>)
    modifies fs
    ensures Step(err, fs.state) == StoreSpec(old(fs.state), fs.faults, hosts)
  {
    var sorted := SortHosts(hosts);
    err := fs.Create(KnownHostsFile);
    if err.Some? {
      return;
    }
    ghost var created := fs.state;
    var lines := LinesOf(sorted);
    for k := 0 to |sorted|
      invariant fs.state == WriteEach(created, fs.faults, KnownHostsFile, lines[..k])
    {
      WriteEachStep(created, fs.faults, KnownHostsFile, lines, k);
      var _ := fs.Write(KnownHostsFile, lines[k]);
    }
    assert lines[..|sorted|] == lines;
  }
  /** When every step appends its line's host, the loop builds the list of those hosts in
      order. */
  lemma {:induction false} LoopBuilds(parsed: seq<Result<Host>>, s: seq<Host>, k: nat, lineNo: nat,
                                      step: (seq<Host>, Result<Host>, nat) -> Result<seq<Host>>)
    requires |parsed| == |s| && k <= |s|
    requires forall j :: k <= j < |s| ==> parsed[j] == Ok(s[j])
    requires forall j, n :: k <= j < |s| ==> step(s[..j], Ok(s[j]), n) == Ok(s[..j + 1])
    ensures Loop(parsed[k..], s[..k], lineNo, step) == Ok(s)
    decreases |s| - k
  {
    if k == |s| {
      assert s[..k] == s;
    } else {
      var rest := parsed[k..];
      assert rest[0] == Ok(s[k]) && rest[1..] == parsed[k + 1..];
      LoopCons(rest, s[..k], lineNo, step);
      LoopBuilds(parsed, s, k + 1, lineNo + 1, step);
    }
  }

  /** A host greater than all in the list goes at its end. */
  lemma LoadLineAppends(hosts: seq<Host>, j: nat, n: nat)
    requires Sorted(hosts) && j < |hosts|
    ensures LoadLine(hosts[..j], Ok(hosts[j]), n) == Ok(hosts[..j + 1])
  {
    var front := hosts[..j];
    PositionUnique(front, HostKey, HostKey(hosts[j]), j);
    assert Search.Insert(front, j, hosts[j]) == hosts[..j + 1];
  }

  /** The file Store writes for a strictly sorted list loads back as that list. */
  lemma LoadRendered(hosts: seq<Host>)
    requires Sorted(hosts)
    ensures Loop(ParseLines(Text.Lines(Render(hosts))), [], 1, LoadLine) == Ok(hosts)
  {
    LinesOfRender(hosts);
    var parsed := ParseLines(Strings(hosts));
    forall j | 0 <= j < |hosts| ensures parsed[j] == Ok(hosts[j]) {
      ParseHostString(hosts[j]);
    }
    forall j, n | 0 <= j < |hosts| ensures LoadLine(hosts[..j], Ok(hosts[j]), n) == Ok(hosts[..j + 1]) {
      LoadLineAppends(hosts, j, n);
    }
    LoopBuilds(parsed, hosts, 0, 1, LoadLine);
    assert parsed[0..] == parsed && hosts[..0] == [];
  }

  /** Load after Store (hosts/hosts.go:112-126 then 60-84): where the file can be created,
      written and read, a list in which no host occurs twice is stored and loaded back as
      the same hosts in cmpHost order. */
  lemma LoadAfterStore(st: FsState, faults: Faults, hosts: seq<Host>)
    requires KnownHostsFile.dir in st.dirs
    requires KnownHostsFile !in faults.create && KnownHostsFile !in faults.write && KnownHostsFile !in faults.read
    requires forall h :: multiset(hosts)[h] <= 1
    ensures var stored := StoreSpec(st, faults, hosts);
      stored.err.None? && LoadSpec(stored.st, faults) == Ok(SortHosts(hosts))
  {
    var sorted := SortHosts(hosts);
    SortDistinctHosts(hosts);
    var stored := StoreSpec(st, faults, hosts);
    assert ReadFileOf(stored.st, faults, KnownHostsFile) == Ok(Render(sorted));
    LoadRendered(sorted);
  }
  /** Storing a strictly sorted list and loading it back gives the same list. */
  lemma LoadAfterStoreSorted(st: FsState, faults: Faults, hosts: seq<Host>)
    requires KnownHostsFile.dir in st.dirs
    requires KnownHostsFile !in faults.create && KnownHostsFile !in faults.write && KnownHostsFile !in faults.read
    requires Sorted(hosts)
    ensures var stored := StoreSpec(st, faults, hosts);
      stored.err.None? && LoadSpec(stored.st, faults) == Ok(hosts)
  {
    SortSortedHosts(hosts);
    var stored := StoreSpec(st, faults, hosts);
    assert ReadFileOf(stored.st, faults, KnownHostsFile) == Ok(Render(hosts));
    LoadRendered(hosts);
  }

  /** Add's change to the loaded list (hosts/hosts.go:33-39): the entry binary search finds
      equal to the host is overwritten with it, or the host is inserted where the search
      ends. */
  function AddTo(hosts: seq<Host>, host: Host): (r: seq<Host>)
    ensures host in r
    ensures multiset(r) == multiset(hosts) || multiset(r) == multiset(hosts) + multiset{host}
  {
    var i := Position(hosts, HostKey, HostKey(host));
    if i < |hosts| && hosts[i] == host then
      assert hosts[i := host] == hosts;
      hosts[i := host]
    else
      var r := Search.Insert(hosts, i, host);
      assert r[i] == host;
      r
  }

  /** Add keeps the list strictly sorted. An identical triple already present leaves it as
      it is; any other host, a new key for a known address included, makes it one entry
      longer, every earlier entry kept. */
  lemma AddToSpec(hosts: seq<Host>, host: Host)
    requires Sorted(hosts)
    ensures var r := AddTo(hosts, host);
      Sorted(r) && host in r
      && (host in hosts ==> r == hosts)
      && (host !in hosts ==> |r| == |hosts| + 1 && multiset(r) == multiset(hosts) + multiset{host})
      && forall g :: g in hosts ==> g in r
  {
    var i := Position(hosts, HostKey, HostKey(host));
    HeldHost(hosts, host);
    if host in hosts {
      assert hosts[i := host] == hosts;
    } else {
      LoadLineSpec(hosts, Ok(host), 0);
      var r := AddTo(hosts, host);
      assert r == LoadLine(hosts, Ok(host), 0).value;
      forall g | g in hosts ensures g in r {
        assert g in multiset(r);
      }
      assert host in multiset(r);
    }
  }

  /** Add (hosts/hosts.go:26-42): the known hosts loaded, the host added, the list stored.
      A failing load is returned before anything is written. */
  function AddSpec(st: FsState, faults: Faults, host: Host): (r: Step)
    ensures LoadSpec(st, faults).Err? ==> r == Step(Some(LoadSpec(st, faults).error), st)
  {
    match LoadSpec(st, faults)
    case Err(e) => Step(Some(e), st)
    case Ok(hosts) => StoreSpec(st, faults, AddTo(hosts, host))
  }

  /** Add (hosts/hosts.go:26-42), through the file system. The log line on replacement is
      not modelled. */
  method Add(fs: FileSystem, host: Host) returns (err: Option<Error>)
    modifies fs
    ensures Step(err, fs.state) == AddSpec(old(fs.state), fs.faults, host)
  {
    var loaded := Load(fs);
    if loaded.Err? {
      return Some(loaded.error);
    }
    var hosts := loaded.value;
    var i, found := SearchHost(hosts, host);
    if found {
      hosts := hosts[i := host];
    } else {
      hosts := Search.Insert(hosts, i, host);
    }
    SearchThenPlace(loaded.value, host, i, found);
    err := Store(fs, hosts);
  }

  /** Replacing at the position found, or inserting there, is AddTo. */
  lemma SearchThenPlace(hosts: seq<Host>, host: Host, i: nat, found: bool)
    requires i == Position(hosts, HostKey, HostKey(host))
    requires found <==> host in hosts
    requires found ==> i < |hosts| && hosts[i] == host
    ensures (if found then hosts[i := host] else Search.Insert(hosts, i, host)) == AddTo(hosts, host)
  {
  }

  /** After a successful Add, where the file can be created, written and read, Load returns
      the updated list: the host is known, and every host known before still is. */
  lemma LoadAfterAdd(st: FsState, faults: Faults, host: Host)
    requires LoadSpec(st, faults).Ok?
    requires KnownHostsFile.dir in st.dirs
    requires KnownHostsFile !in faults.create && KnownHostsFile !in faults.write && KnownHostsFile !in faults.read
    ensures var before := LoadSpec(st, faults).value;
      var added := AddSpec(st, faults, host);
      added.err.None? && LoadSpec(added.st, faults) == Ok(AddTo(before, host))
      && host in AddTo(before, host) && forall g :: g in before ==> g in AddTo(before, host)
  {
    var before := LoadSpec(st, faults).value;
    AddToSpec(before, host);
    LoadAfterStoreSorted(st, faults, AddTo(before, host));
  }

  /** The index of the first entry with the address, or the length when there is none. */
  function FirstIndex(hosts: seq<Host>, addr: Ip.Addr): (k: nat)
    ensures k <= |hosts| && forall j :: 0 <= j < k ==> hosts[j].addr != addr
    ensures k < |hosts| ==> hosts[k].addr == addr
  {
    if hosts == [] || hosts[0].addr == addr then 0 else 1 + FirstIndex(hosts[1..], addr)
  }

  /** The index FirstIndex describes is the only one that fits its contract. */
  lemma {:induction false} FirstIndexUnique(hosts: seq<Host>, addr: Ip.Addr, i: nat)
    requires i <= |hosts| && forall j :: 0 <= j < i ==> hosts[j].addr != addr
    requires i < |hosts| ==> hosts[i].addr == addr
    ensures FirstIndex(hosts, addr) == i
  {
    if i > 0 {
      assert forall j :: 0 <= j < i - 1 ==> hosts[1..][j] == hosts[j + 1];
      FirstIndexUnique(hosts[1..], addr, i - 1);
    }
  }

  /** What Lookup answers for a loaded list: the first entry with the address, or "no such
      host" naming the address. */
  function LookupIn(hosts: seq<Host>, addr: Ip.Addr): (r: Result<Host>)
    ensures r.Ok? <==> exists j :: 0 <= j < |hosts| && hosts[j].addr == addr
    ensures r.Ok? ==> r.value in hosts && r.value.addr == addr
    ensures r.Err? ==> r == Err(NoSuchHost(Ip.String(addr)))
  {
    var k := FirstIndex(hosts, addr);
    if k < |hosts| then Ok(hosts[k]) else Err(NoSuchHost(Ip.String(addr)))
  }

  /** In a list sorted by cmpHost, the entry Lookup answers is the least in cmpHost order
      among those with the address: with several keys for one address, the one with the
      smallest box key wins, not the one added last. */
  lemma LookupInFirst(hosts: seq<Host>, addr: Ip.Addr)
    requires Sorted(hosts) && LookupIn(hosts, addr).Ok?
    ensures forall g :: g in hosts && g.addr == addr ==> CmpHost(LookupIn(hosts, addr).value, g) <= 0
  {
    var k := FirstIndex(hosts, addr);
    forall g | g in hosts && g.addr == addr ensures CmpHost(hosts[k], g) <= 0 {
      var j :| 0 <= j < |hosts| && hosts[j] == g;
      CmpHostIsKeyOrder(hosts[k], g);
      if j == k {
        CompareZeroIffEqual(HostKey(g), HostKey(g));
      }
    }
  }

  /** Lookup (hosts/hosts.go:44-56): a failing load, or the answer for the loaded list. */
  function LookupSpec(st: FsState, faults: Faults, addr: Ip.Addr): (r: Result<Host>)
    ensures KnownHostsFile !in st.files ==> r == Err(NoSuchHost(Ip.String(addr)))
    ensures LoadSpec(st, faults).Err? ==> r == Err(LoadSpec(st, faults).error)
    ensures LoadSpec(st, faults).Ok? ==>
      (r.Ok? <==> exists h :: h in LoadSpec(st, faults).value && h.addr == addr)
    ensures r.Ok? ==> r.value.addr == addr
  {
    match LoadSpec(st, faults)
    case Err(e) => Err(e)
    case Ok(hosts) => LookupIn(hosts, addr)
  }

  /** Where a binary search by cmpHostAddr ends on a sorted list, the first entry with the
      address is, if there is one. */
  lemma SearchFindsFirst(hosts: seq<Host>, addr: Ip.Addr, i: nat)
    requires Sorted(hosts) && i <= |hosts|
    requires forall j :: 0 <= j < i ==> CmpHostAddr(hosts[j], addr) < 0
    requires forall j :: i <= j < |hosts| ==> CmpHostAddr(hosts[j], addr) >= 0
    ensures FirstIndex(hosts, addr) == if i < |hosts| && hosts[i].addr == addr then i else |hosts|
  {
    SortedByAddress(hosts, addr);
    if i < |hosts| && hosts[i].addr == addr {
      FirstIndexUnique(hosts, addr, i);
    } else {
      forall j | 0 <= j < |hosts| ensures hosts[j].addr != addr {
        if j > i {
          assert Ip.Compare(hosts[i].addr, hosts[j].addr) <= 0;
          assert Ip.Compare(hosts[i].addr, addr) > 0;
        }
      }
      FirstIndexUnique(hosts, addr, |hosts|);
    }
  }

  /** Lookup (hosts/hosts.go:44-56), through the file system: a binary search by address
      over the loaded list. */
  method Lookup(fs: FileSystem, addr: Ip.Addr) returns (r: Result<Host>)
    ensures r == LookupSpec(fs.state, fs.faults, addr)
  {
    var loaded := Load(fs);
    if loaded.Err? {
      return Err(loaded.error);
    }
    var hosts := loaded.value;
    SortedByAddress(hosts, addr);
    var i, found := Search.BinarySearch(hosts, addr, CmpHostAddr);
    SearchFindsFirst(hosts, addr, i);
    if found {
      return Ok(hosts[i]);
    }
    return Err(NoSuchHost(Ip.String(addr)));
  }
}
