/** handshake/receive.go: the receiving half of the key exchange. The peer's two public keys
    are read off the accepted connection, the operator confirms each of them at the
    terminal, and only then is the peer recorded in the known-hosts file. Listening and
    accepting are not modelled: the accepted connection, or the error, is a parameter. */
module HandshakeReceive {
  import opened Bytes
  import opened Wrappers
  import opened Os
  import Ip
  import Box
  import Sig
  import Hosts
  import HostPort
  import opened Terminal

  /** An accepted connection: the bytes the peer sends before it closes the connection,
      and the peer's address, conn.RemoteAddr(). */
  datatype Conn = Conn(data: seq<byte>, remote: HostPort.TcpAddr)

  /** The two public keys a host sends: its box (encryption) key and its signature key. */
  datatype Keys = Keys(box: Box.BoxPublicKey, sig: Sig.SigPublicKey)

  const ZeroKeys: Keys := Keys(Zeros(32), Zeros(32))

  /** io.ReadFull of n bytes from a stream that holds `data` and then ends: the n bytes
      and the rest of the stream; io.EOF when nothing is left, io.ErrUnexpectedEOF when the
      stream ends within the n bytes. */
  function ReadFull(data: seq<byte>, n: nat): (r: Result<(seq<byte>, seq<byte>)>)
    ensures r.Ok? <==> n <= |data|
    ensures r.Ok? ==> |r.value.0| == n && r.value.0 + r.value.1 == data
    ensures r.Err? ==> r.error == (if data == [] then Eof else UnexpectedEof)
  {
    if n <= |data| then Ok((data[..n], data[n..]))
    else if data == [] then Err(Eof)
    else Err(UnexpectedEof)
  }

  /** receiveKeys (handshake/receive.go:70-88): 32 bytes of box key, then 32 bytes of
      signature key. A stream that ends before either is complete is an error, reported
      with both keys zero; io.EOF when it ends exactly before a key. */
  function ReceiveKeys(data: seq<byte>): (r: Ret<Keys>)
    ensures r.err.None? <==> |data| >= 64
    ensures r.err.None? ==> r.value.box == data[..32] && r.value.sig == data[32..64]
    ensures r.err.Some? ==> r.value == ZeroKeys
    ensures |data| < 64 ==> r.err == Some(if |data| == 0 || |data| == 32 then Eof else UnexpectedEof)
  {
    match ReadFull(data, 32)
    case Err(e) => Ret(ZeroKeys, Some(e))
    case Ok((box, rest)) =>
      match ReadFull(rest, 32)
      case Err(e) => Ret(ZeroKeys, Some(e))
      case Ok((sig, _)) =>
        assert rest == data[32..];
        Ret(Keys(box, sig), None)
  }

  /** The error of a confirmation (None when the key is accepted) and the terminal input
      left after it. */
  datatype Verdict = Verdict(err: Option<Error>, rest: Stdin)

  /** verifyKey (handshake/receive.go:103-120): the key is accepted only when the operator
      answers "yes"; "no" and the empty answer, the default, reject it; a read error is
      passed on. The key and the host are only shown in the prompt. */
  function VerifyKeySpec(input: Stdin): (r: Verdict)
    ensures var s := ScanSpec(KeyResponses, input);
      r.rest == s.rest
      && (r.err.None? <==> s.result == Ok("yes"))
      && (s.result.Err? ==> r.err == Some(s.result.error))
      && (s.result.Ok? && s.result.value != "yes" ==> (s.result.value == "no" || s.result.value == "") && r.err == Some(HostKeyRejected))
  {
    var s := ScanSpec(KeyResponses, input);
    match s.result
    case Err(e) => Verdict(Some(e), s.rest)
    case Ok(response) => if response == "yes" then Verdict(None, s.rest) else Verdict(Some(HostKeyRejected), s.rest)
  }

  /** verifyKey (handshake/receive.go:103-120), prompting through `scan`. */
  method VerifyKey(input: Stdin) returns (err: Option<Error>, rest: Stdin)
    ensures Verdict(err, rest) == VerifyKeySpec(input)
  {
    var response;
    response, rest := Scan(KeyResponses, input);
    if response.Err? {
      return Some(response.error), rest;
    }
    if response.value == "yes" {
      err := None;
    } else if response.value == "no" {
      err := Some(HostKeyRejected);
    } else {
      assert response.value == "";
      err := Some(HostKeyRejected);
    }
  }

  /** The first line whose trimmed text is an answer decides: "yes" accepts the key, "no"
      and a blank line reject it, and the lines after it are left for the next prompt. */
  lemma VerifyKeyAnswer(input: Stdin, k: nat)
    requires k < |input.lines| && TrimSpace(input.lines[k]) in KeyResponses
    requires forall j :: 0 <= j < k ==> TrimSpace(input.lines[j]) !in KeyResponses
    ensures VerifyKeySpec(input).rest == Stdin(input.lines[k + 1..], input.fails)
    ensures VerifyKeySpec(input).err.None? <==> TrimSpace(input.lines[k]) == "yes"
  {
    ScanFirstAllowed(KeyResponses, input, k);
  }

  /** When the input ends before any answer, the key is rejected by default, or the read
      error is reported; it is never accepted. */
  lemma VerifyKeyNoAnswer(input: Stdin)
    requires forall j :: 0 <= j < |input.lines| ==> TrimSpace(input.lines[j]) !in KeyResponses
    ensures VerifyKeySpec(input).err == Some(if input.fails then StdinFailure else HostKeyRejected)
  {
    ScanNoneAllowed(KeyResponses, input);
  }

  /** verifyKeys (handshake/receive.go:92-99): the box key is confirmed first, and only if
      it is accepted is the signature key prompted for. */
  function VerifyKeysSpec(input: Stdin): (r: Verdict)
    ensures var box := VerifyKeySpec(input);
      (box.err.Some? ==> r == box)
      && (box.err.None? ==> r == VerifyKeySpec(box.rest))
  {
    var box := VerifyKeySpec(input);
    if box.err.Some? then box else VerifyKeySpec(box.rest)
  }

  /** verifyKeys (handshake/receive.go:92-99). */
  method VerifyKeys(input: Stdin) returns (err: Option<Error>, rest: Stdin)
    ensures Verdict(err, rest) == VerifyKeysSpec(input)
  {
    err, rest := VerifyKey(input);
    if err.Some? {
      return;
    }
    err, rest := VerifyKey(rest);
  }

  /** Both keys are accepted exactly when the operator's first answer is "yes" and so is
      the next one; the signature key's prompt reads on from where the box key's stopped. */
  lemma VerifyKeysAnswers(input: Stdin, k1: nat, k2: nat)
    requires k1 < k2 < |input.lines|
    requires TrimSpace(input.lines[k1]) in KeyResponses && TrimSpace(input.lines[k2]) in KeyResponses
    requires forall j :: 0 <= j < k2 && j != k1 ==> TrimSpace(input.lines[j]) !in KeyResponses
    ensures VerifyKeysSpec(input).err.None? <==> TrimSpace(input.lines[k1]) == "yes" && TrimSpace(input.lines[k2]) == "yes"
    ensures TrimSpace(input.lines[k1]) == "yes" ==> VerifyKeysSpec(input).rest == Stdin(input.lines[k2 + 1..], input.fails)
  {
    assert forall j :: 0 <= j < k1 ==> TrimSpace(input.lines[j]) !in KeyResponses;
    VerifyKeyAnswer(input, k1);
    if TrimSpace(input.lines[k1]) == "yes" {
      SecondAnswer(input, k1, k2);
    }
  }

  /** After the first answer, at k1, the next answer stands at k2 of the original input. */
  lemma SecondAnswer(input: Stdin, k1: nat, k2: nat)
    requires k1 < k2 < |input.lines| && TrimSpace(input.lines[k2]) in KeyResponses
    requires forall j :: k1 < j < k2 ==> TrimSpace(input.lines[j]) !in KeyResponses
    ensures var rest := Stdin(input.lines[k1 + 1..], input.fails);
      VerifyKeySpec(rest).rest == Stdin(input.lines[k2 + 1..], input.fails)
      && (VerifyKeySpec(rest).err.None? <==> TrimSpace(input.lines[k2]) == "yes")
  {
    var rest := Stdin(input.lines[k1 + 1..], input.fails);
    forall j | 0 <= j < k2 - k1 - 1
      ensures TrimSpace(rest.lines[j]) !in KeyResponses
    {
      assert rest.lines[j] == input.lines[k1 + 1 + j];
    }
    assert rest.lines[k2 - k1 - 1] == input.lines[k2];
    VerifyKeyAnswer(rest, k2 - k1 - 1);
    assert rest.lines[k2 - k1..] == input.lines[k2 + 1..];
  }

  /** The error receive returns, the file system after it, and the terminal input left. */
  datatype Outcome = Outcome(err: Option<Error>, st: FsState, rest: Stdin)

  /** The entry receive records for the peer. */
  function Received(conn: Conn): Hosts.Host
    requires |conn.data| >= 64
  {
    Hosts.Host(conn.remote.ip, conn.data[..32], conn.data[32..64])
  }

  /** receive (handshake/receive.go:29-57). The known-hosts file is changed only through
      Add, reached only once the keys were read in full and the operator accepted both; a
      failure to accept or read ends it before any prompt. */
  function ReceiveSpec(st: FsState, faults: Faults, accepted: Result<Conn>, input: Stdin): (r: Outcome)
    ensures r.st != st ==> accepted.Ok? && |accepted.value.data| >= 64 && VerifyKeysSpec(input).err.None?
    ensures accepted.Err? ==> r == Outcome(Some(accepted.error), st, input)
    ensures accepted.Ok? && |accepted.value.data| < 64 ==>
      r == Outcome(ReceiveKeys(accepted.value.data).err, st, input) && r.err.Some?
    ensures VerifyKeysSpec(input).err.Some? ==> r.st == st && r.err.Some?
  {
    match accepted
    case Err(e) => Outcome(Some(e), st, input)
    case Ok(conn) =>
      var keys := ReceiveKeys(conn.data);
      if keys.err.Some? then Outcome(keys.err, st, input)
      else
        match HostPort.SplitHostPort(HostPort.TcpString(conn.remote))
        case Err(e) => Outcome(Some(e), st, input)
        case Ok(split) =>
          match Ip.ParseAddr(split.0)
          case Err(e) => Outcome(Some(e), st, input)
          case Ok(raddr) =>
            var verdict := VerifyKeysSpec(input);
            if verdict.err.Some? then Outcome(verdict.err, st, verdict.rest)
            else
              var added := Hosts.AddSpec(st, faults, Hosts.Host(raddr, keys.value.box, keys.value.sig));
              Outcome(added.err, added.st, verdict.rest)
  }

  /** receive (handshake/receive.go:29-57). Logging is not modelled. */
  method Receive(fs: FileSystem, accepted: Result<Conn>, input: Stdin) returns (err: Option<Error>, rest: Stdin)
    modifies fs
    ensures Outcome(err, fs.state, rest) == ReceiveSpec(old(fs.state), fs.faults, accepted, input)
  {
    if accepted.Err? {
      return Some(accepted.error), input;
    }
    var conn := accepted.value;
    var keys := ReceiveKeys(conn.data);
    if keys.err.Some? {
      return keys.err, input;
    }
    var split := HostPort.SplitHostPort(HostPort.TcpString(conn.remote));
    if split.Err? {
      return Some(split.error), input;
    }
    var raddr := Ip.ParseAddr(split.value.0);
    if raddr.Err? {
      return Some(raddr.error), input;
    }
    err, rest := VerifyKeys(input);
    if err.Some? {
      return;
    }
    err := Hosts.Add(fs, Hosts.Host(raddr.value, keys.value.box, keys.value.sig));
  }

  /** Once both keys have arrived, the operator decides: a rejection is returned with the
      store untouched, and acceptance hands exactly (remote address, box key, signature key)
      to Add. The address always splits off the remote endpoint and parses. */
  lemma ReceiveDecides(st: FsState, faults: Faults, conn: Conn, input: Stdin)
    requires |conn.data| >= 64
    ensures var verdict := VerifyKeysSpec(input);
      var r := ReceiveSpec(st, faults, Ok(conn), input);
      (verdict.err.Some? ==> r == Outcome(verdict.err, st, verdict.rest))
      && (verdict.err.None? ==>
            var added := Hosts.AddSpec(st, faults, Received(conn));
            r == Outcome(added.err, added.st, verdict.rest))
  {
    HostPort.SplitTcpString(conn.remote);
  }

  /** When the keys arrive, the operator accepts both and the known-hosts file can be
      read and rewritten, receive succeeds and the peer is known afterwards, beside every
      host known before. */
  lemma ReceiveRecordsPeer(st: FsState, faults: Faults, conn: Conn, input: Stdin)
    requires |conn.data| >= 64 && VerifyKeysSpec(input).err.None?
    requires Hosts.LoadSpec(st, faults).Ok?
    requires Hosts.KnownHostsFile.dir in st.dirs
    requires Hosts.KnownHostsFile !in faults.create && Hosts.KnownHostsFile !in faults.write
    requires Hosts.KnownHostsFile !in faults.read
    ensures var r := ReceiveSpec(st, faults, Ok(conn), input);
      r.err.None? && Hosts.LoadSpec(r.st, faults).Ok?
      && Received(conn) in Hosts.LoadSpec(r.st, faults).value
      && forall g :: g in Hosts.LoadSpec(st, faults).value ==> g in Hosts.LoadSpec(r.st, faults).value
  {
    ReceiveDecides(st, faults, conn, input);
    Hosts.LoadAfterAdd(st, faults, Received(conn));
  }
}
