/** handshake.go: the earlier revision of the key exchange, in the main package. The
    receiving side reads two keys and asks the operator about each, with a verifyKey that
    answers (accepted, error); the sending side writes the box key only. Listening, accepting
    and dialing are not modelled: their outcomes are parameters. */
module HandshakeMain {
  import opened Bytes
  import opened Wrappers
  import opened Os
  import Ip
  import Key
  import Hosts
  import HostPort
  import opened Terminal
  import HandshakeReceive
  import HandshakeSend

  type Conn = HandshakeReceive.Conn
  type Outcome = HandshakeReceive.Outcome

  /** What verifyKey returns, and the terminal input left after it. */
  datatype Answer = Answer(ok: bool, err: Option<Error>, rest: Stdin)

  /** verifyKey (handshake.go:177-194): accepted only on "yes"; "no" and the empty answer,
      the default, are a refusal without error; a read error is passed on, not accepted. */
  function AskSpec(input: Stdin): (r: Answer)
    ensures var s := ScanSpec(KeyResponses, input);
      r.rest == s.rest
      && (r.ok <==> s.result == Ok("yes"))
      && (r.err.Some? <==> s.result.Err?)
      && (s.result.Err? ==> r.err == Some(s.result.error))
      && (r.err.Some? ==> !r.ok)
  {
    var s := ScanSpec(KeyResponses, input);
    match s.result
    case Err(e) => Answer(false, Some(e), s.rest)
    case Ok(response) => Answer(response == "yes", None, s.rest)
  }

  /** verifyKey (handshake.go:177-194), prompting through `scan`. */
  method VerifyKey(input: Stdin) returns (ok: bool, err: Option<Error>, rest: Stdin)
    ensures Answer(ok, err, rest) == AskSpec(input)
  {
    var response;
    response, rest := Scan(KeyResponses, input);
    if response.Err? {
      return false, Some(response.error), rest;
    }
    if response.value == "yes" {
      ok, err := true, None;
    } else if response.value == "no" {
      ok, err := false, None;
    } else {
      assert response.value == "";
      ok, err := false, None;
    }
  }

  /** The two revisions' verifyKey agree: an answer without error and not accepted is the
      later revision's rejection error. */
  lemma AskAgreesWithVerifyKey(input: Stdin)
    ensures var a := AskSpec(input); var v := HandshakeReceive.VerifyKeySpec(input);
      a.rest == v.rest && (a.ok <==> v.err.None?)
      && (a.err.Some? ==> v.err == a.err)
      && (a.err.None? && !a.ok ==> v.err == Some(HostKeyRejected))
  {
  }

  /** handshakeRecv (handshake.go:112-173), with the text the address is parsed from left
      open: as written it is the remote endpoint's whole text (`fixed` false), in the
      corrected version the host part split off it (`fixed` true). */
  function Recv(st: FsState, faults: Faults, accepted: Result<Conn>, input: Stdin, fixed: bool): (r: Outcome)
    ensures accepted.Err? ==> r == HandshakeReceive.Outcome(Some(accepted.error), st, input)
    ensures accepted.Ok? && |accepted.value.data| < 64 ==>
      r == HandshakeReceive.Outcome(HandshakeReceive.ReceiveKeys(accepted.value.data).err, st, input)
    ensures r.st != st ==>
      (accepted.Ok? && |accepted.value.data| >= 64 && AskSpec(input).ok && AskSpec(AskSpec(input).rest).ok)
  {
    match accepted
    case Err(e) => HandshakeReceive.Outcome(Some(e), st, input)
    case Ok(conn) =>
      match HandshakeReceive.ReadFull(conn.data, 32)
      case Err(e) => HandshakeReceive.Outcome(Some(e), st, input)
      case Ok((box, rest)) =>
        match HandshakeReceive.ReadFull(rest, 32)
        case Err(e) => HandshakeReceive.Outcome(Some(e), st, input)
        case Ok((sig, _)) =>
          match HostPort.SplitHostPort(HostPort.TcpString(conn.remote))
          case Err(e) => HandshakeReceive.Outcome(Some(e), st, input)
          case Ok(split) =>
            var first := AskSpec(input);
            if first.err.Some? then HandshakeReceive.Outcome(first.err, st, first.rest)
            else if !first.ok then HandshakeReceive.Outcome(Some(HostKeyRejected), st, first.rest)
            else
              var second := AskSpec(first.rest);
              if second.err.Some? then HandshakeReceive.Outcome(second.err, st, second.rest)
              else if !second.ok then HandshakeReceive.Outcome(Some(HostKeyRejected), st, second.rest)
              else
                match Ip.ParseAddr(if fixed then split.0 else HostPort.TcpString(conn.remote))
                case Err(e) => HandshakeReceive.Outcome(Some(e), st, second.rest)
                case Ok(raddr) =>
                  var added := Hosts.AddSpec(st, faults, Hosts.Host(raddr, box, sig));
                  HandshakeReceive.Outcome(added.err, added.st, second.rest)
  }

  /** handshakeRecv (handshake.go:112-173) as written: the known-hosts file is never
      changed, and a failing accept is returned as it is. */
  function HandshakeRecvSpec(st: FsState, faults: Faults, accepted: Result<Conn>, input: Stdin): (r: Outcome)
    ensures r.st == st
    ensures accepted.Err? ==> r.err == Some(accepted.error) && r.rest == input
  {
    if accepted.Ok? then
      HostPort.SplitTcpString(accepted.value.remote);
      HostPort.TcpStringNeverParses(accepted.value.remote);
      Recv(st, faults, accepted, input, false)
    else Recv(st, faults, accepted, input, false)
  }

  /** handshakeRecv (handshake.go:112-173), as written. Logging is not modelled. */
  method HandshakeRecv(fs: FileSystem, accepted: Result<Conn>, input: Stdin) returns (err: Option<Error>, rest: Stdin)
    modifies fs
    ensures HandshakeReceive.Outcome(err, fs.state, rest) == HandshakeRecvSpec(old(fs.state), fs.faults, accepted, input)
  {
    if accepted.Err? {
      return Some(accepted.error), input;
    }
    var conn := accepted.value;
    var box := HandshakeReceive.ReadFull(conn.data, 32);
    if box.Err? {
      return Some(box.error), input;
    }
    var sig := HandshakeReceive.ReadFull(box.value.1, 32);
    if sig.Err? {
      return Some(sig.error), input;
    }
    var split := HostPort.SplitHostPort(HostPort.TcpString(conn.remote));
    if split.Err? {
      return Some(split.error), input;
    }
    var ok;
    ok, err, rest := VerifyKey(input);
    if err.Some? {
      return;
    }
    if !ok {
      return Some(HostKeyRejected), rest;
    }
    ok, err, rest := VerifyKey(rest);
    if err.Some? {
      return;
    }
    if !ok {
      return Some(HostKeyRejected), rest;
    }
    var raddr := Ip.ParseAddr(HostPort.TcpString(conn.remote));
    if raddr.Err? {
      return Some(raddr.error), rest;
    }
    err := Hosts.Add(fs, Hosts.Host(raddr.value, box.value.0, sig.value.0));
  }

  /** As written, handshakeRecv never records the peer: the text it parses as an address is
      "a.b.c.d:port", which no address parses from. Even when both keys are accepted it
      fails, with the known-hosts file untouched. */
  lemma HandshakeRecvNeverStores(st: FsState, faults: Faults, accepted: Result<Conn>, input: Stdin)
    ensures HandshakeRecvSpec(st, faults, accepted, input).st == st
    ensures accepted.Ok? && |accepted.value.data| >= 64 && AskSpec(input).ok && AskSpec(AskSpec(input).rest).ok ==>
      HandshakeRecvSpec(st, faults, accepted, input).err == Some(BadAddr(HostPort.TcpString(accepted.value.remote)))
  {
    if accepted.Ok? {
      HostPort.SplitTcpString(accepted.value.remote);
      HostPort.TcpStringNeverParses(accepted.value.remote);
    }
  }

  /** handshakeRecv with the address parsed from the host part of the remote endpoint. */
  function HandshakeRecvFixed(st: FsState, faults: Faults, accepted: Result<Conn>, input: Stdin): Outcome {
    Recv(st, faults, accepted, input, true)
  }

  /** Corrected, handshakeRecv does exactly what receive of the later revision does: the
      peer is recorded as (address, box key, signature key) once both keys are accepted. */
  lemma HandshakeRecvFixedIsReceive(st: FsState, faults: Faults, accepted: Result<Conn>, input: Stdin)
    ensures HandshakeRecvFixed(st, faults, accepted, input) == HandshakeReceive.ReceiveSpec(st, faults, accepted, input)
  {
    if accepted.Ok? && |accepted.value.data| >= 64 {
      var conn := accepted.value;
      HostPort.SplitTcpString(conn.remote);
      HandshakeReceive.ReceiveDecides(st, faults, conn, input);
      AskAgreesWithVerifyKey(input);
      if AskSpec(input).ok {
        AskAgreesWithVerifyKey(AskSpec(input).rest);
        assert conn.data[32..][..32] == conn.data[32..64];
      }
    }
  }

  /** The bytes handshakeSend delivers, and its error. */
  type Sent = HandshakeSend.Sent

  /** handshakeSend (handshake.go:69-91): the public box key is read from its file (this
      revision generates nothing), the dial either reaches the peer or not, and the key is
      written in one write that the peer takes or not. */
  function HandshakeSendSpec(st: FsState, faults: Faults, reached: bool, writeOk: bool): (r: Sent)
    ensures r.err.None? <==> Key.LoadBoxPublicKey(st, faults).err.None? && reached && writeOk
    ensures r.err.None? ==> r.wire == Key.LoadBoxPublicKey(st, faults).value && |r.wire| == 32
    ensures r.err.Some? ==> r.wire == []
  {
    var key := Key.LoadBoxPublicKey(st, faults);
    if key.err.Some? then HandshakeSend.Sent(key.err, [])
    else if !reached then HandshakeSend.Sent(Some(DialFailure), [])
    else if !writeOk then HandshakeSend.Sent(Some(WriteFailure), [])
    else HandshakeSend.Sent(None, key.value)
  }

  /** What handshakeSend delivers never satisfies handshakeRecv of the same revision: the
      receiver gets the box key, then the end of the stream where it waits for the
      signature key, and fails before asking the operator anything. */
  lemma SendThenRecvStops(st: FsState, faults: Faults, remote: HostPort.TcpAddr, st2: FsState, faults2: Faults, input: Stdin)
    requires HandshakeSendSpec(st, faults, true, true).err.None?
    ensures var wire := HandshakeSendSpec(st, faults, true, true).wire;
      HandshakeRecvSpec(st2, faults2, Ok(HandshakeReceive.Conn(wire, remote)), input)
        == HandshakeReceive.Outcome(Some(Eof), st2, input)
  {
  }
}
