/** handshake/send.go: the sending half of the key exchange. The local public keys are
    loaded, the keypairs being generated first on a first run, and written to the peer:
    the box key, then the signature key. The dial's retry loop and its clock are not
    modelled: the peer says which ports it listens on and how many writes it takes. */
module HandshakeSend {
  import opened Bytes
  import opened Wrappers
  import opened Os
  import Box
  import Sig
  import BoxGen
  import SigGen
  import Hex
  import KeyFile
  import HostPort
  import Ip
  import HandshakeReceive

  type Keys = HandshakeReceive.Keys

  /** The keypairs generation would produce and whether generating each fails: the random
      source, as parameters. */
  datatype Generated = Generated(
    boxPub: Box.Key32, boxPriv: Box.Key32, boxFails: bool,
    sigPub: Sig.SigPublicKey, sigPriv: Sig.SigPrivateKey, sigFails: bool)

  /** The keys loadKeys returns, its error and the file system after it. */
  datatype Loaded = Loaded(keys: Keys, err: Option<Error>, st: FsState)

  /** What key.LoadBoxPublicKey does (key/box.go:46-53): generation of the box keypair when
      neither of its files exists, then the public key. */
  function LoadBoxPublic(st: FsState, faults: Faults, gen: Generated): Loaded {
    var made := BoxGen.GenerateBoxKeypairIfNotExistSpec(st, faults, Hex.Encode(gen.boxPub), Hex.Encode(gen.boxPriv), gen.boxFails);
    var key := Box.LoadedBoxPublicKey(made, faults);
    Loaded(HandshakeReceive.Keys(key.value, Zeros(32)), key.err, made.st)
  }

  /** What key.LoadSigPublicKey does (key/sig.go:46-53), after the box key was loaded. */
  function LoadSigPublic(st: FsState, faults: Faults, gen: Generated): Ret<Sig.SigPublicKey> {
    var made := SigGen.GenerateSigKeypairIfNotExistSpec(st, faults, Hex.Encode(gen.sigPub), Hex.Encode(gen.sigPriv), gen.sigFails);
    Sig.LoadedSigPublicKey(made, faults)
  }

  /** The file system after key.LoadSigPublicKey. */
  function SigGenerated(st: FsState, faults: Faults, gen: Generated): FsState {
    SigGen.GenerateSigKeypairIfNotExistSpec(st, faults, Hex.Encode(gen.sigPub), Hex.Encode(gen.sigPriv), gen.sigFails).st
  }

  /** loadKeys (handshake/send.go:24-31): the box key first; when it fails, its error with
      both keys zero, and the signature keypair is neither generated nor loaded. Otherwise
      the signature key, returned beside the box key with its own error. */
  function LoadKeysSpec(st: FsState, faults: Faults, gen: Generated): (r: Loaded)
    ensures var box := LoadBoxPublic(st, faults, gen);
      (box.err.Some? ==> r == Loaded(HandshakeReceive.ZeroKeys, box.err, box.st))
      && (box.err.None? ==>
            r.keys.box == box.keys.box && Ret(r.keys.sig, r.err) == LoadSigPublic(box.st, faults, gen)
            && r.st == SigGenerated(box.st, faults, gen))
  {
    var box := LoadBoxPublic(st, faults, gen);
    if box.err.Some? then Loaded(HandshakeReceive.ZeroKeys, box.err, box.st)
    else
      var sig := LoadSigPublic(box.st, faults, gen);
      Loaded(HandshakeReceive.Keys(box.keys.box, sig.value), sig.err, SigGenerated(box.st, faults, gen))
  }

  /** loadKeys (handshake/send.go:24-31), through the key loaders. */
  method LoadKeys(fs: FileSystem, gen: Generated) returns (keys: Keys, err: Option<Error>)
    modifies fs
    ensures Loaded(keys, err, fs.state) == LoadKeysSpec(old(fs.state), fs.faults, gen)
  {
    var box;
    box, err := Box.LoadBoxPublicKey(fs, gen.boxPub, gen.boxPriv, gen.boxFails);
    if err.Some? {
      return HandshakeReceive.ZeroKeys, err;
    }
    var sig;
    sig, err := Sig.LoadSigPublicKey(fs, gen.sigPub, gen.sigPriv, gen.sigFails);
    keys := HandshakeReceive.Keys(box, sig);
  }

  /** On a later run, when the four key files hold the encodings of two keypairs and can
      be read, loadKeys returns the two public keys and changes nothing. */
  lemma LoadKeysLaterRun(st: FsState, faults: Faults, gen: Generated, box: Box.BoxKeypair, sig: Sig.SigKeypair)
    requires KeyFile.BoxPubKeyFile in st.files && st.files[KeyFile.BoxPubKeyFile].data == Hex.Encode(box.public)
    requires KeyFile.BoxPrivKeyFile in st.files && st.files[KeyFile.BoxPrivKeyFile].data == Hex.Encode(box.private)
    requires KeyFile.SigPubKeyFile in st.files && st.files[KeyFile.SigPubKeyFile].data == Hex.Encode(sig.public)
    requires KeyFile.SigPrivKeyFile in st.files && st.files[KeyFile.SigPrivKeyFile].data == Hex.Encode(sig.private)
    requires KeyFile.BoxPubKeyFile !in faults.stat && KeyFile.BoxPrivKeyFile !in faults.stat
    requires KeyFile.SigPubKeyFile !in faults.stat && KeyFile.SigPrivKeyFile !in faults.stat
    requires KeyFile.BoxPubKeyFile !in faults.read && KeyFile.SigPubKeyFile !in faults.read
    requires KeyFile.SigPrivKeyFile !in faults.read
    ensures LoadKeysSpec(st, faults, gen) == Loaded(HandshakeReceive.Keys(box.public, sig.public), None, st)
  {
    Box.LoadBoxKeyEncoded(st, faults, KeyFile.BoxPubKeyFile, box.public);
    Sig.LoadSigEncoded(st, faults, sig.public, sig.private);
  }

  /** The remote end as the dial sees it: the TCP ports it listens on (the host name is
      taken to resolve to it), and how many writes go through before the connection breaks.
      A failing write writes nothing. */
  datatype Peer = Peer(ports: set<HostPort.Port>, accepts: nat)

  /** Whether dialing the "host:port" text reaches the peer: the text splits and its port
      is a port number the peer listens on. dialWithTimeout retries until it does or the
      minute is up, so a text that cannot reach the peer ends in its "connection refused". */
  predicate Reaches(address: seq<byte>, peer: Peer) {
    match HostPort.SplitHostPort(address)
    case Err(_) => false
    case Ok(split) => HostPort.PortValue(split.1).Some? && HostPort.PortValue(split.1).value in peer.ports
  }

  /** The error sendKeys returns and the bytes the peer receives. */
  datatype Sent = Sent(err: Option<Error>, wire: seq<byte>)

  /** What sendKeys does once the address is formed: dial, write the box key, write the
      signature key, each failure ending it. */
  function SendKeysTo(address: seq<byte>, keys: Keys, peer: Peer): (r: Sent)
    ensures r.err.None? <==> Reaches(address, peer) && peer.accepts >= 2
    ensures r.err.None? ==> r.wire == keys.box + keys.sig
    ensures r.err.Some? ==> r.wire == [] || r.wire == keys.box
    ensures Reaches(address, peer) && peer.accepts == 0 ==> r == Sent(Some(WriteFailure), [])
    ensures !Reaches(address, peer) ==> r == Sent(Some(DialFailure), [])
  {
    if !Reaches(address, peer) then Sent(Some(DialFailure), [])
    else if peer.accepts == 0 then Sent(Some(WriteFailure), [])
    else if peer.accepts == 1 then Sent(Some(WriteFailure), keys.box)
    else Sent(None, keys.box + keys.sig)
  }

  /** The receiver reads a complete pair of keys exactly when sending went through, and
      then it reads the pair that was sent. */
  lemma SendThenReceive(address: seq<byte>, keys: Keys, peer: Peer)
    ensures var sent := SendKeysTo(address, keys, peer);
      (HandshakeReceive.ReceiveKeys(sent.wire).err.None? <==> sent.err.None?)
      && (sent.err.None? ==> HandshakeReceive.ReceiveKeys(sent.wire) == Ret(keys, None))
  {
    var sent := SendKeysTo(address, keys, peer);
    if sent.err.None? {
      var w := sent.wire;
      assert w[..32] == keys.box && w[32..64] == keys.sig;
    }
  }

  /** The port constant of handshake/handshake.go:12, as text. */
  const PortText: seq<byte> := [54, 48, 51, 50, 50]   // "60322"

  /** fmt.Sprintf("%d", s) for a string s: Go's bad-verb text "%!d(string=<s>)". */
  function SprintfD(s: seq<byte>): (r: seq<byte>)
    ensures |r| > 0 && r[0] == 37   // '%'
    ensures HostPort.Colon !in s ==> HostPort.Colon !in r
  {
    [37, 33, 100, 40, 115, 116, 114, 105, 110, 103, 61] + s + [41]
  }

  /** The address sendKeys dials (handshake/send.go:34), as written: whenever the text
      splits at all, its port is the bad-verb text, not "60322". */
  function DialAddress(rhost: seq<byte>): (r: seq<byte>)
    ensures HostPort.SplitHostPort(r).Ok? ==> HostPort.SplitHostPort(r).value.1 == SprintfD(PortText)
  {
    var port := SprintfD(PortText);
    var prefix := if HostPort.Colon in rhost then [HostPort.LBracket] + rhost + [HostPort.RBracket] else rhost;
    var address := HostPort.JoinHostPort(rhost, port);
    if HostPort.SplitHostPort(address).Ok? then
      HostPort.SplitPortOf(prefix, port);
      address
    else address
  }

  /** sendKeys (handshake/send.go:33-52), as written: box key then signature key reach the
      peer exactly when the dialed address reaches it and it takes both writes. */
  function SendKeys(rhost: seq<byte>, keys: Keys, peer: Peer): (r: Sent)
    ensures r.err.None? <==> Reaches(DialAddress(rhost), peer) && peer.accepts >= 2
    ensures r.err.None? ==> r.wire == keys.box + keys.sig
    ensures r.err.Some? ==> r.wire == [] || r.wire == keys.box
  {
    SendKeysTo(DialAddress(rhost), keys, peer)
  }

  /** As written, the port of the dialed address is the text "%!d(string=60322)", which is
      no port number: whatever the host and the peer, sendKeys fails to connect and sends
      nothing. */
  lemma SendKeysNeverConnects(rhost: seq<byte>, keys: Keys, peer: Peer)
    ensures SendKeys(rhost, keys, peer) == Sent(Some(DialFailure), [])
  {
    var port := SprintfD(PortText);
    if HostPort.SplitHostPort(DialAddress(rhost)).Ok? {
      assert !Ip.IsDigit(port[0]);
    }
  }

  /** The address sendKeys evidently means to dial: the host and the port "60322". */
  function FixedDialAddress(rhost: seq<byte>): seq<byte> {
    HostPort.JoinHostPort(rhost, PortText)
  }

  /** sendKeys dialing FixedDialAddress. */
  function SendKeysFixed(rhost: seq<byte>, keys: Keys, peer: Peer): Sent {
    SendKeysTo(FixedDialAddress(rhost), keys, peer)
  }

  /** With the port written as the number it is, a peer listening on port 60322 that takes
      both writes receives the box key followed by the signature key. */
  lemma SendKeysFixedDelivers(rhost: seq<byte>, keys: Keys, peer: Peer)
    requires HostPort.LBracket !in rhost && HostPort.RBracket !in rhost
    requires 60322 in peer.ports && peer.accepts >= 2
    ensures SendKeysFixed(rhost, keys, peer) == Sent(None, keys.box + keys.sig)
  {
    var address := FixedDialAddress(rhost);
    HostPort.SplitJoin(rhost, PortText);
    assert HostPort.SplitHostPort(address) == Ok((rhost, PortText));
    PortTextValue();
    assert Reaches(address, peer);
  }

  /** "60322" is the port number 60322. */
  lemma PortTextValue()
    ensures HostPort.PortValue(PortText) == Some(60322)
  {
    var d := PortText;
    assert d[..1] == [54] && d[..2] == [54, 48] && d[..3] == [54, 48, 51] && d[..4] == [54, 48, 51, 50];
    assert Ip.DecimalValue(d[..1]) == 6 by {
      assert d[..1][..0] == [];
    }
    assert Ip.DecimalValue(d[..2]) == 60 by {
      assert d[..2][..1] == d[..1];
    }
    assert Ip.DecimalValue(d[..3]) == 603 by {
      assert d[..3][..2] == d[..2];
    }
    assert Ip.DecimalValue(d[..4]) == 6032 by {
      assert d[..4][..3] == d[..3];
    }
    assert Ip.DecimalValue(d) == 60322 by {
      assert d[..4] == d[..|d| - 1];
    }
  }

  /** send (handshake/send.go:14-22): load the keys, then send them. */
  function SendSpec(st: FsState, faults: Faults, gen: Generated, rhost: seq<byte>, peer: Peer): (r: (Sent, FsState))
    ensures LoadKeysSpec(st, faults, gen).err.Some? ==> r.0 == Sent(LoadKeysSpec(st, faults, gen).err, [])
    ensures r.1 == LoadKeysSpec(st, faults, gen).st
  {
    var loaded := LoadKeysSpec(st, faults, gen);
    if loaded.err.Some? then (Sent(loaded.err, []), loaded.st)
    else (SendKeys(rhost, loaded.keys, peer), loaded.st)
  }

  /** send (handshake/send.go:14-22). */
  method Send(fs: FileSystem, gen: Generated, rhost: seq<byte>, peer: Peer) returns (sent: Sent)
    modifies fs
    ensures (sent, fs.state) == SendSpec(old(fs.state), fs.faults, gen, rhost, peer)
  {
    var keys, err := LoadKeys(fs, gen);
    if err.Some? {
      return Sent(err, []);
    }
    sent := SendKeys(rhost, keys, peer);
  }
}
