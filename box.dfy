/** key/box.go: NaCl box keys, their hexadecimal decoder and order, the saltpack key
    accessors, and the loading of the keypair from its files, generating it first when
    neither file exists. */
module Box {
  import opened Bytes
  import opened Wrappers
  import opened Os
  import Hex
  import opened KeyFile
  import BoxGen

  /** A Go `[32]byte`. */
  type Key32 = k: seq<byte> | |k| == 32 witness Zeros(32)

  type BoxPublicKey = Key32
  type BoxPrivateKey = Key32

  datatype BoxKeypair = BoxKeypair(public: BoxPublicKey, private: BoxPrivateKey)

  /** BoxKeypair{}: the zero value returned beside every error. */
  const ZeroKeypair: BoxKeypair := BoxKeypair(Zeros(32), Zeros(32))

  /** decodeBoxKey: exactly 64 hexadecimal digits of either case, two per key byte, high
      nibble first; a length whose half is not 32 is a "malformed box key" error and a
      non-digit the error of hex.Decode, both with the zero key. */
  function DecodeBoxKey(buf: seq<byte>): (r: Ret<Key32>)
    ensures r.err.None? <==> |buf| == 64 && forall i :: 0 <= i < 64 ==> Hex.IsHexDigit(buf[i])
    ensures Hex.DecodedLen(|buf|) != 32 ==> r.err == Some(MalformedKey("box key", 32, Hex.DecodedLen(|buf|)))
    ensures Hex.DecodedLen(|buf|) == 32 && r.err.Some? ==> Hex.Decode(buf).Err? && r.err == Some(Hex.Decode(buf).error)
    ensures r.err.Some? ==> r.value == Zeros(32)
    ensures r.err.None? ==> forall i :: 0 <= i < 32 ==>
      r.value[i] == 16 * Hex.DigitValue(buf[2 * i]) + Hex.DigitValue(buf[2 * i + 1])
  {
    var d := Hex.DecodeKey(buf, 32, "box key");
    Ret(d.value, d.err)
  }

  /** DecodeBoxPublicKey: decodeBoxKey read as a public key. What it accepts is the
      encoding of the key it returns, up to the case of the digits. */
  function DecodeBoxPublicKey(buf: seq<byte>): (r: Ret<BoxPublicKey>)
    ensures r.err.None? <==> |buf| == 64 && forall i :: 0 <= i < 64 ==> Hex.IsHexDigit(buf[i])
    ensures r.err.Some? ==> r.value == Zeros(32)
    ensures r.err.None? ==> Hex.Encode(r.value) == Hex.Lower(buf)
  {
    var key := DecodeBoxKey(buf);
    if key.err.None? then Hex.EncodeDecodeKey(buf, 32, "box key"); key else key
  }

  /** Decoding what encode wrote gives the key back, for the public and the private file. */
  lemma DecodeBoxKeyEncode(key: Key32)
    ensures DecodeBoxKey(Hex.Encode(key)) == Ret(key, None)
    ensures DecodeBoxPublicKey(Hex.Encode(key)) == Ret(key, None)
  {
    Hex.DecodeKeyEncode(key, "box key");
  }

  /** BoxPublicKey.Compare: bytes.Compare on the key bytes, zero exactly for equal keys and
      reversed when the keys are swapped. */
  function Compare(a: BoxPublicKey, b: BoxPublicKey): (r: int)
    ensures -1 <= r <= 1
    ensures r == 0 <==> a == b
    ensures r == -Bytes.Compare(b, a)
  {
    CompareZeroIffEqual(a, b);
    CompareAntisymmetric(a, b);
    Bytes.Compare(a, b)
  }

  /** The order Compare puts box public keys in is transitive. */
  lemma CompareTransitive(a: BoxPublicKey, b: BoxPublicKey, c: BoxPublicKey)
    ensures Compare(a, b) < 0 && Compare(b, c) < 0 ==> Compare(a, c) < 0
    ensures Compare(a, b) <= 0 && Compare(b, c) <= 0 ==> Compare(a, c) <= 0
  {
    CompareIsTotalOrder(a, b, c);
  }

  /** ToKID: the key identifier saltpack uses is the 32 key bytes themselves. */
  function ToKID(key: BoxPublicKey): (kid: seq<byte>)
    ensures |kid| == 32 && forall i :: 0 <= i < 32 ==> kid[i] == key[i]
  {
    key
  }

  /** ToRawBoxKeyPointer: the raw saltpack key is the key bytes. */
  function ToRawBoxKeyPointer(key: BoxPublicKey): (raw: Key32)
    ensures forall i :: 0 <= i < 32 ==> raw[i] == key[i]
  {
    key
  }

  /** HideIdentity: the receiver's key is always shown in the saltpack header. */
  function HideIdentity(key: BoxPublicKey): (hidden: bool)
    ensures !hidden
  {
    false
  }

  /** loadBoxKey: loadKey with decodeBoxKey. */
  function LoadBoxKey(st: FsState, faults: Faults, p: Path): (r: Ret<Key32>)
    ensures var f := ReadFileOf(st, faults, p);
      (f.Err? ==> r == Ret(Zeros(32), Some(f.error)))
      && (r.err.None? <==> f.Ok? && |f.value| == 64 && forall i :: 0 <= i < 64 ==> Hex.IsHexDigit(f.value[i]))
      && (r.err.Some? ==> r.value == Zeros(32))
      && (r.err.None? ==> Hex.Encode(r.value) == Hex.Lower(f.value))
  {
    var f := ReadFileOf(st, faults, p);
    if f.Ok? && DecodeBoxKey(f.value).err.None? then
      Hex.EncodeDecodeKey(f.value, 32, "box key");
      LoadKey<Key32>(st, faults, p, DecodeBoxKey, Zeros(32))
    else LoadKey<Key32>(st, faults, p, DecodeBoxKey, Zeros(32))
  }

  /** A readable file holding the encoding of a key loads as that key. */
  lemma LoadBoxKeyEncoded(st: FsState, faults: Faults, p: Path, key: Key32)
    requires p in st.files && st.files[p].data == Hex.Encode(key) && p !in faults.read
    ensures LoadBoxKey(st, faults, p) == Ret(key, None)
  {
    assert ReadFileOf(st, faults, p) == Ok(Hex.Encode(key));
    DecodeBoxKeyEncode(key);
  }

  /** What LoadBoxKeypair returns once generation has left `gen`: the generation error,
      else the public key's load error, else the private key's, each with the zero keypair;
      else the two keys read back. */
  function LoadedBoxKeypair(gen: Step, faults: Faults): (r: Ret<BoxKeypair>)
    ensures gen.err.Some? ==> r == Ret(ZeroKeypair, gen.err)
    ensures r.err.Some? ==> r.value == ZeroKeypair
    ensures gen.err.None? && LoadBoxKey(gen.st, faults, BoxPubKeyFile).err.Some? ==>
      r.err == LoadBoxKey(gen.st, faults, BoxPubKeyFile).err
    ensures r.err.None? <==>
      gen.err.None? && LoadBoxKey(gen.st, faults, BoxPubKeyFile).err.None?
      && LoadBoxKey(gen.st, faults, BoxPrivKeyFile).err.None?
    ensures r.err.None? ==>
      r.value == BoxKeypair(LoadBoxKey(gen.st, faults, BoxPubKeyFile).value, LoadBoxKey(gen.st, faults, BoxPrivKeyFile).value)
  {
    if gen.err.Some? then Ret(ZeroKeypair, gen.err)
    else
      var pub := LoadBoxKey(gen.st, faults, BoxPubKeyFile);
      if pub.err.Some? then Ret(ZeroKeypair, pub.err)
      else
        var priv := LoadBoxKey(gen.st, faults, BoxPrivKeyFile);
        if priv.err.Some? then Ret(ZeroKeypair, priv.err)
        else Ret(BoxKeypair(pub.value, priv.value), None)
  }

  /** LoadBoxKeypair (key/box.go:25-42): generation when neither file exists, then the
      public key, then the private key. The generated keypair and whether generating it
      fails are parameters. */
  method LoadBoxKeypair(fs: FileSystem, genPub: Key32, genPriv: Key32, genFails: bool) returns (pair: BoxKeypair, err: Option<Error>)
    modifies fs
    ensures var gen := BoxGen.GenerateBoxKeypairIfNotExistSpec(old(fs.state), fs.faults, Hex.Encode(genPub), Hex.Encode(genPriv), genFails);
      fs.state == gen.st && Ret(pair, err) == LoadedBoxKeypair(gen, fs.faults)
  {
    err := BoxGen.GenerateBoxKeypairIfNotExist(fs, genPub, genPriv, genFails);
    if err.Some? {
      return ZeroKeypair, err;
    }
    var pub := LoadBoxKey(fs.state, fs.faults, BoxPubKeyFile);
    if pub.err.Some? {
      return ZeroKeypair, pub.err;
    }
    var priv := LoadBoxKey(fs.state, fs.faults, BoxPrivKeyFile);
    if priv.err.Some? {
      return ZeroKeypair, priv.err;
    }
    return BoxKeypair(pub.value, priv.value), None;
  }

  /** What LoadBoxPublicKey returns once generation has left `gen`: the generation error
      with the zero key, else the public key file loaded. */
  function LoadedBoxPublicKey(gen: Step, faults: Faults): (r: Ret<BoxPublicKey>)
    ensures gen.err.Some? ==> r == Ret(Zeros(32), gen.err)
    ensures gen.err.None? ==> r == LoadBoxKey(gen.st, faults, BoxPubKeyFile)
  {
    if gen.err.Some? then Ret(Zeros(32), gen.err) else LoadBoxKey(gen.st, faults, BoxPubKeyFile)
  }

  /** LoadBoxPublicKey (key/box.go:46-53): generation when neither file exists, then the
      public key. */
  method LoadBoxPublicKey(fs: FileSystem, genPub: Key32, genPriv: Key32, genFails: bool) returns (key: BoxPublicKey, err: Option<Error>)
    modifies fs
    ensures var gen := BoxGen.GenerateBoxKeypairIfNotExistSpec(old(fs.state), fs.faults, Hex.Encode(genPub), Hex.Encode(genPriv), genFails);
      fs.state == gen.st && Ret(key, err) == LoadedBoxPublicKey(gen, fs.faults)
  {
    err := BoxGen.GenerateBoxKeypairIfNotExist(fs, genPub, genPriv, genFails);
    if err.Some? {
      return Zeros(32), err;
    }
    var loaded := LoadBoxKey(fs.state, fs.faults, BoxPubKeyFile);
    key, err := loaded.value, loaded.err;
  }

  /** On a first run, when neither key file exists and every call goes through, the keypair
      loaded is the one generated. */
  lemma LoadBoxKeypairFirstRun(st: FsState, faults: Faults, genPub: Key32, genPriv: Key32)
    requires CanCreate(st, faults, BoxPubKeyFile) && CanCreate(st, faults, BoxPrivKeyFile)
    requires BoxPubKeyFile !in faults.write && BoxPrivKeyFile !in faults.write
    requires BoxPubKeyFile !in faults.read && BoxPrivKeyFile !in faults.read
    ensures var gen := BoxGen.GenerateBoxKeypairIfNotExistSpec(st, faults, Hex.Encode(genPub), Hex.Encode(genPriv), false);
      LoadedBoxKeypair(gen, faults) == Ret(BoxKeypair(genPub, genPriv), None)
  {
    KeyFilesDistinct();
    var gen := BoxGen.GenerateBoxKeypairIfNotExistSpec(st, faults, Hex.Encode(genPub), Hex.Encode(genPriv), false);
    BoxGen.GenerateBoxKeypairSucceeds(st, faults, Hex.Encode(genPub), Hex.Encode(genPriv), false);
    assert gen.err.None?;
    LoadBoxKeyEncoded(gen.st, faults, BoxPubKeyFile, genPub);
    LoadBoxKeyEncoded(gen.st, faults, BoxPrivKeyFile, genPriv);
  }

  /** On a later run, when both files hold the encodings of a keypair, that keypair is
      loaded and nothing is generated or changed, whatever generation would have written. */
  lemma LoadBoxKeypairLaterRun(st: FsState, faults: Faults, pub: Key32, priv: Key32, pubText: seq<byte>, privText: seq<byte>, genFails: bool)
    requires BoxPubKeyFile in st.files && st.files[BoxPubKeyFile].data == Hex.Encode(pub)
    requires BoxPrivKeyFile in st.files && st.files[BoxPrivKeyFile].data == Hex.Encode(priv)
    requires BoxPubKeyFile !in faults.stat && BoxPrivKeyFile !in faults.stat
    requires BoxPubKeyFile !in faults.read && BoxPrivKeyFile !in faults.read
    ensures var gen := BoxGen.GenerateBoxKeypairIfNotExistSpec(st, faults, pubText, privText, genFails);
      gen.st == st && LoadedBoxKeypair(gen, faults) == Ret(BoxKeypair(pub, priv), None)
  {
    LoadBoxKeyEncoded(st, faults, BoxPubKeyFile, pub);
    LoadBoxKeyEncoded(st, faults, BoxPrivKeyFile, priv);
  }
}
