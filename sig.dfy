/** key/sig.go: NaCl signature keys, their hexadecimal decoders and order, the saltpack
    key identifier, and the loading of the keypair from its files, generating it first
    when neither file exists. */
module Sig {
  import opened Bytes
  import opened Wrappers
  import opened Os
  import Hex
  import opened KeyFile
  import SigGen

  /** A Go `[32]byte`: the public signature verification key. */
  type SigPublicKey = k: seq<byte> | |k| == 32 witness Zeros(32)

  /** A Go `[64]byte`: the private signing key. */
  type SigPrivateKey = k: seq<byte> | |k| == 64 witness Zeros(64)

  datatype SigKeypair = SigKeypair(public: SigPublicKey, private: SigPrivateKey)

  /** SigKeypair{}: the zero value returned beside every error. */
  const ZeroKeypair: SigKeypair := SigKeypair(Zeros(32), Zeros(64))

  /** DecodeSigPublicKey: exactly 64 hexadecimal digits of either case, two per key byte;
      a length whose half is not 32 is a "malformed signature verification key" error, a
      non-digit the error of hex.Decode, both with the zero key. */
  function DecodeSigPublicKey(buf: seq<byte>): (r: Ret<SigPublicKey>)
    ensures r.err.None? <==> |buf| == 64 && forall i :: 0 <= i < 64 ==> Hex.IsHexDigit(buf[i])
    ensures Hex.DecodedLen(|buf|) != 32 ==>
      r.err == Some(MalformedKey("signature verification key", 32, Hex.DecodedLen(|buf|)))
    ensures Hex.DecodedLen(|buf|) == 32 && r.err.Some? ==> Hex.Decode(buf).Err? && r.err == Some(Hex.Decode(buf).error)
    ensures r.err.Some? ==> r.value == Zeros(32)
    ensures r.err.None? ==> Hex.Encode(r.value) == Hex.Lower(buf)
  {
    var d := Hex.DecodeKey(buf, 32, "signature verification key");
    if d.err.None? then Hex.EncodeDecodeKey(buf, 32, "signature verification key"); Ret(d.value, d.err)
    else Ret(d.value, d.err)
  }

  /** DecodeSigPrivateKey: exactly 128 hexadecimal digits of either case; a length whose
      half is not 64 is a "malformed signing key" error, a non-digit the error of
      hex.Decode, both with the zero key. */
  function DecodeSigPrivateKey(buf: seq<byte>): (r: Ret<SigPrivateKey>)
    ensures r.err.None? <==> |buf| == 128 && forall i :: 0 <= i < 128 ==> Hex.IsHexDigit(buf[i])
    ensures Hex.DecodedLen(|buf|) != 64 ==> r.err == Some(MalformedKey("signing key", 64, Hex.DecodedLen(|buf|)))
    ensures Hex.DecodedLen(|buf|) == 64 && r.err.Some? ==> Hex.Decode(buf).Err? && r.err == Some(Hex.Decode(buf).error)
    ensures r.err.Some? ==> r.value == Zeros(64)
    ensures r.err.None? ==> Hex.Encode(r.value) == Hex.Lower(buf)
  {
    var d := Hex.DecodeKey(buf, 64, "signing key");
    if d.err.None? then Hex.EncodeDecodeKey(buf, 64, "signing key"); Ret(d.value, d.err)
    else Ret(d.value, d.err)
  }

  /** Decoding what encode wrote gives the key back: 64 digits for the public key, 128 for
      the private key. */
  lemma DecodeSigKeysEncode(pub: SigPublicKey, priv: SigPrivateKey)
    ensures |Hex.Encode(pub)| == 64 && DecodeSigPublicKey(Hex.Encode(pub)) == Ret(pub, None)
    ensures |Hex.Encode(priv)| == 128 && DecodeSigPrivateKey(Hex.Encode(priv)) == Ret(priv, None)
  {
    Hex.DecodeKeyEncode(pub, "signature verification key");
    Hex.DecodeKeyEncode(priv, "signing key");
  }

  /** SigPublicKey.Compare: bytes.Compare on the key bytes, zero exactly for equal keys and
      reversed when the keys are swapped. */
  function Compare(a: SigPublicKey, b: SigPublicKey): (r: int)
    ensures -1 <= r <= 1
    ensures r == 0 <==> a == b
    ensures r == -Bytes.Compare(b, a)
  {
    CompareZeroIffEqual(a, b);
    CompareAntisymmetric(a, b);
    Bytes.Compare(a, b)
  }

  /** ToKID: the key identifier saltpack uses is the 32 key bytes themselves. */
  function ToKID(key: SigPublicKey): (kid: seq<byte>)
    ensures |kid| == 32 && forall i :: 0 <= i < 32 ==> kid[i] == key[i]
  {
    key
  }

  /** The public key file loaded: readable and holding 64 hexadecimal digits, or the error
      with the zero key. */
  function LoadSigPublic(st: FsState, faults: Faults): (r: Ret<SigPublicKey>)
    ensures var f := ReadFileOf(st, faults, SigPubKeyFile);
      (f.Err? ==> r == Ret(Zeros(32), Some(f.error)))
      && (r.err.None? <==> f.Ok? && |f.value| == 64 && forall i :: 0 <= i < 64 ==> Hex.IsHexDigit(f.value[i]))
      && (r.err.Some? ==> r.value == Zeros(32))
      && (r.err.None? ==> Hex.Encode(r.value) == Hex.Lower(f.value))
  {
    LoadKey<SigPublicKey>(st, faults, SigPubKeyFile, DecodeSigPublicKey, Zeros(32))
  }

  /** The private key file loaded: readable and holding 128 hexadecimal digits, or the
      error with the zero key. */
  function LoadSigPrivate(st: FsState, faults: Faults): (r: Ret<SigPrivateKey>)
    ensures var f := ReadFileOf(st, faults, SigPrivKeyFile);
      (f.Err? ==> r == Ret(Zeros(64), Some(f.error)))
      && (r.err.None? <==> f.Ok? && |f.value| == 128 && forall i :: 0 <= i < 128 ==> Hex.IsHexDigit(f.value[i]))
      && (r.err.Some? ==> r.value == Zeros(64))
      && (r.err.None? ==> Hex.Encode(r.value) == Hex.Lower(f.value))
  {
    LoadKey<SigPrivateKey>(st, faults, SigPrivKeyFile, DecodeSigPrivateKey, Zeros(64))
  }

  /** Readable files holding the encodings of a keypair load as that keypair. */
  lemma LoadSigEncoded(st: FsState, faults: Faults, pub: SigPublicKey, priv: SigPrivateKey)
    requires SigPubKeyFile in st.files && st.files[SigPubKeyFile].data == Hex.Encode(pub)
    requires SigPrivKeyFile in st.files && st.files[SigPrivKeyFile].data == Hex.Encode(priv)
    requires SigPubKeyFile !in faults.read && SigPrivKeyFile !in faults.read
    ensures LoadSigPublic(st, faults) == Ret(pub, None) && LoadSigPrivate(st, faults) == Ret(priv, None)
  {
    assert ReadFileOf(st, faults, SigPubKeyFile) == Ok(Hex.Encode(pub));
    assert ReadFileOf(st, faults, SigPrivKeyFile) == Ok(Hex.Encode(priv));
    DecodeSigKeysEncode(pub, priv);
  }

  /** What LoadSigKeypair returns once generation has left `gen`: the generation error,
      else the public key's load error, else the private key's, each with the zero keypair;
      else the two keys read back. */
  function LoadedSigKeypair(gen: Step, faults: Faults): (r: Ret<SigKeypair>)
    ensures gen.err.Some? ==> r == Ret(ZeroKeypair, gen.err)
    ensures r.err.Some? ==> r.value == ZeroKeypair
    ensures gen.err.None? && LoadSigPublic(gen.st, faults).err.Some? ==> r.err == LoadSigPublic(gen.st, faults).err
    ensures r.err.None? <==>
      gen.err.None? && LoadSigPublic(gen.st, faults).err.None? && LoadSigPrivate(gen.st, faults).err.None?
    ensures r.err.None? ==>
      r.value == SigKeypair(LoadSigPublic(gen.st, faults).value, LoadSigPrivate(gen.st, faults).value)
  {
    if gen.err.Some? then Ret(ZeroKeypair, gen.err)
    else
      var pub := LoadSigPublic(gen.st, faults);
      if pub.err.Some? then Ret(ZeroKeypair, pub.err)
      else
        var priv := LoadSigPrivate(gen.st, faults);
        if priv.err.Some? then Ret(ZeroKeypair, priv.err)
        else Ret(SigKeypair(pub.value, priv.value), None)
  }

  /** LoadSigKeypair (key/sig.go:25-42): generation when neither file exists, then the
      public key, then the private key. The generated keypair and whether generating it
      fails are parameters. */
  method LoadSigKeypair(fs: FileSystem, genPub: SigPublicKey, genPriv: SigPrivateKey, genFails: bool) returns (pair: SigKeypair, err: Option<Error>)
    modifies fs
    ensures var gen := SigGen.GenerateSigKeypairIfNotExistSpec(old(fs.state), fs.faults, Hex.Encode(genPub), Hex.Encode(genPriv), genFails);
      fs.state == gen.st && Ret(pair, err) == LoadedSigKeypair(gen, fs.faults)
  {
    err := SigGen.GenerateSigKeypairIfNotExist(fs, genPub, genPriv, genFails);
    if err.Some? {
      return ZeroKeypair, err;
    }
    var pub := LoadSigPublic(fs.state, fs.faults);
    if pub.err.Some? {
      return ZeroKeypair, pub.err;
    }
    var priv := LoadSigPrivate(fs.state, fs.faults);
    if priv.err.Some? {
      return ZeroKeypair, priv.err;
    }
    return SigKeypair(pub.value, priv.value), None;
  }

  /** What LoadSigPublicKey returns once generation has left `gen`: the generation error
      with the zero key, else the public key file loaded. */
  function LoadedSigPublicKey(gen: Step, faults: Faults): (r: Ret<SigPublicKey>)
    ensures gen.err.Some? ==> r == Ret(Zeros(32), gen.err)
    ensures gen.err.None? ==> r == LoadSigPublic(gen.st, faults)
  {
    if gen.err.Some? then Ret(Zeros(32), gen.err) else LoadSigPublic(gen.st, faults)
  }

  /** LoadSigPublicKey (key/sig.go:46-53). */
  method LoadSigPublicKey(fs: FileSystem, genPub: SigPublicKey, genPriv: SigPrivateKey, genFails: bool) returns (key: SigPublicKey, err: Option<Error>)
    modifies fs
    ensures var gen := SigGen.GenerateSigKeypairIfNotExistSpec(old(fs.state), fs.faults, Hex.Encode(genPub), Hex.Encode(genPriv), genFails);
      fs.state == gen.st && Ret(key, err) == LoadedSigPublicKey(gen, fs.faults)
  {
    err := SigGen.GenerateSigKeypairIfNotExist(fs, genPub, genPriv, genFails);
    if err.Some? {
      return Zeros(32), err;
    }
    var loaded := LoadSigPublic(fs.state, fs.faults);
    key, err := loaded.value, loaded.err;
  }

  /** LoadSigPrivateKey (key/sig.go:57-64). */
  method LoadSigPrivateKey(fs: FileSystem, genPub: SigPublicKey, genPriv: SigPrivateKey, genFails: bool) returns (key: SigPrivateKey, err: Option<Error>)
    modifies fs
    ensures var gen := SigGen.GenerateSigKeypairIfNotExistSpec(old(fs.state), fs.faults, Hex.Encode(genPub), Hex.Encode(genPriv), genFails);
      fs.state == gen.st
      && Ret(key, err) == if gen.err.Some? then Ret(Zeros(64), gen.err) else LoadSigPrivate(gen.st, fs.faults)
  {
    err := SigGen.GenerateSigKeypairIfNotExist(fs, genPub, genPriv, genFails);
    if err.Some? {
      return Zeros(64), err;
    }
    var loaded := LoadSigPrivate(fs.state, fs.faults);
    key, err := loaded.value, loaded.err;
  }

  /** On a first run, when neither key file exists and every call goes through, the keypair
      loaded is the one generated. */
  lemma LoadSigKeypairFirstRun(st: FsState, faults: Faults, genPub: SigPublicKey, genPriv: SigPrivateKey)
    requires CanCreate(st, faults, SigPubKeyFile) && CanCreate(st, faults, SigPrivKeyFile)
    requires SigPubKeyFile !in faults.write && SigPrivKeyFile !in faults.write
    requires SigPubKeyFile !in faults.read && SigPrivKeyFile !in faults.read
    ensures var gen := SigGen.GenerateSigKeypairIfNotExistSpec(st, faults, Hex.Encode(genPub), Hex.Encode(genPriv), false);
      LoadedSigKeypair(gen, faults) == Ret(SigKeypair(genPub, genPriv), None)
  {
    KeyFilesDistinct();
    var gen := SigGen.GenerateSigKeypairIfNotExistSpec(st, faults, Hex.Encode(genPub), Hex.Encode(genPriv), false);
    SigGen.GenerateSigKeypairSucceeds(st, faults, Hex.Encode(genPub), Hex.Encode(genPriv), false);
    assert gen.err.None?;
    LoadSigEncoded(gen.st, faults, genPub, genPriv);
  }

  /** On a later run, when both files hold the encodings of a keypair, that keypair is
      loaded and nothing is generated or changed, whatever generation would have written. */
  lemma LoadSigKeypairLaterRun(st: FsState, faults: Faults, pub: SigPublicKey, priv: SigPrivateKey, pubText: seq<byte>, privText: seq<byte>, genFails: bool)
    requires SigPubKeyFile in st.files && st.files[SigPubKeyFile].data == Hex.Encode(pub)
    requires SigPrivKeyFile in st.files && st.files[SigPrivKeyFile].data == Hex.Encode(priv)
    requires SigPubKeyFile !in faults.stat && SigPrivKeyFile !in faults.stat
    requires SigPubKeyFile !in faults.read && SigPrivKeyFile !in faults.read
    ensures var gen := SigGen.GenerateSigKeypairIfNotExistSpec(st, faults, pubText, privText, genFails);
      gen.st == st && LoadedSigKeypair(gen, faults) == Ret(SigKeypair(pub, priv), None)
  {
    LoadSigEncoded(st, faults, pub, priv);
  }
}
