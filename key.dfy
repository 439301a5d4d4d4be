/** key/key.go: an earlier revision of the box key loading, in which the keys are returned
    as named results and the public key can be read without generating. Its key types are
    those of key/box.go and key/sig.go. */
module Key {
  import opened Bytes
  import opened Wrappers
  import opened Os
  import Hex
  import opened KeyFile
  import BoxGen
  import opened Box
  import Sig

  /** The decode step of loadBoxKey: exactly 64 hexadecimal digits of either case; a
      length whose half is not 32 is a "malformed key" error, a non-digit the error of
      hex.Decode, both with the zero key. */
  function DecodeBoxKey(buf: seq<byte>): (r: Ret<Key32>)
    ensures r.err.None? <==> |buf| == 64 && forall i :: 0 <= i < 64 ==> Hex.IsHexDigit(buf[i])
    ensures Hex.DecodedLen(|buf|) != 32 ==> r.err == Some(MalformedKey("key", 32, Hex.DecodedLen(|buf|)))
    ensures Hex.DecodedLen(|buf|) == 32 && r.err.Some? ==> Hex.Decode(buf).Err? && r.err == Some(Hex.Decode(buf).error)
    ensures r.err.Some? ==> r.value == Zeros(32)
    ensures r.err.None? ==> Hex.Encode(r.value) == Hex.Lower(buf)
  {
    var d := Hex.DecodeKey(buf, 32, "key");
    if d.err.None? then Hex.EncodeDecodeKey(buf, 32, "key"); Ret(d.value, d.err)
    else Ret(d.value, d.err)
  }

  lemma DecodeBoxKeyEncode(key: Key32)
    ensures DecodeBoxKey(Hex.Encode(key)) == Ret(key, None)
  {
    Hex.DecodeKeyEncode(key, "key");
  }

  /** loadBoxKey: open, read all, decode; a failing open or read gives its error and the
      zero key. */
  function LoadBoxKey(st: FsState, faults: Faults, p: Path): (r: Ret<Key32>)
    ensures var f := ReadFileOf(st, faults, p);
      (f.Err? ==> r == Ret(Zeros(32), Some(f.error)))
      && (r.err.None? <==> f.Ok? && |f.value| == 64 && forall i :: 0 <= i < 64 ==> Hex.IsHexDigit(f.value[i]))
      && (r.err.Some? ==> r.value == Zeros(32))
      && (r.err.None? ==> Hex.Encode(r.value) == Hex.Lower(f.value))
  {
    match ReadFileOf(st, faults, p)
    case Err(e) => Ret(Zeros(32), Some(e))
    case Ok(buf) => DecodeBoxKey(buf)
  }

  /** The named results of LoadBoxKeypair. */
  datatype Loaded = Loaded(pub: BoxPublicKey, priv: BoxPrivateKey, err: Option<Error>)

  /** What LoadBoxKeypair returns once generation has left `gen`: the generation error with
      both keys zero; else the public key's load error with both keys zero; else the public
      key read back beside whatever loading the private key gave, error included: unlike
      in key/box.go, a failing private key does not zero the public key already read. */
  function LoadedBoxKeypair(gen: Step, faults: Faults): (r: Loaded)
    ensures gen.err.Some? ==> r == Loaded(Zeros(32), Zeros(32), gen.err)
    ensures gen.err.None? && LoadBoxKey(gen.st, faults, BoxPubKeyFile).err.Some? ==>
      r == Loaded(Zeros(32), Zeros(32), LoadBoxKey(gen.st, faults, BoxPubKeyFile).err)
    ensures gen.err.None? && LoadBoxKey(gen.st, faults, BoxPubKeyFile).err.None? ==>
      r.pub == LoadBoxKey(gen.st, faults, BoxPubKeyFile).value
      && Ret(r.priv, r.err) == LoadBoxKey(gen.st, faults, BoxPrivKeyFile)
  {
    if gen.err.Some? then Loaded(Zeros(32), Zeros(32), gen.err)
    else
      var pub := LoadBoxKey(gen.st, faults, BoxPubKeyFile);
      if pub.err.Some? then Loaded(pub.value, Zeros(32), pub.err)
      else
        var priv := LoadBoxKey(gen.st, faults, BoxPrivKeyFile);
        Loaded(pub.value, priv.value, priv.err)
  }

  /** LoadBoxKeypair (key/key.go:26-41): generation when neither file exists, then the
      public key, then the private key, each step assigning the named results. */
  method LoadBoxKeypair(fs: FileSystem, genPub: Key32, genPriv: Key32, genFails: bool)
    returns (pub: BoxPublicKey, priv: BoxPrivateKey, err: Option<Error>)
    modifies fs
    ensures var gen := BoxGen.GenerateBoxKeypairIfNotExistSpec(old(fs.state), fs.faults, Hex.Encode(genPub), Hex.Encode(genPriv), genFails);
      fs.state == gen.st && Loaded(pub, priv, err) == LoadedBoxKeypair(gen, fs.faults)
  {
    pub, priv := Zeros(32), Zeros(32);
    err := BoxGen.GenerateBoxKeypairIfNotExist(fs, genPub, genPriv, genFails);
    if err.Some? {
      return;
    }
    var loaded := LoadBoxKey(fs.state, fs.faults, BoxPubKeyFile);
    pub, err := loaded.value, loaded.err;
    if err.Some? {
      return;
    }
    loaded := LoadBoxKey(fs.state, fs.faults, BoxPrivKeyFile);
    priv, err := loaded.value, loaded.err;
  }

  /** LoadBoxPublicKey (key/key.go:45-48): in this revision only a read of the public file;
      nothing is generated, so a missing file is reported as such. */
  function LoadBoxPublicKey(st: FsState, faults: Faults): (r: Ret<BoxPublicKey>)
    ensures BoxPubKeyFile !in st.files ==> r == Ret(Zeros(32), Some(NotExist(BoxPubKeyFile.Name())))
    ensures r.err.None? ==>
      BoxPubKeyFile in st.files && var text := st.files[BoxPubKeyFile].data;
      |text| == 64 && (forall i :: 0 <= i < 64 ==> Hex.IsHexDigit(text[i])) && Hex.Encode(r.value) == Hex.Lower(text)
  {
    LoadBoxKey(st, faults, BoxPubKeyFile)
  }

  /** A readable public file holding the encoding of a key loads as that key. */
  lemma LoadBoxPublicKeyEncoded(st: FsState, faults: Faults, key: Key32)
    requires BoxPubKeyFile in st.files && st.files[BoxPubKeyFile].data == Hex.Encode(key)
    requires BoxPubKeyFile !in faults.read
    ensures LoadBoxPublicKey(st, faults) == Ret(key, None)
  {
    DecodeBoxKeyEncode(key);
  }

  /** BoxPublicKey.Compare (key/key.go:78-80): bytes.Compare on the key bytes. */
  function BoxPublicKeyCompare(a: BoxPublicKey, b: BoxPublicKey): (r: int)
    ensures -1 <= r <= 1
    ensures r == 0 <==> a == b
    ensures r == -Bytes.Compare(b, a)
  {
    CompareZeroIffEqual(a, b);
    CompareAntisymmetric(a, b);
    Bytes.Compare(a, b)
  }

  /** SigPublicKey.Compare (key/key.go:82-84): bytes.Compare on the key bytes. */
  function SigPublicKeyCompare(a: Sig.SigPublicKey, b: Sig.SigPublicKey): (r: int)
    ensures -1 <= r <= 1
    ensures r == 0 <==> a == b
    ensures r == -Bytes.Compare(b, a)
  {
    CompareZeroIffEqual(a, b);
    CompareAntisymmetric(a, b);
    Bytes.Compare(a, b)
  }
}
