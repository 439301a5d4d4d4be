/** key/siggen.go: generation of the NaCl signing keypair files. Unlike the box keypair's,
    a failure to create the private file does not remove the public file. The keypair
    sign.GenerateKey would produce is a parameter, and so is its failure. */
module SigGen {
  import opened Bytes
  import opened Wrappers
  import opened Os
  import Hex
  import opened KeyFile

  /** What generateSigKeypair does to the file system, given the texts it writes to the
      public and to the private file. */
  function GenerateSigKeypairSpec(st: FsState, faults: Faults, pubText: seq<byte>, privText: seq<byte>, genFails: bool): (r: Step)
  {
    var madePub := CreateFileIfNotExistSpec(st, faults, SigPubKeyFile, PubFileMode);
    if madePub.err.Some? then madePub
    else
      var madePriv := CreateFileIfNotExistSpec(madePub.st, faults, SigPrivKeyFile, PrivFileMode);
      if madePriv.err.Some? then madePriv
      else if genFails then Step(Some(RandFailure), madePriv.st)
      else
        var wrotePub := WriteStep(madePriv.st, faults, SigPubKeyFile, pubText);
        if wrotePub.err.Some? then wrotePub
        else WriteStep(wrotePub.st, faults, SigPrivKeyFile, privText)
  }

  /** generateSigKeypair (key/siggen.go:11-47). */
  method GenerateSigKeypair(fs: FileSystem, pub: seq<byte>, priv: seq<byte>, genFails: bool) returns (err: Option<Error>)
    modifies fs
    ensures Step(err, fs.state) == GenerateSigKeypairSpec(old(fs.state), fs.faults, Hex.Encode(pub), Hex.Encode(priv), genFails)
  {
    err := CreateFileIfNotExist(fs, SigPubKeyFile, PubFileMode);
    if err.Some? {
      return;
    }
    err := CreateFileIfNotExist(fs, SigPrivKeyFile, PrivFileMode);
    if err.Some? {
      return;
    }
    if genFails {
      return Some(RandFailure);
    }
    var buf := Hex.Encode(pub);
    err := fs.Write(SigPubKeyFile, buf);
    if err.Some? {
      return;
    }
    buf := Hex.Encode(priv);
    err := fs.Write(SigPrivKeyFile, buf);
  }

  /** Generation succeeds exactly when both files can be created, the keypair is generated
      and both writes go through; the files then hold the texts with their modes, in the
      key directory. */
  lemma GenerateSigKeypairSucceeds(st: FsState, faults: Faults, pubText: seq<byte>, privText: seq<byte>, genFails: bool)
    ensures var r := GenerateSigKeypairSpec(st, faults, pubText, privText, genFails);
      r.err.None? <==>
        CanCreate(st, faults, SigPubKeyFile) && CanCreate(st, faults, SigPrivKeyFile) && !genFails
        && SigPubKeyFile !in faults.write && SigPrivKeyFile !in faults.write
    ensures var r := GenerateSigKeypairSpec(st, faults, pubText, privText, genFails);
      r.err.None? ==>
        r.st == FsState(st.files[SigPubKeyFile := File(pubText, PubFileMode)][SigPrivKeyFile := File(privText, PrivFileMode)],
                        st.dirs + {DataDir})
  {
    KeyFilesDistinct();
    var madePub := CreateFileIfNotExistSpec(st, faults, SigPubKeyFile, PubFileMode);
    if madePub.err.None? {
      assert CanCreate(madePub.st, faults, SigPrivKeyFile) == CanCreate(st, faults, SigPrivKeyFile);
      var madePriv := CreateFileIfNotExistSpec(madePub.st, faults, SigPrivKeyFile, PrivFileMode);
      if madePriv.err.None? && !genFails {
        var wrotePub := WriteStep(madePriv.st, faults, SigPubKeyFile, pubText);
        if wrotePub.err.None? {
          assert [] + pubText == pubText && [] + privText == privText;
        }
      }
    }
  }

  /** An existing public key file makes generation fail with nothing created. When the
      public file was created but the private one cannot be, the public file is left behind,
      empty. */
  lemma GenerateSigKeypairLeavesPublicFile(st: FsState, faults: Faults, pubText: seq<byte>, privText: seq<byte>, genFails: bool)
    ensures SigPubKeyFile !in faults.stat && SigPubKeyFile in st.files ==>
      GenerateSigKeypairSpec(st, faults, pubText, privText, genFails) == Step(Some(ErrFileExists(SigPubKeyFile)), st)
    ensures CanCreate(st, faults, SigPubKeyFile) && !CanCreate(st, faults, SigPrivKeyFile) ==>
      var r := GenerateSigKeypairSpec(st, faults, pubText, privText, genFails);
      r.err.Some? && SigPubKeyFile in r.st.files && r.st.files[SigPubKeyFile] == File([], PubFileMode)
  {
    KeyFilesDistinct();
  }

  /** The public key is written first: when its write fails, the private file stays empty. */
  lemma GenerateSigKeypairPublicFirst(st: FsState, faults: Faults, pubText: seq<byte>, privText: seq<byte>)
    requires CanCreate(st, faults, SigPubKeyFile) && CanCreate(st, faults, SigPrivKeyFile)
    requires SigPubKeyFile in faults.write
    ensures var r := GenerateSigKeypairSpec(st, faults, pubText, privText, false);
      r.err == Some(IoFailure("write", SigPubKeyFile.Name()))
      && SigPrivKeyFile in r.st.files && r.st.files[SigPrivKeyFile] == File([], PrivFileMode)
  {
    KeyFilesDistinct();
  }

  /** Generation touches no file but the two signature key files. */
  lemma GenerateSigKeypairTouchesOnlyKeyFiles(st: FsState, faults: Faults, pubText: seq<byte>, privText: seq<byte>, genFails: bool, q: Path)
    requires q != SigPubKeyFile && q != SigPrivKeyFile
    ensures SameFileAt(GenerateSigKeypairSpec(st, faults, pubText, privText, genFails).st, st, q)
  {
    var madePub := CreateFileIfNotExistSpec(st, faults, SigPubKeyFile, PubFileMode);
    assert SameFileAt(madePub.st, st, q);
    if madePub.err.None? {
      var madePriv := CreateFileIfNotExistSpec(madePub.st, faults, SigPrivKeyFile, PrivFileMode);
      assert SameFileAt(madePriv.st, st, q);
      if madePriv.err.None? && !genFails {
        var wrotePub := WriteStep(madePriv.st, faults, SigPubKeyFile, pubText);
        assert SameFileAt(wrotePub.st, st, q);
      }
    }
  }

  /** generateSigKeypairIfNotExist, which key/sig.go calls, is not part of this model's
      source; it is taken to make the same four-way decision as
      generateBoxKeypairIfNotExist, on the signature key files. */
  function GenerateSigKeypairIfNotExistSpec(st: FsState, faults: Faults, pubText: seq<byte>, privText: seq<byte>, genFails: bool): (r: Step)
    ensures SigPubKeyFile in faults.stat || SigPrivKeyFile in faults.stat ==> r.err.Some? && r.st == st
    ensures SigPubKeyFile !in faults.stat && SigPrivKeyFile !in faults.stat ==>
      r == (if SigPubKeyFile in st.files && SigPrivKeyFile in st.files then Step(None, st)
            else if SigPubKeyFile in st.files then Step(Some(PubWithoutPriv), st)
            else if SigPrivKeyFile in st.files then Step(Some(PrivWithoutPub), st)
            else GenerateSigKeypairSpec(st, faults, pubText, privText, genFails))
  {
    match FileExists(st, faults, SigPubKeyFile)
    case Err(e) => Step(Some(e), st)
    case Ok(pubExists) =>
      match FileExists(st, faults, SigPrivKeyFile)
      case Err(e) => Step(Some(e), st)
      case Ok(privExists) =>
        if pubExists && privExists then Step(None, st)
        else if pubExists then Step(Some(PubWithoutPriv), st)
        else if privExists then Step(Some(PrivWithoutPub), st)
        else GenerateSigKeypairSpec(st, faults, pubText, privText, genFails)
  }

  method GenerateSigKeypairIfNotExist(fs: FileSystem, pub: seq<byte>, priv: seq<byte>, genFails: bool) returns (err: Option<Error>)
    modifies fs
    ensures Step(err, fs.state)
         == GenerateSigKeypairIfNotExistSpec(old(fs.state), fs.faults, Hex.Encode(pub), Hex.Encode(priv), genFails)
  {
    var pubExists := FileExists(fs.state, fs.faults, SigPubKeyFile);
    if pubExists.Err? {
      return Some(pubExists.error);
    }
    var privExists := FileExists(fs.state, fs.faults, SigPrivKeyFile);
    if privExists.Err? {
      return Some(privExists.error);
    }
    if pubExists.value && privExists.value {
      return None;
    } else if pubExists.value {
      return Some(PubWithoutPriv);
    } else if privExists.value {
      return Some(PrivWithoutPub);
    }
    err := GenerateSigKeypair(fs, pub, priv, genFails);
  }
}
