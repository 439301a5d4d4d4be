/** key/boxgen.go: generation of the NaCl box keypair files, and the decision to generate
    only when neither of them exists. The keypair box.GenerateKey would produce is a
    parameter, and so is its failure. */
module BoxGen {
  import opened Bytes
  import opened Wrappers
  import opened Os
  import Hex
  import opened KeyFile

  /** What generateBoxKeypair does to the file system, given the texts it writes to the
      public and to the private file. */
  function GenerateBoxKeypairSpec(st: FsState, faults: Faults, pubText: seq<byte>, privText: seq<byte>, genFails: bool): (r: Step)
  {
    var madePub := CreateFileIfNotExistSpec(st, faults, BoxPubKeyFile, PubFileMode);
    if madePub.err.Some? then madePub
    else
      var madePriv := CreateFileIfNotExistSpec(madePub.st, faults, BoxPrivKeyFile, PrivFileMode);
      if madePriv.err.Some? then Step(madePriv.err, RemoveStep(madePriv.st, faults, BoxPubKeyFile).st)
      else if genFails then Step(Some(RandFailure), madePriv.st)
      else
        var wrotePub := WriteStep(madePriv.st, faults, BoxPubKeyFile, pubText);
        if wrotePub.err.Some? then wrotePub
        else WriteStep(wrotePub.st, faults, BoxPrivKeyFile, privText)
  }

  /** generateBoxKeypair (key/boxgen.go:17-55). */
  method GenerateBoxKeypair(fs: FileSystem, pub: seq<byte>, priv: seq<byte>, genFails: bool) returns (err: Option<Error>)
    modifies fs
    ensures Step(err, fs.state) == GenerateBoxKeypairSpec(old(fs.state), fs.faults, Hex.Encode(pub), Hex.Encode(priv), genFails)
  {
    err := CreateFileIfNotExist(fs, BoxPubKeyFile, PubFileMode);
    if err.Some? {
      return;
    }
    err := CreateFileIfNotExist(fs, BoxPrivKeyFile, PrivFileMode);
    if err.Some? {
      var _ := fs.Remove(BoxPubKeyFile);
      return;
    }
    if genFails {
      return Some(RandFailure);
    }
    var buf := Hex.Encode(pub);
    err := fs.Write(BoxPubKeyFile, buf);
    if err.Some? {
      return;
    }
    buf := Hex.Encode(priv);
    err := fs.Write(BoxPrivKeyFile, buf);
  }

  /** Generation succeeds exactly when both files can be created, the keypair is generated
      and both writes go through; the files then hold the texts with their modes, in the
      key directory. */
  lemma GenerateBoxKeypairSucceeds(st: FsState, faults: Faults, pubText: seq<byte>, privText: seq<byte>, genFails: bool)
    ensures var r := GenerateBoxKeypairSpec(st, faults, pubText, privText, genFails);
      r.err.None? <==>
        CanCreate(st, faults, BoxPubKeyFile) && CanCreate(st, faults, BoxPrivKeyFile) && !genFails
        && BoxPubKeyFile !in faults.write && BoxPrivKeyFile !in faults.write
    ensures var r := GenerateBoxKeypairSpec(st, faults, pubText, privText, genFails);
      r.err.None? ==>
        r.st == FsState(st.files[BoxPubKeyFile := File(pubText, PubFileMode)][BoxPrivKeyFile := File(privText, PrivFileMode)],
                        st.dirs + {DataDir})
  {
    KeyFilesDistinct();
    var madePub := CreateFileIfNotExistSpec(st, faults, BoxPubKeyFile, PubFileMode);
    if madePub.err.None? {
      assert CanCreate(madePub.st, faults, BoxPrivKeyFile) == CanCreate(st, faults, BoxPrivKeyFile);
      var madePriv := CreateFileIfNotExistSpec(madePub.st, faults, BoxPrivKeyFile, PrivFileMode);
      if madePriv.err.None? && !genFails {
        var wrotePub := WriteStep(madePriv.st, faults, BoxPubKeyFile, pubText);
        if wrotePub.err.None? {
          assert [] + pubText == pubText && [] + privText == privText;
        }
      }
    }
  }

  /** An existing key file is never overwritten or removed. */
  lemma GenerateBoxKeypairNeverOverwrites(st: FsState, faults: Faults, pubText: seq<byte>, privText: seq<byte>, genFails: bool, q: Path)
    requires q == BoxPubKeyFile || q == BoxPrivKeyFile
    requires q in st.files
    ensures SameFileAt(GenerateBoxKeypairSpec(st, faults, pubText, privText, genFails).st, st, q)
  {
    KeyFilesDistinct();
  }

  /** When the public file was created but the private one cannot be, the public file is
      removed again and the files are as they were; a key directory MkdirAll made stays. */
  lemma GenerateBoxKeypairRollsBack(st: FsState, faults: Faults, pubText: seq<byte>, privText: seq<byte>, genFails: bool)
    requires CanCreate(st, faults, BoxPubKeyFile) && !CanCreate(st, faults, BoxPrivKeyFile)
    requires BoxPubKeyFile !in faults.remove && BoxPrivKeyFile !in faults.remove
    ensures var r := GenerateBoxKeypairSpec(st, faults, pubText, privText, genFails);
      r.err.Some? && r.st.files == st.files
  {
    KeyFilesDistinct();
    var madePub := CreateFileIfNotExistSpec(st, faults, BoxPubKeyFile, PubFileMode);
    var madePriv := CreateFileIfNotExistSpec(madePub.st, faults, BoxPrivKeyFile, PrivFileMode);
    assert madePriv.st.files == st.files[BoxPubKeyFile := File([], PubFileMode)];
    assert RemoveStep(madePriv.st, faults, BoxPubKeyFile).st.files == st.files;
  }

  /** The public key is written first: when its write fails, the private file stays empty.
      When the keypair cannot be generated, both files are left behind empty. */
  lemma GenerateBoxKeypairPublicFirst(st: FsState, faults: Faults, pubText: seq<byte>, privText: seq<byte>, genFails: bool)
    requires CanCreate(st, faults, BoxPubKeyFile) && CanCreate(st, faults, BoxPrivKeyFile)
    requires genFails || BoxPubKeyFile in faults.write
    ensures var r := GenerateBoxKeypairSpec(st, faults, pubText, privText, genFails);
      r.err.Some? && BoxPrivKeyFile in r.st.files && r.st.files[BoxPrivKeyFile] == File([], PrivFileMode)
      && BoxPubKeyFile in r.st.files && r.st.files[BoxPubKeyFile] == File([], PubFileMode)
  {
    KeyFilesDistinct();
  }

  /** Generation touches no file but the two box key files. */
  lemma GenerateBoxKeypairTouchesOnlyKeyFiles(st: FsState, faults: Faults, pubText: seq<byte>, privText: seq<byte>, genFails: bool, q: Path)
    requires q != BoxPubKeyFile && q != BoxPrivKeyFile
    ensures SameFileAt(GenerateBoxKeypairSpec(st, faults, pubText, privText, genFails).st, st, q)
  {
    var madePub := CreateFileIfNotExistSpec(st, faults, BoxPubKeyFile, PubFileMode);
    assert SameFileAt(madePub.st, st, q);
    if madePub.err.None? {
      var madePriv := CreateFileIfNotExistSpec(madePub.st, faults, BoxPrivKeyFile, PrivFileMode);
      assert SameFileAt(madePriv.st, st, q);
      if madePriv.err.None? && !genFails {
        var wrotePub := WriteStep(madePriv.st, faults, BoxPubKeyFile, pubText);
        assert SameFileAt(wrotePub.st, st, q);
      }
    }
  }

  /** What generateBoxKeypairIfNotExist does: nothing when both key files exist, an error and
      no change when only one of them does, and generation when neither does. */
  function GenerateBoxKeypairIfNotExistSpec(st: FsState, faults: Faults, pubText: seq<byte>, privText: seq<byte>, genFails: bool): (r: Step)
    ensures BoxPubKeyFile in faults.stat || BoxPrivKeyFile in faults.stat ==> r.err.Some? && r.st == st
    ensures BoxPubKeyFile !in faults.stat && BoxPrivKeyFile !in faults.stat ==>
      r == (if BoxPubKeyFile in st.files && BoxPrivKeyFile in st.files then Step(None, st)
            else if BoxPubKeyFile in st.files then Step(Some(PubWithoutPriv), st)
            else if BoxPrivKeyFile in st.files then Step(Some(PrivWithoutPub), st)
            else GenerateBoxKeypairSpec(st, faults, pubText, privText, genFails))
  {
    match FileExists(st, faults, BoxPubKeyFile)
    case Err(e) => Step(Some(e), st)
    case Ok(pubExists) =>
      match FileExists(st, faults, BoxPrivKeyFile)
      case Err(e) => Step(Some(e), st)
      case Ok(privExists) =>
        if pubExists && privExists then Step(None, st)
        else if pubExists && !privExists then Step(Some(PubWithoutPriv), st)
        else if privExists && !pubExists then Step(Some(PrivWithoutPub), st)
        else GenerateBoxKeypairSpec(st, faults, pubText, privText, genFails)
  }

  /** generateBoxKeypairIfNotExist (key/boxgen.go:58-78). */
  method GenerateBoxKeypairIfNotExist(fs: FileSystem, pub: seq<byte>, priv: seq<byte>, genFails: bool) returns (err: Option<Error>)
    modifies fs
    ensures Step(err, fs.state)
         == GenerateBoxKeypairIfNotExistSpec(old(fs.state), fs.faults, Hex.Encode(pub), Hex.Encode(priv), genFails)
  {
    var pubExists := FileExists(fs.state, fs.faults, BoxPubKeyFile);
    if pubExists.Err? {
      return Some(pubExists.error);
    }
    var privExists := FileExists(fs.state, fs.faults, BoxPrivKeyFile);
    if privExists.Err? {
      return Some(privExists.error);
    }
    if pubExists.value && privExists.value {
      return None;
    } else if pubExists.value && !privExists.value {
      return Some(PubWithoutPriv);
    } else if privExists.value && !pubExists.value {
      return Some(PrivWithoutPub);
    }
    err := GenerateBoxKeypair(fs, pub, priv, genFails);
  }
}
