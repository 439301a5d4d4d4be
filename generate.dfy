/** key/generate.go: the revision of key/keygen.go's Generate that writes the keys as
    hexadecimal text, and generateIfNoExist, which generates only when neither key file
    exists. File creation is keygen.go's createFile. */
module KeyGenerate {
  import opened Bytes
  import opened Wrappers
  import opened Os
  import Hex
  import KeyFile
  import opened KeyGen

  /** What Generate does to the file system, given the keypair box.GenerateKey produces
      (or its failure). */
  function GenerateSpec(st: FsState, faults: Faults, pub: seq<byte>, priv: seq<byte>, genFails: bool): (r: Step)
    ensures r.st.dirs == st.dirs
  {
    var madePub := CreateFileSpec(st, faults, PubKeyFile, PubKeyFileMode);
    if madePub.err.Some? then madePub
    else
      var madePriv := CreateFileSpec(madePub.st, faults, PrivKeyFile, PrivKeyFileMode);
      if madePriv.err.Some? then Step(madePriv.err, RemoveStep(madePriv.st, faults, PubKeyFile).st)
      else if genFails then Step(Some(RandFailure), madePriv.st)
      else
        var wrotePub := WriteStep(madePriv.st, faults, PubKeyFile, Hex.Encode(pub));
        if wrotePub.err.Some? then wrotePub
        else WriteStep(wrotePub.st, faults, PrivKeyFile, Hex.Encode(priv))
  }

  /** Generate (key/generate.go:16-54). */
  method Generate(fs: FileSystem, pub: seq<byte>, priv: seq<byte>, genFails: bool) returns (err: Option<Error>)
    modifies fs
    ensures Step(err, fs.state) == GenerateSpec(old(fs.state), fs.faults, pub, priv, genFails)
  {
    err := CreateFile(fs, PubKeyFile, PubKeyFileMode);
    if err.Some? {
      return;
    }
    err := CreateFile(fs, PrivKeyFile, PrivKeyFileMode);
    if err.Some? {
      var _ := fs.Remove(PubKeyFile);
      return;
    }
    if genFails {
      return Some(RandFailure);
    }
    err := fs.Write(PubKeyFile, Hex.Encode(pub));
    if err.Some? {
      return;
    }
    err := fs.Write(PrivKeyFile, Hex.Encode(priv));
  }

  /** This Generate does what key/keygen.go's does, with the hexadecimal text of the keys in
      place of their raw bytes. */
  lemma GenerateWritesHex(st: FsState, faults: Faults, pub: seq<byte>, priv: seq<byte>, genFails: bool)
    ensures GenerateSpec(st, faults, pub, priv, genFails)
         == KeyGen.GenerateSpec(st, faults, Hex.Encode(pub), Hex.Encode(priv), genFails)
  {
  }

  /** Generate succeeds exactly when both files can be created, the keypair is generated and
      both writes go through; the files then hold the hexadecimal text of the keys, public
      first, with their modes. */
  lemma GenerateSucceeds(st: FsState, faults: Faults, pub: seq<byte>, priv: seq<byte>, genFails: bool)
    ensures var r := GenerateSpec(st, faults, pub, priv, genFails);
      r.err.None? <==>
        CanCreate(st, faults, PubKeyFile) && CanCreate(st, faults, PrivKeyFile) && !genFails
        && PubKeyFile !in faults.write && PrivKeyFile !in faults.write
    ensures var r := GenerateSpec(st, faults, pub, priv, genFails);
      r.err.None? ==>
        r.st.files == st.files[PubKeyFile := File(Hex.Encode(pub), PubKeyFileMode)]
                              [PrivKeyFile := File(Hex.Encode(priv), PrivKeyFileMode)]
  {
    GenerateWritesHex(st, faults, pub, priv, genFails);
    KeyGen.GenerateSucceeds(st, faults, Hex.Encode(pub), Hex.Encode(priv), genFails);
  }

  /** When the public file was created but the private one cannot be, the public file is
      removed again; an existing public file makes Generate fail without any change. */
  lemma GenerateRollsBack(st: FsState, faults: Faults, pub: seq<byte>, priv: seq<byte>, genFails: bool)
    ensures PubKeyFile !in faults.stat && PubKeyFile in st.files ==>
      GenerateSpec(st, faults, pub, priv, genFails) == Step(Some(KeyFile.ErrFileExists(PubKeyFile)), st)
    ensures CanCreate(st, faults, PubKeyFile) && !CanCreate(st, faults, PrivKeyFile) && PubKeyFile !in faults.remove ==>
      var r := GenerateSpec(st, faults, pub, priv, genFails); r.err.Some? && PubKeyFile !in r.st.files
  {
    GenerateWritesHex(st, faults, pub, priv, genFails);
    if CanCreate(st, faults, PubKeyFile) && !CanCreate(st, faults, PrivKeyFile) && PubKeyFile !in faults.remove {
      KeyGen.GenerateRollsBack(st, faults, Hex.Encode(pub), Hex.Encode(priv), genFails);
    }
  }

  /** What generateIfNoExist does: nothing when both key files exist, an error and no change
      when only one of them does, and Generate when neither does. */
  function GenerateIfNoExistSpec(st: FsState, faults: Faults, pub: seq<byte>, priv: seq<byte>, genFails: bool): (r: Step)
    ensures PubKeyFile in faults.stat || PrivKeyFile in faults.stat ==> r.err.Some? && r.st == st
    ensures PubKeyFile !in faults.stat && PrivKeyFile !in faults.stat ==>
      r == (if PubKeyFile in st.files && PrivKeyFile in st.files then Step(None, st)
            else if PubKeyFile in st.files then Step(Some(PubWithoutPriv), st)
            else if PrivKeyFile in st.files then Step(Some(PrivWithoutPub), st)
            else GenerateSpec(st, faults, pub, priv, genFails))
  {
    match KeyFile.FileExists(st, faults, PubKeyFile)
    case Err(e) => Step(Some(e), st)
    case Ok(pubExists) =>
      match KeyFile.FileExists(st, faults, PrivKeyFile)
      case Err(e) => Step(Some(e), st)
      case Ok(privExists) =>
        if pubExists && privExists then Step(None, st)
        else if pubExists && !privExists then Step(Some(PubWithoutPriv), st)
        else if privExists && !pubExists then Step(Some(PrivWithoutPub), st)
        else GenerateSpec(st, faults, pub, priv, genFails)
  }

  /** generateIfNoExist (key/generate.go:57-77). */
  method GenerateIfNoExist(fs: FileSystem, pub: seq<byte>, priv: seq<byte>, genFails: bool) returns (err: Option<Error>)
    modifies fs
    ensures Step(err, fs.state) == GenerateIfNoExistSpec(old(fs.state), fs.faults, pub, priv, genFails)
  {
    var pubExists := KeyFile.FileExists(fs.state, fs.faults, PubKeyFile);
    if pubExists.Err? {
      return Some(pubExists.error);
    }
    var privExists := KeyFile.FileExists(fs.state, fs.faults, PrivKeyFile);
    if privExists.Err? {
      return Some(privExists.error);
    }
    if pubExists.value && privExists.value {
      return None;
    } else if pubExists.value && !privExists.value {
      return Some(PubWithoutPriv);
    } else if privExists.value && !pubExists.value {
      return Some(PrivWithoutPub);
    }
    err := Generate(fs, pub, priv, genFails);
  }
}
