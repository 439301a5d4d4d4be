/** key/keygen.go: the revision that keeps one raw keypair in the files "pubkey" and
    "privkey" and creates them without creating their directory. Its fileExists and
    errFileExists are the same code as key/file.go's and are taken from KeyFile. */
module KeyGen {
  import opened Bytes
  import opened Wrappers
  import opened Os
  import KeyFile

  const PubKeyFile: Path := Path(KeyFile.DataDir, "pubkey")
  const PubKeyFileMode: nat := 420   // 0644
  const PrivKeyFile: Path := Path(KeyFile.DataDir, "privkey")
  const PrivKeyFileMode: nat := 384  // 0600

  /** Whether createFile can create p: it does not exist, its directory does, and no call on
      it fails. */
  predicate CanCreate(st: FsState, faults: Faults, p: Path) {
    p !in st.files && p.dir in st.dirs && p !in faults.stat && p !in faults.create && p !in faults.chmod
  }

  /** What createFile does to the file system: like createFileIfNotExist, but the directory
      must already exist. */
  function CreateFileSpec(st: FsState, faults: Faults, p: Path, mode: nat): (r: Step)
    ensures p in faults.stat ==> r == Step(Some(IoFailure("stat", p.Name())), st)
    ensures p !in faults.stat && p in st.files ==> r == Step(Some(KeyFile.ErrFileExists(p)), st)
    ensures r.err.None? <==> CanCreate(st, faults, p)
    ensures r.err.None? ==> r.st == st.(files := st.files[p := File([], mode)])
    ensures r.err.Some? ==>
      r.st.files == st.files
      || (p in faults.chmod && p in faults.remove && r.st.files == st.files[p := File([], CreateMode)])
    ensures r.st.dirs == st.dirs
  {
    match KeyFile.FileExists(st, faults, p)
    case Err(e) => Step(Some(e), st)
    case Ok(present) =>
      if present then Step(Some(KeyFile.ErrFileExists(p)), st)
      else
        var created := CreateStep(st, faults, p);
        if created.err.Some? then created
        else
          var moded := ChmodStep(created.st, faults, p, mode);
          if moded.err.Some? then Step(moded.err, RemoveStep(moded.st, faults, p).st)
          else moded
  }

  /** createFile (key/keygen.go:61-82). */
  method CreateFile(fs: FileSystem, p: Path, mode: nat) returns (err: Option<Error>)
    modifies fs
    ensures Step(err, fs.state) == CreateFileSpec(old(fs.state), fs.faults, p, mode)
  {
    var present := KeyFile.FileExists(fs.state, fs.faults, p);
    if present.Err? {
      return Some(present.error);
    }
    if present.value {
      return Some(KeyFile.ErrFileExists(p));
    }
    err := fs.Create(p);
    if err.Some? {
      return;
    }
    err := fs.Chmod(p, mode);
    if err.Some? {
      var _ := fs.Remove(p);
    }
  }

  /** What Generate does to the file system, given the keypair box.GenerateKey produces
      (or its failure). */
  function GenerateSpec(st: FsState, faults: Faults, pub: seq<byte>, priv: seq<byte>, genFails: bool): (r: Step)
    ensures r.st.dirs == st.dirs
  {
    var madePub := CreateFileSpec(st, faults, PubKeyFile, PubKeyFileMode);
    if madePub.err.Some? then madePub
    else
      var madePriv := CreateFileSpec(madePub.st, faults, PrivKeyFile, PrivKeyFileMode);
      if madePriv.err.Some? then Step(madePriv.err, RemoveStep(madePriv.st, faults, PubKeyFile).st)
      else if genFails then Step(Some(RandFailure), madePriv.st)
      else
        var wrotePub := WriteStep(madePriv.st, faults, PubKeyFile, pub);
        if wrotePub.err.Some? then wrotePub
        else WriteStep(wrotePub.st, faults, PrivKeyFile, priv)
  }

  lemma KeyFilesDistinct()
    ensures PubKeyFile != PrivKeyFile
  {
    assert PubKeyFile.base[1] != PrivKeyFile.base[1];
  }

  /** An existing public key file makes Generate fail without changing anything. */
  lemma GenerateKeepsExisting(st: FsState, faults: Faults, pub: seq<byte>, priv: seq<byte>, genFails: bool)
    requires PubKeyFile !in faults.stat && PubKeyFile in st.files
    ensures GenerateSpec(st, faults, pub, priv, genFails) == Step(Some(KeyFile.ErrFileExists(PubKeyFile)), st)
  {
  }

  /** Generate succeeds exactly when both files can be created, the keypair is generated and
      both writes go through; the files then hold the raw key bytes with their modes. */
  lemma GenerateSucceeds(st: FsState, faults: Faults, pub: seq<byte>, priv: seq<byte>, genFails: bool)
    ensures var r := GenerateSpec(st, faults, pub, priv, genFails);
      r.err.None? <==>
        CanCreate(st, faults, PubKeyFile) && CanCreate(st, faults, PrivKeyFile) && !genFails
        && PubKeyFile !in faults.write && PrivKeyFile !in faults.write
    ensures var r := GenerateSpec(st, faults, pub, priv, genFails);
      r.err.None? ==>
        r.st.files == st.files[PubKeyFile := File(pub, PubKeyFileMode)][PrivKeyFile := File(priv, PrivKeyFileMode)]
  {
    KeyFilesDistinct();
    var madePub := CreateFileSpec(st, faults, PubKeyFile, PubKeyFileMode);
    if madePub.err.None? {
      assert CanCreate(madePub.st, faults, PrivKeyFile) == CanCreate(st, faults, PrivKeyFile);
      var madePriv := CreateFileSpec(madePub.st, faults, PrivKeyFile, PrivKeyFileMode);
      if madePriv.err.None? && !genFails {
        var wrotePub := WriteStep(madePriv.st, faults, PubKeyFile, pub);
        if wrotePub.err.None? {
          assert [] + pub == pub && [] + priv == priv;
        }
      }
    }
  }

  /** When the public file was created but the private one cannot be, the public file is
      removed again. */
  lemma GenerateRollsBack(st: FsState, faults: Faults, pub: seq<byte>, priv: seq<byte>, genFails: bool)
    requires CanCreate(st, faults, PubKeyFile) && !CanCreate(st, faults, PrivKeyFile)
    requires PubKeyFile !in faults.remove
    ensures var r := GenerateSpec(st, faults, pub, priv, genFails);
      r.err.Some? && PubKeyFile !in r.st.files
  {
    KeyFilesDistinct();
  }

  /** The public key is written first: when that write fails, the private file stays empty. */
  lemma GeneratePublicFirst(st: FsState, faults: Faults, pub: seq<byte>, priv: seq<byte>)
    requires CanCreate(st, faults, PubKeyFile) && CanCreate(st, faults, PrivKeyFile)
    requires PubKeyFile in faults.write
    ensures var r := GenerateSpec(st, faults, pub, priv, false);
      r.err == Some(IoFailure("write", PubKeyFile.Name()))
      && PrivKeyFile in r.st.files && r.st.files[PrivKeyFile] == File([], PrivKeyFileMode)
  {
    KeyFilesDistinct();
  }

  /** Generate touches no file but its two key files. */
  lemma GenerateTouchesOnlyKeyFiles(st: FsState, faults: Faults, pub: seq<byte>, priv: seq<byte>, genFails: bool, q: Path)
    requires q != PubKeyFile && q != PrivKeyFile
    ensures SameFileAt(GenerateSpec(st, faults, pub, priv, genFails).st, st, q)
  {
    var madePub := CreateFileSpec(st, faults, PubKeyFile, PubKeyFileMode);
    assert SameFileAt(madePub.st, st, q);
    if madePub.err.None? {
      var madePriv := CreateFileSpec(madePub.st, faults, PrivKeyFile, PrivKeyFileMode);
      assert SameFileAt(madePriv.st, st, q);
      if madePriv.err.None? && !genFails {
        var wrotePub := WriteStep(madePriv.st, faults, PubKeyFile, pub);
        assert SameFileAt(wrotePub.st, st, q);
      }
    }
  }

  /** Generate (key/keygen.go:25-57). */
  method Generate(fs: FileSystem, pub: seq<byte>, priv: seq<byte>, genFails: bool) returns (err: Option<Error>)
    modifies fs
    ensures Step(err, fs.state) == GenerateSpec(old(fs.state), fs.faults, pub, priv, genFails)
  {
    err := CreateFile(fs, PubKeyFile, PubKeyFileMode);
    if err.Some? {
      return;
    }
    err := CreateFile(fs, PrivKeyFile, PrivKeyFileMode);
    if err.Some? {
      var _ := fs.Remove(PubKeyFile);
      return;
    }
    if genFails {
      return Some(RandFailure);
    }
    err := fs.Write(PubKeyFile, pub);
    if err.Some? {
      return;
    }
    err := fs.Write(PrivKeyFile, priv);
  }
}
