/** key/file.go: where the box and signature key files live, their modes, and the
    create-only file creation every key generator of that revision uses. */
module KeyFile {
  import opened Bytes
  import opened Wrappers
  import opened Os

  /** xdg.DataHome: the user's data directory, taken from the environment. */
  const DataHome: string := "$XDG_DATA_HOME"
  const DataDir: string := DataHome + "/hose"

  const BoxPubKeyFile: Path := Path(DataDir, "box_pub.key")
  const BoxPrivKeyFile: Path := Path(DataDir, "box_priv.key")
  const SigPubKeyFile: Path := Path(DataDir, "sig_pub.key")
  const SigPrivKeyFile: Path := Path(DataDir, "sig_priv.key")

  lemma KeyFilesDistinct()
    ensures BoxPubKeyFile != BoxPrivKeyFile && SigPubKeyFile != SigPrivKeyFile
  {
    assert BoxPubKeyFile.base[5] != BoxPrivKeyFile.base[5];
    assert SigPubKeyFile.base[5] != SigPrivKeyFile.base[5];
  }

  const DirMode: nat := 493       // 0755
  const PubFileMode: nat := 420   // 0644
  const PrivFileMode: nat := 384  // 0600

  /** fileExists: whether the path exists, or the error when it cannot be told. */
  function FileExists(st: FsState, faults: Faults, p: Path): (r: Result<bool>)
    ensures r == Ok(true) <==> p !in faults.stat && p in st.files
    ensures r == Ok(false) <==> p !in faults.stat && p !in st.files
    ensures r.Err? <==> p in faults.stat
  {
    match StatOf(st, faults, p)
    case Ok(_) => Ok(true)
    case Err(e) => if e.NotExist? then Ok(false) else Err(e)
  }

  /** errFileExists: the "file already exists" error, naming the path. */
  function ErrFileExists(p: Path): (e: Error)
    ensures e.AlreadyExists? && e.path == p.Name()
  {
    AlreadyExists(p.Name())
  }

  /** Whether createFileIfNotExist can create p: it does not exist and no call on it fails. */
  predicate CanCreate(st: FsState, faults: Faults, p: Path) {
    p !in st.files && p !in faults.stat && p.dir !in faults.mkdir && p !in faults.create && p !in faults.chmod
  }

  /** What createFileIfNotExist does to the file system. It never touches a file that
      exists; on success the path holds a new empty file with the requested mode in a
      directory that exists; a failed chmod removes the file again, unless that removal fails
      too; no other file changes. */
  function CreateFileIfNotExistSpec(st: FsState, faults: Faults, p: Path, mode: nat): (r: Step)
    ensures p in faults.stat ==> r == Step(Some(IoFailure("stat", p.Name())), st)
    ensures p !in faults.stat && p in st.files ==> r == Step(Some(ErrFileExists(p)), st)
    ensures r.err.None? <==> CanCreate(st, faults, p)
    ensures r.err.None? ==> r.st == FsState(st.files[p := File([], mode)], st.dirs + {p.dir})
    ensures r.err.Some? ==>
      r.st.files == st.files
      || (p in faults.chmod && p in faults.remove && r.st.files == st.files[p := File([], CreateMode)])
    ensures r.st.dirs == st.dirs || r.st.dirs == st.dirs + {p.dir}
  {
    match FileExists(st, faults, p)
    case Err(e) => Step(Some(e), st)
    case Ok(present) =>
      if present then Step(Some(ErrFileExists(p)), st)
      else
        var made := MkdirAllStep(st, faults, p.dir);
        if made.err.Some? then made
        else
          var created := CreateStep(made.st, faults, p);
          if created.err.Some? then created
          else
            var moded := ChmodStep(created.st, faults, p, mode);
            if moded.err.Some? then Step(moded.err, RemoveStep(moded.st, faults, p).st)
            else moded
  }

  /** createFileIfNotExist (key/file.go:31-62). The file handle it returns is the path. */
  method CreateFileIfNotExist(fs: FileSystem, p: Path, mode: nat) returns (err: Option<Error>)
    modifies fs
    ensures Step(err, fs.state) == CreateFileIfNotExistSpec(old(fs.state), fs.faults, p, mode)
  {
    var present := FileExists(fs.state, fs.faults, p);
    if present.Err? {
      return Some(present.error);
    }
    if present.value {
      return Some(ErrFileExists(p));
    }
    err := fs.MkdirAll(p.dir);
    if err.Some? {
      return;
    }
    err := fs.Create(p);
    if err.Some? {
      return;
    }
    err := fs.Chmod(p, mode);
    if err.Some? {
      var _ := fs.Remove(p);
    }
  }
  /** loadKey (key/load.go:9-24): the file's whole contents handed to `decode`; a failing
      open or read gives its error beside the zero key. */
  function LoadKey<K>(st: FsState, faults: Faults, p: Path, decode: seq<byte> -> Ret<K>, zero: K): Ret<K>
  {
    match ReadFileOf(st, faults, p)
    case Err(e) => Ret(zero, Some(e))
    case Ok(buf) => decode(buf)
  }
}
