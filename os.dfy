/** The part of the operating system the key files and the known-hosts file live in: a map
    from path to file contents and mode, the set of directories, and the system calls the
    source makes on them. Which calls fail, and on which paths, is fixed by a `Faults`
    value the program cannot see (a full disk, a read-only directory, a permission problem).

    Each call is given twice: as a function from the old state to the error and the new state
    (`...Step`), and as a method of `FileSystem`, the object the program changes through
    those calls. The orchestration in the key and hosts modules is written against the
    methods and specified with the functions. */
module Os {
  import opened Bytes
  import opened Wrappers

  /** A path, split as filepath.Dir and filepath.Base split it. */
  datatype Path = Path(dir: string, base: string) {
    function Name(): string { dir + "/" + base }
  }

  datatype File = File(data: seq<byte>, mode: nat)

  datatype FsState = FsState(files: map<Path, File>, dirs: set<string>)

  /** The paths on which each system call fails. */
  datatype Faults = Faults(
    stat: set<Path>, mkdir: set<string>, create: set<Path>, chmod: set<Path>,
    write: set<Path>, read: set<Path>, remove: set<Path>)

  /** Whether q is absent from both states or holds the same file in both. */
  predicate SameFileAt(a: FsState, b: FsState, q: Path) {
    (q in a.files <==> q in b.files) && (q in a.files ==> a.files[q] == b.files[q])
  }

  /** The error a call returns (None for success) and the state after it. */
  datatype Step = Step(err: Option<Error>, st: FsState)

  /** The mode os.Create gives a file it creates, 0666 (the process umask is not modelled). */
  const CreateMode: nat := 438

  /** os.Stat. */
  function StatOf(st: FsState, faults: Faults, p: Path): Result<File> {
    if p in faults.stat then Err(IoFailure("stat", p.Name()))
    else if p in st.files then Ok(st.files[p])
    else Err(NotExist(p.Name()))
  }

  /** os.MkdirAll(dir, mode): directory modes are not tracked. */
  function MkdirAllStep(st: FsState, faults: Faults, dir: string): Step {
    if dir in faults.mkdir then Step(Some(IoFailure("mkdir", dir)), st)
    else Step(None, st.(dirs := st.dirs + {dir}))
  }

  /** os.Create: opens for writing, truncating an existing file and creating a missing one
      with mode 0666; fails when the directory does not exist. */
  function CreateStep(st: FsState, faults: Faults, p: Path): Step {
    if p.dir !in st.dirs then Step(Some(NotExist(p.Name())), st)
    else if p in faults.create then Step(Some(IoFailure("open", p.Name())), st)
    else
      var mode := if p in st.files then st.files[p].mode else CreateMode;
      Step(None, st.(files := st.files[p := File([], mode)]))
  }

  /** File.Chmod on an open file. */
  function ChmodStep(st: FsState, faults: Faults, p: Path, mode: nat): Step {
    if p !in st.files then Step(Some(NotExist(p.Name())), st)
    else if p in faults.chmod then Step(Some(IoFailure("chmod", p.Name())), st)
    else Step(None, st.(files := st.files[p := st.files[p].(mode := mode)]))
  }

  /** File.Write on a file open for writing: appends the bytes, or writes none and fails. */
  function WriteStep(st: FsState, faults: Faults, p: Path, data: seq<byte>): Step {
    if p !in st.files then Step(Some(NotExist(p.Name())), st)
    else if p in faults.write then Step(Some(IoFailure("write", p.Name())), st)
    else Step(None, st.(files := st.files[p := st.files[p].(data := st.files[p].data + data)]))
  }

  /** os.Remove. */
  function RemoveStep(st: FsState, faults: Faults, p: Path): Step {
    if p !in st.files then Step(Some(NotExist(p.Name())), st)
    else if p in faults.remove then Step(Some(IoFailure("remove", p.Name())), st)
    else Step(None, st.(files := st.files - {p}))
  }

  /** os.Open followed by io.ReadAll. */
  function ReadFileOf(st: FsState, faults: Faults, p: Path): Result<seq<byte>> {
    if p !in st.files then Err(NotExist(p.Name()))
    else if p in faults.read then Err(IoFailure("read", p.Name()))
    else Ok(st.files[p].data)
  }

  /** The chunks' bytes one after another. */
  function Concat(chunks: seq<seq<byte>>): seq<byte>
    decreases |chunks|
  {
    if chunks == [] then [] else Concat(chunks[..|chunks| - 1]) + chunks[|chunks| - 1]
  }

  /** The first chunk comes first. */
  lemma {:induction false} ConcatCons(first: seq<byte>, rest: seq<seq<byte>>)
    ensures Concat([first] + rest) == first + Concat(rest)
    decreases |rest|
  {
    if rest == [] {
      assert [first] + rest == [first];
      assert Concat([first]) == Concat([]) + first;
    } else {
      var all, front, last := [first] + rest, rest[..|rest| - 1], rest[|rest| - 1];
      assert all[..|all| - 1] == [first] + front && all[|all| - 1] == last;
      assert Concat(all) == Concat([first] + front) + last;
      ConcatCons(first, front);
      assert Concat(rest) == Concat(front) + last;
    }
  }

  /** File.Write called on p once per chunk, in order, each call's error ignored. */
  function WriteEach(st: FsState, faults: Faults, p: Path, chunks: seq<seq<byte>>): FsState
    decreases |chunks|
  {
    if chunks == [] then st
    else WriteStep(WriteEach(st, faults, p, chunks[..|chunks| - 1]), faults, p, chunks[|chunks| - 1]).st
  }

  /** One more write extends the writes of the chunks before it. */
  lemma WriteEachStep(st: FsState, faults: Faults, p: Path, chunks: seq<seq<byte>>, k: nat)
    requires k < |chunks|
    ensures WriteEach(st, faults, p, chunks[..k + 1])
      == WriteStep(WriteEach(st, faults, p, chunks[..k]), faults, p, chunks[k]).st
  {
    assert chunks[..k + 1][..k] == chunks[..k];
  }

  /** Writing chunk after chunk appends them all to the file, unless every write to it fails;
      nothing else changes. */
  lemma {:induction false} WriteEachAppends(st: FsState, faults: Faults, p: Path, chunks: seq<seq<byte>>)
    requires p in st.files
    ensures var f := st.files[p];
      WriteEach(st, faults, p, chunks)
        == st.(files := st.files[p := f.(data := f.data + if p in faults.write then [] else Concat(chunks))])
    decreases |chunks|
  {
    var f := st.files[p];
    if chunks == [] {
      assert f.(data := f.data + []) == f;
      assert st.files[p := f] == st.files;
    } else {
      var front := chunks[..|chunks| - 1];
      WriteEachAppends(st, faults, p, front);
      if p !in faults.write {
        var g := f.(data := f.data + Concat(front));
        assert g.data + chunks[|chunks| - 1] == f.data + Concat(chunks);
        assert st.files[p := g][p := g.(data := g.data + chunks[|chunks| - 1])]
          == st.files[p := f.(data := f.data + Concat(chunks))];
      }
    }
  }

  /** os.Create followed by a write per chunk: the file holds exactly the chunks, or nothing
      when every write fails; it keeps the mode of the file it replaced. */
  lemma CreateThenWrite(st: FsState, faults: Faults, p: Path, chunks: seq<seq<byte>>)
    requires CreateStep(st, faults, p).err.None?
    ensures var mode := if p in st.files then st.files[p].mode else CreateMode;
      WriteEach(CreateStep(st, faults, p).st, faults, p, chunks)
        == st.(files := st.files[p := File(if p in faults.write then [] else Concat(chunks), mode)])
  {
    var mode := if p in st.files then st.files[p].mode else CreateMode;
    var created := CreateStep(st, faults, p).st;
    assert created == st.(files := st.files[p := File([], mode)]);
    WriteEachAppends(created, faults, p, chunks);
    var data := if p in faults.write then [] else Concat(chunks);
    assert created.files[p].(data := created.files[p].data + data) == File(data, mode);
    UpdateTwice(st.files, p, File([], mode), File(data, mode));
  }

  /** A second update of the same path replaces the first. */
  lemma UpdateTwice(m: map<Path, File>, p: Path, a: File, b: File)
    ensures m[p := a][p := b] == m[p := b]
  {
  }

  /** The file system as the program sees it. */
  class FileSystem {
    var state: FsState
    const faults: Faults

    constructor (st: FsState, faults: Faults)
      ensures state == st && this.faults == faults
    {
      state := st;
      this.faults := faults;
    }

    method MkdirAll(dir: string) returns (err: Option<Error>)
      modifies this
      ensures Step(err, state) == MkdirAllStep(old(state), faults, dir)
    {
      var s := MkdirAllStep(state, faults, dir);
      err, state := s.err, s.st;
    }

    method Create(p: Path) returns (err: Option<Error>)
      modifies this
      ensures Step(err, state) == CreateStep(old(state), faults, p)
    {
      var s := CreateStep(state, faults, p);
      err, state := s.err, s.st;
    }

    method Chmod(p: Path, mode: nat) returns (err: Option<Error>)
      modifies this
      ensures Step(err, state) == ChmodStep(old(state), faults, p, mode)
    {
      var s := ChmodStep(state, faults, p, mode);
      err, state := s.err, s.st;
    }

    method Write(p: Path, data: seq<byte>) returns (err: Option<Error>)
      modifies this
      ensures Step(err, state) == WriteStep(old(state), faults, p, data)
    {
      var s := WriteStep(state, faults, p, data);
      err, state := s.err, s.st;
    }

    method Remove(p: Path) returns (err: Option<Error>)
      modifies this
      ensures Step(err, state) == RemoveStep(old(state), faults, p)
    {
      var s := RemoveStep(state, faults, p);
      err, state := s.err, s.st;
    }
  }
}
