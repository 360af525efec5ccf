/** The filesystem as the copy utility sees it, and `copy_file`
    (cp/src/main.rs) as a transition on it. */
module FileOps {
  import opened Results
  import opened Paths

  type Byte = b: int | 0 <= b < 256

  /** An abstract filesystem. `files` holds the regular files and their
      contents, `dirs` the directories. Opening a path in `unreadable` or
      creating a path in `unwritable` is refused (permission denial, a
      missing parent directory). `faults` maps a source path to the number
      of bytes that can be transferred from it before reading or writing
      fails part-way. */
  datatype FileSystem = FileSystem(
    files: map<Path, seq<Byte>>,
    dirs: set<Path>,
    unreadable: set<Path>,
    unwritable: set<Path>,
    faults: map<Path, nat>)

  /** No path is both a regular file and a directory. */
  predicate Valid(fs: FileSystem) {
    fs.files.Keys !! fs.dirs
  }

  /** Opening for reading succeeds on any existing path the process may read,
      a directory included (as on Linux). */
  predicate CanOpen(fs: FileSystem, p: Path) {
    (p in fs.files || p in fs.dirs) && p !in fs.unreadable
  }

  /** Creating (or truncating) for writing succeeds on any path that is not a
      directory and that the process may write. */
  predicate CanCreate(fs: FileSystem, p: Path) {
    p !in fs.dirs && p !in fs.unwritable
  }

  /** Changes confined to one set of paths and then to another are confined
      to their union. */
  lemma ChangesOnlyCompose(fs0: FileSystem, fs1: FileSystem, fs2: FileSystem, a: set<Path>, b: set<Path>)
    requires ChangesOnly(fs0, fs1, a) && ChangesOnly(fs1, fs2, b)
    ensures ChangesOnly(fs0, fs2, a + b)
  {
    forall p | p !in a + b
      ensures SameAt(fs0, fs2, p)
    {
      assert SameAt(fs0, fs1, p) && SameAt(fs1, fs2, p);
    }
  }

  /** `p` is the same regular file, with the same content, in both states. */
  predicate SameAt(fs: FileSystem, fs': FileSystem, p: Path) {
    && (p in fs.files <==> p in fs'.files)
    && (p in fs.files ==> fs.files[p] == fs'.files[p])
  }

  /** Everything but the regular files' contents is left alone, and only
      the contents at `written` may differ. */
  ghost predicate ChangesOnly(fs: FileSystem, fs': FileSystem, written: set<Path>) {
    && fs' == fs.(files := fs'.files)
    && forall p :: p !in written ==> SameAt(fs, fs', p)
  }

  /** The outcome of one operation together with the filesystem it leaves. */
  datatype Outcome = Outcome(result: Result<nat>, fs: FileSystem)

  /** Copy the bytes of `src` into `dst`: open the source, then create or
      truncate the destination, then transfer. The transfer reads the source
      after the truncation, so a source that is its own destination is read
      as empty; a directory opens but fails on the first read; a fault
      leaves the destination holding the bytes transferred so far. */
  function CopyFile(src: Path, dst: Path, fs: FileSystem): (s: Outcome)
    ensures Valid(fs) ==> Valid(s.fs)
    ensures ChangesOnly(fs, s.fs, {dst})
    ensures s.result.Ok? ==> dst in s.fs.files && s.result.value == |s.fs.files[dst]|
  {
    if !CanOpen(fs, src) then Outcome(Err(SourceUnreadable(src)), fs)
    else if !CanCreate(fs, dst) then Outcome(Err(DestinationUnwritable(dst)), fs)
    else
      var truncated := fs.(files := fs.files[dst := []]);
      if src in fs.dirs then Outcome(Err(CopyIoError(src)), truncated)
      else
        var content := truncated.files[src];
        if src in fs.faults && fs.faults[src] < |content| then
          Outcome(Err(CopyIoError(src)), fs.(files := fs.files[dst := content[..fs.faults[src]]]))
        else
          Outcome(Ok(|content|), fs.(files := fs.files[dst := content]))
  }

  /** A successful copy between two different paths leaves the destination
      with exactly the source's bytes and reports their number; the source
      is a regular file and stays as it was. */
  lemma CopyFileCopiesContent(src: Path, dst: Path, fs: FileSystem)
    requires src != dst
    requires CopyFile(src, dst, fs).result.Ok?
    ensures src in fs.files
    ensures CopyFile(src, dst, fs).fs.files[dst] == fs.files[src]
    ensures CopyFile(src, dst, fs).result.value == |fs.files[src]|
    ensures SameAt(fs, CopyFile(src, dst, fs).fs, src)
  {
  }

  /** The conditions under which a copy succeeds, in both directions. */
  lemma CopyFileSucceedsIff(src: Path, dst: Path, fs: FileSystem)
    requires Valid(fs)
    ensures CopyFile(src, dst, fs).result.Ok? <==>
      && CanOpen(fs, src) && CanCreate(fs, dst) && src in fs.files
      && (src != dst && src in fs.faults ==> fs.faults[src] >= |fs.files[src]|)
  {
  }

  /** The source is opened before the destination is created: when the
      source cannot be opened the destination is not touched, and nothing
      else is either. */
  lemma UnreadableSourceChangesNothing(src: Path, dst: Path, fs: FileSystem)
    requires !CanOpen(fs, src)
    ensures CopyFile(src, dst, fs) == Outcome(Err(SourceUnreadable(src)), fs)
  {
  }

  /** A destination that cannot be created is reported only once the source
      has opened, and the filesystem is unchanged. */
  lemma UncreatableDestinationChangesNothing(src: Path, dst: Path, fs: FileSystem)
    requires CanOpen(fs, src) && !CanCreate(fs, dst)
    ensures CopyFile(src, dst, fs) == Outcome(Err(DestinationUnwritable(dst)), fs)
  {
  }

  /** Once the destination has been created, a failing transfer is not
      cleaned up: the destination exists and holds a proper prefix of what
      the source held. */
  lemma FailedTransferLeavesPrefix(src: Path, dst: Path, fs: FileSystem)
    requires Valid(fs)
    requires CanOpen(fs, src) && CanCreate(fs, dst)
    requires CopyFile(src, dst, fs).result.Err?
    ensures CopyFile(src, dst, fs).result.error == CopyIoError(src)
    ensures dst in CopyFile(src, dst, fs).fs.files
    ensures src in fs.files ==>
      |CopyFile(src, dst, fs).fs.files[dst]| < |fs.files[src]| &&
      CopyFile(src, dst, fs).fs.files[dst] == fs.files[src][..|CopyFile(src, dst, fs).fs.files[dst]|]
    ensures src in fs.dirs ==> CopyFile(src, dst, fs).fs.files[dst] == []
  {
  }

  /** Copying a file onto itself truncates it first: it ends up empty and the
      reported count is zero. */
  lemma CopyOntoItselfEmpties(p: Path, fs: FileSystem)
    requires p in fs.files && CanOpen(fs, p) && CanCreate(fs, p)
    ensures CopyFile(p, p, fs) == Outcome(Ok(0), fs.(files := fs.files[p := []]))
  {
  }

  /** Copying a file to a sibling and back reproduces the original bytes. */
  lemma CopyThereAndBack(a: Path, b: Path, fs: FileSystem)
    requires Valid(fs)
    requires a != b
    requires CopyFile(a, b, fs).result.Ok?
    requires CopyFile(b, a, CopyFile(a, b, fs).fs).result.Ok?
    ensures CopyFile(b, a, CopyFile(a, b, fs).fs).fs.files[a] == fs.files[a]
    ensures CopyFile(b, a, CopyFile(a, b, fs).fs).fs.files[b] == fs.files[a]
  {
    CopyFileCopiesContent(a, b, fs);
    CopyFileCopiesContent(b, a, CopyFile(a, b, fs).fs);
  }
}
