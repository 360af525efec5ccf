/** The copy orchestration of `run` (cp/src/main.rs): split the paths into
    sources and a destination, decide whether the destination must be a
    directory, compute each source's target and copy the sources in order,
    stopping at the first failure and summing the byte counts. */
module Copy {
  import opened Results
  import opened Paths
  import opened FileOps

  /** How targets are computed: the destination itself (one source), or the
      destination directory joined with each source's file name. */
  datatype Mode = SingleFile(dst: Path) | IntoDirectory(dir: Path)

  /** The destination is the last path; the sources are all the others, in
      their given order, and there is at least one of them. */
  function SplitPaths(paths: seq<Path>): (r: (seq<Path>, Path))
    requires |paths| >= 2
    ensures r.0 + [r.1] == paths
    ensures |r.0| >= 1
  {
    (paths[..|paths| - 1], paths[|paths| - 1])
  }

  /** The destination must be an existing directory exactly when there is
      more than one source; only then is the filesystem consulted. */
  function Resolve(srcs: seq<Path>, dst: Path, fs: FileSystem): (r: Result<Mode>)
    ensures |srcs| <= 1 ==> r == Ok(SingleFile(dst))
    ensures |srcs| > 1 && dst in fs.dirs ==> r == Ok(IntoDirectory(dst))
    ensures |srcs| > 1 && dst !in fs.dirs ==> r == Err(InvalidDestination(dst))
  {
    if |srcs| > 1 then
      if dst in fs.dirs then Ok(IntoDirectory(dst)) else Err(InvalidDestination(dst))
    else Ok(SingleFile(dst))
  }

  /** Where a source is copied to. A source without a file name cannot be
      copied into a directory. */
  function Target(mode: Mode, src: Path): (r: Result<Path>)
    ensures mode.SingleFile? ==> r == Ok(mode.dst)
    ensures mode.IntoDirectory? ==> (r.Ok? <==> FileName(src).Some?)
    ensures mode.IntoDirectory? && r.Ok? ==> FileName(r.value) == FileName(src)
    ensures r.Err? ==> r.error == MalformedSourcePath(src)
  {
    match mode
    case SingleFile(dst) => Ok(dst)
    case IntoDirectory(dir) =>
      match FileName(src)
      case None => Err(MalformedSourcePath(src))
      case Some(name) =>
        FileNameOfJoin(dir, name);
        Ok(Join(dir, name))
  }

  /** Every path some source of `srcs` is copied to. */
  ghost function Targets(srcs: seq<Path>, mode: Mode): set<Path> {
    set i | 0 <= i < |srcs| && Target(mode, srcs[i]).Ok? :: Target(mode, srcs[i]).value
  }

  /** Adds the bytes already copied to the total of a successful outcome. */
  function AddTotal(n: nat, o: Outcome): (r: Outcome)
    ensures r.fs == o.fs
    ensures r.result.Ok? <==> o.result.Ok?
    ensures r.result.Ok? ==> r.result.value == n + o.result.value
    ensures r.result.Err? ==> r == o
  {
    if o.result.Ok? then Outcome(Ok(n + o.result.value), o.fs) else o
  }

  /** Copies the sources one after the other, in order, each from the state
      the previous copy left; the first failure ends the run with that error
      and the filesystem as the failing copy left it. */
  function CopyAll(srcs: seq<Path>, mode: Mode, fs: FileSystem): Outcome
    decreases |srcs|
  {
    if |srcs| == 0 then Outcome(Ok(0), fs)
    else
      match Target(mode, srcs[0])
      case Err(e) => Outcome(Err(e), fs)
      case Ok(t) =>
        var first := CopyFile(srcs[0], t, fs);
        if first.result.Err? then first
        else AddTotal(first.result.value, CopyAll(srcs[1..], mode, first.fs))
  }

  /** The fold writes only the targets and keeps regular files and
      directories apart; it succeeds only if every source had a target. */
  lemma CopyAllFrame(srcs: seq<Path>, mode: Mode, fs: FileSystem)
    ensures Valid(fs) ==> Valid(CopyAll(srcs, mode, fs).fs)
    ensures ChangesOnly(fs, CopyAll(srcs, mode, fs).fs, Targets(srcs, mode))
    ensures CopyAll(srcs, mode, fs).result.Ok? ==>
      forall i :: 0 <= i < |srcs| ==> Target(mode, srcs[i]).Ok?
  {
    CopyAllKeepsValid(srcs, mode, fs);
    CopyAllWritesTargets(srcs, mode, fs);
    CopyAllHadTargets(srcs, mode, fs);
  }

  lemma {:induction false} CopyAllKeepsValid(srcs: seq<Path>, mode: Mode, fs: FileSystem)
    ensures Valid(fs) ==> Valid(CopyAll(srcs, mode, fs).fs)
    decreases |srcs|
  {
    if |srcs| > 0 {
      var first := CopyOne(srcs[0], mode, fs);
      CopyAllCons(srcs, mode, fs);
      if first.result.Ok? {
        CopyAllKeepsValid(srcs[1..], mode, first.fs);
      }
    }
  }

  lemma {:induction false} CopyAllWritesTargets(srcs: seq<Path>, mode: Mode, fs: FileSystem)
    ensures ChangesOnly(fs, CopyAll(srcs, mode, fs).fs, Targets(srcs, mode))
    decreases |srcs|
  {
    if |srcs| > 0 && Target(mode, srcs[0]).Ok? {
      var t := Target(mode, srcs[0]).value;
      var first := CopyOne(srcs[0], mode, fs);
      CopyAllCons(srcs, mode, fs);
      TargetsCons(srcs, mode);
      if first.result.Ok? {
        var rest := CopyAll(srcs[1..], mode, first.fs);
        CopyAllWritesTargets(srcs[1..], mode, first.fs);
        ChangesOnlyCompose(fs, first.fs, rest.fs, {t}, Targets(srcs[1..], mode));
      }
    }
  }

  lemma {:induction false} CopyAllHadTargets(srcs: seq<Path>, mode: Mode, fs: FileSystem)
    ensures CopyAll(srcs, mode, fs).result.Ok? ==>
      forall i :: 0 <= i < |srcs| ==> Target(mode, srcs[i]).Ok?
    decreases |srcs|
  {
    if |srcs| > 0 {
      var first := CopyOne(srcs[0], mode, fs);
      CopyAllCons(srcs, mode, fs);
      if first.result.Ok? {
        CopyAllHadTargets(srcs[1..], mode, first.fs);
        if CopyAll(srcs[1..], mode, first.fs).result.Ok? {
          forall i | 1 <= i < |srcs|
            ensures Target(mode, srcs[i]).Ok?
          {
            assert srcs[1..][i - 1] == srcs[i];
          }
        }
      }
    }
  }

  lemma TargetsCons(srcs: seq<Path>, mode: Mode)
    requires |srcs| > 0 && Target(mode, srcs[0]).Ok?
    ensures Targets(srcs, mode) == {Target(mode, srcs[0]).value} + Targets(srcs[1..], mode)
  {
    var tail := srcs[1..];
    forall p | p in Targets(srcs, mode)
      ensures p in {Target(mode, srcs[0]).value} + Targets(tail, mode)
    {
      var i :| 0 <= i < |srcs| && Target(mode, srcs[i]).Ok? && Target(mode, srcs[i]).value == p;
      if i > 0 {
        assert tail[i - 1] == srcs[i];
      }
    }
    forall p | p in Targets(tail, mode)
      ensures p in Targets(srcs, mode)
    {
      var i :| 0 <= i < |tail| && Target(mode, tail[i]).Ok? && Target(mode, tail[i]).value == p;
      assert srcs[i + 1] == tail[i];
    }
  }

  /** One run of the utility over `paths` (at least two). With several
      sources and a destination that is not an existing directory the run
      fails before any copy, leaving the filesystem as it was. */
  function Run(paths: seq<Path>, fs: FileSystem): (r: Outcome)
    requires |paths| >= 2
    ensures |paths| > 2 && paths[|paths| - 1] !in fs.dirs ==>
      r == Outcome(Err(InvalidDestination(paths[|paths| - 1])), fs)
    ensures Valid(fs) ==> Valid(r.fs)
  {
    var (srcs, dst) := SplitPaths(paths);
    match Resolve(srcs, dst, fs)
    case Err(e) => Outcome(Err(e), fs)
    case Ok(mode) =>
      CopyAllFrame(srcs, mode, fs);
      CopyAll(srcs, mode, fs)
  }

  /** Fail-fast: once a prefix of the sources has failed, the sources after
      it are never attempted, so the run is the same whatever follows. */
  lemma {:induction false} FailureIgnoresLaterSources(a: seq<Path>, b: seq<Path>, mode: Mode, fs: FileSystem)
    requires CopyAll(a, mode, fs).result.Err?
    ensures CopyAll(a + b, mode, fs) == CopyAll(a, mode, fs)
    decreases |a|
  {
    assert (a + b)[0] == a[0];
    assert (a + b)[1..] == a[1..] + b;
    var first := CopyOne(a[0], mode, fs);
    CopyAllCons(a, mode, fs);
    CopyAllCons(a + b, mode, fs);
    if first.result.Ok? {
      FailureIgnoresLaterSources(a[1..], b, mode, first.fs);
    }
  }

  /** In-order composition: running `a + b` runs `a` first and then `b` from
      the state `a` left, and on success the totals add up. */
  lemma {:induction false} RunsInOrder(a: seq<Path>, b: seq<Path>, mode: Mode, fs: FileSystem)
    requires CopyAll(a, mode, fs).result.Ok?
    ensures CopyAll(a + b, mode, fs) ==
      AddTotal(CopyAll(a, mode, fs).result.value, CopyAll(b, mode, CopyAll(a, mode, fs).fs))
    decreases |a|
  {
    if |a| == 0 {
      assert a + b == b;
    } else {
      assert (a + b)[0] == a[0];
      assert (a + b)[1..] == a[1..] + b;
      var first := CopyOne(a[0], mode, fs);
      CopyAllCons(a, mode, fs);
      CopyAllCons(a + b, mode, fs);
      var restA := CopyAll(a[1..], mode, first.fs);
      RunsInOrder(a[1..], b, mode, first.fs);
      AddTotalThen(first, CopyAll(a[1..] + b, mode, first.fs), restA, CopyAll(b, mode, restA.fs));
    }
  }

  /** The totals of a successful first step, of a successful middle part
      and of what follows add up. */
  lemma AddTotalThen(first: Outcome, rest: Outcome, middle: Outcome, last: Outcome)
    requires first.result.Ok? && middle.result.Ok?
    requires rest == AddTotal(middle.result.value, last)
    ensures AddTotal(first.result.value, rest) ==
      AddTotal(AddTotal(first.result.value, middle).result.value, last)
  {
  }

  /** A failed run failed at one source: every source before it was copied
      successfully, in order, and the run's error and final filesystem are
      those of the first failing source, started from the state its
      predecessors left. */
  lemma {:induction false} FailureLocated(srcs: seq<Path>, mode: Mode, fs: FileSystem)
    requires CopyAll(srcs, mode, fs).result.Err?
    ensures exists i :: 0 <= i < |srcs| && FailsAt(srcs, i, mode, fs)
    decreases |srcs|
  {
    var first := CopyOne(srcs[0], mode, fs);
    CopyAllCons(srcs, mode, fs);
    if first.result.Err? {
      assert srcs[..0] == [];
      assert FailsAt(srcs, 0, mode, fs);
    } else {
      FailureLocated(srcs[1..], mode, first.fs);
      var j :| 0 <= j < |srcs| - 1 && FailsAt(srcs[1..], j, mode, first.fs);
      FailsAtNext(srcs, j, mode, fs);
    }
  }

  /** A failure located in the rest of the sources, after a first source
      that was copied, is located one place further in all of them. */
  lemma FailsAtNext(srcs: seq<Path>, j: nat, mode: Mode, fs: FileSystem)
    requires j + 1 < |srcs|
    requires CopyOne(srcs[0], mode, fs).result.Ok?
    requires FailsAt(srcs[1..], j, mode, CopyOne(srcs[0], mode, fs).fs)
    ensures FailsAt(srcs, j + 1, mode, fs)
  {
    var first := CopyOne(srcs[0], mode, fs);
    var tail := srcs[1..];
    var failed := CopyOne(tail[j], mode, CopyAll(tail[..j], mode, first.fs).fs);
    PrefixCons(srcs, j + 1);
    assert tail[j] == srcs[j + 1];
    CopyOneAlone(srcs[0], mode, fs);
    RunsInOrder([srcs[0]], tail[..j], mode, fs);
    assert CopyAll(srcs[..j + 1], mode, fs) ==
      AddTotal(first.result.value, CopyAll(tail[..j], mode, first.fs));
    CopyAllCons(srcs, mode, fs);
    assert CopyAll(srcs, mode, fs) == AddTotal(first.result.value, failed);
  }

  /** A non-empty prefix is the first element followed by a prefix of the rest. */
  lemma PrefixCons(s: seq<Path>, n: nat)
    requires 0 < n <= |s|
    ensures s[..n] == [s[0]] + s[1..][..n - 1]
  {
    forall k | 0 <= k < n ensures s[..n][k] == ([s[0]] + s[1..][..n - 1])[k] {
      if k > 0 {
        assert ([s[0]] + s[1..][..n - 1])[k] == s[1..][k - 1];
      }
    }
  }

  /** The sources before `i` all succeed and source `i` fails, producing the
      outcome of the whole run. */
  ghost predicate FailsAt(srcs: seq<Path>, i: nat, mode: Mode, fs: FileSystem)
    requires i < |srcs|
  {
    var before := CopyAll(srcs[..i], mode, fs);
    && before.result.Ok?
    && CopyAll(srcs, mode, fs) == CopyOne(srcs[i], mode, before.fs)
    && CopyOne(srcs[i], mode, before.fs).result.Err?
  }

  /** The copy of a single source: its target, then `CopyFile`. */
  function CopyOne(src: Path, mode: Mode, fs: FileSystem): Outcome {
    match Target(mode, src)
    case Err(e) => Outcome(Err(e), fs)
    case Ok(t) => CopyFile(src, t, fs)
  }

  /** One source's step is the whole run over that source alone. */
  lemma CopyOneAlone(src: Path, mode: Mode, fs: FileSystem)
    ensures CopyOne(src, mode, fs) == CopyAll([src], mode, fs)
  {
  }

  /** No source is the target of any source, so no copy overwrites a file
      that is still to be read. */
  predicate NoSourceIsTarget(srcs: seq<Path>, mode: Mode) {
    forall i, j :: 0 <= i < |srcs| && 0 <= j < |srcs| && Target(mode, srcs[i]).Ok? ==>
      Target(mode, srcs[i]).value != srcs[j]
  }

  /** The sizes of the sources, as regular files of `fs`, added up. */
  function SumSizes(srcs: seq<Path>, fs: FileSystem): nat {
    if |srcs| == 0 then 0
    else (if srcs[0] in fs.files then |fs.files[srcs[0]]| else 0) + SumSizes(srcs[1..], fs)
  }

  lemma {:induction false} SumSizesFrame(srcs: seq<Path>, fs: FileSystem, fs': FileSystem)
    requires forall i :: 0 <= i < |srcs| ==> SameAt(fs, fs', srcs[i])
    ensures SumSizes(srcs, fs') == SumSizes(srcs, fs)
    decreases |srcs|
  {
    if |srcs| > 0 {
      assert SameAt(fs, fs', srcs[0]);
      SumSizesFrame(srcs[1..], fs, fs');
    }
  }

  /** When no copy overwrites a source, the total a successful run reports
      is the sum of the sources' sizes before the run. */
  lemma {:induction false} TotalIsSumOfSizes(srcs: seq<Path>, mode: Mode, fs: FileSystem)
    requires NoSourceIsTarget(srcs, mode)
    requires CopyAll(srcs, mode, fs).result.Ok?
    ensures CopyAll(srcs, mode, fs).result.value == SumSizes(srcs, fs)
    decreases |srcs|
  {
    if |srcs| > 0 {
      var t := Target(mode, srcs[0]).value;
      var first := CopyFile(srcs[0], t, fs);
      assert t != srcs[0];
      var tail := srcs[1..];
      NoSourceIsTargetTail(srcs, mode);
      TotalIsSumOfSizes(tail, mode, first.fs);
      forall i | 0 <= i < |tail|
        ensures SameAt(fs, first.fs, tail[i])
      {
        assert tail[i] == srcs[i + 1];
      }
      SumSizesFrame(tail, fs, first.fs);
    }
  }

  /** No source after the `i`-th is copied to the same target. */
  predicate LastToTarget(srcs: seq<Path>, i: nat, mode: Mode)
    requires i < |srcs|
  {
    forall j :: i < j < |srcs| && Target(mode, srcs[j]).Ok? && Target(mode, srcs[i]).Ok? ==>
      Target(mode, srcs[j]).value != Target(mode, srcs[i]).value
  }

  lemma NoSourceIsTargetTail(srcs: seq<Path>, mode: Mode)
    requires |srcs| > 0 && NoSourceIsTarget(srcs, mode)
    ensures NoSourceIsTarget(srcs[1..], mode)
  {
    var tail := srcs[1..];
    forall i, j | 0 <= i < |tail| && 0 <= j < |tail| && Target(mode, tail[i]).Ok?
      ensures Target(mode, tail[i]).value != tail[j]
    {
      assert tail[i] == srcs[i + 1] && tail[j] == srcs[j + 1];
    }
  }

  /** After a successful run in which no copy overwrites a source, the
      target of the `i`-th source, if no later source shares it, holds that
      source's original bytes. */
  lemma {:induction false} TargetHoldsSource(srcs: seq<Path>, i: nat, mode: Mode, fs: FileSystem)
    requires i < |srcs|
    requires NoSourceIsTarget(srcs, mode)
    requires CopyAll(srcs, mode, fs).result.Ok?
    requires LastToTarget(srcs, i, mode)
    ensures srcs[i] in fs.files
    ensures Target(mode, srcs[i]).Ok?
    ensures Target(mode, srcs[i]).value in CopyAll(srcs, mode, fs).fs.files
    ensures CopyAll(srcs, mode, fs).fs.files[Target(mode, srcs[i]).value] == fs.files[srcs[i]]
    decreases |srcs|, 1
  {
    if i == 0 {
      FirstTargetHoldsSource(srcs, mode, fs);
    } else {
      LaterTargetHoldsSource(srcs, i, mode, fs);
    }
  }

  /** The inductive step of TargetHoldsSource: a later source's target is
      settled by the copies after the first, which leaves that source alone. */
  lemma {:induction false} LaterTargetHoldsSource(srcs: seq<Path>, i: nat, mode: Mode, fs: FileSystem)
    requires 0 < i < |srcs|
    requires NoSourceIsTarget(srcs, mode)
    requires CopyAll(srcs, mode, fs).result.Ok?
    requires LastToTarget(srcs, i, mode)
    ensures srcs[i] in fs.files
    ensures Target(mode, srcs[i]).Ok?
    ensures Target(mode, srcs[i]).value in CopyAll(srcs, mode, fs).fs.files
    ensures CopyAll(srcs, mode, fs).fs.files[Target(mode, srcs[i]).value] == fs.files[srcs[i]]
    decreases |srcs|, 0
  {
    var first := CopyOne(srcs[0], mode, fs);
    var tail := srcs[1..];
    CopyAllCons(srcs, mode, fs);
    assert first.result.Ok?;
    var rest := CopyAll(tail, mode, first.fs);
    assert CopyAll(srcs, mode, fs).fs == rest.fs;
    NoSourceIsTargetTail(srcs, mode);
    assert tail[i - 1] == srcs[i];
    assert LastToTarget(tail, i - 1, mode) by {
      forall j | i - 1 < j < |tail| ensures tail[j] == srcs[j + 1] { }
    }
    TargetHoldsSource(tail, i - 1, mode, first.fs);
    FirstLeavesOtherSources(srcs, i, mode, fs);
  }

  /** The first copy does not touch any other source. */
  lemma FirstLeavesOtherSources(srcs: seq<Path>, i: nat, mode: Mode, fs: FileSystem)
    requires 0 < i < |srcs|
    requires NoSourceIsTarget(srcs, mode)
    requires CopyOne(srcs[0], mode, fs).result.Ok?
    ensures SameAt(fs, CopyOne(srcs[0], mode, fs).fs, srcs[i])
  {
    var t := Target(mode, srcs[0]).value;
    assert t != srcs[i];
  }

  /** The first source's target, when no later source shares it, holds the
      first source's bytes at the end of a successful run. */
  lemma FirstTargetHoldsSource(srcs: seq<Path>, mode: Mode, fs: FileSystem)
    requires 0 < |srcs|
    requires NoSourceIsTarget(srcs, mode)
    requires CopyAll(srcs, mode, fs).result.Ok?
    requires LastToTarget(srcs, 0, mode)
    ensures srcs[0] in fs.files
    ensures Target(mode, srcs[0]).Ok?
    ensures Target(mode, srcs[0]).value in CopyAll(srcs, mode, fs).fs.files
    ensures CopyAll(srcs, mode, fs).fs.files[Target(mode, srcs[0]).value] == fs.files[srcs[0]]
  {
    var first := CopyOne(srcs[0], mode, fs);
    var tail := srcs[1..];
    CopyAllCons(srcs, mode, fs);
    var t := Target(mode, srcs[0]).value;
    assert t != srcs[0];
    CopyFileCopiesContent(srcs[0], t, fs);
    var rest := CopyAll(tail, mode, first.fs);
    CopyAllFrame(tail, mode, first.fs);
    assert t !in Targets(tail, mode) by {
      forall j | 0 <= j < |tail| && Target(mode, tail[j]).Ok?
        ensures Target(mode, tail[j]).value != t
      {
        assert tail[j] == srcs[j + 1];
      }
    }
    assert SameAt(first.fs, rest.fs, t);
  }

  /** With a single source no directory check is made and the source is
      copied to the destination path unchanged. */
  lemma SingleSourceIsPlainCopy(src: Path, dst: Path, fs: FileSystem)
    ensures Run([src, dst], fs) == CopyFile(src, dst, fs)
  {
    assert [src, dst][..1] == [src];
    assert SplitPaths([src, dst]) == ([src], dst);
    CopyOneAlone(src, SingleFile(dst), fs);
    assert CopyOne(src, SingleFile(dst), fs) == CopyFile(src, dst, fs);
  }

  /** With several sources and a destination directory, a successful run
      copied every source to the directory joined with that source's file
      name. */
  lemma DirectoryTargets(paths: seq<Path>, fs: FileSystem)
    requires |paths| > 2
    requires Run(paths, fs).result.Ok?
    ensures paths[|paths| - 1] in fs.dirs
    ensures forall i :: 0 <= i < |paths| - 1 ==>
      FileName(paths[i]).Some? &&
      Target(IntoDirectory(paths[|paths| - 1]), paths[i]) == Ok(Join(paths[|paths| - 1], FileName(paths[i]).value))
  {
    var srcs := paths[..|paths| - 1];
    CopyAllFrame(srcs, IntoDirectory(paths[|paths| - 1]), fs);
    forall i | 0 <= i < |paths| - 1
      ensures FileName(paths[i]).Some?
    {
      assert srcs[i] == paths[i];
    }
  }

  /** One step of the fold: the first source, then the rest. */
  lemma CopyAllCons(srcs: seq<Path>, mode: Mode, fs: FileSystem)
    requires |srcs| > 0
    ensures var o := CopyOne(srcs[0], mode, fs);
      CopyAll(srcs, mode, fs) ==
        if o.result.Err? then o else AddTotal(o.result.value, CopyAll(srcs[1..], mode, o.fs))
  {
  }

  /** `Run` is the destination check followed by the fold over the sources. */
  lemma RunUnfolds(paths: seq<Path>, fs: FileSystem)
    requires |paths| >= 2
    ensures var srcs := paths[..|paths| - 1];
      var dst := paths[|paths| - 1];
      Run(paths, fs) ==
        if |srcs| > 1 && dst !in fs.dirs then Outcome(Err(InvalidDestination(dst)), fs)
        else CopyAll(srcs, if |srcs| > 1 then IntoDirectory(dst) else SingleFile(dst), fs)
  {
  }

  /** The fold from the `i`-th source on is that source's step followed,
      if it succeeded, by the fold from the next source. */
  lemma CopyAllFrom(srcs: seq<Path>, i: nat, mode: Mode, fs: FileSystem)
    requires i < |srcs|
    ensures var o := CopyOne(srcs[i], mode, fs);
      CopyAll(srcs[i..], mode, fs) ==
        if o.result.Err? then o else AddTotal(o.result.value, CopyAll(srcs[i + 1..], mode, o.fs))
  {
    var tail := srcs[i..];
    assert tail[0] == srcs[i];
    assert tail[1..] == srcs[i + 1..];
    CopyAllCons(tail, mode, fs);
  }

  /** The running total before one step of the fold, carried over it. */
  lemma StepTotals(goal: Outcome, total: nat, whole: Outcome, o: Outcome, rest: Outcome)
    requires goal == AddTotal(total, whole)
    requires whole == if o.result.Err? then o else AddTotal(o.result.value, rest)
    ensures o.result.Err? ==> goal == o
    ensures o.result.Ok? ==> goal == AddTotal(total + o.result.value, rest)
  {
  }

  /** `run` as the utility writes it: the destination check sets a
      directory flag, then the sources are copied by `CopyLoop`. It computes
      the same outcome as `Run`. */
  method RunLoop(paths: seq<Path>, fs: FileSystem) returns (result: Result<nat>, fs': FileSystem)
    requires |paths| >= 2
    ensures Outcome(result, fs') == Run(paths, fs)
  {
    var dst := paths[|paths| - 1];
    var srcs := paths[..|paths| - 1];
    RunUnfolds(paths, fs);
    var destIsDir := false;
    if |srcs| > 1 {
      if dst !in fs.dirs {
        return Err(InvalidDestination(dst)), fs;
      }
      destIsDir := true;
    }
    result, fs' := CopyLoop(srcs, dst, destIsDir, fs);
  }

  /** The mode the loop of `run` copies in, from its directory flag. */
  function ModeOf(dst: Path, destIsDir: bool): Mode {
    if destIsDir then IntoDirectory(dst) else SingleFile(dst)
  }

  /** The target path as the loop of `run` builds it: the destination, with
      the source's file name pushed onto it in directory mode. */
  method TargetPath(src: Path, dst: Path, destIsDir: bool) returns (r: Result<Path>)
    ensures r == Target(ModeOf(dst, destIsDir), src)
  {
    var target := dst;
    if destIsDir {
      match FileName(src) {
        case None =>
          return Err(MalformedSourcePath(src));
        case Some(name) =>
          target := Join(target, name);
      }
    }
    return Ok(target);
  }

  /** The body of the loop of `run` for one source: its target path, then
      `copy_file` to it. */
  method CopySource(src: Path, dst: Path, destIsDir: bool, fs: FileSystem) returns (o: Outcome)
    ensures o == CopyOne(src, ModeOf(dst, destIsDir), fs)
  {
    var target := TargetPath(src, dst, destIsDir);
    if target.Err? {
      return Outcome(Err(target.error), fs);
    }
    o := CopyFile(src, target.value, fs);
  }

  /** The loop of `run`: each source's target is the destination, joined
      with the source's file name when the destination is a directory; the
      loop returns at the first failure and otherwise accumulates the byte
      counts. */
  method CopyLoop(srcs: seq<Path>, dst: Path, destIsDir: bool, fs: FileSystem)
    returns (result: Result<nat>, fs': FileSystem)
    ensures Outcome(result, fs') ==
      CopyAll(srcs, ModeOf(dst, destIsDir), fs)
  {
    var mode := ModeOf(dst, destIsDir);
    ghost var goal := CopyAll(srcs, mode, fs);
    var total: nat := 0;
    fs' := fs;
    var i := 0;
    assert srcs[0..] == srcs;
    while i < |srcs|
      invariant 0 <= i <= |srcs|
      invariant goal == AddTotal(total, CopyAll(srcs[i..], mode, fs'))
    {
      var copied := CopySource(srcs[i], dst, destIsDir, fs');
      CopyAllFrom(srcs, i, mode, fs');
      StepTotals(goal, total, CopyAll(srcs[i..], mode, fs'), copied, CopyAll(srcs[i + 1..], mode, copied.fs));
      if copied.result.Err? {
        return copied.result, copied.fs;
      }
      total := total + copied.result.value;
      fs' := copied.fs;
      i := i + 1;
    }
    result := Ok(total);
  }
}
