# cp and tobin, modelled in Dafny

This project models two small Rust programs.

- **cp** (`cp/src/main.rs`) is a file-copy utility. `run` does the following:
  - It splits the command-line paths into sources and a final destination.
  - When there is more than one source, it insists that the destination is an existing directory.
  - It computes each source's target: the destination itself, or the destination directory joined with the source's file name.
  - It copies the sources one after another with `copy_file` and stops at the first failure.
  - It sums the byte counts.

  `init_log` maps the `-v` count to the most verbose log level that is printed.
- **tobin** (`tobin/src/main.rs`) writes a `u128` as groups of eight binary digits, most significant first and separated by single blanks. Every all-zero group is left out.

Modules:

- `Results` (`results.dfy`): `Option`, `Result` and the copy errors.
- `Paths` (`paths.dfy`): a path's file name (Rust's `Path::file_name`) and appending a name to a directory path (`PathBuf::push`).
- `FileOps` (`file_ops.dfy`):
  - An abstract filesystem: regular files with byte contents, directories, paths that cannot be opened or created, and per-source transfer faults.
  - `copy_file` as a transition on that filesystem.
- `Copy` (`copy.dfy`): `run` as a pure fold (`CopyAll`, `Run`), the loop as written (`RunLoop`, `CopyLoop`), and the properties of the fold.
- `Logging` (`logging.dfy`): the verbosity-to-level mapping of `init_log`.
- `BinaryDigits` (`bits.dfy`): powers of two, the bit test, strings of binary digits and their base-2 value.
- `BinaryFormat` (`tobin.dfy`):
  - `tobin` as written: the bit loop, the zero-group filter, the fold with blanks and the trim.
  - A reference definition in terms of the value's bytes.
  - The round trip, and the example values.

## Model

| member | source | states |
|---|---|---|
| Paths.FileName | cp/src/main.rs:97 | a file name, when there is one, is a single normal path component: non-empty, without '/', neither "." nor ".." |
| Paths.Join | cp/src/main.rs:96-98 | pushing a name keeps the directory as a prefix and the name as a suffix; a '/' separates them exactly when the directory is non-empty and does not already end in one |
| Paths.FileNameOfJoin | cp/src/main.rs:96-98 | the file name of a directory joined with a name is that name, so every target in a directory carries its source's file name |
| Paths.NoFileName | cp/src/main.rs:97 | the empty path, the root, "." and, for every path, one whose last component is ".." have no file name (the `unwrap` on them cannot succeed) |
| Paths.FileNameSkipsSlash | cp/src/main.rs:97 | for every path, a trailing '/' does not change the file name |
| Paths.FileNameSkipsDot | cp/src/main.rs:97 | for every path, a trailing "." component does not change the file name |
| FileOps.CopyFile | cp/src/main.rs:58-65 | copy_file changes nothing but the destination's content and keeps files and directories apart; on success the destination exists and the returned count is its length |
| FileOps.CopyFileCopiesContent | cp/src/main.rs:58-65 | a successful copy between distinct paths leaves the destination holding exactly the source's bytes, reports their number, and leaves the source as it was |
| FileOps.CopyFileSucceedsIff | cp/src/main.rs:58-65 | a copy succeeds exactly when the source is a readable regular file, the destination can be created, and no transfer fault cuts the source short |
| FileOps.UnreadableSourceChangesNothing | cp/src/main.rs:59 | a source that cannot be opened fails the copy before the destination is created, and the filesystem is unchanged |
| FileOps.UncreatableDestinationChangesNothing | cp/src/main.rs:60 | a destination that cannot be created fails the copy and the filesystem is unchanged |
| FileOps.FailedTransferLeavesPrefix | cp/src/main.rs:60-62 | a transfer that fails leaves the destination truncated, holding a proper prefix of the source's bytes (none for a directory source) |
| FileOps.CopyOntoItselfEmpties | cp/src/main.rs:59-62 | copying a file onto itself truncates it before it is read, so it ends up empty and 0 bytes are reported |
| FileOps.CopyThereAndBack | cp/src/main.rs:58-65 | copying a file to a sibling and back reproduces the original bytes in both places |
| FileOps.ChangesOnlyCompose | cp/src/main.rs:89-104 | changes confined to one set of paths, then to another, are confined to their union |
| Copy.SplitPaths | cp/src/main.rs:70-71 | the destination is the last path; the sources are the others, in order, and there is at least one |
| Copy.Resolve | cp/src/main.rs:76-87 | with more than one source the destination must be an existing directory, otherwise InvalidDestination; with one source no check is made |
| Copy.Target | cp/src/main.rs:93-98 | the target is the destination in single-file mode; in directory mode it exists exactly when the source has a file name, carries that file name, and otherwise the error is MalformedSourcePath |
| Copy.AddTotal | cp/src/main.rs:103 | a success adds the bytes already counted to its total; a failure passes through unchanged |
| Copy.CopyAllFrame | cp/src/main.rs:89-104 | the fold over the sources writes only the targets, keeps files and directories apart, and succeeds only if every source had a target |
| Copy.Run | cp/src/main.rs:67-109 | several sources and a destination that is not a directory fail with InvalidDestination before any write; a run keeps files and directories apart |
| Copy.FailureIgnoresLaterSources | cp/src/main.rs:100 | fail-fast: after a failing prefix, whatever sources follow are never attempted |
| Copy.RunsInOrder | cp/src/main.rs:89-104 | copying a + b is copying a, then b from the state a left, with the totals added |
| Copy.FailureLocated | cp/src/main.rs:89-104 | a failed fold fails at one source: the sources before it all succeeded, that source's target or copy failed, and its failure is the outcome of the whole run |
| Copy.TotalIsSumOfSizes | cp/src/main.rs:89-106 | when no source is another's target, a successful run's total is the sum of the sources' sizes |
| Copy.TargetHoldsSource | cp/src/main.rs:89-104 | when no source is another's target, after a successful run each source's last target holds that source's original bytes |
| Copy.SumSizesFrame | cp/src/main.rs:103 | the summed sizes depend only on the sources' own contents |
| Copy.SingleSourceIsPlainCopy | cp/src/main.rs:76-100 | with one source the run is exactly one copy_file to the destination path, without a directory check |
| Copy.DirectoryTargets | cp/src/main.rs:76-98 | a successful multi-source run had a directory destination, and every source had a file name and was copied to that directory joined with it |
| Copy.CopyAllCons | cp/src/main.rs:90-103 | one step of the loop: the first source's copy, then, on success, the rest with the total added |
| Copy.CopyOneAlone | cp/src/main.rs:93-100 | one source's step is the fold over that source alone |
| Copy.TargetPath | cp/src/main.rs:93-98 | the target path built by the loop body is the target of the mode the directory flag selects |
| Copy.CopySource | cp/src/main.rs:93-100 | the loop body for one source, its target path and then copy_file, computes that source's step of the fold |
| Copy.CopyLoop | cp/src/main.rs:89-104 | the loop that returns at the first error and accumulates the byte counts computes the same outcome as the fold |
| Copy.RunLoop | cp/src/main.rs:67-109 | run with its directory flag and loop computes the same outcome as Run |
| Logging.MaxLevel | cp/src/main.rs:46-51 | errors and warnings are always shown; info needs one -v, debug two and trace three |
| Logging.MaxLevelMonotone | cp/src/main.rs:46-51 | a higher verbosity never hides a message a lower one shows |
| BinaryDigits.BitsDigit | tobin/src/main.rs:7-16 | digit k of the 128 digits is '1' exactly when bit 127 - k of the value is set |
| BinaryDigits.DecodeBits | tobin/src/main.rs:7-16 | the digits written for the low n bits read back in base 2 as the value modulo 2^n |
| BinaryDigits.DecodeInjective | tobin/src/main.rs:7-16 | strings of binary digits of the same length that read back the same are equal |
| BinaryDigits.DecodeAppend | tobin/src/main.rs:13-15 | appending digits shifts the value left by their number and adds theirs |
| BinaryFormat.TobinLoop | tobin/src/main.rs:1-30 | the loop that tests bits 127 to 0 and cuts a group whenever the index is a multiple of eight builds the sixteen byte groups, and the whole function computes Tobin |
| BinaryFormat.GroupsAreBytes | tobin/src/main.rs:7-22 | the sixteen groups are the value's bytes, most significant first, each in eight binary digits |
| BinaryFormat.GroupValue | tobin/src/main.rs:7-22 | group k reads back as byte 15 - k of the value |
| BinaryFormat.ZeroGroupIffZero | tobin/src/main.rs:26 | a byte's group is "00000000" exactly when the byte is zero |
| BinaryFormat.DropZeroGroupsOfBytes | tobin/src/main.rs:26 | filtering out the all-zero groups keeps the groups of the non-zero bytes, in order |
| BinaryFormat.FoldSpacesJoins | tobin/src/main.rs:27 | the fold puts a blank before every group |
| BinaryFormat.TrimJoined | tobin/src/main.rs:27-28 | trimming the folded string removes exactly the leading blank |
| BinaryFormat.TobinGroups | tobin/src/main.rs:1-30 | tobin is the non-zero bytes in eight digits each, joined by single blanks; splitting at the blanks gives those groups back |
| BinaryFormat.TobinGroupShape | tobin/src/main.rs:7-28 | every group of the output has eight binary digits, is not all zero, and reads back as the matching non-zero byte |
| BinaryFormat.TobinGroupCount | tobin/src/main.rs:24-29 | there are as many groups as non-zero bytes, and the output is empty exactly for the value 0 |
| BinaryFormat.TobinAlphabet | tobin/src/main.rs:13-15 | the output holds only '0', '1' and blanks |
| BinaryFormat.TobinSpacing | tobin/src/main.rs:27-28 | the output neither begins nor ends with a blank, and never holds two blanks in a row |
| BinaryFormat.SplitJoinSpaces | tobin/src/main.rs:27 | splitting words joined with single blanks gives the words back |
| BinaryFormat.RemoveBlanksJoin | tobin/src/main.rs:27 | removing the blanks from joined words gives their concatenation |
| BinaryFormat.DecodeDropLeading | tobin/src/main.rs:26 | dropping leading all-zero groups does not change the value the digits encode |
| BinaryFormat.DropZeroGroupsLeading | tobin/src/main.rs:26 | when no zero group follows a non-zero one, dropping all zero groups is dropping the leading ones |
| BinaryFormat.TobinRoundTrip | tobin/src/main.rs:1-30 | for a value without a zero byte below its top non-zero byte, the output equals the leading-zeros-only form and reads back as the value |
| BinaryFormat.TobinOfTwo | tobin/src/main.rs:33 | tobin(2) is "00000010" |
| BinaryFormat.TobinMergesInteriorZero | tobin/src/main.rs:26 | 1 and 256 are both written "00000001" |
| BinaryFormat.TobinLeadingOnlyRoundTrip | tobin/src/main.rs:24-29 | with only the leading all-zero groups dropped, removing the blanks and reading in base 2 gives back every value |
| BinaryFormat.TobinLeadingOnlyInjective | tobin/src/main.rs:24-29 | with only the leading all-zero groups dropped, different values are written differently |
| BinaryFormat.TobinLeadingOnlyOf256 | tobin/src/main.rs:26 | with only the leading all-zero groups dropped, 256 is written "00000001 00000000" |

## Left out

- Logging output: the `trace!`, `debug!`, `info!` and `error!` calls (cp/src/main.rs:73-74, 91, 101, 106, 117) are side effects on the log sink. Only the level mapping is modelled.
- Logger setup: the pattern encoder, the console appender and the failure of `log4rs` configuration or initialisation (cp/src/main.rs:37-45, 53-54) are external library calls.
- Argument parsing: `structopt`, `Opts` and `main` (cp/src/main.rs:13-34, 111-120) are outside the model. `Run` takes the parsed path list and requires at least two paths, as `min_values = 2` guarantees. `Logging.MaxLevel` takes the verbosity, which `max_values = 3` does not bound.
- Copy.AddTotal: the running total is a `u64` in the source and an unbounded natural number here. No run can copy 2^64 bytes, so overflow is not modelled.
- Copy.TotalIsSumOfSizes: states the total as the sum of the sources' original sizes only when no source is also a target. Without that condition, each copy reports the size its source has at that moment, which an earlier copy may have changed. The general statement, that the total is the sum of the per-copy counts, is the fold itself (`AddTotal`, `RunsInOrder`, and the invariant of `CopyLoop`).
- Copy.TargetHoldsSource: stated under the same condition, and for the last source written to each target, since a later source with the same file name overwrites an earlier one.
- I/O causes: `File::open`, `File::create` and `io::copy` can fail for many reasons. The filesystem folds them into unreadable paths, unwritable paths and per-source transfer faults. `fs::metadata` is reduced to membership in the set of directories. Symbolic links, permissions as bits, concurrency and the contents of error messages are not modelled.
- Paths are compared as strings and are not normalised, so `a//b` and `a/b` are different paths. Only Unix `/` separators are modelled. `PathBuf::push` with an absolute name cannot occur, because a file name has no '/'.
- FileOps.CopyFile: a directory source is modelled as Linux treats it. It opens, the destination is truncated, and the first read fails with `CopyIoError`.
- FileOps.CopyFile: the destination is truncated before the source is read, so copying a file onto itself empties it and reports 0 bytes (`CopyOntoItselfEmpties`). This follows the code, not a promise that such a copy reproduces the bytes.
- Copy.Target: a source without a file name makes `unwrap` panic (cp/src/main.rs:97). The panic is modelled as the error `MalformedSourcePath`, which ends the run.
- tobin: `first_bit` (tobin/src/main.rs:5, 9-11) is written but never read. The test `i != 128` (line 18) always holds, because `i < 128`. Neither affects the result.
- tobin: `main` (tobin/src/main.rs:32-34) only prints `tobin(2)`. Its value is `TobinOfTwo`.

## Findings

| source | as written | input that shows it | evidently intended | confidence | as-written member | corrected member |
|---|---|---|---|---|---|---|
| tobin/src/main.rs:26 | the filter drops every all-zero group, including zero bytes below the most significant non-zero byte | 256: tobin(256) is "00000001", the same as tobin(1) | drop only the leading all-zero groups, so that 256 is "00000001 00000000" and every value can be read back | not executed | BinaryFormat.TobinMergesInteriorZero | BinaryFormat.TobinLeadingOnlyRoundTrip |
