/** The two path operations the copy utility relies on: the file name of a
    path (Rust's `Path::file_name`) and appending a name to a directory path
    (Rust's `PathBuf::push` with a relative argument). Paths are Unix paths,
    held as strings; no normalisation is done. */
module Paths {
  import opened Results

  type Path = string

  /** A file name: one normal path component. */
  predicate IsName(n: string) {
    && |n| > 0
    && (forall k :: 0 <= k < |n| ==> n[k] != '/')
    && n != "."
    && n != ".."
  }

  /** Index at which the last `/`-separated segment of `p` starts. */
  function SegmentStart(p: Path): (i: nat)
    ensures i <= |p|
    ensures forall k :: i <= k < |p| ==> p[k] != '/'
    ensures i == 0 || p[i - 1] == '/'
  {
    if |p| == 0 then 0
    else if p[|p| - 1] == '/' then |p|
    else SegmentStart(p[..|p| - 1])
  }

  /** The final component of `p` if it is a normal one. Trailing slashes and
      `.` components are skipped, as path component iteration skips them;
      a path that ends in `..`, the root and the empty path have none. */
  function FileName(p: Path): (r: Option<string>)
    ensures r.Some? ==> IsName(r.value)
    decreases |p|
  {
    if |p| == 0 then None
    else if p[|p| - 1] == '/' then FileName(p[..|p| - 1])
    else
      var i := SegmentStart(p);
      var segment := p[i..];
      if segment == "." then FileName(p[..i])
      else if segment == ".." then None
      else Some(segment)
  }

  /** `dir` with `name` appended: a separator is inserted only when `dir` is
      non-empty and does not already end in one. */
  function Join(dir: Path, name: string): (r: Path)
    ensures |r| >= |dir| + |name|
    ensures r[..|dir|] == dir && r[|r| - |name|..] == name
    ensures |dir| > 0 && dir[|dir| - 1] != '/' ==> |r| == |dir| + 1 + |name| && r[|dir|] == '/'
    ensures !(|dir| > 0 && dir[|dir| - 1] != '/') ==> r == dir + name
  {
    if |dir| > 0 && dir[|dir| - 1] != '/' then dir + "/" + name else dir + name
  }

  /** The separator position found by `SegmentStart` is unique. */
  lemma SegmentStartAfterSeparator(prefix: Path, name: string)
    requires prefix == [] || prefix[|prefix| - 1] == '/'
    requires forall k :: 0 <= k < |name| ==> name[k] != '/'
    ensures SegmentStart(prefix + name) == |prefix|
  {
    var p := prefix + name;
    if |prefix| > 0 {
      assert p[|prefix| - 1] == '/';
    }
    assert forall k :: |prefix| <= k < |p| ==> p[k] == name[k - |prefix|];
  }

  /** The target computed for a source in directory mode has that source's
      file name as its own file name. */
  lemma FileNameOfJoin(dir: Path, name: string)
    requires IsName(name)
    ensures FileName(Join(dir, name)) == Some(name)
  {
    var p := Join(dir, name);
    var prefix := p[..|p| - |name|];
    assert p == prefix + name;
    assert prefix == [] || prefix[|prefix| - 1] == '/';
    SegmentStartAfterSeparator(prefix, name);
    assert p[|p| - 1] == name[|name| - 1];
    assert p[|prefix|..] == name;
  }

  /** Paths for which the utility finds no file name: the empty path, the
      root, `.`, and every path whose last component is `..`. */
  lemma NoFileName(p: Path)
    ensures FileName("") == None
    ensures FileName("/") == None
    ensures FileName(".") == None
    ensures FileName("..") == None
    ensures FileName(p + "/..") == None
  {
    assert "/"[..0] == "";
    SegmentStartAfterSeparator("", ".");
    SegmentStartAfterSeparator("", "..");
    var q := p + "/..";
    assert q == (p + "/") + "..";
    SegmentStartAfterSeparator(p + "/", "..");
    assert q[|p| + 1..] == "..";
  }

  /** A trailing separator does not change the file name. */
  lemma FileNameSkipsSlash(p: Path)
    ensures FileName(p + "/") == FileName(p)
  {
    assert (p + "/")[..|p|] == p;
  }

  /** A trailing `.` component does not change the file name. */
  lemma FileNameSkipsDot(p: Path)
    ensures FileName(p + "/.") == FileName(p)
  {
    var q := p + "/.";
    assert q == (p + "/") + ".";
    SegmentStartAfterSeparator(p + "/", ".");
    assert q[|p| + 1..] == ".";
    assert q[..|p| + 1] == p + "/";
    FileNameSkipsSlash(p);
  }
}
