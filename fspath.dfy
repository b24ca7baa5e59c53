/** The parts of Rust's `std::path` that the storage engine relies on, on Unix:
    a path is what `Path::components` yields (a root marker and the normal components). */
module FsPath {
  import opened Errors

  datatype Path = Path(absolute: bool, comps: seq<string>)

  /** `/`, the root of the filesystem. */
  const FsRoot: Path := Path(true, [])

  /** The pieces of `s` between separators, empty pieces included. */
  function Segments(s: string): (r: seq<string>)
    ensures |r| >= 1
  {
    if s == [] then [""]
    else if s[0] == '/' then [""] + Segments(s[1..])
    else
      var rest := Segments(s[1..]);
      [[s[0]] + rest[0]] + rest[1..]
  }

  /** Drops the pieces that `components()` normalises away: empty ones (repeated or trailing
      separators) and `.` after the first component. */
  function DropEmpty(segs: seq<string>): seq<string> {
    if segs == [] then []
    else (if segs[0] == "" || segs[0] == "." then [] else [segs[0]]) + DropEmpty(segs[1..])
  }

  function Components(s: string): seq<string> {
    DropEmpty(Segments(s))
  }

  /** A name that `join` appends as exactly one component. */
  predicate IsComponent(n: string) {
    n != "" && n != "." && '/' !in n
  }

  lemma {:induction false} SegmentsOfPlain(s: string)
    requires '/' !in s
    ensures Segments(s) == [s]
  {
    if s != [] {
      assert '/' !in s[1..] by {
        forall i | 0 <= i < |s[1..]| ensures s[1..][i] != '/' {
          assert s[1..][i] == s[i + 1];
        }
      }
      SegmentsOfPlain(s[1..]);
      assert [s[0]] + s[1..] == s;
    }
  }

  /** `PathBuf::from(s)` */
  function FromString(s: string): Path {
    Path(|s| > 0 && s[0] == '/', Components(s))
  }

  /** `path.join(name)`: an absolute name replaces the path, anything else is appended
      component by component. */
  function Join(p: Path, name: string): (r: Path)
    ensures IsComponent(name) ==> r == Path(p.absolute, p.comps + [name])
    ensures name == "" ==> r == p
  {
    if |name| > 0 && name[0] == '/' then FromString(name)
    else
      if '/' !in name then
        SegmentsOfPlain(name);
        Path(p.absolute, p.comps + Components(name))
      else Path(p.absolute, p.comps + Components(name))
  }

  /** `path.parent()`: `None` for `/` and for the empty path. */
  function Parent(p: Path): (r: Option<Path>)
    ensures r.Some? <==> p.comps != []
    ensures r.Some? ==> r.value.absolute == p.absolute && r.value.comps + [p.comps[|p.comps| - 1]] == p.comps
  {
    if p.comps == [] then None else Some(Path(p.absolute, p.comps[..|p.comps| - 1]))
  }

  /** `path.file_name()`: the last component, unless there is none or it is `..`. */
  function FileName(p: Path): Option<string> {
    if p.comps == [] || p.comps[|p.comps| - 1] == ".." then None
    else Some(p.comps[|p.comps| - 1])
  }

  /** Index of the last `.` in a file name. */
  function LastDot(n: string): (r: Option<nat>)
    ensures r.Some? ==> r.value < |n| && n[r.value] == '.' && '.' !in n[r.value + 1..]
    ensures r.None? ==> '.' !in n
  {
    if n == [] then None
    else if n[|n| - 1] == '.' then Some(|n| - 1)
    else
      var r := LastDot(n[..|n| - 1]);
      assert n == n[..|n| - 1] + [n[|n| - 1]];
      r
  }

  /** The stem of a file name, as `rsplit_file_at_dot` cuts it: a leading dot does not
      start an extension. */
  function StemOf(n: string): string {
    match LastDot(n)
    case None => n
    case Some(i) => if i == 0 then n else n[..i]
  }

  function ExtensionOf(n: string): Option<string> {
    match LastDot(n)
    case None => None
    case Some(i) => if i == 0 then None else Some(n[i + 1..])
  }

  /** `path.file_stem()` */
  function FileStem(p: Path): Option<string> {
    match FileName(p)
    case None => None
    case Some(n) => Some(StemOf(n))
  }

  /** `path.extension()` */
  function Extension(p: Path): Option<string> {
    match FileName(p)
    case None => None
    case Some(n) => ExtensionOf(n)
  }

  /** `path.starts_with(base)`, component-wise; the empty relative path is a prefix of every path. */
  predicate StartsWith(p: Path, base: Path) {
    (base.absolute == p.absolute || (!base.absolute && base.comps == [])) && base.comps <= p.comps
  }

  /** `path.ends_with(child)`, component-wise from the end. */
  predicate EndsWith(p: Path, child: Path) {
    |child.comps| <= |p.comps|
    && p.comps[|p.comps| - |child.comps|..] == child.comps
    && (child.absolute ==> p.absolute && |child.comps| == |p.comps|)
  }

  lemma StemOfWithExtension(stem: string, ext: string)
    requires stem != [] && '.' !in ext
    ensures StemOf(stem + "." + ext) == stem
    ensures ExtensionOf(stem + "." + ext) == Some(ext)
  {
    var n := stem + "." + ext;
    assert n[|stem|] == '.';
    assert n[|stem| + 1..] == ext;
    assert '.' in n;
    var d := LastDot(n);
    forall k | d.value < k < |n|
      ensures n[k] != '.'
    {
      assert n[d.value + 1..][k - d.value - 1] == n[k];
    }
    forall k | |stem| < k < |n|
      ensures n[k] != '.'
    {
      assert n[k] == ext[k - |stem| - 1];
    }
  }

  lemma StemOfPlain(n: string)
    requires '.' !in n
    ensures StemOf(n) == n && ExtensionOf(n) == None
  {
  }

  /** The parent, file name and prefix relation of a path extended by one component. */
  lemma JoinComponent(p: Path, n: string)
    requires IsComponent(n)
    ensures Parent(Join(p, n)) == Some(p)
    ensures n != ".." ==> FileName(Join(p, n)) == Some(n)
    ensures StartsWith(Join(p, n), p) && Join(p, n) != p
  {
    var j := Join(p, n);
    assert j.comps[..|j.comps| - 1] == p.comps;
  }

  /** A name that does not start with a separator, which `join` appends to the path. */
  predicate Relative(n: string) {
    !(|n| > 0 && n[0] == '/')
  }

  /** Joining a relative name never leaves the path. */
  lemma JoinRelative(p: Path, n: string)
    requires Relative(n)
    ensures StartsWith(Join(p, n), p)
  {
  }

  lemma StartsWithTrans(a: Path, b: Path, c: Path)
    requires StartsWith(a, b) && StartsWith(b, c)
    ensures StartsWith(a, c)
  {
  }

  /** Joining any name either leaves the path or extends it; an absolute name replaces it. */
  lemma JoinRelativeOrSame(p: Path, n: string)
    ensures Relative(n) ==> StartsWith(Join(p, n), p)
    ensures !Relative(n) ==> Join(p, n).absolute
  {
  }

  /** A path lies inside its parent. */
  lemma ChildStartsWith(c: Path, p: Path)
    requires Parent(c) == Some(p)
    ensures StartsWith(c, p) && c != p
  {
  }

  /** Nothing lies inside two different children of the same directory. */
  lemma SiblingsApart(a: Path, b: Path, p: Path, q: Path)
    requires Parent(a) == Some(p) && Parent(b) == Some(p) && a != b
    ensures !(StartsWith(q, a) && StartsWith(q, b))
  {
  }
}
