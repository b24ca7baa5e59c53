/** Moving record folders out of the archive back into the working directory. */
module Unarchiving {
  import opened Errors
  import opened FsPath
  import opened Numbers
  import opened Fs
  import opened Layout
  import opened Listing
  import opened Search
  import opened Archiving

  /** `parent_is_num`: the stem of the folder's parent parses as an `i32`. */
  predicate ParentIsYear(d: Path) {
    && Parent(d).Some?
    && FileStem(Parent(d).value).Some?
    && ParseI32(FileStem(Parent(d).value).value).Some?
  }

  /** The three conditions a folder must meet to be moved out of the archive: inside the
      archive, not the archive itself, and in a folder named by a year. */
  predicate InArchive(st: Storage, d: Path) {
    StartsWith(d, st.archive) && d != st.archive && ParentIsYear(d)
  }

  /** Where an archived record named `name` goes back to. */
  function UnarchiveTarget(st: Storage, name: string): Path {
    Join(st.working, name)
  }

  /** `Storage::unarchive_project_dir(archived_dir)`: the record's name comes from its
      record file; the folder of that name must not exist in the working directory; the
      folder must sit in the archive; then it is renamed. The checks fail in that order. */
  function UnarchiveProjectDirSpec(st: Storage, es: seq<Entry>, ext: string, d: Path): (r: Outcome<Path>)
    ensures r.result.Ok? ==> InArchive(st, d) && CanRename(es, d, r.result.value) && r.after == RebaseAll(es, d, r.result.value)
    ensures r.result.Err? ==> r.after == es
  {
    match GetProjectName(es, ext, d)
    case Err(e) => Outcome(Err(e), es)
    case Ok(name) =>
      var target := UnarchiveTarget(st, name);
      if Exists(es, target) then Outcome(Err(ProjectFileExists), es)
      else if !InArchive(st, d) then Outcome(Err(InvalidDirStructure), es)
      else
        var moved := RenameSpec(es, d, target);
        if moved.result.Err? then Outcome(Err(moved.result.error), es)
        else Outcome(Ok(target), moved.after)
  }

  /** The checks of `unarchive_project_dir` and the order they fail in: the record file,
      then the name being free in the working directory, then the folder's place. */
  lemma UnarchiveChecksInOrder(st: Storage, es: seq<Entry>, ext: string, d: Path)
    ensures GetProjectName(es, ext, d).Err? ==>
      UnarchiveProjectDirSpec(st, es, ext, d) == Outcome(Err(GetProjectName(es, ext, d).error), es)
    ensures GetProjectName(es, ext, d).Ok? && Exists(es, UnarchiveTarget(st, GetProjectName(es, ext, d).value)) ==>
      UnarchiveProjectDirSpec(st, es, ext, d) == Outcome(Err(ProjectFileExists), es)
    ensures (GetProjectName(es, ext, d).Ok? && !Exists(es, UnarchiveTarget(st, GetProjectName(es, ext, d).value))
      && !InArchive(st, d)) ==> UnarchiveProjectDirSpec(st, es, ext, d) == Outcome(Err(InvalidDirStructure), es)
    ensures UnarchiveProjectDirSpec(st, es, ext, d).result.Ok? ==> (GetProjectName(es, ext, d).Ok?
      && UnarchiveProjectDirSpec(st, es, ext, d).result.value == UnarchiveTarget(st, GetProjectName(es, ext, d).value))
  {
  }

  method UnarchiveProjectDir(st: Storage, fs: FileSystem, ext: string, d: Path) returns (r: Result<Path>)
    modifies fs
    ensures Outcome(r, fs.entries) == UnarchiveProjectDirSpec(st, old(fs.entries), ext, d)
  {
    var childOfArchive := StartsWith(d, st.archive);
    var archiveItself := d == st.archive;
    var parentIsNum := ParentIsYear(d);
    var name := GetProjectName(fs.entries, ext, d);
    if name.Err? {
      return Err(name.error);
    }
    var target := UnarchiveTarget(st, name.value);
    if Exists(fs.entries, target) {
      return Err(ProjectFileExists);
    }
    if childOfArchive && !archiveItself && parentIsNum {
      var moved := fs.Rename(d, target);
      if moved.Err? {
        return Err(moved.error);
      }
    } else {
      return Err(InvalidDirStructure);
    }
    r := Ok(target);
  }

  /** A record whose name is already taken in the working directory is never unarchived,
      whatever the folder looks like. */
  lemma UnarchiveRefusesTakenName(st: Storage, es: seq<Entry>, ext: string, d: Path, name: string)
    requires GetProjectName(es, ext, d) == Ok(name) && Exists(es, Join(st.working, name))
    ensures UnarchiveProjectDirSpec(st, es, ext, d) == Outcome(Err(ProjectFileExists), es)
  {
  }

  /** After unarchiving, the folder is gone from the archive and sits, with all it held,
      in the working directory; the tree stays well formed. */
  lemma UnarchiveMoves(st: Storage, es: seq<Entry>, ext: string, d: Path)
    requires Valid(es) && UnarchiveProjectDirSpec(st, es, ext, d).result.Ok?
    ensures var o := UnarchiveProjectDirSpec(st, es, ext, d);
      && Valid(o.after) && !Exists(o.after, d) && Exists(o.after, o.result.value)
      && NodeAt(o.after, o.result.value) == NodeAt(es, d)
  {
    var o := UnarchiveProjectDirSpec(st, es, ext, d);
    RenameMoves(es, d, o.result.value);
    RenameKeepsValid(es, d, o.result.value);
  }

  /** `unarchive_projects` unwraps every `unarchive_project`: from `es` on, each record
      found is unarchived without an error. */
  predicate UnarchiveEachDefined(st: Storage, es: seq<Entry>, ext: string, xs: seq<Record>)
    decreases |xs|
  {
    if xs == [] then true
    else
      var o := UnarchiveProjectDirSpec(st, es, ext, xs[0].dir);
      o.result.Ok? && UnarchiveEachDefined(st, o.after, ext, xs[1..])
  }

  /** The loop of `unarchive_projects`: per record, its folder and where it went. */
  function UnarchiveEach(st: Storage, es: seq<Entry>, ext: string, xs: seq<Record>): (r: Outcome<seq<Path>>)
    requires UnarchiveEachDefined(st, es, ext, xs)
    ensures r.result.Ok? && |r.result.value| == 2 * |xs|
    ensures Evens(r.result.value) == Folders(xs)
    ensures xs == [] ==> r.after == es
    decreases |xs|
  {
    if xs == [] then Outcome(Ok([]), es)
    else
      var o := UnarchiveProjectDirSpec(st, es, ext, xs[0].dir);
      var rest := UnarchiveEach(st, o.after, ext, xs[1..]);
      var paths := [xs[0].dir, o.result.value] + rest.result.value;
      assert paths[2..] == rest.result.value;
      Outcome(Ok(paths), rest.after)
  }

  /** Every record `unarchive_projects` moves sat in the archive. */
  lemma {:induction false} UnarchivedWereArchived(st: Storage, es: seq<Entry>, ext: string, xs: seq<Record>)
    requires UnarchiveEachDefined(st, es, ext, xs)
    ensures forall i :: 0 <= i < |xs| ==> InArchive(st, xs[i].dir)
    decreases |xs|
  {
    if xs != [] {
      var o := UnarchiveProjectDirSpec(st, es, ext, xs[0].dir);
      assert o.result.Ok? && UnarchiveEachDefined(st, o.after, ext, xs[1..]);
      UnarchivedWereArchived(st, o.after, ext, xs[1..]);
      forall i | 0 <= i < |xs| ensures InArchive(st, xs[i].dir) {
        if i > 0 {
          assert xs[i] == xs[1..][i - 1];
        }
      }
    }
  }

  /** The folders of the records `xs`, in order. */
  function Folders(xs: seq<Record>): seq<Path> {
    if xs == [] then [] else [xs[0].dir] + Folders(xs[1..])
  }

  /** The elements of `s` at even positions. */
  function Evens(s: seq<Path>): seq<Path>
    decreases |s|
  {
    if |s| < 2 then s else [s[0]] + Evens(s[2..])
  }

  /** `unarchive_projects` can run without a panic. */
  predicate UnarchiveDefined(st: Storage, es: seq<Entry>, rt: RecordType, year: Year, terms: seq<string>) {
    match SearchAny(st, es, rt, Archive(year), terms)
    case Ok(found) => UnarchiveEachDefined(st, es, rt.extension, found)
    case Err(_) => true
  }

  /** `Storage::unarchive_projects(year, terms)`: searches the year's partition and moves
      every record found back to the working directory. */
  function UnarchiveProjectsSpec(st: Storage, es: seq<Entry>, rt: RecordType, year: Year, terms: seq<string>): (r: Outcome<seq<Path>>)
    requires UnarchiveDefined(st, es, rt, year, terms)
    ensures SearchAny(st, es, rt, Archive(year), terms).Err? ==>
      r == Outcome(Err(SearchAny(st, es, rt, Archive(year), terms).error), es)
    ensures SearchAny(st, es, rt, Archive(year), terms).Ok? ==>
      r.result.Ok? && |r.result.value| == 2 * |SearchAny(st, es, rt, Archive(year), terms).value|
    ensures terms == [] ==> r == Outcome(Ok([]), es)
  {
    match SearchAny(st, es, rt, Archive(year), terms)
    case Err(e) => Outcome(Err(e), es)
    case Ok(found) => UnarchiveEach(st, es, rt.extension, found)
  }

  method UnarchiveProjects(st: Storage, fs: FileSystem, rt: RecordType, year: Year, terms: seq<string>)
    returns (r: Result<seq<Path>>)
    requires UnarchiveDefined(st, fs.entries, rt, year, terms)
    modifies fs
    ensures Outcome(r, fs.entries) == UnarchiveProjectsSpec(st, old(fs.entries), rt, year, terms)
  {
    var found := SearchProjectsAny(st, fs, rt, Archive(year), terms);
    if found.Err? {
      return Err(found.error);
    }
    r := UnarchiveRecords(st, fs, rt.extension, found.value);
  }

  /** The loop of `unarchive_projects` over the records found. */
  method UnarchiveRecords(st: Storage, fs: FileSystem, ext: string, projects: seq<Record>) returns (r: Result<seq<Path>>)
    requires UnarchiveEachDefined(st, fs.entries, ext, projects)
    modifies fs
    ensures Outcome(r, fs.entries) == UnarchiveEach(st, old(fs.entries), ext, projects)
  {
    ghost var whole := UnarchiveEach(st, fs.entries, ext, projects);
    var moved: seq<Path> := [];
    var i := 0;
    PrependNothing(whole);
    while i < |projects|
      invariant 0 <= i <= |projects|
      invariant UnarchiveEachDefined(st, fs.entries, ext, projects[i..])
      invariant Prepend(moved, UnarchiveEach(st, fs.entries, ext, projects[i..])) == whole
    {
      ghost var before := fs.entries;
      UnarchiveEachStep(st, before, ext, projects, i);
      var target := UnarchiveProjectDir(st, fs, ext, projects[i].dir);
      var paths := [projects[i].dir, target.value];
      PrependTwice(moved, paths, UnarchiveEach(st, fs.entries, ext, projects[i + 1..]));
      moved := moved + paths;
      i := i + 1;
    }
    assert projects[i..] == [];
    assert moved + [] == moved;
    r := Ok(moved);
  }

  /** One turn of the unarchiving loop, at record `i`. */
  lemma UnarchiveEachStep(st: Storage, es: seq<Entry>, ext: string, xs: seq<Record>, i: int)
    requires 0 <= i < |xs| && UnarchiveEachDefined(st, es, ext, xs[i..])
    ensures var o := UnarchiveProjectDirSpec(st, es, ext, xs[i].dir);
      && o.result.Ok?
      && UnarchiveEachDefined(st, o.after, ext, xs[i + 1..])
      && UnarchiveEach(st, es, ext, xs[i..])
         == Prepend([xs[i].dir, o.result.value], UnarchiveEach(st, o.after, ext, xs[i + 1..]))
  {
    assert xs[i..][0] == xs[i];
    assert xs[i..][1..] == xs[i + 1..];
  }
}
