/** Creating a record: its folder in the working directory and its file, filled in from
    a template. */
module Creating {
  import opened Errors
  import opened FsPath
  import opened Numbers
  import opened Fs
  import opened Layout
  import opened Listing
  import opened Search


  /** The folder a new record named `slug` gets in the working directory. */
  function ProjectDir(st: Storage, slug: string): Path {
    Join(st.working, slug)
  }

  /** The record file `<slug>.<ext>` inside that folder. */
  function ProjectFile(st: Storage, slug: string, ext: string): Path {
    Join(ProjectDir(st, slug), slug + "." + ext)
  }

  /** `Storage::create_project`, with `slug` the slugified name and `prepared` what
      `get_template_file` and `from_template` produce together: the filled-in file, or
      the error of whichever failed first. */
  function CreateProjectSpec(st: Storage, es: seq<Entry>, slug: string, ext: string, prepared: Result<Path>): Outcome<Path> {
    var dir := ProjectDir(st, slug);
    var target := ProjectFile(st, slug, ext);
    if !Exists(es, st.working) then Outcome(Err(NoWorkingDir), es)
    else if Exists(es, dir) then Outcome(Err(ProjectDirExists), es)
    else if prepared.Err? then Outcome(Err(prepared.error), es)
    else MakeProject(es, dir, target, prepared.value)
  }

  /** The two filesystem steps of `create_project`: `fs::create_dir(dir)`, then
      `fs::copy(src, target)`. */
  function MakeProject(es: seq<Entry>, dir: Path, target: Path, src: Path): Outcome<Path> {
    var made := CreateDirSpec(es, dir);
    if made.result.Err? then Outcome(Err(made.result.error), es)
    else
      var copied := CopySpec(made.after, src, target);
      if copied.result.Err? then Outcome(Err(copied.result.error), made.after)
      else Outcome(Ok(target), copied.after)
  }

  /** Creating a folder and copying a file into it appends the two entries, when nothing
      was inside the folder before. */
  lemma MakeProjectAppends(es: seq<Entry>, dir: Path, target: Path, src: Path)
    requires forall i :: 0 <= i < |es| ==> !StartsWith(es[i].path, dir)
    requires StartsWith(target, dir) && target != dir
    requires MakeProject(es, dir, target, src).result.Ok?
    ensures exists n :: MakeProject(es, dir, target, src).after == es + [Entry(dir, Node.Dir), Entry(target, n)]
  {
    var es1 := es + [Entry(dir, Node.Dir)];
    var e := Entry(target, NodeAt(es1, src).value);
    PutNew(es1, e);
    assert MakeProject(es, dir, target, src).after == es1 + [e];
  }

  /** Creating a folder and copying a file into it keeps every path that existed. */
  lemma MakeProjectKeeps(es: seq<Entry>, dir: Path, target: Path, src: Path, p: Path)
    requires MakeProject(es, dir, target, src).result.Ok? && Exists(es, p)
    ensures Exists(MakeProject(es, dir, target, src).after, p)
  {
    if p != FsRoot {
      var es1 := es + [Entry(dir, Node.Dir)];
      var e := Entry(target, NodeAt(es1, src).value);
      var i :| 0 <= i < |es| && es[i].path == p;
      assert es1[i] == es[i];
      if p == target {
        PutStores(es1, e);
      } else {
        assert Put(es1, e)[i] == es[i];
      }
    }
  }

  /** The checks of `create_project` in their order: a missing working directory, then a
      folder of that name, then a template that could not be prepared, each with nothing
      touched; on success the folder is a directory and the record file exists in it; a
      failure leaves at most the new, empty folder behind. */
  lemma CreateProjectOutcomes(st: Storage, es: seq<Entry>, slug: string, ext: string, prepared: Result<Path>)
    ensures var r := CreateProjectSpec(st, es, slug, ext, prepared);
      && (!Exists(es, st.working) ==> r == Outcome(Err(NoWorkingDir), es))
      && (Exists(es, st.working) && Exists(es, ProjectDir(st, slug)) ==> r == Outcome(Err(ProjectDirExists), es))
      && (Exists(es, st.working) && !Exists(es, ProjectDir(st, slug)) && prepared.Err? ==>
            r == Outcome(Err(prepared.error), es))
      && (r.result.Ok? ==> prepared.Ok? && r.result.value == ProjectFile(st, slug, ext))
      && (r.result.Ok? ==> IsDir(r.after, ProjectDir(st, slug)) && Exists(r.after, r.result.value))
      && (r.result.Err? ==> r.after == es || r.after == es + [Entry(ProjectDir(st, slug), Node.Dir)])
  {
    var r := CreateProjectSpec(st, es, slug, ext, prepared);
    if r.result.Ok? {
      var dir := ProjectDir(st, slug);
      var es1 := es + [Entry(dir, Node.Dir)];
      StoreInNewDir(es, dir, Entry(ProjectFile(st, slug, ext), NodeAt(es1, prepared.value).value));
    }
  }

  method CreateProject(st: Storage, fs: FileSystem, slug: string, ext: string, prepared: Result<Path>)
    returns (r: Result<Path>)
    modifies fs
    ensures Outcome(r, fs.entries) == CreateProjectSpec(st, old(fs.entries), slug, ext, prepared)
  {
    if !Exists(fs.entries, st.working) {
      return Err(NoWorkingDir);
    }
    var dir := ProjectDir(st, slug);
    if Exists(fs.entries, dir) {
      return Err(ProjectDirExists);
    }
    var target := ProjectFile(st, slug, ext);
    if prepared.Err? {
      return Err(prepared.error);
    }
    var made := fs.CreateDir(dir);
    if made.Err? {
      return Err(made.error);
    }
    var copied := fs.Copy(prepared.value, target);
    if copied.Err? {
      return Err(copied.error);
    }
    r := Ok(target);
  }

  /** A name `slugify` could return: one component that does not start a dot file. */
  predicate PlainSlug(slug: string) {
    IsComponent(slug) && slug[0] != '.'
  }

  /** A file extension: no separator and no dot. */
  predicate PlainExtension(ext: string) {
    '/' !in ext && '.' !in ext
  }

  /** The record file's name ends in the record extension, and its stem is the slug. */
  lemma ProjectFileNamed(st: Storage, slug: string, ext: string)
    requires PlainSlug(slug) && PlainExtension(ext)
    ensures ProjectFile(st, slug, ext).comps == ProjectDir(st, slug).comps + [slug + "." + ext]
    ensures Parent(ProjectFile(st, slug, ext)) == Some(ProjectDir(st, slug))
    ensures FileName(ProjectFile(st, slug, ext)) == Some(slug + "." + ext)
    ensures FileStem(ProjectFile(st, slug, ext)) == Some(slug)
    ensures HasExtension(ProjectFile(st, slug, ext), ext) && !IsDotFile(ProjectFile(st, slug, ext))
  {
    var n := slug + "." + ext;
    assert n[|slug|] == '.';
    assert '/' !in n by {
      forall i | 0 <= i < |n| ensures n[i] != '/' {
        if i < |slug| { assert n[i] == slug[i]; }
        else if i > |slug| { assert n[i] == ext[i - |slug| - 1]; }
      }
    }
    assert n[0] == slug[0];
    assert n != "" && n != "." && n != "..";
    StemOfWithExtension(slug, ext);
  }

  /** Nothing is inside a folder that does not exist yet. */
  lemma NothingInNewFolder(st: Storage, es: seq<Entry>, slug: string)
    requires Valid(es) && WellFormed(st) && PlainSlug(slug) && !Exists(es, ProjectDir(st, slug))
    ensures forall i :: 0 <= i < |es| ==> !StartsWith(es[i].path, ProjectDir(st, slug))
    ensures forall i :: 0 <= i < |es| ==> Parent(es[i].path) != Some(ProjectDir(st, slug))
  {
    var dir := ProjectDir(st, slug);
    assert dir.absolute;
    NothingUnderMissing(es, dir);
    forall i | 0 <= i < |es| ensures Parent(es[i].path) != Some(dir) {
      assert !StartsWith(es[i].path, dir);
    }
  }

  /** A successful creation appends the record's folder and then its file. */
  lemma {:induction false} CreatedEntries(st: Storage, es: seq<Entry>, slug: string, ext: string, prepared: Result<Path>)
    requires PlainSlug(slug) && PlainExtension(ext)
    requires forall i :: 0 <= i < |es| ==> !StartsWith(es[i].path, ProjectDir(st, slug))
    requires CreateProjectSpec(st, es, slug, ext, prepared).result.Ok?
    ensures exists n :: (CreateProjectSpec(st, es, slug, ext, prepared).after ==
      es + [Entry(ProjectDir(st, slug), Node.Dir), Entry(ProjectFile(st, slug, ext), n)])
  {
    ProjectFileNamed(st, slug, ext);
    MakeProjectAppends(es, ProjectDir(st, slug), ProjectFile(st, slug, ext), prepared.value);
  }

  /** A record just created is found again: `get_project_dir` yields its folder, whose
      only entry is the record file, so `get_project_file` and `get_project_name` yield
      the file and the slug. */
  lemma {:induction false} CreatedProjectIsFound(st: Storage, es: seq<Entry>, slug: string, ext: string, prepared: Result<Path>)
    requires Valid(es) && WellFormed(st) && PlainSlug(slug) && PlainExtension(ext)
    requires CreateProjectSpec(st, es, slug, ext, prepared).result.Ok?
    ensures var o := CreateProjectSpec(st, es, slug, ext, prepared);
      && GetProjectDir(st, o.after, ext, slug, Working) == Ok(ProjectDir(st, slug))
      && GetProjectFile(o.after, ext, ProjectDir(st, slug)) == Ok(o.result.value)
      && GetProjectName(o.after, ext, ProjectDir(st, slug)) == Ok(slug)
  {
    var after := CreateProjectSpec(st, es, slug, ext, prepared).after;
    NothingInNewFolder(st, es, slug);
    CreatedEntries(st, es, slug, ext, prepared);
    var n :| after == es + [Entry(ProjectDir(st, slug), Node.Dir), Entry(ProjectFile(st, slug, ext), n)];
    NewFolderIsFound(st, es, slug, ext, n);
  }

  /** The folder and record file appended by a creation are found by name. */
  lemma NewFolderIsFound(st: Storage, es: seq<Entry>, slug: string, ext: string, n: Node)
    requires PlainSlug(slug) && PlainExtension(ext)
    requires forall i :: 0 <= i < |es| ==> Parent(es[i].path) != Some(ProjectDir(st, slug))
    ensures var after := es + [Entry(ProjectDir(st, slug), Node.Dir), Entry(ProjectFile(st, slug, ext), n)];
      && GetProjectDir(st, after, ext, slug, Working) == Ok(ProjectDir(st, slug))
      && GetProjectFile(after, ext, ProjectDir(st, slug)) == Ok(ProjectFile(st, slug, ext))
      && GetProjectName(after, ext, ProjectDir(st, slug)) == Ok(slug)
  {
    var dir := ProjectDir(st, slug);
    var target := ProjectFile(st, slug, ext);
    var after := es + [Entry(dir, Node.Dir), Entry(target, n)];
    ProjectFileNamed(st, slug, ext);
    ChildrenOfNewFolder(es, dir, target, n);
    assert after[|es|] == Entry(dir, Node.Dir);
    OnlyFileIsFound(after, ext, dir, target, slug);
  }

  /** A folder whose only entry is a visible record file yields that file and its stem. */
  lemma OnlyFileIsFound(es: seq<Entry>, ext: string, dir: Path, f: Path, stem: string)
    requires IsDir(es, dir) && Children(es, dir) == [f]
    requires !IsDotFile(f) && HasExtension(f, ext) && FileStem(f) == Some(stem)
    ensures GetProjectFile(es, ext, dir) == Ok(f)
    ensures GetProjectName(es, ext, dir) == Ok(stem)
  {
    assert Visible([f]) == [f];
    assert ListPathContent(es, dir) == Ok([f]);
  }

  /** A folder appended with one entry inside it lists exactly that entry. */
  lemma {:induction false} ChildrenOfNewFolder(es: seq<Entry>, dir: Path, target: Path, n: Node)
    requires forall i :: 0 <= i < |es| ==> Parent(es[i].path) != Some(dir)
    requires Parent(target) == Some(dir)
    ensures Children(es + [Entry(dir, Node.Dir), Entry(target, n)], dir) == [target]
  {
    var tail := [Entry(dir, Node.Dir), Entry(target, n)];
    ChildrenAppend(es, tail, dir);
    ChildrenEmpty(es, dir);
    assert tail[1..] == [Entry(target, n)];
    assert Children(tail[1..], dir) == [target] + Children(tail[1..][1..], dir);
  }

  /** Creating the same record twice fails the second time and touches nothing. */
  lemma CreateProjectTwiceFails(st: Storage, es: seq<Entry>, slug: string, ext: string, prepared: Result<Path>, again: Result<Path>)
    requires CreateProjectSpec(st, es, slug, ext, prepared).result.Ok?
    requires Exists(es, st.working)
    ensures var after := CreateProjectSpec(st, es, slug, ext, prepared).after;
      CreateProjectSpec(st, after, slug, ext, again) == Outcome(Err(ProjectDirExists), after)
  {
    CreateProjectOutcomes(st, es, slug, ext, prepared);
    MakeProjectKeeps(es, ProjectDir(st, slug), ProjectFile(st, slug, ext), prepared.value, st.working);
  }
}
