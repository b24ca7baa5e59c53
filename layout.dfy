/** The directory layout of a storage: a root holding the working directory, the archive
    (one partition per year) and the templates, plus the directory creation steps. */
module Layout {
  import opened Errors
  import opened FsPath
  import opened Numbers
  import opened Fs

  /** `Year = i32` */
  type Year = y: int | I32Min <= y <= I32Max

  /** The handle of the git repository; only whether there is one matters here. */
  datatype Repository = Repository(root: Path)

  /** `Storage<L>`: the paths of the layout. None of its operations changes them. */
  datatype Storage = Storage(
    root: Path,
    working: Path,
    archive: Path,
    templates: Path,
    extras: Path,
    repository: Option<Repository>)

  /** `StorageDir`: which directory an operation is about. */
  datatype StorageDir =
    | Working
    | Archive(year: Year)
    | Year(year: Year)
    | Root
    | Templates
    | Extras
    | All

  /** `StorageSelection`: a description of the records to open. */
  datatype StorageSelection =
    | DirAndSearch(dir: StorageDir, terms: seq<string>)
    | Dir(dir: StorageDir)
    | Paths(paths: seq<Path>)
    | Uninitialized

  /** `StorageSelection::default()`: the working directory, with no search terms. */
  const DefaultSelection: StorageSelection := DirAndSearch(Working, [])

  /** The three configured names each become one directory directly under the root. */
  predicate NamesArePlain(working: string, archive: string, templates: string) {
    && IsComponent(working) && IsComponent(archive) && IsComponent(templates)
    && working != ".." && archive != ".." && templates != ".."
  }

  /** `Storage::try_new`: the root must be absolute; the other paths hang off it. */
  function TryNew(root: Path, working: string, archive: string, templates: string): (r: Result<Storage>)
    ensures r.Err? <==> !root.absolute
    ensures r.Err? ==> r.error == StoragePathNotAbsolute
    ensures r.Ok? ==> r.value.root == root && r.value.repository.None?
  {
    if root.absolute then
      Ok(Storage(root, Join(root, working), Join(root, archive), Join(root, templates),
                 Join(root, "extras"), None))
    else Err(StoragePathNotAbsolute)
  }

  /** The layout `try_new` builds from plain, pairwise different names. */
  predicate WellFormed(st: Storage) {
    && st.root.absolute
    && Parent(st.working) == Some(st.root) && Parent(st.archive) == Some(st.root)
    && Parent(st.templates) == Some(st.root)
    && st.working != st.archive && st.working != st.templates && st.archive != st.templates
    && FileName(st.working).Some? && FileName(st.archive).Some?
  }

  /** From an absolute root and plain names, `try_new` builds a well-formed layout whose
      directories carry the configured names, and `extras` beside them. */
  lemma TryNewWellFormed(root: Path, working: string, archive: string, templates: string)
    requires root.absolute && NamesArePlain(working, archive, templates)
    requires working != archive && working != templates && archive != templates
    ensures TryNew(root, working, archive, templates).Ok?
    ensures var st := TryNew(root, working, archive, templates).value;
      && WellFormed(st)
      && FileName(st.working) == Some(working)
      && FileName(st.archive) == Some(archive)
      && FileName(st.templates) == Some(templates)
      && st.extras == Path(true, root.comps + ["extras"])
  {
    var st := TryNew(root, working, archive, templates).value;
    JoinComponent(root, working);
    JoinComponent(root, archive);
    JoinComponent(root, templates);
    assert IsComponent("extras");
  }

  /** `Storage::get_repository` */
  function GetRepository(st: Storage): (r: Result<Repository>)
    ensures r.Ok? <==> st.repository.Some?
    ensures r.Ok? ==> Some(r.value) == st.repository
    ensures r.Err? ==> r.error == RepoUninitialized
  {
    match st.repository
    case Some(repo) => Ok(repo)
    case None => Err(RepoUninitialized)
  }

  /** `Storage::health_check`: root, working, archive and templates must all exist. */
  function HealthCheck(st: Storage, es: seq<Entry>): (r: Result<()>)
    ensures r.Ok? <==> Exists(es, st.root) && Exists(es, st.working) && Exists(es, st.archive) && Exists(es, st.templates)
    ensures r.Err? ==> r.error == InvalidDirStructure
  {
    if Exists(es, st.root) && Exists(es, st.working) && Exists(es, st.archive) && Exists(es, st.templates) then Ok(())
    else Err(InvalidDirStructure)
  }

  /** One `if !p.exists() { fs::create_dir(p)?; }` step. */
  function EnsureDir(es: seq<Entry>, p: Path): (r: Outcome<()>)
    ensures r.result.Ok? ==> Exists(r.after, p) && es <= r.after
    ensures r.result.Ok? ==> forall q :: Exists(es, q) ==> Exists(r.after, q)
    ensures r.result.Err? ==> r.after == es
  {
    if Exists(es, p) then Outcome(Ok(()), es)
    else
      var o := CreateDirSpec(es, p);
      assert o.result.Ok? ==> o.after[|es|].path == p;
      assert forall i :: 0 <= i < |es| ==> o.after[i] == es[i];
      o
  }

  /** `Storage::create_dirs`: creates whichever of root, working, archive and templates is
      missing, in that order, stopping at the first failure. */
  function CreateDirsSpec(st: Storage, es: seq<Entry>): (r: Outcome<()>)
    ensures !st.root.absolute ==> r == Outcome(Err(StoragePathNotAbsolute), es)
    ensures es <= r.after
    ensures r.result.Ok? ==> HealthCheck(st, r.after).Ok?
  {
    if !st.root.absolute then Outcome(Err(StoragePathNotAbsolute), es)
    else
      var o1 := EnsureDir(es, st.root);
      if o1.result.Err? then o1
      else
        var o2 := EnsureDir(o1.after, st.working);
        if o2.result.Err? then o2
        else
          var o3 := EnsureDir(o2.after, st.archive);
          if o3.result.Err? then o3
          else EnsureDir(o3.after, st.templates)
  }

  method CreateDirs(st: Storage, fs: FileSystem) returns (r: Result<()>)
    modifies fs
    ensures Outcome(r, fs.entries) == CreateDirsSpec(st, old(fs.entries))
  {
    if !st.root.absolute {
      return Err(StoragePathNotAbsolute);
    }
    r := Ok(());
    if !Exists(fs.entries, st.root) {
      r := fs.CreateDir(st.root);
      if r.Err? { return; }
    }
    if !Exists(fs.entries, st.working) {
      r := fs.CreateDir(st.working);
      if r.Err? { return; }
    }
    if !Exists(fs.entries, st.archive) {
      r := fs.CreateDir(st.archive);
      if r.Err? { return; }
    }
    if !Exists(fs.entries, st.templates) {
      r := fs.CreateDir(st.templates);
    }
  }

  /** Creating the directories a second time changes nothing. */
  lemma CreateDirsIdempotent(st: Storage, es: seq<Entry>)
    requires CreateDirsSpec(st, es).result.Ok?
    ensures CreateDirsSpec(st, CreateDirsSpec(st, es).after) == Outcome(Ok(()), CreateDirsSpec(st, es).after)
  {
  }

  lemma CreateDirsKeepsValid(st: Storage, es: seq<Entry>)
    requires Valid(es)
    ensures Valid(CreateDirsSpec(st, es).after)
  {
    if st.root.absolute {
      var o1 := EnsureDir(es, st.root);
      EnsureDirKeepsValid(es, st.root);
      if o1.result.Ok? {
        var o2 := EnsureDir(o1.after, st.working);
        EnsureDirKeepsValid(o1.after, st.working);
        if o2.result.Ok? {
          var o3 := EnsureDir(o2.after, st.archive);
          EnsureDirKeepsValid(o2.after, st.archive);
          if o3.result.Ok? {
            EnsureDirKeepsValid(o3.after, st.templates);
          }
        }
      }
    }
  }

  lemma EnsureDirKeepsValid(es: seq<Entry>, p: Path)
    requires Valid(es)
    ensures Valid(EnsureDir(es, p).after)
  {
    if !Exists(es, p) && CreateDirSpec(es, p).result.Ok? {
      CreateDirKeepsValid(es, p);
    }
  }

  /** When the root is a directory, or can be created as one, creating the layout
      succeeds. */
  lemma CreateDirsSucceeds(st: Storage, es: seq<Entry>)
    requires WellFormed(st) && (IsDir(es, st.root) || (!Exists(es, st.root) && ParentIsDir(es, st.root)))
    ensures CreateDirsSpec(st, es).result.Ok?
  {
    var o1 := EnsureDir(es, st.root);
    assert IsDir(o1.after, st.root) by {
      if !Exists(es, st.root) {
        assert o1.after[|es|] == Entry(st.root, Node.Dir);
      }
    }
    EnsureChild(o1.after, st.working, st.root);
    var o2 := EnsureDir(o1.after, st.working);
    EnsureChild(o2.after, st.archive, st.root);
    var o3 := EnsureDir(o2.after, st.archive);
    EnsureChild(o3.after, st.templates, st.root);
  }

  /** A directory can always be ensured inside an existing directory, and ensuring it
      keeps every directory. */
  lemma EnsureChild(es: seq<Entry>, p: Path, parent: Path)
    requires p.absolute && Parent(p) == Some(parent) && IsDir(es, parent)
    ensures EnsureDir(es, p).result.Ok?
    ensures forall x :: IsDir(es, x) ==> IsDir(EnsureDir(es, p).after, x)
  {
    DirsKept(es, EnsureDir(es, p).after);
  }

  /** The partition of the archive that holds the records of `year`. */
  function Partition(st: Storage, year: Year): Path {
    Join(st.archive, IntToString(year))
  }

  lemma PartitionIsChild(st: Storage, year: Year)
    ensures Parent(Partition(st, year)) == Some(st.archive)
    ensures FileName(Partition(st, year)) == Some(IntToString(year))
    ensures FileStem(Partition(st, year)) == Some(IntToString(year))
  {
    IntToStringIsPlain(year);
    JoinComponent(st.archive, IntToString(year));
    StemOfPlain(IntToString(year));
  }

  /** `Storage::create_archive(year)`: the archive must exist (an `assert!` in
      `create_archive`); the partition is created unless it exists. */
  function CreateArchiveSpec(st: Storage, es: seq<Entry>, year: Year): (r: Outcome<Path>)
    requires Exists(es, st.archive)
    ensures r.result.Ok? ==> r.result.value == Partition(st, year) && Exists(r.after, r.result.value)
    ensures es <= r.after
    ensures r.result.Err? ==> r.after == es
  {
    var p := Partition(st, year);
    if Exists(es, p) then Outcome(Ok(p), es)
    else
      var o := CreateDirSpec(es, p);
      assert o.result.Ok? ==> o.after[|es|].path == p;
      Outcome(if o.result.Ok? then Ok(p) else Err(o.result.error), o.after)
  }

  method CreateArchive(st: Storage, fs: FileSystem, year: Year) returns (r: Result<Path>)
    requires Exists(fs.entries, st.archive)
    modifies fs
    ensures Outcome(r, fs.entries) == CreateArchiveSpec(st, old(fs.entries), year)
  {
    var archive := Partition(st, year);
    if !Exists(fs.entries, archive) {
      var c := fs.CreateDir(archive);
      if c.Err? {
        return Err(c.error);
      }
    }
    r := Ok(archive);
  }

  /** Creating a partition a second time returns the same path and changes nothing. */
  lemma CreateArchiveIdempotent(st: Storage, es: seq<Entry>, year: Year)
    requires Exists(es, st.archive) && CreateArchiveSpec(st, es, year).result.Ok?
    ensures var o := CreateArchiveSpec(st, es, year);
      Exists(o.after, st.archive) && CreateArchiveSpec(st, o.after, year) == Outcome(Ok(Partition(st, year)), o.after)
  {
  }

  /** Creating a partition changes nothing stored at any other path. */
  lemma CreateArchiveKeepsNodes(st: Storage, es: seq<Entry>, year: Year)
    requires Exists(es, st.archive)
    ensures var after := CreateArchiveSpec(st, es, year).after;
      forall q :: q != Partition(st, year) || Exists(es, q) ==> NodeAt(after, q) == NodeAt(es, q)
  {
    var p := Partition(st, year);
    var after := CreateArchiveSpec(st, es, year).after;
    if after != es {
      assert after == es + [Entry(p, Node.Dir)];
      forall q | q != p || Exists(es, q) ensures NodeAt(after, q) == NodeAt(es, q) {
        NodeAtAppend(es, Entry(p, Node.Dir), q);
      }
    }
  }

  /** When the archive is a directory the partition can always be created. */
  lemma CreateArchiveSucceeds(st: Storage, es: seq<Entry>, year: Year)
    requires Valid(es) && st.archive.absolute && IsDir(es, st.archive)
    ensures CreateArchiveSpec(st, es, year).result == Ok(Partition(st, year))
    ensures Valid(CreateArchiveSpec(st, es, year).after)
  {
    PartitionIsChild(st, year);
    var p := Partition(st, year);
    if !Exists(es, p) {
      CreateDirKeepsValid(es, p);
    }
  }
}
