/** Listing the storage: directory contents without dot files, the year partitions of the
    archive, the project folders of a `StorageDir` and the project file inside a folder. */
module Listing {
  import opened Errors
  import opened FsPath
  import opened Numbers
  import opened Fs
  import opened Layout

  /** `is_dot_file`: the file name starts with a dot. */
  predicate IsDotFile(p: Path) {
    match FileName(p)
    case Some(n) => |n| > 0 && n[0] == '.'
    case None => false
  }

  /** The paths that are not dot files, in their order. */
  function Visible(ps: seq<Path>): (r: seq<Path>)
    ensures forall p :: p in r <==> p in ps && !IsDotFile(p)
  {
    if ps == [] then []
    else (if IsDotFile(ps[0]) then [] else [ps[0]]) + Visible(ps[1..])
  }

  /** `list_path_content(dir)`: the entries of a directory, dot files left out. */
  function ListPathContent(es: seq<Entry>, dir: Path): (r: Result<seq<Path>>)
    ensures r.Ok? <==> IsDir(es, dir)
    ensures r.Err? ==> r.error == Io
    ensures r.Ok? ==> forall p :: p in r.value <==> Exists(es, p) && Parent(p) == Some(dir) && !IsDotFile(p)
  {
    ChildrenMembers(es, dir);
    match ReadDir(es, dir)
    case Ok(ps) => Ok(Visible(ps))
    case Err(e) => Err(e)
  }

  // ----- Year partitions -----

  /** The year an archive entry stands for: its stem parsed as an `i32`. */
  function YearOf(p: Path): Option<Year> {
    match FileStem(p)
    case None => None
    case Some(s) =>
      match ParseI32(s)
      case None => None
      case Some(v) => var y: Year := v; Some(y)
  }

  /** The years of the entries that have one, in entry order. */
  function YearsOf(ps: seq<Path>): (r: seq<Year>)
    ensures forall y :: y in r <==> exists p :: p in ps && YearOf(p) == Some(y)
  {
    if ps == [] then []
    else
      var rest := YearsOf(ps[1..]);
      assert forall p :: p in ps <==> p == ps[0] || p in ps[1..];
      (match YearOf(ps[0]) case Some(y) => [y] case None => []) + rest
  }

  predicate Sorted(s: seq<int>) {
    forall i, j :: 0 <= i < j < |s| ==> s[i] <= s[j]
  }

  function Insert(y: Year, s: seq<Year>): (r: seq<Year>)
    requires Sorted(s)
    ensures Sorted(r) && multiset(r) == multiset(s) + multiset{y}
  {
    if s == [] || y <= s[0] then
      ConsSorted(y, s);
      [y] + s
    else
      var rest := Insert(y, s[1..]);
      assert s == [s[0]] + s[1..];
      LowerBoundKept(s[0], s[1..], y, rest);
      ConsSorted(s[0], rest);
      assert multiset([s[0]] + rest) == multiset{s[0]} + multiset(rest);
      [s[0]] + rest
  }

  /** A least element put in front of a sorted sequence keeps it sorted. */
  lemma ConsSorted(x: Year, t: seq<Year>)
    requires Sorted(t) && (t != [] ==> x <= t[0])
    ensures Sorted([x] + t)
  {
    var r := [x] + t;
    forall i, j | 0 <= i < j < |r| ensures r[i] <= r[j] {
      if i > 0 {
        assert r[i] == t[i - 1] && r[j] == t[j - 1];
      } else {
        assert r[j] == t[j - 1] && t[0] <= t[j - 1];
      }
    }
  }

  lemma LowerBoundKept(lo: int, s: seq<Year>, y: Year, rest: seq<Year>)
    requires lo <= y && forall k :: 0 <= k < |s| ==> lo <= s[k]
    requires multiset(rest) == multiset(s) + multiset{y}
    ensures forall k :: 0 <= k < |rest| ==> lo <= rest[k]
  {
    forall k | 0 <= k < |rest| ensures lo <= rest[k] {
      assert rest[k] in multiset(rest);
      if rest[k] != y {
        assert rest[k] in multiset(s);
      }
    }
  }

  /** `sort_unstable` on years, as a function: ascending, same elements. */
  function SortYears(s: seq<Year>): (r: seq<Year>)
    ensures Sorted(r) && multiset(r) == multiset(s)
  {
    if s == [] then []
    else
      assert s == [s[0]] + s[1..];
      Insert(s[0], SortYears(s[1..]))
  }

  /** There is only one ascending arrangement of a multiset. */
  lemma {:induction false} SortedUnique(a: seq<int>, b: seq<int>)
    requires Sorted(a) && Sorted(b) && multiset(a) == multiset(b)
    ensures a == b
    decreases |a|
  {
    if a != [] {
      assert |b| == |multiset(b)| == |a|;
      SortedHeadIsLeast(b, a[0]);
      SortedHeadIsLeast(a, b[0]);
      SortedTail(a);
      SortedTail(b);
      assert a[0] == b[0];
      assert multiset(a[1..]) == multiset(a) - multiset{a[0]} == multiset(b) - multiset{b[0]};
      SortedUnique(a[1..], b[1..]);
    }
  }

  lemma SortedHeadIsLeast(a: seq<int>, x: int)
    requires Sorted(a) && x in multiset(a)
    ensures a != [] && a[0] <= x
  {
    var i :| 0 <= i < |a| && a[i] == x;
  }

  /** The tail of an ascending sequence is ascending and holds the rest of its elements. */
  lemma SortedTail(a: seq<int>)
    requires Sorted(a) && a != []
    ensures Sorted(a[1..]) && multiset(a[1..]) == multiset(a) - multiset{a[0]}
    ensures a == [a[0]] + a[1..]
  {
    assert a == [a[0]] + a[1..];
  }

  /** `Storage::list_years`: the years of the archive's entries, ascending. */
  function ListYearsSpec(st: Storage, es: seq<Entry>): (r: Result<seq<Year>>)
    ensures r.Ok? <==> IsDir(es, st.archive)
    ensures r.Err? ==> r.error == Io
    ensures r.Ok? ==> Sorted(r.value)
    ensures r.Ok? ==> forall y :: y in r.value <==>
      exists p :: Exists(es, p) && Parent(p) == Some(st.archive) && !IsDotFile(p) && YearOf(p) == Some(y)
  {
    match ListPathContent(es, st.archive)
    case Ok(ps) =>
      var ys := YearsOf(ps);
      var r := SortYears(ys);
      assert forall y :: y in r <==> y in ys by {
        forall y ensures y in r <==> y in ys {
          assert y in r <==> y in multiset(r);
        }
      }
      Ok(r)
    case Err(e) => Err(e)
  }

  // ----- Project folders -----

  /** The listings of the partitions of `years`, one after the other. */
  function PartitionListings(st: Storage, es: seq<Entry>, years: seq<Year>): (r: Result<seq<Path>>)
    ensures r.Ok? ==> forall p :: p in r.value ==> !IsDotFile(p) && Exists(es, p)
    ensures r.Ok? ==> forall p :: p in r.value ==> exists y :: y in years && Parent(p) == Some(Partition(st, y))
    decreases |years|
  {
    if years == [] then Ok([])
    else
      var init := years[..|years| - 1];
      var last := years[|years| - 1];
      assert forall y :: y in init ==> y in years;
      var prefix := PartitionListings(st, es, init);
      var l := ListPathContent(es, Partition(st, last));
      if prefix.Err? then Err(prefix.error)
      else if l.Err? then Err(l.error)
      else Ok(prefix.value + l.value)
  }

  /** `Storage::list_project_folders`. */
  function ListProjectFoldersSpec(st: Storage, es: seq<Entry>, dir: StorageDir): (r: Result<seq<Path>>)
    ensures r.Ok? ==> forall p :: p in r.value ==> !IsDotFile(p)
    ensures dir.Year? || dir.Root? || dir.Templates? || dir.Extras? ==> r == Err(BadChoice)
    ensures dir.Working? ==> (r.Ok? <==> IsDir(es, st.working))
    ensures dir.Archive? ==> r.Ok?
    ensures dir.Archive? && !IsDir(es, Partition(st, dir.year)) ==> r == Ok([])
    ensures r.Ok? ==> forall p :: p in r.value ==> Exists(es, p)
  {
    match dir
    case Working => ListPathContent(es, st.working)
    case Archive(year) =>
      var list := ListPathContent(es, Partition(st, year));
      if list.Ok? then list else Ok([])
    case All =>
      var years := ListYearsSpec(st, es);
      if years.Err? then Err(years.error)
      else
        var archived := PartitionListings(st, es, years.value);
        var working := ListPathContent(es, st.working);
        if archived.Err? then Err(archived.error)
        else if working.Err? then Err(working.error)
        else Ok(archived.value + working.value)
    case _ => Err(BadChoice)
  }

  method ListProjectFolders(st: Storage, fs: FileSystem, dir: StorageDir) returns (r: Result<seq<Path>>)
    ensures r == ListProjectFoldersSpec(st, fs.entries, dir)
  {
    match dir {
      case Working =>
        r := ListPathContent(fs.entries, st.working);
      case Archive(year) =>
        var list := ListPathContent(fs.entries, Partition(st, year));
        r := if list.Ok? then list else Ok([]);
      case All =>
        r := ListAllFolders(st, fs);
      case _ =>
        r := Err(BadChoice);
    }
  }

  /** The listings of the first `i + 1` partitions extend those of the first `i`. */
  lemma PartitionListingsStep(st: Storage, es: seq<Entry>, years: seq<Year>, i: nat)
    requires i < |years|
    ensures var prefix := PartitionListings(st, es, years[..i]);
      var l := ListPathContent(es, Partition(st, years[i]));
      PartitionListings(st, es, years[..i + 1]) ==
        if prefix.Err? then prefix else if l.Err? then Err(l.error) else Ok(prefix.value + l.value)
  {
    assert years[..i + 1][..i] == years[..i];
  }

  /** A partition that cannot be listed fails the whole listing. */
  lemma {:induction false} PartitionListingsErr(st: Storage, es: seq<Entry>, years: seq<Year>, i: nat)
    requires i <= |years| && PartitionListings(st, es, years[..i]).Err?
    ensures PartitionListings(st, es, years) == PartitionListings(st, es, years[..i])
    decreases |years| - i
  {
    if i < |years| {
      PartitionListingsStep(st, es, years, i);
      PartitionListingsErr(st, es, years, i + 1);
    } else {
      assert years[..i] == years;
    }
  }

  /** A partition listing that succeeded holds exactly the visible entries directly inside
      the partitions of `years`. */
  lemma {:induction false} PartitionListingsMembers(st: Storage, es: seq<Entry>, years: seq<Year>)
    requires PartitionListings(st, es, years).Ok?
    ensures forall p :: p in PartitionListings(st, es, years).value <==>
      Exists(es, p) && !IsDotFile(p) && exists y :: y in years && Parent(p) == Some(Partition(st, y))
    decreases |years|
  {
    if years != [] {
      var init := years[..|years| - 1];
      var last := years[|years| - 1];
      PartitionListingsMembers(st, es, init);
      var prefix := PartitionListings(st, es, init).value;
      var l := ListPathContent(es, Partition(st, last)).value;
      assert PartitionListings(st, es, years).value == prefix + l;
      forall p ensures p in prefix + l <==>
        Exists(es, p) && !IsDotFile(p) && exists y :: y in years && Parent(p) == Some(Partition(st, y))
      {
        forall y | y in years ensures y in init || y == last {
          var k :| 0 <= k < |years| && years[k] == y;
          if k < |years| - 1 {
            assert init[k] == y;
          }
        }
      }
    }
  }

  /** `All` lists exactly the visible entries directly inside the working directory and
      inside the partition of each year the archive holds. */
  lemma AllFoldersMembers(st: Storage, es: seq<Entry>)
    requires ListProjectFoldersSpec(st, es, All).Ok?
    ensures ListYearsSpec(st, es).Ok?
    ensures var years := ListYearsSpec(st, es).value;
      forall p :: p in ListProjectFoldersSpec(st, es, All).value <==>
        Exists(es, p) && !IsDotFile(p)
        && (Parent(p) == Some(st.working) || exists y :: y in years && Parent(p) == Some(Partition(st, y)))
  {
    PartitionListingsMembers(st, es, ListYearsSpec(st, es).value);
  }

  /** The `All` arm once the years and their partitions are listed. */
  lemma AllFolders(st: Storage, es: seq<Entry>, years: seq<Year>, all: seq<Path>)
    requires ListYearsSpec(st, es) == Ok(years)
    requires PartitionListings(st, es, years) == Ok(all)
    ensures ListProjectFoldersSpec(st, es, All) ==
      var working := ListPathContent(es, st.working);
      if working.Err? then Err(working.error) else Ok(all + working.value)
  {
  }

  /** The loop of the `All` arm: appends the listing of each year's partition. */
  method ListPartitions(st: Storage, fs: FileSystem, years: seq<Year>) returns (r: Result<seq<Path>>)
    ensures r == PartitionListings(st, fs.entries, years)
  {
    var es := fs.entries;
    var all: seq<Path> := [];
    var i := 0;
    while i < |years|
      invariant 0 <= i <= |years|
      invariant PartitionListings(st, es, years[..i]) == Ok(all)
    {
      var list := ListPathContent(es, Partition(st, years[i]));
      PartitionListingsStep(st, es, years, i);
      if list.Err? {
        PartitionListingsErr(st, es, years, i + 1);
        return Err(list.error);
      }
      all := all + list.value;
      i := i + 1;
    }
    assert years[..i] == years;
    r := Ok(all);
  }

  /** The `All` arm of `list_project_folders`: every year partition's folders, then the
      working directory's. */
  method ListAllFolders(st: Storage, fs: FileSystem) returns (r: Result<seq<Path>>)
    ensures r == ListProjectFoldersSpec(st, fs.entries, All)
  {
    var years := ListYearsSpec(st, fs.entries);
    if years.Err? {
      return Err(years.error);
    }
    var all := ListPartitions(st, fs, years.value);
    if all.Err? {
      return Err(all.error);
    }
    AllFolders(st, fs.entries, years.value, all.value);
    var working := ListPathContent(fs.entries, st.working);
    if working.Err? {
      return Err(working.error);
    }
    r := Ok(all.value + working.value);
  }

  /** Where a listed folder sits in the order of `All`: the year of its partition, and the
      working directory after every year. */
  function Place(st: Storage, p: Path): int {
    if Parent(p) == Some(st.working) then I32Max + 1
    else
      match Parent(p)
      case None => I32Min - 1
      case Some(d) =>
        match YearOf(d)
        case Some(y) => y
        case None => I32Min - 1
  }

  lemma PlaceInPartition(st: Storage, p: Path, y: Year)
    requires WellFormed(st) && Parent(p) == Some(Partition(st, y))
    ensures Place(st, p) == y
  {
    PartitionIsChild(st, y);
    IntToStringIsPlain(y);
    ParseI32OfIntToString(y);
    assert |Partition(st, y).comps| == |st.working.comps| + 1;
  }

  lemma {:induction false} PartitionListingsPlaces(st: Storage, es: seq<Entry>, years: seq<Year>)
    requires WellFormed(st) && PartitionListings(st, es, years).Ok? && Sorted(years)
    ensures var r := PartitionListings(st, es, years).value;
      && (forall i, j :: 0 <= i < j < |r| ==> Place(st, r[i]) <= Place(st, r[j]))
      && (forall i :: 0 <= i < |r| ==> Place(st, r[i]) <= I32Max && (years != [] ==> Place(st, r[i]) <= years[|years| - 1]))
    decreases |years|
  {
    if years != [] {
      var init := years[..|years| - 1];
      var last := years[|years| - 1];
      PartitionListingsPlaces(st, es, init);
      var prefix := PartitionListings(st, es, init).value;
      var l := ListPathContent(es, Partition(st, last)).value;
      var r := prefix + l;
      forall p | p in l ensures Place(st, p) == last {
        PlaceInPartition(st, p, last);
      }
      forall p | p in prefix ensures Place(st, p) <= last {
        var k :| 0 <= k < |init| && Parent(p) == Some(Partition(st, init[k]));
        PlaceInPartition(st, p, init[k]);
      }
      forall i | 0 <= i < |r| ensures Place(st, r[i]) <= last {
        if i < |prefix| { assert r[i] in prefix; } else { assert r[i] in l; }
      }
      forall i, j | 0 <= i < j < |r| ensures Place(st, r[i]) <= Place(st, r[j]) {
        if j >= |prefix| {
          assert r[j] in l;
        }
      }
    }
  }

  /** `All` lists the year partitions in ascending year order and then the working
      directory. */
  lemma AllInYearOrder(st: Storage, es: seq<Entry>)
    requires WellFormed(st) && ListProjectFoldersSpec(st, es, All).Ok?
    ensures var r := ListProjectFoldersSpec(st, es, All).value;
      forall i, j :: 0 <= i < j < |r| ==> Place(st, r[i]) <= Place(st, r[j])
  {
    var years := ListYearsSpec(st, es).value;
    var archived := PartitionListings(st, es, years).value;
    var working := ListPathContent(es, st.working).value;
    PartitionListingsPlaces(st, es, years);
    WorkingLast(st, es);
    OrderedConcat(st, archived, working);
  }

  /** The working directory's folders all come after every year. */
  lemma WorkingLast(st: Storage, es: seq<Entry>)
    requires ListPathContent(es, st.working).Ok?
    ensures var w := ListPathContent(es, st.working).value;
      forall k :: 0 <= k < |w| ==> Place(st, w[k]) == I32Max + 1
  {
    var w := ListPathContent(es, st.working).value;
    forall k | 0 <= k < |w| ensures Place(st, w[k]) == I32Max + 1 {
      assert w[k] in w;
    }
  }

  /** Folders in year order followed by folders of the working directory stay in order. */
  lemma OrderedConcat(st: Storage, a: seq<Path>, b: seq<Path>)
    requires forall i, j :: 0 <= i < j < |a| ==> Place(st, a[i]) <= Place(st, a[j])
    requires forall i :: 0 <= i < |a| ==> Place(st, a[i]) <= I32Max
    requires forall k :: 0 <= k < |b| ==> Place(st, b[k]) == I32Max + 1
    ensures var r := a + b;
      forall i, j :: 0 <= i < j < |r| ==> Place(st, r[i]) <= Place(st, r[j])
  {
    var r := a + b;
    forall i, j | 0 <= i < j < |r| ensures Place(st, r[i]) <= Place(st, r[j]) {
      if j < |a| {
        assert r[i] == a[i] && r[j] == a[j];
      } else if i < |a| {
        assert r[i] == a[i] && r[j] == b[j - |a|];
      } else {
        assert r[i] == b[i - |a|] && r[j] == b[j - |a|];
      }
    }
  }

  // ----- Project files -----

  /** `p.extension().unwrap_or("") == ext` */
  predicate HasExtension(p: Path, ext: string) {
    Extension(p).GetOr("") == ext
  }

  /** The position of the first path with extension `ext`. */
  function FirstWithExtension(ps: seq<Path>, ext: string): (r: Option<nat>)
    ensures r.Some? ==> r.value < |ps| && HasExtension(ps[r.value], ext)
    ensures r.Some? ==> forall k :: 0 <= k < r.value ==> !HasExtension(ps[k], ext)
    ensures r.None? ==> forall p :: p in ps ==> !HasExtension(p, ext)
  {
    if ps == [] then None
    else if HasExtension(ps[0], ext) then Some(0)
    else
      match FirstWithExtension(ps[1..], ext)
      case None => None
      case Some(k) => Some(k + 1)
  }

  /** `Storage::get_project_file`: the first visible entry of `dir` with the record
      extension. */
  function GetProjectFile(es: seq<Entry>, ext: string, dir: Path): Result<Path> {
    match ListPathContent(es, dir)
    case Err(e) => Err(e)
    case Ok(ps) =>
      match FirstWithExtension(ps, ext)
      case Some(k) => Ok(ps[k])
      case None => Err(ProjectDoesNotExist)
  }

  /** A project file is a visible entry of the folder with the record extension; there is
      none exactly when no visible entry has that extension; a folder that is not a
      directory fails with an I/O error. */
  lemma ProjectFileFound(es: seq<Entry>, ext: string, dir: Path)
    ensures var r := GetProjectFile(es, ext, dir);
      && (!IsDir(es, dir) ==> r == Err(Io))
      && (r.Ok? ==> Exists(es, r.value) && Parent(r.value) == Some(dir))
      && (r.Ok? ==> !IsDotFile(r.value) && HasExtension(r.value, ext))
      && (IsDir(es, dir) ==> (r.Err? <==>
            forall p :: Exists(es, p) && Parent(p) == Some(dir) && !IsDotFile(p) ==> !HasExtension(p, ext)))
      && (r.Err? ==> r.error in {Io, ProjectDoesNotExist})
  {
    match ListPathContent(es, dir)
    case Err(e) =>
    case Ok(ps) =>
      match FirstWithExtension(ps, ext)
      case Some(k) => assert ps[k] in ps;
      case None =>
  }

  /** `Storage::get_project_name`: the stem of the project file. */
  function GetProjectName(es: seq<Entry>, ext: string, dir: Path): (r: Result<string>)
    ensures r.Ok? ==> GetProjectFile(es, ext, dir).Ok? && FileStem(GetProjectFile(es, ext, dir).value) == Some(r.value)
    ensures GetProjectFile(es, ext, dir).Err? ==> r == Err(GetProjectFile(es, ext, dir).error)
  {
    match GetProjectFile(es, ext, dir)
    case Err(e) => Err(e)
    case Ok(file) =>
      match FileStem(file)
      case Some(stem) => Ok(stem)
      case None => Err(BadProjectFileName)
  }

  /** The project file of every folder, failing at the first folder without one. */
  function ProjectFilesOf(es: seq<Entry>, ext: string, dirs: seq<Path>): (r: Result<seq<Path>>)
    ensures r.Ok? ==> |r.value| == |dirs|
    ensures r.Ok? ==> forall k :: 0 <= k < |dirs| ==> GetProjectFile(es, ext, dirs[k]) == Ok(r.value[k])
    ensures r.Ok? <==> forall k :: 0 <= k < |dirs| ==> GetProjectFile(es, ext, dirs[k]).Ok?
  {
    if dirs == [] then Ok([])
    else
      match GetProjectFile(es, ext, dirs[0])
      case Err(e) => Err(e)
      case Ok(f) =>
        match ProjectFilesOf(es, ext, dirs[1..])
        case Err(e) => Err(e)
        case Ok(rest) => Ok([f] + rest)
  }

  /** `Storage::list_project_files` */
  function ListProjectFiles(st: Storage, es: seq<Entry>, ext: string, dir: StorageDir): (r: Result<seq<Path>>)
    ensures r.Ok? ==> ListProjectFoldersSpec(st, es, dir).Ok?
    ensures r.Ok? ==> |r.value| == |ListProjectFoldersSpec(st, es, dir).value|
    ensures r.Ok? ==> forall k :: 0 <= k < |r.value| ==>
      Parent(r.value[k]) == Some(ListProjectFoldersSpec(st, es, dir).value[k]) && HasExtension(r.value[k], ext)
  {
    match ListProjectFoldersSpec(st, es, dir)
    case Err(e) => Err(e)
    case Ok(dirs) => ProjectFilesOf(es, ext, dirs)
  }

  /** The position of the first file whose trailing components are `tail`. */
  function FirstEndingWith(files: seq<Path>, tail: Path): (r: Option<nat>)
    ensures r.Some? ==> r.value < |files| && EndsWith(files[r.value], tail)
    ensures r.Some? ==> forall k :: 0 <= k < r.value ==> !EndsWith(files[k], tail)
    ensures r.None? ==> forall f :: f in files ==> !EndsWith(f, tail)
  {
    if files == [] then None
    else if EndsWith(files[0], tail) then Some(0)
    else
      match FirstEndingWith(files[1..], tail)
      case None => None
      case Some(k) => Some(k + 1)
  }

  /** `Storage::get_project_dir_from_archive`: the folder of the first project file of the
      partition that ends with `<slug>.<ext>`. */
  function GetProjectDirFromArchive(st: Storage, es: seq<Entry>, ext: string, slug: string, year: Year): (r: Result<Path>)
    ensures r.Ok? ==> ListProjectFiles(st, es, ext, Archive(year)).Ok?
    ensures r.Ok? ==> exists f :: f in ListProjectFiles(st, es, ext, Archive(year)).value && Parent(f) == Some(r.value) && EndsWith(f, FromString(slug + "." + ext))
  {
    var files := ListProjectFiles(st, es, ext, Archive(year));
    if files.Err? then Err(files.error)
    else
      var k := FirstEndingWith(files.value, FromString(slug + "." + ext));
      if k.None? then Err(ProjectDoesNotExist)
      else
        var f := files.value[k.value];
        if Parent(f).Some? then Ok(Parent(f).value) else Err(ProjectDoesNotExist)
  }

  /** `Storage::get_project_dir(name, dir)`, with `slug` the slugified name: only the
      working directory and a year's archive can be asked, and the folder must exist. */
  function GetProjectDir(st: Storage, es: seq<Entry>, ext: string, slug: string, dir: StorageDir): (r: Result<Path>)
    ensures !dir.Working? && !dir.Archive? ==> r == Err(BadChoice)
    ensures r.Ok? ==> Exists(es, r.value)
    ensures dir.Working? ==> (r.Ok? <==> Exists(es, Join(st.working, slug)))
    ensures dir.Working? && r.Ok? ==> r.value == Join(st.working, slug)
    ensures (dir.Working? || dir.Archive?) && r.Err? ==> r.error == ProjectDoesNotExist
  {
    var found :=
      match dir
      case Working => Ok(Join(st.working, slug))
      case Archive(year) => GetProjectDirFromArchive(st, es, ext, slug, year)
      case _ => Err(BadChoice);
    if !dir.Working? && !dir.Archive? then Err(BadChoice)
    else if found.Ok? && Exists(es, found.value) then Ok(found.value)
    else Err(ProjectDoesNotExist)
  }
}
