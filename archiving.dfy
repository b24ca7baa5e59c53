/** Moving record folders into the archive: one record into a year's partition, and
    every eligible record a search finds. */
module Archiving {
  import opened Errors
  import opened FsPath
  import opened Numbers
  import opened Fs
  import opened Layout
  import opened Listing
  import opened Search

  /** The name of a record's folder in the archive: `<prefix>_<ident>`, or the ident alone. */
  function ArchiveName(x: Record): string {
    match x.prefix
    case Some(prefix) => prefix + "_" + x.ident
    case None => x.ident
  }

  /** Where `archive_project(x, year)` moves the folder of `x`. */
  function ArchiveTarget(st: Storage, x: Record, year: Year): Path {
    Join(Partition(st, year), ArchiveName(x))
  }

  /** `Storage::archive_project(project, year)`: creates the year's partition (the archive
      itself must exist, which `create_archive` asserts) and moves the record folder into
      it under its archive name; yields the old and the new path. */
  function ArchiveProjectSpec(st: Storage, es: seq<Entry>, x: Record, year: Year): Outcome<seq<Path>>
    requires Exists(es, st.archive)
  {
    var made := CreateArchiveSpec(st, es, year);
    if made.result.Err? then Outcome(Err(made.result.error), made.after)
    else
      var target := Join(made.result.value, ArchiveName(x));
      var moved := RenameSpec(made.after, x.dir, target);
      if moved.result.Err? then Outcome(Err(moved.result.error), made.after)
      else Outcome(Ok([x.dir, target]), moved.after)
  }

  /** Archiving yields the old and the new path, and succeeds only when the folder can be
      moved to its target once the partition exists; a failure leaves at most the new
      partition behind; the archive itself stays in place. */
  lemma ArchiveProjectOutcome(st: Storage, es: seq<Entry>, x: Record, year: Year)
    requires Exists(es, st.archive)
    ensures var r := ArchiveProjectSpec(st, es, x, year);
      && (r.result.Ok? ==> r.result.value == [x.dir, ArchiveTarget(st, x, year)])
      && (r.result.Ok? ==> CanRename(CreateArchiveSpec(st, es, year).after, x.dir, ArchiveTarget(st, x, year)))
      && (r.result.Err? ==> es <= r.after && |r.after| <= |es| + 1)
      && (Relative(ArchiveName(x)) ==> Exists(r.after, st.archive))
  {
    var made := CreateArchiveSpec(st, es, year);
    if made.result.Ok? {
      var target := Join(made.result.value, ArchiveName(x));
      if RenameSpec(made.after, x.dir, target).result.Ok? {
        ArchiveStays(st, made.after, x, year);
      }
    }
  }

  /** Moving a record folder into a partition cannot move the archive: the archive is
      not inside the folder, or the target would be inside the folder too. */
  lemma ArchiveStays(st: Storage, es: seq<Entry>, x: Record, year: Year)
    requires Exists(es, st.archive) && CanRename(es, x.dir, ArchiveTarget(st, x, year))
    ensures Relative(ArchiveName(x)) ==> Exists(RebaseAll(es, x.dir, ArchiveTarget(st, x, year)), st.archive)
  {
    if !Relative(ArchiveName(x)) { return; }
    var target := ArchiveTarget(st, x, year);
    PartitionIsChild(st, year);
    IntToStringIsPlain(year);
    JoinComponent(st.archive, IntToString(year));
    JoinRelative(Partition(st, year), ArchiveName(x));
    StartsWithTrans(target, Partition(st, year), st.archive);
    if StartsWith(st.archive, x.dir) {
      StartsWithTrans(target, st.archive, x.dir);
    }
    if st.archive != FsRoot {
      var i :| 0 <= i < |es| && es[i].path == st.archive;
      assert RebaseAll(es, x.dir, target)[i].path == st.archive;
    }
  }

  method ArchiveProject(st: Storage, fs: FileSystem, x: Record, year: Year) returns (r: Result<seq<Path>>)
    requires Exists(fs.entries, st.archive)
    modifies fs
    ensures Outcome(r, fs.entries) == ArchiveProjectSpec(st, old(fs.entries), x, year)
  {
    var name := ArchiveName(x);
    var archive := CreateArchive(st, fs, year);
    if archive.Err? {
      return Err(archive.error);
    }
    var target := Join(archive.value, name);
    var moved := fs.Rename(x.dir, target);
    if moved.Err? {
      return Err(moved.error);
    }
    r := Ok([x.dir, target]);
  }

  /** After archiving, the folder is gone from its old place and everything it held sits
      at the same place under its archive name in the year's partition; the tree stays
      well formed, every other path that existed keeps what it stored, and outside the
      two folders only the new partition may appear. */
  lemma ArchiveMoves(st: Storage, es: seq<Entry>, x: Record, year: Year)
    requires Valid(es) && Exists(es, st.archive) && Relative(ArchiveName(x))
    requires ArchiveProjectSpec(st, es, x, year).result.Ok?
    ensures var es' := ArchiveProjectSpec(st, es, x, year).after;
      var target := ArchiveTarget(st, x, year);
      && Valid(es')
      && !Exists(es', x.dir) && Exists(es', target)
      && NodeAt(es', target) == NodeAt(es, x.dir)
      && (forall q :: StartsWith(q, x.dir) ==> NodeAt(es', Rebase(q, x.dir, target)) == NodeAt(es, q))
      && (forall q :: !StartsWith(q, x.dir) && Exists(es, q) ==> NodeAt(es', q) == NodeAt(es, q))
      && (forall q :: !StartsWith(q, x.dir) && !StartsWith(q, target) && q != Partition(st, year)
            ==> NodeAt(es', q) == NodeAt(es, q))
  {
    var made := CreateArchiveSpec(st, es, year);
    var target := ArchiveTarget(st, x, year);
    var es' := ArchiveProjectSpec(st, es, x, year).after;
    assert es' == RebaseAll(made.after, x.dir, target);
    PartitionStep(st, es, x, year);
    CreateArchiveKeepsNodes(st, es, year);
    RenameMoves(made.after, x.dir, target);
    RenameKeepsValid(made.after, x.dir, target);
    NothingUnderMissing(made.after, target);
    forall q | StartsWith(q, x.dir) ensures q != Partition(st, year) {
      JoinRelative(Partition(st, year), ArchiveName(x));
      if q == Partition(st, year) {
        StartsWithTrans(target, q, x.dir);
      }
    }
    forall q | !StartsWith(q, x.dir) && Exists(es, q) ensures !StartsWith(q, target) {
      if q != FsRoot {
        var i :| 0 <= i < |made.after| && made.after[i].path == q;
      }
    }
  }

  /** Creating the partition before the move keeps the tree well formed, keeps what was
      stored at the record folder, and keeps every existing path. */
  lemma PartitionStep(st: Storage, es: seq<Entry>, x: Record, year: Year)
    requires Valid(es) && Exists(es, st.archive) && Relative(ArchiveName(x))
    requires CanRename(CreateArchiveSpec(st, es, year).after, x.dir, ArchiveTarget(st, x, year))
    ensures var after := CreateArchiveSpec(st, es, year).after;
      && Valid(after)
      && NodeAt(after, x.dir) == NodeAt(es, x.dir)
      && forall q :: Exists(es, q) ==> Exists(after, q)
  {
    var made := CreateArchiveSpec(st, es, year);
    var p := Partition(st, year);
    if made.after != es {
      assert made.after == es + [Entry(p, Node.Dir)];
      CreateDirKeepsValid(es, p);
      assert x.dir != p by {
        JoinRelativeOrSame(p, ArchiveName(x));
      }
      NodeAtAppend(es, Entry(p, Node.Dir), x.dir);
    }
    forall q | Exists(es, q) ensures Exists(made.after, q) {
      if q != FsRoot {
        var i :| 0 <= i < |es| && es[i].path == q;
        assert made.after[i] == es[i];
      }
    }
  }

  // ----- Archiving what a search finds -----

  /** A record `archive_projects_if` archives: ready for it, or forced by the confirmation. */
  predicate Eligible(x: Record, force: bool) {
    x.readyForArchive || force
  }

  /** `manual_year.or_else(|| project.year())` holds a year; it is unwrapped. */
  predicate HasYear(x: Record, manualYear: Option<Year>) {
    manualYear.Some? || x.year.Some?
  }

  /** Every eligible record of `xs` has a year. */
  predicate YearsKnown(xs: seq<Record>, manualYear: Option<Year>, force: bool) {
    forall i :: 0 <= i < |xs| && Eligible(xs[i], force) ==> HasYear(xs[i], manualYear)
  }

  function YearFor(x: Record, manualYear: Option<Year>): Year
    requires HasYear(x, manualYear)
  {
    if manualYear.Some? then manualYear.value else x.year.value
  }

  /** The archiving loop runs without a panic from `es` on: every eligible record it
      reaches has a year, and the archive exists when it is reached. */
  predicate ArchiveEachDefined(st: Storage, es: seq<Entry>, xs: seq<Record>, manualYear: Option<Year>, force: bool)
    decreases |xs|
  {
    if xs == [] then true
    else if !Eligible(xs[0], force) then ArchiveEachDefined(st, es, xs[1..], manualYear, force)
    else
      && HasYear(xs[0], manualYear)
      && Exists(es, st.archive)
      && var o := ArchiveProjectSpec(st, es, xs[0], YearFor(xs[0], manualYear));
        o.result.Err? || ArchiveEachDefined(st, o.after, xs[1..], manualYear, force)
  }

  /** The paths `archive_projects_if` reports when every eligible record is archived:
      per record, its folder, then the folder and its target as `archive_project`
      returns them. */
  function ExpectedMoves(st: Storage, xs: seq<Record>, manualYear: Option<Year>, force: bool): seq<Path>
    requires YearsKnown(xs, manualYear, force)
  {
    if xs == [] then []
    else
      var x := xs[0];
      (if Eligible(x, force) then [x.dir, x.dir, ArchiveTarget(st, x, YearFor(x, manualYear))] else [])
      + ExpectedMoves(st, xs[1..], manualYear, force)
  }

  /** Every eligible record is reported with its folder and its target. */
  lemma {:induction false} EligibleIsReported(st: Storage, xs: seq<Record>, manualYear: Option<Year>, force: bool, i: int)
    requires YearsKnown(xs, manualYear, force) && 0 <= i < |xs| && Eligible(xs[i], force)
    ensures xs[i].dir in ExpectedMoves(st, xs, manualYear, force)
    ensures ArchiveTarget(st, xs[i], YearFor(xs[i], manualYear)) in ExpectedMoves(st, xs, manualYear, force)
    decreases i
  {
    YearsKnownStep(xs, manualYear, force);
    if i > 0 {
      assert xs[1..][i - 1] == xs[i];
      EligibleIsReported(st, xs[1..], manualYear, force, i - 1);
    }
  }

  /** Only eligible records are reported: each reported path is the folder or the target
      of one. */
  lemma {:induction false} ReportedIsEligible(st: Storage, xs: seq<Record>, manualYear: Option<Year>, force: bool, p: Path)
    requires YearsKnown(xs, manualYear, force) && p in ExpectedMoves(st, xs, manualYear, force)
    ensures exists i :: (0 <= i < |xs| && Eligible(xs[i], force) && HasYear(xs[i], manualYear)
      && (p == xs[i].dir || p == ArchiveTarget(st, xs[i], YearFor(xs[i], manualYear))))
    decreases |xs|
  {
    YearsKnownStep(xs, manualYear, force);
    var x := xs[0];
    var head := if Eligible(x, force) then [x.dir, x.dir, ArchiveTarget(st, x, YearFor(x, manualYear))] else [];
    assert ExpectedMoves(st, xs, manualYear, force) == head + ExpectedMoves(st, xs[1..], manualYear, force);
    if p in head {
      assert Eligible(xs[0], force) && HasYear(xs[0], manualYear);
    } else {
      ReportedIsEligible(st, xs[1..], manualYear, force, p);
      var j :| 0 <= j < |xs[1..]| && Eligible(xs[1..][j], force) && HasYear(xs[1..][j], manualYear)
        && (p == xs[1..][j].dir || p == ArchiveTarget(st, xs[1..][j], YearFor(xs[1..][j], manualYear)));
      assert xs[1..][j] == xs[j + 1];
    }
  }

  /** `moved` in front of what the rest of the loop reports; an error discards it. */
  function Prepend(moved: seq<Path>, o: Outcome<seq<Path>>): Outcome<seq<Path>> {
    if o.result.Ok? then Outcome(Ok(moved + o.result.value), o.after) else o
  }

  /** The loop of `archive_projects_if` over the records found, from `es` on. */
  function ArchiveEach(st: Storage, es: seq<Entry>, xs: seq<Record>, manualYear: Option<Year>, force: bool): Outcome<seq<Path>>
    requires ArchiveEachDefined(st, es, xs, manualYear, force)
    decreases |xs|
  {
    if xs == [] then Outcome(Ok([]), es)
    else if !Eligible(xs[0], force) then ArchiveEach(st, es, xs[1..], manualYear, force)
    else
      var x := xs[0];
      var o := ArchiveProjectSpec(st, es, x, YearFor(x, manualYear));
      if o.result.Err? then Outcome(Err(o.result.error), o.after)
      else Prepend([x.dir] + o.result.value, ArchiveEach(st, o.after, xs[1..], manualYear, force))
  }

  /** When the loop gets through, every eligible record had a year and the loop reports
      exactly the expected moves; with no eligible record it reports nothing and touches
      nothing. */
  lemma {:induction false} ArchiveEachReports(st: Storage, es: seq<Entry>, xs: seq<Record>, manualYear: Option<Year>, force: bool)
    requires ArchiveEachDefined(st, es, xs, manualYear, force)
    ensures var r := ArchiveEach(st, es, xs, manualYear, force);
      r.result.Ok? ==> YearsKnown(xs, manualYear, force) && r.result.value == ExpectedMoves(st, xs, manualYear, force)
    decreases |xs|
  {
    if xs != [] && ArchiveEach(st, es, xs, manualYear, force).result.Ok? {
      YearsKnownStep(xs, manualYear, force);
      ArchiveEachHead(st, es, xs, manualYear, force);
      var x := xs[0];
      if !Eligible(x, force) {
        ArchiveEachReports(st, es, xs[1..], manualYear, force);
      } else {
        var o := ArchiveProjectSpec(st, es, x, YearFor(x, manualYear));
        ArchiveEachReports(st, o.after, xs[1..], manualYear, force);
        assert [x.dir] + o.result.value == [x.dir, x.dir, ArchiveTarget(st, x, YearFor(x, manualYear))];
      }
    }
  }

  /** With no eligible record the loop reports nothing and touches nothing. */
  lemma {:induction false} ArchiveEachNothingEligible(st: Storage, es: seq<Entry>, xs: seq<Record>, manualYear: Option<Year>, force: bool)
    requires forall i :: 0 <= i < |xs| ==> !Eligible(xs[i], force)
    ensures ArchiveEachDefined(st, es, xs, manualYear, force)
    ensures ArchiveEach(st, es, xs, manualYear, force) == Outcome(Ok([]), es)
    decreases |xs|
  {
    if xs != [] {
      assert !Eligible(xs[0], force);
      assert forall i :: 0 <= i < |xs[1..]| ==> xs[1..][i] == xs[i + 1];
      ArchiveEachNothingEligible(st, es, xs[1..], manualYear, force);
    }
  }

  lemma YearsKnownStep(xs: seq<Record>, manualYear: Option<Year>, force: bool)
    requires xs != []
    ensures YearsKnown(xs, manualYear, force)
      <==> (Eligible(xs[0], force) ==> HasYear(xs[0], manualYear)) && YearsKnown(xs[1..], manualYear, force)
  {
    if YearsKnown(xs[1..], manualYear, force) {
      forall i | 1 <= i < |xs| ensures xs[1..][i - 1] == xs[i] { }
    }
  }

  /** `archive_projects_if` can run without a panic. */
  predicate ArchiveIfDefined(st: Storage, es: seq<Entry>, rt: RecordType, terms: seq<string>, manualYear: Option<Year>, force: bool) {
    match SearchAny(st, es, rt, Working, terms)
    case Ok(found) => ArchiveEachDefined(st, es, found, manualYear, force)
    case Err(_) => true
  }

  /** `Storage::archive_projects_if(terms, manual_year, confirm)`, with `force` the answer
      of `confirm`: searches the working directory, refuses an empty result, and archives
      every eligible record in search order, stopping at the first failure. */
  function ArchiveIfSpec(st: Storage, es: seq<Entry>, rt: RecordType, terms: seq<string>, manualYear: Option<Year>, force: bool): (r: Outcome<seq<Path>>)
    requires ArchiveIfDefined(st, es, rt, terms, manualYear, force)
    ensures SearchAny(st, es, rt, Working, terms).Err? ==> r == Outcome(Err(SearchAny(st, es, rt, Working, terms).error), es)
    ensures SearchAny(st, es, rt, Working, terms) == Ok([]) ==> r == Outcome(Err(ProjectDoesNotExist), es)
    ensures r.result.Ok? ==> SearchAny(st, es, rt, Working, terms).Ok?
    ensures r.result.Ok? ==> YearsKnown(SearchAny(st, es, rt, Working, terms).value, manualYear, force)
    ensures r.result.Ok? ==> r.result.value == ExpectedMoves(st, SearchAny(st, es, rt, Working, terms).value, manualYear, force)
  {
    match SearchAny(st, es, rt, Working, terms)
    case Err(e) => Outcome(Err(e), es)
    case Ok(found) =>
      if found == [] then Outcome(Err(ProjectDoesNotExist), es)
      else
        ArchiveEachReports(st, es, found, manualYear, force);
        ArchiveEach(st, es, found, manualYear, force)
  }

  method ArchiveProjectsIf(st: Storage, fs: FileSystem, rt: RecordType, terms: seq<string>, manualYear: Option<Year>, force: bool)
    returns (r: Result<seq<Path>>)
    requires ArchiveIfDefined(st, fs.entries, rt, terms, manualYear, force)
    modifies fs
    ensures Outcome(r, fs.entries) == ArchiveIfSpec(st, old(fs.entries), rt, terms, manualYear, force)
  {
    var found := SearchProjectsAny(st, fs, rt, Working, terms);
    if found.Err? {
      return Err(found.error);
    }
    var projects := found.value;
    if projects == [] {
      return Err(ProjectDoesNotExist);
    }
    assert ArchiveIfSpec(st, old(fs.entries), rt, terms, manualYear, force)
      == ArchiveEach(st, fs.entries, projects, manualYear, force);
    r := ArchiveRecords(st, fs, projects, manualYear, force);
  }

  /** The loop of `archive_projects_if` over the records found. */
  method ArchiveRecords(st: Storage, fs: FileSystem, projects: seq<Record>, manualYear: Option<Year>, force: bool)
    returns (r: Result<seq<Path>>)
    requires ArchiveEachDefined(st, fs.entries, projects, manualYear, force)
    modifies fs
    ensures Outcome(r, fs.entries) == ArchiveEach(st, old(fs.entries), projects, manualYear, force)
  {
    ghost var whole := ArchiveEach(st, fs.entries, projects, manualYear, force);
    var moved: seq<Path> := [];
    var i := 0;
    PrependNothing(whole);
    while i < |projects|
      invariant 0 <= i <= |projects|
      invariant ArchiveEachDefined(st, fs.entries, projects[i..], manualYear, force)
      invariant Prepend(moved, ArchiveEach(st, fs.entries, projects[i..], manualYear, force)) == whole
    {
      var x := projects[i];
      ghost var before := fs.entries;
      if Eligible(x, force) {
        ArchiveEachReady(st, before, projects, i, manualYear, force);
        var archived := ArchiveProject(st, fs, x, YearFor(x, manualYear));
        ArchiveEachArchived(st, before, fs.entries, projects, i, moved, whole, manualYear, force, archived);
        if archived.Err? {
          return Err(archived.error);
        }
        moved := moved + ([x.dir] + archived.value);
      } else {
        ArchiveEachSkips(st, before, projects, i, moved, whole, manualYear, force);
      }
      i := i + 1;
    }
    ArchiveEachDone(st, fs.entries, projects, moved, manualYear, force);
    r := Ok(moved);
  }

  /** The loop has reached the end of the records. */
  lemma ArchiveEachDone(st: Storage, es: seq<Entry>, xs: seq<Record>, moved: seq<Path>, manualYear: Option<Year>, force: bool)
    ensures ArchiveEachDefined(st, es, xs[|xs|..], manualYear, force)
    ensures Prepend(moved, ArchiveEach(st, es, xs[|xs|..], manualYear, force)) == Outcome(Ok(moved), es)
  {
    assert xs[|xs|..] == [];
    assert moved + [] == moved;
  }

  lemma PrependNothing(o: Outcome<seq<Path>>)
    ensures Prepend([], o) == o
  {
    if o.result.Ok? {
      assert [] + o.result.value == o.result.value;
    }
  }

  /** A record the loop skips leaves what is still to come unchanged. */
  lemma ArchiveEachSkips(st: Storage, es: seq<Entry>, xs: seq<Record>, i: int, moved: seq<Path>,
                         whole: Outcome<seq<Path>>, manualYear: Option<Year>, force: bool)
    requires 0 <= i < |xs| && !Eligible(xs[i], force) && ArchiveEachDefined(st, es, xs[i..], manualYear, force)
    requires Prepend(moved, ArchiveEach(st, es, xs[i..], manualYear, force)) == whole
    ensures ArchiveEachDefined(st, es, xs[i + 1..], manualYear, force)
    ensures Prepend(moved, ArchiveEach(st, es, xs[i + 1..], manualYear, force)) == whole
  {
    assert xs[i..][0] == xs[i];
    assert xs[i..][1..] == xs[i + 1..];
  }

  /** A record the loop archives has a year, and the archive exists. */
  lemma ArchiveEachReady(st: Storage, es: seq<Entry>, xs: seq<Record>, i: int, manualYear: Option<Year>, force: bool)
    requires 0 <= i < |xs| && Eligible(xs[i], force) && ArchiveEachDefined(st, es, xs[i..], manualYear, force)
    ensures HasYear(xs[i], manualYear) && Exists(es, st.archive)
  {
    assert xs[i..][0] == xs[i];
  }

  /** Archiving record `i` either ends the loop with its error or adds its folder, its
      folder and its target to what was moved. */
  lemma ArchiveEachArchived(st: Storage, es: seq<Entry>, es': seq<Entry>, xs: seq<Record>, i: int, moved: seq<Path>,
                            whole: Outcome<seq<Path>>, manualYear: Option<Year>, force: bool, out: Result<seq<Path>>)
    requires 0 <= i < |xs| && Eligible(xs[i], force) && ArchiveEachDefined(st, es, xs[i..], manualYear, force)
    requires HasYear(xs[i], manualYear) && Exists(es, st.archive)
    requires Prepend(moved, ArchiveEach(st, es, xs[i..], manualYear, force)) == whole
    requires Outcome(out, es') == ArchiveProjectSpec(st, es, xs[i], YearFor(xs[i], manualYear))
    ensures out.Err? ==> whole == Outcome(Err(out.error), es')
    ensures out.Ok? ==> ArchiveEachDefined(st, es', xs[i + 1..], manualYear, force)
    ensures out.Ok? ==> Prepend(moved + ([xs[i].dir] + out.value), ArchiveEach(st, es', xs[i + 1..], manualYear, force)) == whole
  {
    assert xs[i..][0] == xs[i];
    assert xs[i..][1..] == xs[i + 1..];
    if out.Ok? {
      PrependTwice(moved, [xs[i].dir] + out.value, ArchiveEach(st, es', xs[i + 1..], manualYear, force));
    }
  }

  lemma PrependTwice(a: seq<Path>, b: seq<Path>, o: Outcome<seq<Path>>)
    ensures Prepend(a, Prepend(b, o)) == Prepend(a + b, o)
  {
    if o.result.Ok? {
      assert a + (b + o.result.value) == (a + b) + o.result.value;
    }
  }

  // ----- What archiving a batch does to the tree -----

  /** The folders of the eligible records, in order. */
  function ArchivedFolders(xs: seq<Record>, force: bool): (r: seq<Path>)
    ensures forall d :: d in r <==> exists i :: 0 <= i < |xs| && Eligible(xs[i], force) && xs[i].dir == d
    decreases |xs|
  {
    if xs == [] then []
    else
      var rest := ArchivedFolders(xs[1..], force);
      assert forall i :: 1 <= i < |xs| ==> xs[1..][i - 1] == xs[i];
      (if Eligible(xs[0], force) then [xs[0].dir] else []) + rest
  }

  /** `q` lies inside none of the folders `ds`. */
  predicate Outside(q: Path, ds: seq<Path>) {
    forall d :: d in ds ==> !StartsWith(q, d)
  }

  /** Every record folder is a direct child of the working directory, as the folders
      `list_project_folders(Working)` yields are. */
  predicate InWorking(st: Storage, xs: seq<Record>) {
    forall i :: 0 <= i < |xs| ==> Parent(xs[i].dir) == Some(st.working)
  }

  /** Every eligible record's archive name is a name inside the partition. */
  predicate NamesRelative(xs: seq<Record>, force: bool) {
    forall i :: 0 <= i < |xs| && Eligible(xs[i], force) ==> Relative(ArchiveName(xs[i]))
  }

  /** Every eligible record had a year, and its folder existed and is gone. */
  ghost predicate FoldersGone(es: seq<Entry>, after: seq<Entry>, xs: seq<Record>, manualYear: Option<Year>, force: bool) {
    forall i :: 0 <= i < |xs| && Eligible(xs[i], force) ==>
      HasYear(xs[i], manualYear) && Exists(es, xs[i].dir) && !Exists(after, xs[i].dir)
  }

  /** Everything an eligible folder held sits at the same place under its archive target. */
  ghost predicate ContentsCarried(st: Storage, es: seq<Entry>, after: seq<Entry>, xs: seq<Record>, manualYear: Option<Year>, force: bool) {
    forall i, q :: 0 <= i < |xs| && Eligible(xs[i], force) && HasYear(xs[i], manualYear)
      && StartsWith(q, xs[i].dir) && Exists(es, q)
      ==> NodeAt(after, Rebase(q, xs[i].dir, ArchiveTarget(st, xs[i], YearFor(xs[i], manualYear)))) == NodeAt(es, q)
  }

  /** The working directory outside the folders `moved` is as it was. */
  ghost predicate WorkingKept(st: Storage, es: seq<Entry>, after: seq<Entry>, moved: seq<Path>) {
    forall q :: StartsWith(q, st.working) && Outside(q, moved) ==> NodeAt(after, q) == NodeAt(es, q)
  }

  /** Everything that was in the archive keeps what it stored. */
  ghost predicate ArchiveKept(st: Storage, es: seq<Entry>, after: seq<Entry>) {
    forall q :: StartsWith(q, st.archive) && Exists(es, q) ==> NodeAt(after, q) == NodeAt(es, q)
  }

  /** Everything outside the working directory and the archive is as it was. */
  ghost predicate ElsewhereKept(st: Storage, es: seq<Entry>, after: seq<Entry>) {
    forall q :: !StartsWith(q, st.working) && !StartsWith(q, st.archive) ==> NodeAt(after, q) == NodeAt(es, q)
  }

  /** Everything the folder of `x` held now sits, in the archive, at the same place under
      its target. */
  ghost predicate FolderCarried(st: Storage, es: seq<Entry>, es': seq<Entry>, x: Record, year: Year) {
    var target := ArchiveTarget(st, x, year);
    && (forall q :: StartsWith(q, x.dir) && Exists(es, q) ==> StartsWith(Rebase(q, x.dir, target), st.archive))
    && (forall q :: StartsWith(q, x.dir) ==> NodeAt(es', Rebase(q, x.dir, target)) == NodeAt(es, q))
  }

  /** What archiving one record did, from `es` to `es'`. */
  ghost predicate StepMoved(st: Storage, es: seq<Entry>, es': seq<Entry>, x: Record, year: Year) {
    && Exists(es, x.dir) && !Exists(es', x.dir)
    && FolderCarried(st, es, es', x, year)
    && WorkingKept(st, es, es', [x.dir])
    && ArchiveKept(st, es, es')
    && ElsewhereKept(st, es, es')
  }

  /** What a batch that got through did, from `es` to `after`. */
  ghost predicate BatchMoved(st: Storage, es: seq<Entry>, after: seq<Entry>, xs: seq<Record>, manualYear: Option<Year>, force: bool) {
    && FoldersGone(es, after, xs, manualYear, force)
    && ContentsCarried(st, es, after, xs, manualYear, force)
    && WorkingKept(st, es, after, ArchivedFolders(xs, force))
    && ArchiveKept(st, es, after)
    && ElsewhereKept(st, es, after)
  }

  /** One record of the batch, seen from the working directory and the archive. */
  lemma ArchiveStep(st: Storage, es: seq<Entry>, x: Record, year: Year)
    requires Valid(es) && WellFormed(st) && Exists(es, st.archive)
    requires Parent(x.dir) == Some(st.working) && Relative(ArchiveName(x))
    requires ArchiveProjectSpec(st, es, x, year).result.Ok?
    ensures var es' := ArchiveProjectSpec(st, es, x, year).after;
      Valid(es') && StepMoved(st, es, es', x, year)
  {
    var es' := ArchiveProjectSpec(st, es, x, year).after;
    ArchiveMoves(st, es, x, year);
    ArchivePlaces(st, x, year);
    forall q | StartsWith(q, st.working) && Outside(q, [x.dir]) ensures NodeAt(es', q) == NodeAt(es, q) {
      assert x.dir in [x.dir];
    }
  }

  /** The record folder lies in the working directory, the partition and the target in
      the archive, and the two directories do not overlap. */
  lemma ArchivePlaces(st: Storage, x: Record, year: Year)
    requires WellFormed(st) && Parent(x.dir) == Some(st.working) && Relative(ArchiveName(x))
    ensures StartsWith(Partition(st, year), st.archive)
    ensures forall q :: StartsWith(q, x.dir) ==> StartsWith(q, st.working)
    ensures forall q :: StartsWith(q, ArchiveTarget(st, x, year)) ==> StartsWith(q, st.archive)
    ensures forall q :: !(StartsWith(q, st.working) && StartsWith(q, st.archive))
  {
    var target := ArchiveTarget(st, x, year);
    var p := Partition(st, year);
    ChildStartsWith(x.dir, st.working);
    PartitionIsChild(st, year);
    ChildStartsWith(p, st.archive);
    JoinRelative(p, ArchiveName(x));
    forall q | StartsWith(q, x.dir) ensures StartsWith(q, st.working) {
      StartsWithTrans(q, x.dir, st.working);
    }
    forall q | StartsWith(q, target) ensures StartsWith(q, st.archive) {
      StartsWithTrans(q, target, p);
      StartsWithTrans(q, p, st.archive);
    }
    forall q ensures !(StartsWith(q, st.working) && StartsWith(q, st.archive)) {
      SiblingsApart(st.working, st.archive, st.root, q);
    }
  }

  /** A batch that gets through keeps the tree well formed and moves exactly the eligible
      folders, each with all it held, to their archive targets. */
  lemma {:induction false} ArchiveEachMoves(st: Storage, es: seq<Entry>, xs: seq<Record>, manualYear: Option<Year>, force: bool)
    requires Valid(es) && WellFormed(st) && InWorking(st, xs) && NamesRelative(xs, force)
    requires ArchiveEachDefined(st, es, xs, manualYear, force)
    requires ArchiveEach(st, es, xs, manualYear, force).result.Ok?
    ensures var after := ArchiveEach(st, es, xs, manualYear, force).after;
      Valid(after) && BatchMoved(st, es, after, xs, manualYear, force)
    decreases |xs|
  {
    if xs == [] {
      return;
    }
    var after := ArchiveEach(st, es, xs, manualYear, force).after;
    BatchTail(st, xs, force);
    ArchiveEachHead(st, es, xs, manualYear, force);
    if !Eligible(xs[0], force) {
      ArchiveEachMoves(st, es, xs[1..], manualYear, force);
      BatchSkip(st, es, after, xs, manualYear, force);
    } else {
      var o := ArchiveProjectSpec(st, es, xs[0], YearFor(xs[0], manualYear));
      ArchiveStep(st, es, xs[0], YearFor(xs[0], manualYear));
      ArchiveEachMoves(st, o.after, xs[1..], manualYear, force);
      BatchStep(st, es, o.after, after, xs, manualYear, force);
    }
  }

  /** How a batch that gets through begins: a skipped record leaves the tree to the rest,
      an archived one succeeds and hands the tree it left to the rest. */
  lemma ArchiveEachHead(st: Storage, es: seq<Entry>, xs: seq<Record>, manualYear: Option<Year>, force: bool)
    requires xs != [] && ArchiveEachDefined(st, es, xs, manualYear, force)
    requires ArchiveEach(st, es, xs, manualYear, force).result.Ok?
    ensures !Eligible(xs[0], force) ==>
      && ArchiveEachDefined(st, es, xs[1..], manualYear, force)
      && ArchiveEach(st, es, xs[1..], manualYear, force) == ArchiveEach(st, es, xs, manualYear, force)
    ensures Eligible(xs[0], force) ==>
      && HasYear(xs[0], manualYear) && Exists(es, st.archive)
      && var o := ArchiveProjectSpec(st, es, xs[0], YearFor(xs[0], manualYear));
        && o.result.Ok?
        && ArchiveEachDefined(st, o.after, xs[1..], manualYear, force)
        && ArchiveEach(st, o.after, xs[1..], manualYear, force).result.Ok?
        && ArchiveEach(st, o.after, xs[1..], manualYear, force).after == ArchiveEach(st, es, xs, manualYear, force).after
  {
  }

  /** The rest of a batch is a batch of the same kind. */
  lemma BatchTail(st: Storage, xs: seq<Record>, force: bool)
    requires xs != [] && InWorking(st, xs) && NamesRelative(xs, force)
    ensures InWorking(st, xs[1..]) && NamesRelative(xs[1..], force)
    ensures Parent(xs[0].dir) == Some(st.working)
    ensures Eligible(xs[0], force) ==> Relative(ArchiveName(xs[0]))
  {
    assert forall i :: 1 <= i < |xs| ==> xs[1..][i - 1] == xs[i];
  }

  /** A skipped first record changes nothing about what the rest of the batch did. */
  lemma BatchSkip(st: Storage, es: seq<Entry>, after: seq<Entry>, xs: seq<Record>, manualYear: Option<Year>, force: bool)
    requires xs != [] && !Eligible(xs[0], force)
    requires BatchMoved(st, es, after, xs[1..], manualYear, force)
    ensures BatchMoved(st, es, after, xs, manualYear, force)
  {
    assert forall i :: 1 <= i < |xs| ==> xs[1..][i - 1] == xs[i];
    assert ArchivedFolders(xs, force) == ArchivedFolders(xs[1..], force);
  }

  /** The first record's move followed by the rest of the batch. */
  lemma BatchStep(st: Storage, es: seq<Entry>, mid: seq<Entry>, after: seq<Entry>, xs: seq<Record>,
                  manualYear: Option<Year>, force: bool)
    requires xs != [] && Eligible(xs[0], force) && HasYear(xs[0], manualYear)
    requires WellFormed(st) && InWorking(st, xs)
    requires StepMoved(st, es, mid, xs[0], YearFor(xs[0], manualYear))
    requires BatchMoved(st, mid, after, xs[1..], manualYear, force)
    ensures BatchMoved(st, es, after, xs, manualYear, force)
  {
    var x, rest := xs[0], xs[1..];
    assert forall i :: 1 <= i < |xs| ==> rest[i - 1] == xs[i];
    StepGone(st, es, mid, after, xs, manualYear, force);
    StepCarried(st, es, mid, after, xs, manualYear, force);
    StepWorking(st, es, mid, after, xs, manualYear, force);
  }

  /** The later records' folders are apart from the first one's, and existed before it
      moved. */
  lemma LaterApart(st: Storage, es: seq<Entry>, mid: seq<Entry>, after: seq<Entry>, xs: seq<Record>,
                   manualYear: Option<Year>, force: bool)
    requires xs != [] && WellFormed(st) && InWorking(st, xs)
    requires !Exists(mid, xs[0].dir) && WorkingKept(st, es, mid, [xs[0].dir])
    requires FoldersGone(mid, after, xs[1..], manualYear, force)
    ensures forall i :: 1 <= i < |xs| && Eligible(xs[i], force) ==>
      Exists(es, xs[i].dir) && forall q :: StartsWith(q, xs[i].dir) ==> StartsWith(q, st.working) && !StartsWith(q, xs[0].dir)
  {
    forall i | 1 <= i < |xs| && Eligible(xs[i], force)
      ensures Exists(es, xs[i].dir) && forall q :: StartsWith(q, xs[i].dir) ==> StartsWith(q, st.working) && !StartsWith(q, xs[0].dir)
    {
      assert xs[1..][i - 1] == xs[i];
      ChildStartsWith(xs[i].dir, st.working);
      FoldersApart(st, xs[i].dir, xs[0].dir);
      forall q | StartsWith(q, xs[i].dir) ensures StartsWith(q, st.working) {
        StartsWithTrans(q, xs[i].dir, st.working);
      }
    }
  }

  lemma StepGone(st: Storage, es: seq<Entry>, mid: seq<Entry>, after: seq<Entry>, xs: seq<Record>,
                 manualYear: Option<Year>, force: bool)
    requires xs != [] && Eligible(xs[0], force) && HasYear(xs[0], manualYear)
    requires WellFormed(st) && InWorking(st, xs)
    requires Exists(es, xs[0].dir) && !Exists(mid, xs[0].dir) && WorkingKept(st, es, mid, [xs[0].dir])
    requires FoldersGone(mid, after, xs[1..], manualYear, force)
    requires WorkingKept(st, mid, after, ArchivedFolders(xs[1..], force))
    ensures FoldersGone(es, after, xs, manualYear, force)
  {
    var x, rest := xs[0], xs[1..];
    LaterApart(st, es, mid, after, xs, manualYear, force);
    forall d | d in ArchivedFolders(rest, force) ensures !StartsWith(x.dir, d) {
      var j :| 0 <= j < |rest| && Eligible(rest[j], force) && rest[j].dir == d;
      assert rest[j] == xs[j + 1];
    }
    ChildStartsWith(x.dir, st.working);
    assert NodeAt(after, x.dir) == NodeAt(mid, x.dir);
    forall i | 1 <= i < |xs| && Eligible(xs[i], force) ensures HasYear(xs[i], manualYear) && !Exists(after, xs[i].dir) {
      assert rest[i - 1] == xs[i];
    }
  }

  lemma StepCarried(st: Storage, es: seq<Entry>, mid: seq<Entry>, after: seq<Entry>, xs: seq<Record>,
                    manualYear: Option<Year>, force: bool)
    requires xs != [] && Eligible(xs[0], force) && HasYear(xs[0], manualYear)
    requires WellFormed(st) && InWorking(st, xs)
    requires !Exists(mid, xs[0].dir) && WorkingKept(st, es, mid, [xs[0].dir])
    requires FolderCarried(st, es, mid, xs[0], YearFor(xs[0], manualYear))
    requires FoldersGone(mid, after, xs[1..], manualYear, force)
    requires ContentsCarried(st, mid, after, xs[1..], manualYear, force)
    requires ArchiveKept(st, mid, after)
    ensures ContentsCarried(st, es, after, xs, manualYear, force)
  {
    CarriedFirst(st, es, mid, after, xs[0], YearFor(xs[0], manualYear));
    LaterApart(st, es, mid, after, xs, manualYear, force);
    CarriedLater(st, es, mid, after, xs, manualYear, force);
  }

  /** The first record's contents reach their target and stay there. */
  lemma CarriedFirst(st: Storage, es: seq<Entry>, mid: seq<Entry>, after: seq<Entry>, x: Record, year: Year)
    requires FolderCarried(st, es, mid, x, year) && ArchiveKept(st, mid, after)
    ensures forall q :: StartsWith(q, x.dir) && Exists(es, q) ==>
      NodeAt(after, Rebase(q, x.dir, ArchiveTarget(st, x, year))) == NodeAt(es, q)
  {
    forall q | StartsWith(q, x.dir) && Exists(es, q)
      ensures NodeAt(after, Rebase(q, x.dir, ArchiveTarget(st, x, year))) == NodeAt(es, q)
    {
      var r := Rebase(q, x.dir, ArchiveTarget(st, x, year));
      assert StartsWith(r, st.archive) && Exists(mid, r);
    }
  }

  /** The later records find their contents where they were before the first move. */
  lemma CarriedLater(st: Storage, es: seq<Entry>, mid: seq<Entry>, after: seq<Entry>, xs: seq<Record>,
                     manualYear: Option<Year>, force: bool)
    requires xs != [] && WorkingKept(st, es, mid, [xs[0].dir])
    requires forall i :: 1 <= i < |xs| && Eligible(xs[i], force) ==>
      forall q :: StartsWith(q, xs[i].dir) ==> StartsWith(q, st.working) && !StartsWith(q, xs[0].dir)
    requires ContentsCarried(st, mid, after, xs[1..], manualYear, force)
    ensures forall i, q ::
      1 <= i < |xs| && Eligible(xs[i], force) && HasYear(xs[i], manualYear) && StartsWith(q, xs[i].dir) && Exists(es, q) ==>
      NodeAt(after, Rebase(q, xs[i].dir, ArchiveTarget(st, xs[i], YearFor(xs[i], manualYear)))) == NodeAt(es, q)
  {
    forall i, q | 1 <= i < |xs| && Eligible(xs[i], force) && HasYear(xs[i], manualYear)
      && StartsWith(q, xs[i].dir) && Exists(es, q)
      ensures NodeAt(after, Rebase(q, xs[i].dir, ArchiveTarget(st, xs[i], YearFor(xs[i], manualYear)))) == NodeAt(es, q)
    {
      assert Outside(q, [xs[0].dir]);
      assert NodeAt(mid, q) == NodeAt(es, q);
      assert xs[1..][i - 1] == xs[i];
    }
  }

  lemma StepWorking(st: Storage, es: seq<Entry>, mid: seq<Entry>, after: seq<Entry>, xs: seq<Record>,
                    manualYear: Option<Year>, force: bool)
    requires xs != [] && Eligible(xs[0], force) && HasYear(xs[0], manualYear)
    requires StepMoved(st, es, mid, xs[0], YearFor(xs[0], manualYear))
    requires BatchMoved(st, mid, after, xs[1..], manualYear, force)
    ensures WorkingKept(st, es, after, ArchivedFolders(xs, force))
    ensures ArchiveKept(st, es, after) && ElsewhereKept(st, es, after)
  {
    assert ArchivedFolders(xs, force) == [xs[0].dir] + ArchivedFolders(xs[1..], force);
  }

  /** `archive_projects_if`, when it gets through, archives the eligible records the search
      found exactly as `ArchiveEachMoves` says, and leaves the folders of the others
      where they were. */
  lemma ArchiveIfMoves(st: Storage, es: seq<Entry>, rt: RecordType, terms: seq<string>, manualYear: Option<Year>, force: bool)
    requires Valid(es) && WellFormed(st) && ArchiveIfDefined(st, es, rt, terms, manualYear, force)
    requires ArchiveIfSpec(st, es, rt, terms, manualYear, force).result.Ok?
    requires SearchAny(st, es, rt, Working, terms).Ok?
    requires InWorking(st, SearchAny(st, es, rt, Working, terms).value)
    requires NamesRelative(SearchAny(st, es, rt, Working, terms).value, force)
    ensures var found := SearchAny(st, es, rt, Working, terms).value;
      var after := ArchiveIfSpec(st, es, rt, terms, manualYear, force).after;
      && Valid(after)
      && BatchMoved(st, es, after, found, manualYear, force)
      && forall j :: 0 <= j < |found| && found[j].dir !in ArchivedFolders(found, force) ==>
           NodeAt(after, found[j].dir) == NodeAt(es, found[j].dir)
  {
    var found := SearchAny(st, es, rt, Working, terms).value;
    assert ArchiveIfSpec(st, es, rt, terms, manualYear, force) == ArchiveEach(st, es, found, manualYear, force);
    ArchiveEachMoves(st, es, found, manualYear, force);
    OthersStay(st, es, ArchiveEach(st, es, found, manualYear, force).after, found, force);
  }

  /** A record folder that was not archived keeps what it stored. */
  lemma OthersStay(st: Storage, es: seq<Entry>, after: seq<Entry>, xs: seq<Record>, force: bool)
    requires InWorking(st, xs) && WorkingKept(st, es, after, ArchivedFolders(xs, force))
    ensures forall j :: 0 <= j < |xs| && xs[j].dir !in ArchivedFolders(xs, force) ==>
      NodeAt(after, xs[j].dir) == NodeAt(es, xs[j].dir)
  {
    forall j | 0 <= j < |xs| && xs[j].dir !in ArchivedFolders(xs, force)
      ensures NodeAt(after, xs[j].dir) == NodeAt(es, xs[j].dir)
    {
      ChildStartsWith(xs[j].dir, st.working);
      forall d | d in ArchivedFolders(xs, force) ensures !StartsWith(xs[j].dir, d) {
        var i :| 0 <= i < |xs| && Eligible(xs[i], force) && xs[i].dir == d;
        FoldersApart(st, xs[j].dir, d);
      }
    }
  }

  /** Nothing lies inside two different record folders. */
  lemma FoldersApart(st: Storage, a: Path, b: Path)
    requires Parent(a) == Some(st.working) && Parent(b) == Some(st.working) && a != b
    ensures forall q :: StartsWith(q, a) ==> !StartsWith(q, b)
  {
    forall q ensures !(StartsWith(q, a) && StartsWith(q, b)) {
      SiblingsApart(a, b, st.working, q);
    }
  }
}
