/** Archiving a record and unarchiving it again: the folder comes back to where it was,
    found under the same name, and the filesystem is as it was once the year's partition
    exists. */
module RoundTrip {
  import opened Errors
  import opened FsPath
  import opened Numbers
  import opened Fs
  import opened Layout
  import opened Listing
  import opened Search
  import opened Archiving
  import opened Unarchiving

  /** Every path of `ps` sits directly in `dir`. */
  predicate AllIn(ps: seq<Path>, dir: Path) {
    forall p :: p in ps ==> Parent(p) == Some(dir)
  }

  /** Moving a folder's children keeps which of them are dot files. */
  lemma {:induction false} VisibleRebased(ps: seq<Path>, from: Path, to: Path)
    requires AllIn(ps, from)
    ensures Visible(RebasePaths(ps, from, to)) == RebasePaths(Visible(ps), from, to)
  {
    if ps != [] {
      RebasePathsTail(ps, from, to);
      AllInTail(ps, from);
      VisibleRebased(ps[1..], from, to);
      FileNameRebased(ps[0], from, to);
      var head := if IsDotFile(ps[0]) then [] else [ps[0]];
      RebasePathsConcat(head, Visible(ps[1..]), from, to);
    }
  }

  lemma RebasePathsTail(ps: seq<Path>, from: Path, to: Path)
    requires ps != []
    ensures RebasePaths(ps, from, to)[1..] == RebasePaths(ps[1..], from, to)
  {
  }

  lemma AllInTail(ps: seq<Path>, dir: Path)
    requires ps != [] && AllIn(ps, dir)
    ensures AllIn(ps[1..], dir) && Parent(ps[0]) == Some(dir)
  {
    forall p | p in ps[1..] ensures p in ps { }
  }

  /** Moving a folder's children keeps which of them is the first with an extension. */
  lemma {:induction false} FirstWithExtensionRebased(ps: seq<Path>, ext: string, from: Path, to: Path)
    requires AllIn(ps, from)
    ensures FirstWithExtension(RebasePaths(ps, from, to), ext) == FirstWithExtension(ps, ext)
  {
    if ps != [] {
      FileNameRebased(ps[0], from, to);
      assert RebasePaths(ps, from, to)[1..] == RebasePaths(ps[1..], from, to);
      FirstWithExtensionRebased(ps[1..], ext, from, to);
    }
  }

  /** A folder moved to a fresh place keeps its record file, and so its name. */
  lemma ProjectNameMoves(es: seq<Entry>, ext: string, from: Path, to: Path)
    requires from.absolute && to.absolute
    requires forall i :: 0 <= i < |es| ==> !StartsWith(es[i].path, to)
    requires IsDir(RebaseAll(es, from, to), to)
    requires GetProjectName(es, ext, from).Ok?
    ensures GetProjectName(RebaseAll(es, from, to), ext, to) == GetProjectName(es, ext, from)
  {
    var es' := RebaseAll(es, from, to);
    var ps := Children(es, from);
    ChildrenRebased(es, from, to);
    ChildrenMembers(es, from);
    VisibleRebased(ps, from, to);
    var vs := Visible(ps);
    FirstWithExtensionRebased(vs, ext, from, to);
    var k := FirstWithExtension(vs, ext).value;
    assert vs[k] in ps;
    FileNameRebased(vs[k], from, to);
    assert ListPathContent(es', to) == Ok(RebasePaths(vs, from, to));
  }

  /** A new directory elsewhere does not change what a folder holds. */
  lemma ProjectNameAfterNewDir(es: seq<Entry>, ext: string, dir: Path, p: Path)
    requires Parent(p) != Some(dir) && IsDir(es, dir)
    ensures GetProjectName(es + [Entry(p, Node.Dir)], ext, dir) == GetProjectName(es, ext, dir)
  {
    var e := Entry(p, Node.Dir);
    var es' := es + [e];
    ChildrenAppend(es, [e], dir);
    assert [e][1..] == [];
    assert Children([e], dir) == [];
    assert Children(es', dir) == Children(es, dir) + [] == Children(es, dir);
    assert IsDir(es', dir) by {
      if dir != FsRoot {
        var i :| 0 <= i < |es| && es[i].path == dir && es[i].node.Dir?;
        assert es'[i] == es[i];
      }
    }
    assert ReadDir(es', dir) == ReadDir(es, dir);
    assert ListPathContent(es', dir) == ListPathContent(es, dir);
    assert GetProjectFile(es', ext, dir) == GetProjectFile(es, ext, dir);
  }

  /** Creating the partition of `year` does not change what a folder outside the archive
      holds. */
  lemma PartitionKeepsName(st: Storage, es: seq<Entry>, ext: string, dir: Path, year: Year)
    requires Exists(es, st.archive) && IsDir(es, dir) && dir != st.archive
    ensures GetProjectName(CreateArchiveSpec(st, es, year).after, ext, dir) == GetProjectName(es, ext, dir)
  {
    var p := Partition(st, year);
    PartitionIsChild(st, year);
    if !Exists(es, p) && CreateDirSpec(es, p).result.Ok? {
      assert CreateArchiveSpec(st, es, year).after == es + [Entry(p, Node.Dir)];
      ProjectNameAfterNewDir(es, ext, dir, p);
    }
  }

  /** A directory renamed to `to` is a directory there. */
  lemma MovedDirIsDir(es: seq<Entry>, es1: seq<Entry>, from: Path, to: Path)
    requires Valid(es) && Valid(es1) && CanRename(es1, from, to)
    requires IsDir(es, from) && from != FsRoot && NodeAt(es1, from) == NodeAt(es, from)
    ensures IsDir(RebaseAll(es1, from, to), to)
  {
    var i :| 0 <= i < |es| && es[i].path == from && es[i].node.Dir?;
    NodeAtEntry(es, i);
    RenameMoves(es1, from, to);
    assert to != FsRoot;
    NodeAtFound(RebaseAll(es1, from, to), to, Node.Dir);
  }

  /** The node `NodeAt` finds is stored in an entry. */
  lemma {:induction false} NodeAtFound(es: seq<Entry>, p: Path, n: Node)
    requires p != FsRoot && NodeAt(es, p) == Some(n)
    ensures exists i :: 0 <= i < |es| && es[i] == Entry(p, n)
  {
    if es[0].path != p {
      NodeAtFound(es[1..], p, n);
      var j :| 0 <= j < |es[1..]| && es[1..][j] == Entry(p, n);
      assert es[j + 1] == Entry(p, n);
    } else {
      assert es[0] == Entry(p, n);
    }
  }

  /** The partition of `year`, and an archive name in it, as components. */
  lemma TargetInArchive(st: Storage, x: Record, year: Year)
    requires WellFormed(st) && IsComponent(ArchiveName(x)) && ArchiveName(x) != ".."
    ensures InArchive(st, ArchiveTarget(st, x, year))
    ensures ArchiveTarget(st, x, year).absolute
    ensures |ArchiveTarget(st, x, year).comps| == |st.root.comps| + 3
    ensures Parent(Partition(st, year)) == Some(st.archive)
  {
    var p := Partition(st, year);
    var t := ArchiveTarget(st, x, year);
    PartitionIsChild(st, year);
    IntToStringIsPlain(year);
    JoinComponent(st.archive, IntToString(year));
    JoinComponent(p, ArchiveName(x));
    ParseI32OfIntToString(year);
    StartsWithTrans(t, p, st.archive);
    assert |t.comps| == |st.archive.comps| + 2;
  }

  /** After archiving, the folder can be renamed back: its old place is free and still
      inside the working directory, which is still a directory. */
  lemma ReturnIsPossible(st: Storage, es1: seq<Entry>, dir: Path, target: Path, name: string)
    requires Valid(es1) && WellFormed(st) && CanRename(es1, dir, target)
    requires IsComponent(name) && name != ".." && dir == Join(st.working, name)
    requires target.absolute && |target.comps| == |st.root.comps| + 3
    ensures CanRename(RebaseAll(es1, dir, target), target, dir)
  {
    var es2 := RebaseAll(es1, dir, target);
    RenameMoves(es1, dir, target);
    JoinComponent(st.working, name);
    assert |dir.comps| == |st.root.comps| + 2;
    assert IsDir(es2, st.working) by {
      if st.working != FsRoot {
        var k :| 0 <= k < |es1| && es1[k].path == dir;
        assert ParentIsDir(es1, dir);
        var i :| 0 <= i < |es1| && es1[i].path == st.working && es1[i].node.Dir?;
        assert !StartsWith(st.working, dir);
        assert es2[i] == es1[i];
      }
    }
  }

  /** Unarchiving what was just archived brings the folder back: the same name is found
      in the archived folder, the working place is free, and renaming back restores the
      filesystem, except for the partition archiving created. */
  lemma ArchiveThenUnarchive(st: Storage, es: seq<Entry>, ext: string, x: Record, year: Year, name: string)
    requires Valid(es) && WellFormed(st) && IsDir(es, st.archive)
    requires IsComponent(ArchiveName(x)) && ArchiveName(x) != ".."
    requires IsComponent(name) && name != ".." && x.dir == Join(st.working, name)
    requires GetProjectName(es, ext, x.dir) == Ok(name)
    requires ArchiveProjectSpec(st, es, x, year).result.Ok?
    ensures UnarchiveProjectDirSpec(st, ArchiveProjectSpec(st, es, x, year).after, ext, ArchiveTarget(st, x, year))
      == Outcome(Ok(x.dir), CreateArchiveSpec(st, es, year).after)
  {
    var target := ArchiveTarget(st, x, year);
    var es1 := CreateArchiveSpec(st, es, year).after;
    var es2 := ArchiveProjectSpec(st, es, x, year).after;
    var an := ArchiveName(x);
    assert Relative(an) by {
      assert an[0] in an;
    }
    PartitionStep(st, es, x, year);
    assert es2 == RebaseAll(es1, x.dir, target);
    TargetInArchive(st, x, year);
    JoinComponent(st.working, name);
    assert IsDir(es, x.dir);
    assert |x.dir.comps| == |st.root.comps| + 2;
    PartitionKeepsName(st, es, ext, x.dir, year);
    MovedDirIsDir(es, es1, x.dir, target);
    NothingUnderMissing(es1, target);
    ProjectNameMoves(es1, ext, x.dir, target);
    RenameMoves(es1, x.dir, target);
    ReturnIsPossible(st, es1, x.dir, target, name);
    RenameInverse(es1, x.dir, target);
  }
}
