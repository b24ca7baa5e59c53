/** The part of `std::fs` the storage engine uses (`exists`, `read_dir`, `create_dir`,
    `rename`, `copy`) over a filesystem held as a sequence of entries. The order of the
    sequence is the order in which `read_dir` yields a directory's children: entries are
    appended when created and keep their place when renamed. */
module Fs {
  import opened Errors
  import opened FsPath

  datatype Node = Dir | File(data: seq<bv8>)

  datatype Entry = Entry(path: Path, node: Node)

  /** What an operation returned, and the filesystem it left behind. */
  datatype Outcome<T> = Outcome(result: Result<T>, after: seq<Entry>)

  /** `path.exists()`; `/` always exists. */
  predicate Exists(es: seq<Entry>, p: Path) {
    p == FsRoot || exists i :: 0 <= i < |es| && es[i].path == p
  }

  /** `path.is_dir()` */
  predicate IsDir(es: seq<Entry>, p: Path) {
    p == FsRoot || exists i :: 0 <= i < |es| && es[i].path == p && es[i].node.Dir?
  }

  predicate ParentIsDir(es: seq<Entry>, p: Path) {
    p.comps != [] && IsDir(es, Parent(p).value)
  }

  /** The node stored at `p`, if any. */
  function NodeAt(es: seq<Entry>, p: Path): (r: Option<Node>)
    ensures r.Some? <==> Exists(es, p)
  {
    if p == FsRoot then Some(Dir)
    else if es == [] then None
    else if es[0].path == p then Some(es[0].node)
    else
      var r := NodeAt(es[1..], p);
      assert forall i :: 1 <= i < |es| ==> es[i] == es[1..][i - 1];
      r
  }

  ghost predicate Distinct(es: seq<Entry>) {
    forall i, j :: 0 <= i < j < |es| ==> es[i].path != es[j].path
  }

  /** A well-formed tree: no path twice, every entry absolute and inside a directory. */
  ghost predicate Valid(es: seq<Entry>) {
    && Distinct(es)
    && forall i :: 0 <= i < |es| ==> es[i].path.absolute && ParentIsDir(es, es[i].path)
  }

  lemma {:induction false} NodeAtEntry(es: seq<Entry>, i: nat)
    requires Distinct(es) && i < |es| && es[i].path != FsRoot
    ensures NodeAt(es, es[i].path) == Some(es[i].node)
  {
    if i > 0 {
      assert es[1..][i - 1] == es[i];
      NodeAtEntry(es[1..], i - 1);
    }
  }

  /** The paths of the entries directly inside `dir`, in entry order. */
  function Children(es: seq<Entry>, dir: Path): seq<Path> {
    if es == [] then []
    else (if Parent(es[0].path) == Some(dir) then [es[0].path] else []) + Children(es[1..], dir)
  }

  /** A directory lists exactly the paths of the entries directly inside it. */
  lemma {:induction false} ChildrenMembers(es: seq<Entry>, dir: Path)
    ensures forall p :: p in Children(es, dir) <==> exists i :: 0 <= i < |es| && es[i].path == p && Parent(p) == Some(dir)
  {
    if es != [] {
      ChildrenMembers(es[1..], dir);
      assert forall i :: 1 <= i < |es| ==> es[i] == es[1..][i - 1];
    }
  }

  /** `fs::read_dir(dir)` with every entry's path. */
  function ReadDir(es: seq<Entry>, dir: Path): (r: Result<seq<Path>>)
    ensures r.Ok? <==> IsDir(es, dir)
  {
    if IsDir(es, dir) then Ok(Children(es, dir)) else Err(Io)
  }

  /** `fs::create_dir(p)`: fails if `p` exists or its parent is not a directory. */
  function CreateDirSpec(es: seq<Entry>, p: Path): Outcome<()> {
    if p.absolute && !Exists(es, p) && ParentIsDir(es, p) then Outcome(Ok(()), es + [Entry(p, Dir)])
    else Outcome(Err(Io), es)
  }

  /** Where `q` ends up when the subtree at `from` is moved to `to`. */
  function Rebase(q: Path, from: Path, to: Path): Path {
    if StartsWith(q, from) then Path(to.absolute, to.comps + q.comps[|from.comps|..]) else q
  }

  function RebaseAll(es: seq<Entry>, from: Path, to: Path): (r: seq<Entry>)
    ensures |r| == |es|
    ensures forall i :: 0 <= i < |es| ==> r[i] == Entry(Rebase(es[i].path, from, to), es[i].node)
  {
    seq(|es|, i requires 0 <= i < |es| => Entry(Rebase(es[i].path, from, to), es[i].node))
  }

  /** When `fs::rename(from, to)` succeeds. Replacing an existing target is not modelled. */
  predicate CanRename(es: seq<Entry>, from: Path, to: Path) {
    && from.absolute && from != FsRoot && Exists(es, from)
    && to.absolute && !Exists(es, to) && ParentIsDir(es, to)
    && !StartsWith(to, from)
  }

  /** `fs::rename(from, to)`: moves the whole subtree. */
  function RenameSpec(es: seq<Entry>, from: Path, to: Path): Outcome<()> {
    if CanRename(es, from, to) then Outcome(Ok(()), RebaseAll(es, from, to))
    else Outcome(Err(Io), es)
  }

  /** `es` with `e` stored at `e.path`: replaced in place if that path exists, else appended. */
  function Put(es: seq<Entry>, e: Entry): seq<Entry> {
    if exists i :: 0 <= i < |es| && es[i].path == e.path then
      seq(|es|, i requires 0 <= i < |es| => if es[i].path == e.path then e else es[i])
    else es + [e]
  }

  /** `fs::copy(from, to)`: the source must be a file, the target must not be a directory. */
  function CopySpec(es: seq<Entry>, from: Path, to: Path): Outcome<()> {
    var src := NodeAt(es, from);
    if src.Some? && src.value.File? && to.absolute && ParentIsDir(es, to) && !IsDir(es, to) then
      Outcome(Ok(()), Put(es, Entry(to, src.value)))
    else Outcome(Err(Io), es)
  }

  /** The filesystem the engine works on. */
  class FileSystem {
    var entries: seq<Entry>

    constructor (es: seq<Entry>)
      ensures entries == es
    {
      entries := es;
    }

    method CreateDir(p: Path) returns (r: Result<()>)
      modifies this
      ensures Outcome(r, entries) == CreateDirSpec(old(entries), p)
    {
      var o := CreateDirSpec(entries, p);
      r, entries := o.result, o.after;
    }

    method Rename(from: Path, to: Path) returns (r: Result<()>)
      modifies this
      ensures Outcome(r, entries) == RenameSpec(old(entries), from, to)
    {
      var o := RenameSpec(entries, from, to);
      r, entries := o.result, o.after;
    }

    method Copy(from: Path, to: Path) returns (r: Result<()>)
      modifies this
      ensures Outcome(r, entries) == CopySpec(old(entries), from, to)
    {
      var o := CopySpec(entries, from, to);
      r, entries := o.result, o.after;
    }
  }

  // ----- Properties of the filesystem model -----

  /** In a valid tree every ancestor of an entry exists. */
  lemma {:induction false} AncestorExists(es: seq<Entry>, p: Path, i: nat)
    requires Valid(es) && p.absolute && i < |es|
    ensures StartsWith(es[i].path, p) ==> Exists(es, p)
    decreases |es[i].path.comps|
  {
    var q := es[i].path;
    if StartsWith(q, p) && q != p {
      var pp := Parent(q).value;
      assert p.comps <= pp.comps by {
        assert q.comps[..|p.comps|] == p.comps && p.comps != q.comps;
        assert pp.comps == q.comps[..|q.comps| - 1];
      }
      if pp != p {
        var j :| 0 <= j < |es| && es[j].path == pp && es[j].node.Dir?;
        AncestorExists(es, p, j);
      }
    }
  }

  /** Nothing lies inside a path that does not exist. */
  lemma NothingUnderMissing(es: seq<Entry>, p: Path)
    requires Valid(es) && p.absolute && !Exists(es, p)
    ensures forall i :: 0 <= i < |es| ==> !StartsWith(es[i].path, p)
  {
    forall i | 0 <= i < |es| ensures !StartsWith(es[i].path, p) {
      AncestorExists(es, p, i);
    }
  }

  lemma CreateDirKeepsValid(es: seq<Entry>, p: Path)
    requires Valid(es) && CreateDirSpec(es, p).result.Ok?
    ensures Valid(CreateDirSpec(es, p).after)
    ensures CreateDirSpec(es, p).after == es + [Entry(p, Dir)]
  {
    var es' := es + [Entry(p, Dir)];
    forall i | 0 <= i < |es'| ensures ParentIsDir(es', es'[i].path) {
      var q := es'[i].path;
      var pp := Parent(q).value;
      if pp != FsRoot {
        var j :| 0 <= j < |es| && es[j].path == pp && es[j].node.Dir?;
        assert es'[j] == es[j];
      }
    }
  }

  /** Every directory of `es` is still at its index in `es'`. */
  lemma DirsKept(es: seq<Entry>, es': seq<Entry>)
    requires |es| <= |es'|
    requires forall j :: 0 <= j < |es| && es[j].node.Dir? ==> es'[j] == es[j]
    ensures forall x :: IsDir(es, x) ==> IsDir(es', x)
  {
    forall x | IsDir(es, x) ensures IsDir(es', x) {
      if x != FsRoot {
        var j :| 0 <= j < |es| && es[j].path == x && es[j].node.Dir?;
        assert es'[j] == es[j];
      }
    }
  }

  lemma PutKeepsValid(es: seq<Entry>, e: Entry)
    requires Valid(es) && e.path.absolute && ParentIsDir(es, e.path) && !IsDir(es, e.path)
    ensures Valid(Put(es, e))
  {
    if exists i :: 0 <= i < |es| && es[i].path == e.path {
      ReplaceKeepsValid(es, e);
    } else {
      AppendKeepsValid(es, e);
    }
  }

  lemma ReplaceKeepsValid(es: seq<Entry>, e: Entry)
    requires Valid(es) && !IsDir(es, e.path)
    requires exists i :: 0 <= i < |es| && es[i].path == e.path
    ensures Valid(Put(es, e))
  {
    var es' := seq(|es|, i requires 0 <= i < |es| => if es[i].path == e.path then e else es[i]);
    assert Put(es, e) == es';
    assert forall i :: 0 <= i < |es| ==> es'[i].path == es[i].path;
    assert Distinct(es');
    DirsKept(es, es');
    forall i | 0 <= i < |es'| ensures es'[i].path.absolute && ParentIsDir(es', es'[i].path) {
      assert ParentIsDir(es, es[i].path);
    }
  }

  lemma AppendKeepsValid(es: seq<Entry>, e: Entry)
    requires Valid(es) && e.path.absolute && ParentIsDir(es, e.path)
    requires !exists i :: 0 <= i < |es| && es[i].path == e.path
    ensures Valid(Put(es, e))
  {
    var es' := es + [e];
    assert Put(es, e) == es';
    assert Distinct(es');
    DirsKept(es, es');
    forall i | 0 <= i < |es'| ensures es'[i].path.absolute && ParentIsDir(es', es'[i].path) {
      if i < |es| {
        assert es'[i] == es[i];
      }
    }
  }

  lemma CopyKeepsValid(es: seq<Entry>, from: Path, to: Path)
    requires Valid(es) && CopySpec(es, from, to).result.Ok?
    ensures Valid(CopySpec(es, from, to).after)
  {
    PutKeepsValid(es, Entry(to, NodeAt(es, from).value));
  }

  lemma RebaseUnder(q: Path, from: Path, to: Path)
    requires StartsWith(q, from) && from.absolute && to.absolute
    ensures StartsWith(Rebase(q, from, to), to)
    ensures Rebase(Rebase(q, from, to), to, from) == q
    ensures |Rebase(q, from, to).comps| - |to.comps| == |q.comps| - |from.comps|
  {
    var r := Rebase(q, from, to);
    assert r.comps[|to.comps|..] == q.comps[|from.comps|..];
    assert from.comps + q.comps[|from.comps|..] == q.comps;
  }

  lemma RebaseInjective(q1: Path, q2: Path, from: Path, to: Path)
    requires StartsWith(q1, from) && StartsWith(q2, from) && from.absolute && to.absolute
    ensures Rebase(q1, from, to) == Rebase(q2, from, to) ==> q1 == q2
  {
    RebaseUnder(q1, from, to);
    RebaseUnder(q2, from, to);
  }

  /** The parent of a moved path is the moved parent. */
  lemma RebaseParent(q: Path, from: Path, to: Path)
    requires StartsWith(q, from) && q != from && from.absolute && to.absolute
    ensures Parent(q).Some? && StartsWith(Parent(q).value, from)
    ensures Parent(Rebase(q, from, to)) == Some(Rebase(Parent(q).value, from, to))
  {
    assert |q.comps| > |from.comps| by {
      assert q.comps[..|from.comps|] == from.comps && q.comps != from.comps;
    }
    var pq := Parent(q).value;
    assert pq.comps == q.comps[..|q.comps| - 1];
    assert from.comps <= pq.comps;
    var r := Rebase(q, from, to);
    assert r.comps[..|r.comps| - 1] == to.comps + pq.comps[|from.comps|..];
  }

  lemma StartsWithParent(q: Path, from: Path)
    requires q.comps != [] && StartsWith(Parent(q).value, from)
    ensures StartsWith(q, from)
  {
    assert Parent(q).value.comps <= q.comps;
  }

  /** Renaming keeps the tree well formed. */
  lemma RenameKeepsValid(es: seq<Entry>, from: Path, to: Path)
    requires Valid(es) && CanRename(es, from, to)
    ensures Valid(RebaseAll(es, from, to))
  {
    var es' := RebaseAll(es, from, to);
    NothingUnderMissing(es, to);
    forall i, j | 0 <= i < j < |es'| ensures es'[i].path != es'[j].path {
      var a, b := es[i].path, es[j].path;
      if StartsWith(a, from) {
        RebaseUnder(a, from, to);
        if StartsWith(b, from) {
          RebaseInjective(a, b, from, to);
        }
      } else if StartsWith(b, from) {
        RebaseUnder(b, from, to);
      }
    }
    var ptoDir := Parent(to).value;
    assert !StartsWith(ptoDir, from) by {
      if StartsWith(ptoDir, from) {
        StartsWithParent(to, from);
      }
    }
    forall i | 0 <= i < |es'| ensures es'[i].path.absolute && ParentIsDir(es', es'[i].path) {
      var q := es[i].path;
      var pq := Parent(q).value;
      if StartsWith(q, from) {
        if q == from {
          assert es'[i].path == to by {
            assert q.comps[|from.comps|..] == [];
          }
          if ptoDir != FsRoot {
            var k :| 0 <= k < |es| && es[k].path == ptoDir && es[k].node.Dir?;
            assert es'[k].path == ptoDir;
          }
        } else {
          RebaseParent(q, from, to);
          var k :| 0 <= k < |es| && es[k].path == pq && es[k].node.Dir?;
          assert es'[k].path == Parent(es'[i].path).value;
        }
      } else {
        assert !StartsWith(pq, from) by {
          if StartsWith(pq, from) {
            StartsWithParent(q, from);
          }
        }
        if pq != FsRoot {
          var k :| 0 <= k < |es| && es[k].path == pq && es[k].node.Dir?;
          assert es'[k].path == pq;
        }
      }
    }
  }

  /** After a rename the source is gone, the target exists with the source's node, and
      every path outside both subtrees exists exactly when it did before. */
  lemma RenameMoves(es: seq<Entry>, from: Path, to: Path)
    requires Valid(es) && CanRename(es, from, to)
    ensures var es' := RebaseAll(es, from, to);
      && !Exists(es', from) && Exists(es', to)
      && NodeAt(es', to) == NodeAt(es, from)
      && (forall q :: !StartsWith(q, from) && !StartsWith(q, to) ==> (Exists(es', q) <==> Exists(es, q)))
      && (forall q :: !StartsWith(q, from) && !StartsWith(q, to) ==> NodeAt(es', q) == NodeAt(es, q))
      && (forall q :: StartsWith(q, from) ==> NodeAt(es', Rebase(q, from, to)) == NodeAt(es, q))
  {
    var es' := RebaseAll(es, from, to);
    NothingUnderMissing(es, to);
    RenameKeepsValid(es, from, to);
    RenameKeepsOutside(es, from, to);
    RenameCarriesInside(es, from, to);
    var k :| 0 <= k < |es| && es[k].path == from;
    assert es'[k].path == to by {
      assert from.comps[|from.comps|..] == [];
    }
    NodeAtEntry(es, k);
    NodeAtEntry(es', k);
    assert !StartsWith(from, to);
    forall i | 0 <= i < |es'| ensures es'[i].path != from {
      if StartsWith(es[i].path, from) {
        RebaseUnder(es[i].path, from, to);
      }
    }
    forall q | !StartsWith(q, from) && !StartsWith(q, to) && Exists(es', q) ensures Exists(es, q) {
      if q != FsRoot {
        var i :| 0 <= i < |es'| && es'[i].path == q;
        if StartsWith(es[i].path, from) {
          RebaseUnder(es[i].path, from, to);
        }
      }
    }
    forall q | !StartsWith(q, from) && !StartsWith(q, to) && Exists(es, q) ensures Exists(es', q) {
      if q != FsRoot {
        var i :| 0 <= i < |es| && es[i].path == q;
        assert es'[i].path == q;
      }
    }
  }

  /** A rename leaves what is stored outside both folders as it was. */
  lemma RenameKeepsOutside(es: seq<Entry>, from: Path, to: Path)
    requires Valid(es) && CanRename(es, from, to)
    ensures var es' := RebaseAll(es, from, to);
      forall q :: !StartsWith(q, from) && !StartsWith(q, to) ==> NodeAt(es', q) == NodeAt(es, q)
  {
    RenameKeepsValid(es, from, to);
    forall q | !StartsWith(q, from) && !StartsWith(q, to) ensures NodeAt(RebaseAll(es, from, to), q) == NodeAt(es, q) {
      KeptOutside(es, from, to, q);
    }
  }

  lemma KeptOutside(es: seq<Entry>, from: Path, to: Path, q: Path)
    requires Distinct(es) && Distinct(RebaseAll(es, from, to)) && from.absolute && to.absolute
    requires !StartsWith(q, from) && !StartsWith(q, to)
    ensures NodeAt(RebaseAll(es, from, to), q) == NodeAt(es, q)
  {
    var es' := RebaseAll(es, from, to);
    if q != FsRoot {
      if i :| 0 <= i < |es| && es[i].path == q {
        assert es'[i].path == q;
        NodeAtEntry(es, i);
        NodeAtEntry(es', i);
      } else if i :| 0 <= i < |es'| && es'[i].path == q {
        if StartsWith(es[i].path, from) {
          RebaseUnder(es[i].path, from, to);
        }
        assert false;
      }
    }
  }

  /** A rename carries what is stored inside the folder to the same place inside its
      new name. */
  lemma RenameCarriesInside(es: seq<Entry>, from: Path, to: Path)
    requires Valid(es) && CanRename(es, from, to)
    ensures var es' := RebaseAll(es, from, to);
      forall q :: StartsWith(q, from) ==> NodeAt(es', Rebase(q, from, to)) == NodeAt(es, q)
  {
    RenameKeepsValid(es, from, to);
    NothingUnderMissing(es, to);
    assert from != FsRoot && to != FsRoot;
    forall q | StartsWith(q, from) ensures NodeAt(RebaseAll(es, from, to), Rebase(q, from, to)) == NodeAt(es, q) {
      CarriedInside(es, from, to, q);
    }
  }

  lemma CarriedInside(es: seq<Entry>, from: Path, to: Path, q: Path)
    requires Distinct(es) && Distinct(RebaseAll(es, from, to)) && from.absolute && to.absolute
    requires from != FsRoot && to != FsRoot
    requires forall i :: 0 <= i < |es| ==> !StartsWith(es[i].path, to)
    requires StartsWith(q, from)
    ensures NodeAt(RebaseAll(es, from, to), Rebase(q, from, to)) == NodeAt(es, q)
  {
    var es' := RebaseAll(es, from, to);
    var r := Rebase(q, from, to);
    RebaseUnder(q, from, to);
    if i :| 0 <= i < |es| && es[i].path == q {
      CarriedEntry(es, from, to, i);
    } else {
      NotCarried(es, from, to, q);
    }
  }

  /** An entry inside the folder keeps its node at its new path. */
  lemma CarriedEntry(es: seq<Entry>, from: Path, to: Path, i: nat)
    requires Distinct(es) && Distinct(RebaseAll(es, from, to)) && i < |es|
    requires StartsWith(es[i].path, from) && es[i].path != FsRoot && Rebase(es[i].path, from, to) != FsRoot
    ensures NodeAt(RebaseAll(es, from, to), Rebase(es[i].path, from, to)) == NodeAt(es, es[i].path)
  {
    NodeAtEntry(es, i);
    NodeAtEntry(RebaseAll(es, from, to), i);
  }

  /** Nothing arrives inside the new name that was not inside the folder. */
  lemma NotCarried(es: seq<Entry>, from: Path, to: Path, q: Path)
    requires from.absolute && to.absolute && to != FsRoot && StartsWith(q, from)
    requires forall i :: 0 <= i < |es| ==> !StartsWith(es[i].path, to) && es[i].path != q
    ensures !Exists(RebaseAll(es, from, to), Rebase(q, from, to))
  {
    var es' := RebaseAll(es, from, to);
    var r := Rebase(q, from, to);
    RebaseUnder(q, from, to);
    forall i | 0 <= i < |es'| ensures es'[i].path != r {
      if StartsWith(es[i].path, from) {
        RebaseInjective(es[i].path, q, from, to);
      }
    }
  }

  /** Renaming back undoes a rename exactly, down to the order of the entries. */
  lemma RenameInverse(es: seq<Entry>, from: Path, to: Path)
    requires Valid(es) && CanRename(es, from, to)
    ensures RebaseAll(RebaseAll(es, from, to), to, from) == es
  {
    var es2 := RebaseAll(RebaseAll(es, from, to), to, from);
    NothingUnderMissing(es, to);
    forall i | 0 <= i < |es| ensures es2[i] == es[i] {
      if StartsWith(es[i].path, from) {
        RebaseUnder(es[i].path, from, to);
      }
    }
  }

  /** Listing a directory of two stretches of entries lists the first, then the second. */
  lemma {:induction false} ChildrenAppend(a: seq<Entry>, b: seq<Entry>, dir: Path)
    ensures Children(a + b, dir) == Children(a, dir) + Children(b, dir)
  {
    if a == [] {
      assert a + b == b;
    } else {
      assert (a + b)[1..] == a[1..] + b;
      ChildrenAppend(a[1..], b, dir);
      var head := if Parent(a[0].path) == Some(dir) then [a[0].path] else [];
      assert Children(a + b, dir) == head + (Children(a[1..], dir) + Children(b, dir));
    }
  }

  /** A directory with no entry directly inside it lists nothing. */
  lemma ChildrenEmpty(es: seq<Entry>, dir: Path)
    requires forall i :: 0 <= i < |es| ==> Parent(es[i].path) != Some(dir)
    ensures Children(es, dir) == []
  {
    ChildrenMembers(es, dir);
    if Children(es, dir) != [] {
      assert Children(es, dir)[0] in Children(es, dir);
    }
  }

  function RebasePaths(ps: seq<Path>, from: Path, to: Path): (r: seq<Path>)
    ensures |r| == |ps| && forall i :: 0 <= i < |ps| ==> r[i] == Rebase(ps[i], from, to)
  {
    seq(|ps|, i requires 0 <= i < |ps| => Rebase(ps[i], from, to))
  }

  /** After moving `from` to a fresh `to`, the children of `to` are the moved children of
      `from`, in the same order. */
  lemma {:induction false} ChildrenRebased(es: seq<Entry>, from: Path, to: Path)
    requires from.absolute && to.absolute
    requires forall i :: 0 <= i < |es| ==> !StartsWith(es[i].path, to)
    ensures Children(RebaseAll(es, from, to), to) == RebasePaths(Children(es, from), from, to)
  {
    if es != [] {
      RebaseAllTail(es, from, to);
      ChildrenRebased(es[1..], from, to);
      var q := es[0].path;
      ParentRebased(q, from, to);
      var head := if Parent(q) == Some(from) then [q] else [];
      RebasePathsConcat(head, Children(es[1..], from), from, to);
      var es' := RebaseAll(es, from, to);
      assert Children(es', to) == RebasePaths(head, from, to) + Children(es'[1..], to);
    }
  }

  lemma RebaseAllTail(es: seq<Entry>, from: Path, to: Path)
    requires es != []
    ensures RebaseAll(es, from, to)[1..] == RebaseAll(es[1..], from, to)
    ensures RebaseAll(es, from, to)[0].path == Rebase(es[0].path, from, to)
  {
  }

  /** A path outside `to` lands directly in `to` exactly when it was directly in `from`. */
  lemma ParentRebased(q: Path, from: Path, to: Path)
    requires from.absolute && to.absolute && !StartsWith(q, to)
    ensures (Parent(Rebase(q, from, to)) == Some(to)) == (Parent(q) == Some(from))
  {
    if StartsWith(q, from) {
      if Parent(q) == Some(from) {
        assert q.comps[|from.comps|..] == [q.comps[|q.comps| - 1]];
      }
      if Parent(Rebase(q, from, to)) == Some(to) {
        assert |q.comps| == |from.comps| + 1;
        assert q.comps == from.comps + [q.comps[|q.comps| - 1]];
      }
    } else {
      assert Parent(q) != Some(from);
      assert Parent(q) != Some(to);
    }
  }

  lemma RebasePathsConcat(a: seq<Path>, b: seq<Path>, from: Path, to: Path)
    ensures RebasePaths(a + b, from, to) == RebasePaths(a, from, to) + RebasePaths(b, from, to)
  {
    assert |RebasePaths(a + b, from, to)| == |a + b|;
  }

  /** Moving a path strictly inside `from` keeps its file name. */
  lemma FileNameRebased(q: Path, from: Path, to: Path)
    requires Parent(q) == Some(from)
    ensures FileName(Rebase(q, from, to)) == FileName(q)
  {
    assert q.comps[|from.comps|..] == [q.comps[|q.comps| - 1]];
  }

  /** Storing a file at a new path appends it. */
  lemma PutNew(es: seq<Entry>, e: Entry)
    requires forall i :: 0 <= i < |es| ==> es[i].path != e.path
    ensures Put(es, e) == es + [e]
  {
  }

  /** Storing a file over anything but a directory makes its path exist and keeps every
      directory in place. */
  lemma PutStores(es: seq<Entry>, e: Entry)
    requires !IsDir(es, e.path)
    ensures Exists(Put(es, e), e.path)
    ensures forall k :: 0 <= k < |es| && es[k].node.Dir? ==> Put(es, e)[k] == es[k]
  {
    if exists i :: 0 <= i < |es| && es[i].path == e.path {
      var i :| 0 <= i < |es| && es[i].path == e.path;
      assert Put(es, e)[i] == e;
    } else {
      assert Put(es, e)[|es|] == e;
    }
  }

  /** Appending an entry does not change what is stored at other paths. */
  lemma {:induction false} NodeAtAppend(es: seq<Entry>, e: Entry, q: Path)
    requires q != e.path
    ensures NodeAt(es + [e], q) == NodeAt(es, q)
  {
    if q != FsRoot && es != [] {
      assert (es + [e])[1..] == es[1..] + [e];
      NodeAtAppend(es[1..], e, q);
    }
  }

  /** Storing a file after creating a directory keeps that directory and makes the file
      exist. */
  lemma StoreInNewDir(es: seq<Entry>, dir: Path, e: Entry)
    requires !IsDir(es + [Entry(dir, Dir)], e.path)
    ensures IsDir(Put(es + [Entry(dir, Dir)], e), dir)
    ensures Exists(Put(es + [Entry(dir, Dir)], e), e.path)
  {
    var es1 := es + [Entry(dir, Dir)];
    PutStores(es1, e);
    assert es1[|es|] == Entry(dir, Dir);
    assert Put(es1, e)[|es|] == es1[|es|];
  }
}
