/** Opening records and searching them: the record type's hooks, `open_paths`,
    `open_projects`, the stable sort by index and the term filter of `search_projects`. */
module Search {
  import opened Errors
  import opened FsPath
  import opened Numbers
  import opened Fs
  import opened Layout
  import opened Listing

  /** A record (`L: Storable`) through the members the storage reads. */
  datatype Record = Record(
    ident: string,
    prefix: Option<string>,
    dir: Path,
    index: Option<string>,
    year: Option<Year>,
    readyForArchive: bool)

  /** What the record type itself provides: its file extension, how it opens a folder or
      a file, how it matches a search term, and the `filter_by_key_val` test of its list. */
  datatype RecordType = RecordType(
    extension: string,
    openFolder: (seq<Entry>, Path) -> Result<Record>,
    openFile: (seq<Entry>, Path) -> Result<Record>,
    matchesSearch: (Record, string) -> bool,
    hasKeyVal: (Record, string, string) -> bool)

  // ----- Opening -----

  /** `Storage::open_project`: a directory is opened as a folder, anything else as a file.
      The path must exist (its metadata is unwrapped). */
  function OpenProject(es: seq<Entry>, rt: RecordType, p: Path): (r: Result<Record>)
    requires Exists(es, p)
    ensures IsDir(es, p) ==> r == rt.openFolder(es, p)
    ensures !IsDir(es, p) ==> r == rt.openFile(es, p)
  {
    if IsDir(es, p) then rt.openFolder(es, p) else rt.openFile(es, p)
  }

  predicate AllExist(es: seq<Entry>, paths: seq<Path>) {
    forall p :: p in paths ==> Exists(es, p)
  }

  /** `Storage::open_paths` without the git status pass: the records that open, in path
      order; the others are dropped. */
  function OpenPaths(es: seq<Entry>, rt: RecordType, paths: seq<Path>): (r: seq<Record>)
    requires AllExist(es, paths)
    ensures |r| <= |paths|
    ensures forall x :: x in r ==> exists p :: p in paths && OpenProject(es, rt, p) == Ok(x)
    ensures forall p :: p in paths && OpenProject(es, rt, p).Ok? ==> OpenProject(es, rt, p).value in r
  {
    if paths == [] then []
    else
      var rest := OpenPaths(es, rt, paths[1..]);
      assert forall p :: p in paths <==> p == paths[0] || p in paths[1..];
      match OpenProject(es, rt, paths[0])
      case Ok(x) => [x] + rest
      case Err(_) => rest
  }

  /** `ProjectList::filter_by_key_val(key, val)` */
  function FilterByKeyVal(rt: RecordType, rs: seq<Record>, key: string, val: string): (r: seq<Record>)
    ensures forall x :: x in r <==> x in rs && rt.hasKeyVal(x, key, val)
  {
    if rs == [] then []
    else (if rt.hasKeyVal(rs[0], key, val) then [rs[0]] else []) + FilterByKeyVal(rt, rs[1..], key, val)
  }

  /** Opening two runs of paths one after the other yields the records of the first run
      followed by those of the second: the records keep the order of their paths, and
      each path yields at most one record. */
  lemma {:induction false} OpenPathsConcat(es: seq<Entry>, rt: RecordType, a: seq<Path>, b: seq<Path>)
    requires AllExist(es, a + b)
    ensures AllExist(es, a) && AllExist(es, b)
    ensures OpenPaths(es, rt, a + b) == OpenPaths(es, rt, a) + OpenPaths(es, rt, b)
    decreases |a|
  {
    AllExistSplit(es, a, b);
    if a == [] {
      assert a + b == b;
    } else {
      assert (a + b)[1..] == a[1..] + b;
      AllExistSplit(es, a[1..], b);
      OpenPathsConcat(es, rt, a[1..], b);
    }
  }

  lemma AllExistSplit(es: seq<Entry>, a: seq<Path>, b: seq<Path>)
    ensures AllExist(es, a + b) <==> AllExist(es, a) && AllExist(es, b)
  {
    assert forall p :: p in a + b <==> p in a || p in b;
  }

  /** Filtering two runs of records one after the other filters each in turn, in order. */
  lemma {:induction false} FilterByKeyValConcat(rt: RecordType, a: seq<Record>, b: seq<Record>, key: string, val: string)
    ensures FilterByKeyVal(rt, a + b, key, val) == FilterByKeyVal(rt, a, key, val) + FilterByKeyVal(rt, b, key, val)
    decreases |a|
  {
    if a != [] {
      assert (a + b)[1..] == a[1..] + b;
      FilterByKeyValConcat(rt, a[1..], b, key, val);
    } else {
      assert a + b == b;
    }
  }

  /** Records that all pass the test are kept as they are, order and repeats included. */
  lemma {:induction false} FilterByKeyValKeepsAll(rt: RecordType, rs: seq<Record>, key: string, val: string)
    requires forall i :: 0 <= i < |rs| ==> rt.hasKeyVal(rs[i], key, val)
    ensures FilterByKeyVal(rt, rs, key, val) == rs
    decreases |rs|
  {
    if rs != [] {
      FilterByKeyValKeepsAll(rt, rs[1..], key, val);
    }
  }

  /** The records of the folders `list_project_folders(dir)` yields. */
  function OpenListed(st: Storage, es: seq<Entry>, rt: RecordType, dir: StorageDir): (r: Result<seq<Record>>)
    ensures r.Ok? <==> ListProjectFoldersSpec(st, es, dir).Ok?
    ensures r.Ok? ==> r.value == OpenPaths(es, rt, ListProjectFoldersSpec(st, es, dir).value)
    ensures r.Err? ==> r.error == ListProjectFoldersSpec(st, es, dir).error
  {
    match ListProjectFoldersSpec(st, es, dir)
    case Ok(paths) => Ok(OpenPaths(es, rt, paths))
    case Err(e) => Err(e)
  }

  /** `Storage::open_projects_dir`: a `Year` opens that year's archive and the working
      directory and keeps the records whose `Year` is that year. */
  function OpenProjectsDir(st: Storage, es: seq<Entry>, rt: RecordType, dir: StorageDir): (r: Result<seq<Record>>)
    ensures !dir.Year? ==> r == OpenListed(st, es, rt, dir)
    ensures dir.Year? && r.Ok? ==> forall x :: x in r.value ==> rt.hasKeyVal(x, "Year", IntToString(dir.year))
    ensures dir.Year? && r.Ok? ==>
      OpenListed(st, es, rt, Archive(dir.year)).Ok? && OpenListed(st, es, rt, Working).Ok? &&
      r.value == FilterByKeyVal(rt, OpenListed(st, es, rt, Archive(dir.year)).value + OpenListed(st, es, rt, Working).value,
                                "Year", IntToString(dir.year))
    ensures dir.Year? ==> (r.Ok? <==> IsDir(es, st.working))
  {
    match dir
    case Year(y) =>
      var archived := OpenListed(st, es, rt, Archive(y));
      var working := OpenListed(st, es, rt, Working);
      if archived.Err? then Err(archived.error)
      else if working.Err? then Err(working.error)
      else Ok(FilterByKeyVal(rt, archived.value + working.value, "Year", IntToString(y)))
    case _ => OpenListed(st, es, rt, dir)
  }

  /** Opening a year yields the matching archived records of that year first, then the
      matching records of the working directory, each run in folder order. */
  lemma YearArchivedFirst(st: Storage, es: seq<Entry>, rt: RecordType, y: Year)
    requires OpenProjectsDir(st, es, rt, Year(y)).Ok?
    ensures OpenProjectsDir(st, es, rt, Year(y)).value ==
      FilterByKeyVal(rt, OpenListed(st, es, rt, Archive(y)).value, "Year", IntToString(y)) +
      FilterByKeyVal(rt, OpenListed(st, es, rt, Working).value, "Year", IntToString(y))
  {
    FilterByKeyValConcat(rt, OpenListed(st, es, rt, Archive(y)).value, OpenListed(st, es, rt, Working).value, "Year", IntToString(y));
  }

  /** A record comes back from opening a year exactly when its `Year` is that year and it
      opens from a folder listed in the year's archive partition or in the working
      directory. */
  lemma YearMembers(st: Storage, es: seq<Entry>, rt: RecordType, y: Year, x: Record)
    requires OpenProjectsDir(st, es, rt, Year(y)).Ok?
    ensures x in OpenProjectsDir(st, es, rt, Year(y)).value <==>
      rt.hasKeyVal(x, "Year", IntToString(y)) &&
      exists p :: (p in ListProjectFoldersSpec(st, es, Archive(y)).value || p in ListProjectFoldersSpec(st, es, Working).value) &&
        OpenProject(es, rt, p) == Ok(x)
  {
    var archived := ListProjectFoldersSpec(st, es, Archive(y)).value;
    var working := ListProjectFoldersSpec(st, es, Working).value;
    assert OpenListed(st, es, rt, Archive(y)).value == OpenPaths(es, rt, archived);
    assert OpenListed(st, es, rt, Working).value == OpenPaths(es, rt, working);
    if exists p :: (p in archived || p in working) && OpenProject(es, rt, p) == Ok(x) {
      var p :| (p in archived || p in working) && OpenProject(es, rt, p) == Ok(x);
      if p in archived {
        assert x in OpenPaths(es, rt, archived);
      } else {
        assert x in OpenPaths(es, rt, working);
      }
    }
  }

  // ----- Ordering by index -----

  /** `String`'s ordering: lexicographic by character. */
  predicate LexLe(a: string, b: string) {
    a == [] || (b != [] && (a[0] < b[0] || (a[0] == b[0] && LexLe(a[1..], b[1..]))))
  }

  lemma {:induction false} LexLeTotal(a: string, b: string)
    ensures LexLe(a, b) || LexLe(b, a)
  {
    if a != [] && b != [] && a[0] == b[0] {
      LexLeTotal(a[1..], b[1..]);
    }
  }

  lemma {:induction false} LexLeTrans(a: string, b: string, c: string)
    requires LexLe(a, b) && LexLe(b, c)
    ensures LexLe(a, c)
  {
    if a != [] && b != [] && c != [] && a[0] == b[0] && b[0] == c[0] {
      LexLeTrans(a[1..], b[1..], c[1..]);
    }
  }

  lemma {:induction false} LexLeAntisymmetric(a: string, b: string)
    requires LexLe(a, b) && LexLe(b, a)
    ensures a == b
  {
    if a != [] {
      LexLeAntisymmetric(a[1..], b[1..]);
      assert a == [a[0]] + a[1..] && b == [b[0]] + b[1..];
    }
  }

  /** The sort key: the index, or `"zzzz"` for a record without one. */
  function Key(x: Record): string {
    x.index.GetOr("zzzz")
  }

  ghost predicate SortedByKey(s: seq<Record>) {
    forall i, j :: 0 <= i < j < |s| ==> LexLe(Key(s[i]), Key(s[j]))
  }

  /** The records with key `k`, in their order. */
  function WithKey(s: seq<Record>, k: string): seq<Record> {
    if s == [] then []
    else WithKey(s[..|s| - 1], k) + (if Key(s[|s| - 1]) == k then [s[|s| - 1]] else [])
  }

  lemma {:induction false} WithKeyConcat(a: seq<Record>, b: seq<Record>, k: string)
    ensures WithKey(a + b, k) == WithKey(a, k) + WithKey(b, k)
    decreases |b|
  {
    if b != [] {
      assert (a + b)[..|a + b| - 1] == a + b[..|b| - 1];
      WithKeyConcat(a, b[..|b| - 1], k);
    } else {
      assert a + b == a;
    }
  }

  lemma WithKeyNone(s: seq<Record>, k: string)
    requires forall x :: x in s ==> Key(x) != k
    ensures WithKey(s, k) == []
  {
    if s != [] {
      WithKeyNone(s[..|s| - 1], k);
    }
  }

  /** Inserting in front of a head with a greater key. */
  lemma InsertInFront(s: seq<Record>, x: Record)
    requires SortedByKey(s) && s != [] && !LexLe(Key(s[0]), Key(x))
    ensures SortedByKey([x] + s)
    ensures forall k :: WithKey([x] + s, k) == WithKey(s, k) + (if Key(x) == k then [x] else [])
  {
    LexLeTotal(Key(s[0]), Key(x));
    forall j | 0 <= j < |s| ensures LexLe(Key(x), Key(s[j])) && Key(s[j]) != Key(x) {
      if j > 0 {
        LexLeTrans(Key(x), Key(s[0]), Key(s[j]));
      }
    }
    forall k ensures WithKey([x] + s, k) == WithKey(s, k) + (if Key(x) == k then [x] else []) {
      WithKeyConcat([x], s, k);
      assert [x][..0] == [];
      if Key(x) == k {
        WithKeyNone(s, k);
      }
    }
  }

  /** Keeping the head in front of the insertion into the tail. */
  lemma InsertBehindHead(s: seq<Record>, x: Record, rest: seq<Record>)
    requires SortedByKey(s) && s != [] && LexLe(Key(s[0]), Key(x))
    requires SortedByKey(rest) && multiset(rest) == multiset(s[1..]) + multiset{x}
    requires forall k :: WithKey(rest, k) == WithKey(s[1..], k) + (if Key(x) == k then [x] else [])
    ensures SortedByKey([s[0]] + rest)
    ensures multiset([s[0]] + rest) == multiset(s) + multiset{x}
    ensures forall k :: WithKey([s[0]] + rest, k) == WithKey(s, k) + (if Key(x) == k then [x] else [])
  {
    assert s == [s[0]] + s[1..];
    HeadBeforeRest(s, x, rest);
    forall k ensures WithKey([s[0]] + rest, k) == WithKey(s, k) + (if Key(x) == k then [x] else []) {
      WithKeyBehindHead(s, rest, k, if Key(x) == k then [x] else []);
    }
  }

  lemma WithKeyBehindHead(s: seq<Record>, rest: seq<Record>, k: string, added: seq<Record>)
    requires s != [] && WithKey(rest, k) == WithKey(s[1..], k) + added
    ensures WithKey([s[0]] + rest, k) == WithKey(s, k) + added
  {
    WithKeyConcat([s[0]], rest, k);
    WithKeyConcat([s[0]], s[1..], k);
    assert s == [s[0]] + s[1..];
    var h := WithKey([s[0]], k);
    assert h + (WithKey(s[1..], k) + added) == (h + WithKey(s[1..], k)) + added;
  }

  lemma HeadBeforeRest(s: seq<Record>, x: Record, rest: seq<Record>)
    requires SortedByKey(s) && s != [] && LexLe(Key(s[0]), Key(x))
    requires SortedByKey(rest) && multiset(rest) == multiset(s[1..]) + multiset{x}
    ensures SortedByKey([s[0]] + rest)
  {
    forall e | e in rest ensures LexLe(Key(s[0]), Key(e)) {
      assert e in multiset(rest);
      if e != x {
        assert e in multiset(s[1..]);
        var j :| 0 <= j < |s[1..]| && s[1..][j] == e;
        assert s[j + 1] == e;
      }
    }
    var r := [s[0]] + rest;
    forall i, j | 0 <= i < j < |r| ensures LexLe(Key(r[i]), Key(r[j])) {
      if i == 0 {
        assert r[j] in rest;
      } else {
        assert r[i] == rest[i - 1] && r[j] == rest[j - 1];
      }
    }
  }

  /** Inserts `x` after every record whose key is not greater than its own. */
  function InsertStable(s: seq<Record>, x: Record): (r: seq<Record>)
    requires SortedByKey(s)
    ensures SortedByKey(r)
    ensures multiset(r) == multiset(s) + multiset{x}
    ensures forall k :: WithKey(r, k) == WithKey(s, k) + (if Key(x) == k then [x] else [])
  {
    if s == [] then
      forall k ensures WithKey([x], k) == WithKey(s, k) + (if Key(x) == k then [x] else []) {
        assert [x][..0] == [];
      }
      [x]
    else if !LexLe(Key(s[0]), Key(x)) then
      InsertInFront(s, x);
      [x] + s
    else
      var rest := InsertStable(s[1..], x);
      InsertBehindHead(s, x, rest);
      [s[0]] + rest
  }

  /** `sort_by` on the index key: a stable sort. The three ensures determine the result:
      ascending keys, the same records, and records of equal key in their original order. */
  function SortByIndex(s: seq<Record>): (r: seq<Record>)
    ensures SortedByKey(r)
    ensures multiset(r) == multiset(s)
    ensures forall k :: WithKey(r, k) == WithKey(s, k)
  {
    if s == [] then []
    else
      var init := s[..|s| - 1];
      assert s == init + [s[|s| - 1]];
      InsertStable(SortByIndex(init), s[|s| - 1])
  }

  // ----- The term filter -----

  /** ASCII lower-casing of a term. */
  function Lower(s: string): (r: string)
    ensures |r| == |s|
    ensures forall i :: 0 <= i < |s| ==> r[i] == (if 'A' <= s[i] <= 'Z' then (s[i] as int + 32) as char else s[i])
  {
    if s == [] then [] else [if 'A' <= s[0] <= 'Z' then (s[0] as int + 32) as char else s[0]] + Lower(s[1..])
  }

  /** The 1-based position a term of the form `N<digits>` asks for. */
  function SearchIndex(term: string): (r: Option<nat>)
    ensures r.Some? ==> |term| > 0 && term[0] == 'N' && ParseUsize(term[1..]) == r
    ensures |term| > 0 && term[0] == 'N' ==> r == ParseUsize(term[1..])
  {
    if |term| > 0 && term[0] == 'N' then ParseUsize(term[1..]) else None
  }

  /** Whether the record at 0-based position `i` of the sorted list is kept for `term`. */
  predicate Keeps(rt: RecordType, term: string, i: nat, x: Record) {
    SearchIndex(term) == Some(i + 1) || rt.matchesSearch(x, Lower(term))
  }

  /** `r` holds exactly the records of `sorted` that `term` keeps. */
  ghost predicate KeptExactly(rt: RecordType, term: string, r: seq<Record>, sorted: seq<Record>) {
    && (forall i :: 0 <= i < |sorted| && Keeps(rt, term, i, sorted[i]) ==> sorted[i] in r)
    && (forall x :: x in r ==> exists i :: 0 <= i < |sorted| && sorted[i] == x && Keeps(rt, term, i, x))
  }

  /** The records of the sorted list that `term` keeps, in order. */
  function Select(rt: RecordType, term: string, s: seq<Record>): seq<Record> {
    if s == [] then []
    else
      var last := s[|s| - 1];
      Select(rt, term, s[..|s| - 1]) + (if Keeps(rt, term, |s| - 1, last) then [last] else [])
  }

  /** The term keeps exactly the records at the positions it asks for or that match it. */
  lemma {:induction false} SelectKeeps(rt: RecordType, term: string, s: seq<Record>)
    ensures KeptExactly(rt, term, Select(rt, term, s), s)
  {
    if s != [] {
      var init := s[..|s| - 1];
      var last := s[|s| - 1];
      var rest := Select(rt, term, init);
      var tail := if Keeps(rt, term, |init|, last) then [last] else [];
      assert Select(rt, term, s) == rest + tail;
      SelectKeeps(rt, term, init);
      forall i | 0 <= i < |s| && Keeps(rt, term, i, s[i]) ensures s[i] in rest + tail {
        if i < |init| {
          assert init[i] == s[i];
        }
      }
      forall x | x in rest + tail ensures exists i :: 0 <= i < |s| && s[i] == x && Keeps(rt, term, i, x) {
        if x in rest {
          var i :| 0 <= i < |init| && init[i] == x && Keeps(rt, term, i, x);
          assert s[i] == x;
        } else {
          assert s[|init|] == x;
        }
      }
    }
  }

  /** The term keeps the records in their order. */
  lemma {:induction false} SelectInOrder(rt: RecordType, term: string, s: seq<Record>)
    ensures IsSubsequence(Select(rt, term, s), s)
  {
    if s == [] {
      assert IsEmbedding([], [], s);
    } else {
      var init := s[..|s| - 1];
      var last := s[|s| - 1];
      var rest := Select(rt, term, init);
      SelectInOrder(rt, term, init);
      var idx :| IsEmbedding(idx, rest, init);
      assert forall k :: 0 <= k < |idx| ==> init[idx[k]] == s[idx[k]];
      assert IsEmbedding(idx, rest, s);
      if Keeps(rt, term, |init|, last) {
        assert Select(rt, term, s) == rest + [last];
        assert IsEmbedding(idx + [|init|], rest + [last], s);
      } else {
        assert Select(rt, term, s) == rest;
      }
    }
  }

  /** `idx` picks the elements of `sub` out of `s` at increasing positions. */
  ghost predicate IsEmbedding<T>(idx: seq<int>, sub: seq<T>, s: seq<T>) {
    && |idx| == |sub|
    && (forall k :: 0 <= k < |idx| ==> 0 <= idx[k] < |s| && s[idx[k]] == sub[k])
    && (forall k, l :: 0 <= k < l < |idx| ==> idx[k] < idx[l])
  }

  /** `sub` is `s` with some elements left out. */
  ghost predicate IsSubsequence<T>(sub: seq<T>, s: seq<T>) {
    exists idx :: IsEmbedding(idx, sub, s)
  }

  // ----- Searching -----

  /** `Storage::search_projects(dir, term)`: opens the records of `dir`, sorts them by index
      and keeps those at the asked position or matching the lower-cased term. */
  function SearchProjects(st: Storage, es: seq<Entry>, rt: RecordType, dir: StorageDir, term: string): (r: Result<seq<Record>>)
    ensures r.Ok? <==> OpenProjectsDir(st, es, rt, dir).Ok?
    ensures r.Ok? ==> r.value == Select(rt, term, SortByIndex(OpenProjectsDir(st, es, rt, dir).value))
    ensures r.Ok? ==> forall x :: x in r.value ==> x in OpenProjectsDir(st, es, rt, dir).value
  {
    match OpenProjectsDir(st, es, rt, dir)
    case Ok(projects) =>
      var sorted := SortByIndex(projects);
      var r := Select(rt, term, sorted);
      SelectKeeps(rt, term, sorted);
      forall x | x in r ensures x in projects {
        assert x in multiset(sorted);
      }
      Ok(r)
    case Err(e) => Err(e)
  }

  /** What the terms select, one after the other, from the same sorted records. */
  function FindAllIn(rt: RecordType, terms: seq<string>, sorted: seq<Record>): (r: seq<Record>)
    ensures forall x :: x in r ==> x in sorted
  {
    if terms == [] then []
    else
      SelectKeeps(rt, terms[|terms| - 1], sorted);
      FindAllIn(rt, terms[..|terms| - 1], sorted) + Select(rt, terms[|terms| - 1], sorted)
  }

  /** `Storage::search_projects_any`: no term finds nothing without opening anything; every
      term reopens the same directory of an unchanged filesystem. */
  function SearchAny(st: Storage, es: seq<Entry>, rt: RecordType, dir: StorageDir, terms: seq<string>): (r: Result<seq<Record>>)
    ensures terms == [] ==> r == Ok([])
    ensures terms != [] ==> (r.Ok? <==> OpenProjectsDir(st, es, rt, dir).Ok?)
    ensures r.Ok? ==> forall x :: x in r.value ==> x in OpenProjectsDir(st, es, rt, dir).value
  {
    if terms == [] then Ok([])
    else
      match OpenProjectsDir(st, es, rt, dir)
      case Ok(projects) =>
        var sorted := SortByIndex(projects);
        forall x | x in sorted ensures x in projects {
          assert x in multiset(sorted);
        }
        Ok(FindAllIn(rt, terms, sorted))
      case Err(e) => Err(e)
  }

  method SearchProjectsAny(st: Storage, fs: FileSystem, rt: RecordType, dir: StorageDir, terms: seq<string>)
    returns (r: Result<seq<Record>>)
    ensures r == SearchAny(st, fs.entries, rt, dir, terms)
  {
    var es := fs.entries;
    var projects: seq<Record> := [];
    var i := 0;
    while i < |terms|
      invariant 0 <= i <= |terms|
      invariant SearchAny(st, es, rt, dir, terms[..i]) == Ok(projects)
    {
      var found := SearchProjects(st, es, rt, dir, terms[i]);
      SearchAnyStep(st, es, rt, dir, terms, i);
      if found.Err? {
        return Err(found.error);
      }
      projects := projects + found.value;
      i := i + 1;
    }
    assert terms[..i] == terms;
    r := Ok(projects);
  }

  lemma FindAllSnoc(rt: RecordType, terms: seq<string>, t: string, projects: seq<Record>)
    ensures FindAllIn(rt, terms + [t], projects) == FindAllIn(rt, terms, projects) + Select(rt, t, projects)
  {
    var s := terms + [t];
    assert s[..|s| - 1] == terms;
  }

  /** Searching for `a + b` finds what `a` finds followed by what `b` finds. */
  lemma {:induction false} FindAllConcat(rt: RecordType, a: seq<string>, b: seq<string>, projects: seq<Record>)
    ensures FindAllIn(rt, a + b, projects) == FindAllIn(rt, a, projects) + FindAllIn(rt, b, projects)
    decreases |b|
  {
    if b == [] {
      assert a + b == a;
    } else {
      var b', t := b[..|b| - 1], b[|b| - 1];
      assert b == b' + [t];
      assert a + b == (a + b') + [t];
      var sa, sb', st := FindAllIn(rt, a, projects), FindAllIn(rt, b', projects), Select(rt, t, projects);
      calc {
        FindAllIn(rt, a + b, projects);
      == { FindAllSnoc(rt, a + b', t, projects); }
        FindAllIn(rt, a + b', projects) + st;
      == { FindAllConcat(rt, a, b', projects); }
        (sa + sb') + st;
      == { assert (sa + sb') + st == sa + (sb' + st); }
        sa + (sb' + st);
      == { FindAllSnoc(rt, b', t, projects); }
        sa + FindAllIn(rt, b, projects);
      }
    }
  }

  /** With the directory opened, a search with any terms, none included, is the concatenation
      of the selections from the sorted records. */
  lemma SearchAnyIsFindAll(st: Storage, es: seq<Entry>, rt: RecordType, dir: StorageDir, terms: seq<string>)
    requires OpenProjectsDir(st, es, rt, dir).Ok?
    ensures SearchAny(st, es, rt, dir, terms) == Ok(FindAllIn(rt, terms, SortByIndex(OpenProjectsDir(st, es, rt, dir).value)))
  {
  }

  /** Searching for the terms `a + b` finds what `a` finds followed by what `b` finds. */
  lemma SearchAnyConcat(st: Storage, es: seq<Entry>, rt: RecordType, dir: StorageDir, a: seq<string>, b: seq<string>)
    requires OpenProjectsDir(st, es, rt, dir).Ok?
    ensures SearchAny(st, es, rt, dir, a + b).Ok?
    ensures SearchAny(st, es, rt, dir, a + b).value ==
      SearchAny(st, es, rt, dir, a).value + SearchAny(st, es, rt, dir, b).value
  {
    var sorted := SortByIndex(OpenProjectsDir(st, es, rt, dir).value);
    SearchAnyIsFindAll(st, es, rt, dir, a + b);
    SearchAnyIsFindAll(st, es, rt, dir, a);
    SearchAnyIsFindAll(st, es, rt, dir, b);
    FindAllConcat(rt, a, b, sorted);
  }

  /** A search for one term is that term's `search_projects`. */
  lemma SearchAnyOneTerm(st: Storage, es: seq<Entry>, rt: RecordType, dir: StorageDir, t: string)
    ensures SearchAny(st, es, rt, dir, [t]) == SearchProjects(st, es, rt, dir, t)
  {
    match OpenProjectsDir(st, es, rt, dir)
    case Ok(projects) =>
      var sorted := SortByIndex(projects);
      calc {
        SearchAny(st, es, rt, dir, [t]);
      == { SearchAnyIsFindAll(st, es, rt, dir, [t]); }
        Ok(FindAllIn(rt, [t], sorted));
      == { FindAllSnoc(rt, [], t, sorted); assert [] + [t] == [t]; }
        Ok(FindAllIn(rt, [], sorted) + Select(rt, t, sorted));
      == { var sel := Select(rt, t, sorted); assert FindAllIn(rt, [], sorted) == []; assert [] + sel == sel; }
        Ok(Select(rt, t, sorted));
      }
    case Err(e) =>
  }

  /** One more term appends what it finds on its own; its failure is the search's. */
  lemma SearchAnySnoc(st: Storage, es: seq<Entry>, rt: RecordType, dir: StorageDir, terms: seq<string>, t: string)
    ensures SearchProjects(st, es, rt, dir, t).Err? ==> SearchAny(st, es, rt, dir, terms + [t]) == SearchProjects(st, es, rt, dir, t)
    ensures SearchProjects(st, es, rt, dir, t).Ok? ==>
      SearchAny(st, es, rt, dir, terms + [t]) == Ok(SearchAny(st, es, rt, dir, terms).value + SearchProjects(st, es, rt, dir, t).value)
  {
    if OpenProjectsDir(st, es, rt, dir).Ok? {
      SearchAnyOneTerm(st, es, rt, dir, t);
      SearchAnyConcat(st, es, rt, dir, terms, [t]);
    }
  }

  /** When one term's search fails, the whole search fails the same way. */
  lemma SearchAnyFails(st: Storage, es: seq<Entry>, rt: RecordType, dir: StorageDir, terms: seq<string>, i: nat)
    requires i < |terms| && SearchProjects(st, es, rt, dir, terms[i]).Err?
    ensures SearchAny(st, es, rt, dir, terms) == SearchProjects(st, es, rt, dir, terms[i])
  {
  }

  /** One turn of the search loop, at term `i`. */
  lemma SearchAnyStep(st: Storage, es: seq<Entry>, rt: RecordType, dir: StorageDir, terms: seq<string>, i: nat)
    requires i < |terms|
    ensures SearchProjects(st, es, rt, dir, terms[i]).Err? ==>
      SearchAny(st, es, rt, dir, terms) == SearchProjects(st, es, rt, dir, terms[i])
    ensures SearchProjects(st, es, rt, dir, terms[i]).Ok? ==>
      SearchAny(st, es, rt, dir, terms[..i + 1])
        == Ok(SearchAny(st, es, rt, dir, terms[..i]).value + SearchProjects(st, es, rt, dir, terms[i]).value)
  {
    assert terms[..i + 1] == terms[..i] + [terms[i]];
    SearchAnySnoc(st, es, rt, dir, terms[..i], terms[i]);
    if SearchProjects(st, es, rt, dir, terms[i]).Err? {
      SearchAnyFails(st, es, rt, dir, terms, i);
    }
  }

  /** Results are not de-duplicated: a repeated term repeats its records. */
  lemma RepeatedTermRepeats(st: Storage, es: seq<Entry>, rt: RecordType, dir: StorageDir, t: string)
    requires OpenProjectsDir(st, es, rt, dir).Ok?
    ensures SearchAny(st, es, rt, dir, [t, t]).Ok?
    ensures SearchAny(st, es, rt, dir, [t, t]).value ==
      SearchProjects(st, es, rt, dir, t).value + SearchProjects(st, es, rt, dir, t).value
  {
    SearchAnyOneTerm(st, es, rt, dir, t);
    SearchAnyConcat(st, es, rt, dir, [t], [t]);
    assert [t] + [t] == [t, t];
  }

  /** Every record a multi-term search finds, one of its terms finds on its own. */
  lemma {:induction false} FindAllFromTerms(rt: RecordType, terms: seq<string>, projects: seq<Record>, x: Record)
    requires x in FindAllIn(rt, terms, projects)
    ensures exists t :: t in terms && x in Select(rt, t, projects)
  {
    var init := terms[..|terms| - 1];
    var t := terms[|terms| - 1];
    if x in FindAllIn(rt, init, projects) {
      FindAllFromTerms(rt, init, projects, x);
      var u :| u in init && x in Select(rt, u, projects);
      assert u in terms;
    } else {
      assert x in Select(rt, t, projects);
    }
  }

  // ----- Selections -----

  /** What `open_projects` can be asked: never an uninitialised selection (it is
      unreachable there), and only existing paths. */
  predicate CanOpen(es: seq<Entry>, sel: StorageSelection) {
    !sel.Uninitialized? && (sel.Paths? ==> AllExist(es, sel.paths))
  }

  /** `Storage::open_projects` */
  function OpenProjects(st: Storage, es: seq<Entry>, rt: RecordType, sel: StorageSelection): (r: Result<seq<Record>>)
    requires CanOpen(es, sel)
    ensures sel.DirAndSearch? && r.Ok? ==> r.value != [] && r == SearchAny(st, es, rt, sel.dir, sel.terms)
    ensures sel.DirAndSearch? && SearchAny(st, es, rt, sel.dir, sel.terms) == Ok([]) ==> r == Err(NothingFound(sel.terms))
    ensures sel.DirAndSearch? && SearchAny(st, es, rt, sel.dir, sel.terms) != Ok([]) ==> r == SearchAny(st, es, rt, sel.dir, sel.terms)
    ensures sel.Dir? ==> r == OpenProjectsDir(st, es, rt, sel.dir)
    ensures sel.Paths? ==> r == Ok(OpenPaths(es, rt, sel.paths))
  {
    match sel
    case DirAndSearch(dir, terms) =>
      var found := SearchAny(st, es, rt, dir, terms);
      if found.Err? then Err(found.error)
      else if found.value == [] then Err(NothingFound(terms))
      else found
    case Dir(dir) => OpenProjectsDir(st, es, rt, dir)
    case Paths(paths) => Ok(OpenPaths(es, rt, paths))
  }

  /** A search that succeeds yields records of the searched directory, each matched by one
      of the terms, and it succeeds exactly when the directory opens and some record
      matches. */
  lemma SearchSelectionFinds(st: Storage, es: seq<Entry>, rt: RecordType, dir: StorageDir, terms: seq<string>)
    ensures OpenProjects(st, es, rt, DirAndSearch(dir, terms)).Ok? <==>
      SearchAny(st, es, rt, dir, terms).Ok? && SearchAny(st, es, rt, dir, terms).value != []
    ensures OpenProjects(st, es, rt, DirAndSearch(dir, terms)).Ok? ==>
      forall x :: x in OpenProjects(st, es, rt, DirAndSearch(dir, terms)).value ==>
        x in OpenProjectsDir(st, es, rt, dir).value &&
        exists t :: t in terms && x in Select(rt, t, SortByIndex(OpenProjectsDir(st, es, rt, dir).value))
  {
    var r := OpenProjects(st, es, rt, DirAndSearch(dir, terms));
    if r.Ok? {
      var projects := OpenProjectsDir(st, es, rt, dir).value;
      forall x | x in r.value
        ensures exists t :: t in terms && x in Select(rt, t, SortByIndex(projects))
      {
        FindAllFromTerms(rt, terms, SortByIndex(projects), x);
      }
    }
  }

  /** The default selection asks for no term, so it never finds anything. */
  lemma DefaultSelectionFindsNothing(st: Storage, es: seq<Entry>, rt: RecordType)
    ensures OpenProjects(st, es, rt, DefaultSelection) == Err(NothingFound([]))
  {
  }

  /** The sentinel `"zzzz"` is not greater than every index: a record indexed `"zzzzz"`
      sorts after a record without an index. */
  lemma SentinelIsNotLast(a: Record, b: Record)
    requires a.index == Some("zzzzz") && b.index.None?
    ensures SortByIndex([a, b]) == [b, a]
  {
    ExtensionNotLe(Key(a), Key(b));
    assert SortByIndex([a]) == [a] by {
      assert [a][..0] == [];
    }
    assert [a, b][..1] == [a];
    assert InsertStable([a], b) == [b, a];
  }

  /** A string sorts after each of its proper prefixes. */
  lemma {:induction false} ExtensionNotLe(a: string, b: string)
    requires |b| < |a| && b == a[..|b|]
    ensures !LexLe(a, b)
  {
    if b != [] {
      assert a[1..][..|b[1..]|] == b[1..];
      ExtensionNotLe(a[1..], b[1..]);
    }
  }
}
