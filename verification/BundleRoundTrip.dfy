/** Which trees an import takes back from their export (core/bundle/tar.go:38-185, 340-543).

    Exporting refuses no tree of files and directories, so what importing refuses comes to light
    only there.  A tree that came back has names that the check returns as they are, because the
    files lie where the names of entries put them and every result of the check that the check
    accepts is returned unchanged; its names do not collide, because the import would have
    stopped; and none is a directory of another, because every file stands in directories and
    is none. */
module BundleRoundTrip {
  import opened Sorting
  import opened EntryPath
  import opened BundleTar
  import opened BundleTarTheorems

  // ---- a file is no directory --------------------------------------------------------------

  /** Every file stands in directories, and is none. */
  ghost predicate Tidy(fs: FileSystem) {
    forall p :: p in fs.files ==> p != [] && p !in fs.dirs && Prefixes(Parent(p)) <= fs.dirs
  }

  lemma {:induction false} TidyWrite(fs: FileSystem, path: Path, bytes: string, exec: bool)
    requires Tidy(fs) && path != [] && CanWrite(fs, path)
    ensures Tidy(WriteFile(fs, path, bytes, exec))
  {
  }

  lemma {:induction false} TidyNext(lim: Limits, names: Names, st: State, e: Entry, s: Step)
    requires Tidy(st.fs) && st.remaining >= 0 && s == ImportEntry(lim, names, st, e)
    ensures Tidy(s.state.fs)
  {
    var n := st.remaining - s.state.remaining;
    EntryEffect(lim, names, st, e, s, n);
    if Wrote(lim, names, st, e) {
      TidyWrite(st.fs, PathOf(names, e), e.data[..n], e.exec);
    }
  }

  lemma {:induction false} TidyReached(lim: Limits, names: Names, archive: seq<Entry>, n: nat, st: State, end: Step)
    requires n <= |archive| && st.remaining >= 0 && Tidy(st.fs) && end == ImportFrom(lim, names, st, archive, n)
    ensures Tidy(end.state.fs)
    decreases |archive| - n
  {
    if n == |archive| {
    } else {
      var s := ImportEntry(lim, names, st, archive[n]);
      EntryKeepsBudget(lim, names, st, archive[n]);
      TidyNext(lim, names, st, archive[n], s);
      if s.Continue? {
        TidyReached(lim, names, archive, n + 1, s.state, end);
      }
    }
  }

  lemma {:induction false} PrefixOrSame(p: Path, q: Path)
    requires p <= q && q != []
    ensures p == q || p in Prefixes(Parent(q))
  {
    if |p| < |q| {
      assert Parent(q)[..|p|] == p;
    }
  }

  lemma {:induction false} NoFileBelowAFile(fs: FileSystem, p: Path, q: Path)
    requires Tidy(fs) && p in fs.files && q in fs.files && p <= q
    ensures p == q
  {
    PrefixOrSame(p, q);
  }

  // ---- an accepted name that is itself a result ------------------------------------------------

  /** A result of the name check that the check accepts is returned as it is. */
  lemma {:induction false} SafeIsFixed(raw: string, r: string)
    requires SafeRelPath(raw) == Ok(r) && SafeRelPath(r).Ok?
    ensures SafeRelPath(r) == Ok(r)
  {
    AcceptedNames(raw);
    AcceptedNames(r);
    FollowPlain([], Split(r));
    assert [] + Split(r) == Split(r);
    JoinOfSplit(r);
    JoinOfSplit(SafeRelPath(r).value);
  }

  // ---- exactly -------------------------------------------------------------------------------------

  /** The export of `walk`, as archive entries. */
  function Exported(walk: seq<Node>): seq<Entry> {
    Archive(Sort(ExportLe, FilesOf(walk)))
  }

  lemma {:induction false} EntryOfFile(walk: seq<Node>, tree: map<string, File>, r: string) returns (k: nat)
    requires Meets(walk, tree) && r in tree
    ensures k < |Exported(walk)| && Exported(walk)[k] == HeaderOf(ExportEntry(r, tree[r]))
  {
    var entries := Sort(ExportLe, FilesOf(walk));
    SortIsPermutation(ExportLe, FilesOf(walk));
    assert ExportEntry(r, tree[r]) in entries;
    k :| 0 <= k < |entries| && entries[k] == ExportEntry(r, tree[r]);
  }

  /** A tree that came back has names that the check returns as they are. */
  lemma {:induction false} CameBackClean(lim: Limits, lower: string -> string, walk: seq<Node>, tree: map<string, File>,
                                         r: string, end: Step)
    requires Meets(walk, tree) && r in tree
    requires end == Import(lim, TarNames(lower), EMPTY_DIR, Exported(walk))
    requires end.Continue? && IsTree(end.state.fs.files, tree)
    ensures SafeRelPath(r) == Ok(r) && |tree[r].bytes| <= lim.entrySize
  {
    var names, archive, now := TarNames(lower), Exported(walk), end.state.fs;
    ImportIsBounded(lim, names, EMPTY_DIR, archive);
    var i := EntryOfFile(walk, tree, r);
    assert Accepted(lim, names, archive[i]);
    assert names.safe(r) == SafeRelPath(r);
    ImportLeaves(lim, names, EMPTY_DIR, archive);
    assert Changed(EMPTY_DIR, now, Split(r));
    var k :| 0 <= k < |archive| && Left(names, archive[k], Split(r), now.files[Split(r)].bytes);
    var raw := archive[k].name;
    assert names.safe(raw) == SafeRelPath(raw);
    JoinOfSplit(SafeRelPath(raw).value);
    JoinOfSplit(r);
    SafeIsFixed(raw, r);
  }

  lemma {:induction false} CameBackApart(lim: Limits, lower: string -> string, walk: seq<Node>, tree: map<string, File>,
                                         r: string, q: string, end: Step)
    requires Meets(walk, tree) && r in tree && q in tree && r != q
    requires end == Import(lim, TarNames(lower), EMPTY_DIR, Exported(walk))
    requires end.Continue? && IsTree(end.state.fs.files, tree)
    ensures TarNames(lower).key(r) != TarNames(lower).key(q) && !(Split(r) <= Split(q))
  {
    var names, archive := TarNames(lower), Exported(walk);
    CameBackClean(lim, lower, walk, tree, r, end);
    CameBackClean(lim, lower, walk, tree, q, end);
    var j := EntryOfFile(walk, tree, r);
    var k := EntryOfFile(walk, tree, q);
    ImportIsBounded(lim, names, EMPTY_DIR, archive);
    assert names.safe(r) == Ok(r) && names.safe(q) == Ok(q);
    assert KeyOf(names, archive[j]) == names.key(r) && KeyOf(names, archive[k]) == names.key(q);
    assert j != k;
    TidyReached(lim, names, archive, 0, Begin(lim, EMPTY_DIR), end);
    JoinOfSplit(r);
    JoinOfSplit(q);
    if Split(r) <= Split(q) {
      NoFileBelowAFile(end.state.fs, Split(r), Split(q));
    }
  }

  /** The export comes back as the tree it was made of. */
  ghost predicate ComesBack(lim: Limits, lower: string -> string, walk: seq<Node>, tree: map<string, File>) {
    var end := Import(lim, TarNames(lower), EMPTY_DIR, Exported(walk));
    end.Continue? && IsTree(end.state.fs.files, tree)
  }

  ghost predicate WithinLimits(lim: Limits, walk: seq<Node>) {
    |Exported(walk)| <= lim.entries && Total(Exported(walk), |Exported(walk)|) <= lim.totalSize
  }

  lemma {:induction false} CameBack(lim: Limits, lower: string -> string, walk: seq<Node>, tree: map<string, File>)
    requires Meets(walk, tree) && ComesBack(lim, lower, walk, tree)
    ensures Exportable(lim, TarNames(lower), tree) && WithinLimits(lim, walk)
  {
    var names := TarNames(lower);
    var end := Import(lim, names, EMPTY_DIR, Exported(walk));
    ImportIsBounded(lim, names, EMPTY_DIR, Exported(walk));
    forall r | r in tree ensures names.safe(r) == Ok(r) && |tree[r].bytes| <= lim.entrySize {
      CameBackClean(lim, lower, walk, tree, r, end);
    }
    forall r, q | r in tree && q in tree && r != q
      ensures names.key(r) != names.key(q) && !(Split(r) <= Split(q))
    {
      CameBackApart(lim, lower, walk, tree, r, q, end);
    }
  }

  lemma {:induction false} WillComeBack(lim: Limits, lower: string -> string, walk: seq<Node>, tree: map<string, File>)
    requires Meets(walk, tree) && Exportable(lim, TarNames(lower), tree) && WithinLimits(lim, walk)
    ensures ComesBack(lim, lower, walk, tree)
  {
    SortIsPermutation(ExportLe, FilesOf(walk));
    ImportInvertsExport(lim, TarNames(lower), walk, tree);
  }

  /** The export of a file tree comes back, as that tree, if and only if its names are ones the
      check returns as they are, no two of them collide, and it is within the limits. */
  lemma {:induction false} RoundTripExactly(lim: Limits, lower: string -> string, walk: seq<Node>,
                                            tree: map<string, File>)
    requires Meets(walk, tree)
    ensures ComesBack(lim, lower, walk, tree) <==> Exportable(lim, TarNames(lower), tree) && WithinLimits(lim, walk)
  {
    if ComesBack(lim, lower, walk, tree) {
      CameBack(lim, lower, walk, tree);
    } else if Exportable(lim, TarNames(lower), tree) && WithinLimits(lim, walk) {
      WillComeBack(lim, lower, walk, tree);
    }
  }
}
