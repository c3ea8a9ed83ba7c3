/** Which archives import into an empty directory (core/bundle/tar.go:340-500). */
module BundleSuccess {
  import opened Wrappers
  import opened EntryPath
  import opened BundleTar
  import opened BundleTarTheorems
  import opened BundleVerdict

  /** Entry `j` is a file where entry `k` or a directory above it is to stand. */
  predicate Blocks(names: Names, archive: seq<Entry>, j: nat, k: nat)
    requires j < |archive| && k < |archive|
  {
    archive[j].Entry? && archive[j].kind.Regular? && PathOf(names, archive[j]) <= PathOf(names, archive[k])
  }

  predicate Free(names: Names, archive: seq<Entry>, n: nat)
    requires n < |archive|
  {
    forall j :: 0 <= j < n ==> !Blocks(names, archive, j, n) && !Blocks(names, archive, n, j)
  }

  /** The first `n` entries can all stand beside each other and fit the limits. */
  predicate Good(lim: Limits, names: Names, archive: seq<Entry>, n: nat)
    requires n <= |archive|
  {
    && n <= lim.entries && Total(archive, n) <= lim.totalSize
    && forall k :: 0 <= k < n ==>
         Accepted(lim, names, archive[k]) && !Collides(names, archive, k) && Free(names, archive, k)
  }

  // ---- the tree the entries leave -------------------------------------------------------

  predicate IsFileEntry(e: Entry) {
    e.Entry? && e.kind.Regular?
  }

  /** Entry `e` needs the directory `d`. */
  predicate NeedsDir(names: Names, e: Entry, d: Path) {
    e.Entry? && (if e.kind.Dir? then d <= PathOf(names, e) else e.kind.Regular? && d < PathOf(names, e))
  }

  ghost predicate Stands(names: Names, archive: seq<Entry>, n: nat, fs: FileSystem)
    requires n <= |archive|
  {
    && (forall p :: p in fs.files <==>
          exists j :: 0 <= j < n && IsFileEntry(archive[j]) && PathOf(names, archive[j]) == p)
    && (forall d :: d in fs.dirs <==> exists j :: 0 <= j < n && NeedsDir(names, archive[j], d))
  }

  lemma {:induction false} PrefixesAre(path: Path, d: Path)
    ensures d in Prefixes(path) <==> d <= path
    ensures path != [] ==> (d in Prefixes(Parent(path)) <==> d < path)
  {
    if d <= path {
      assert path[..|d|] == d;
    }
    if path != [] && d < path {
      assert Parent(path)[..|d|] == d;
    }
  }

  /** What one accepted entry adds to the tree. */
  ghost predicate Adds(names: Names, e: Entry, was: FileSystem, now: FileSystem) {
    && (forall p :: p in now.files <==> p in was.files || (IsFileEntry(e) && PathOf(names, e) == p))
    && (forall d :: d in now.dirs <==> d in was.dirs || NeedsDir(names, e, d))
  }

  lemma {:induction false} AcceptedAdds(lim: Limits, names: Names, st: State, e: Entry, s: Step)
    requires st.remaining >= 0 && s == ImportEntry(lim, names, st, e) && s.Continue?
    ensures Adds(names, e, st.fs, s.state.fs)
  {
    var path := PathOf(names, e);
    ImportEntryAccounts(lim, names, st, e, s);
    forall d ensures d in s.state.fs.dirs <==> d in st.fs.dirs || NeedsDir(names, e, d) {
      PrefixesAre(path, d);
    }
  }

  lemma {:induction false} StandsNext(names: Names, archive: seq<Entry>, n: nat, was: FileSystem, now: FileSystem)
    requires n < |archive| && Stands(names, archive, n, was) && Adds(names, archive[n], was, now)
    ensures Stands(names, archive, n + 1, now)
  {
    forall p ensures p in now.files <==>
        exists j :: 0 <= j < n + 1 && IsFileEntry(archive[j]) && PathOf(names, archive[j]) == p
    {
      if p in was.files {
        var j :| 0 <= j < n && IsFileEntry(archive[j]) && PathOf(names, archive[j]) == p;
      }
    }
    forall d ensures d in now.dirs <==> exists j :: 0 <= j < n + 1 && NeedsDir(names, archive[j], d) {
      if d in was.dirs {
        var j :| 0 <= j < n && NeedsDir(names, archive[j], d);
      }
    }
  }

  lemma {:induction false} RanStands(lim: Limits, names: Names, archive: seq<Entry>, n: nat)
    requires n <= |archive| && Ran(lim, names, EMPTY_DIR, archive, n).Continue?
    ensures Stands(names, archive, n, Ran(lim, names, EMPTY_DIR, archive, n).state.fs)
    decreases n
  {
    if n == 0 {
    } else {
      RanStands(lim, names, archive, n - 1);
      var st := Ran(lim, names, EMPTY_DIR, archive, n - 1).state;
      var s := Ran(lim, names, EMPTY_DIR, archive, n);
      AcceptedAdds(lim, names, st, archive[n - 1], s);
      StandsNext(names, archive, n - 1, st.fs, s.state.fs);
    }
  }

  // ---- what stands in the way ------------------------------------------------------------

  lemma {:induction false} CanMakeDirIs(names: Names, archive: seq<Entry>, n: nat, fs: FileSystem, path: Path)
    requires n <= |archive| && Stands(names, archive, n, fs)
    ensures CanMakeDir(fs, path) <==> BelowNoFile(names, archive, n, path)
  {
    forall d ensures d in Prefixes(path) <==> d <= path {
      PrefixesAre(path, d);
    }
    if CanMakeDir(fs, path) {
      forall j | 0 <= j < n && IsFileEntry(archive[j]) ensures !(PathOf(names, archive[j]) <= path) {
        assert PathOf(names, archive[j]) in fs.files;
      }
    }
  }

  /** The key of entry `n` being new, its path is nobody else's. */
  lemma {:induction false} OwnPath(lim: Limits, names: Names, archive: seq<Entry>, n: nat, j: nat)
    requires j < n < |archive| && Accepted(lim, names, archive[j]) && Named(names, archive[n])
    requires !Collides(names, archive, n)
    ensures PathOf(names, archive[j]) != PathOf(names, archive[n])
  {
    KeysSeparatePaths(names, archive[j], archive[n]);
  }

  predicate BelowNoFile(names: Names, archive: seq<Entry>, n: nat, path: Path)
    requires n <= |archive|
  {
    forall j :: 0 <= j < n && IsFileEntry(archive[j]) ==> !(PathOf(names, archive[j]) <= path)
  }

  predicate AboveNothing(names: Names, archive: seq<Entry>, n: nat, path: Path)
    requires n <= |archive|
  {
    forall j :: 0 <= j < n ==> !(path <= PathOf(names, archive[j]))
  }

  lemma {:induction false} FreeIs(names: Names, archive: seq<Entry>, n: nat)
    requires n < |archive|
    ensures var path := PathOf(names, archive[n]);
            Free(names, archive, n) <==>
            BelowNoFile(names, archive, n, path) && (IsFileEntry(archive[n]) ==> AboveNothing(names, archive, n, path))
  {
    var path := PathOf(names, archive[n]);
    if Free(names, archive, n) {
      forall j | 0 <= j < n
        ensures IsFileEntry(archive[j]) ==> !(PathOf(names, archive[j]) <= path)
        ensures IsFileEntry(archive[n]) ==> !(path <= PathOf(names, archive[j]))
      {
        assert !Blocks(names, archive, j, n) && !Blocks(names, archive, n, j);
      }
    }
  }

  lemma {:induction false} WayForDir(lim: Limits, names: Names, archive: seq<Entry>, n: nat, fs: FileSystem)
    requires n < |archive| && Stands(names, archive, n, fs) && archive[n].Entry? && archive[n].kind.Dir?
    ensures CanMakeDir(fs, PathOf(names, archive[n])) <==> Free(names, archive, n)
  {
    CanMakeDirIs(names, archive, n, fs, PathOf(names, archive[n]));
    FreeIs(names, archive, n);
  }

  lemma {:induction false} NoDirectoryIs(lim: Limits, names: Names, archive: seq<Entry>, n: nat, fs: FileSystem,
                                         path: Path)
    requires n < |archive| && Stands(names, archive, n, fs) && path == PathOf(names, archive[n])
    requires Named(names, archive[n]) && !Collides(names, archive, n)
    requires forall j :: 0 <= j < n ==> Accepted(lim, names, archive[j])
    ensures path !in fs.dirs <==> AboveNothing(names, archive, n, path)
  {
    forall j | 0 <= j < n ensures NeedsDir(names, archive[j], path) <==> path <= PathOf(names, archive[j]) {
      OwnPath(lim, names, archive, n, j);
      assert Accepted(lim, names, archive[j]);
    }
  }

  lemma {:induction false} BelowParent(lim: Limits, names: Names, archive: seq<Entry>, n: nat, path: Path)
    requires n < |archive| && path == PathOf(names, archive[n]) && path != []
    requires Named(names, archive[n]) && !Collides(names, archive, n)
    requires forall j :: 0 <= j < n ==> Accepted(lim, names, archive[j])
    ensures BelowNoFile(names, archive, n, Parent(path)) <==> BelowNoFile(names, archive, n, path)
  {
    forall j | 0 <= j < n ensures PathOf(names, archive[j]) <= Parent(path) <==> PathOf(names, archive[j]) <= path {
      OwnPath(lim, names, archive, n, j);
      PrefixesAre(path, PathOf(names, archive[j]));
      PrefixesAre(Parent(path), PathOf(names, archive[j]));
    }
  }

  lemma {:induction false} WayForFile(lim: Limits, names: Names, archive: seq<Entry>, n: nat, fs: FileSystem)
    requires n < |archive| && Stands(names, archive, n, fs) && Named(names, archive[n]) && archive[n].kind.Regular?
    requires PathOf(names, archive[n]) != [] && !Collides(names, archive, n)
    requires forall j :: 0 <= j < n ==> Accepted(lim, names, archive[j])
    ensures CanWrite(fs, PathOf(names, archive[n])) <==> Free(names, archive, n)
  {
    var path := PathOf(names, archive[n]);
    CanMakeDirIs(names, archive, n, fs, Parent(path));
    BelowParent(lim, names, archive, n, path);
    NoDirectoryIs(lim, names, archive, n, fs, path);
    PrefixesAre(path, path);
    FreeIs(names, archive, n);
  }

  // ---- exactly -----------------------------------------------------------------------------

  lemma {:induction false} NothingToSay(lim: Limits, names: Names, archive: seq<Entry>, n: nat, fs: FileSystem)
    requires n < |archive| && Stands(names, archive, n, fs) && Total(archive, n) <= lim.totalSize
    requires forall j :: 0 <= j < n ==> Accepted(lim, names, archive[j])
    ensures Verdict(lim, names, archive, n, fs) == None <==>
            && n < lim.entries && Total(archive, n + 1) <= lim.totalSize
            && Accepted(lim, names, archive[n]) && !Collides(names, archive, n) && Free(names, archive, n)
  {
    var e := archive[n];
    if e.Entry? {
      TotalNext(archive, n);
      if names.safe(e.name).Ok? && !Collides(names, archive, n) {
        if e.kind.Dir? {
          WayForDir(lim, names, archive, n, fs);
        } else if e.kind.Regular? {
          WayForFile(lim, names, archive, n, fs);
        }
      }
    }
  }

  lemma {:induction false} GoodNext(lim: Limits, names: Names, archive: seq<Entry>, n: nat)
    requires n < |archive|
    ensures Good(lim, names, archive, n + 1) <==>
            && Good(lim, names, archive, n) && n < lim.entries && Total(archive, n + 1) <= lim.totalSize
            && Accepted(lim, names, archive[n]) && !Collides(names, archive, n) && Free(names, archive, n)
  {
    TotalGrows(archive, n, n + 1);
  }

  lemma {:induction false} RanExactly(lim: Limits, names: Names, archive: seq<Entry>, n: nat)
    requires n <= |archive|
    ensures Ran(lim, names, EMPTY_DIR, archive, n).Continue? <==> Good(lim, names, archive, n)
    decreases n
  {
    if n == 0 {
    } else {
      RanExactly(lim, names, archive, n - 1);
      GoodNext(lim, names, archive, n - 1);
      if Ran(lim, names, EMPTY_DIR, archive, n - 1).Continue? {
        RanStands(lim, names, archive, n - 1);
        NextVerdict(lim, names, EMPTY_DIR, archive, n - 1);
        NothingToSay(lim, names, archive, n - 1, Ran(lim, names, EMPTY_DIR, archive, n - 1).state.fs);
      }
    }
  }

  /** An archive imports into an empty directory if and only if its entries are within the limits,
      each is a file or a directory with an accepted name and all its bytes, no two have one key,
      and no file is where another entry needs a directory. */
  lemma {:induction false} ImportsExactly(lim: Limits, names: Names, archive: seq<Entry>)
    ensures Import(lim, names, EMPTY_DIR, archive).Continue? <==> Good(lim, names, archive, |archive|)
  {
    ImportIsRan(lim, names, EMPTY_DIR, archive);
    RanExactly(lim, names, archive, |archive|);
  }
}
