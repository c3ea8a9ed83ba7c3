/** What importing promises of every archive, and that it inverts exporting
    (core/bundle/tar.go:38-77, 197-500). */
module BundleTarTheorems {
  import opened Wrappers
  import Seqs
  import opened Sorting
  import opened EntryPath
  import opened BundleTar

  const EMPTY_DIR := FileSystem(map[], {})

  // ---- every archive ------------------------------------------------------------------

  /** The bytes of the regular entries among the first `n`. */
  function Total(archive: seq<Entry>, n: nat): nat
    requires n <= |archive|
  {
    if n == 0 then 0
    else Total(archive, n - 1) +
         if archive[n - 1].Entry? && archive[n - 1].kind.Regular? then |archive[n - 1].data| else 0
  }

  /** An entry the import can accept. */
  predicate Accepted(lim: Limits, names: Names, e: Entry) {
    && e.Entry? && names.safe(e.name).Ok? && (e.kind.Dir? || e.kind.Regular?)
    && (e.kind.Regular? ==> |e.data| <= lim.entrySize && !e.truncated)
  }

  lemma {:induction false} ImportEntryAccounts(lim: Limits, names: Names, st: State, e: Entry, s: Step)
    requires st.remaining >= 0 && s == ImportEntry(lim, names, st, e)
    ensures s.state.remaining >= -1
    ensures s.Continue? ==>
      && Accepted(lim, names, e) && KeyOf(names, e) !in st.seen && s.state.seen == st.seen + {KeyOf(names, e)}
      && s.state.entries == st.entries + 1 <= lim.entries
      && s.state.remaining == st.remaining - (if e.kind.Regular? then |e.data| else 0) >= 0
  {
  }

  /** From entry `n` on: the budget is never overdrawn by more than one byte, and on success
      the counters have moved by exactly what was read. */
  lemma {:induction false} CountersReached(lim: Limits, names: Names, archive: seq<Entry>, n: nat, st: State, end: Step)
    requires n <= |archive| && st.remaining >= 0 && end == ImportFrom(lim, names, st, archive, n)
    ensures end.state.remaining >= -1
    ensures end.Continue? ==> end.state.remaining == st.remaining - (Total(archive, |archive|) - Total(archive, n)) >= 0
    ensures end.Continue? ==> end.state.entries == st.entries + (|archive| - n)
    ensures end.Continue? && st.entries <= lim.entries ==> end.state.entries <= lim.entries
    decreases |archive| - n
  {
    if n == |archive| {
    } else {
      var s := ImportEntry(lim, names, st, archive[n]);
      ImportEntryAccounts(lim, names, st, archive[n], s);
      if s.Continue? {
        CountersReached(lim, names, archive, n + 1, s.state, end);
        TotalNext(archive, n);
      }
    }
  }

  lemma {:induction false} TotalNext(archive: seq<Entry>, n: nat)
    requires n < |archive| && archive[n].Entry?
    ensures Total(archive, n + 1) == Total(archive, n) + if archive[n].kind.Regular? then |archive[n].data| else 0
  {
  }

  lemma {:induction false} KeysReached(lim: Limits, names: Names, archive: seq<Entry>, n: nat, st: State, end: Step)
    requires n <= |archive| && st.remaining >= 0 && end == ImportFrom(lim, names, st, archive, n) && end.Continue?
    ensures forall k :: n <= k < |archive| ==> Accepted(lim, names, archive[k])
    ensures forall k :: n <= k < |archive| ==> KeyOf(names, archive[k]) !in st.seen
    ensures forall j, k :: n <= j < k < |archive| ==> KeyOf(names, archive[j]) != KeyOf(names, archive[k])
    decreases |archive| - n
  {
    if n == |archive| {
    } else {
      var s := ImportEntry(lim, names, st, archive[n]);
      ImportEntryAccounts(lim, names, st, archive[n], s);
      KeysReached(lim, names, archive, n + 1, s.state, end);
    }
  }

  // ---- what reaches the disk ----------------------------------------------------------------

  /** The files the import writes from entry `i` on, in order, up to where it stops. */
  function Written(lim: Limits, names: Names, st: State, archive: seq<Entry>, i: nat): seq<Path>
    requires i <= |archive| && st.remaining >= 0
    decreases |archive| - i
  {
    if i == |archive| then []
    else
      EntryKeepsBudget(lim, names, st, archive[i]);
      var s := ImportEntry(lim, names, st, archive[i]);
      (if Wrote(lim, names, st, archive[i]) then [PathOf(names, archive[i])] else []) +
      (if s.Stop? then [] else Written(lim, names, s.state, archive, i + 1))
  }

  /** The files in `done`, read from the disk, hold exactly what has been charged; every other
      file is as it was in `fs`. */
  ghost predicate Accounted(lim: Limits, names: Names, fs: FileSystem, st: State, done: seq<Path>) {
    && Distinct(done)
    && (forall p :: p in done ==> p in st.fs.files && |st.fs.files[p].bytes| <= lim.entrySize + 1)
    && SizeOf(st.fs.files, done) == lim.totalSize - st.remaining
    && (forall p :: p in done ==> names.key(Join(p)) in st.seen)
    && (forall p :: p in fs.files ==> p in st.fs.files)
    && (forall p :: p in st.fs.files && p !in done ==> p in fs.files && st.fs.files[p] == fs.files[p])
  }

  lemma {:induction false} KeyOfPath(names: Names, e: Entry)
    requires Named(names, e)
    ensures names.key(Join(PathOf(names, e))) == KeyOf(names, e)
  {
    JoinOfSplit(names.safe(e.name).value);
  }

  lemma {:induction false} AccountedNext(lim: Limits, names: Names, fs: FileSystem, st: State, done: seq<Path>,
                                         next: State, path: Path, file: File)
    requires Accounted(lim, names, fs, st, done) && path !in done && |file.bytes| <= lim.entrySize + 1
    requires next.fs.files == st.fs.files[path := file] && next.remaining == st.remaining - |file.bytes|
    requires st.seen <= next.seen && names.key(Join(path)) in next.seen
    ensures Accounted(lim, names, fs, next, done + [path])
  {
    var all, now := done + [path], next.fs.files;
    assert forall p :: p in all <==> p in done || p == path;
    assert forall p :: p in done ==> p in now && now[p] == st.fs.files[p];
    SizeOfMore(st.fs.files, now, done, path, all);
    assert Distinct(all);
  }

  lemma {:induction false} SizeOfMore(was: map<Path, File>, now: map<Path, File>, done: seq<Path>, path: Path,
                                      all: seq<Path>)
    requires forall p :: p in done ==> p in was && p in now && now[p] == was[p]
    requires path in now && all == done + [path]
    ensures SizeOf(now, all) == SizeOf(was, done) + |now[path].bytes|
  {
    SameSize(was, now, done);
    assert all[..|done|] == done;
  }

  lemma {:induction false} EntryIsAccounted(lim: Limits, names: Names, fs: FileSystem, st: State, done: seq<Path>,
                                            e: Entry, s: Step)
    requires st.remaining >= 0 && s == ImportEntry(lim, names, st, e) && Accounted(lim, names, fs, st, done)
    ensures Accounted(lim, names, fs, s.state, done + if Wrote(lim, names, st, e) then [PathOf(names, e)] else [])
  {
    var path := PathOf(names, e);
    EntryEffect(lim, names, st, e, s, st.remaining - s.state.remaining);
    if Wrote(lim, names, st, e) {
      KeyOfPath(names, e);
      AccountedNext(lim, names, fs, st, done, s.state, path, s.state.fs.files[path]);
    } else {
      assert done + [] == done;
    }
  }

  /** One entry of an accounted run: the files written so far, and whether it stops. */
  lemma {:induction false} AccountStep(lim: Limits, names: Names, fs: FileSystem, archive: seq<Entry>, n: nat,
                                       st: State, done: seq<Path>, end: Step, all: seq<Path>)
      returns (so: seq<Path>, next: State)
    requires n < |archive| && st.remaining >= 0 && end == ImportFrom(lim, names, st, archive, n)
    requires Accounted(lim, names, fs, st, done) && all == done + Written(lim, names, st, archive, n)
    ensures Accounted(lim, names, fs, next, so)
    ensures
      || (end.state == next && all == so)
      || (next.remaining >= 0 && end == ImportFrom(lim, names, next, archive, n + 1)
          && all == so + Written(lim, names, next, archive, n + 1))
  {
    var s := ImportEntry(lim, names, st, archive[n]);
    var here := if Wrote(lim, names, st, archive[n]) then [PathOf(names, archive[n])] else [];
    EntryKeepsBudget(lim, names, st, archive[n]);
    EntryIsAccounted(lim, names, fs, st, done, archive[n], s);
    so, next := done + here, s.state;
    Seqs.Assoc(done, here, if s.Stop? then [] else Written(lim, names, next, archive, n + 1));
    assert so + [] == so;
  }

  lemma {:induction false} RunIsAccounted(lim: Limits, names: Names, fs: FileSystem, archive: seq<Entry>, n: nat,
                                          st: State, done: seq<Path>, end: Step, all: seq<Path>)
    requires n <= |archive| && st.remaining >= 0 && end == ImportFrom(lim, names, st, archive, n)
    requires Accounted(lim, names, fs, st, done) && all == done + Written(lim, names, st, archive, n)
    ensures Accounted(lim, names, fs, end.state, all)
    decreases |archive| - n
  {
    if n == |archive| {
      assert done + [] == done;
    } else {
      var so, next := AccountStep(lim, names, fs, archive, n, st, done, end, all);
      if !(end.state == next && all == so) {
        RunIsAccounted(lim, names, fs, archive, n + 1, next, so, end, all);
      }
    }
  }

  /** For every archive, starting directory and outcome: the files written are different
      files, each is at most one byte past the limit for one entry, read back from the disk
      they hold exactly the bytes charged against the budget, and no other file changed. */
  lemma {:induction false} DiskMatchesBudget(lim: Limits, names: Names, fs: FileSystem, archive: seq<Entry>)
    ensures var end := Import(lim, names, fs, archive);
            Accounted(lim, names, fs, end.state, Written(lim, names, Begin(lim, fs), archive, 0))
  {
    var begin := Begin(lim, fs);
    assert Accounted(lim, names, fs, begin, []);
    var written := Written(lim, names, begin, archive, 0);
    assert [] + written == written;
    RunIsAccounted(lim, names, fs, archive, 0, begin, [], Import(lim, names, fs, archive), written);
  }

  /** Into an empty directory, what was written is all there is. */
  lemma {:induction false} EmptyDirHoldsTheBudget(lim: Limits, names: Names, archive: seq<Entry>)
    ensures var end := Import(lim, names, EMPTY_DIR, archive);
            var written := Written(lim, names, Begin(lim, EMPTY_DIR), archive, 0);
            && (forall p :: p in end.state.fs.files <==> p in written)
            && SizeOf(end.state.fs.files, written) == lim.totalSize - end.state.remaining
  {
    DiskMatchesBudget(lim, names, EMPTY_DIR, archive);
  }

  /** Over every archive, failing runs included, the files left on the disk that are new or
      changed hold together at most one byte more than the whole-archive limit, and each at
      most one more than the limit for one entry; on success the total, each file and the
      number of entries are within their limits and no two entries land on one file. */
  lemma {:induction false} ImportIsBounded(lim: Limits, names: Names, fs: FileSystem, archive: seq<Entry>)
    ensures var end := Import(lim, names, fs, archive);
            && (forall paths {:trigger AllChanged(fs, end.state.fs, paths)} ::
                  AllChanged(fs, end.state.fs, paths) ==> SizeOf(end.state.fs.files, paths) <= lim.totalSize + 1)
            && (forall p :: Changed(fs, end.state.fs, p) ==> |end.state.fs.files[p].bytes| <= lim.entrySize + 1)
            && (end.Continue? ==>
                  && |archive| <= lim.entries && Total(archive, |archive|) <= lim.totalSize
                  && (forall k :: 0 <= k < |archive| ==> Accepted(lim, names, archive[k]))
                  && (forall j, k :: 0 <= j < k < |archive| ==> KeyOf(names, archive[j]) != KeyOf(names, archive[k])))
  {
    var end := Import(lim, names, fs, archive);
    CountersReached(lim, names, archive, 0, Begin(lim, fs), end);
    NothingIsCharged(fs);
    ChargedReached(lim, names, fs, archive, 0, Begin(lim, fs), end);
    DiskMatchesBudget(lim, names, fs, archive);
    if end.Continue? {
      KeysReached(lim, names, archive, 0, Begin(lim, fs), end);
    }
  }

  lemma {:induction false} ChargedReached(lim: Limits, names: Names, fs: FileSystem, archive: seq<Entry>, n: nat,
                                          st: State, end: Step)
    requires n <= |archive| && st.remaining >= 0 && end == ImportFrom(lim, names, st, archive, n)
    requires Charged(fs, st.fs, lim.totalSize - st.remaining)
    ensures Charged(fs, end.state.fs, lim.totalSize - end.state.remaining)
    decreases |archive| - n
  {
    if n == |archive| {
    } else {
      var s := ImportEntry(lim, names, st, archive[n]);
      EntryKeepsBudget(lim, names, st, archive[n]);
      EntryIsCharged(lim, names, fs, st, archive[n], s);
      if s.Continue? {
        ChargedReached(lim, names, fs, archive, n + 1, s.state, end);
      }
    }
  }

  // ---- where it reaches the disk --------------------------------------------------------------

  /** The regular entry `e` accounts for the file at `p`, which holds a beginning of its bytes. */
  predicate Left(names: Names, e: Entry, p: Path, bytes: string) {
    Named(names, e) && e.kind.Regular? && PathOf(names, e) == p && bytes <= e.data
  }

  /** The entry `e` accounts for the directory `d`. */
  predicate Needs(names: Names, e: Entry, d: Path) {
    Named(names, e) && d <= PathOf(names, e)
  }

  /** Nothing is lost, and whatever is new or changed since `fs` is where some entry's accepted
      name puts it. */
  ghost predicate Footprint(names: Names, fs: FileSystem, archive: seq<Entry>, now: FileSystem) {
    && (forall p :: p in fs.files ==> p in now.files)
    && fs.dirs <= now.dirs
    && (forall p :: Changed(fs, now, p) ==>
          exists k :: 0 <= k < |archive| && Left(names, archive[k], p, now.files[p].bytes))
    && (forall d :: d in now.dirs && d !in fs.dirs ==> exists k :: 0 <= k < |archive| && Needs(names, archive[k], d))
  }

  lemma {:induction false} FootprintNext(lim: Limits, names: Names, fs: FileSystem, archive: seq<Entry>, n: nat,
                                         st: State, s: Step)
    requires n < |archive| && st.remaining >= 0 && s == ImportEntry(lim, names, st, archive[n])
    requires Footprint(names, fs, archive, st.fs)
    ensures Footprint(names, fs, archive, s.state.fs)
  {
    var e, now := archive[n], s.state.fs;
    EntryEffect(lim, names, st, e, s, st.remaining - s.state.remaining);
    forall p | Changed(fs, now, p)
      ensures exists k :: 0 <= k < |archive| && Left(names, archive[k], p, now.files[p].bytes)
    {
      if Wrote(lim, names, st, e) && p == PathOf(names, e) {
        assert Left(names, archive[n], p, now.files[p].bytes);
      } else {
        assert Changed(fs, st.fs, p);
      }
    }
    forall d | d in now.dirs && d !in fs.dirs
      ensures exists k :: 0 <= k < |archive| && Needs(names, archive[k], d)
    {
      if d !in st.fs.dirs {
        assert Needs(names, archive[n], d);
      }
    }
  }

  lemma {:induction false} FootprintReached(lim: Limits, names: Names, fs: FileSystem, archive: seq<Entry>, n: nat,
                                            st: State, end: Step)
    requires n <= |archive| && st.remaining >= 0 && end == ImportFrom(lim, names, st, archive, n)
    requires Footprint(names, fs, archive, st.fs)
    ensures Footprint(names, fs, archive, end.state.fs)
    decreases |archive| - n
  {
    if n == |archive| {
    } else {
      var s := ImportEntry(lim, names, st, archive[n]);
      EntryKeepsBudget(lim, names, st, archive[n]);
      FootprintNext(lim, names, fs, archive, n, st, s);
      if s.Continue? {
        FootprintReached(lim, names, fs, archive, n + 1, s.state, end);
      }
    }
  }

  /** For every archive, starting directory and outcome: no file is lost, a new or changed
      file holds a beginning of the bytes of a regular entry whose name puts it there, and a
      new directory is one on the way to an accepted name. */
  lemma {:induction false} ImportLeaves(lim: Limits, names: Names, fs: FileSystem, archive: seq<Entry>)
    ensures Footprint(names, fs, archive, Import(lim, names, fs, archive).state.fs)
  {
    FootprintReached(lim, names, fs, archive, 0, Begin(lim, fs), Import(lim, names, fs, archive));
  }

  // ---- what a successful import leaves ------------------------------------------------------

  predicate IsFile(lim: Limits, names: Names, e: Entry) {
    Accepted(lim, names, e) && e.kind.Regular?
  }

  /** The file tree after `n` accepted entries, started on `fs`. */
  ghost predicate ContentsDone(lim: Limits, names: Names, fs: FileSystem, archive: seq<Entry>, n: nat, now: FileSystem)
    requires n <= |archive|
  {
    && (forall k :: 0 <= k < n && IsFile(lim, names, archive[k]) ==>
          && PathOf(names, archive[k]) in now.files
          && now.files[PathOf(names, archive[k])].bytes == archive[k].data
          && (PathOf(names, archive[k]) !in fs.files ==> now.files[PathOf(names, archive[k])].exec == archive[k].exec))
    && (forall p :: p in fs.files ==> p in now.files)
    && (forall p :: p in now.files ==>
          || (p in fs.files && now.files[p] == fs.files[p])
          || exists k :: 0 <= k < n && IsFile(lim, names, archive[k]) && PathOf(names, archive[k]) == p)
  }

  lemma {:induction false} ImportEntryFiles(lim: Limits, names: Names, st: State, e: Entry)
    requires st.remaining >= 0 && ImportEntry(lim, names, st, e).Continue?
    ensures Accepted(lim, names, e)
    ensures var now := ImportEntry(lim, names, st, e).state.fs.files;
            var was, path := st.fs.files, PathOf(names, e);
            if e.kind.Regular? then now == was[path := File(e.data, if path in was then was[path].exec else e.exec)]
            else now == was
  {
    if e.kind.Regular? {
      assert e.data[..|e.data|] == e.data;
    }
  }

  lemma {:induction false} ContentsNext(lim: Limits, names: Names, fs: FileSystem, archive: seq<Entry>, n: nat,
                                        st: State)
    requires n < |archive| && st.remaining >= 0 && ContentsDone(lim, names, fs, archive, n, st.fs)
    requires ImportEntry(lim, names, st, archive[n]).Continue?
    requires forall k :: 0 <= k < n ==> Accepted(lim, names, archive[k])
    requires forall k :: 0 <= k < n ==> PathOf(names, archive[k]) != PathOf(names, archive[n])
    ensures ContentsDone(lim, names, fs, archive, n + 1, ImportEntry(lim, names, st, archive[n]).state.fs)
  {
    var e := archive[n];
    ImportEntryFiles(lim, names, st, e);
    var now := ImportEntry(lim, names, st, e).state.fs;
    forall p | p in now.files ensures
        || (p in fs.files && now.files[p] == fs.files[p])
        || exists k :: 0 <= k < n + 1 && IsFile(lim, names, archive[k]) && PathOf(names, archive[k]) == p
    {
      if IsFile(lim, names, e) && p == PathOf(names, e) {
        assert IsFile(lim, names, archive[n]) && PathOf(names, archive[n]) == p;
      } else if !(p in fs.files && st.fs.files[p] == fs.files[p]) {
        var k :| 0 <= k < n && IsFile(lim, names, archive[k]) && PathOf(names, archive[k]) == p;
      }
    }
  }

  /** Different collision keys mean different files. */
  lemma {:induction false} KeysSeparatePaths(names: Names, d: Entry, e: Entry)
    requires d.Entry? && names.safe(d.name).Ok? && e.Entry? && names.safe(e.name).Ok?
    requires KeyOf(names, d) != KeyOf(names, e)
    ensures PathOf(names, d) != PathOf(names, e)
  {
    JoinOfSplit(names.safe(d.name).value);
    JoinOfSplit(names.safe(e.name).value);
  }

  lemma {:induction false} ContentsReached(lim: Limits, names: Names, fs: FileSystem, archive: seq<Entry>, n: nat,
                                           st: State, end: Step)
    requires n <= |archive| && st.remaining >= 0 && ContentsDone(lim, names, fs, archive, n, st.fs)
    requires forall k :: 0 <= k < |archive| ==> Accepted(lim, names, archive[k])
    requires forall j, k :: 0 <= j < k < |archive| ==> PathOf(names, archive[j]) != PathOf(names, archive[k])
    requires end == ImportFrom(lim, names, st, archive, n) && end.Continue?
    ensures ContentsDone(lim, names, fs, archive, |archive|, end.state.fs)
    decreases |archive| - n
  {
    if n == |archive| {
    } else {
      var s := ImportEntry(lim, names, st, archive[n]);
      EntryKeepsBudget(lim, names, st, archive[n]);
      ContentsNext(lim, names, fs, archive, n, st);
      ContentsReached(lim, names, fs, archive, n + 1, s.state, end);
    }
  }

  /** A successful import has written every regular entry in full, and touched nothing else. */
  lemma {:induction false} ImportWritesArchive(lim: Limits, names: Names, fs: FileSystem, archive: seq<Entry>)
    requires Import(lim, names, fs, archive).Continue?
    ensures ContentsDone(lim, names, fs, archive, |archive|, Import(lim, names, fs, archive).state.fs)
  {
    ImportIsBounded(lim, names, fs, archive);
    forall j, k | 0 <= j < k < |archive| ensures PathOf(names, archive[j]) != PathOf(names, archive[k]) {
      KeysSeparatePaths(names, archive[j], archive[k]);
    }
    ContentsReached(lim, names, fs, archive, 0, Begin(lim, fs), Import(lim, names, fs, archive));
  }

  // ---- export -------------------------------------------------------------------------------

  /** What a directory walk meets below the bundle root. */
  datatype Node = DirNode(rel: string) | FileNode(rel: string, file: File) | SpecialNode(rel: string)

  datatype ExportEntry = ExportEntry(rel: string, file: File)

  predicate ExportLe(a: ExportEntry, b: ExportEntry) {
    StringLe(a.rel, b.rel)
  }

  function FilesOf(walk: seq<Node>): seq<ExportEntry> {
    if walk == [] then []
    else
      var rest := FilesOf(walk[..|walk| - 1]);
      var node := walk[|walk| - 1];
      if node.FileNode? then rest + [ExportEntry(node.rel, node.file)] else rest
  }

  predicate Walkable(walk: seq<Node>) {
    forall i :: 0 <= i < |walk| ==> !walk[i].SpecialNode?
  }

  /** collectExportEntries: None when the walk meets anything but files and directories. */
  method CollectExportEntries(walk: seq<Node>) returns (entries: Option<seq<ExportEntry>>)
    ensures entries.Some? <==> Walkable(walk)
    ensures entries.Some? ==> entries.value == Sort(ExportLe, FilesOf(walk))
  {
    var list: seq<ExportEntry> := [];
    for i := 0 to |walk|
      invariant list == FilesOf(walk[..i])
      invariant Walkable(walk[..i])
    {
      assert walk[..i + 1][..i] == walk[..i];
      match walk[i] {
        case DirNode(_) =>
        case FileNode(rel, file) =>
          list := list + [ExportEntry(rel, file)];
        case SpecialNode(_) =>
          return None;
      }
    }
    assert walk[..|walk|] == walk;
    entries := Some(Sort(ExportLe, list));
  }

  function HeaderOf(x: ExportEntry): Entry {
    Entry(x.rel, Regular, x.file.exec, x.file.bytes, false)
  }

  /** The archive exportTar writes. */
  function Archive(entries: seq<ExportEntry>): seq<Entry> {
    seq(|entries|, i requires 0 <= i < |entries| => HeaderOf(entries[i]))
  }

  method ExportTar(walk: seq<Node>) returns (archive: Option<seq<Entry>>)
    ensures archive.Some? <==> Walkable(walk)
    ensures archive.Some? ==> archive.value == Archive(Sort(ExportLe, FilesOf(walk)))
  {
    var entries := CollectExportEntries(walk);
    if entries.None? {
      return None;
    }
    var out: seq<Entry> := [];
    for i := 0 to |entries.value|
      invariant |out| == i && forall k :: 0 <= k < i ==> out[k] == HeaderOf(entries.value[k])
    {
      out := out + [HeaderOf(entries.value[i])];
    }
    assert out == Archive(entries.value);
    archive := Some(out);
  }

  lemma {:induction false} ExportOrdering()
    ensures Ordering(ExportLe)
  {
    StringOrder();
  }

  /** `walk` meets exactly the files of `tree`, each once. */
  ghost predicate Meets(walk: seq<Node>, tree: map<string, File>) {
    && Walkable(walk)
    && (forall x :: x in FilesOf(walk) ==> x.rel in tree && x.file == tree[x.rel])
    && (forall r :: r in tree ==> ExportEntry(r, tree[r]) in FilesOf(walk))
    && Distinct(FilesOf(walk))
  }

  /** Two walks of one tree, in whatever order, export the same archive. */
  lemma {:induction false} ExportForgetsWalkOrder(walk: seq<Node>, other: seq<Node>)
    requires multiset(FilesOf(walk)) == multiset(FilesOf(other))
    requires forall a, b :: a in FilesOf(walk) && b in FilesOf(walk) && a.rel == b.rel ==> a == b
    ensures Archive(Sort(ExportLe, FilesOf(walk))) == Archive(Sort(ExportLe, FilesOf(other)))
  {
    ExportOrdering();
    StringOrder();
    SortForgetsOrder(ExportLe, FilesOf(walk), FilesOf(other));
  }

  // ---- import inverts export -------------------------------------------------------------------

  predicate SameKey(names: Names, d: Entry, e: Entry) {
    KeyOf(names, d) == KeyOf(names, e)
  }

  /** `d` lands on `e` or on a directory above it. */
  predicate InTheWay(names: Names, d: Entry, e: Entry) {
    PathOf(names, d) <= PathOf(names, e)
  }

  /** An archive of regular files that fits the limits, with no two entries on one file and
      no file where another entry needs a directory. */
  ghost predicate Fits(lim: Limits, names: Names, archive: seq<Entry>) {
    && |archive| <= lim.entries && Total(archive, |archive|) <= lim.totalSize
    && (forall k :: 0 <= k < |archive| ==> IsFile(lim, names, archive[k]))
    && (forall j, k {:trigger SameKey(names, archive[j], archive[k])} ::
          0 <= j < |archive| && 0 <= k < |archive| && j != k ==> !SameKey(names, archive[j], archive[k]))
    && (forall j, k {:trigger InTheWay(names, archive[j], archive[k])} ::
          0 <= j < |archive| && 0 <= k < |archive| && j != k ==> !InTheWay(names, archive[j], archive[k]))
  }

  /** Only the first `n` entries have left files, directories and keys behind. */
  ghost predicate OnlyFirst(names: Names, archive: seq<Entry>, n: nat, st: State)
    requires n <= |archive|
  {
    && (forall p :: p in st.fs.files ==> exists k :: 0 <= k < n && PathOf(names, archive[k]) == p)
    && (forall d :: d in st.fs.dirs ==> exists k :: 0 <= k < n && d <= PathOf(names, archive[k]))
    && (forall key :: key in st.seen ==> exists k :: 0 <= k < n && KeyOf(names, archive[k]) == key)
  }

  lemma {:induction false} WayIsClear(lim: Limits, names: Names, archive: seq<Entry>, n: nat, st: State)
    requires n < |archive| && Fits(lim, names, archive) && OnlyFirst(names, archive, n, st)
    ensures PathOf(names, archive[n]) != [] && CanWrite(st.fs, PathOf(names, archive[n]))
  {
    var path := PathOf(names, archive[n]);
    assert IsFile(lim, names, archive[n]);
    forall p | p in st.fs.files ensures !(p <= path) {
      var k :| 0 <= k < n && PathOf(names, archive[k]) == p;
      assert !InTheWay(names, archive[k], archive[n]);
    }
    forall d | d in st.fs.dirs ensures d != path {
      var k :| 0 <= k < n && d <= PathOf(names, archive[k]);
      assert !InTheWay(names, archive[n], archive[k]);
    }
    forall p | p in Prefixes(Parent(path)) ensures p <= path && p != path {
      var i :| 0 <= i <= |Parent(path)| && p == Parent(path)[..i];
    }
  }

  lemma {:induction false} EntryContinues(lim: Limits, names: Names, archive: seq<Entry>, n: nat, st: State, s: Step)
    requires n < |archive| && Fits(lim, names, archive) && OnlyFirst(names, archive, n, st)
    requires st.entries == n && st.remaining == lim.totalSize - Total(archive, n)
    requires Total(archive, n + 1) <= lim.totalSize
    requires st.remaining >= 0 && s == ImportEntry(lim, names, st, archive[n])
    ensures s.Continue? && s.state.entries == n + 1 && s.state.remaining == lim.totalSize - Total(archive, n + 1)
    ensures s.state.fs.files.Keys == st.fs.files.Keys + {PathOf(names, archive[n])}
    ensures s.state.fs.dirs == st.fs.dirs + Prefixes(Parent(PathOf(names, archive[n])))
    ensures s.state.seen == st.seen + {KeyOf(names, archive[n])}
  {
    WayIsClear(lim, names, archive, n, st);
    assert IsFile(lim, names, archive[n]);
    TotalNext(archive, n);
    forall key | key in st.seen ensures key != KeyOf(names, archive[n]) {
      var k :| 0 <= k < n && KeyOf(names, archive[k]) == key;
      assert !SameKey(names, archive[k], archive[n]);
    }
  }

  lemma {:induction false} OnlyFirstNext(names: Names, archive: seq<Entry>, n: nat, st: State, next: State)
    requires n < |archive| && OnlyFirst(names, archive, n, st) && PathOf(names, archive[n]) != []
    requires next.fs.files.Keys == st.fs.files.Keys + {PathOf(names, archive[n])}
    requires next.fs.dirs == st.fs.dirs + Prefixes(Parent(PathOf(names, archive[n])))
    requires next.seen == st.seen + {KeyOf(names, archive[n])}
    ensures OnlyFirst(names, archive, n + 1, next)
  {
    forall p | p in next.fs.files ensures exists k :: 0 <= k < n + 1 && PathOf(names, archive[k]) == p {
      if p != PathOf(names, archive[n]) {
        var k :| 0 <= k < n && PathOf(names, archive[k]) == p;
      }
    }
    forall d | d in next.fs.dirs ensures exists k :: 0 <= k < n + 1 && d <= PathOf(names, archive[k]) {
      if d in st.fs.dirs {
        var k :| 0 <= k < n && d <= PathOf(names, archive[k]);
      } else {
        assert d <= PathOf(names, archive[n]);
      }
    }
    forall key | key in next.seen ensures exists k :: 0 <= k < n + 1 && KeyOf(names, archive[k]) == key {
      if key != KeyOf(names, archive[n]) {
        var k :| 0 <= k < n && KeyOf(names, archive[k]) == key;
      }
    }
  }

  lemma {:induction false} TotalGrows(archive: seq<Entry>, n: nat, m: nat)
    requires n <= m <= |archive|
    ensures Total(archive, n) <= Total(archive, m)
    decreases m
  {
    if n < m {
      TotalGrows(archive, n, m - 1);
    }
  }

  /** Where the loop stands after `n` entries of a fitting archive. */
  ghost predicate OnTrack(lim: Limits, names: Names, archive: seq<Entry>, n: nat, st: State)
    requires n <= |archive|
  {
    && OnlyFirst(names, archive, n, st)
    && st.entries == n && st.remaining == lim.totalSize - Total(archive, n) && st.remaining >= 0
  }

  lemma {:induction false} StaysOnTrack(lim: Limits, names: Names, archive: seq<Entry>, n: nat, st: State, s: Step)
    requires n < |archive| && Fits(lim, names, archive) && OnTrack(lim, names, archive, n, st)
    requires s == ImportEntry(lim, names, st, archive[n])
    ensures s.Continue? && OnTrack(lim, names, archive, n + 1, s.state)
  {
    TotalGrows(archive, n + 1, |archive|);
    EntryContinues(lim, names, archive, n, st, s);
    WayIsClear(lim, names, archive, n, st);
    OnlyFirstNext(names, archive, n, st, s.state);
  }

  /** Entry `m` of a fitting archive is taken. */
  lemma {:induction false} TrackStep(lim: Limits, names: Names, archive: seq<Entry>, m: nat, n: nat, st: State,
                                     end: Step)
      returns (next: State)
    requires n == m + 1 <= |archive| && Fits(lim, names, archive) && OnTrack(lim, names, archive, m, st)
    requires end == ImportFrom(lim, names, st, archive, m)
    ensures OnTrack(lim, names, archive, n, next) && end == ImportFrom(lim, names, next, archive, n)
  {
    var s := ImportEntry(lim, names, st, archive[m]);
    StaysOnTrack(lim, names, archive, m, st, s);
    next := s.state;
  }

  lemma {:induction false} TrackStart(lim: Limits, names: Names, archive: seq<Entry>)
    ensures OnTrack(lim, names, archive, 0, Begin(lim, EMPTY_DIR))
  {
  }

  /** Where the import of a fitting archive stands after `n` entries. */
  lemma {:induction false} Tracked(lim: Limits, names: Names, archive: seq<Entry>, n: nat,
                                   end: Step) returns (st: State)
    requires n <= |archive| && Fits(lim, names, archive) && end == Import(lim, names, EMPTY_DIR, archive)
    ensures OnTrack(lim, names, archive, n, st) && end == ImportFrom(lim, names, st, archive, n)
    decreases n
  {
    if n == 0 {
      TrackStart(lim, names, archive);
      st := Begin(lim, EMPTY_DIR);
    } else {
      var before := Tracked(lim, names, archive, n - 1, end);
      st := TrackStep(lim, names, archive, n - 1, n, before, end);
    }
  }

  lemma {:induction false} FittingContinues(lim: Limits, names: Names, archive: seq<Entry>)
    requires Fits(lim, names, archive)
    ensures Import(lim, names, EMPTY_DIR, archive).Continue?
  {
    var st := Tracked(lim, names, archive, |archive|, Import(lim, names, EMPTY_DIR, archive));
  }

  /** An archive that fits is imported into an empty directory exactly as it is. */
  lemma {:induction false} FittingArchive(lim: Limits, names: Names, archive: seq<Entry>)
    requires Fits(lim, names, archive)
    ensures var end := Import(lim, names, EMPTY_DIR, archive);
            && end.Continue?
            && (forall k :: 0 <= k < |archive| ==>
                  && PathOf(names, archive[k]) in end.state.fs.files
                  && end.state.fs.files[PathOf(names, archive[k])] == File(archive[k].data, archive[k].exec))
            && (forall p :: p in end.state.fs.files ==>
                  exists k :: 0 <= k < |archive| && PathOf(names, archive[k]) == p)
  {
    FittingContinues(lim, names, archive);
    ImportWritesArchive(lim, names, EMPTY_DIR, archive);
    assert forall k :: 0 <= k < |archive| ==> IsFile(lim, names, archive[k]);
  }

  /** A bundle tree that import will take back: clean names, no two on one file anywhere,
      within the limits; being a file tree, no file is also a directory of another. */
  ghost predicate Exportable(lim: Limits, names: Names, tree: map<string, File>) {
    && (forall r :: r in tree ==> names.safe(r) == Ok(r) && |tree[r].bytes| <= lim.entrySize)
    && (forall r, q :: r in tree && q in tree && r != q ==> names.key(r) != names.key(q))
    && (forall r, q :: r in tree && q in tree && r != q ==> !(Split(r) <= Split(q)))
  }

  lemma {:induction false} ExportFits(lim: Limits, names: Names, tree: map<string, File>, entries: seq<ExportEntry>)
    requires Exportable(lim, names, tree) && |entries| <= lim.entries
    requires forall i :: 0 <= i < |entries| ==> entries[i].rel in tree && entries[i].file == tree[entries[i].rel]
    requires Distinct(entries)
    requires Total(Archive(entries), |entries|) <= lim.totalSize
    ensures Fits(lim, names, Archive(entries))
    ensures forall i :: 0 <= i < |entries| ==> PathOf(names, Archive(entries)[i]) == Split(entries[i].rel)
  {
    var archive := Archive(entries);
    forall k | 0 <= k < |archive|
      ensures IsFile(lim, names, archive[k]) && PathOf(names, archive[k]) == Split(entries[k].rel)
           && KeyOf(names, archive[k]) == names.key(entries[k].rel)
    {
      assert names.safe(entries[k].rel) == Ok(entries[k].rel);
    }
    assert forall j, k :: 0 <= j < |entries| && 0 <= k < |entries| && j != k ==> entries[j].rel != entries[k].rel;
  }

  /** `files` is `tree`, its paths split into components. */
  ghost predicate IsTree(files: map<Path, File>, tree: map<string, File>) {
    && (forall r :: r in tree ==> Split(r) in files && files[Split(r)] == tree[r])
    && (forall p :: p in files ==> exists r :: r in tree && Split(r) == p)
  }

  /** `files` holds exactly what `entries` list. */
  ghost predicate Holds(files: map<Path, File>, entries: seq<ExportEntry>) {
    && (forall k :: 0 <= k < |entries| ==>
          Split(entries[k].rel) in files && files[Split(entries[k].rel)] == entries[k].file)
    && (forall p :: p in files ==> exists k :: 0 <= k < |entries| && Split(entries[k].rel) == p)
  }

  lemma {:induction false} FittingExport(lim: Limits, names: Names, entries: seq<ExportEntry>, archive: seq<Entry>,
                                         end: Step)
    requires Fits(lim, names, archive) && end == Import(lim, names, EMPTY_DIR, archive)
    requires |archive| == |entries| && forall k :: 0 <= k < |entries| ==> archive[k] == HeaderOf(entries[k])
    requires forall k :: 0 <= k < |entries| ==> PathOf(names, archive[k]) == Split(entries[k].rel)
    ensures end.Continue? && Holds(end.state.fs.files, entries)
  {
    FittingArchive(lim, names, archive);
    var files := end.state.fs.files;
    forall k | 0 <= k < |entries|
      ensures Split(entries[k].rel) in files && files[Split(entries[k].rel)] == entries[k].file
    {
      assert PathOf(names, archive[k]) in files;
    }
    forall p | p in files ensures exists k :: 0 <= k < |entries| && Split(entries[k].rel) == p {
      var k :| 0 <= k < |archive| && PathOf(names, archive[k]) == p;
    }
  }

  lemma {:induction false} FilesAreTheTree(tree: map<string, File>, entries: seq<ExportEntry>, files: map<Path, File>)
    requires Holds(files, entries)
    requires forall x :: x in entries ==> x.rel in tree && x.file == tree[x.rel]
    requires forall r :: r in tree ==> ExportEntry(r, tree[r]) in entries
    ensures IsTree(files, tree)
  {
    forall r | r in tree ensures Split(r) in files && files[Split(r)] == tree[r] {
      var i :| 0 <= i < |entries| && entries[i] == ExportEntry(r, tree[r]);
    }
    forall p | p in files ensures exists r :: r in tree && Split(r) == p {
      var k :| 0 <= k < |entries| && Split(entries[k].rel) == p;
      assert entries[k] in entries;
    }
  }

  /** Importing an exported tree into an empty directory gives back exactly that tree, bytes
      and executable bits, in whatever order the export walked it. */
  lemma {:induction false} ImportInvertsExport(lim: Limits, names: Names, walk: seq<Node>, tree: map<string, File>)
    requires Meets(walk, tree) && Exportable(lim, names, tree) && |FilesOf(walk)| <= lim.entries
    requires var entries := Sort(ExportLe, FilesOf(walk)); Total(Archive(entries), |entries|) <= lim.totalSize
    ensures var end := Import(lim, names, EMPTY_DIR, Archive(Sort(ExportLe, FilesOf(walk))));
            end.Continue? && IsTree(end.state.fs.files, tree)
  {
    var entries := Sort(ExportLe, FilesOf(walk));
    SortIsPermutation(ExportLe, FilesOf(walk));
    SortKeepsDistinct(ExportLe, FilesOf(walk));
    var end := Import(lim, names, EMPTY_DIR, Archive(entries));
    ExportFits(lim, names, tree, entries);
    FittingExport(lim, names, entries, Archive(entries), end);
    FilesAreTheTree(tree, entries, end.state.fs.files);
  }

  /** With the program's own name check, for every archive, starting directory and outcome:
      joined to whatever base, each file and directory that was not there before stays
      inside, a file strictly beneath the base. */
  lemma {:induction false} ImportStaysInside(lim: Limits, lower: string -> string, fs: FileSystem,
                                             archive: seq<Entry>, base: Path)
    ensures var now := Import(lim, TarNames(lower), fs, archive).state.fs;
            && (forall p :: Changed(fs, now, p) ==> p != [] && FollowAll(At(base), p) == At(base + p))
            && (forall d :: d in now.dirs && d !in fs.dirs ==> FollowAll(At(base), d) == At(base + d))
  {
    var names := TarNames(lower);
    var now := Import(lim, names, fs, archive).state.fs;
    ImportLeaves(lim, names, fs, archive);
    forall p | Changed(fs, now, p) ensures p != [] && FollowAll(At(base), p) == At(base + p) {
      var k :| 0 <= k < |archive| && Left(names, archive[k], p, now.files[p].bytes);
      assert names.safe(archive[k].name) == SafeRelPath(archive[k].name);
      AcceptedStaysInside(archive[k].name, base);
    }
    forall d | d in now.dirs && d !in fs.dirs ensures FollowAll(At(base), d) == At(base + d) {
      var k :| 0 <= k < |archive| && Needs(names, archive[k], d);
      assert names.safe(archive[k].name) == SafeRelPath(archive[k].name);
      AcceptedNames(archive[k].name);
      FollowPlain(base, d);
    }
  }
}
