/** Assembling the package pool (core/bundle/assemble.go:36-71, 233-480,
    core/bundle/unreferenced.go:68-102).

    The pool is a map from path to bytes.  What the program cannot vouch for is arbitrary:
    the objects the store holds, what materialising an object leaves at its destination,
    the staged files, the store's index.  Hashing, digest equality, pool paths and the
    identity read out of a .deb are parameters. */
module PoolAssembly {
  import opened Wrappers
  import opened Sorting
  import P = Prune

  type Bytes = string
  type Pool = map<string, Bytes>

  datatype Identity = Identity(name: string, arch: string, version: string)

  /** The fixed functions of the program's world. */
  datatype World = World(
    hash: Bytes -> string,
    fold: string -> string,                    // digest.Equal compares folded
    poolPath: (string, string) -> string,      // "" refuses
    insidePool: string -> bool,
    isDeb: string -> bool,
    identity: Bytes -> Option<Identity>,
    versions: P.Versions)

  datatype Selection = Selection(name: string, arch: string, version: string, filename: string,
                                 size: nat, sha256: string, stagedPath: string, userSupplied: bool)

  /** One run: the plan, and everything outside it that the run depends on. */
  datatype Input = Input(
    plan: seq<Selection>,
    prune: bool,
    staged: map<string, Bytes>,
    store: map<string, Bytes>,
    lands: (string, string) -> Option<Bytes>,  // what Materialise(digest, path) leaves there
    userDigest: string -> bool)                // the store's user-supplied index

  datatype Error = Usage | Verification | Environment

  function PathOf(w: World, sel: Selection): string {
    w.poolPath(sel.name, sel.filename)
  }

  predicate SameDigest(w: World, a: string, b: string) {
    w.fold(a) == w.fold(b)
  }

  /** fileDigestMatches, of a path in the pool. */
  predicate Matches(w: World, pool: Pool, path: string, want: string) {
    want != "" && path in pool && SameDigest(w, w.hash(pool[path]), want)
  }

  // ---- one selection ----------------------------------------------------------------

  datatype Ensured =
    | InStore(digest: string, store: map<string, Bytes>)
    | Refused(error: Error, store: map<string, Bytes>)

  /** ensureInStore, with verifyStoreObject. */
  function EnsureInStore(w: World, inp: Input, store: map<string, Bytes>, sel: Selection): Ensured {
    if sel.stagedPath == "" then
      if sel.sha256 == "" then Refused(Usage, store)
      else if sel.sha256 !in store then Refused(Environment, store)
      else if !SameDigest(w, w.hash(store[sel.sha256]), sel.sha256) then Refused(Verification, store)
      else InStore(sel.sha256, store)
    else if sel.stagedPath !in inp.staged then Refused(Environment, store)
    else
      var bytes := inp.staged[sel.stagedPath];
      var got := w.hash(bytes);
      if sel.sha256 != "" && !SameDigest(w, got, sel.sha256) then Refused(Verification, store[got := bytes])
      else InStore(got, store[got := bytes])
  }

  datatype Progress = Progress(pool: Pool, store: map<string, Bytes>, indexed: seq<string>,
                               added: seq<string>, untouched: seq<string>, bytes: nat, downloaded: nat)

  datatype Step = Placed(progress: Progress) | Stopped(error: Error, pool: Pool)

  /** One turn of materialiseSelections' loop. */
  function Place(w: World, inp: Input, pr: Progress, sel: Selection): Step {
    var path := PathOf(w, sel);
    if sel.name == "" || sel.filename == "" || path == "" || !w.insidePool(path) || path in pr.indexed then
      Stopped(Usage, pr.pool)
    else
      var p := pr.(bytes := pr.bytes + sel.size, indexed := pr.indexed + [path]);
      if Matches(w, p.pool, path, sel.sha256) then Placed(p.(untouched := p.untouched + [path]))
      else
        var e := EnsureInStore(w, inp, p.store, sel);
        if e.Refused? then Stopped(e.error, p.pool)
        else
          var landed := inp.lands(path, e.digest);
          if landed.None? then Stopped(Environment, p.pool)
          else
            var pool := p.pool[path := landed.value];
            if !Matches(w, pool, path, e.digest) then Stopped(Verification, pool)
            else
              var fromStore := sel.sha256 != "" && sel.sha256 in p.store;
              Placed(p.(pool := pool, store := e.store, added := p.added + [path],
                        downloaded := if fromStore then p.downloaded else p.downloaded + sel.size))
  }

  function PlaceFrom(w: World, inp: Input, pr: Progress, sels: seq<Selection>, i: nat): Step
    requires i <= |sels|
    decreases |sels| - i
  {
    if i == |sels| then Placed(pr)
    else
      var s := Place(w, inp, pr, sels[i]);
      if s.Stopped? then s else PlaceFrom(w, inp, s.progress, sels, i + 1)
  }

  function Start(pool: Pool, store: map<string, Bytes>): Progress {
    Progress(pool, store, [], [], [], 0, 0)
  }

  /** The lists of an outcome, sorted. */
  function Finish(pr: Progress): Progress {
    pr.(added := Sort(StringLe, pr.added), untouched := Sort(StringLe, pr.untouched))
  }

  function Materialise(w: World, inp: Input, sels: seq<Selection>, pool: Pool): Step {
    var step := PlaceFrom(w, inp, Start(pool, inp.store), sels, 0);
    if step.Stopped? then step else Placed(Finish(step.progress))
  }

  // ---- pruning the pool -----------------------------------------------------------------

  /** bySelPath: the selection that owns each path. */
  function Index(w: World, sels: seq<Selection>): map<string, Selection> {
    if sels == [] then map[]
    else Index(w, sels[..|sels| - 1])[PathOf(w, sels[|sels| - 1]) := sels[|sels| - 1]]
  }

  /** Every leftover .deb has readable control data. */
  predicate Readable(w: World, idx: map<string, Selection>, pool: Pool) {
    forall p :: p in pool && w.isDeb(p) && p !in idx ==> w.identity(pool[p]).Some?
  }

  /** The entry collectPoolEntries makes of one .deb of the pool. */
  function EntryOf(w: World, inp: Input, idx: map<string, Selection>, pool: Pool, p: string): P.PoolEntry
    requires p in pool && (p !in idx ==> w.identity(pool[p]).Some?)
  {
    if p in idx then
      P.PoolEntry(idx[p].name, idx[p].arch, idx[p].version, p, idx[p].userSupplied, true)
    else
      var id := w.identity(pool[p]).value;
      P.PoolEntry(id.name, id.arch, id.version, p, inp.userDigest(w.hash(pool[p])), false)
  }

  /** The pool holds a higher version of the unprotected .deb at `p`. */
  predicate Outdated(w: World, inp: Input, idx: map<string, Selection>, pool: Pool, p: string)
    requires Readable(w, idx, pool)
  {
    && p in pool && w.isDeb(p)
    && var e := EntryOf(w, inp, idx, pool, p);
       && w.versions.parses(e.version) && !e.userSupplied && !e.lockReferenced
       && exists q :: q in pool && w.isDeb(q) && P.Below(w.versions, e, EntryOf(w, inp, idx, pool, q))
  }

  function OutdatedPaths(w: World, inp: Input, idx: map<string, Selection>, pool: Pool): set<string>
    requires Readable(w, idx, pool)
  {
    set p | p in pool && Outdated(w, inp, idx, pool, p)
  }

  // ---- one pass ---------------------------------------------------------------------------

  datatype Report = Report(indexed: seq<string>, added: seq<string>, untouched: seq<string>,
                           removed: set<string>, unreferenced: set<string>, bytes: nat)

  datatype Outcome = Success(pool: Pool, report: Report) | Failure(error: Error, pool: Pool)

  function Elements<T>(s: seq<T>): set<T> {
    set x | x in s
  }

  /** The stages of assemble that touch the pool, in their order. */
  function Pass(w: World, inp: Input, sels: seq<Selection>, pool: Pool): Outcome {
    var step := Materialise(w, inp, sels, pool);
    if step.Stopped? then Failure(step.error, step.pool)
    else
      var pr, idx := step.progress, Index(w, sels);
      if inp.prune && !Readable(w, idx, pr.pool) then Failure(Environment, pr.pool)
      else
        var removed := if inp.prune then OutdatedPaths(w, inp, idx, pr.pool) else {};
        var left := pr.pool - removed;
        Success(left, Report(pr.indexed, pr.added, pr.untouched, removed, left.Keys - Elements(pr.indexed), pr.bytes))
  }

  /** resolve.SortSelections' order. */
  predicate SelectionLe(a: Selection, b: Selection) {
    if a.name != b.name then StringLe(a.name, b.name)
    else if a.arch != b.arch then StringLe(a.arch, b.arch)
    else StringLe(a.version, b.version)
  }

  function Assemble(w: World, inp: Input, pool: Pool): Outcome {
    Pass(w, inp, Sort(SelectionLe, inp.plan), pool)
  }

  // ---- the program --------------------------------------------------------------------------

  /** `list` names the elements of `s`, each once, in string order. */
  ghost predicate Lists(list: seq<string>, s: set<string>) {
    Elements(list) == s && Distinct(list) && Sorted(StringLe, list)
  }

  lemma {:induction false} ListsOfSort(list: seq<string>, s: set<string>)
    requires Elements(list) == s && Distinct(list)
    ensures Lists(Sort(StringLe, list), s)
  {
    StringOrder();
    SortIsSorted(StringLe, list);
    SortIsPermutation(StringLe, list);
    SortKeepsDistinct(StringLe, list);
  }

  /** A directory walk: every path of the pool, once, in some order. */
  ghost predicate Walks(walk: seq<string>, pool: Pool) {
    Elements(walk) == pool.Keys && Distinct(walk)
  }

  ghost predicate DistinctPaths(entries: seq<P.PoolEntry>) {
    forall i, j :: 0 <= i < j < |entries| ==> entries[i].path != entries[j].path
  }

  lemma {:induction false} RemovedKeepsDistinct(v: P.Versions, list: seq<P.PoolEntry>, files: seq<P.PoolEntry>)
    requires DistinctPaths(list)
    ensures DistinctPaths(P.Removed(v, list, files))
  {
    if list == [] {
    } else {
      RemovedKeepsDistinct(v, list[1..], files);
      P.Members(v, list[1..], files);
      var rest := P.Removed(v, list[1..], files);
      forall j | 0 <= j < |rest| ensures rest[j].path != list[0].path {
        assert rest[j] in list[1..];
      }
    }
  }

  /** `entries` are the entries of the pool's .deb files. */
  ghost predicate EntriesOf(w: World, inp: Input, idx: map<string, Selection>, pool: Pool, entries: seq<P.PoolEntry>)
    requires Readable(w, idx, pool)
  {
    && DistinctPaths(entries)
    && forall e :: e in entries <==> exists p :: p in pool && w.isDeb(p) && e == EntryOf(w, inp, idx, pool, p)
  }

  lemma {:induction false} OutdatedIsDecided(w: World, inp: Input, idx: map<string, Selection>, pool: Pool,
                                             entries: seq<P.PoolEntry>, p: string)
    requires Readable(w, idx, pool) && EntriesOf(w, inp, idx, pool, entries)
    requires Outdated(w, inp, idx, pool, p)
    ensures exists e :: e in P.Removed(w.versions, entries, entries) && e.path == p
  {
    P.Members(w.versions, entries, entries);
    var e := EntryOf(w, inp, idx, pool, p);
    var q :| q in pool && w.isDeb(q) && P.Below(w.versions, e, EntryOf(w, inp, idx, pool, q));
    assert EntryOf(w, inp, idx, pool, q) in entries && e in entries;
    assert P.Superseded(w.versions, e, entries);
    assert e.path == p;
  }

  lemma {:induction false} DecidedIsOutdated(w: World, inp: Input, idx: map<string, Selection>, pool: Pool,
                                             entries: seq<P.PoolEntry>, e: P.PoolEntry)
    requires Readable(w, idx, pool) && EntriesOf(w, inp, idx, pool, entries)
    requires e in P.Removed(w.versions, entries, entries)
    ensures Outdated(w, inp, idx, pool, e.path)
  {
    P.Members(w.versions, entries, entries);
    var g :| g in entries && P.Below(w.versions, e, g);
    var q :| q in pool && w.isDeb(q) && g == EntryOf(w, inp, idx, pool, q);
  }

  /** The prune decision over the walked entries is the outdated paths, whatever the walk. */
  lemma {:induction false} DecisionIsOutdated(w: World, inp: Input, idx: map<string, Selection>, pool: Pool,
                                              entries: seq<P.PoolEntry>)
    requires Readable(w, idx, pool) && EntriesOf(w, inp, idx, pool, entries)
    ensures (set e | e in P.Removed(w.versions, entries, entries) :: e.path) == OutdatedPaths(w, inp, idx, pool)
  {
    forall p | p in OutdatedPaths(w, inp, idx, pool)
      ensures p in set e | e in P.Removed(w.versions, entries, entries) :: e.path
    {
      OutdatedIsDecided(w, inp, idx, pool, entries, p);
    }
    forall e | e in P.Removed(w.versions, entries, entries) ensures e.path in OutdatedPaths(w, inp, idx, pool) {
      DecidedIsOutdated(w, inp, idx, pool, entries, e);
    }
  }

  lemma {:induction false} PathsOf(entries: seq<P.PoolEntry>, paths: seq<string>)
    requires |paths| == |entries| && forall k :: 0 <= k < |paths| ==> paths[k] == entries[k].path
    ensures Elements(paths) == set e | e in entries :: e.path
  {
    forall e | e in entries ensures e.path in paths {
      var k :| 0 <= k < |entries| && entries[k] == e;
      assert paths[k] == e.path;
    }
    forall p | p in paths ensures exists e :: e in entries && e.path == p {
      var k :| 0 <= k < |paths| && paths[k] == p;
      assert entries[k] in entries;
    }
  }

  /** The bundle's pool directory on disk. */
  class Directory {
    var pool: Pool

    constructor (pool: Pool)
      ensures this.pool == pool
    {
      this.pool := pool;
    }

    /** materialiseSelections: `step` is its outcome, the pool being changed in place
        whether or not it succeeds. */
    method MaterialiseSelections(w: World, inp: Input, sels: seq<Selection>) returns (step: Step)
      modifies this
      ensures step == Materialise(w, inp, sels, old(pool))
      ensures pool == if step.Placed? then step.progress.pool else step.pool
    {
      var pr := Start(pool, inp.store);
      for i := 0 to |sels|
        invariant pr.pool == pool
        invariant PlaceFrom(w, inp, Start(old(pool), inp.store), sels, 0) == PlaceFrom(w, inp, pr, sels, i)
      {
        step := PlaceOne(w, inp, pr, sels[i]);
        if step.Stopped? {
          return;
        }
        pr := step.progress;
      }
      step := Placed(pr.(added := Sort(StringLe, pr.added), untouched := Sort(StringLe, pr.untouched)));
    }

    method PlaceOne(w: World, inp: Input, pr: Progress, sel: Selection) returns (step: Step)
      requires pr.pool == pool
      modifies this
      ensures step == Place(w, inp, pr, sel)
      ensures pool == if step.Placed? then step.progress.pool else step.pool
    {
      var path := PathOf(w, sel);
      if sel.name == "" || sel.filename == "" || path == "" || !w.insidePool(path) || path in pr.indexed {
        return Stopped(Usage, pool);
      }
      var p := pr.(bytes := pr.bytes + sel.size, indexed := pr.indexed + [path]);
      if Matches(w, pool, path, sel.sha256) {
        return Placed(p.(untouched := p.untouched + [path]));
      }
      var fromStore := sel.sha256 != "" && sel.sha256 in p.store;
      var e := EnsureInStore(w, inp, p.store, sel);
      if e.Refused? {
        return Stopped(e.error, pool);
      }
      var landed := inp.lands(path, e.digest);
      if landed.None? {
        return Stopped(Environment, pool);
      }
      pool := pool[path := landed.value];
      if !Matches(w, pool, path, e.digest) {
        return Stopped(Verification, pool);
      }
      p := p.(pool := pool, store := e.store, added := p.added + [path]);
      if !fromStore {
        p := p.(downloaded := p.downloaded + sel.size);
      }
      step := Placed(p);
    }

    /** collectPoolEntries over a directory walk; None when some leftover is unreadable. */
    method CollectPoolEntries(w: World, inp: Input, idx: map<string, Selection>, walk: seq<string>)
        returns (entries: Option<seq<P.PoolEntry>>)
      requires Walks(walk, pool)
      ensures entries.Some? <==> Readable(w, idx, pool)
      ensures entries.Some? ==> EntriesOf(w, inp, idx, pool, entries.value)
    {
      assert forall p :: p in pool <==> p in walk by {
        assert forall p :: p in walk <==> p in Elements(walk);
      }
      var list: seq<P.PoolEntry> := [];
      for i := 0 to |walk|
        invariant forall k :: 0 <= k < i && w.isDeb(walk[k]) && walk[k] !in idx ==> w.identity(pool[walk[k]]).Some?
        invariant forall e :: e in list <==>
          exists k :: 0 <= k < i && w.isDeb(walk[k]) && e == EntryOf(w, inp, idx, pool, walk[k])
        invariant forall a :: 0 <= a < |list| ==> exists k :: 0 <= k < i && list[a].path == walk[k]
        invariant DistinctPaths(list)
      {
        var p := walk[i];
        if !w.isDeb(p) {
          continue;
        }
        if p !in idx && w.identity(pool[p]).None? {
          return None;
        }
        list := list + [EntryOf(w, inp, idx, pool, p)];
      }
      entries := Some(list);
    }

    /** pruneExistingPool: the sorted paths it deleted, or None with the pool as it was. */
    method PruneExistingPool(w: World, inp: Input, sels: seq<Selection>, walk: seq<string>)
        returns (removed: Option<seq<string>>)
      requires Walks(walk, pool) && P.TotalPreorder(w.versions)
      modifies this
      ensures removed.Some? <==> Readable(w, Index(w, sels), old(pool))
      ensures removed.None? ==> pool == old(pool)
      ensures removed.Some? ==>
        && Lists(removed.value, OutdatedPaths(w, inp, Index(w, sels), old(pool)))
        && pool == old(pool) - OutdatedPaths(w, inp, Index(w, sels), old(pool))
    {
      var idx := Index(w, sels);
      var entries := CollectPoolEntries(w, inp, idx, walk);
      if entries.None? {
        return None;
      }
      var toRemove := P.PruneDecide(w.versions, entries.value);
      ghost var out := OutdatedPaths(w, inp, idx, pool);
      RemovedKeepsDistinct(w.versions, entries.value, entries.value);
      var paths: seq<string> := [];
      for i := 0 to |toRemove|
        invariant |paths| == i && forall k :: 0 <= k < i ==> paths[k] == toRemove[k].path
        invariant pool == old(pool) - Elements(paths)
      {
        pool := pool - {toRemove[i].path};
        paths := paths + [toRemove[i].path];
      }
      DecisionIsOutdated(w, inp, idx, old(pool), entries.value);
      PathsOf(toRemove, paths);
      ListsOfSort(paths, out);
      removed := Some(Sort(StringLe, paths));
    }

    /** unreferencedPoolFiles. */
    method UnreferencedPoolFiles(indexed: seq<string>, walk: seq<string>) returns (out: seq<string>)
      requires Walks(walk, pool)
      ensures Lists(out, pool.Keys - Elements(indexed))
    {
      var list: seq<string> := [];
      for i := 0 to |walk|
        invariant forall p :: p in list <==> p in walk[..i] && p !in indexed
        invariant Distinct(list)
      {
        assert forall p :: p in walk[..i + 1] <==> p in walk[..i] || p == walk[i];
        assert walk[i] !in walk[..i];
        if walk[i] !in indexed {
          list := list + [walk[i]];
        }
      }
      assert walk[..|walk|] == walk;
      assert forall p :: p in walk <==> p in Elements(walk);
      assert Elements(list) == pool.Keys - Elements(indexed);
      ListsOfSort(list, pool.Keys - Elements(indexed));
      out := Sort(StringLe, list);
    }

    /** filepath.WalkDir: the order is the file system's own. */
    method Walk() returns (walk: seq<string>)
      ensures Walks(walk, pool)
    {
      walk := [];
      var rest := pool.Keys;
      while rest != {}
        invariant rest <= pool.Keys && Elements(walk) == pool.Keys - rest && Distinct(walk)
        decreases rest
      {
        var p :| p in rest;
        assert p !in Elements(walk);
        assert Elements(walk + [p]) == Elements(walk) + {p};
        walk, rest := walk + [p], rest - {p};
      }
    }

    /** The stages of assemble from materialising to the unreferenced report. */
    method AssemblePool(w: World, inp: Input) returns (out: Outcome, removed: seq<string>, unreferenced: seq<string>)
      requires P.TotalPreorder(w.versions)
      modifies this
      ensures out == Assemble(w, inp, old(pool)) && pool == out.pool
      ensures out.Success? ==> Lists(removed, out.report.removed) && Lists(unreferenced, out.report.unreferenced)
    {
      removed, unreferenced := [], [];
      var sels := Sort(SelectionLe, inp.plan);
      var step := MaterialiseSelections(w, inp, sels);
      if step.Stopped? {
        return Failure(step.error, pool), removed, unreferenced;
      }
      var pr := step.progress;
      if inp.prune {
        var walk := Walk();
        var r := PruneExistingPool(w, inp, sels, walk);
        if r.None? {
          return Failure(Environment, pool), removed, unreferenced;
        }
        removed := r.value;
      }
      var walk := Walk();
      unreferenced := UnreferencedPoolFiles(pr.indexed, walk);
      var gone := set p | p in removed;
      assert gone == Elements(removed);
      assert pool == pr.pool - gone;
      var left := pool.Keys - (set p | p in pr.indexed);
      out := Success(pool, Report(pr.indexed, pr.added, pr.untouched, gone, left, pr.bytes));
    }
  }
}
