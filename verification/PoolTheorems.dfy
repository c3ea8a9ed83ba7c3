/** What assembling the pool promises over one pass, over a repeated pass and over any
    sequence of passes (core/bundle/assemble.go:36-71, 238-480). */
module PoolTheorems {
  import opened Sorting
  import opened PoolAssembly
  import P = Prune

  /** The pool paths a list of selections claims. */
  function Selected(w: World, sels: seq<Selection>): set<string> {
    set i | 0 <= i < |sels| :: PathOf(w, sels[i])
  }

  /** The sizes of the first `n` selections. */
  function TotalSize(sels: seq<Selection>, n: nat): nat
    requires n <= |sels|
  {
    if n == 0 then 0 else TotalSize(sels, n - 1) + sels[n - 1].size
  }

  predicate Acceptable(w: World, sel: Selection) {
    sel.name != "" && sel.filename != "" && PathOf(w, sel) != "" && w.insidePool(PathOf(w, sel))
  }

  /** The selection's file is in the pool, and is what its digest says if it has one. */
  predicate FileInPlace(w: World, sel: Selection, pool: Pool) {
    PathOf(w, sel) in pool && (sel.sha256 != "" ==> Matches(w, pool, PathOf(w, sel), sel.sha256))
  }

  predicate InPlace(w: World, sels: seq<Selection>, pool: Pool) {
    forall i :: 0 <= i < |sels| ==> FileInPlace(w, sels[i], pool)
  }

  /** Selections that can be placed at all: well named, and no two on one path. */
  predicate Placeable(w: World, sels: seq<Selection>) {
    && (forall i :: 0 <= i < |sels| ==> Acceptable(w, sels[i]))
    && (forall i, j :: 0 <= i < j < |sels| ==> PathOf(w, sels[i]) != PathOf(w, sels[j]))
  }

  /** `after` differs from `pool` only at paths the selections claim, and lost nothing. */
  predicate Confined(w: World, sels: seq<Selection>, pool: Pool, after: Pool) {
    && pool.Keys <= after.Keys <= pool.Keys + Selected(w, sels)
    && forall p :: p in pool && p !in Selected(w, sels) ==> after[p] == pool[p]
  }

  // ---- materialising -----------------------------------------------------------------

  /** The loop has dealt with the first `n` selections: their files. */
  ghost predicate FilesDone(w: World, sels: seq<Selection>, n: nat, pool: Pool, pr: Progress)
    requires n <= |sels|
  {
    && |pr.indexed| == n
    && (forall i :: 0 <= i < n ==> pr.indexed[i] == PathOf(w, sels[i]) && Acceptable(w, sels[i]))
    && (forall i :: 0 <= i < n ==> FileInPlace(w, sels[i], pr.pool))
    && Distinct(pr.indexed)
    && pr.pool.Keys == pool.Keys + Elements(pr.indexed)
    && (forall p :: p in pool && p !in pr.indexed ==> pr.pool[p] == pool[p])
  }

  /** ... and the accounts kept of them. */
  ghost predicate CountsDone(sels: seq<Selection>, n: nat, pr: Progress)
    requires n <= |sels|
  {
    && |pr.added| + |pr.untouched| == n
    && Elements(pr.added) + Elements(pr.untouched) == Elements(pr.indexed)
    && pr.bytes == TotalSize(sels, n)
  }

  /** ... and which of the two lists each is in: it is unchanged exactly when the pool already
      held its planned digest. */
  ghost predicate SortedOut(w: World, sels: seq<Selection>, n: nat, pool: Pool, added: seq<string>,
                            untouched: seq<string>)
    requires n <= |sels|
  {
    forall i :: 0 <= i < n ==>
      && (PathOf(w, sels[i]) in untouched <==> Matches(w, pool, PathOf(w, sels[i]), sels[i].sha256))
      && (PathOf(w, sels[i]) in added <==> !Matches(w, pool, PathOf(w, sels[i]), sels[i].sha256))
  }

  lemma {:induction false} EnsuredDigest(w: World, inp: Input, store: map<string, Bytes>, sel: Selection)
    requires EnsureInStore(w, inp, store, sel).InStore?
    ensures sel.sha256 != "" ==> SameDigest(w, EnsureInStore(w, inp, store, sel).digest, sel.sha256)
  {
  }

  lemma {:induction false} PlacedFile(w: World, inp: Input, pr: Progress, sel: Selection)
    requires Place(w, inp, pr, sel).Placed?
    ensures var next := Place(w, inp, pr, sel).progress;
            var path := PathOf(w, sel);
            && Acceptable(w, sel) && path !in pr.indexed && next.indexed == pr.indexed + [path]
            && FileInPlace(w, sel, next.pool)
            && next.pool.Keys == pr.pool.Keys + {path}
            && forall p :: p in pr.pool && p != path ==> next.pool[p] == pr.pool[p]
  {
    if !Matches(w, pr.pool, PathOf(w, sel), sel.sha256) {
      EnsuredDigest(w, inp, pr.store, sel);
    }
  }

  lemma {:induction false} PlacedCounts(w: World, inp: Input, pr: Progress, sel: Selection)
    requires Place(w, inp, pr, sel).Placed?
    ensures var next := Place(w, inp, pr, sel).progress;
            var path := PathOf(w, sel);
            && Elements(next.indexed) == Elements(pr.indexed) + {path}
            && Elements(next.added) + Elements(next.untouched) == Elements(pr.added) + Elements(pr.untouched) + {path}
            && |next.added| + |next.untouched| == |pr.added| + |pr.untouched| + 1
            && next.bytes == pr.bytes + sel.size
  {
    var path := PathOf(w, sel);
    assert Elements(pr.added + [path]) == Elements(pr.added) + {path};
    assert Elements(pr.untouched + [path]) == Elements(pr.untouched) + {path};
    assert Elements(pr.indexed + [path]) == Elements(pr.indexed) + {path};
  }

  lemma {:induction false} StoppedPool(w: World, inp: Input, pr: Progress, sel: Selection)
    requires Place(w, inp, pr, sel).Stopped?
    ensures var after := Place(w, inp, pr, sel).pool;
            && pr.pool.Keys <= after.Keys <= pr.pool.Keys + {PathOf(w, sel)}
            && forall p :: p in pr.pool && p != PathOf(w, sel) ==> after[p] == pr.pool[p]
  {
  }

  lemma {:induction false} FilesDoneNext(w: World, sels: seq<Selection>, n: nat, pool: Pool, pr: Progress,
                                         next: Progress)
    requires n < |sels| && FilesDone(w, sels, n, pool, pr)
    requires var path := PathOf(w, sels[n]);
             && Acceptable(w, sels[n]) && path !in pr.indexed && next.indexed == pr.indexed + [path]
             && FileInPlace(w, sels[n], next.pool)
             && next.pool.Keys == pr.pool.Keys + {path}
             && forall p :: p in pr.pool && p != path ==> next.pool[p] == pr.pool[p]
    ensures FilesDone(w, sels, n + 1, pool, next)
  {
    PoolDoneNext(pool, pr, next, PathOf(w, sels[n]));
    forall i | 0 <= i < n ensures FileInPlace(w, sels[i], next.pool) {
      assert pr.indexed[i] in pr.indexed;
      assert FileInPlace(w, sels[i], pr.pool);
    }
  }

  lemma {:induction false} PoolDoneNext(pool: Pool, pr: Progress, next: Progress, path: string)
    requires next.indexed == pr.indexed + [path]
    requires next.pool.Keys == pr.pool.Keys + {path}
    requires forall p :: p in pr.pool && p != path ==> next.pool[p] == pr.pool[p]
    requires pr.pool.Keys == pool.Keys + Elements(pr.indexed)
    requires forall p :: p in pool && p !in pr.indexed ==> pr.pool[p] == pool[p]
    ensures next.pool.Keys == pool.Keys + Elements(next.indexed)
    ensures forall p :: p in pool && p !in next.indexed ==> next.pool[p] == pool[p]
  {
    assert Elements(next.indexed) == Elements(pr.indexed) + {path};
    forall p | p in pool && p !in next.indexed ensures next.pool[p] == pool[p] {
      assert p !in pr.indexed && p != path;
    }
  }

  lemma {:induction false} ConfinedAfterStop(w: World, sels: seq<Selection>, n: nat, pool: Pool, pr: Progress,
                                             after: Pool)
    requires n < |sels| && FilesDone(w, sels, n, pool, pr)
    requires && pr.pool.Keys <= after.Keys <= pr.pool.Keys + {PathOf(w, sels[n])}
             && forall p :: p in pr.pool && p != PathOf(w, sels[n]) ==> after[p] == pr.pool[p]
    ensures Confined(w, sels, pool, after)
  {
    assert PathOf(w, sels[n]) in Selected(w, sels);
    IndexedAreSelected(w, sels, n, pool, pr);
  }

  lemma {:induction false} IndexedAreSelected(w: World, sels: seq<Selection>, n: nat, pool: Pool, pr: Progress)
    requires n <= |sels| && FilesDone(w, sels, n, pool, pr)
    ensures Elements(pr.indexed) <= Selected(w, sels)
    ensures n == |sels| ==> Elements(pr.indexed) == Selected(w, sels)
  {
    forall p | p in pr.indexed ensures p in Selected(w, sels) {
      var i :| 0 <= i < n && pr.indexed[i] == p;
      assert p == PathOf(w, sels[i]);
    }
    if n == |sels| {
      forall p | p in Selected(w, sels) ensures p in pr.indexed {
        var i :| 0 <= i < |sels| && p == PathOf(w, sels[i]);
        assert pr.indexed[i] == p;
      }
    }
  }

  lemma {:induction false} PlaceAdvances(w: World, inp: Input, sels: seq<Selection>, n: nat, pool: Pool,
                                         pr: Progress, s: Step)
    requires n < |sels| && FilesDone(w, sels, n, pool, pr)
    requires s == Place(w, inp, pr, sels[n])
    ensures s.Placed? ==> FilesDone(w, sels, n + 1, pool, s.progress)
    ensures s.Stopped? ==> Confined(w, sels, pool, s.pool)
  {
    if s.Placed? {
      PlacedFile(w, inp, pr, sels[n]);
      FilesDoneNext(w, sels, n, pool, pr, s.progress);
    } else {
      StoppedPool(w, inp, pr, sels[n]);
      ConfinedAfterStop(w, sels, n, pool, pr, s.pool);
    }
  }

  lemma {:induction false} FilesReached(w: World, inp: Input, sels: seq<Selection>, n: nat, pool: Pool,
                                        pr: Progress, end: Step)
    requires n <= |sels| && FilesDone(w, sels, n, pool, pr)
    requires end == PlaceFrom(w, inp, pr, sels, n)
    ensures end.Placed? ==> FilesDone(w, sels, |sels|, pool, end.progress)
    ensures end.Stopped? ==> Confined(w, sels, pool, end.pool)
    decreases |sels| - n
  {
    if n == |sels| {
    } else {
      var s := Place(w, inp, pr, sels[n]);
      PlaceAdvances(w, inp, sels, n, pool, pr, s);
      if s.Placed? {
        FilesReached(w, inp, sels, n + 1, pool, s.progress, end);
      }
    }
  }

  lemma {:induction false} CountsReached(w: World, inp: Input, sels: seq<Selection>, n: nat, pr: Progress, end: Step)
    requires n <= |sels| && CountsDone(sels, n, pr)
    requires end == PlaceFrom(w, inp, pr, sels, n)
    ensures end.Placed? ==> CountsDone(sels, |sels|, end.progress)
    decreases |sels| - n
  {
    if n == |sels| {
    } else {
      var s := Place(w, inp, pr, sels[n]);
      if s.Placed? {
        PlacedCounts(w, inp, pr, sels[n]);
        CountsReached(w, inp, sels, n + 1, s.progress, end);
      }
    }
  }

  /** Off the paths dealt with, the pool is as it was; the lists hold only those paths. */
  ghost predicate Apart(pool: Pool, pr: Progress) {
    && (forall p :: p !in pr.indexed ==> (p in pr.pool <==> p in pool) && (p in pool ==> pr.pool[p] == pool[p]))
    && (forall p :: p in pr.added || p in pr.untouched ==> p in pr.indexed)
  }

  /** The selections dealt with were judged against the pool as it was. */
  ghost predicate Judged(w: World, sels: seq<Selection>, n: nat, pool: Pool, pr: Progress)
    requires n <= |sels|
  {
    && Apart(pool, pr) && SortedOut(w, sels, n, pool, pr.added, pr.untouched)
    && forall i :: 0 <= i < n ==> PathOf(w, sels[i]) in pr.indexed
  }

  /** One turn: a path of its own, put in one list or the other. */
  ghost predicate Judges(w: World, sel: Selection, pr: Progress, next: Progress) {
    var path := PathOf(w, sel);
    && path !in pr.indexed && next.indexed == pr.indexed + [path]
    && (forall p :: p != path ==> (p in next.pool <==> p in pr.pool) && (p in pr.pool ==> next.pool[p] == pr.pool[p]))
    && (if Matches(w, pr.pool, path, sel.sha256)
        then next.untouched == pr.untouched + [path] && next.added == pr.added
        else next.untouched == pr.untouched && next.added == pr.added + [path])
  }

  lemma {:induction false} PlacedJudges(w: World, inp: Input, pr: Progress, sel: Selection)
    requires Place(w, inp, pr, sel).Placed?
    ensures Judges(w, sel, pr, Place(w, inp, pr, sel).progress)
  {
  }

  lemma {:induction false} JudgedNext(w: World, sels: seq<Selection>, n: nat, pool: Pool, pr: Progress, next: Progress)
    requires n < |sels| && Judged(w, sels, n, pool, pr) && Judges(w, sels[n], pr, next)
    ensures Judged(w, sels, n + 1, pool, next)
  {
    var path := PathOf(w, sels[n]);
    assert Matches(w, pr.pool, path, sels[n].sha256) <==> Matches(w, pool, path, sels[n].sha256);
    assert forall p :: p in next.indexed <==> p in pr.indexed || p == path;
  }

  lemma {:induction false} JudgedReached(w: World, inp: Input, sels: seq<Selection>, n: nat, pool: Pool,
                                         pr: Progress, end: Step)
    requires n <= |sels| && Judged(w, sels, n, pool, pr) && end == PlaceFrom(w, inp, pr, sels, n)
    ensures end.Placed? ==> Judged(w, sels, |sels|, pool, end.progress)
    decreases |sels| - n
  {
    if n == |sels| {
    } else {
      var s := Place(w, inp, pr, sels[n]);
      if s.Placed? {
        PlacedJudges(w, inp, pr, sels[n]);
        JudgedNext(w, sels, n, pool, pr, s.progress);
        JudgedReached(w, inp, sels, n + 1, pool, s.progress, end);
      }
    }
  }

  lemma {:induction false} FinishKeeps(pr: Progress)
    ensures var f := Finish(pr);
            && |f.added| == |pr.added| && |f.untouched| == |pr.untouched|
            && (forall p :: p in f.added <==> p in pr.added) && (forall p :: p in f.untouched <==> p in pr.untouched)
            && Elements(f.added) == Elements(pr.added) && Elements(f.untouched) == Elements(pr.untouched)
            && Sorted(StringLe, f.added) && Sorted(StringLe, f.untouched)
  {
    StringOrder();
    SortIsSorted(StringLe, pr.added);
    SortIsSorted(StringLe, pr.untouched);
    SortIsPermutation(StringLe, pr.added);
    SortIsPermutation(StringLe, pr.untouched);
  }

  /** A successful loop places every selection and keeps exact accounts, in sorted lists; a
      failed one has changed nothing outside the selections' paths. */
  lemma {:induction false} MaterialiseEffect(w: World, inp: Input, sels: seq<Selection>, pool: Pool)
    ensures var s := Materialise(w, inp, sels, pool);
            if s.Stopped? then Confined(w, sels, pool, s.pool)
            else
              && Placeable(w, sels) && InPlace(w, sels, s.progress.pool) && Confined(w, sels, pool, s.progress.pool)
              && s.progress.pool.Keys == pool.Keys + Selected(w, sels)
              && Elements(s.progress.indexed) == Selected(w, sels)
              && CountsDone(sels, |sels|, s.progress)
              && SortedOut(w, sels, |sels|, pool, s.progress.added, s.progress.untouched)
              && Sorted(StringLe, s.progress.added) && Sorted(StringLe, s.progress.untouched)
  {
    var start := Start(pool, inp.store);
    var s := PlaceFrom(w, inp, start, sels, 0);
    FilesReached(w, inp, sels, 0, pool, start, s);
    CountsReached(w, inp, sels, 0, start, s);
    JudgedReached(w, inp, sels, 0, pool, start, s);
    if s.Placed? {
      var pr := s.progress;
      FinishKeeps(pr);
      IndexedAreSelected(w, sels, |sels|, pool, pr);
      forall i, j | 0 <= i < j < |sels| ensures PathOf(w, sels[i]) != PathOf(w, sels[j]) {
        assert pr.indexed[i] != pr.indexed[j];
      }
    }
  }

  // ---- one pass -------------------------------------------------------------------------

  lemma {:induction false} IndexKeys(w: World, sels: seq<Selection>)
    ensures Index(w, sels).Keys == Selected(w, sels)
  {
    if sels == [] {
    } else {
      var front := sels[..|sels| - 1];
      IndexKeys(w, front);
      assert forall i :: 0 <= i < |front| ==> front[i] == sels[i];
      assert Selected(w, sels) == Selected(w, front) + {PathOf(w, sels[|sels| - 1])} by {
        forall p | p in Selected(w, sels) ensures p in Selected(w, front) + {PathOf(w, sels[|sels| - 1])} {
          var i :| 0 <= i < |sels| && p == PathOf(w, sels[i]);
          assert i < |front| ==> p == PathOf(w, front[i]);
        }
        forall p | p in Selected(w, front) ensures p in Selected(w, sels) {
          var i :| 0 <= i < |front| && p == PathOf(w, front[i]);
          assert p == PathOf(w, sels[i]);
        }
      }
    }
  }

  lemma {:induction false} SelectedAreNotOutdated(w: World, inp: Input, sels: seq<Selection>, pool: Pool)
    requires Readable(w, Index(w, sels), pool)
    ensures OutdatedPaths(w, inp, Index(w, sels), pool) !! Selected(w, sels)
  {
    IndexKeys(w, sels);
  }

  /** What one successful pass leaves, whatever the pool, the store and the landing bytes
      were: pool, reports and accounts agree with each other and with the plan. */
  ghost predicate Consistent(w: World, inp: Input, sels: seq<Selection>, pool: Pool, out: Outcome)
    requires out.Success?
  {
    var r := out.report;
    && out.pool.Keys == (pool.Keys + Selected(w, sels)) - r.removed
    && r.removed !! Selected(w, sels)
    && (!inp.prune ==> r.removed == {})
    && (forall p :: p in out.pool && p !in Selected(w, sels) ==> out.pool[p] == pool[p])
    && InPlace(w, sels, out.pool)
    && r.unreferenced == out.pool.Keys - Selected(w, sels)
    && |r.added| + |r.untouched| == |sels|
    && Elements(r.added) + Elements(r.untouched) == Selected(w, sels)
    && SortedOut(w, sels, |sels|, pool, r.added, r.untouched)
    && Sorted(StringLe, r.added) && Sorted(StringLe, r.untouched)
    && r.bytes == TotalSize(sels, |sels|)
  }

  lemma {:induction false} PassIsConsistent(w: World, inp: Input, sels: seq<Selection>, pool: Pool)
    ensures var out := Pass(w, inp, sels, pool);
            if out.Success? then Placeable(w, sels) && Consistent(w, inp, sels, pool, out)
            else Confined(w, sels, pool, out.pool)
  {
    MaterialiseEffect(w, inp, sels, pool);
    var s := Materialise(w, inp, sels, pool);
    var out := Pass(w, inp, sels, pool);
    if out.Success? {
      var placed := s.progress.pool;
      if inp.prune {
        SelectedAreNotOutdated(w, inp, sels, placed);
      }
      assert out.pool == placed - out.report.removed;
      forall i | 0 <= i < |sels| ensures FileInPlace(w, sels[i], out.pool) {
        assert PathOf(w, sels[i]) in Selected(w, sels);
        assert FileInPlace(w, sels[i], placed);
      }
    }
  }

  /** The same of assemble, which first sorts the plan. */
  lemma {:induction false} AssembleIsConsistent(w: World, inp: Input, pool: Pool)
    ensures var sels := Sort(SelectionLe, inp.plan);
            var out := Assemble(w, inp, pool);
            && multiset(sels) == multiset(inp.plan)
            && if out.Success? then Placeable(w, sels) && Consistent(w, inp, sels, pool, out)
               else Confined(w, sels, pool, out.pool)
  {
    SortIsPermutation(SelectionLe, inp.plan);
    PassIsConsistent(w, inp, Sort(SelectionLe, inp.plan), pool);
  }

  // ---- what pruning takes out -----------------------------------------------------------

  lemma {:induction false} ListEntries(w: World, inp: Input, idx: map<string, Selection>, pool: Pool,
                                       paths: set<string>)
      returns (entries: seq<P.PoolEntry>)
    requires Readable(w, idx, pool) && forall p :: p in paths ==> p in pool && w.isDeb(p)
    ensures DistinctPaths(entries)
    ensures forall e :: e in entries <==> exists p :: p in paths && e == EntryOf(w, inp, idx, pool, p)
    ensures forall e :: e in entries ==> e.path in paths
    decreases paths
  {
    if paths == {} {
      return [];
    }
    var p :| p in paths;
    var rest := ListEntries(w, inp, idx, pool, paths - {p});
    entries := rest + [EntryOf(w, inp, idx, pool, p)];
    forall e | exists q :: q in paths && e == EntryOf(w, inp, idx, pool, q) ensures e in entries {
      var q :| q in paths && e == EntryOf(w, inp, idx, pool, q);
      assert q == p || q in paths - {p};
    }
  }

  /** `q` is a .deb the prune leaves, holding a higher version than `e` of its group. */
  predicate StaysAbove(w: World, inp: Input, idx: map<string, Selection>, pool: Pool, e: P.PoolEntry, q: string)
    requires Readable(w, idx, pool) && q in pool
  {
    && q !in OutdatedPaths(w, inp, idx, pool) && w.isDeb(q)
    && P.Below(w.versions, e, EntryOf(w, inp, idx, pool, q))
  }

  /** A path leaves the pool only because a strictly higher version of the same package
      and architecture stays, and only if neither the plan nor the user put it there. */
  lemma {:induction false} RemovedIsSuperseded(w: World, inp: Input, sels: seq<Selection>, pool: Pool, p: string)
    requires P.TotalPreorder(w.versions) && Readable(w, Index(w, sels), pool)
    requires p in OutdatedPaths(w, inp, Index(w, sels), pool)
    ensures p !in Selected(w, sels) && !inp.userDigest(w.hash(pool[p]))
    ensures var idx := Index(w, sels);
            exists q :: q in pool && StaysAbove(w, inp, idx, pool, EntryOf(w, inp, idx, pool, p), q)
  {
    var idx := Index(w, sels);
    SelectedAreNotOutdated(w, inp, sels, pool);
    IndexKeys(w, sels);
    var debs := set q | q in pool && w.isDeb(q);
    var entries := ListEntries(w, inp, idx, pool, debs);
    assert EntriesOf(w, inp, idx, pool, entries);
    OutdatedIsDecided(w, inp, idx, pool, entries, p);
    var e :| e in P.Removed(w.versions, entries, entries) && e.path == p;
    SurvivorAbove(w, inp, idx, pool, entries, e);
  }

  lemma {:induction false} SurvivorAbove(w: World, inp: Input, idx: map<string, Selection>, pool: Pool,
                                         entries: seq<P.PoolEntry>, e: P.PoolEntry)
    requires P.TotalPreorder(w.versions) && Readable(w, idx, pool) && EntriesOf(w, inp, idx, pool, entries)
    requires e in P.Removed(w.versions, entries, entries)
    ensures e.path in pool && (e.path !in idx ==> w.identity(pool[e.path]).Some?)
    ensures e == EntryOf(w, inp, idx, pool, e.path)
    ensures exists q :: q in pool && StaysAbove(w, inp, idx, pool, e, q)
  {
    P.Members(w.versions, entries, entries);
    P.RemovesOnlySuperseded(w.versions, entries, e);
    var h :| h in P.Kept(w.versions, entries, entries) && P.Below(w.versions, e, h);
    var q :| q in pool && w.isDeb(q) && h == EntryOf(w, inp, idx, pool, q);
    if Outdated(w, inp, idx, pool, q) {
      OutdatedIsDecided(w, inp, idx, pool, entries, q);
      SameEntry(w, inp, idx, pool, entries, h, q);
    }
  }

  /** An outdated path's own entry is not among the kept ones. */
  lemma {:induction false} SameEntry(w: World, inp: Input, idx: map<string, Selection>, pool: Pool,
                                     entries: seq<P.PoolEntry>, h: P.PoolEntry, q: string)
    requires Readable(w, idx, pool) && EntriesOf(w, inp, idx, pool, entries)
    requires q in pool && w.isDeb(q) && h == EntryOf(w, inp, idx, pool, q)
    requires exists e :: e in P.Removed(w.versions, entries, entries) && e.path == q
    ensures h !in P.Kept(w.versions, entries, entries)
  {
    P.Members(w.versions, entries, entries);
  }

  // ---- the same pass again ------------------------------------------------------------------

  lemma {:induction false} PlaceInPlace(w: World, inp: Input, pr: Progress, sel: Selection) returns (next: Progress)
    requires Acceptable(w, sel) && PathOf(w, sel) !in pr.indexed && Matches(w, pr.pool, PathOf(w, sel), sel.sha256)
    ensures Place(w, inp, pr, sel) == Placed(next)
    ensures next.pool == pr.pool && next.added == pr.added && next.bytes == pr.bytes + sel.size
    ensures next.indexed == pr.indexed + [PathOf(w, sel)] && next.untouched == pr.untouched + [PathOf(w, sel)]
  {
    next := Place(w, inp, pr, sel).progress;
  }

  lemma {:induction false} InPlaceIsUntouched(w: World, inp: Input, sels: seq<Selection>, n: nat, pr: Progress,
                                              end: Step)
    requires n <= |sels| && Placeable(w, sels) && InPlace(w, sels, pr.pool)
    requires forall i :: 0 <= i < |sels| ==> sels[i].sha256 != ""
    requires |pr.indexed| == n && (forall i :: 0 <= i < n ==> pr.indexed[i] == PathOf(w, sels[i]))
    requires pr.added == [] && pr.untouched == pr.indexed && pr.bytes == TotalSize(sels, n)
    requires end == PlaceFrom(w, inp, pr, sels, n)
    ensures end.Placed? && end.progress.pool == pr.pool && end.progress.added == []
    ensures end.progress.untouched == end.progress.indexed && end.progress.bytes == TotalSize(sels, |sels|)
    ensures |end.progress.indexed| == |sels|
    ensures forall i :: 0 <= i < |sels| ==> end.progress.indexed[i] == PathOf(w, sels[i])
    decreases |sels| - n
  {
    if n == |sels| {
    } else {
      var path := PathOf(w, sels[n]);
      assert FileInPlace(w, sels[n], pr.pool) && Acceptable(w, sels[n]);
      assert path !in pr.indexed;
      var next := PlaceInPlace(w, inp, pr, sels[n]);
      InPlaceIsUntouched(w, inp, sels, n + 1, next, end);
    }
  }

  lemma {:induction false} PrunedStaysPruned(w: World, inp: Input, again: Input, idx: map<string, Selection>,
                                             pool: Pool)
    requires Readable(w, idx, pool) && again.userDigest == inp.userDigest
    ensures var left := pool - OutdatedPaths(w, inp, idx, pool);
            Readable(w, idx, left) && OutdatedPaths(w, again, idx, left) == {}
  {
    var left := pool - OutdatedPaths(w, inp, idx, pool);
    forall p | p in left ensures Outdated(w, again, idx, left, p) ==> Outdated(w, inp, idx, pool, p) {
      OutdatedInMore(w, inp, again, idx, pool, left, p);
    }
  }

  lemma {:induction false} OutdatedInMore(w: World, inp: Input, again: Input, idx: map<string, Selection>,
                                          pool: Pool, left: Pool, p: string)
    requires Readable(w, idx, pool) && Readable(w, idx, left) && again.userDigest == inp.userDigest
    requires left.Keys <= pool.Keys && (forall q :: q in left ==> left[q] == pool[q])
    ensures Outdated(w, again, idx, left, p) ==> Outdated(w, inp, idx, pool, p)
  {
    if Outdated(w, again, idx, left, p) {
      var e := EntryOf(w, again, idx, left, p);
      var q :| q in left && w.isDeb(q) && P.Below(w.versions, e, EntryOf(w, again, idx, left, q));
      assert EntryOf(w, inp, idx, pool, p) == e && EntryOf(w, inp, idx, pool, q) == EntryOf(w, again, idx, left, q);
    }
  }

  lemma {:induction false} RepeatedPass(w: World, inp: Input, again: Input, sels: seq<Selection>, pool: Pool)
    requires forall i :: 0 <= i < |sels| ==> sels[i].sha256 != ""
    requires again.prune == inp.prune && again.userDigest == inp.userDigest
    requires Pass(w, inp, sels, pool).Success?
    ensures var first := Pass(w, inp, sels, pool);
            var second := Pass(w, again, sels, first.pool);
            && second.Success? && second.pool == first.pool
            && second.report.added == [] && second.report.removed == {}
            && |second.report.untouched| == |sels| && Elements(second.report.untouched) == Selected(w, sels)
            && second.report.unreferenced == first.report.unreferenced
            && second.report.bytes == first.report.bytes
  {
    PassIsConsistent(w, inp, sels, pool);
    var first := Pass(w, inp, sels, pool);
    if inp.prune {
      var placed := Materialise(w, inp, sels, pool).progress.pool;
      PrunedStaysPruned(w, inp, again, Index(w, sels), placed);
    }
    PassInPlace(w, again, sels, first.pool);
  }

  /** Assembling again with the same digest-carrying plan, prune setting and user-supplied
      index adds nothing, removes nothing, finds every file in place and reports the same
      leftovers, whatever the store and the staged files are by then. */
  lemma {:induction false} RerunChangesNothing(w: World, inp: Input, again: Input, pool: Pool)
    requires forall s :: s in inp.plan ==> s.sha256 != ""
    requires again.plan == inp.plan && again.prune == inp.prune && again.userDigest == inp.userDigest
    requires Assemble(w, inp, pool).Success?
    ensures var first := Assemble(w, inp, pool);
            var second := Assemble(w, again, first.pool);
            && second.Success? && second.pool == first.pool
            && second.report.added == [] && second.report.removed == {}
            && |second.report.untouched| == |inp.plan|
            && Elements(second.report.untouched) == Selected(w, Sort(SelectionLe, inp.plan))
            && second.report.unreferenced == first.report.unreferenced
            && second.report.bytes == first.report.bytes
  {
    SortIsPermutation(SelectionLe, inp.plan);
    RepeatedPass(w, inp, again, Sort(SelectionLe, inp.plan), pool);
  }

  /** A pass over a pool that already holds the plan and has nothing outdated. */
  lemma {:induction false} PassInPlace(w: World, inp: Input, sels: seq<Selection>, pool: Pool)
    requires Placeable(w, sels) && InPlace(w, sels, pool) && forall i :: 0 <= i < |sels| ==> sels[i].sha256 != ""
    requires inp.prune ==> Readable(w, Index(w, sels), pool) && OutdatedPaths(w, inp, Index(w, sels), pool) == {}
    ensures var out := Pass(w, inp, sels, pool);
            && out.Success? && out.pool == pool
            && out.report.added == [] && out.report.removed == {}
            && |out.report.untouched| == |sels| && Elements(out.report.untouched) == Selected(w, sels)
            && out.report.unreferenced == pool.Keys - Selected(w, sels)
            && out.report.bytes == TotalSize(sels, |sels|)
  {
    var start := Start(pool, inp.store);
    var end := PlaceFrom(w, inp, start, sels, 0);
    InPlaceIsUntouched(w, inp, sels, 0, start, end);
    FinishKeeps(end.progress);
    assert pool - {} == pool;
    PathsAreSelected(w, sels, end.progress.indexed);
  }

  lemma {:induction false} PathsAreSelected(w: World, sels: seq<Selection>, paths: seq<string>)
    requires |paths| == |sels| && forall i :: 0 <= i < |sels| ==> paths[i] == PathOf(w, sels[i])
    ensures Elements(paths) == Selected(w, sels)
  {
    forall p | p in paths ensures p in Selected(w, sels) {
      var i :| 0 <= i < |paths| && paths[i] == p;
      assert p == PathOf(w, sels[i]);
    }
    forall p | p in Selected(w, sels) ensures p in paths {
      var i :| 0 <= i < |sels| && p == PathOf(w, sels[i]);
      assert paths[i] == p;
    }
  }

  // ---- any sequence of passes -----------------------------------------------------------------

  function PoolAfter(w: World, runs: seq<Input>, pool: Pool): Pool {
    if runs == [] then pool
    else Assemble(w, runs[|runs| - 1], PoolAfter(w, runs[..|runs| - 1], pool)).pool
  }

  /** The digest of the selection that claims `p`, "" when there is none or it has none. */
  function PlannedDigest(w: World, sels: seq<Selection>, p: string): string {
    var idx := Index(w, sels);
    if p in idx then idx[p].sha256 else ""
  }

  function VouchedAfter(w: World, before: map<string, string>, sels: seq<Selection>,
                        out: Outcome): map<string, string> {
    var kept := before - Selected(w, sels);
    if out.Failure? then kept
    else
      var still := map p | p in kept && p in out.pool :: kept[p];
      still + map p | p in Selected(w, sels) && PlannedDigest(w, sels, p) != "" :: PlannedDigest(w, sels, p)
  }

  /** For each path, the digest the last pass that claimed it vouched for: a successful pass
      records its plan's digests and forgets what it removed, a failed one forgets every
      path its plan claims. */
  function Vouched(w: World, runs: seq<Input>, pool: Pool): map<string, string> {
    if runs == [] then map[]
    else
      var before, inp := Vouched(w, runs[..|runs| - 1], pool), runs[|runs| - 1];
      var sels := Sort(SelectionLe, inp.plan);
      var out := Assemble(w, inp, PoolAfter(w, runs[..|runs| - 1], pool));
      VouchedAfter(w, before, sels, out)
  }

  lemma {:induction false} IndexOfDistinct(w: World, sels: seq<Selection>, i: nat)
    requires Placeable(w, sels) && i < |sels|
    ensures PathOf(w, sels[i]) in Index(w, sels) && Index(w, sels)[PathOf(w, sels[i])] == sels[i]
  {
    var front := sels[..|sels| - 1];
    if i < |sels| - 1 {
      assert forall k :: 0 <= k < |front| ==> front[k] == sels[k];
      IndexOfDistinct(w, front, i);
    }
  }

  lemma {:induction false} PlanIsVouchedFor(w: World, sels: seq<Selection>, pool: Pool, p: string)
    requires Placeable(w, sels) && InPlace(w, sels, pool) && p in Selected(w, sels) && PlannedDigest(w, sels, p) != ""
    ensures Matches(w, pool, p, PlannedDigest(w, sels, p))
  {
    var i :| 0 <= i < |sels| && p == PathOf(w, sels[i]);
    IndexOfDistinct(w, sels, i);
    assert FileInPlace(w, sels[i], pool);
  }

  /** Over any sequence of passes, failing ones included and whatever each store held, every
      path whose digest is vouched for is in the pool and hashes to it. */
  lemma {:induction false} VouchedFilesHold(w: World, runs: seq<Input>, pool: Pool)
    ensures forall p :: p in Vouched(w, runs, pool) ==>
      Matches(w, PoolAfter(w, runs, pool), p, Vouched(w, runs, pool)[p])
    decreases |runs|
  {
    if runs == [] {
    } else {
      var front, inp := runs[..|runs| - 1], runs[|runs| - 1];
      VouchedFilesHold(w, front, pool);
      VouchedNext(w, inp, PoolAfter(w, front, pool), Vouched(w, front, pool), Vouched(w, runs, pool));
    }
  }

  lemma {:induction false} VouchedNext(w: World, inp: Input, pool: Pool, before: map<string, string>,
                                       after: map<string, string>)
    requires forall p :: p in before ==> Matches(w, pool, p, before[p])
    requires after == VouchedAfter(w, before, Sort(SelectionLe, inp.plan), Assemble(w, inp, pool))
    ensures forall p :: p in after ==> Matches(w, Assemble(w, inp, pool).pool, p, after[p])
  {
    var sels := Sort(SelectionLe, inp.plan);
    var out := Assemble(w, inp, pool);
    PassIsConsistent(w, inp, sels, pool);
    forall p | p in after ensures Matches(w, out.pool, p, after[p]) {
      if out.Success? && p in Selected(w, sels) && PlannedDigest(w, sels, p) != "" {
        PlanIsVouchedFor(w, sels, out.pool, p);
      } else {
        assert p in before && p !in Selected(w, sels) && after[p] == before[p];
        assert Matches(w, pool, p, before[p]);
      }
    }
  }
}
