/** When a plan can be materialised, in terms of the plan, the starting pool, the staged files and
    the store (core/bundle/assemble.go:238-389). */
module PoolSuccess {
  import opened Wrappers
  import opened PoolAssembly
  import opened PoolTheorems

  // ---- one selection ------------------------------------------------------------------

  /** The pool already holds the planned file. */
  predicate There(w: World, pool: Pool, sel: Selection) {
    sel.sha256 != "" && PathOf(w, sel) in pool && w.fold(w.hash(pool[PathOf(w, sel)])) == w.fold(sel.sha256)
  }

  /** The store when selection `n` is reached: with the staged files of the earlier selections that
      were not already there. */
  function StoreAt(w: World, inp: Input, pool: Pool, sels: seq<Selection>, n: nat): map<string, Bytes>
    requires n <= |sels|
  {
    if n == 0 then inp.store
    else
      var before, sel := StoreAt(w, inp, pool, sels, n - 1), sels[n - 1];
      if There(w, pool, sel) || sel.stagedPath == "" || sel.stagedPath !in inp.staged then before
      else before[w.hash(inp.staged[sel.stagedPath]) := inp.staged[sel.stagedPath]]
  }

  /** The digest a selection is materialised by. */
  function DigestOf(w: World, inp: Input, sel: Selection): string {
    if sel.stagedPath != "" && sel.stagedPath in inp.staged then w.hash(inp.staged[sel.stagedPath]) else sel.sha256
  }

  /** What is wrong with the bytes a selection is to be made from, if anything. */
  function SourceFault(w: World, inp: Input, store: map<string, Bytes>, sel: Selection): Option<Error> {
    if sel.stagedPath == "" then
      if sel.sha256 == "" then Some(Usage)
      else if sel.sha256 !in store then Some(Environment)
      else if w.fold(w.hash(store[sel.sha256])) != w.fold(sel.sha256) then Some(Verification)
      else None
    else if sel.stagedPath !in inp.staged then Some(Environment)
    else if sel.sha256 != "" && w.fold(w.hash(inp.staged[sel.stagedPath])) != w.fold(sel.sha256) then Some(Verification)
    else None
  }

  /** What is wrong with what lands at its path, if anything. */
  function LandingFault(w: World, inp: Input, sel: Selection): Option<Error> {
    var digest := DigestOf(w, inp, sel);
    var landed := inp.lands(PathOf(w, sel), digest);
    if landed.None? then Some(Environment)
    else if digest == "" || w.fold(w.hash(landed.value)) != w.fold(digest) then Some(Verification)
    else None
  }

  /** What is wrong with selection `n`, if anything. */
  function Fault(w: World, inp: Input, pool: Pool, sels: seq<Selection>, n: nat): Option<Error>
    requires n < |sels|
  {
    var sel := sels[n];
    if !Acceptable(w, sel) || exists j :: 0 <= j < n && PathOf(w, sels[j]) == PathOf(w, sel) then Some(Usage)
    else if There(w, pool, sel) then None
    else if SourceFault(w, inp, StoreAt(w, inp, pool, sels, n), sel).Some? then
      SourceFault(w, inp, StoreAt(w, inp, pool, sels, n), sel)
    else LandingFault(w, inp, sel)
  }

  /** The sizes of those of the first `n` that were neither there nor in the store. */
  function Fetched(w: World, inp: Input, pool: Pool, sels: seq<Selection>, n: nat): nat
    requires n <= |sels|
  {
    if n == 0 then 0
    else
      var before, sel := Fetched(w, inp, pool, sels, n - 1), sels[n - 1];
      if There(w, pool, sel) || (sel.sha256 != "" && sel.sha256 in StoreAt(w, inp, pool, sels, n - 1)) then before
      else before + sel.size
  }

  // ---- the loop --------------------------------------------------------------------------

  /** Where the loop stands after `n` selections. */
  ghost predicate Stands(w: World, inp: Input, pool: Pool, sels: seq<Selection>, n: nat, pr: Progress)
    requires n <= |sels|
  {
    && (forall p :: p in pr.indexed <==> exists j :: 0 <= j < n && PathOf(w, sels[j]) == p)
    && (forall p :: p !in pr.indexed ==> (p in pr.pool <==> p in pool) && (p in pool ==> pr.pool[p] == pool[p]))
    && pr.store == StoreAt(w, inp, pool, sels, n)
    && pr.downloaded == Fetched(w, inp, pool, sels, n)
  }

  lemma {:induction false} IndexedNext(w: World, sels: seq<Selection>, n: nat, was: seq<string>, now: seq<string>)
    requires n < |sels| && now == was + [PathOf(w, sels[n])]
    requires forall p :: p in was <==> exists j :: 0 <= j < n && PathOf(w, sels[j]) == p
    ensures forall p :: p in now <==> exists j :: 0 <= j < n + 1 && PathOf(w, sels[j]) == p
  {
    forall p ensures p in now <==> exists j :: 0 <= j < n + 1 && PathOf(w, sels[j]) == p {
      if p in was {
        var j :| 0 <= j < n && PathOf(w, sels[j]) == p;
      }
    }
  }

  lemma {:induction false} EnsuredIs(w: World, inp: Input, store: map<string, Bytes>, sel: Selection)
    ensures var e := EnsureInStore(w, inp, store, sel);
            SourceFault(w, inp, store, sel) == if e.Refused? then Some(e.error) else None
    ensures var e := EnsureInStore(w, inp, store, sel);
            e.InStore? ==>
              && e.digest == DigestOf(w, inp, sel)
              && e.store == if sel.stagedPath == "" then store
                            else store[w.hash(inp.staged[sel.stagedPath]) := inp.staged[sel.stagedPath]]
  {
  }

  /** One turn of the loop, in the plan's terms. */
  lemma {:induction false} PlaceIs(w: World, inp: Input, pool: Pool, sels: seq<Selection>, n: nat, pr: Progress,
                                   s: Step)
    requires n < |sels| && Stands(w, inp, pool, sels, n, pr) && s == Place(w, inp, pr, sels[n])
    ensures Fault(w, inp, pool, sels, n) == if s.Stopped? then Some(s.error) else None
  {
    EnsuredIs(w, inp, pr.store, sels[n]);
    assert Acceptable(w, sels[n]) && PathOf(w, sels[n]) !in pr.indexed ==>
      (Matches(w, pr.pool, PathOf(w, sels[n]), sels[n].sha256) <==> There(w, pool, sels[n]));
  }

  /** What a placed selection does to the progress. */
  ghost predicate Moves(w: World, inp: Input, sel: Selection, pr: Progress, next: Progress) {
    var path := PathOf(w, sel);
    var there := Matches(w, pr.pool, path, sel.sha256);
    && path !in pr.indexed && next.indexed == pr.indexed + [path]
    && (forall p :: p != path ==> (p in next.pool <==> p in pr.pool) && (p in pr.pool ==> next.pool[p] == pr.pool[p]))
    && (there || sel.stagedPath == "" ==> next.store == pr.store)
    && (!there && sel.stagedPath != "" ==>
          && sel.stagedPath in inp.staged
          && next.store == pr.store[w.hash(inp.staged[sel.stagedPath]) := inp.staged[sel.stagedPath]])
    && next.downloaded == pr.downloaded +
         if there || (sel.sha256 != "" && sel.sha256 in pr.store) then 0 else sel.size
  }

  lemma {:induction false} PlacedMoves(w: World, inp: Input, pr: Progress, sel: Selection)
    requires Place(w, inp, pr, sel).Placed?
    ensures Moves(w, inp, sel, pr, Place(w, inp, pr, sel).progress)
  {
    EnsuredIs(w, inp, pr.store, sel);
  }

  lemma {:induction false} AccountsNext(w: World, inp: Input, pool: Pool, sels: seq<Selection>, n: nat, pr: Progress,
                                        next: Progress)
    requires n < |sels| && Moves(w, inp, sels[n], pr, next)
    requires Matches(w, pr.pool, PathOf(w, sels[n]), sels[n].sha256) == There(w, pool, sels[n])
    requires pr.store == StoreAt(w, inp, pool, sels, n) && pr.downloaded == Fetched(w, inp, pool, sels, n)
    ensures next.store == StoreAt(w, inp, pool, sels, n + 1)
    ensures next.downloaded == Fetched(w, inp, pool, sels, n + 1)
  {
  }

  lemma {:induction false} ApartNext(pool: Pool, pr: Progress, next: Progress, path: string)
    requires next.indexed == pr.indexed + [path]
    requires forall p :: p != path ==>
      (p in next.pool <==> p in pr.pool) && (p in pr.pool ==> next.pool[p] == pr.pool[p])
    requires forall p :: p !in pr.indexed ==> (p in pr.pool <==> p in pool) && (p in pool ==> pr.pool[p] == pool[p])
    ensures forall p :: p !in next.indexed ==>
      (p in next.pool <==> p in pool) && (p in pool ==> next.pool[p] == pool[p])
  {
    assert forall p :: p in next.indexed <==> p in pr.indexed || p == path;
  }

  lemma {:induction false} StandsNext(w: World, inp: Input, pool: Pool, sels: seq<Selection>, n: nat, pr: Progress,
                                      next: Progress)
    requires n < |sels| && Stands(w, inp, pool, sels, n, pr) && Moves(w, inp, sels[n], pr, next)
    ensures Stands(w, inp, pool, sels, n + 1, next)
  {
    var path := PathOf(w, sels[n]);
    IndexedNext(w, sels, n, pr.indexed, next.indexed);
    ApartNext(pool, pr, next, path);
    assert Matches(w, pr.pool, path, sels[n].sha256) <==> There(w, pool, sels[n]);
    AccountsNext(w, inp, pool, sels, n, pr, next);
  }

  // ---- the whole plan ----------------------------------------------------------------------

  /** The first selection from `n` on that has a fault, if any. */
  function FirstFault(w: World, inp: Input, pool: Pool, sels: seq<Selection>, n: nat): Option<Error>
    requires n <= |sels|
    decreases |sels| - n
  {
    if n == |sels| then None
    else if Fault(w, inp, pool, sels, n).Some? then Fault(w, inp, pool, sels, n)
    else FirstFault(w, inp, pool, sels, n + 1)
  }

  lemma {:induction false} FirstFaultIs(w: World, inp: Input, pool: Pool, sels: seq<Selection>, n: nat)
    requires n <= |sels|
    ensures FirstFault(w, inp, pool, sels, n) == None <==>
            forall i :: n <= i < |sels| ==> Fault(w, inp, pool, sels, i) == None
    decreases |sels| - n
  {
    if n == |sels| {
    } else {
      FirstFaultIs(w, inp, pool, sels, n + 1);
    }
  }

  lemma {:induction false} LoopIs(w: World, inp: Input, pool: Pool, sels: seq<Selection>, n: nat, pr: Progress,
                                  end: Step)
    requires n <= |sels| && Stands(w, inp, pool, sels, n, pr) && end == PlaceFrom(w, inp, pr, sels, n)
    ensures FirstFault(w, inp, pool, sels, n) == if end.Stopped? then Some(end.error) else None
    ensures end.Placed? ==> Stands(w, inp, pool, sels, |sels|, end.progress)
    decreases |sels| - n
  {
    if n == |sels| {
    } else {
      var s := Place(w, inp, pr, sels[n]);
      PlaceIs(w, inp, pool, sels, n, pr, s);
      if s.Placed? {
        PlacedMoves(w, inp, pr, sels[n]);
        StandsNext(w, inp, pool, sels, n, pr, s.progress);
        LoopIs(w, inp, pool, sels, n + 1, s.progress, end);
      }
    }
  }

  /** Materialising a plan answers with the first fault of its selections, in order, and succeeds if
      and only if none has one; then it counts as downloaded what was neither there nor stored. */
  lemma {:induction false} MaterialisesExactly(w: World, inp: Input, sels: seq<Selection>, pool: Pool)
    ensures var s := Materialise(w, inp, sels, pool);
            && FirstFault(w, inp, pool, sels, 0) == (if s.Stopped? then Some(s.error) else None)
            && (s.Placed? <==> forall i :: 0 <= i < |sels| ==> Fault(w, inp, pool, sels, i) == None)
            && (s.Placed? ==> s.progress.downloaded == Fetched(w, inp, pool, sels, |sels|))
  {
    var start := Start(pool, inp.store);
    LoopIs(w, inp, pool, sels, 0, start, PlaceFrom(w, inp, start, sels, 0));
    FirstFaultIs(w, inp, pool, sels, 0);
  }

  /** A plan succeeds if and only if its selections are well named, on paths of their own, and each
      is in the starting pool at its planned digest, or has sound bytes behind it that land whole. */
  lemma {:induction false} SucceedsExactly(w: World, inp: Input, sels: seq<Selection>, pool: Pool)
    ensures Materialise(w, inp, sels, pool).Placed? <==>
            && Placeable(w, sels)
            && forall i :: 0 <= i < |sels| ==>
                 || There(w, pool, sels[i])
                 || (Sound(w, inp, StoreAt(w, inp, pool, sels, i), sels[i]) && LandsWhole(w, inp, sels[i]))
  {
    MaterialisesExactly(w, inp, sels, pool);
    forall i | 0 <= i < |sels|
      ensures Fault(w, inp, pool, sels, i) == None <==>
              && Acceptable(w, sels[i]) && (forall j :: 0 <= j < i ==> PathOf(w, sels[j]) != PathOf(w, sels[i]))
              && (|| There(w, pool, sels[i])
                  || (Sound(w, inp, StoreAt(w, inp, pool, sels, i), sels[i]) && LandsWhole(w, inp, sels[i])))
    {
    }
  }

  /** A staged file that agrees with the planned digest if there is one; without a staged path, a
      planned digest and a stored object that hashes to it. */
  predicate Sound(w: World, inp: Input, store: map<string, Bytes>, sel: Selection) {
    if sel.stagedPath != "" then
      && sel.stagedPath in inp.staged
      && (sel.sha256 != "" ==> w.fold(w.hash(inp.staged[sel.stagedPath])) == w.fold(sel.sha256))
    else
      sel.sha256 != "" && sel.sha256 in store && w.fold(w.hash(store[sel.sha256])) == w.fold(sel.sha256)
  }

  predicate LandsWhole(w: World, inp: Input, sel: Selection) {
    var digest := DigestOf(w, inp, sel);
    var landed := inp.lands(PathOf(w, sel), digest);
    landed.Some? && digest != "" && w.fold(w.hash(landed.value)) == w.fold(digest)
  }
}
