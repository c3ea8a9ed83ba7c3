/** What assembling with pruning takes out of the pool, in terms of packages
    (core/bundle/assemble.go:36-71, 392-480, core/bundle/prune.go:36-66). */
module PoolPruning {
  import opened Wrappers
  import opened PoolAssembly
  import opened PoolTheorems
  import opened PoolSuccess
  import P = Prune

  /** The .deb at `p` is this package: the plan says so, or for a file of no selection its own
      control data does. */
  predicate Is(w: World, sels: seq<Selection>, pool: Pool, p: string, id: Identity) {
    && p in pool && w.isDeb(p)
    && if exists i :: 0 <= i < |sels| && PathOf(w, sels[i]) == p
       then exists i :: 0 <= i < |sels| && PathOf(w, sels[i]) == p
              && id.name == sels[i].name && id.arch == sels[i].arch && id.version == sels[i].version
       else w.identity(pool[p]) == Some(id)
  }

  /** A higher version of the same package for the same architecture. */
  predicate Above(w: World, id: Identity, higher: Identity) {
    && higher.name == id.name && higher.arch == id.arch && w.versions.parses(higher.version)
    && w.versions.cmp(id.version, higher.version) < 0
  }

  function IdOf(e: P.PoolEntry): Identity {
    Identity(e.name, e.arch, e.version)
  }

  lemma {:induction false} SelectedIs(w: World, sels: seq<Selection>, p: string)
    ensures p in Index(w, sels) <==> exists i :: 0 <= i < |sels| && PathOf(w, sels[i]) == p
  {
    IndexKeys(w, sels);
    assert p in Index(w, sels) <==> p in Selected(w, sels);
  }

  lemma {:induction false} EntryIs(w: World, inp: Input, sels: seq<Selection>, pool: Pool, p: string, id: Identity)
    requires Placeable(w, sels) && Readable(w, Index(w, sels), pool) && p in pool && w.isDeb(p)
    ensures Is(w, sels, pool, p, id) <==> id == IdOf(EntryOf(w, inp, Index(w, sels), pool, p))
  {
    SelectedIs(w, sels, p);
    if p in Index(w, sels) {
      var i :| 0 <= i < |sels| && PathOf(w, sels[i]) == p;
      IndexOfDistinct(w, sels, i);
      assert forall j :: 0 <= j < |sels| && PathOf(w, sels[j]) == p ==> j == i;
    }
  }

  lemma {:induction false} BelowIs(w: World, e: P.PoolEntry, g: P.PoolEntry)
    ensures P.Below(w.versions, e, g) <==> Above(w, IdOf(e), IdOf(g))
  {
  }

  /** A leftover that is outdated: a package that parses, that the user did not supply, and of
      which the pool holds a higher version for the same architecture. */
  ghost predicate IsOutdated(w: World, inp: Input, sels: seq<Selection>, pool: Pool, p: string) {
    && (forall i :: 0 <= i < |sels| ==> PathOf(w, sels[i]) != p)
    && exists id :: Is(w, sels, pool, p, id) && w.versions.parses(id.version) && !inp.userDigest(w.hash(pool[p]))
         && exists q, higher :: Is(w, sels, pool, q, higher) && Above(w, id, higher)
  }

  lemma {:induction false} OutdatedIs(w: World, inp: Input, sels: seq<Selection>, pool: Pool, p: string)
    requires Placeable(w, sels) && Readable(w, Index(w, sels), pool)
    ensures p in OutdatedPaths(w, inp, Index(w, sels), pool) <==> IsOutdated(w, inp, sels, pool, p)
  {
    var idx := Index(w, sels);
    SelectedIs(w, sels, p);
    if p in pool && w.isDeb(p) && p !in idx {
      var e := EntryOf(w, inp, idx, pool, p);
      EntryIs(w, inp, sels, pool, p, IdOf(e));
      if Outdated(w, inp, idx, pool, p) {
        var q :| q in pool && w.isDeb(q) && P.Below(w.versions, e, EntryOf(w, inp, idx, pool, q));
        var g := EntryOf(w, inp, idx, pool, q);
        BelowIs(w, e, g);
        EntryIs(w, inp, sels, pool, q, IdOf(g));
        assert Is(w, sels, pool, q, IdOf(g)) && Above(w, IdOf(e), IdOf(g));
      }
      if IsOutdated(w, inp, sels, pool, p) {
        var id :| Is(w, sels, pool, p, id) && w.versions.parses(id.version)
          && exists q, higher :: Is(w, sels, pool, q, higher) && Above(w, id, higher);
        EntryIs(w, inp, sels, pool, p, id);
        var q, higher :| Is(w, sels, pool, q, higher) && Above(w, id, higher);
        EntryIs(w, inp, sels, pool, q, higher);
        BelowIs(w, e, EntryOf(w, inp, idx, pool, q));
      }
    }
  }

  /** Every leftover .deb has readable control data. */
  predicate LeftoversReadable(w: World, sels: seq<Selection>, pool: Pool) {
    forall p :: p in pool && w.isDeb(p) && (forall i :: 0 <= i < |sels| ==> PathOf(w, sels[i]) != p)
      ==> w.identity(pool[p]).Some?
  }

  lemma {:induction false} ReadableIs(w: World, sels: seq<Selection>, pool: Pool)
    ensures Readable(w, Index(w, sels), pool) <==> LeftoversReadable(w, sels, pool)
  {
    forall p ensures p in Index(w, sels) <==> exists i :: 0 <= i < |sels| && PathOf(w, sels[i]) == p {
      SelectedIs(w, sels, p);
    }
  }

  /** The pool that materialising leaves. */
  function PoolOf(step: Step): Pool {
    if step.Placed? then step.progress.pool else step.pool
  }

  /** A pass succeeds if and only if no selection has a fault and, with pruning, every leftover can
      be read; it removes exactly what is then outdated, and nothing without pruning. */
  lemma {:induction false} PassExactly(w: World, inp: Input, sels: seq<Selection>, pool: Pool)
    ensures var out, placed := Pass(w, inp, sels, pool), PoolOf(Materialise(w, inp, sels, pool));
            && (out.Success? <==>
                  && (forall i :: 0 <= i < |sels| ==> Fault(w, inp, pool, sels, i) == None)
                  && (inp.prune ==> LeftoversReadable(w, sels, placed)))
            && (out.Success? ==> forall p ::
                  p in out.report.removed <==> inp.prune && IsOutdated(w, inp, sels, placed, p))
  {
    MaterialisesExactly(w, inp, sels, pool);
    MaterialiseEffect(w, inp, sels, pool);
    var step := Materialise(w, inp, sels, pool);
    if step.Placed? {
      var placed := step.progress.pool;
      ReadableIs(w, sels, placed);
      if inp.prune && Readable(w, Index(w, sels), placed) {
        forall p ensures p in OutdatedPaths(w, inp, Index(w, sels), placed) <==> IsOutdated(w, inp, sels, placed, p) {
          OutdatedIs(w, inp, sels, placed, p);
        }
      }
    }
  }
}
