/** Which pool entries --update removes (core/bundle/prune.go).

    The library's version parser and comparison are a parameter: which strings parse,
    and a comparison that is a total preorder on those. */
module Prune {
  import VersionOrder

  datatype Versions = Versions(parses: string -> bool, cmp: (string, string) -> int)

  /** Sign-antisymmetric and transitive on the strings that parse. */
  ghost predicate TotalPreorder(v: Versions) {
    && (forall a, b :: v.parses(a) && v.parses(b) ==>
          VersionOrder.Sign(v.cmp(a, b)) == -VersionOrder.Sign(v.cmp(b, a)))
    && (forall a, b, c :: v.parses(a) && v.parses(b) && v.parses(c) && v.cmp(a, b) <= 0 && v.cmp(b, c) <= 0 ==>
          v.cmp(a, c) <= 0)
  }

  /** The repository's own comparison is such an order on all NUL-free strings. */
  lemma {:induction false} FallbackIsTotalPreorder()
    ensures TotalPreorder(Versions(VersionOrder.NulFree, VersionOrder.CompareFallback))
  {
    forall a, b | VersionOrder.NulFree(a) && VersionOrder.NulFree(b)
      ensures VersionOrder.Sign(VersionOrder.CompareFallback(a, b)) ==
              -VersionOrder.Sign(VersionOrder.CompareFallback(b, a))
    {
      VersionOrder.FallbackAntisymmetric(a, b);
    }
    forall a, b, c | VersionOrder.NulFree(a) && VersionOrder.NulFree(b) && VersionOrder.NulFree(c)
      && VersionOrder.CompareFallback(a, b) <= 0 && VersionOrder.CompareFallback(b, c) <= 0
      ensures VersionOrder.CompareFallback(a, c) <= 0
    {
      VersionOrder.FallbackTransitive(a, b, c);
    }
  }

  datatype PoolEntry = PoolEntry(name: string, arch: string, version: string, path: string,
                                 userSupplied: bool, lockReferenced: bool)

  datatype Group = Group(name: string, arch: string)

  function GroupOf(e: PoolEntry): Group {
    Group(e.name, e.arch)
  }

  /** A version of `e`'s group that parses. */
  predicate Comparable(v: Versions, e: PoolEntry, g: PoolEntry) {
    GroupOf(g) == GroupOf(e) && v.parses(g.version)
  }

  predicate Below(v: Versions, e: PoolEntry, g: PoolEntry) {
    Comparable(v, e, g) && v.cmp(e.version, g.version) < 0
  }

  /** Removable: it parses, nothing protects it, and its group holds a higher version. */
  predicate Superseded(v: Versions, e: PoolEntry, files: seq<PoolEntry>) {
    && v.parses(e.version) && !e.userSupplied && !e.lockReferenced
    && exists g :: g in files && Below(v, e, g)
  }

  /** The entries of `list` that `files` supersedes, in their order. */
  function Removed(v: Versions, list: seq<PoolEntry>, files: seq<PoolEntry>): seq<PoolEntry> {
    if list == [] then []
    else (if Superseded(v, list[0], files) then [list[0]] else []) + Removed(v, list[1..], files)
  }

  /** The entries of `list` that `files` does not supersede, in their order. */
  function Kept(v: Versions, list: seq<PoolEntry>, files: seq<PoolEntry>): seq<PoolEntry> {
    if list == [] then []
    else (if Superseded(v, list[0], files) then [] else [list[0]]) + Kept(v, list[1..], files)
  }

  // ---- the program ------------------------------------------------------------------

  /** `best` holds, for each group of `files`, a highest version that parses. */
  ghost predicate BestOf(v: Versions, best: map<Group, string>, files: seq<PoolEntry>) {
    && (forall k :: k in best ==>
          exists g :: g in files && GroupOf(g) == k && v.parses(g.version) && g.version == best[k])
    && (forall g :: g in files && v.parses(g.version) ==>
          GroupOf(g) in best && v.parses(best[GroupOf(g)]) && v.cmp(g.version, best[GroupOf(g)]) <= 0)
  }

  lemma {:induction false} BestOfMore(v: Versions, best: map<Group, string>, files: seq<PoolEntry>, f: PoolEntry)
    requires TotalPreorder(v) && BestOf(v, best, files)
    ensures !v.parses(f.version) ==> BestOf(v, best, files + [f])
    ensures v.parses(f.version) && GroupOf(f) in best && v.cmp(f.version, best[GroupOf(f)]) <= 0 ==>
              BestOf(v, best, files + [f])
    ensures v.parses(f.version) && (GroupOf(f) !in best || v.cmp(f.version, best[GroupOf(f)]) > 0) ==>
              BestOf(v, best[GroupOf(f) := f.version], files + [f])
  {
    assert v.parses(f.version) ==> v.cmp(f.version, f.version) == 0;
    var more := files + [f];
    assert forall g :: g in more <==> g in files || g == f;
    if v.parses(f.version) && (GroupOf(f) !in best || v.cmp(f.version, best[GroupOf(f)]) > 0) {
      var next := best[GroupOf(f) := f.version];
      forall k | k in next
        ensures exists g :: g in more && GroupOf(g) == k && v.parses(g.version) && g.version == next[k]
      {
        if k == GroupOf(f) {
          assert f in more;
        } else {
          var g :| g in files && GroupOf(g) == k && v.parses(g.version) && g.version == best[k];
          assert g in more;
        }
      }
    } else {
      forall k | k in best
        ensures exists g :: g in more && GroupOf(g) == k && v.parses(g.version) && g.version == best[k]
      {
        var g :| g in files && GroupOf(g) == k && v.parses(g.version) && g.version == best[k];
        assert g in more;
      }
    }
  }

  lemma {:induction false} StrictlyBelow(v: Versions, a: string, b: string, c: string)
    requires TotalPreorder(v) && v.parses(a) && v.parses(b) && v.parses(c)
    requires v.cmp(a, b) < 0 && v.cmp(b, c) <= 0
    ensures v.cmp(a, c) < 0
  {
    assert v.cmp(c, a) <= 0 ==> v.cmp(b, a) <= 0;
  }

  lemma {:induction false} BestDecides(v: Versions, best: map<Group, string>, files: seq<PoolEntry>, f: PoolEntry)
    requires TotalPreorder(v) && BestOf(v, best, files) && f in files && v.parses(f.version)
    ensures v.cmp(f.version, best[GroupOf(f)]) < 0 <==> exists g :: g in files && Below(v, f, g)
  {
    var b := best[GroupOf(f)];
    var h :| h in files && GroupOf(h) == GroupOf(f) && v.parses(h.version) && h.version == b;
    assert v.cmp(f.version, b) < 0 ==> Below(v, f, h);
    forall g | g in files && Below(v, f, g) ensures v.cmp(f.version, b) < 0 {
      StrictlyBelow(v, f.version, g.version, b);
    }
  }

  /** The first loop of pruneDecide. */
  method BestVersions(v: Versions, files: seq<PoolEntry>) returns (best: map<Group, string>)
    requires TotalPreorder(v)
    ensures BestOf(v, best, files)
  {
    best := map[];
    for i := 0 to |files|
      invariant BestOf(v, best, files[..i])
    {
      var f := files[i];
      assert files[..i + 1] == files[..i] + [f];
      BestOfMore(v, best, files[..i], f);
      if !v.parses(f.version) {
        continue;
      }
      var k := GroupOf(f);
      if k !in best || v.cmp(f.version, best[k]) > 0 {
        best := best[k := f.version];
      }
    }
    assert files[..|files|] == files;
  }

  /** pruneDecide. */
  method PruneDecide(v: Versions, files: seq<PoolEntry>) returns (remove: seq<PoolEntry>)
    requires TotalPreorder(v)
    ensures remove == Removed(v, files, files)
  {
    var best := BestVersions(v, files);
    remove := [];
    ghost var whole := Removed(v, files, files);
    for i := 0 to |files|
      invariant whole == remove + Removed(v, files[i..], files)
    {
      RemovedStep(v, files, i, remove);
      var f := files[i];
      if !v.parses(f.version) || f.userSupplied || f.lockReferenced {
        continue;
      }
      BestDecides(v, best, files, f);
      if v.cmp(f.version, best[GroupOf(f)]) < 0 {
        remove := remove + [f];
      }
    }
  }

  lemma {:induction false} RemovedStep(v: Versions, files: seq<PoolEntry>, i: nat, remove: seq<PoolEntry>)
    requires i < |files|
    ensures remove + Removed(v, files[i..], files) ==
            (if Superseded(v, files[i], files) then remove + [files[i]] else remove) + Removed(v, files[i + 1..], files)
  {
    assert files[i..][1..] == files[i + 1..];
  }

  // ---- what the decision promises -------------------------------------------------------

  lemma {:induction false} Members(v: Versions, list: seq<PoolEntry>, files: seq<PoolEntry>)
    ensures forall e :: e in Removed(v, list, files) <==> e in list && Superseded(v, e, files)
    ensures forall e :: e in Kept(v, list, files) <==> e in list && !Superseded(v, e, files)
  {
    if list == [] {
    } else {
      Members(v, list[1..], files);
      assert forall e :: e in list <==> e == list[0] || e in list[1..];
    }
  }

  /** Every group with a version that parses has a highest one. */
  lemma {:induction false} Highest(v: Versions, e: PoolEntry, files: seq<PoolEntry>) returns (h: PoolEntry)
    requires TotalPreorder(v) && exists g :: g in files && Comparable(v, e, g)
    ensures h in files && Comparable(v, e, h)
    ensures forall g :: g in files && Comparable(v, e, g) ==> v.cmp(g.version, h.version) <= 0
    decreases |files|
  {
    var first, rest := files[0], files[1..];
    assert forall g :: g in files <==> g == first || g in rest;
    if exists g :: g in rest && Comparable(v, e, g) {
      h := Highest(v, e, rest);
      if Comparable(v, e, first) && v.cmp(first.version, h.version) > 0 {
        var prior := h;
        h := first;
        forall g | g in files && Comparable(v, e, g) ensures v.cmp(g.version, h.version) <= 0 {
          assert v.cmp(h.version, h.version) == 0;
          if g != first {
            assert v.cmp(g.version, prior.version) <= 0 && v.cmp(prior.version, first.version) <= 0;
          }
        }
      }
    } else {
      h := first;
      assert v.cmp(h.version, h.version) == 0;
    }
  }

  /** Each group keeps one of its highest versions that parse. */
  lemma {:induction false} KeepsHighest(v: Versions, files: seq<PoolEntry>, e: PoolEntry)
    requires TotalPreorder(v) && e in files && v.parses(e.version)
    ensures exists h :: h in Kept(v, files, files) && Comparable(v, e, h)
                        && forall g :: g in files && Comparable(v, e, g) ==> v.cmp(g.version, h.version) <= 0
  {
    assert Comparable(v, e, e);
    var h := Highest(v, e, files);
    Members(v, files, files);
    assert forall g :: g in files && Comparable(v, h, g) ==> Comparable(v, e, g);
  }

  /** Only unprotected entries go, each strictly below a survivor of its own group. */
  lemma {:induction false} RemovesOnlySuperseded(v: Versions, files: seq<PoolEntry>, e: PoolEntry)
    requires TotalPreorder(v) && e in Removed(v, files, files)
    ensures v.parses(e.version) && !e.userSupplied && !e.lockReferenced
    ensures exists h :: h in Kept(v, files, files) && Below(v, e, h)
  {
    Members(v, files, files);
    KeepsHighest(v, files, e);
    var g :| g in files && Below(v, e, g);
    var h :| h in Kept(v, files, files) && Comparable(v, e, h)
             && forall g :: g in files && Comparable(v, e, g) ==> v.cmp(g.version, h.version) <= 0;
    StrictlyBelow(v, e.version, g.version, h.version);
  }

  lemma {:induction false} NothingSuperseded(v: Versions, list: seq<PoolEntry>, files: seq<PoolEntry>)
    requires forall e :: e in list ==> !Superseded(v, e, files)
    ensures Removed(v, list, files) == [] && Kept(v, list, files) == list
  {
    if list == [] {
    } else {
      NothingSuperseded(v, list[1..], files);
    }
  }

  /** Pruning what pruning left removes nothing more. */
  lemma {:induction false} PruneIsIdempotent(v: Versions, files: seq<PoolEntry>)
    ensures var kept := Kept(v, files, files); Removed(v, kept, kept) == [] && Kept(v, kept, kept) == kept
  {
    var kept := Kept(v, files, files);
    Members(v, files, files);
    assert forall e :: Superseded(v, e, kept) ==> Superseded(v, e, files);
    NothingSuperseded(v, kept, kept);
  }

  /** Removed and kept together are the list. */
  lemma {:induction false} SplitsTheList(v: Versions, list: seq<PoolEntry>, files: seq<PoolEntry>)
    ensures multiset(Removed(v, list, files)) + multiset(Kept(v, list, files)) == multiset(list)
  {
    if list == [] {
    } else {
      SplitsTheList(v, list[1..], files);
      assert list == [list[0]] + list[1..];
    }
  }

  lemma {:induction false} RemovedCount(v: Versions, list: seq<PoolEntry>, files: seq<PoolEntry>, e: PoolEntry)
    ensures multiset(Removed(v, list, files))[e] == if Superseded(v, e, files) then multiset(list)[e] else 0
  {
    if list == [] {
    } else {
      RemovedCount(v, list[1..], files, e);
      assert list == [list[0]] + list[1..];
    }
  }

  /** The order of the list does not matter: the same entries go, as often as they occur. */
  lemma {:induction false} PruneIgnoresOrder(v: Versions, files: seq<PoolEntry>, other: seq<PoolEntry>)
    requires multiset(files) == multiset(other)
    ensures multiset(Removed(v, files, files)) == multiset(Removed(v, other, other))
  {
    assert forall g :: g in files <==> g in multiset(files);
    assert forall g :: g in other <==> g in multiset(other);
    forall e: PoolEntry
      ensures multiset(Removed(v, files, files))[e] == multiset(Removed(v, other, other))[e]
    {
      RemovedCount(v, files, files, e);
      RemovedCount(v, other, other, e);
      assert Superseded(v, e, files) <==> Superseded(v, e, other);
    }
  }

  /** What is removed, in terms of the fields: it parses, is neither user-supplied nor in the lock,
      and an entry of the same name and the same architecture has a higher version that parses. */
  lemma {:induction false} RemovedExactly(v: Versions, files: seq<PoolEntry>, e: PoolEntry)
    ensures e in Removed(v, files, files) <==>
            && e in files && v.parses(e.version) && !e.userSupplied && !e.lockReferenced
            && exists g :: g in files && g.name == e.name && g.arch == e.arch && v.parses(g.version)
                 && v.cmp(e.version, g.version) < 0
  {
    Members(v, files, files);
    if e in files && Superseded(v, e, files) {
      var g :| g in files && Below(v, e, g);
    }
    forall g | g in files && g.name == e.name && g.arch == e.arch && v.parses(g.version)
      ensures v.cmp(e.version, g.version) < 0 ==> Below(v, e, g)
    {
    }
  }
}
