/** The verdict of the apt.conf filter on one item, from its accumulated path alone
    (core/apt/aptconf.go:533-692).

    Dropping is decided in a fixed order: deny rules on the path without its Binary scope, then
    the first allow-list entry that is above or beneath the path, then the solver rule on the
    value.  Stated without that order, a dotted assignment survives exactly when its path and
    value are admissible; a block on the way to an admissible setting survives exactly when
    neither a deny rule nor the solver rule names the block itself; and a bare value stands only
    where such a block, itself not dropped, or the top of the file holds it. */
module AptConfVerdict {
  import opened Wrappers
  import opened AptConfSyntax
  import opened AptConfFilter
  import opened AptConfTheorems

  /** A block here is not dropped by a deny rule, nor taken for a solver list. */
  predicate Passable(r: Rules, path: Path) {
    path == [] || (!Dangerous(r, Unscope(r, path)) && !IsSolver(r, Unscope(r, path)))
  }

  // ---- the verdict on one key ---------------------------------------------------

  lemma {:induction false} EntryClassifies(r: Rules, p: Path, i: nat, j: nat)
    requires p != [] && i <= j < |ALLOW_LIST|
    requires HasPrefix(r, ALLOW_LIST[j].path, p) || (HasPrefix(r, p, ALLOW_LIST[j].path) && ALLOW_LIST[j].subtree)
    ensures ClassifyFrom(r, p, i) != Unknown
    decreases j - i
  {
    if i < j {
      EntryClassifies(r, p, i + 1, j);
    }
  }

  lemma {:induction false} AcquireClassifies(r: Rules, p: Path, i: nat)
    requires p != [] && i <= |ALLOW_LIST| && r.allowProxy && Same(r, p[0], "Acquire")
    ensures ClassifyFrom(r, p, i) != Unknown
    decreases |ALLOW_LIST| - i
  {
    if i == |ALLOW_LIST| {
    } else {
      AcquireClassifies(r, p, i + 1);
    }
  }

  lemma {:induction false} PrefixClassifies(r: Rules, p: Path, q: Path)
    requires q != [] && q <= p
    requires ExactEntry(r, p) || BeneathSolver(r, p) || OptedInProxy(r, p)
    ensures ClassifyFrom(r, q, 0) != Unknown
  {
    if ExactEntry(r, p) {
      var i :| 0 <= i < |ALLOW_LIST| && |p| == |ALLOW_LIST[i].path| && HasPrefix(r, p, ALLOW_LIST[i].path);
      EntryClassifies(r, q, 0, i);
    } else if BeneathSolver(r, p) {
      assert ALLOW_LIST[5] == Entry(["APT", "Solver"], true);
      if |q| == 1 {
        assert HasPrefix(r, ALLOW_LIST[5].path, q);
      } else {
        assert HasPrefix(r, q, ALLOW_LIST[5].path);
      }
      EntryClassifies(r, q, 0, 5);
    } else {
      AcquireClassifies(r, q, 0);
    }
  }

  lemma {:induction false} UnscopePrefix(r: Rules, path: Path, prefix: Path)
    requires prefix != [] && prefix <= path
    ensures Scoped(r, prefix) == Scoped(r, path)
    ensures Unscope(r, prefix) <= Unscope(r, path)
  {
    assert prefix[0] == path[0];
    if Scoped(r, path) && |prefix| >= 2 {
      assert prefix[2..] == path[2..|prefix|];
    }
  }

  lemma {:induction false} DangerousIsDenied(r: Rules, p: Path)
    ensures Dangerous(r, p) <==> DenyReason(r, p).Some?
  {
  }

  lemma {:induction false} KnownBlockVerdict(r: Rules, path: Path, it: Item)
    requires path != [] && it.Block? && Classify(r, path) != Unknown
    ensures DropReason(r, path, it) == None <==> Passable(r, path)
  {
    DangerousIsDenied(r, Unscope(r, path));
  }

  /** A block on the way to an admissible setting is dropped only by a deny rule or as a solver list. */
  lemma {:induction false} BlockOnTheWay(r: Rules, path: Path, value: string, prefix: Path, it: Item)
    requires Admissible(r, path, value) && prefix <= path && it.Block?
    ensures DropReason(r, prefix, it) == None <==> Passable(r, prefix)
  {
    if prefix != [] {
      UnscopePrefix(r, path, prefix);
      if Unscope(r, prefix) != [] {
        PrefixClassifies(r, Unscope(r, path), Unscope(r, prefix));
      }
      KnownBlockVerdict(r, prefix, it);
    }
  }

  // ---- bare values -----------------------------------------------------------------

  /** A bare value may stand at the top, or in a block that the allow-list leads to or names and
      that no deny rule or solver rule takes out. */
  predicate MayHoldBare(r: Rules, path: Path) {
    path == [] || (Classify(r, path) != Unknown && Passable(r, path))
  }

  ghost predicate BareInPlace(r: Rules, leaves: seq<Leaf>) {
    forall l :: l in leaves && !l.keyed ==> MayHoldBare(r, l.path)
  }

  lemma {:induction false} SurvivingBlockMayHold(r: Rules, path: Path, it: Item)
    requires it.Block? && DropReason(r, path, it) == None
    ensures MayHoldBare(r, path)
  {
    if path != [] {
      KnownBlockVerdict(r, path, it);
    }
  }

  lemma {:induction false} KeptItemBare(r: Rules, file: string, it: Item, path: Path)
    requires MayHoldBare(r, path)
    ensures BareInPlace(r, Leaves(FilterItem(r, file, it, path).kept, path))
    decreases it
  {
    var kept := FilterItem(r, file, it, path).kept;
    if kept == [] {
    } else {
      LeavesOfOne(kept[0], path);
      if it.Block? {
        var newPath := path + SplitKeyPath(it.key);
        SurvivingBlockMayHold(r, newPath, it);
        KeptBare(r, file, it.body, newPath);
      }
    }
  }

  /** Every bare value that survives stands where one may, at any depth. */
  lemma {:induction false} KeptBare(r: Rules, file: string, items: seq<Item>, path: Path)
    requires MayHoldBare(r, path)
    ensures BareInPlace(r, Leaves(FilterItems(r, file, items, path).kept, path))
    decreases items
  {
    if items == [] {
    } else {
      var head, tail := FilterItem(r, file, items[0], path).kept, FilterItems(r, file, items[1..], path).kept;
      KeptItemBare(r, file, items[0], path);
      KeptBare(r, file, items[1..], path);
      LeavesOfConcat(head, tail, path);
    }
  }

  /** The same of the written text, read back by the program's own lexer and parser. */
  lemma {:induction false} WrittenBareInPlace(r: Rules, file: string, data: string)
    ensures BareInPlace(r, Leaves(ReadTree(FilterText(r, file, data).text), []))
  {
    SurvivorsReadBack(r, file, data);
    KeptBare(r, file, ReadTree(data), []);
    NormKeepsLeaves(FilterItems(r, file, ReadTree(data), []).kept, []);
  }

  // ---- dotted keys -----------------------------------------------------------------

  /** Some allow-list rule from entry `i` on still admits `p`. */
  ghost predicate AdmittedFrom(r: Rules, p: Path, i: nat) {
    || (exists j :: i <= j < |ALLOW_LIST| && |p| == |ALLOW_LIST[j].path| && HasPrefix(r, p, ALLOW_LIST[j].path))
    || (BeneathSolver(r, p) && i <= 5)
    || OptedInProxy(r, p)
  }

  /** The entry at `i` neither admits `p` nor, being a longer path, claims it as a container. */
  lemma {:induction false} NotShadowed(r: Rules, p: Path, i: nat)
    requires |p| >= 2 && i < |ALLOW_LIST| && r.fold("APT") != r.fold("Acquire")
    requires AdmittedFrom(r, p, i)
    requires !(HasPrefix(r, p, ALLOW_LIST[i].path) && |p| == |ALLOW_LIST[i].path|)
    ensures !HasPrefix(r, ALLOW_LIST[i].path, p)
  {
    var e := ALLOW_LIST[i].path;
    if |p| == |e| {
      var k :| 0 <= k < |e| && !Same(r, p[k], e[k]);
      assert !Same(r, e[k], p[k]);
    } else if |p| < |e| {
      assert |e| == 3 && e[0] == "APT";
      if !OptedInProxy(r, p) {
        var j :| i <= j < |ALLOW_LIST| && |p| == |ALLOW_LIST[j].path| && HasPrefix(r, p, ALLOW_LIST[j].path);
        assert ALLOW_LIST[j].path[0] == "Acquire" && Same(r, p[0], ALLOW_LIST[j].path[0]);
      }
      assert !Same(r, e[0], p[0]);
    }
  }

  lemma {:induction false} AdmittedFromNext(r: Rules, p: Path, i: nat)
    requires |p| >= 2 && i < |ALLOW_LIST| && AdmittedFrom(r, p, i)
    requires !(HasPrefix(r, p, ALLOW_LIST[i].path) && (ALLOW_LIST[i].subtree || |p| == |ALLOW_LIST[i].path|))
    ensures AdmittedFrom(r, p, i + 1)
  {
    assert ALLOW_LIST[5] == Entry(["APT", "Solver"], true);
    assert HasPrefix(r, p, ALLOW_LIST[5].path) <==> BeneathSolver(r, p);
  }

  lemma {:induction false} AdmittedIsAllowed(r: Rules, p: Path, i: nat)
    requires |p| >= 2 && i <= |ALLOW_LIST| && r.fold("APT") != r.fold("Acquire") && AdmittedFrom(r, p, i)
    ensures ClassifyFrom(r, p, i) == Allowed
    decreases |ALLOW_LIST| - i
  {
    var admits := i < |ALLOW_LIST| && HasPrefix(r, p, ALLOW_LIST[i].path)
                  && (ALLOW_LIST[i].subtree || |p| == |ALLOW_LIST[i].path|);
    if i < |ALLOW_LIST| && !admits {
      NotShadowed(r, p, i);
      AdmittedFromNext(r, p, i);
      AdmittedIsAllowed(r, p, i + 1);
    }
  }

  lemma {:induction false} AdmissibleHasTwoSegments(r: Rules, path: Path, value: string)
    requires Admissible(r, path, value)
    ensures |Unscope(r, path)| >= 2 && AdmittedFrom(r, Unscope(r, path), 0)
  {
    var p := Unscope(r, path);
    if OptedInProxy(r, p) {
      var k :| 0 <= k < |p[1..]| && Same(r, p[1..][k], "Proxy");
    }
  }

  /** A dotted assignment survives exactly when its path and value are admissible. */
  lemma {:induction false} FlatVerdict(r: Rules, path: Path, key: string, value: string)
    requires r.fold("APT") != r.fold("Acquire")
    ensures DropReason(r, path, Assign(key, value)) == None <==> path == [] || Admissible(r, path, value)
  {
    if path != [] {
      if DropReason(r, path, Assign(key, value)) == None {
        SurvivorIsAdmissible(r, path, key, value);
      }
      if Admissible(r, path, value) {
        AdmissibleHasTwoSegments(r, path, value);
        AdmittedIsAllowed(r, Unscope(r, path), 0);
        DangerousIsDenied(r, Unscope(r, path));
      }
    }
  }
}
