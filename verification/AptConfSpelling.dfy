/** Which spellings of one assignment the apt.conf filter carries
    (core/apt/aptconf.go:239-292, 543-581, 617-692).

    An assignment can be written with its path in one dotted key or spread over nested
    blocks.  The filter judges every enclosing block on its own, so two spellings of one
    setting need not share a fate; the exact condition is proved here. */
module AptConfSpelling {
  import opened Wrappers
  import opened AptConfSyntax
  import opened AptConfFilter
  import opened AptConfTheorems
  import opened AptConfVerdict

  /** The assignment spelled with one key per nesting level, outermost first. */
  function Nested(keys: seq<string>, value: string): Item
    requires keys != []
  {
    if |keys| == 1 then Assign(keys[0], value) else Block(keys[0], [Nested(keys[1..], value)])
  }

  /** The path accumulated from `path` through all the keys. */
  function FullPath(path: Path, keys: seq<string>): Path
    decreases |keys|
  {
    if keys == [] then path else FullPath(path + SplitKeyPath(keys[0]), keys[1..])
  }

  /** Every block the spelling opens below `path` is passable. */
  predicate OpenWay(r: Rules, path: Path, keys: seq<string>)
    decreases |keys|
  {
    |keys| >= 2 ==>
      var next := path + SplitKeyPath(keys[0]);
      Passable(r, next) && OpenWay(r, next, keys[1..])
  }

  /** The spelling is carried: its full path may be set, and every enclosing block is passable. */
  predicate Carried(r: Rules, path: Path, keys: seq<string>, value: string)
    requires keys != []
  {
    && (FullPath(path, keys) == [] || Admissible(r, FullPath(path, keys), value))
    && OpenWay(r, path, keys)
  }

  // ---- the verdict on a whole spelling ---------------------------------------------

  lemma {:induction false} PathsGrow(path: Path, keys: seq<string>)
    ensures path <= FullPath(path, keys)
    decreases |keys|
  {
    if keys == [] {
    } else {
      PathsGrow(path + SplitKeyPath(keys[0]), keys[1..]);
    }
  }

  lemma {:induction false} CarriedInside(r: Rules, path: Path, keys: seq<string>, value: string)
    requires |keys| >= 2
    ensures var next := path + SplitKeyPath(keys[0]);
            Carried(r, path, keys, value) <==> Passable(r, next) && Carried(r, next, keys[1..], value)
  {
  }

  lemma {:induction false} BlockOfCarried(r: Rules, path: Path, keys: seq<string>, value: string, it: Item)
    requires keys != [] && Carried(r, path, keys, value) && it.Block?
    ensures DropReason(r, path, it) == None <==> Passable(r, path)
  {
    PathsGrow(path, keys);
    if FullPath(path, keys) != [] {
      BlockOnTheWay(r, FullPath(path, keys), value, path, it);
    }
  }

  lemma {:induction false} FilterOfSingleton(r: Rules, file: string, it: Item, path: Path)
    ensures FilterItems(r, file, [it], path).kept == FilterItem(r, file, it, path).kept
  {
    FilterOfCons(r, file, it, [], path);
    assert [it] + [] == [it];
  }

  /** What the filter does with a block holding one item that it keeps or drops whole. */
  lemma {:induction false} BlockOfOne(r: Rules, file: string, path: Path, key: string, inner: Item, kept: bool)
    requires FilterItem(r, file, inner, path + SplitKeyPath(key)).kept == if kept then [inner] else []
    ensures FilterItem(r, file, Block(key, [inner]), path).kept ==
            if kept && DropReason(r, path + SplitKeyPath(key), Block(key, [inner])) == None
            then [Block(key, [inner])] else []
  {
    FilterOfSingleton(r, file, inner, path + SplitKeyPath(key));
  }

  /** A spelling in a block is carried when the rest of it is and the block is not dropped. */
  lemma {:induction false} CarriedByBlock(r: Rules, path: Path, keys: seq<string>, value: string, next: Path)
    requires |keys| >= 2 && next == path + SplitKeyPath(keys[0])
    ensures Carried(r, path, keys, value) <==>
            Carried(r, next, keys[1..], value) && DropReason(r, next, Nested(keys, value)) == None
  {
    CarriedInside(r, path, keys, value);
    if Carried(r, next, keys[1..], value) {
      BlockOfCarried(r, next, keys[1..], value, Nested(keys, value));
    }
  }

  /** Any spelling of any assignment survives, unchanged, exactly when its full path and
      value are admissible and no enclosing block is one a deny rule or the solver rule
      takes out; otherwise nothing of it survives. */
  lemma {:induction false} SpellingVerdict(r: Rules, file: string, path: Path, keys: seq<string>, value: string)
    requires keys != [] && r.fold("APT") != r.fold("Acquire")
    ensures FilterItem(r, file, Nested(keys, value), path).kept ==
            if Carried(r, path, keys, value) then [Nested(keys, value)] else []
    decreases |keys|
  {
    var next := path + SplitKeyPath(keys[0]);
    if |keys| == 1 {
      assert FullPath(path, keys) == FullPath(next, keys[1..]) == next;
      FlatVerdict(r, next, keys[0], value);
    } else {
      SpellingVerdict(r, file, next, keys[1..], value);
      BlockOfOne(r, file, path, keys[0], Nested(keys[1..], value), Carried(r, next, keys[1..], value));
      CarriedByBlock(r, path, keys, value, next);
    }
  }

  // ---- two spellings with different fates -------------------------------------------

  lemma {:induction false} SepAfter(s: string, i: nat, k: nat)
    requires i <= k <= |s| && (k == |s| || SepAt(s, k))
    requires forall j :: i <= j < k ==> s[j] != ':'
    ensures FindSep(s, i) == k
    decreases k - i
  {
    if i < k {
      SepAfter(s, i + 1, k);
    }
  }

  lemma {:induction false} SplitPlain(a: string)
    requires a != "" && ':' !in a
    ensures Split(a) == [a] && SplitKeyPath(a) == [a]
  {
    SepAfter(a, 0, |a|);
    assert a[|a| - 1] != ':';
  }

  lemma {:induction false} SplitDotted(a: string, b: string)
    requires ':' !in a && b != "" && b[|b| - 1] != ':'
    ensures Split(a + "::" + b) == [a] + Split(b)
    ensures SplitKeyPath(a + "::" + b) == [a] + Split(b)
  {
    var s := a + "::" + b;
    assert s[|a|] == ':' && s[|a| + 1] == ':';
    assert forall j :: 0 <= j < |a| ==> s[j] == a[j];
    SepAfter(s, 0, |a|);
    assert s[..|a|] == a && s[|a| + 2..] == b;
    assert s[|s| - 1] == b[|b| - 1];
    assert s[|s| - 2..][1] == s[|s| - 1];
  }

  const DOTTED_TUNE: string := "APT" + "::" + ("Solver" + "::" + "Tune")

  lemma {:induction false} SplitTune()
    ensures SplitKeyPath(DOTTED_TUNE) == ["APT", "Solver", "Tune"]
    ensures SplitKeyPath("APT") == ["APT"] && SplitKeyPath("Solver") == ["Solver"]
  {
    SplitPlain("APT");
    SplitPlain("Solver");
    SplitPlain("Tune");
    SplitDotted("Solver", "Tune");
    SplitDotted("APT", "Solver" + "::" + "Tune");
  }

  /** The solver's tuning keys: written with dots they are carried, written as a block
      under Solver they are not. */
  lemma {:induction false} SolverSpellingsDiffer(r: Rules, file: string, value: string)
    requires r == Rules(s => s, false)
    ensures FilterItem(r, file, Nested([DOTTED_TUNE], value), []).kept == [Nested([DOTTED_TUNE], value)]
    ensures FilterItem(r, file, Nested(["APT", "Solver", "Tune"], value), []).kept == []
  {
    SplitTune();
    assert r.fold("APT") == "APT" && r.fold("Acquire") == "Acquire";
    DottedTuneIsCarried(r, [DOTTED_TUNE], value);
    NestedTuneIsNot(r, ["APT", "Solver", "Tune"], value);
    SpellingVerdict(r, file, [], [DOTTED_TUNE], value);
    SpellingVerdict(r, file, [], ["APT", "Solver", "Tune"], value);
  }

  lemma {:induction false} DottedTuneIsCarried(r: Rules, keys: seq<string>, value: string)
    requires r == Rules(s => s, false) && |keys| == 1 && SplitKeyPath(keys[0]) == ["APT", "Solver", "Tune"]
    ensures Carried(r, [], keys, value)
  {
    var p := ["APT", "Solver", "Tune"];
    assert FullPath([], keys) == FullPath([] + p, keys[1..]) == p;
    assert Unscope(r, p) == p && BeneathSolver(r, p);
    TuneIsHarmless(r);
  }

  lemma {:induction false} TuneIsHarmless(r: Rules)
    requires r == Rules(s => s, false)
    ensures !OneOf(r, "Tune", HOOK_KEYS) && !OneOf(r, "Tune", VERIFICATION_KEYS)
  {
    assert forall i :: 0 <= i < |HOOK_KEYS| ==> |HOOK_KEYS[i]| > 4;
    assert forall i :: 0 <= i < |VERIFICATION_KEYS| ==> |VERIFICATION_KEYS[i]| > 4;
  }

  lemma {:induction false} NestedTuneIsNot(r: Rules, keys: seq<string>, value: string)
    requires |keys| == 3 && SplitKeyPath(keys[0]) == ["APT"] && SplitKeyPath(keys[1]) == ["Solver"]
    requires r == Rules(s => s, false)
    ensures !Carried(r, [], keys, value)
  {
    var p := ["APT"] + ["Solver"];
    assert [] + ["APT"] == ["APT"];
    assert OpenWay(r, [], keys) ==> OpenWay(r, ["APT"], keys[1..]);
    assert OpenWay(r, ["APT"], keys[1..]) ==> Passable(r, p);
    assert Unscope(r, p) == p && IsSolver(r, p);
  }
}
