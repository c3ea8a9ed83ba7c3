/** What the apt.conf filter promises (core/apt/aptconf.go:22-84): it is stable on its
    own output, no assignment goes missing without a report, and nothing survives
    that the allow-list does not name, however it is spelled. */
module AptConfTheorems {
  import opened Wrappers
  import opened Seqs
  import opened AptConfLexer
  import opened AptConfSyntax
  import opened AptConfFilter

  // ---- trees that come from text ----------------------------------------------

  /** Every key in the tree is a word the lexer can produce. */
  predicate WellKeyed(items: seq<Item>)
    decreases items
  {
    forall i :: 0 <= i < |items| ==> WellKeyedItem(items[i])
  }

  predicate WellKeyedItem(it: Item)
    decreases it
  {
    match it
    case DirectiveLine(_) => true
    case Bare(_) => true
    case Assign(key, _) => LexableWord(key)
    case Block(key, body) => LexableWord(key) && WellKeyed(body)
    case KeyOnly(key) => LexableWord(key)
  }

  lemma {:induction false} ParsedIsWellKeyed(toks: seq<Token>, pos: nat)
    requires pos <= |toks| && WellLexed(toks)
    ensures WellKeyed(Parse(toks, pos).items)
    decreases |toks| - pos
  {
    if pos == |toks| {
    } else {
      assert toks[pos] in toks;
      match toks[pos] {
        case Close =>
        case Directive(_) =>
          ParsedIsWellKeyed(toks, pos + 1);
        case Quoted(_) =>
          ParsedIsWellKeyed(toks, Skip(toks, pos + 1, Semi));
        case Word(key) =>
          if pos + 1 < |toks| && toks[pos + 1].Open? {
            ParsedIsWellKeyed(toks, pos + 2);
            ParsedIsWellKeyed(toks, Skip(toks, Skip(toks, Parse(toks, pos + 2).pos, Close), Semi));
          } else if pos + 1 < |toks| && (toks[pos + 1].Word? || toks[pos + 1].Quoted?) {
            ParsedIsWellKeyed(toks, Skip(toks, pos + 2, Semi));
          } else {
            ParsedIsWellKeyed(toks, Skip(toks, pos + 1, Semi));
          }
        case Open =>
          ParsedIsWellKeyed(toks, pos + 1);
        case Semi =>
          ParsedIsWellKeyed(toks, pos + 1);
      }
    }
  }

  lemma {:induction false} KeptItemIsPrintable(r: Rules, file: string, it: Item, path: Path)
    requires WellKeyedItem(it)
    ensures Printable(FilterItem(r, file, it, path).kept)
    decreases it
  {
    if it.Block? {
      KeptIsPrintable(r, file, it.body, path + SplitKeyPath(it.key));
    }
  }

  /** The filter leaves a tree the printer can print: no directive survives. */
  lemma {:induction false} KeptIsPrintable(r: Rules, file: string, items: seq<Item>, path: Path)
    requires WellKeyed(items)
    ensures Printable(FilterItems(r, file, items, path).kept)
    decreases items
  {
    if items == [] {
    } else {
      KeptItemIsPrintable(r, file, items[0], path);
      KeptIsPrintable(r, file, items[1..], path);
    }
  }

  // ---- stability ----------------------------------------------------------------

  lemma {:induction false} FilterOfCons(r: Rules, file: string, it: Item, rest: seq<Item>, path: Path)
    ensures FilterItems(r, file, [it] + rest, path) ==
            Filtered(FilterItem(r, file, it, path).kept + FilterItems(r, file, rest, path).kept,
                     FilterItem(r, file, it, path).dropped + FilterItems(r, file, rest, path).dropped)
  {
    assert ([it] + rest)[1..] == rest;
  }

  /** The verdict on a block does not look inside it, and a key-only survivor would
      also survive as a block. */
  lemma {:induction false} BlockVerdict(r: Rules, path: Path, it: Item, body: seq<Item>)
    requires it.Block? || it.KeyOnly?
    requires DropReason(r, path, it) == None
    ensures DropReason(r, path, Block(it.key, body)) == None
  {
  }

  /** A surviving item, normalised, survives again unchanged and reports nothing. */
  lemma {:induction false} KeptItemIsStable(r: Rules, file: string, it: Item, path: Path)
    ensures var k := FilterItem(r, file, it, path).kept;
            |k| <= 1 && (k != [] ==> FilterItem(r, file, NormItem(k[0]), path) == Filtered([NormItem(k[0])], []))
    decreases it
  {
    var k := FilterItem(r, file, it, path).kept;
    if k != [] && (it.Block? || it.KeyOnly?) {
      var newPath := path + SplitKeyPath(it.key);
      var body := if it.Block? then Norm(FilterItems(r, file, it.body, newPath).kept) else [];
      if it.Block? {
        KeptIsStable(r, file, it.body, newPath);
      }
      assert FilterItems(r, file, body, newPath) == Filtered(body, []);
      BlockVerdict(r, newPath, it, body);
      assert NormItem(k[0]) == Block(it.key, body);
    }
  }

  lemma {:induction false} KeptIsStable(r: Rules, file: string, items: seq<Item>, path: Path)
    ensures var k := Norm(FilterItems(r, file, items, path).kept);
            FilterItems(r, file, k, path) == Filtered(k, [])
    decreases items
  {
    if items == [] {
    } else {
      KeptItemIsStable(r, file, items[0], path);
      KeptIsStable(r, file, items[1..], path);
      var head := FilterItem(r, file, items[0], path).kept;
      var tail := FilterItems(r, file, items[1..], path).kept;
      if head == [] {
        assert head + tail == tail;
      } else {
        assert (head + tail)[0] == head[0] && (head + tail)[1..] == tail;
        FilterOfCons(r, file, NormItem(head[0]), Norm(tail), path);
      }
    }
  }

  lemma {:induction false} NormIsIdempotent(items: seq<Item>)
    ensures Norm(Norm(items)) == Norm(items)
    decreases items
  {
    if items == [] {
    } else {
      if items[0].Block? {
        NormIsIdempotent(items[0].body);
      }
      NormIsIdempotent(items[1..]);
      assert Norm(items)[1..] == Norm(items[1..]);
    }
  }

  // ---- the whole pipeline ---------------------------------------------------------

  datatype Outcome = Outcome(text: string, dropped: seq<Drop>)

  function FilterText(r: Rules, file: string, data: string): Outcome {
    var f := FilterItems(r, file, ReadTree(data), []);
    Outcome(Print(f.kept, 0), f.dropped)
  }

  /** filterAptConf. */
  method FilterAptConf(r: Rules, file: string, data: string) returns (text: string, dropped: seq<Drop>)
    ensures Outcome(text, dropped) == FilterText(r, file, data)
    // A second pass drops nothing more from the result.
    ensures FilterText(r, file, text).dropped == []
  {
    var toks := Tokenize(data);
    var items, _ := ParseItems(toks, 0);
    var out;
    out, dropped := Filter(r, file, items, [], []);
    text := SerializeItems(out, 0);
    FilterIsStable(r, file, data);
  }

  lemma {:induction false} SurvivorsReadBack(r: Rules, file: string, data: string)
    ensures ReadTree(FilterText(r, file, data).text) == Norm(FilterItems(r, file, ReadTree(data), []).kept)
  {
    LexedWordsAreLexable(data, 0);
    ParsedIsWellKeyed(Lex(data, 0), 0);
    KeptIsPrintable(r, file, ReadTree(data), []);
    RoundTrip(FilterItems(r, file, ReadTree(data), []).kept);
  }

  /** For every text: filtering what the filter wrote drops nothing and reads the same
      tree, key-only items having become empty blocks; and from the second pass on the
      text itself no longer changes. */
  lemma {:induction false} FilterIsStable(r: Rules, file: string, data: string)
    ensures var once := FilterText(r, file, data);
            var twice := FilterText(r, file, once.text);
            && twice.dropped == []
            && ReadTree(once.text) == Norm(FilterItems(r, file, ReadTree(data), []).kept)
            && ReadTree(twice.text) == ReadTree(once.text)
            && FilterText(r, file, twice.text) == twice
  {
    var kept := FilterItems(r, file, ReadTree(data), []).kept;
    var once := FilterText(r, file, data);
    var twice := FilterText(r, file, once.text);
    SurvivorsReadBack(r, file, data);
    KeptIsStable(r, file, ReadTree(data), []);
    SurvivorsReadBack(r, file, once.text);
    NormIsIdempotent(kept);
  }

  // ---- conservation -----------------------------------------------------------------

  /** A value-bearing assignment: the path and value it sets; a bare value belongs to
      the path of the block it stands in. */
  datatype Leaf = Leaf(path: Path, value: string, keyed: bool)

  function ItemLeaves(it: Item, path: Path): seq<Leaf>
    decreases it
  {
    match it
    case DirectiveLine(_) => []
    case Bare(value) => [Leaf(path, value, false)]
    case Assign(key, value) => [Leaf(path + SplitKeyPath(key), value, true)]
    case Block(key, body) => Leaves(body, path + SplitKeyPath(key))
    case KeyOnly(_) => []
  }

  function Leaves(items: seq<Item>, path: Path): seq<Leaf>
    decreases items
  {
    if items == [] then [] else ItemLeaves(items[0], path) + Leaves(items[1..], path)
  }

  lemma {:induction false} LeavesOfConcat(a: seq<Item>, b: seq<Item>, path: Path)
    ensures Leaves(a + b, path) == Leaves(a, path) + Leaves(b, path)
  {
    if a == [] {
      assert a + b == b;
    } else {
      LeavesOfConcat(a[1..], b, path);
      assert (a + b)[1..] == a[1..] + b;
      Assoc(ItemLeaves(a[0], path), Leaves(a[1..], path), Leaves(b, path));
    }
  }

  lemma {:induction false} LeafPathsExtendItem(it: Item, path: Path)
    ensures forall l :: l in ItemLeaves(it, path) ==> path <= l.path
    decreases it
  {
    if it.Block? {
      LeafPathsExtend(it.body, path + SplitKeyPath(it.key));
    }
  }

  lemma {:induction false} LeafPathsExtend(items: seq<Item>, path: Path)
    ensures forall l :: l in Leaves(items, path) ==> path <= l.path
    decreases items
  {
    if items == [] {
    } else {
      LeafPathsExtendItem(items[0], path);
      LeafPathsExtend(items[1..], path);
    }
  }

  /** `all` is made of `kept` and `lost`, each in its own order. */
  ghost predicate Shuffle(all: seq<Leaf>, kept: seq<Leaf>, lost: seq<Leaf>)
    decreases |all|
  {
    if all == [] then kept == [] && lost == []
    else
      || (kept != [] && kept[0] == all[0] && Shuffle(all[1..], kept[1..], lost))
      || (lost != [] && lost[0] == all[0] && Shuffle(all[1..], kept, lost[1..]))
  }

  lemma {:induction false} ShuffleAll(s: seq<Leaf>)
    ensures Shuffle(s, s, []) && Shuffle(s, [], s)
  {
    if s == [] {
    } else {
      ShuffleAll(s[1..]);
    }
  }

  lemma {:induction false} ShuffleConcat(a: seq<Leaf>, k: seq<Leaf>, l: seq<Leaf>,
                                         a': seq<Leaf>, k': seq<Leaf>, l': seq<Leaf>)
    requires Shuffle(a, k, l) && Shuffle(a', k', l')
    ensures Shuffle(a + a', k + k', l + l')
    decreases |a|
  {
    if a == [] {
      assert a + a' == a' && k + k' == k' && l + l' == l';
    } else {
      assert (a + a')[1..] == a[1..] + a';
      if k != [] && k[0] == a[0] && Shuffle(a[1..], k[1..], l) {
        ShuffleConcat(a[1..], k[1..], l, a', k', l');
        assert (k + k')[1..] == k[1..] + k';
      } else {
        ShuffleConcat(a[1..], k, l[1..], a', k', l');
        assert (l + l')[1..] == l[1..] + l';
      }
    }
  }

  /** Some recorded drop names a prefix of the leaf's own path. */
  ghost predicate Reported(file: string, dropped: seq<Drop>, l: Leaf) {
    exists d, n: nat :: d in dropped && n <= |l.path| && d.file == file && d.key == Join(l.path[..n])
  }

  lemma {:induction false} ReportedInMore(file: string, a: seq<Drop>, b: seq<Drop>, ls: seq<Leaf>)
    requires forall l :: l in ls ==> Reported(file, a, l) || Reported(file, b, l)
    ensures forall l :: l in ls ==> Reported(file, a + b, l)
  {
    forall l | l in ls ensures Reported(file, a + b, l) {
      var c := if Reported(file, a, l) then a else b;
      var d, n: nat :| d in c && n <= |l.path| && d.file == file && d.key == Join(l.path[..n]);
      assert d in a + b;
    }
  }

  lemma {:induction false} DroppedIsReported(r: Rules, file: string, it: Item, path: Path)
    requires !it.DirectiveLine? && !it.Bare? && DropReason(r, path + SplitKeyPath(it.key), it).Some?
    ensures forall l :: l in ItemLeaves(it, path) ==> Reported(file, FilterItem(r, file, it, path).dropped, l)
  {
    var newPath, f := path + SplitKeyPath(it.key), FilterItem(r, file, it, path);
    LeafPathsExtendKeyed(it, path);
    forall l | l in ItemLeaves(it, path) ensures Reported(file, f.dropped, l) {
      assert l.path[..|newPath|] == newPath;
      assert f.dropped[0] in f.dropped;
    }
  }

  lemma {:induction false} ItemConserves(r: Rules, file: string, it: Item, path: Path) returns (lost: seq<Leaf>)
    ensures Shuffle(ItemLeaves(it, path), Leaves(FilterItem(r, file, it, path).kept, path), lost)
    ensures forall l :: l in lost ==> Reported(file, FilterItem(r, file, it, path).dropped, l)
    decreases it
  {
    var all, f := ItemLeaves(it, path), FilterItem(r, file, it, path);
    ShuffleAll(all);
    if it.DirectiveLine? {
      return [];
    }
    LeavesOfOne(it, path);
    if it.Bare? {
      return [];
    }
    var newPath := path + SplitKeyPath(it.key);
    var drop := DropReason(r, newPath, it);
    if drop.Some? {
      DroppedIsReported(r, file, it, path);
      return all;
    }
    if it.Block? {
      lost := ItemsConserve(r, file, it.body, newPath);
      LeavesOfOne(Block(it.key, FilterItems(r, file, it.body, newPath).kept), path);
      return;
    }
    return [];
  }

  lemma {:induction false} LeavesOfOne(it: Item, path: Path)
    ensures Leaves([it], path) == ItemLeaves(it, path)
  {
    assert [it][1..] == [];
  }

  lemma {:induction false} LeafPathsExtendKeyed(it: Item, path: Path)
    requires !it.DirectiveLine? && !it.Bare?
    ensures forall l :: l in ItemLeaves(it, path) ==> path + SplitKeyPath(it.key) <= l.path
  {
    if it.Block? {
      LeafPathsExtend(it.body, path + SplitKeyPath(it.key));
    }
  }

  lemma {:induction false} ItemsConserve(r: Rules, file: string, items: seq<Item>, path: Path) returns (lost: seq<Leaf>)
    ensures Shuffle(Leaves(items, path), Leaves(FilterItems(r, file, items, path).kept, path), lost)
    ensures forall l :: l in lost ==> Reported(file, FilterItems(r, file, items, path).dropped, l)
    decreases items
  {
    if items == [] {
      return [];
    }
    var head, tail := FilterItem(r, file, items[0], path), FilterItems(r, file, items[1..], path);
    var lostHead := ItemConserves(r, file, items[0], path);
    var lostTail := ItemsConserve(r, file, items[1..], path);
    lost := lostHead + lostTail;
    LeavesOfConcat(head.kept, tail.kept, path);
    ShuffleConcat(ItemLeaves(items[0], path), Leaves(head.kept, path), lostHead,
                  Leaves(items[1..], path), Leaves(tail.kept, path), lostTail);
    ReportedInMore(file, head.dropped, tail.dropped, lost);
  }

  /** No silent drop: the assignments of the parsed tree are exactly the surviving ones,
      with the same paths, values and order, and others of which every one is covered by
      a recorded drop of a prefix of its path.  Emptied blocks lose nothing unreported. */
  lemma {:induction false} NothingIsLostSilently(r: Rules, file: string, data: string)
    ensures exists lost: seq<Leaf> ::
      && Shuffle(Leaves(ReadTree(data), []), Leaves(FilterItems(r, file, ReadTree(data), []).kept, []), lost)
      && forall l :: l in lost ==> Reported(file, FilterText(r, file, data).dropped, l)
  {
    var lost := ItemsConserve(r, file, ReadTree(data), []);
  }

  // ---- safety -------------------------------------------------------------------------

  predicate ExactEntry(r: Rules, p: Path) {
    exists i :: 0 <= i < |ALLOW_LIST| && |p| == |ALLOW_LIST[i].path| && HasPrefix(r, p, ALLOW_LIST[i].path)
  }

  predicate BeneathSolver(r: Rules, p: Path) {
    |p| >= 2 && Same(r, p[0], "APT") && Same(r, p[1], "Solver")
  }

  predicate OptedInProxy(r: Rules, p: Path) {
    r.allowProxy && p != [] && Same(r, p[0], "Acquire") && ContainsSegment(r, p[1..], "Proxy")
  }

  predicate Dangerous(r: Rules, p: Path) {
    && p != []
    && (|| Same(r, p[0], "Dir")
        || OneOf(r, p[|p| - 1], HOOK_KEYS)
        || OneOf(r, p[|p| - 1], VERIFICATION_KEYS)
        || (|p| >= 2 && Same(r, p[0], "DPkg") && Same(r, p[1], "Tools"))
        || (|p| >= 3 && Same(r, p[0], "Acquire") && Same(r, p[1], "gpgv") && Same(r, p[|p| - 1], "Options"))
        || (!r.allowProxy && Same(r, p[0], "Acquire") && ContainsSegment(r, p[1..], "Proxy")))
  }

  /** What a private root may carry, stated without reference to the filter's order of checks. */
  predicate Admissible(r: Rules, path: Path, value: string) {
    var p := Unscope(r, path);
    && (ExactEntry(r, p) || BeneathSolver(r, p) || OptedInProxy(r, p))
    && !Dangerous(r, p)
    && (IsSolver(r, p) ==> !NamesPath(value))
  }

  lemma {:induction false} ClassifyAllows(r: Rules, p: Path, i: nat)
    requires p != [] && i <= |ALLOW_LIST| && ClassifyFrom(r, p, i) == Allowed
    ensures ExactEntry(r, p) || BeneathSolver(r, p) || OptedInProxy(r, p)
    decreases |ALLOW_LIST| - i
  {
    if i == |ALLOW_LIST| {
    } else {
      var e := ALLOW_LIST[i];
      if HasPrefix(r, p, e.path) && (e.subtree || |p| == |e.path|) {
        if e.subtree {
          assert e.path == ["APT", "Solver"];
          assert Same(r, p[0], e.path[0]) && Same(r, p[1], e.path[1]);
        }
      } else {
        ClassifyAllows(r, p, i + 1);
      }
    }
  }

  lemma {:induction false} SurvivorIsAdmissible(r: Rules, path: Path, key: string, value: string)
    requires path != [] && DropReason(r, path, Assign(key, value)) == None
    ensures Admissible(r, path, value)
  {
    var p := Unscope(r, path);
    assert Classify(r, path) == Allowed && p != [];
    ClassifyAllows(r, p, 0);
  }

  ghost predicate AllAdmissible(r: Rules, leaves: seq<Leaf>) {
    forall l :: l in leaves && l.keyed && l.path != [] ==> Admissible(r, l.path, l.value)
  }

  lemma {:induction false} KeptItemIsAdmissible(r: Rules, file: string, it: Item, path: Path)
    ensures AllAdmissible(r, Leaves(FilterItem(r, file, it, path).kept, path))
    decreases it
  {
    var kept := FilterItem(r, file, it, path).kept;
    if kept != [] {
      LeavesOfOne(kept[0], path);
      if it.Block? {
        KeptIsAdmissible(r, file, it.body, path + SplitKeyPath(it.key));
      } else if it.Assign? && path + SplitKeyPath(it.key) != [] {
        SurvivorIsAdmissible(r, path + SplitKeyPath(it.key), it.key, it.value);
      }
    }
  }

  /** Every keyed value that survives, at any depth and in dotted or block spelling, is
      one the allow-list names and no deny rule matches. */
  lemma {:induction false} KeptIsAdmissible(r: Rules, file: string, items: seq<Item>, path: Path)
    ensures AllAdmissible(r, Leaves(FilterItems(r, file, items, path).kept, path))
    decreases items
  {
    if items == [] {
    } else {
      var head, tail := FilterItem(r, file, items[0], path).kept, FilterItems(r, file, items[1..], path).kept;
      KeptItemIsAdmissible(r, file, items[0], path);
      KeptIsAdmissible(r, file, items[1..], path);
      LeavesOfConcat(head, tail, path);
    }
  }

  /** The same of the written text, read back by the program's own lexer and parser. */
  lemma {:induction false} WrittenTextIsAdmissible(r: Rules, file: string, data: string)
    ensures AllAdmissible(r, Leaves(ReadTree(FilterText(r, file, data).text), []))
  {
    SurvivorsReadBack(r, file, data);
    var kept := FilterItems(r, file, ReadTree(data), []).kept;
    KeptIsAdmissible(r, file, ReadTree(data), []);
    NormKeepsLeaves(kept, []);
  }

  lemma {:induction false} NormKeepsLeaves(items: seq<Item>, path: Path)
    ensures Leaves(Norm(items), path) == Leaves(items, path)
    decreases items
  {
    if items == [] {
    } else {
      if items[0].Block? {
        NormKeepsLeaves(items[0].body, path + SplitKeyPath(items[0].key));
      }
      NormKeepsLeaves(items[1..], path);
      assert ItemLeaves(NormItem(items[0]), path) == ItemLeaves(items[0], path);
      assert Norm(items)[1..] == Norm(items[1..]);
    }
  }
}
