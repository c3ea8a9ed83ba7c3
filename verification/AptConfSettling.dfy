/** When one pass of the apt.conf filter already writes the text that every later pass writes
    (core/apt/aptconf.go:75-84, 696-715). */
module AptConfSettling {
  import opened Wrappers
  import opened AptConfLexer
  import opened AptConfSyntax
  import opened AptConfFilter
  import opened AptConfTheorems
  import opened AptConfVerdict
  import opened AptConfSpelling

  // ---- the condition --------------------------------------------------------------

  /** Some key with neither value nor block stands in the tree. */
  predicate HasKeyOnly(items: seq<Item>)
    decreases items
  {
    items != [] && (ItemHasKeyOnly(items[0]) || HasKeyOnly(items[1..]))
  }

  predicate ItemHasKeyOnly(it: Item)
    decreases it
  {
    it.KeyOnly? || (it.Block? && HasKeyOnly(it.body))
  }

  /** Such a key stands in the tree where neither it nor a block around it is dropped. */
  predicate KeyOnlyPasses(r: Rules, items: seq<Item>, path: Path)
    decreases items
  {
    items != [] && (ItemKeyOnlyPasses(r, items[0], path) || KeyOnlyPasses(r, items[1..], path))
  }

  predicate ItemKeyOnlyPasses(r: Rules, it: Item, path: Path)
    decreases it
  {
    && (it.KeyOnly? || it.Block?)
    && DropReason(r, path + SplitKeyPath(it.key), it) == None
    && (it.Block? ==> KeyOnlyPasses(r, it.body, path + SplitKeyPath(it.key)))
  }

  lemma {:induction false} HasKeyOnlyConcat(a: seq<Item>, b: seq<Item>)
    ensures HasKeyOnly(a + b) <==> HasKeyOnly(a) || HasKeyOnly(b)
  {
    if a == [] {
      assert a + b == b;
    } else {
      assert (a + b)[1..] == a[1..] + b;
      HasKeyOnlyConcat(a[1..], b);
    }
  }

  lemma {:induction false} KeptItemHasKeyOnly(r: Rules, file: string, it: Item, path: Path)
    ensures HasKeyOnly(FilterItem(r, file, it, path).kept) <==> ItemKeyOnlyPasses(r, it, path)
    decreases it
  {
    var kept := FilterItem(r, file, it, path).kept;
    assert kept != [] ==> (HasKeyOnly(kept) <==> ItemHasKeyOnly(kept[0]) || HasKeyOnly(kept[1..]));
    if it.Block? {
      KeptHasKeyOnly(r, file, it.body, path + SplitKeyPath(it.key));
    }
  }

  /** What survives has a key-only item exactly when the tree has one that passes. */
  lemma {:induction false} KeptHasKeyOnly(r: Rules, file: string, items: seq<Item>, path: Path)
    ensures HasKeyOnly(FilterItems(r, file, items, path).kept) <==> KeyOnlyPasses(r, items, path)
    decreases items
  {
    if items == [] {
    } else {
      KeptItemHasKeyOnly(r, file, items[0], path);
      KeptHasKeyOnly(r, file, items[1..], path);
      HasKeyOnlyConcat(FilterItem(r, file, items[0], path).kept, FilterItems(r, file, items[1..], path).kept);
    }
  }

  // ---- what normalising does to the printed text -----------------------------------

  /** An empty block takes more room than a key alone, so normalising lengthens the text
      exactly when it changes the item. */
  lemma {:induction false} NormItemLengthens(it: Item, depth: nat)
    ensures ItemHasKeyOnly(it) ==> |PrintItem(it, depth)| < |PrintItem(NormItem(it), depth)|
    ensures !ItemHasKeyOnly(it) ==> NormItem(it) == it
    decreases it
  {
    if it.Block? {
      NormLengthens(it.body, depth + 1);
    } else if it.KeyOnly? {
      assert Print([], depth + 1) == "";
    }
  }

  lemma {:induction false} NormLengthens(items: seq<Item>, depth: nat)
    ensures HasKeyOnly(items) ==> |Print(items, depth)| < |Print(Norm(items), depth)|
    ensures !HasKeyOnly(items) ==> Norm(items) == items
    decreases items
  {
    if items == [] {
    } else {
      NormItemLengthens(items[0], depth);
      NormLengthens(items[1..], depth);
      assert Norm(items)[1..] == Norm(items[1..]);
    }
  }

  // ---- the first pass ----------------------------------------------------------------

  lemma {:induction false} SecondText(r: Rules, file: string, data: string)
    ensures FilterText(r, file, FilterText(r, file, data).text).text ==
            Print(Norm(FilterItems(r, file, ReadTree(data), []).kept), 0)
  {
    SurvivorsReadBack(r, file, data);
    KeptIsStable(r, file, ReadTree(data), []);
  }

  /** The first pass already writes the settled text if and only if no key-only item of the
      input passes the filter. */
  lemma {:induction false} SettlesAtOnce(r: Rules, file: string, data: string)
    ensures var once := FilterText(r, file, data);
            FilterText(r, file, once.text).text == once.text <==> !KeyOnlyPasses(r, ReadTree(data), [])
  {
    var kept := FilterItems(r, file, ReadTree(data), []).kept;
    SecondText(r, file, data);
    KeptHasKeyOnly(r, file, ReadTree(data), []);
    NormLengthens(kept, 0);
  }

  // ---- an input whose text changes once more ------------------------------------------

  const UNSETTLED: string := "APT" + "::" + "Architectures" + ";"

  lemma {:induction false} PlainWordEnd(w: string, i: nat)
    requires i <= |w| && forall k :: 0 <= k < |w| ==> !EndsWord(w[k]) && w[k] != '/'
    ensures WordEnd(w, i) == |w|
    decreases |w| - i
  {
    if i == |w| {
    } else {
      PlainWordEnd(w, i + 1);
    }
  }

  lemma {:induction false} LexUnsettled(key: string)
    requires LexableWord(key)
    ensures Lex(key + ";", 0) == [Word(key), Semi]
  {
    var data := key + ";";
    NextIsWord(data, 0, key);
    LexStep(data, 0, [Word(key)], |key|);
    LexStep(data, |key|, [Semi], |key| + 1);
    assert Lex(data, |data|) == [];
  }

  lemma {:induction false} ParseUnsettled(key: string)
    requires LexableWord(key)
    ensures ReadTree(key + ";") == [KeyOnly(key)]
  {
    LexUnsettled(key);
    var toks := [Word(key), Semi];
    assert Parse(toks, 2).items == [];
  }

  lemma {:induction false} ArchitecturesPasses(r: Rules)
    requires r == Rules(s => s, false)
    ensures DropReason(r, ["APT", "Architectures"], KeyOnly("APT" + "::" + "Architectures")) == None
  {
    var p := ["APT", "Architectures"];
    assert Unscope(r, p) == p;
    assert ExactEntry(r, p) by {
      assert ALLOW_LIST[4] == Entry(["APT", "Architectures"], false);
    }
    assert forall i :: 0 <= i < |HOOK_KEYS| ==> HOOK_KEYS[i][0] != 'A';
    assert Admissible(r, p, "");
    FlatVerdict(r, p, "", "");
  }

  lemma {:induction false} ArchitecturesIsAWord(key: string)
    requires key == "APT" + "::" + "Architectures"
    ensures LexableWord(key) && SplitKeyPath(key) == ["APT", "Architectures"]
  {
    PlainWordEnd(key, 0);
    SplitPlain("Architectures");
    SplitDotted("APT", "Architectures");
  }

  lemma {:induction false} OneKeyPasses(r: Rules, key: string, path: Path)
    requires path == SplitKeyPath(key) && DropReason(r, path, KeyOnly(key)) == None
    ensures KeyOnlyPasses(r, [KeyOnly(key)], [])
  {
    assert [] + path == path;
  }

  /** A key with neither value nor block that the allow-list names: its text settles only on
      the second pass. */
  lemma {:induction false} TextMayChangeOnce(r: Rules, file: string)
    requires r == Rules(s => s, false)
    ensures var once := FilterText(r, file, UNSETTLED);
            FilterText(r, file, once.text).text != once.text
  {
    var key := "APT" + "::" + "Architectures";
    ArchitecturesIsAWord(key);
    ParseUnsettled(key);
    ArchitecturesPasses(r);
    OneKeyPasses(r, key, ["APT", "Architectures"]);
    SettlesAtOnce(r, file, UNSETTLED);
  }
}
