/** What the apt.conf parser reads each statement as, whatever stands around it
    (core/apt/aptconf.go:189-235). */
module AptConfForms {
  import opened AptConfLexer
  import opened AptConfSyntax
  import opened AptConfLexCases

  // A semicolon after a statement is optional, so it does not appear below: one that stands
  // between statements is nothing.

  lemma {:induction false} SemicolonIsNothing(toks: seq<Token>, pos: nat)
    requires pos < |toks| && (toks[pos] == Semi || toks[pos] == Open)
    ensures Parse(toks, pos) == Parse(toks, pos + 1)
  {
  }

  lemma {:induction false} AfterSemi(toks: seq<Token>, pos: nat)
    requires pos <= |toks|
    ensures Parse(toks, Skip(toks, pos, Semi)) == Parse(toks, pos)
  {
  }

  /** A word followed by another word, or by a quoted value, sets that value. */
  lemma {:induction false} ValueIsRead(toks: seq<Token>, pos: nat, key: string, value: string)
    requires pos + 1 < |toks| && toks[pos] == Word(key)
    requires toks[pos + 1] == Word(value) || toks[pos + 1] == Quoted(value)
    ensures Parse(toks, pos) == Prepend(Assign(key, value), Parse(toks, pos + 2))
  {
    AfterSemi(toks, pos + 2);
  }

  /** A word followed by neither a value nor a block stands alone. */
  lemma {:induction false} LoneKeyIsRead(toks: seq<Token>, pos: nat, key: string)
    requires pos < |toks| && toks[pos] == Word(key)
    requires pos + 1 == |toks| || toks[pos + 1] == Close || toks[pos + 1] == Semi || toks[pos + 1].Directive?
    ensures Parse(toks, pos) == Prepend(KeyOnly(key), Parse(toks, pos + 1))
  {
    AfterSemi(toks, pos + 1);
  }

  /** A quoted value by itself is an element of a list; a '#' line is a directive. */
  lemma {:induction false} OtherIsRead(toks: seq<Token>, pos: nat, text: string)
    requires pos < |toks|
    ensures toks[pos] == Quoted(text) ==> Parse(toks, pos) == Prepend(Bare(text), Parse(toks, pos + 1))
    ensures toks[pos] == Directive(text) ==> Parse(toks, pos) == Prepend(DirectiveLine(text), Parse(toks, pos + 1))
  {
    AfterSemi(toks, pos + 1);
  }

  /** A word and an opening brace hold everything up to the brace that closes the block, or to
      the end where none does. */
  lemma {:induction false} BlockIsRead(toks: seq<Token>, pos: nat, key: string, inner: Parsed)
    requires pos + 1 < |toks| && toks[pos] == Word(key) && toks[pos + 1] == Open && inner == Parse(toks, pos + 2)
    ensures inner.pos == |toks| ==> Parse(toks, pos) == Parsed([Block(key, inner.items)], |toks|)
    ensures inner.pos < |toks| ==>
      toks[inner.pos] == Close && Parse(toks, pos) == Prepend(Block(key, inner.items), Parse(toks, inner.pos + 1))
  {
    if inner.pos < |toks| {
      AfterSemi(toks, inner.pos + 1);
    }
  }

  // ---- from the text -----------------------------------------------------------------

  predicate PlainWord(w: string) {
    w != "" && w[0] != '#' && forall j :: 0 <= j < |w| ==> !Delimiter(w[j]) && w[j] != '/'
  }

  lemma {:induction false} PlainWordIsRead(data: string, i: nat, w: string)
    requires PlainWord(w) && i + |w| < |data| && data[i..i + |w|] == w && Delimiter(data[i + |w|])
    ensures Lex(data, i) == [Word(w)] + Lex(data, i + |w|)
  {
    forall j | i <= j < i + |w| ensures data[j] == w[j - i] {
      assert data[j] == data[i..i + |w|][j - i];
    }
    WordIsRead(data, i, i + |w|);
  }

  /** The usual unquoted spelling: a key, a value, a semicolon. */
  lemma {:induction false} UnquotedReads(key: string, value: string)
    requires PlainWord(key) && PlainWord(value)
    ensures ReadTree(key + " " + value + ";") == [Assign(key, value)]
  {
    var data := key + " " + value + ";";
    var n := |key| + 1 + |value|;
    assert data[0..|key|] == key && data[|key|] == ' ' && data[|key| + 1..n] == value && data[n] == ';';
    PlainWordIsRead(data, 0, key);
    BlankIsSkipped(data, |key|);
    PlainWordIsRead(data, |key| + 1, value);
    PunctuationIsItself(data, n);
    assert Lex(data, n + 1) == [];
    var toks := [Word(key), Word(value), Semi];
    assert Lex(data, 0) == [Word(key)] + ([Word(value)] + ([Semi] + [])) == toks;
    ValueIsRead(toks, 0, key, value);
    SemicolonIsNothing(toks, 2);
    assert Parse(toks, 3) == Parsed([], 3);
  }
}
