/** How far the apt.conf parser reads (core/apt/aptconf.go:189-235). */
module AptConfReach {
  import opened AptConfLexer
  import opened AptConfSyntax
  import opened AptConfFilter
  import opened AptConfTheorems

  /** Read flat from `pos` on, inside `depth` open blocks: no '}' comes where no block is open.
      Only a '{' directly after a key opens a block; a key is a word that is not a value. */
  predicate Balanced(toks: seq<Token>, pos: nat, depth: nat)
    requires pos <= |toks|
    decreases |toks| - pos
  {
    if pos == |toks| then true
    else if toks[pos].Close? then depth > 0 && Balanced(toks, pos + 1, depth - 1)
    else if toks[pos].Word? && pos + 1 < |toks| && toks[pos + 1].Open? then Balanced(toks, pos + 2, depth + 1)
    else if toks[pos].Word? && pos + 1 < |toks| && (toks[pos + 1].Word? || toks[pos + 1].Quoted?) then
      Balanced(toks, pos + 2, depth)
    else Balanced(toks, pos + 1, depth)
  }

  /** The same from where the parser left off: at the end, or at a '}' that closes a block. */
  predicate GoesOn(toks: seq<Token>, pos: nat, depth: nat)
    requires pos <= |toks| && (pos < |toks| ==> toks[pos].Close?)
  {
    pos == |toks| || (depth > 0 && Balanced(toks, pos + 1, depth - 1))
  }

  lemma {:induction false} SemiIsNothing(toks: seq<Token>, pos: nat, depth: nat)
    requires pos <= |toks|
    ensures Balanced(toks, pos, depth) == Balanced(toks, Skip(toks, pos, Semi), depth)
  {
  }

  /** The recursive parser and the flat reading agree on which '}' ends what. */
  lemma {:induction false} ParseIsFlat(toks: seq<Token>, pos: nat, depth: nat)
    requires pos <= |toks|
    ensures Balanced(toks, pos, depth) <==> GoesOn(toks, Parse(toks, pos).pos, depth)
    decreases |toks| - pos
  {
    if pos == |toks| || toks[pos].Close? {
    } else if toks[pos].Word? {
      if pos + 1 < |toks| && toks[pos + 1].Open? {
        BlockIsFlat(toks, pos, depth);
      } else if pos + 1 < |toks| && (toks[pos + 1].Word? || toks[pos + 1].Quoted?) {
        SemiIsNothing(toks, pos + 2, depth);
        ParseIsFlat(toks, Skip(toks, pos + 2, Semi), depth);
      } else {
        SemiIsNothing(toks, pos + 1, depth);
        ParseIsFlat(toks, Skip(toks, pos + 1, Semi), depth);
      }
    } else if toks[pos].Quoted? {
      SemiIsNothing(toks, pos + 1, depth);
      ParseIsFlat(toks, Skip(toks, pos + 1, Semi), depth);
    } else {
      ParseIsFlat(toks, pos + 1, depth);
    }
  }

  lemma {:induction false} BlockIsFlat(toks: seq<Token>, pos: nat, depth: nat)
    requires pos + 1 < |toks| && toks[pos].Word? && toks[pos + 1].Open?
    ensures Balanced(toks, pos, depth) <==> GoesOn(toks, Parse(toks, pos).pos, depth)
    decreases |toks| - pos, 0
  {
    ParseIsFlat(toks, pos + 2, depth + 1);
    var inner := Parse(toks, pos + 2).pos;
    var close := Skip(toks, inner, Close);
    var after := Skip(toks, close, Semi);
    assert inner < |toks| ==> close == inner + 1;
    SemiIsNothing(toks, close, depth);
    ParseIsFlat(toks, after, depth);
    assert Parse(toks, pos).pos == Parse(toks, after).pos;
  }

  /** The parser reads the whole file if and only if every '}' closes a block that is open. */
  lemma {:induction false} ReadsAll(toks: seq<Token>)
    ensures Parse(toks, 0).pos == |toks| <==> Balanced(toks, 0, 0)
  {
    ParseIsFlat(toks, 0, 0);
  }

  // ---- what a stray brace takes with it ------------------------------------------------

  /** A stray '}' ends the file: what follows is neither carried nor reported. */
  lemma {:induction false} StrayCloseEndsTheFile(r: Rules, file: string, rest: string)
    ensures FilterText(r, file, "}" + rest) == Outcome("", [])
    ensures !Balanced(Lex("}" + rest, 0), 0, 0)
  {
    var data := "}" + rest;
    assert data[0] == '}';
    LexStep(data, 0, [Close], 1);
    assert Lex(data, 0)[0] == Close;
    assert ReadTree(data) == [];
  }

  /** So does a block whose '{' follows no key: its own '}' is the stray one. */
  lemma {:induction false} StrayOpenEndsTheFile(r: Rules, file: string, rest: string)
    ensures FilterText(r, file, "{}" + rest) == Outcome("", [])
    ensures !Balanced(Lex("{}" + rest, 0), 0, 0)
  {
    var data := "{}" + rest;
    assert data[0] == '{' && data[1] == '}';
    LexStep(data, 0, [Open], 1);
    LexStep(data, 1, [Close], 2);
    var toks := Lex(data, 0);
    assert toks[0] == Open && toks[1] == Close;
    assert Parse(toks, 0) == Parse(toks, 1);
    assert Balanced(toks, 0, 0) == Balanced(toks, 1, 0);
    assert ReadTree(data) == [];
  }
}
