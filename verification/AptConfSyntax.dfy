/** The apt.conf parser and printer (core/apt/aptconf.go:175-235, 694-729), and the
    round trip between them.

    `Parse(toks, pos)` is what the parser makes of the tokens from `pos` on.  The
    printer's output is shown to read back, through lexer and parser, as the tree it
    was printed from, for values of arbitrary bytes. */
module AptConfSyntax {
  import opened Seqs
  import opened AptConfLexer

  /** One statement: a directive line, a bare value of a value list, `Key value;`,
      `Key { ... };`, or a key with neither value nor block. */
  datatype Item =
    | DirectiveLine(text: string)
    | Bare(value: string)
    | Assign(key: string, value: string)
    | Block(key: string, body: seq<Item>)
    | KeyOnly(key: string)

  // ---- parser ---------------------------------------------------------------

  datatype Parsed = Parsed(items: seq<Item>, pos: nat)

  function Skip(toks: seq<Token>, pos: nat, t: Token): (p: nat)
    requires pos <= |toks|
    ensures pos <= p <= |toks|
  {
    if pos < |toks| && toks[pos] == t then pos + 1 else pos
  }

  function Prepend(it: Item, p: Parsed): Parsed {
    Parsed([it] + p.items, p.pos)
  }

  function Parse(toks: seq<Token>, pos: nat): (p: Parsed)
    requires pos <= |toks|
    ensures pos <= p.pos <= |toks|
    ensures p.pos < |toks| ==> toks[p.pos].Close?
    decreases |toks| - pos
  {
    if pos == |toks| then Parsed([], pos)
    else
      match toks[pos]
      case Close => Parsed([], pos)
      case Directive(text) => Prepend(DirectiveLine(text), Parse(toks, pos + 1))
      case Quoted(text) => Prepend(Bare(text), Parse(toks, Skip(toks, pos + 1, Semi)))
      case Word(key) =>
        if pos + 1 < |toks| && toks[pos + 1].Open? then
          var inner := Parse(toks, pos + 2);
          var close := Skip(toks, inner.pos, Close);
          Prepend(Block(key, inner.items), Parse(toks, Skip(toks, close, Semi)))
        else if pos + 1 < |toks| && (toks[pos + 1].Word? || toks[pos + 1].Quoted?) then
          Prepend(Assign(key, toks[pos + 1].text), Parse(toks, Skip(toks, pos + 2, Semi)))
        else
          Prepend(KeyOnly(key), Parse(toks, Skip(toks, pos + 1, Semi)))
      case Open => Parse(toks, pos + 1)
      case Semi => Parse(toks, pos + 1)
  }

  method SkipTok(toks: seq<Token>, pos: nat, t: Token) returns (p: nat)
    requires pos <= |toks|
    ensures p == Skip(toks, pos, t)
  {
    p := pos;
    if p < |toks| && toks[p] == t {
      p := p + 1;
    }
  }

  /** parseAptConfItems: `pos` is the cursor the source moves through its pointer. */
  method ParseItems(toks: seq<Token>, start: nat) returns (items: seq<Item>, pos: nat)
    requires start <= |toks|
    ensures Parsed(items, pos) == Parse(toks, start)
    decreases |toks| - start
  {
    items, pos := [], start;
    ghost var whole := Parse(toks, start);
    while pos < |toks|
      invariant start <= pos <= |toks|
      invariant whole == Parsed(items + Parse(toks, pos).items, Parse(toks, pos).pos)
    {
      var here := pos;
      match toks[here] {
        case Close =>
          return;
        case Directive(text) =>
          pos := pos + 1;
          Assoc(items, [DirectiveLine(text)], Parse(toks, pos).items);
          items := items + [DirectiveLine(text)];
        case Quoted(text) =>
          pos := SkipTok(toks, pos + 1, Semi);
          Assoc(items, [Bare(text)], Parse(toks, pos).items);
          items := items + [Bare(text)];
        case Word(key) =>
          var it;
          it, pos := ParseKeyed(toks, here, key);
          Assoc(items, [it], Parse(toks, pos).items);
          items := items + [it];
        case Open =>
          pos := pos + 1;
        case Semi =>
          pos := pos + 1;
      }
    }
  }

  /** The tokWord case: a block, an assignment or a key on its own. */
  method ParseKeyed(toks: seq<Token>, here: nat, key: string) returns (it: Item, pos: nat)
    requires here < |toks| && toks[here] == Word(key)
    ensures here < pos <= |toks|
    ensures Parse(toks, here) == Prepend(it, Parse(toks, pos))
    decreases |toks| - here, 0
  {
    pos := here + 1;
    if pos < |toks| && toks[pos].Open? {
      pos := pos + 1;
      var block;
      block, pos := ParseItems(toks, pos);
      pos := SkipTok(toks, pos, Close);
      pos := SkipTok(toks, pos, Semi);
      it := Block(key, block);
    } else if pos < |toks| && (toks[pos].Word? || toks[pos].Quoted?) {
      var val := toks[pos].text;
      pos := SkipTok(toks, pos + 1, Semi);
      it := Assign(key, val);
    } else {
      pos := SkipTok(toks, pos, Semi);
      it := KeyOnly(key);
    }
  }

  // ---- printer --------------------------------------------------------------

  function Indent(depth: nat): string {
    if depth == 0 then "" else "    " + Indent(depth - 1)
  }

  function PrintItem(it: Item, depth: nat): string
    decreases it
  {
    match it
    case DirectiveLine(text) => text + "\n"
    case Bare(value) => Indent(depth) + Quote(value) + ";\n"
    case Assign(key, value) => Indent(depth) + (key + " ") + Quote(value) + ";\n"
    case Block(key, body) =>
      Indent(depth) + (key + "\n") + Indent(depth) + "{\n" + Print(body, depth + 1) + Indent(depth) + "};\n"
    case KeyOnly(key) => Indent(depth) + (key + " ") + "{};\n"
  }

  function Print(items: seq<Item>, depth: nat): string
    decreases items
  {
    if items == [] then "" else PrintItem(items[0], depth) + Print(items[1..], depth)
  }

  method Repeat(depth: nat) returns (indent: string)
    ensures indent == Indent(depth)
  {
    indent := "";
    for i := 0 to depth
      invariant indent == Indent(i)
    {
      indent := "    " + indent;
    }
  }

  /** serializeAptConfItems, returning what the builder gained. */
  method SerializeItems(items: seq<Item>, depth: nat) returns (b: string)
    ensures b == Print(items, depth)
    decreases items
  {
    b := "";
    var indent := Repeat(depth);
    for i := 0 to |items|
      invariant Print(items, depth) == b + Print(items[i..], depth)
    {
      assert items[i..][1..] == items[i + 1..];
      var text;
      match items[i] {
        case DirectiveLine(directive) =>
          text := directive + "\n";
        case Bare(value) =>
          var q := QuoteConfValue(value);
          text := indent + q + ";\n";
        case Assign(key, value) =>
          var q := QuoteConfValue(value);
          text := indent + (key + " ") + q + ";\n";
        case Block(key, body) =>
          var inner := SerializeItems(body, depth + 1);
          text := indent + (key + "\n") + indent + "{\n" + inner + indent + "};\n";
        case KeyOnly(key) =>
          text := indent + (key + " ") + "{};\n";
      }
      assert text == PrintItem(items[i], depth);
      Assoc(b, text, Print(items[i + 1..], depth));
      b := b + text;
    }
  }

  // ---- the trees the printer is asked to print ------------------------------

  /** No directive lines, and every key is a word the lexer reads as one. */
  predicate Printable(items: seq<Item>)
    decreases items
  {
    forall i :: 0 <= i < |items| ==> PrintableItem(items[i])
  }

  predicate PrintableItem(it: Item)
    decreases it
  {
    match it
    case DirectiveLine(_) => false
    case Bare(_) => true
    case Assign(key, _) => LexableWord(key)
    case Block(key, body) => LexableWord(key) && Printable(body)
    case KeyOnly(key) => LexableWord(key)
  }

  /** A key-only item is printed as an empty block, and nothing else changes. */
  function NormItem(it: Item): Item
    decreases it
  {
    match it
    case Block(key, body) => Block(key, Norm(body))
    case KeyOnly(key) => Block(key, [])
    case _ => it
  }

  function Norm(items: seq<Item>): (n: seq<Item>)
    ensures |n| == |items|
    decreases items
  {
    if items == [] then [] else [NormItem(items[0])] + Norm(items[1..])
  }

  /** The tokens a printed tree consists of. */
  function ItemTokens(it: Item): seq<Token>
    decreases it
  {
    match it
    case DirectiveLine(text) => [Directive(text)]
    case Bare(value) => [Quoted(value), Semi]
    case Assign(key, value) => [Word(key), Quoted(value), Semi]
    case Block(key, body) => [Word(key), Open] + Tokens(body) + [Close, Semi]
    case KeyOnly(key) => [Word(key), Open, Close, Semi]
  }

  function Tokens(items: seq<Item>): seq<Token>
    decreases items
  {
    if items == [] then [] else ItemTokens(items[0]) + Tokens(items[1..])
  }

  // ---- lexing what was printed ----------------------------------------------

  /** Wherever the text `x` stands, the lexer reads it as the tokens `ts`. */
  ghost predicate Lexes(x: string, ts: seq<Token>) {
    forall data: string, i: nat :: At(data, i, x) ==> Lex(data, i) == ts + Lex(data, i + |x|)
  }

  lemma {:induction false} LexesThen(x: string, ts: seq<Token>, y: string, us: seq<Token>)
    requires Lexes(x, ts) && Lexes(y, us)
    ensures Lexes(x + y, ts + us)
  {
    forall data: string, i: nat | At(data, i, x + y)
      ensures Lex(data, i) == ts + us + Lex(data, i + |x + y|)
    {
      AtSplit(data, i, x, y);
      Chain(Lex(data, i), ts, Lex(data, i + |x|), us, Lex(data, i + |x| + |y|));
    }
  }

  /** One byte that is blank or a punctuation token. */
  lemma {:induction false} LexesByte(c: char, ts: seq<Token>)
    requires IsBlank(c) || c == '{' || c == '}' || c == ';'
    requires ts == ByteTokens(c)
    ensures Lexes([c], ts)
  {
    forall data: string, i: nat | At(data, i, [c])
      ensures Lex(data, i) == ts + Lex(data, i + 1)
    {
      assert data[i + 0] == [c][0];
      assert Next(data, i) == Lexeme(ts, i + 1);
    }
  }

  lemma {:induction false} LexesQuote(v: string)
    ensures Lexes(Quote(v), [Quoted(v)])
  {
    forall data: string, i: nat | At(data, i, Quote(v))
      ensures Lex(data, i) == [Quoted(v)] + Lex(data, i + |Quote(v)|)
    {
      NextIsQuoted(data, i, v);
    }
  }

  lemma {:induction false} LexStep(data: string, i: nat, toks: seq<Token>, next: nat)
    requires i < |data| && Next(data, i) == Lexeme(toks, next)
    ensures next <= |data| && Lex(data, i) == toks + Lex(data, next)
  {
  }

  /** A word ended by a blank. */
  lemma {:induction false} LexKeyAt(data: string, i: nat, key: string)
    requires LexableWord(key) && At(data, i, key) && i + |key| < |data| && IsBlank(data[i + |key|])
    ensures Lex(data, i) == [Word(key)] + Lex(data, i + |key|)
  {
    NextIsWord(data, i, key);
    LexStep(data, i, [Word(key)], i + |key|);
  }

  lemma {:induction false} LexBlankAt(data: string, i: nat)
    requires i < |data| && IsBlank(data[i])
    ensures Lex(data, i) == Lex(data, i + 1)
  {
    LexStep(data, i, [], i + 1);
  }

  lemma {:induction false} ByteAt(data: string, i: nat, c: char)
    requires At(data, i, [c])
    ensures i < |data| && data[i] == c
  {
    assert data[i + 0] == [c][0];
  }

  lemma {:induction false} LexKeyThenBlank(data: string, i: nat, key: string, c: char, end: nat)
    requires LexableWord(key) && IsBlank(c) && end == i + |key|
    requires At(data, i, key) && At(data, end, [c])
    ensures Lex(data, i) == [Word(key)] + Lex(data, end + 1)
  {
    ByteAt(data, end, c);
    LexKeyAt(data, i, key);
    LexBlankAt(data, end);
  }

  lemma {:induction false} LexesKey(key: string, c: char)
    requires LexableWord(key) && IsBlank(c)
    ensures Lexes(key + [c], [Word(key)])
  {
    forall data: string, i: nat | At(data, i, key + [c])
      ensures Lex(data, i) == [Word(key)] + Lex(data, i + |key + [c]|)
    {
      AtSplit(data, i, key, [c]);
      LexKeyThenBlank(data, i, key, c, i + |key|);
    }
  }

  /** Byte by byte, for the fixed text between a statement's key and value. */
  function PunctuationTokens(x: string): seq<Token> {
    if x == [] then [] else ByteTokens(x[0]) + PunctuationTokens(x[1..])
  }

  function ByteTokens(c: char): seq<Token> {
    if c == '{' then [Open] else if c == '}' then [Close] else if c == ';' then [Semi] else []
  }

  lemma {:induction false} LexesPunctuation(x: string)
    requires forall c :: c in x ==> IsBlank(c) || c == '{' || c == '}' || c == ';'
    ensures Lexes(x, PunctuationTokens(x))
  {
    if x == [] {
    } else {
      LexesByte(x[0], ByteTokens(x[0]));
      LexesPunctuation(x[1..]);
      LexesThen([x[0]], ByteTokens(x[0]), x[1..], PunctuationTokens(x[1..]));
      assert [x[0]] + x[1..] == x;
    }
  }

  lemma {:induction false} LexesFixed()
    ensures Lexes(";\n", [Semi])
    ensures Lexes("{\n", [Open])
    ensures Lexes("};\n", [Close, Semi])
    ensures Lexes("{};\n", [Open, Close, Semi])
  {
    LexesPunctuation(";\n");
    LexesPunctuation("{\n");
    LexesPunctuation("};\n");
    LexesPunctuation("{};\n");
    FixedTokens();
  }

  lemma {:induction false} FixedTokens()
    ensures PunctuationTokens(";\n") == [Semi] && PunctuationTokens("{\n") == [Open]
    ensures PunctuationTokens("};\n") == [Close, Semi] && PunctuationTokens("{};\n") == [Open, Close, Semi]
  {
    assert "{};\n"[1..] == "};\n" && "};\n"[1..] == ";\n" && ";\n"[1..] == "\n" && "{\n"[1..] == "\n";
    assert PunctuationTokens("\n") == [];
  }

  lemma {:induction false} LexesIndent(depth: nat)
    ensures Lexes(Indent(depth), [])
  {
    if depth > 0 {
      LexesIndent(depth - 1);
      BlanksHaveNoTokens();
      LexesPunctuation("    ");
      LexesThen("    ", [], Indent(depth - 1), []);
    }
  }

  lemma {:induction false} BlanksHaveNoTokens()
    ensures PunctuationTokens("    ") == []
  {
    assert "    "[1..] == "   " && "   "[1..] == "  " && "  "[1..] == " " && " "[1..] == "";
  }

  lemma {:induction false} LexesStatement(depth: nat, key: string, c: char, x: string, ts: seq<Token>)
    requires LexableWord(key) && IsBlank(c) && Lexes(x, ts)
    ensures Lexes(Indent(depth) + (key + [c]) + x, [Word(key)] + ts)
  {
    LexesIndent(depth);
    LexesKey(key, c);
    LexesThen(Indent(depth), [], key + [c], [Word(key)]);
    LexesThen(Indent(depth) + (key + [c]), [Word(key)], x, ts);
  }

  lemma {:induction false} LexesBlock(depth: nat, key: string, x: string, ts: seq<Token>)
    requires LexableWord(key) && Lexes(x, ts)
    ensures Lexes(Indent(depth) + (key + "\n") + Indent(depth) + "{\n" + x + Indent(depth) + "};\n",
                  [Word(key), Open] + ts + [Close, Semi])
  {
    var ind := Indent(depth);
    LexesFixed();
    LexesIndent(depth);
    LexesStatement(depth, key, '\n', ind, []);
    var a := ind + (key + "\n") + ind;
    LexesThen(a, [Word(key)], "{\n", [Open]);
    LexesThen(a + "{\n", [Word(key)] + [Open], x, ts);
    var b := a + "{\n" + x;
    LexesThen(b, [Word(key)] + [Open] + ts, ind, []);
    LexesThen(b + ind, [Word(key)] + [Open] + ts, "};\n", [Close, Semi]);
    assert [Word(key)] + [Open] == [Word(key), Open];
  }

  lemma {:induction false} LexesItem(it: Item, depth: nat)
    requires PrintableItem(it)
    ensures Lexes(PrintItem(it, depth), ItemTokens(it))
    decreases it
  {
    LexesFixed();
    LexesIndent(depth);
    match it
    case Bare(value) =>
      LexesQuote(value);
      LexesThen(Indent(depth), [], Quote(value), [Quoted(value)]);
      LexesThen(Indent(depth) + Quote(value), [Quoted(value)], ";\n", [Semi]);
      assert [Quoted(value)] + [Semi] == [Quoted(value), Semi];
    case Assign(key, value) =>
      LexesQuote(value);
      LexesStatement(depth, key, ' ', Quote(value), [Quoted(value)]);
      LexesThen(Indent(depth) + (key + " ") + Quote(value), [Word(key)] + [Quoted(value)], ";\n", [Semi]);
      assert [Word(key)] + [Quoted(value)] + [Semi] == [Word(key), Quoted(value), Semi];
    case Block(key, body) =>
      LexesItems(body, depth + 1);
      LexesBlock(depth, key, Print(body, depth + 1), Tokens(body));
    case KeyOnly(key) =>
      LexesStatement(depth, key, ' ', "{};\n", [Open, Close, Semi]);
      assert [Word(key)] + [Open, Close, Semi] == [Word(key), Open, Close, Semi];
  }

  /** The lexer reads a printed tree, at any depth, as exactly its tokens. */
  lemma {:induction false} LexesItems(items: seq<Item>, depth: nat)
    requires Printable(items)
    ensures Lexes(Print(items, depth), Tokens(items))
    decreases items
  {
    if items == [] {
    } else {
      LexesItem(items[0], depth);
      LexesItems(items[1..], depth);
      LexesThen(PrintItem(items[0], depth), ItemTokens(items[0]), Print(items[1..], depth), Tokens(items[1..]));
    }
  }

  // ---- parsing the printed tokens -------------------------------------------

  /** Wherever the tokens `ts` stand, the parser reads them as `items` and goes on. */
  ghost predicate Parses(ts: seq<Token>, items: seq<Item>) {
    forall toks: seq<Token>, pos: nat :: At(toks, pos, ts) ==>
      Parse(toks, pos) == Parsed(items + Parse(toks, pos + |ts|).items, Parse(toks, pos + |ts|).pos)
  }

  lemma {:induction false} ParsesThen(ts: seq<Token>, items: seq<Item>, us: seq<Token>, more: seq<Item>)
    requires Parses(ts, items) && Parses(us, more)
    ensures Parses(ts + us, items + more)
  {
    forall toks: seq<Token>, pos: nat | At(toks, pos, ts + us)
      ensures Parse(toks, pos) ==
              Parsed(items + more + Parse(toks, pos + |ts + us|).items, Parse(toks, pos + |ts + us|).pos)
    {
      AtSplit(toks, pos, ts, us);
      Assoc(items, more, Parse(toks, pos + |ts| + |us|).items);
    }
  }

  lemma {:induction false} ParsesBlock(key: string, ts: seq<Token>, body: seq<Item>)
    requires Parses(ts, body)
    ensures Parses([Word(key), Open] + ts + [Close, Semi], [Block(key, body)])
  {
    var us := [Word(key), Open] + ts + [Close, Semi];
    forall toks: seq<Token>, pos: nat | At(toks, pos, us)
      ensures Parse(toks, pos) == Prepend(Block(key, body), Parse(toks, pos + |us|))
    {
      AtSplit(toks, pos, [Word(key), Open] + ts, [Close, Semi]);
      AtSplit(toks, pos, [Word(key), Open], ts);
      ParseBlockAt(key, ts, body, toks, pos);
    }
  }

  lemma {:induction false} ParseBlockAt(key: string, ts: seq<Token>, body: seq<Item>, toks: seq<Token>, pos: nat)
    requires Parses(ts, body)
    requires At(toks, pos, [Word(key), Open]) && At(toks, pos + 2, ts) && At(toks, pos + 2 + |ts|, [Close, Semi])
    ensures Parse(toks, pos) == Prepend(Block(key, body), Parse(toks, pos + 2 + |ts| + 2))
  {
    assert toks[pos + 0] == [Word(key), Open][0] && toks[pos + 1] == [Word(key), Open][1];
    var close := pos + 2 + |ts|;
    assert toks[close + 0] == [Close, Semi][0] && toks[close + 1] == [Close, Semi][1];
    assert Parse(toks, close) == Parsed([], close);
    assert Parse(toks, pos + 2) == Parsed(body + [], close);
    assert body + [] == body;
  }

  lemma {:induction false} ParsesItem(it: Item)
    requires PrintableItem(it)
    ensures Parses(ItemTokens(it), [NormItem(it)])
    decreases it
  {
    match it
    case Bare(value) =>
      forall toks: seq<Token>, pos: nat | At(toks, pos, ItemTokens(it))
        ensures Parse(toks, pos) == Prepend(it, Parse(toks, pos + 2))
      {
        assert toks[pos + 0] == ItemTokens(it)[0] && toks[pos + 1] == ItemTokens(it)[1];
      }
    case Assign(key, value) =>
      forall toks: seq<Token>, pos: nat | At(toks, pos, ItemTokens(it))
        ensures Parse(toks, pos) == Prepend(it, Parse(toks, pos + 3))
      {
        assert toks[pos + 0] == ItemTokens(it)[0] && toks[pos + 1] == ItemTokens(it)[1]
            && toks[pos + 2] == ItemTokens(it)[2];
      }
    case Block(key, body) =>
      ParsesItems(body);
      ParsesBlock(key, Tokens(body), Norm(body));
    case KeyOnly(key) =>
      forall toks: seq<Token>, pos: nat | At(toks, pos, [])
        ensures Parse(toks, pos) == Parsed([] + Parse(toks, pos + 0).items, Parse(toks, pos + 0).pos)
      {
      }
      ParsesBlock(key, [], []);
      assert [Word(key), Open] + [] + [Close, Semi] == ItemTokens(it);
  }

  lemma {:induction false} ParsesItems(items: seq<Item>)
    requires Printable(items)
    ensures Parses(Tokens(items), Norm(items))
    decreases items
  {
    if items == [] {
    } else {
      ParsesItem(items[0]);
      ParsesItems(items[1..]);
      ParsesThen(ItemTokens(items[0]), [NormItem(items[0])], Tokens(items[1..]), Norm(items[1..]));
    }
  }

  // ---- round trip -------------------------------------------------------------

  /** The tree of a whole file, as filterAptConf obtains it. */
  function ReadTree(data: string): seq<Item> {
    Parse(Lex(data, 0), 0).items
  }

  /** Printing any directive-free tree with lexable keys and reading the text back
      gives the tree again, a key-only item having become an empty block. */
  lemma {:induction false} RoundTrip(items: seq<Item>)
    requires Printable(items)
    ensures Lex(Print(items, 0), 0) == Tokens(items)
    ensures ReadTree(Print(items, 0)) == Norm(items)
  {
    var data, toks := Print(items, 0), Tokens(items);
    LexesItems(items, 0);
    assert At(data, 0, data);
    assert Lex(data, |data|) == [];
    ParsesItems(items);
    assert At(toks, 0, toks);
    assert Parse(toks, |toks|) == Parsed([], |toks|);
  }
}
