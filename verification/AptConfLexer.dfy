/** The apt.conf lexer (core/apt/aptconf.go:86-173).

    A Go byte is modelled by the `char` with the same code, so a byte string is a
    `string`; every statement below holds for all strings.  `Lex(data, i)` is what
    the lexer makes of `data` from byte `i` on, and `Tokenize` is the program's
    loop, proved to compute it. */
module AptConfLexer {
  import opened Seqs

  datatype Token =
    | Word(text: string)
    | Quoted(text: string)
    | Open
    | Close
    | Semi
    | Directive(text: string)

  predicate IsBlank(c: char) {
    c == ' ' || c == '\t' || c == '\r' || c == '\n'
  }

  /** The bytes that end a bare word wherever they occur. */
  predicate EndsWord(c: char) {
    IsBlank(c) || c == '{' || c == '}' || c == ';' || c == '"'
  }

  predicate StartsComment(data: string, i: nat) {
    i + 1 < |data| && data[i] == '/' && data[i + 1] == '/'
  }

  /** Index of the newline that ends the line at `i`, or the end of the text. */
  function LineEnd(data: string, i: nat): (j: nat)
    requires i <= |data|
    ensures i <= j <= |data|
    decreases |data| - i
  {
    if i == |data| || data[i] == '\n' then i else LineEnd(data, i + 1)
  }

  /** Index just past the bare word at `i`; `i` itself when there is none. */
  function WordEnd(data: string, i: nat): (j: nat)
    requires i <= |data|
    ensures i <= j <= |data|
    decreases |data| - i
  {
    if i == |data| || EndsWord(data[i]) || StartsComment(data, i) then i else WordEnd(data, i + 1)
  }

  /** The bytes that spell the next byte of a quoted value: two for an escape. */
  function UnitLength(data: string, i: nat): (k: nat)
    requires i < |data|
    ensures 1 <= k <= 2 && i + k <= |data|
  {
    if data[i] == '\\' && i + 1 < |data| then 2 else 1
  }

  /** Index of the quote that closes the quoted body at `i`, or the end of the text. */
  function QuotedEnd(data: string, i: nat): (j: nat)
    requires i <= |data|
    ensures i <= j <= |data|
    decreases |data| - i
  {
    if i == |data| || data[i] == '"' then i else QuotedEnd(data, i + UnitLength(data, i))
  }

  /** The value spelled by the quoted body at `i`. */
  function QuotedValue(data: string, i: nat): string
    requires i <= |data|
    decreases |data| - i
  {
    if i == |data| || data[i] == '"' then []
    else [data[i + UnitLength(data, i) - 1]] + QuotedValue(data, i + UnitLength(data, i))
  }

  function TrimRightCR(s: string): (t: string)
    ensures t <= s
    ensures t == [] || t[|t| - 1] != '\r'
  {
    if s != [] && s[|s| - 1] == '\r' then TrimRightCR(s[..|s| - 1]) else s
  }

  /** What one turn of the lexer's loop yields: at most one token, and the index
      of the first byte it leaves unread. */
  datatype Lexeme = Lexeme(toks: seq<Token>, next: nat)

  function Next(data: string, i: nat): (n: Lexeme)
    requires i < |data|
    ensures i < n.next <= |data|
  {
    var c := data[i];
    if IsBlank(c) then Lexeme([], i + 1)
    else if StartsComment(data, i) then Lexeme([], LineEnd(data, i))
    else if c == '{' then Lexeme([Open], i + 1)
    else if c == '}' then Lexeme([Close], i + 1)
    else if c == ';' then Lexeme([Semi], i + 1)
    else if c == '"' then
      var j := QuotedEnd(data, i + 1);
      Lexeme([Quoted(QuotedValue(data, i + 1))], if j < |data| then j + 1 else j)
    else if c == '#' then Lexeme([Directive(TrimRightCR(data[i..LineEnd(data, i)]))], LineEnd(data, i))
    else Lexeme([Word(data[i..WordEnd(data, i)])], WordEnd(data, i))
  }

  function Lex(data: string, i: nat): seq<Token>
    requires i <= |data|
    decreases |data| - i
  {
    if i == |data| then [] else Next(data, i).toks + Lex(data, Next(data, i).next)
  }

  // ---- the program's loops ------------------------------------------------

  method ScanLine(data: string, i: nat) returns (j: nat)
    requires i <= |data|
    ensures j == LineEnd(data, i)
  {
    j := i;
    while j < |data| && data[j] != '\n'
      invariant i <= j <= |data|
      invariant LineEnd(data, i) == LineEnd(data, j)
    {
      j := j + 1;
    }
  }

  method ScanWord(data: string, i: nat) returns (j: nat)
    requires i <= |data|
    ensures j == WordEnd(data, i)
  {
    j := i;
    while j < |data|
      invariant i <= j <= |data|
      invariant WordEnd(data, i) == WordEnd(data, j)
    {
      var ch := data[j];
      if ch == ' ' || ch == '\t' || ch == '\r' || ch == '\n' || ch == '{' || ch == '}' || ch == ';' || ch == '"' {
        break;
      }
      if ch == '/' && j + 1 < |data| && data[j + 1] == '/' {
        break;
      }
      j := j + 1;
    }
  }

  method ScanQuoted(data: string, i: nat) returns (text: string, j: nat)
    requires i <= |data|
    ensures text == QuotedValue(data, i)
    ensures j == QuotedEnd(data, i)
  {
    j := i;
    text := "";
    while j < |data| && data[j] != '"'
      invariant i <= j <= |data|
      invariant QuotedValue(data, i) == text + QuotedValue(data, j)
      invariant QuotedEnd(data, i) == QuotedEnd(data, j)
    {
      if data[j] == '\\' && j + 1 < |data| {
        text := text + [data[j + 1]];
        j := j + 2;
        continue;
      }
      text := text + [data[j]];
      j := j + 1;
    }
  }

  /** One turn of the loop: the token at byte `i`, if any, and where the next turn starts. */
  method TokenAt(data: string, i: nat) returns (toks: seq<Token>, j: nat)
    requires i < |data|
    ensures Lexeme(toks, j) == Next(data, i)
  {
    toks := [];
    var c := data[i];
    if c == ' ' || c == '\t' || c == '\r' || c == '\n' {
      j := i + 1;
    } else if c == '/' && i + 1 < |data| && data[i + 1] == '/' {
      j := ScanLine(data, i);
    } else if c == '{' {
      toks, j := [Open], i + 1;
    } else if c == '}' {
      toks, j := [Close], i + 1;
    } else if c == ';' {
      toks, j := [Semi], i + 1;
    } else if c == '"' {
      var text;
      text, j := ScanQuoted(data, i + 1);
      toks := [Quoted(text)];
      if j < |data| {
        j := j + 1; // past the quote that ends it
      }
    } else if c == '#' {
      j := ScanLine(data, i);
      toks := [Directive(TrimRightCR(data[i..j]))];
    } else {
      // The word is never empty here: the source's guard against j == i is dead code.
      j := ScanWord(data, i);
      toks := [Word(data[i..j])];
    }
  }

  /** tokenizeAptConf. */
  method Tokenize(data: string) returns (toks: seq<Token>)
    ensures toks == Lex(data, 0)
  {
    toks := [];
    var i, n := 0, |data|;
    while i < n
      invariant 0 <= i <= n
      invariant Lex(data, 0) == toks + Lex(data, i)
    {
      var more, j := TokenAt(data, i);
      Assoc(toks, more, Lex(data, j));
      toks, i := toks + more, j;
    }
  }

  // ---- what the lexer yields ----------------------------------------------

  /** A word the lexer can produce, and reads back as one word before any delimiter. */
  predicate LexableWord(w: string) {
    w != [] && w[0] != '#' && WordEnd(w, 0) == |w|
  }

  /** Every word token carries a lexable word, and no directive token is empty. */
  predicate WellLexed(toks: seq<Token>) {
    forall t :: t in toks ==> (t.Word? ==> LexableWord(t.text)) && (t.Directive? ==> t.text != [])
  }

  lemma {:induction false} WordEndOfSlice(data: string, i: nat, k: nat)
    requires i <= |data| && i <= k <= WordEnd(data, i) && WordEnd(data, i) == WordEnd(data, k)
    ensures WordEnd(data[i..WordEnd(data, i)], k - i) == WordEnd(data, i) - i
    decreases |data| - k
  {
    if k < WordEnd(data, i) {
      WordEndOfSlice(data, i, k + 1);
    }
  }

  lemma {:induction false} HashSurvivesTrim(s: string)
    requires s != [] && s[0] == '#'
    ensures TrimRightCR(s) != []
  {
    if s[|s| - 1] == '\r' {
      HashSurvivesTrim(s[..|s| - 1]);
    }
  }

  lemma {:induction false} LexedWordsAreLexable(data: string, i: nat)
    requires i <= |data|
    ensures WellLexed(Lex(data, i))
    decreases |data| - i
  {
    if i == |data| {
    } else {
      LexedWordsAreLexable(data, Next(data, i).next);
      if data[i] == '#' {
        HashSurvivesTrim(data[i..LineEnd(data, i)]);
      } else {
        WordEndOfSlice(data, i, i);
      }
    }
  }

  // ---- reading back what the printer writes -------------------------------

  lemma {:induction false} WordEndAt(data: string, i: nat, w: string, k: nat)
    requires At(data, i, w) && k <= |w| && WordEnd(w, k) == |w|
    requires i + |w| < |data| && EndsWord(data[i + |w|])
    ensures WordEnd(data, i + k) == i + |w|
    decreases |w| - k
  {
    if k == |w| {
    } else {
      assert data[i + k] == w[k];
      assert k + 1 < |w| ==> data[i + k + 1] == w[k + 1];
      WordEndAt(data, i, w, k + 1);
    }
  }

  /** A lexable word followed by a delimiter is read back as exactly that word. */
  lemma {:induction false} NextIsWord(data: string, i: nat, w: string)
    requires LexableWord(w) && At(data, i, w)
    requires i + |w| < |data| && EndsWord(data[i + |w|])
    ensures Next(data, i) == Lexeme([Word(w)], i + |w|)
  {
    assert data[i] == w[0];
    assert |w| > 1 ==> data[i + 1] == w[1];
    WordEndAt(data, i, w, 0);
    assert data[i..i + |w|] == w;
  }

  /** quoteConfValue's escaping of one value, without the enclosing quotes. */
  function Escape(v: string): string {
    if v == [] then [] else EscapedByte(v[0]) + Escape(v[1..])
  }

  function EscapedByte(c: char): string {
    if c == '"' || c == '\\' then ['\\', c] else [c]
  }

  function Quote(v: string): string {
    ['"'] + Escape(v) + ['"']
  }

  method QuoteConfValue(v: string) returns (out: string)
    ensures out == Quote(v)
  {
    var b := ['"'];
    for i := 0 to |v|
      invariant ['"'] + Escape(v) == b + Escape(v[i..])
    {
      assert v[i..][1..] == v[i + 1..];
      var c := v[i];
      if c == '"' || c == '\\' {
        b := b + ['\\'];
      }
      b := b + [c];
    }
    out := b + ['"'];
  }

  /** Unescaping undoes escaping for every value, whatever bytes it holds. */
  lemma {:induction false} QuotedAt(data: string, i: nat, v: string)
    requires At(data, i, Escape(v))
    requires i + |Escape(v)| < |data| && data[i + |Escape(v)|] == '"'
    ensures QuotedValue(data, i) == v
    ensures QuotedEnd(data, i) == i + |Escape(v)|
    decreases |v|
  {
    if v == [] {
    } else {
      var unit := EscapedByte(v[0]);
      AtSplit(data, i, unit, Escape(v[1..]));
      assert data[i] == unit[0] && data[i + |unit| - 1] == unit[|unit| - 1];
      QuotedAt(data, i + |unit|, v[1..]);
      assert [v[0]] + v[1..] == v;
    }
  }

  lemma {:induction false} NextIsQuoted(data: string, i: nat, v: string)
    requires At(data, i, Quote(v))
    ensures Next(data, i) == Lexeme([Quoted(v)], i + |Quote(v)|)
  {
    AtSplit(data, i, ['"'] + Escape(v), ['"']);
    AtSplit(data, i, ['"'], Escape(v));
    assert data[i] == ['"'][0] && data[i + 1 + |Escape(v)|] == ['"'][0];
    QuotedAt(data, i + 1, v);
  }
}
