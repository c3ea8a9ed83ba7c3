/** What the apt.conf lexer reads at each kind of byte, in terms of the bytes alone
    (core/apt/aptconf.go:107-173). */
module AptConfLexCases {
  import opened Seqs
  import opened AptConfLexer
  import opened AptConfSyntax
  import opened AptConfFilter
  import opened AptConfTheorems

  // Together these say what any text lexes to: blanks and comments are nothing, a brace or a
  // semicolon is itself, a '#' line is a directive, a quoted body is the bytes its units spell,
  // and anything else is a word up to the first byte that ends one.

  predicate CommentAt(data: string, i: nat) {
    i + 1 < |data| && data[i] == '/' && data[i + 1] == '/'
  }

  predicate Delimiter(c: char) {
    c == ' ' || c == '\t' || c == '\r' || c == '\n' || c == '{' || c == '}' || c == ';' || c == '"'
  }

  /** `k` is where the line that `i` is in ends. */
  predicate EndOfLine(data: string, i: nat, k: nat) {
    && i <= k <= |data| && (k < |data| ==> data[k] == '\n')
    && forall j :: i <= j < k ==> data[j] != '\n'
  }

  lemma {:induction false} LineEndIs(data: string, i: nat, k: nat)
    requires EndOfLine(data, i, k)
    ensures LineEnd(data, i) == k
    decreases k - i
  {
    if i == k {
    } else {
      LineEndIs(data, i + 1, k);
    }
  }

  /** A comment is skipped to the end of its line, and no token comes of it. */
  lemma {:induction false} CommentIsSkipped(data: string, i: nat, k: nat)
    requires CommentAt(data, i) && EndOfLine(data, i, k)
    ensures Lex(data, i) == Lex(data, k)
  {
    LineEndIs(data, i, k);
    LexStep(data, i, [], k);
  }

  lemma {:induction false} BlankIsSkipped(data: string, i: nat)
    requires i < |data| && (data[i] == ' ' || data[i] == '\t' || data[i] == '\r' || data[i] == '\n')
    ensures Lex(data, i) == Lex(data, i + 1)
  {
    LexStep(data, i, [], i + 1);
  }

  lemma {:induction false} PunctuationIsItself(data: string, i: nat)
    requires i < |data|
    ensures data[i] == '{' ==> Lex(data, i) == [Open] + Lex(data, i + 1)
    ensures data[i] == '}' ==> Lex(data, i) == [Close] + Lex(data, i + 1)
    ensures data[i] == ';' ==> Lex(data, i) == [Semi] + Lex(data, i + 1)
  {
  }

  lemma {:induction false} TrimIs(s: string, m: nat)
    requires 0 < m <= |s| && s[m - 1] != '\r' && forall j :: m <= j < |s| ==> s[j] == '\r'
    ensures TrimRightCR(s) == s[..m]
    decreases |s|
  {
    if m == |s| {
      assert s[..m] == s;
    } else {
      TrimIs(s[..|s| - 1], m);
      assert s[..|s| - 1][..m] == s[..m];
    }
  }

  /** A '#' line is one directive, without the carriage returns at its end. */
  lemma {:induction false} HashLineIsDirective(data: string, i: nat, m: nat, k: nat)
    requires i < |data| && data[i] == '#' && EndOfLine(data, i, k)
    requires i < m <= k && data[m - 1] != '\r' && forall j :: m <= j < k ==> data[j] == '\r'
    ensures Lex(data, i) == [Directive(data[i..m])] + Lex(data, k)
  {
    LineEndIs(data, i, k);
    TrimIs(data[i..k], m - i);
    assert data[i..k][..m - i] == data[i..m];
    LexStep(data, i, [Directive(data[i..m])], k);
  }

  lemma {:induction false} WordEndIs(data: string, i: nat, k: nat)
    requires i <= k <= |data| && (k == |data| || Delimiter(data[k]) || CommentAt(data, k))
    requires forall j :: i <= j < k ==> !Delimiter(data[j]) && !CommentAt(data, j)
    ensures WordEnd(data, i) == k
    decreases k - i
  {
    if i == k {
    } else {
      WordEndIs(data, i + 1, k);
    }
  }

  /** Anything else is a word, up to the first delimiter or comment. */
  lemma {:induction false} WordIsRead(data: string, i: nat, k: nat)
    requires i < k <= |data| && (k == |data| || Delimiter(data[k]) || CommentAt(data, k))
    requires forall j :: i <= j < k ==> !Delimiter(data[j]) && !CommentAt(data, j)
    requires data[i] != '#'
    ensures Lex(data, i) == [Word(data[i..k])] + Lex(data, k)
  {
    WordEndIs(data, i, k);
    LexStep(data, i, [Word(data[i..k])], k);
  }

  // ---- quoted bodies ------------------------------------------------------------------

  /** A byte that stands for itself, or one after a backslash. */
  datatype Unit = Plain(c: char) | Escaped(c: char)

  predicate Spells(us: seq<Unit>) {
    forall u :: u in us && u.Plain? ==> u.c != '"' && u.c != '\\'
  }

  function UnitText(u: Unit): string {
    if u.Plain? then [u.c] else ['\\', u.c]
  }

  function Body(us: seq<Unit>): string {
    if us == [] then "" else UnitText(us[0]) + Body(us[1..])
  }

  function Chars(us: seq<Unit>): string {
    if us == [] then "" else [us[0].c] + Chars(us[1..])
  }

  lemma {:induction false} UnitAt(data: string, i: nat, us: seq<Unit>)
    requires us != [] && Spells(us) && At(data, i, Body(us))
    ensures i < |data| && data[i] != '"' && UnitLength(data, i) == |UnitText(us[0])|
    ensures data[i + UnitLength(data, i) - 1] == us[0].c && At(data, i + UnitLength(data, i), Body(us[1..]))
  {
    var u := UnitText(us[0]);
    AtSplit(data, i, u, Body(us[1..]));
    assert data[i] == u[0] && data[i + |u| - 1] == u[|u| - 1];
    assert us[0] in us;
  }

  /** Reading units moves past them and yields their bytes. */
  lemma {:induction false} UnitsAreRead(data: string, i: nat, us: seq<Unit>)
    requires Spells(us) && At(data, i, Body(us))
    ensures QuotedEnd(data, i) == QuotedEnd(data, i + |Body(us)|)
    ensures QuotedValue(data, i) == Chars(us) + QuotedValue(data, i + |Body(us)|)
    decreases |us|
  {
    if us == [] {
    } else {
      UnitAt(data, i, us);
      var n := i + UnitLength(data, i);
      UnitsAreRead(data, n, us[1..]);
      Assoc([us[0].c], Chars(us[1..]), QuotedValue(data, i + |Body(us)|));
    }
  }

  /** A quoted body is the bytes of its units: after a backslash any byte is itself.  It ends
      at the first quote that is not after one, or at the end of the text. */
  lemma {:induction false} QuotedIsRead(data: string, i: nat, us: seq<Unit>, k: nat)
    requires i < |data| && data[i] == '"' && Spells(us) && At(data, i + 1, Body(us)) && k == i + 1 + |Body(us)|
    requires k == |data| || data[k] == '"'
    ensures Lex(data, i) == [Quoted(Chars(us))] + if k == |data| then [] else Lex(data, k + 1)
  {
    UnitsAreRead(data, i + 1, us);
    assert Chars(us) + [] == Chars(us);
    LexStep(data, i, [Quoted(Chars(us))], if k == |data| then k else k + 1);
  }

  /** A backslash that is the last byte of the text is itself. */
  lemma {:induction false} LastBackslashIsRead(data: string, i: nat, us: seq<Unit>, k: nat)
    requires i < |data| && data[i] == '"' && Spells(us) && At(data, i + 1, Body(us)) && k == i + 1 + |Body(us)|
    requires k == |data| - 1 && data[k] == '\\'
    ensures Lex(data, i) == [Quoted(Chars(us) + "\\")]
  {
    UnitsAreRead(data, i + 1, us);
    assert QuotedValue(data, k) == "\\" && QuotedEnd(data, k) == |data|;
    LexStep(data, i, [Quoted(Chars(us) + "\\")], |data|);
  }

  // ---- text that comes after other text ------------------------------------------------

  lemma {:induction false} LineEndShift(pre: string, rest: string, j: nat)
    requires j <= |rest|
    ensures LineEnd(pre + rest, |pre| + j) == |pre| + LineEnd(rest, j)
    decreases |rest| - j
  {
    if j < |rest| && rest[j] != '\n' {
      LineEndShift(pre, rest, j + 1);
    }
  }

  lemma {:induction false} WordEndShift(pre: string, rest: string, j: nat)
    requires j <= |rest|
    ensures WordEnd(pre + rest, |pre| + j) == |pre| + WordEnd(rest, j)
    decreases |rest| - j
  {
    var data := pre + rest;
    assert StartsComment(data, |pre| + j) == StartsComment(rest, j);
    if j < |rest| && !EndsWord(rest[j]) && !StartsComment(rest, j) {
      WordEndShift(pre, rest, j + 1);
    }
  }

  lemma {:induction false} QuotedShift(pre: string, rest: string, j: nat)
    requires j <= |rest|
    ensures QuotedEnd(pre + rest, |pre| + j) == |pre| + QuotedEnd(rest, j)
    ensures QuotedValue(pre + rest, |pre| + j) == QuotedValue(rest, j)
    decreases |rest| - j
  {
    if j < |rest| && rest[j] != '"' {
      assert UnitLength(pre + rest, |pre| + j) == UnitLength(rest, j);
      QuotedShift(pre, rest, j + UnitLength(rest, j));
    }
  }

  lemma {:induction false} SliceShift(pre: string, rest: string, j: nat, k: nat)
    requires j <= k <= |rest|
    ensures (pre + rest)[|pre| + j..|pre| + k] == rest[j..k]
  {
  }

  lemma {:induction false} NextShift(pre: string, rest: string, j: nat)
    requires j < |rest|
    ensures Next(pre + rest, |pre| + j) == Lexeme(Next(rest, j).toks, |pre| + Next(rest, j).next)
  {
    assert (pre + rest)[|pre| + j] == rest[j];
    assert StartsComment(pre + rest, |pre| + j) == StartsComment(rest, j);
    if rest[j] == '"' {
      QuotedShift(pre, rest, j + 1);
    } else if rest[j] == '#' || StartsComment(rest, j) {
      LineEndShift(pre, rest, j);
      SliceShift(pre, rest, j, LineEnd(rest, j));
    } else {
      WordEndShift(pre, rest, j);
      SliceShift(pre, rest, j, WordEnd(rest, j));
    }
  }

  lemma {:induction false} LexShiftStep(pre: string, rest: string, j: nat, data: string, n: Lexeme)
    requires data == pre + rest && j < |rest| && n == Next(rest, j)
    requires Lex(data, |pre| + n.next) == Lex(rest, n.next)
    ensures Lex(data, |pre| + j) == Lex(rest, j)
  {
    NextShift(pre, rest, j);
    LexStep(data, |pre| + j, n.toks, |pre| + n.next);
    LexStep(rest, j, n.toks, n.next);
  }

  /** What comes before the cursor does not matter. */
  lemma {:induction false} LexShift(pre: string, rest: string, j: nat, data: string)
    requires data == pre + rest && j <= |rest|
    ensures Lex(data, |pre| + j) == Lex(rest, j)
    decreases |rest| - j
  {
    if j == |rest| {
    } else {
      var n := Next(rest, j);
      LexShift(pre, rest, n.next, data);
      LexShiftStep(pre, rest, j, data, n);
    }
  }

  /** The whole pipeline: a comment line changes neither what is carried nor what is reported. */
  lemma {:induction false} CommentLineIsNothing(r: Rules, file: string, c: string, rest: string)
    requires '\n' !in c
    ensures FilterText(r, file, "//" + c + "\n" + rest) == FilterText(r, file, rest)
  {
    var line := "//" + c;
    var data := line + "\n" + rest;
    assert forall j :: 0 <= j < |line| ==> data[j] == line[j];
    assert data[|line|] == '\n';
    CommentIsSkipped(data, 0, |line|);
    BlankIsSkipped(data, |line|);
    LexShift(line + "\n", rest, 0, data);
  }

  /** Nor does an empty line. */
  lemma {:induction false} BlankLineIsNothing(r: Rules, file: string, rest: string)
    ensures FilterText(r, file, "\n" + rest) == FilterText(r, file, rest)
  {
    var data := "\n" + rest;
    assert data[0] == '\n';
    BlankIsSkipped(data, 0);
    LexShift("\n", rest, 0, data);
  }
}
