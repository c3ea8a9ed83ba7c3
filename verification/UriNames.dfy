/** What a trusted URI's prefix covers, and what each byte becomes (core/apt/sources.go:378-469). */
module UriNames {
  import opened Seqs
  import opened UriMangle

  // ---- which names a source covers ----

  /** `w` goes on where `s` ends, and `s` ends a path component of `w`. */
  predicate GoesOnAtSlash(s: string, w: string) {
    s <= w && ((s != "" && s[|s| - 1] == '/') || (|s| < |w| && w[|s|] == '/'))
  }

  lemma {:induction false} SlashGoesOn(s: string, w: string)
    requires s == "" || s[|s| - 1] != '/'
    ensures s + "/" <= w <==> GoesOnAtSlash(s, w)
  {
    if s + "/" <= w {
      assert w[|s|] == (s + "/")[|s|];
    }
  }

  /** A URI that strips to `s` and ends as `s` does covers what goes on from `s` at a slash. */
  lemma {:induction false} CoversAs(uri: string, s: string, w: string)
    requires Strip(uri) == s && uri != ""
    requires uri[|uri| - 1] == '/' <==> s != "" && s[|s| - 1] == '/'
    ensures Covers(uri, w) <==> GoesOnAtSlash(s, w)
  {
    if uri[|uri| - 1] != '/' {
      StripOfSlashed(uri);
      SlashGoesOn(s, w);
    }
  }

  /** Which stripped URIs a source covers: those that go on from its host and path at a slash.
      A URI with neither user information, host nor path covers none. */
  lemma {:induction false} CoversExactly(scheme: string, user: string, host: string, path: string, w: string)
    requires ':' !in scheme && '/' !in user && '/' !in host && '@' !in host && (path == "" || path[0] == '/')
    ensures Covers(scheme + "://" + (user + "@" + host + path), w) <==> GoesOnAtSlash(host + path, w)
    ensures Covers(scheme + "://" + (host + path), w) <==> host + path != "" && GoesOnAtSlash(host + path, w)
  {
    StripLeavesHostAndPath(scheme, user, host, path);
    var with, without := scheme + "://" + (user + "@" + host + path), scheme + "://" + (host + path);
    var s := host + path;
    if s == "" {
      assert user + "@" + host + path == user + "@";
      assert with[|with| - 1] == '@';
      assert without[|without| - 1] == '/';
    } else {
      assert with[|with| - 1] == s[|s| - 1] && without[|without| - 1] == s[|s| - 1];
      CoversAs(without, s, w);
    }
    CoversAs(with, s, w);
  }

  // ---- what a byte becomes ----

  const ESCAPED := "\\|{}[]<>\"^~_=!@#$%&*"
  const HEX := "0123456789abcdef"

  /** A byte that stays as it is. */
  predicate Plain(c: char) {
    0x20 < c as int < 0x7f && c != '/' && c !in ESCAPED
  }

  lemma {:induction false} EscapedIsUnsafe(c: char)
    ensures c in ESCAPED <==> IsUnsafe(c)
  {
    var s := ESCAPED;
    assert |s| == 20;
    assert s[0] == '\\' && s[1] == '|' && s[2] == '{' && s[3] == '}' && s[4] == '[' && s[5] == ']' && s[6] == '<';
    assert s[7] == '>' && s[8] == '"' && s[9] == '^' && s[10] == '~' && s[11] == '_' && s[12] == '=' && s[13] == '!';
    assert s[14] == '@' && s[15] == '#' && s[16] == '$' && s[17] == '%' && s[18] == '&' && s[19] == '*';
  }

  lemma {:induction false} HexDigitIs(n: nat)
    requires n < 16
    ensures HexDigit(n) == HEX[n]
  {
    var s := HEX;
    assert s[0] == '0' && s[1] == '1' && s[2] == '2' && s[3] == '3' && s[4] == '4' && s[5] == '5' && s[6] == '6';
    assert s[7] == '7' && s[8] == '8' && s[9] == '9' && s[10] == 'a' && s[11] == 'b' && s[12] == 'c' && s[13] == 'd';
    assert s[14] == 'e' && s[15] == 'f';
  }

  lemma {:induction false} PercentIs(c: char)
    requires c as int < 256
    ensures Percent(c) == ['%', HEX[c as int / 16], HEX[c as int % 16]]
  {
    HexDigitIs(c as int / 16);
    HexDigitIs(c as int % 16);
  }

  lemma {:induction false} CodeIs(c: char)
    requires c as int < 256
    ensures c == '/' ==> Code(c) == "_"
    ensures Plain(c) ==> Code(c) == [c]
    ensures c != '/' && !Plain(c) ==> Code(c) == ['%', HEX[c as int / 16], HEX[c as int % 16]]
  {
    EscapedIsUnsafe(c);
    PercentIs(c);
  }

  lemma {:induction false} EncodeOne(c: char)
    ensures Encode([c]) == Code(c)
  {
    assert [c][1..] == "" && Encode("") == "";
  }

  /** A name is the names of its bytes in order. */
  lemma {:induction false} EncodeAround(before: string, c: char, after: string)
    ensures Encode(before + [c] + after) == Encode(before) + Code(c) + Encode(after)
  {
    EncodeConcat(before + [c], after);
    EncodeConcat(before, [c]);
    EncodeOne(c);
  }

  /** Every byte of a name by itself: a slash becomes an underscore, a plain byte stays, any other
      becomes a percent sign and its two hexadecimal digits. */
  lemma {:induction false} ByteBecomes(before: string, c: char, after: string, code: string)
    requires c as int < 256
    requires c == '/' ==> code == "_"
    requires Plain(c) ==> code == [c]
    requires c != '/' && !Plain(c) ==> code == ['%', HEX[c as int / 16], HEX[c as int % 16]]
    ensures Encode(before + [c] + after) == Encode(before) + code + Encode(after)
  {
    CodeIs(c);
    EncodeAround(before, c, after);
  }
}
