/** Matching fetched index files to trusted sources by apt's mangled names
    (core/apt/sources.go:359-469). */
module UriMangle {
  import opened Seqs
  import opened Sorting

  /** Every character is a byte. */
  predicate IsBytes(s: string) {
    forall i :: 0 <= i < |s| ==> s[i] as int < 256
  }

  // ---- what is mangled ------------------------------------------------------------

  predicate SchemeAt(s: string, i: nat) {
    i + 2 < |s| && s[i] == ':' && s[i + 1] == '/' && s[i + 2] == '/'
  }

  /** Index of the first "://" at or after `i`, or |s|. */
  function FindScheme(s: string, i: nat): (k: nat)
    requires i <= |s|
    ensures i <= k <= |s| && (k < |s| ==> SchemeAt(s, k))
    decreases |s| - i
  {
    if i == |s| || SchemeAt(s, i) then i else FindScheme(s, i + 1)
  }

  function AfterScheme(uri: string): string {
    var k := FindScheme(uri, 0);
    if k < |uri| then uri[k + 3..] else uri
  }

  /** Index of the first '/' at or after `i`, or |s|. */
  function FindSlash(s: string, i: nat): (k: nat)
    requires i <= |s|
    ensures i <= k <= |s| && (k < |s| ==> s[k] == '/')
    decreases |s| - i
  {
    if i == |s| || s[i] == '/' then i else FindSlash(s, i + 1)
  }

  /** One more than the index of the last '@' before `n`, or 0. */
  function AfterLastAt(s: string, n: nat): (k: nat)
    requires n <= |s|
    ensures k <= n
  {
    if n == 0 || s[n - 1] == '@' then n else AfterLastAt(s, n - 1)
  }

  /** The URI without its scheme and without userinfo in its authority. */
  function Strip(uri: string): string {
    var rest := AfterScheme(uri);
    rest[AfterLastAt(rest, FindSlash(rest, 0))..]
  }

  lemma {:induction false} SchemeEnds(scheme: string, rest: string, uri: string, i: nat)
    requires uri == scheme + "://" + rest && ':' !in scheme && i <= |scheme|
    ensures FindScheme(uri, i) == |scheme|
    decreases |scheme| - i
  {
    if i == |scheme| {
      assert uri[i] == ':' && uri[i + 1] == '/' && uri[i + 2] == '/';
    } else {
      assert uri[i] == scheme[i];
      SchemeEnds(scheme, rest, uri, i + 1);
    }
  }

  lemma {:induction false} SlashStarts(authority: string, path: string, s: string, i: nat)
    requires s == authority + path && '/' !in authority && (path == "" || path[0] == '/') && i <= |authority|
    ensures FindSlash(s, i) == |authority|
    decreases |authority| - i
  {
    if i == |authority| {
    } else {
      assert s[i] == authority[i];
      SlashStarts(authority, path, s, i + 1);
    }
  }

  lemma {:induction false} AtEnds(before: string, host: string, s: string, n: nat)
    requires '@' !in host && |before| <= n <= |before| + |host| <= |s| && s[..|before| + |host|] == before + host
    requires before == "" || before[|before| - 1] == '@'
    ensures AfterLastAt(s, n) == |before|
    decreases n
  {
    assert forall k :: 0 <= k < |before| ==> s[k] == (before + host)[k] == before[k];
    if n == |before| {
    } else {
      assert s[n - 1] == (before + host)[n - 1] == host[n - 1 - |before|];
      AtEnds(before, host, s, n - 1);
    }
  }

  lemma {:induction false} AuthorityStrips(user: string, host: string, path: string, rest: string)
    requires user == "" || user[|user| - 1] == '@'
    requires rest == user + host + path && '/' !in user + host && '@' !in host && (path == "" || path[0] == '/')
    ensures rest[AfterLastAt(rest, FindSlash(rest, 0))..] == host + path
  {
    SlashStarts(user + host, path, rest, 0);
    AtEnds(user, host, rest, |user| + |host|);
  }

  lemma {:induction false} SchemeStrips(scheme: string, rest: string, uri: string)
    requires uri == scheme + "://" + rest && ':' !in scheme
    ensures AfterScheme(uri) == rest
  {
    SchemeEnds(scheme, rest, uri, 0);
    assert uri[|scheme| + 3..] == rest;
  }

  /** What stripping leaves: host and path, with a scheme and with or without userinfo, which
      may itself hold colons and at signs. */
  lemma {:induction false} StripLeavesHostAndPath(scheme: string, user: string, host: string, path: string)
    requires ':' !in scheme && '/' !in user && '/' !in host && '@' !in host && (path == "" || path[0] == '/')
    ensures Strip(scheme + "://" + (user + "@" + host + path)) == host + path
    ensures Strip(scheme + "://" + (host + path)) == host + path
  {
    var with := user + "@" + host + path;
    SchemeStrips(scheme, with, scheme + "://" + with);
    AuthorityStrips(user + "@", host, path, with);
    SchemeStrips(scheme, host + path, scheme + "://" + (host + path));
    assert "" + host + path == host + path && "" + host == host;
    AuthorityStrips("", host, path, host + path);
  }

  // ---- how it is mangled ------------------------------------------------------------

  /** The punctuation apt escapes besides control, blank and non-ASCII bytes. */
  predicate IsUnsafe(c: char) {
    || c == '\\' || c == '|' || c == '{' || c == '}' || c == '[' || c == ']' || c == '<' || c == '>'
    || c == '"' || c == '^' || c == '~' || c == '_' || c == '=' || c == '!' || c == '@' || c == '#'
    || c == '$' || c == '%' || c == '&' || c == '*'
  }

  function HexDigit(n: nat): char
    requires n < 16
  {
    if n < 10 then ('0' as int + n) as char else ('a' as int + n - 10) as char
  }

  /** "%%%02x" of one byte. */
  function Percent(c: char): string {
    ['%', HexDigit(c as int / 16 % 16), HexDigit(c as int % 16)]
  }

  /** The bytes one byte of the URI becomes. */
  function Code(c: char): (code: string)
    ensures 1 <= |code|
  {
    if c == '/' then "_"
    else if c as int <= 0x20 || c as int >= 0x7f || IsUnsafe(c) then Percent(c)
    else [c]
  }

  function Encode(s: string): string {
    if s == "" then "" else Code(s[0]) + Encode(s[1..])
  }

  lemma {:induction false} StripIsBytes(uri: string)
    requires IsBytes(uri)
    ensures IsBytes(Strip(uri))
  {
  }

  /** aptURItoFileName. */
  function Mangle(uri: string): string {
    Encode(Strip(uri))
  }

  method AptURIToFileName(uri: string) returns (name: string)
    ensures name == Mangle(uri)
  {
    var rest := Strip(uri);
    ghost var whole := Encode(rest);
    name := "";
    for i := 0 to |rest|
      invariant whole == name + Encode(rest[i..])
    {
      EncodeFrom(rest, i, name);
      var c := rest[i];
      if c == '/' {
        name := name + "_";
      } else if c as int <= 0x20 || c as int >= 0x7f || IsUnsafe(c) {
        name := name + Percent(c);
      } else {
        name := name + [c];
      }
    }
  }

  lemma {:induction false} EncodeFrom(s: string, i: nat, name: string)
    requires i < |s|
    ensures name + Encode(s[i..]) == name + Code(s[i]) + Encode(s[i + 1..])
  {
    assert s[i..][1..] == s[i + 1..];
    Assoc(name, Code(s[i]), Encode(s[i + 1..]));
  }

  // ---- the code can be read back -------------------------------------------------------

  function HexValue(c: char): int {
    if '0' <= c <= '9' then c as int - '0' as int
    else if 'a' <= c <= 'f' then c as int - 'a' as int + 10
    else 0
  }

  lemma {:induction false} HexValueOfDigit(n: nat)
    requires n < 16
    ensures HexValue(HexDigit(n)) == n
  {
  }

  /** The byte whose code starts at `i`, and how long that code is. */
  function CodeLength(s: string, i: nat): (n: nat)
    requires i < |s|
    ensures 1 <= n && i + n <= |s|
  {
    if s[i] == '%' && i + 2 < |s| then 3 else 1
  }

  function DecodedByte(s: string, i: nat): char
    requires i < |s|
  {
    if s[i] == '_' then '/'
    else if CodeLength(s, i) == 3 then
      var v := HexValue(s[i + 1]) * 16 + HexValue(s[i + 2]);
      if 0 <= v < 256 then v as char else s[i]
    else s[i]
  }

  function Decode(s: string, i: nat): string
    requires i <= |s|
    decreases |s| - i
  {
    if i == |s| then "" else [DecodedByte(s, i)] + Decode(s, i + CodeLength(s, i))
  }

  lemma {:induction false} HexOfByte(c: char)
    requires c as int < 256
    ensures HexValue(Percent(c)[1]) * 16 + HexValue(Percent(c)[2]) == c as int
  {
    HexValueOfDigit(c as int / 16 % 16);
    HexValueOfDigit(c as int % 16);
  }

  lemma {:induction false} DecodeByte(data: string, i: nat, c: char)
    requires c as int < 256 && At(data, i, Code(c))
    ensures DecodedByte(data, i) == c && CodeLength(data, i) == |Code(c)|
  {
    assert data[i + 0] == Code(c)[0];
    if Code(c) == Percent(c) && |Code(c)| == 3 {
      HexOfByte(c);
      assert data[i + 1] == Code(c)[1] && data[i + 2] == Code(c)[2];
    } else {
      }
  }

  lemma {:induction false} DecodeStep(data: string, i: nat, c: char)
    requires c as int < 256 && At(data, i, Code(c))
    ensures Decode(data, i) == [c] + Decode(data, i + |Code(c)|)
  {
    DecodeByte(data, i, c);
  }

  lemma {:induction false} DecodeAt(data: string, i: nat, s: string)
    requires IsBytes(s) && At(data, i, Encode(s)) && i + |Encode(s)| == |data|
    ensures Decode(data, i) == s
    decreases |s|
  {
    if s == "" {
    } else {
      var code, rest := Code(s[0]), Encode(s[1..]);
      AtSplit(data, i, code, rest);
      DecodeStep(data, i, s[0]);
      DecodeAt(data, i + |code|, s[1..]);
      assert s == [s[0]] + s[1..];
    }
  }

  /** Every mangled name can be decoded, so mangling loses nothing but scheme and userinfo. */
  lemma {:induction false} DecodeOfEncode(s: string)
    requires IsBytes(s)
    ensures Decode(Encode(s), 0) == s
  {
    DecodeAt(Encode(s), 0, s);
  }

  // ---- prefixes ----------------------------------------------------------------------------

  lemma {:induction false} CodesDecide(c: char, d: char, x: string, y: string)
    requires c as int < 256 && d as int < 256
    requires Code(c) + x <= Code(d) + y
    ensures c == d && x <= y
  {
    var s, t := Code(c) + x, Code(d) + y;
    assert s[0] == t[0];
    DecodeByte(s, 0, c);
    DecodeByte(t, 0, d);
    assert |Code(c)| == |Code(d)|;
    assert DecodedByte(s, 0) == DecodedByte(t, 0) by {
      assert |Code(c)| == 3 ==> s[1] == t[1] && s[2] == t[2];
    }
    assert s[|Code(c)|..] == x && t[|Code(d)|..] == y;
  }

  lemma {:induction false} EncodeConcat(a: string, b: string)
    ensures Encode(a + b) == Encode(a) + Encode(b)
  {
    if a == "" {
      assert a + b == b;
    } else {
      EncodeConcat(a[1..], b);
      assert (a + b)[1..] == a[1..] + b;
      Assoc(Code(a[0]), Encode(a[1..]), Encode(b));
    }
  }

  /** The code is prefix-free: one encoded string is a prefix of another exactly when the
      plain strings are. */
  lemma {:induction false} EncodePrefix(a: string, b: string)
    requires IsBytes(a) && IsBytes(b)
    ensures Encode(a) <= Encode(b) <==> a <= b
  {
    if a <= b {
      assert b == a + b[|a|..];
      EncodeConcat(a, b[|a|..]);
    } else {
      EncodePrefixOnly(a, b);
    }
  }

  lemma {:induction false} EncodePrefixOnly(a: string, b: string)
    requires IsBytes(a) && IsBytes(b)
    ensures Encode(a) <= Encode(b) ==> a <= b
    decreases |a|
  {
    if Encode(a) <= Encode(b) && a != "" {
      assert b != "";
      CodesDecide(a[0], b[0], Encode(a[1..]), Encode(b[1..]));
      EncodePrefixOnly(a[1..], b[1..]);
      assert a == [a[0]] + a[1..] && b == [b[0]] + b[1..];
    }
  }

  lemma {:induction false} ManglePrefix(u: string, v: string)
    requires IsBytes(u) && IsBytes(v)
    ensures Mangle(u) <= Mangle(v) <==> Strip(u) <= Strip(v)
  {
    StripIsBytes(u);
    StripIsBytes(v);
    EncodePrefix(Strip(u), Strip(v));
  }

  // ---- trusted sources --------------------------------------------------------------------------

  /** The base URI as apt uses it, ending in '/'. */
  function WithSlash(uri: string): string {
    if uri != "" && uri[|uri| - 1] == '/' then uri else uri + "/"
  }

  /** trustedIndexPrefixes, of the URIs its trusted entries name: the distinct non-empty
      prefixes, sorted.  `all` is the prefix of every URI. */
  method TrustedIndexPrefixes(uris: seq<string>) returns (out: seq<string>, all: seq<string>)
    ensures |all| == |uris| && forall k :: 0 <= k < |uris| ==> all[k] == Mangle(WithSlash(uris[k]))
    ensures Sorted(StringLe, out) && Distinct(out)
    ensures forall p :: p in out <==> p in all && p != ""
  {
    all := Prefixes(uris);
    MappedAt(PrefixName, uris);
    var list := WithoutRepeats(all);
    out := Ordered(list);
  }

  /** The prefix of one URI. */
  function PrefixName(uri: string): string {
    Mangle(WithSlash(uri))
  }

  method Prefixes(uris: seq<string>) returns (all: seq<string>)
    ensures all == Mapped(PrefixName, uris)
  {
    all := [];
    for i := 0 to |uris|
      invariant all == Mapped(PrefixName, uris[..i])
    {
      assert uris[..i + 1][..i] == uris[..i];
      var p := AptURIToFileName(WithSlash(uris[i]));
      all := all + [p];
    }
    assert uris[..|uris|] == uris;
  }

  method WithoutRepeats(all: seq<string>) returns (out: seq<string>)
    ensures Distinct(out)
    ensures forall p :: p in out <==> p in all && p != ""
  {
    var seen: set<string> := {};
    out := [];
    for i := 0 to |all|
      invariant forall p :: p in out <==> p in all[..i] && p != ""
      invariant forall p :: p in seen <==> p in out
      invariant Distinct(out)
    {
      assert all[..i + 1] == all[..i] + [all[i]];
      if all[i] != "" && all[i] !in seen {
        seen, out := seen + {all[i]}, out + [all[i]];
      }
    }
    assert all[..|all|] == all;
  }

  method Ordered(list: seq<string>) returns (out: seq<string>)
    requires Distinct(list)
    ensures Sorted(StringLe, out) && Distinct(out) && forall p :: p in out <==> p in list
  {
    StringOrder();
    SortIsSorted(StringLe, list);
    SortIsPermutation(StringLe, list);
    SortKeepsDistinct(StringLe, list);
    out := Sort(StringLe, list);
  }

  /** indexFileBelongsTo. */
  predicate IndexFileBelongsTo(indexFile: string, prefixes: seq<string>) {
    exists p :: p in prefixes && p <= indexFile
  }

  lemma {:induction false} SchemeOfSlashed(uri: string, i: nat)
    requires i <= |uri| && (uri == "" || uri[|uri| - 1] != '/')
    ensures FindScheme(uri + "/", i) == if FindScheme(uri, i) < |uri| then FindScheme(uri, i) else |uri| + 1
    decreases |uri| - i
  {
    var v := uri + "/";
    if i < |uri| {
      assert v[i] == uri[i];
      assert i + 1 < |uri| ==> v[i + 1] == uri[i + 1];
      assert i + 2 < |uri| ==> v[i + 2] == uri[i + 2];
      assert SchemeAt(v, i) <==> SchemeAt(uri, i);
      if !SchemeAt(uri, i) {
        SchemeOfSlashed(uri, i + 1);
      }
    }
  }

  lemma {:induction false} SlashOfSlashed(s: string, i: nat)
    requires i <= |s|
    ensures FindSlash(s + "/", i) == FindSlash(s, i)
    decreases |s| - i
  {
    assert (s + "/")[i] == if i < |s| then s[i] else '/';
    if i < |s| && s[i] != '/' {
      SlashOfSlashed(s, i + 1);
    }
  }

  lemma {:induction false} AtOfSlashed(s: string, n: nat)
    requires n <= |s|
    ensures AfterLastAt(s + "/", n) == AfterLastAt(s, n)
  {
    if n > 0 {
      assert (s + "/")[n - 1] == s[n - 1];
      AtOfSlashed(s, n - 1);
    }
  }

  /** Adding the slash adds exactly a slash to what is mangled. */
  lemma {:induction false} StripOfSlashed(uri: string)
    requires uri == "" || uri[|uri| - 1] != '/'
    ensures Strip(uri + "/") == Strip(uri) + "/"
  {
    SchemeOfSlashed(uri, 0);
    var rest := AfterScheme(uri);
    assert AfterScheme(uri + "/") == rest + "/";
    SlashOfSlashed(rest, 0);
    AtOfSlashed(rest, FindSlash(rest, 0));
  }

  lemma {:induction false} StripEndsAsUri(uri: string)
    requires uri != "" && uri[|uri| - 1] == '/' && Strip(uri) != ""
    ensures Strip(uri)[|Strip(uri)| - 1] == '/'
  {
  }

  /** An index stored for the stripped URI `w` belongs to a trusted source only where `w`
      continues that source's path at a '/', never in the middle of a component. */
  lemma {:induction false} MatchesOnlyAtBoundary(w: string, uri: string)
    requires IsBytes(w) && IsBytes(WithSlash(uri))
    ensures Mangle(WithSlash(uri)) <= Encode(w) <==> Strip(WithSlash(uri)) <= w
    ensures Strip(WithSlash(uri)) == "" || Strip(WithSlash(uri))[|Strip(WithSlash(uri))| - 1] == '/'
  {
    StripIsBytes(WithSlash(uri));
    EncodePrefix(Strip(WithSlash(uri)), w);
    if uri != "" && uri[|uri| - 1] == '/' {
      if Strip(uri) != "" {
        StripEndsAsUri(uri);
      }
    } else {
      StripOfSlashed(uri);
    }
  }

  /** `uri`'s slash-ended stripped form is a non-empty prefix of `w`. */
  predicate Covers(uri: string, w: string) {
    Strip(WithSlash(uri)) != "" && Strip(WithSlash(uri)) <= w
  }

  lemma {:induction false} CoversByName(w: string, uri: string, p: string)
    requires IsBytes(w) && IsBytes(WithSlash(uri)) && p == Mangle(WithSlash(uri))
    ensures Covers(uri, w) <==> p != "" && p <= Encode(w)
  {
    MatchesOnlyAtBoundary(w, uri);
    EmptyEncode(Strip(WithSlash(uri)));
  }

  /** The verdict on an index file, in terms of the URIs: it is trusted exactly when some
      trusted source's slash-ended stripped URI is a non-empty prefix of its own. */
  lemma {:induction false} TrustedExactly(w: string, uris: seq<string>, all: seq<string>, prefixes: seq<string>)
    requires IsBytes(w) && |all| == |uris|
    requires forall k :: 0 <= k < |uris| ==> IsBytes(WithSlash(uris[k])) && all[k] == Mangle(WithSlash(uris[k]))
    requires forall p :: p in prefixes <==> p in all && p != ""
    ensures IndexFileBelongsTo(Encode(w), prefixes) <==> exists k :: 0 <= k < |uris| && Covers(uris[k], w)
  {
    forall k | 0 <= k < |uris| ensures Covers(uris[k], w) <==> all[k] != "" && all[k] <= Encode(w) {
      CoversByName(w, uris[k], all[k]);
    }
    if IndexFileBelongsTo(Encode(w), prefixes) {
      var p :| p in prefixes && p <= Encode(w);
      var k :| 0 <= k < |all| && all[k] == p;
      assert Covers(uris[k], w);
    }
    if exists k :: 0 <= k < |uris| && Covers(uris[k], w) {
      var k :| 0 <= k < |uris| && Covers(uris[k], w);
      assert all[k] in prefixes;
    }
  }

  lemma {:induction false} EmptyEncode(s: string)
    ensures Encode(s) == "" <==> s == ""
  {
  }
}
