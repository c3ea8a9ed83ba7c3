/** What the version comparison decides, in terms of the bytes and numbers of the versions
    (core/apt/dpkgversion.go:41-144, Debian Policy section 5.6.12). */
module VersionPolicy {
  import opened VersionParts
  import opened VersionOrder

  // ---- whole versions ------------------------------------------------------------------

  /** The sign of the zero-padded lexicographic order of two parts. */
  function PartOrder(a: string, b: string): int {
    PadLex(Key(a, 0), Key(b, 0))
  }

  lemma {:induction false} PartOrderIs(a: string, b: string)
    requires NulFree(a) && NulFree(b)
    ensures Sign(Compare(a, b)) == PartOrder(a, b)
  {
    VerRevCmpIsKeyOrder(a, 0, b, 0);
  }

  /** Versions with all three parts: the epochs decide, then the upstream versions, then the
      revisions, each the first argument's against the second's. */
  lemma {:induction false} PartsDecide(e: string, u: string, r: string, e': string, u': string, r': string)
    requires NulFree(e) && NulFree(u) && NulFree(r) && NulFree(e') && NulFree(u') && NulFree(r')
    requires ':' !in e && ':' !in e' && '-' !in r && '-' !in r'
    ensures CompareFallback(e + ":" + (u + "-" + r), e' + ":" + (u' + "-" + r')) ==
            if PartOrder(e, e') != 0 then PartOrder(e, e')
            else if PartOrder(u, u') != 0 then PartOrder(u, u')
            else PartOrder(r, r')
  {
    ThreeParts(e, u, r);
    ThreeParts(e', u', r');
    PartOrderIs(e, e');
    PartOrderIs(u, u');
    PartOrderIs(r, r');
  }

  lemma {:induction false} ThreeParts(e: string, u: string, r: string)
    requires ':' !in e && '-' !in r
    ensures SplitVersion(e + ":" + (u + "-" + r)) == Version(e, u, r)
  {
    EpochOf(e, u + "-" + r, e + ":" + (u + "-" + r));
    RestOf(u, r, u + "-" + r);
  }

  // ---- one part ----------------------------------------------------------------------------

  predicate Letter(c: char) {
    'a' <= c <= 'z' || 'A' <= c <= 'Z'
  }

  /** Debian's order of two different non-digits: the tilde first, then letters, then the rest,
      and by code among letters and among the rest. */
  predicate SortsBefore(a: char, b: char) {
    && b != '~'
    && (|| a == '~'
        || (Letter(a) && !Letter(b))
        || (Letter(a) == Letter(b) && a < b))
  }

  predicate Plain(c: char) {
    !IsDigit(c) && c != '\0'
  }

  /** A common beginning that ends in no digit, or none, puts no difference between keys. */
  lemma {:induction false} SameStart(s: string, x: string, y: string, i: nat)
    requires i <= |s| && NulFree(s) && (s == "" || !IsDigit(s[|s| - 1]))
    ensures PadLex(Key(s + x, i), Key(s + y, i)) == PadLex(Key(s + x, |s|), Key(s + y, |s|))
    decreases |s| - i
  {
    var a, b := s + x, s + y;
    if i == |s| {
    } else if IsDigit(s[i]) {
      DigitEndInside(s, i);
      assert a[i] == s[i] == b[i];
      SameRun(s, i, x, 0);
      SameRun(s, i, y, 0);
      RunsFollowKey(a, i, b, i);
      SameStart(s, x, y, DigitEnd(s, i));
    } else {
      assert a[i] == s[i] == b[i];
      KeyParts(a, i);
      KeyParts(b, i);
      PadLexHeads(Key(a, i), Key(b, i));
      SameStart(s, x, y, i + 1);
    }
  }

  /** The first difference between two non-digits decides, whatever follows. */
  lemma {:induction false} FirstNonDigitDecides(s: string, a: char, t: string, b: char, u: string)
    requires NulFree(s) && NulFree(t) && NulFree(u) && (s == "" || !IsDigit(s[|s| - 1]))
    requires Plain(a) && Plain(b) && a != b
    ensures Compare(s + ([a] + t), s + ([b] + u)) < 0 <==> SortsBefore(a, b)
    ensures Compare(s + ([a] + t), s + ([b] + u)) > 0 <==> SortsBefore(b, a)
  {
    var x, y := s + ([a] + t), s + ([b] + u);
    assert x[|s|] == a && y[|s|] == b;
    SameStart(s, [a] + t, [b] + u, 0);
    KeyParts(x, |s|);
    KeyParts(y, |s|);
    PadLexHeads(Key(x, |s|), Key(y, |s|));
    RanksDiffer(a, b);
    NulFreeJoins(s, a, t);
    NulFreeJoins(s, b, u);
    PartOrderIs(x, y);
  }

  lemma {:induction false} RanksDiffer(a: char, b: char)
    requires Plain(a) && Plain(b) && a != b
    ensures Order(a) < Order(b) <==> SortsBefore(a, b)
    ensures Order(a) != Order(b)
  {
  }

  lemma {:induction false} NulFreeJoins(s: string, c: char, t: string)
    requires NulFree(s) && NulFree(t) && c != '\0'
    ensures NulFree(s + ([c] + t))
  {
  }

  /** The end of a part, or a digit, sorts after a tilde and before every other non-digit. */
  lemma {:induction false} EndSortsBetween(s: string, a: char, t: string, u: string)
    requires NulFree(s) && NulFree(t) && NulFree(u) && (s == "" || !IsDigit(s[|s| - 1]))
    requires Plain(a) && (u == "" || IsDigit(u[0]))
    ensures Compare(s + ([a] + t), s + u) < 0 <==> a == '~'
    ensures Compare(s + ([a] + t), s + u) > 0 <==> a != '~'
  {
    var x, y := s + ([a] + t), s + u;
    assert x[|s|] == a && (u != "" ==> y[|s|] == u[0]);
    SameStart(s, [a] + t, u, 0);
    KeyParts(x, |s|);
    KeyParts(y, |s|);
    PadLexHeads(Key(x, |s|), Key(y, |s|));
    NulFreeJoins(s, a, t);
    assert NulFree(y);
    PartOrderIs(x, y);
  }

  // ---- numbers ---------------------------------------------------------------------------

  predicate Digits10(s: string) {
    forall i :: 0 <= i < |s| ==> IsDigit(s[i])
  }

  /** The number a string of digits spells. */
  function Number(s: string): nat
    requires Digits10(s)
  {
    if s == "" then 0 else 10 * Number(s[..|s| - 1]) + (s[|s| - 1] as int - '0' as int)
  }

  lemma {:induction false} RunIsNumber(s: string, d: string, t: string, k: nat)
    requires k <= |d| && Digits10(d) && (t == "" || !IsDigit(t[0]))
    ensures Value(s + (d + t), |s| + k, Number(d[..k])) == Number(d)
    ensures DigitEnd(s + (d + t), |s| + k) == |s| + |d|
    decreases |d| - k
  {
    var u := s + (d + t);
    if k == |d| {
      assert d[..k] == d;
      assert t != "" ==> u[|s| + k] == t[0];
    } else {
      assert u[|s| + k] == d[k];
      assert d[..k + 1][..k] == d[..k];
      RunIsNumber(s, d, t, k + 1);
    }
  }

  lemma {:induction false} NumberAt(s: string, d: string, t: string)
    requires Digits10(d) && d != "" && (t == "" || !IsDigit(t[0]))
    ensures DigitAt(s + (d + t), |s|) && Value(s + (d + t), |s|, 0) == Number(d)
  {
    assert (s + (d + t))[|s|] == d[0] && d[..0] == "";
    RunIsNumber(s, d, t, 0);
  }

  lemma {:induction false} NulFreeRun(s: string, d: string, t: string)
    requires NulFree(s) && NulFree(t) && Digits10(d)
    ensures NulFree(s + (d + t))
  {
  }

  /** Digit runs in the same place decide by their numbers. */
  lemma {:induction false} NumbersDecide(s: string, d: string, t: string, d': string, t': string)
    requires NulFree(s) && NulFree(t) && NulFree(t') && (s == "" || !IsDigit(s[|s| - 1]))
    requires Digits10(d) && Digits10(d') && d != "" && d' != "" && Number(d) != Number(d')
    requires (t == "" || !IsDigit(t[0])) && (t' == "" || !IsDigit(t'[0]))
    ensures Sign(Compare(s + (d + t), s + (d' + t'))) == Sign(Number(d) - Number(d'))
  {
    var x, y := s + (d + t), s + (d' + t');
    SameStart(s, d + t, d' + t', 0);
    NumberAt(s, d, t);
    NumberAt(s, d', t');
    RunsFollowKey(x, |s|, y, |s|);
    NulFreeRun(s, d, t);
    NulFreeRun(s, d', t');
    PartOrderIs(x, y);
  }
}
