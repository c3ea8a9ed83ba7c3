/** Which strings with a NUL byte the version comparison still orders consistently
    (core/apt/dpkgversion.go:77-144).

    A NUL has the rank of a digit, so it can be lined up with one.  One that directly follows
    a digit cannot: there the other string is at its end or at a byte of another rank. */
module VersionNul {
  import opened VersionOrder

  predicate IsBytes(s: string) {
    forall i :: 0 <= i < |s| ==> s[i] as int < 256
  }

  /** `m` is where the first NUL of `v` stands. */
  predicate FirstNulAt(v: string, m: nat) {
    m < |v| && v[m] == '\0' && NulFree(v[..m])
  }

  predicate EndsInDigit(p: string) {
    p != "" && IsDigit(p[|p| - 1])
  }

  /** The first NUL of `v`, if it has one, directly follows a digit. */
  predicate NulAfterDigit(v: string) {
    forall m :: 0 <= m < |v| && FirstNulAt(v, m) ==> EndsInDigit(v[..m])
  }

  /** What lies between NUL-free strings through `v` is in their order. */
  ghost predicate OrdersThrough(v: string) {
    forall a, c :: NulFree(a) && IsBytes(a) && NulFree(c) && IsBytes(c) && Compare(a, v) <= 0 && Compare(v, c) <= 0
      ==> Compare(a, c) <= 0
  }

  lemma {:induction false} FindFirstNul(v: string, i: nat) returns (m: nat)
    requires i <= |v| && NulFree(v[..i]) && !NulFree(v)
    ensures FirstNulAt(v, m)
    decreases |v| - i
  {
    assert v[..|v|] == v;
    if v[i] == '\0' {
      m := i;
    } else {
      assert v[..i + 1] == v[..i] + [v[i]];
      m := FindFirstNul(v, i + 1);
    }
  }

  // ---- a NUL after a digit -----------------------------------------------------------

  /** `v` goes on after `p` with a NUL, and `p` ends in a digit. */
  predicate Cut(p: string, v: string) {
    && |p| < |v| && v[..|p|] == p && v[|p|] == '\0' && NulFree(p) && EndsInDigit(p)
  }

  lemma {:induction false} NonDigitHasRank(a: string, i: nat)
    requires NulFree(a) && NonDigitAt(a, i)
    ensures RankAt(a, i) != 0
  {
  }

  lemma {:induction false} CutAt(p: string, v: string, j: nat)
    requires Cut(p, v) && j <= |p|
    ensures RankAt(v, j) == RankAt(p, j) && DigitAt(v, j) == DigitAt(p, j)
    ensures j < |p| ==> v[j] == p[j]
  {
  }

  lemma {:induction false} CutNonDigits(a: string, i: nat, p: string, j: nat, v: string)
    requires NulFree(a) && Cut(p, v) && i <= |a| && j < |p|
    ensures NonDigits(a, i, v, j) == NonDigits(a, i, p, j)
    ensures NonDigits(a, i, p, j).Reached? ==> NonDigits(a, i, p, j).j < |p|
    decreases |a| - i + |p| - j
  {
    CutAt(p, v, j);
    if (NonDigitAt(a, i) || NonDigitAt(p, j)) && RankAt(a, i) == RankAt(p, j) {
      if NonDigitAt(a, i) {
        NonDigitHasRank(a, i);
      }
      assert NonDigitAt(p, j) && j + 1 < |p|;
      CutNonDigits(a, Step(a, i), p, j + 1, v);
    }
  }

  lemma {:induction false} CutZeros(p: string, j: nat, v: string)
    requires Cut(p, v) && j <= |p|
    ensures SkipZeros(v, j) == SkipZeros(p, j)
    decreases |p| - j
  {
    CutAt(p, v, j);
    if j < |p| && p[j] == '0' {
      CutZeros(p, j + 1, v);
    }
  }

  lemma {:induction false} CutDigits(a: string, i: nat, p: string, j: nat, v: string, firstDiff: int)
    requires Cut(p, v) && i <= |a| && j <= |p|
    ensures Digits(a, i, v, j, firstDiff) == Digits(a, i, p, j, firstDiff)
    decreases |a| - i
  {
    CutAt(p, v, j);
    if DigitAt(a, i) && DigitAt(p, j) {
      CutDigits(a, i + 1, p, j + 1, v, if firstDiff == 0 then a[i] as int - p[j] as int else firstDiff);
    }
  }

  lemma {:induction false} CutRound(a: string, i: nat, p: string, j: nat, v: string)
    requires NulFree(a) && Cut(p, v) && i <= |a| && j < |p|
    ensures Round(a, i, v, j) == Round(a, i, p, j)
  {
    CutNonDigits(a, i, p, j, v);
    var c := NonDigits(a, i, p, j);
    if c.Reached? {
      CutZeros(p, c.j, v);
      CutDigits(a, SkipZeros(a, c.i), p, SkipZeros(p, c.j), v, 0);
    }
  }

  /** Where a NUL-free string differs from the part before the NUL, that difference decides. */
  lemma {:induction false} CutDecides(a: string, i: nat, p: string, j: nat, v: string)
    requires NulFree(a) && Cut(p, v) && i <= |a| && j <= |p| && (j < |p| || !DigitAt(a, i))
    ensures VerRevCmp(a, i, p, j) != 0 ==> VerRevCmp(a, i, v, j) == VerRevCmp(a, i, p, j)
    decreases |a| - i + |p| - j
  {
    if j < |p| {
      CutRound(a, i, p, j, v);
      var c := Round(a, i, p, j);
      if c.Reached? {
        CutDecides(a, c.i, p, c.j, v);
      }
    } else if i < |a| {
      NonDigitHasRank(a, i);
    }
  }

  lemma {:induction false} ExhaustedNonDigits(a: string, v: string, j: nat)
    requires j <= |v|
    ensures NonDigits(a, |a|, v, j) ==
            match NonDigits("", 0, v, j) case Decided(d) => Decided(d) case Reached(_, k) => Reached(|a|, k)
    decreases |v| - j
  {
    if NonDigitAt(v, j) && RankAt(v, j) == 0 {
      ExhaustedNonDigits(a, v, j + 1);
    }
  }

  /** At its end one string is like another. */
  lemma {:induction false} Exhausted(a: string, v: string, j: nat)
    requires j <= |v|
    ensures VerRevCmp(a, |a|, v, j) == VerRevCmp("", 0, v, j)
    decreases |v| - j
  {
    if j == |v| {
    } else {
      ExhaustedNonDigits(a, v, j);
      var c := Round("", 0, v, j);
      if c.Reached? {
        Exhausted(a, v, c.j);
      }
    }
  }

  lemma {:induction false} DecidedDiffers(a: string, i: nat, b: string, j: nat)
    requires i <= |a| && j <= |b| && NonDigits(a, i, b, j).Decided?
    ensures NonDigits(a, i, b, j).diff != 0
    decreases |a| - i + |b| - j
  {
    if RankAt(a, i) == RankAt(b, j) {
      DecidedDiffers(a, Step(a, i), b, Step(b, j));
    }
  }

  /** A string that ties with the part before the NUL compares as the empty string does with
      the rest. */
  lemma {:induction false} CutTies(a: string, i: nat, p: string, j: nat, v: string)
    requires NulFree(a) && Cut(p, v) && i <= |a| && j <= |p| && (j < |p| || !DigitAt(a, i))
    ensures VerRevCmp(a, i, p, j) == 0 ==> VerRevCmp(a, i, v, j) == VerRevCmp("", 0, v, |p|)
    decreases |a| - i + |p| - j
  {
    if j < |p| {
      CutRound(a, i, p, j, v);
      var c := Round(a, i, p, j);
      if c.Reached? {
        CutTies(a, c.i, p, c.j, v);
      } else if NonDigits(a, i, p, j).Decided? {
        DecidedDiffers(a, i, p, j);
      }
    } else if i < |a| {
      NonDigitHasRank(a, i);
      assert NonDigits(a, i, p, j) == Decided(RankAt(a, i));
    } else {
      Exhausted(a, v, j);
    }
  }

  lemma {:induction false} OrdersThroughCut(a: string, v: string, c: string, p: string)
    requires NulFree(a) && NulFree(c) && Cut(p, v) && Compare(a, v) <= 0 && Compare(v, c) <= 0
    ensures Compare(a, c) <= 0
  {
    CutDecides(a, 0, p, 0, v);
    CutDecides(c, 0, p, 0, v);
    VerRevCmpSwap(c, 0, v, 0);
    VerRevCmpSwap(c, 0, p, 0);
    CompareTransitive(a, p, c);
  }

  /** Strings that tie with each other and have `v` between them both tie with `v`. */
  lemma {:induction false} TiesThroughCut(a: string, v: string, c: string, p: string)
    requires NulFree(a) && NulFree(c) && Cut(p, v) && Compare(a, v) <= 0 && Compare(v, c) <= 0
    requires Compare(a, c) == 0
    ensures Compare(a, v) == 0 && Compare(v, c) == 0
  {
    CutDecides(a, 0, p, 0, v);
    CutDecides(c, 0, p, 0, v);
    CutTies(a, 0, p, 0, v);
    CutTies(c, 0, p, 0, v);
    VerRevCmpSwap(c, 0, v, 0);
    VerRevCmpSwap(c, 0, p, 0);
    CompareTransitive(a, p, c);
  }

  lemma {:induction false} BetweenNulFree(a: string, v: string, c: string)
    requires NulFree(a) && NulFree(c) && NulAfterDigit(v) && Compare(a, v) <= 0 && Compare(v, c) <= 0
    ensures Compare(a, c) <= 0
    ensures Compare(a, c) == 0 ==> Compare(a, v) == 0 && Compare(v, c) == 0
  {
    if NulFree(v) {
      CompareTransitive(a, v, c);
    } else {
      var m := FindFirstNul(v, 0);
      OrdersThroughCut(a, v, c, v[..m]);
      if Compare(a, c) == 0 {
        TiesThroughCut(a, v, c, v[..m]);
      }
    }
  }

  // ---- a NUL that can be lined up with a digit -------------------------------------------

  /** `s` and `t` begin alike up to `n`, and no digit run crosses `n`. */
  predicate Alike(s: string, t: string, n: nat) {
    && n < |s| && n < |t| && (n == 0 || !IsDigit(s[n - 1]))
    && forall k :: 0 <= k < n ==> s[k] == t[k]
  }

  lemma {:induction false} AlikeZeros(s: string, t: string, n: nat, i: nat)
    requires Alike(s, t, n) && i < n
    ensures SkipZeros(s, i) == SkipZeros(t, i) < n
    decreases n - i
  {
    if s[i] == '0' {
      assert i + 1 < n;
      AlikeZeros(s, t, n, i + 1);
    }
  }

  lemma {:induction false} AlikeDigits(s: string, t: string, n: nat, i: nat)
    requires Alike(s, t, n) && i < n
    ensures var c := Digits(s, i, t, i, 0); c.Reached? && c.i == c.j < n
    decreases n - i
  {
    if IsDigit(s[i]) {
      assert i + 1 < n;
      AlikeDigits(s, t, n, i + 1);
    }
  }

  /** A common beginning does not matter. */
  lemma {:induction false} AlikeDecides(s: string, t: string, n: nat, i: nat)
    requires Alike(s, t, n) && i <= n
    ensures VerRevCmp(s, i, t, i) == VerRevCmp(s, n, t, n)
    decreases n - i
  {
    if i == n {
    } else if IsDigit(s[i]) {
      AlikeZeros(s, t, n, i);
      AlikeDigits(s, t, n, SkipZeros(s, i));
      var c := Round(s, i, t, i);
      AlikeDecides(s, t, n, c.i);
    } else {
      assert NonDigits(s, i, t, i) == NonDigits(s, i + 1, t, i + 1);
      assert Round(s, i, t, i) == Round(s, i + 1, t, i + 1);
      AlikeDecides(s, t, n, i + 1);
    }
  }

  function Repeated(c: char, n: nat): (s: string)
    ensures |s| == n && forall i :: 0 <= i < n ==> s[i] == c
  {
    if n == 0 then "" else [c] + Repeated(c, n - 1)
  }

  /** The byte of highest rank. */
  const TOP: char := 255 as char

  /** More tildes than `v` has bytes left sort below it, whatever those are. */
  lemma {:induction false} TildesBelow(a: string, i: nat, v: string, j: nat)
    requires i <= |a| && j <= |v| && |v| - j < |a| - i && forall k :: i <= k < |a| ==> a[k] == '~'
    ensures NonDigits(a, i, v, j).Decided? && NonDigits(a, i, v, j).diff < 0
    decreases |a| - i
  {
    if j < |v| && v[j] == '~' {
      TildesBelow(a, i + 1, v, j + 1);
    }
  }

  /** More bytes of highest rank sort above it. */
  lemma {:induction false} TopsAbove(v: string, j: nat, c: string, i: nat)
    requires i <= |c| && j <= |v| && |v| - j < |c| - i && IsBytes(v) && forall k :: i <= k < |c| ==> c[k] == TOP
    ensures NonDigits(v, j, c, i).Decided? && NonDigits(v, j, c, i).diff < 0
    decreases |c| - i
  {
    if j < |v| && v[j] == TOP {
      TopsAbove(v, j + 1, c, i + 1);
    }
  }

  lemma {:induction false} BelowNul(a: string, v: string, n: nat)
    requires Alike(a, v, n) && v[n] == '\0' && IsDigit(a[n]) && |v| < |a| && forall k :: n < k < |a| ==> a[k] == '~'
    ensures Compare(a, v) < 0
  {
    AlikeDecides(a, v, n, 0);
    TildesBelow(a, n + 1, v, n + 1);
    assert NonDigits(a, n, v, n) == NonDigits(a, n + 1, v, n + 1);
  }

  lemma {:induction false} AboveNul(v: string, c: string, n: nat)
    requires Alike(v, c, n) && v[n] == '\0' && IsDigit(c[n]) && |v| < |c| && IsBytes(v)
    requires forall k :: n < k < |c| ==> c[k] == TOP
    ensures Compare(v, c) < 0
  {
    AlikeDecides(v, c, n, 0);
    TopsAbove(v, n + 1, c, n + 1);
    assert NonDigits(v, n, c, n) == NonDigits(v, n + 1, c, n + 1);
  }

  lemma {:induction false} FiveBelowSix(c: string, a: string, n: nat)
    requires Alike(c, a, n) && c[n] == '5' && a[n] == '6'
    requires n + 1 < |c| && n + 1 < |a| && !IsDigit(c[n + 1]) && !IsDigit(a[n + 1])
    ensures Compare(c, a) < 0
  {
    AlikeDecides(c, a, n, 0);
    assert Digits(c, n, a, n, 0) == Digits(c, n + 1, a, n + 1, -1);
  }

  /** Two NUL-free strings that `v` puts in the wrong order. */
  lemma {:induction false} LinedUp(v: string, m: nat) returns (a: string, c: string)
    requires FirstNulAt(v, m) && !EndsInDigit(v[..m]) && IsBytes(v)
    ensures NulFree(a) && IsBytes(a) && NulFree(c) && IsBytes(c)
    ensures Compare(a, v) < 0 && Compare(v, c) < 0 && Compare(a, c) > 0
    ensures forall k :: 0 <= k < |a| ==> a[k] in v || a[k] == '6' || a[k] == '~'
    ensures forall k :: 0 <= k < |c| ==> c[k] in v || c[k] == '5' || c[k] == TOP
  {
    a := v[..m] + "6" + Repeated('~', |v|);
    c := v[..m] + "5" + Repeated(TOP, |v|);
    assert m > 0 ==> v[m - 1] == v[..m][|v[..m]| - 1];
    assert forall k :: 0 <= k < m ==> v[..m][k] == v[k];
    BelowNul(a, v, m);
    AboveNul(v, c, m);
    FiveBelowSix(c, a, m);
    VerRevCmpSwap(c, 0, a, 0);
  }

  // ---- exactly ---------------------------------------------------------------------------------

  /** NUL-free strings are in order through `v` if and only if the first NUL of `v`, if it has
      one, directly follows a digit. */
  lemma {:induction false} OrderedExactly(v: string)
    requires IsBytes(v)
    ensures OrdersThrough(v) <==> NulAfterDigit(v)
  {
    if NulAfterDigit(v) {
      forall a, c | NulFree(a) && NulFree(c) && Compare(a, v) <= 0 && Compare(v, c) <= 0
        ensures Compare(a, c) <= 0
      {
        BetweenNulFree(a, v, c);
      }
    } else {
      var m :| 0 <= m < |v| && FirstNulAt(v, m) && !EndsInDigit(v[..m]);
      var a, c := LinedUp(v, m);
    }
  }
}
