/** The Debian version comparison of core/apt/dpkgversion.go:39-155: a two-cursor loop meant
    to implement the order of section 5.6.12 of Debian Policy. */
module VersionOrder {
  // `VerRevCmp` is the loop's meaning on every pair of strings. On strings without a NUL byte
  // it is shown to have the sign of a zero-padded lexicographic order on integer keys, which
  // makes the comparison a total preorder.

  import opened VersionParts

  predicate IsDigit(c: char) {
    '0' <= c <= '9'
  }

  /** verOrder. */
  function Order(c: char): int {
    if c == '~' then -1
    else if c == '\0' then 0
    else if IsDigit(c) then 0
    else if 'a' <= c <= 'z' || 'A' <= c <= 'Z' then c as int
    else c as int + 256
  }

  function Sign(n: int): int {
    if n < 0 then -1 else if n > 0 then 1 else 0
  }

  predicate NulFree(s: string) {
    forall i :: 0 <= i < |s| ==> s[i] != '\0'
  }

  // ---- the loop's meaning, for every pair of strings --------------------------

  /** An inner loop either decides the comparison or leaves the cursors somewhere. */
  datatype Cursors = Decided(diff: int) | Reached(i: nat, j: nat)

  predicate NonDigitAt(s: string, i: nat) {
    i < |s| && !IsDigit(s[i])
  }

  predicate DigitAt(s: string, i: nat) {
    i < |s| && IsDigit(s[i])
  }

  /** The rank of the byte under the cursor, 0 past the end. */
  function RankAt(s: string, i: nat): int {
    if i < |s| then Order(s[i]) else 0
  }

  function Step(s: string, i: nat): nat {
    if i < |s| then i + 1 else i
  }

  function NonDigits(a: string, i: nat, b: string, j: nat): (c: Cursors)
    requires i <= |a| && j <= |b|
    ensures c.Reached? ==> i <= c.i <= |a| && j <= c.j <= |b|
    ensures c.Reached? ==> !NonDigitAt(a, c.i) && !NonDigitAt(b, c.j)
    ensures c.Reached? && (NonDigitAt(a, i) || NonDigitAt(b, j)) ==> i < c.i || j < c.j
    decreases |a| - i + |b| - j
  {
    if NonDigitAt(a, i) || NonDigitAt(b, j) then
      if RankAt(a, i) != RankAt(b, j) then Decided(RankAt(a, i) - RankAt(b, j))
      else NonDigits(a, Step(a, i), b, Step(b, j))
    else Reached(i, j)
  }

  function SkipZeros(s: string, i: nat): (k: nat)
    requires i <= |s|
    ensures i <= k <= |s|
    ensures k < |s| ==> s[k] != '0'
    ensures k == i ==> i == |s| || s[i] != '0'
    decreases |s| - i
  {
    if i < |s| && s[i] == '0' then SkipZeros(s, i + 1) else i
  }

  function Digits(a: string, i: nat, b: string, j: nat, firstDiff: int): (c: Cursors)
    requires i <= |a| && j <= |b|
    ensures c.Reached? ==> i <= c.i <= |a| && j <= c.j <= |b|
    ensures c.Reached? ==> !DigitAt(a, c.i) && !DigitAt(b, c.j)
    ensures c.Decided? ==> c.diff != 0
    decreases |a| - i
  {
    if DigitAt(a, i) && DigitAt(b, j) then
      Digits(a, i + 1, b, j + 1, if firstDiff == 0 then a[i] as int - b[j] as int else firstDiff)
    else if DigitAt(a, i) then Decided(1)
    else if DigitAt(b, j) then Decided(-1)
    else if firstDiff != 0 then Decided(firstDiff)
    else Reached(i, j)
  }

  /** One turn of the outer loop. */
  function Round(a: string, i: nat, b: string, j: nat): (c: Cursors)
    requires i <= |a| && j <= |b| && (i < |a| || j < |b|)
    ensures c.Reached? ==> i <= c.i <= |a| && j <= c.j <= |b| && (i < c.i || j < c.j)
  {
    var c := NonDigits(a, i, b, j);
    if c.Decided? then c else Digits(a, SkipZeros(a, c.i), b, SkipZeros(b, c.j), 0)
  }

  function VerRevCmp(a: string, i: nat, b: string, j: nat): int
    requires i <= |a| && j <= |b|
    decreases |a| - i + |b| - j
  {
    if i == |a| && j == |b| then 0
    else
      var c := Round(a, i, b, j);
      if c.Decided? then c.diff else VerRevCmp(a, c.i, b, c.j)
  }

  // ---- the program's loops ------------------------------------------------------

  method NonDigitLoop(a: string, i0: nat, b: string, j0: nat) returns (decided: bool, diff: int, i: nat, j: nat)
    requires i0 <= |a| && j0 <= |b|
    ensures NonDigits(a, i0, b, j0) == if decided then Decided(diff) else Reached(i, j)
  {
    decided, diff, i, j := false, 0, i0, j0;
    while (i < |a| && !IsDigit(a[i])) || (j < |b| && !IsDigit(b[j]))
      invariant i0 <= i <= |a| && j0 <= j <= |b|
      invariant NonDigits(a, i0, b, j0) == NonDigits(a, i, b, j)
      decreases |a| - i + |b| - j
    {
      var ac, bc := 0, 0;
      if i < |a| {
        ac := Order(a[i]);
      }
      if j < |b| {
        bc := Order(b[j]);
      }
      if ac != bc {
        return true, ac - bc, i, j;
      }
      if i < |a| {
        i := i + 1;
      }
      if j < |b| {
        j := j + 1;
      }
    }
  }

  method ZeroLoop(s: string, i0: nat) returns (i: nat)
    requires i0 <= |s|
    ensures i == SkipZeros(s, i0)
  {
    i := i0;
    while i < |s| && s[i] == '0'
      invariant i0 <= i <= |s|
      invariant SkipZeros(s, i0) == SkipZeros(s, i)
    {
      i := i + 1;
    }
  }

  method DigitLoop(a: string, i0: nat, b: string, j0: nat) returns (decided: bool, diff: int, i: nat, j: nat)
    requires i0 <= |a| && j0 <= |b|
    ensures Digits(a, i0, b, j0, 0) == if decided then Decided(diff) else Reached(i, j)
  {
    var firstDiff := 0;
    decided, diff, i, j := true, 0, i0, j0;
    while i < |a| && IsDigit(a[i]) && j < |b| && IsDigit(b[j])
      invariant i0 <= i <= |a| && j0 <= j <= |b|
      invariant Digits(a, i0, b, j0, 0) == Digits(a, i, b, j, firstDiff)
    {
      if firstDiff == 0 {
        firstDiff := a[i] as int - b[j] as int;
      }
      i := i + 1;
      j := j + 1;
    }
    if i < |a| && IsDigit(a[i]) {
      diff := 1;
    } else if j < |b| && IsDigit(b[j]) {
      diff := -1;
    } else if firstDiff != 0 {
      diff := firstDiff;
    } else {
      decided := false;
    }
  }

  /** verrevcmp. */
  method VerRevCmpLoop(a: string, b: string) returns (r: int)
    ensures r == VerRevCmp(a, 0, b, 0)
    ensures NulFree(a) && NulFree(b) ==> Sign(r) == PadLex(Key(a, 0), Key(b, 0))
  {
    if NulFree(a) && NulFree(b) {
      VerRevCmpIsKeyOrder(a, 0, b, 0);
    }
    var i, j := 0, 0;
    while i < |a| || j < |b|
      invariant 0 <= i <= |a| && 0 <= j <= |b|
      invariant VerRevCmp(a, 0, b, 0) == VerRevCmp(a, i, b, j)
      decreases |a| - i + |b| - j
    {
      var decided, diff, k, l := NonDigitLoop(a, i, b, j);
      if decided {
        return diff;
      }
      k := ZeroLoop(a, k);
      l := ZeroLoop(b, l);
      decided, diff, k, l := DigitLoop(a, k, b, l);
      if decided {
        return diff;
      }
      i, j := k, l;
    }
    return 0;
  }

  // ---- the order it is meant to be --------------------------------------------------

  /** The number spelled by the digits at `i`, continuing from the value `n`. */
  function Value(s: string, i: nat, n: nat): nat
    requires i <= |s|
    decreases |s| - i
  {
    if DigitAt(s, i) then Value(s, i + 1, 10 * n + (s[i] as int - '0' as int)) else n
  }

  function DigitEnd(s: string, i: nat): (k: nat)
    requires i <= |s|
    ensures i <= k <= |s| && !DigitAt(s, k)
    ensures DigitAt(s, i) ==> i < k
    decreases |s| - i
  {
    if DigitAt(s, i) then DigitEnd(s, i + 1) else i
  }

  /** A version as integers: the rank of each non-digit byte, and for each digit run the
      number 0, which ends the preceding ranks, followed by the run's value. */
  function Key(s: string, i: nat): seq<int>
    requires i <= |s|
    decreases |s| - i
  {
    if i == |s| then []
    else if IsDigit(s[i]) then [0, Value(s, i, 0)] + Key(s, DigitEnd(s, i))
    else [Order(s[i])] + Key(s, i + 1)
  }

  function Head(k: seq<int>): int {
    if k == [] then 0 else k[0]
  }

  function Tail(k: seq<int>): seq<int> {
    if k == [] then [] else k[1..]
  }

  /** Lexicographic comparison, the shorter key being padded with zeros. */
  function PadLex(k: seq<int>, l: seq<int>): int
    decreases |k| + |l|
  {
    if k == [] && l == [] then 0
    else if Head(k) != Head(l) then Sign(Head(k) - Head(l))
    else PadLex(Tail(k), Tail(l))
  }

  lemma {:induction false} PadLexHeads(k: seq<int>, l: seq<int>)
    ensures PadLex(k, l) == if Head(k) != Head(l) then Sign(Head(k) - Head(l)) else PadLex(Tail(k), Tail(l))
  {
  }

  lemma {:induction false} KeyParts(s: string, i: nat)
    requires i <= |s|
    ensures NonDigitAt(s, i) ==> Head(Key(s, i)) == Order(s[i]) && Tail(Key(s, i)) == Key(s, i + 1)
    ensures DigitAt(s, i) ==> Head(Key(s, i)) == 0 && Head(Tail(Key(s, i))) == Value(s, i, 0)
                              && Tail(Tail(Key(s, i))) == Key(s, DigitEnd(s, i))
    ensures i == |s| ==> Key(s, i) == []
  {
  }

  lemma {:induction false} NonDigitsFollowKey(a: string, i: nat, b: string, j: nat)
    requires i <= |a| && j <= |b| && NulFree(a) && NulFree(b)
    ensures var c := NonDigits(a, i, b, j);
            PadLex(Key(a, i), Key(b, j)) ==
            if c.Decided? then Sign(c.diff) else PadLex(Key(a, c.i), Key(b, c.j))
    decreases |a| - i + |b| - j
  {
    if NonDigitAt(a, i) || NonDigitAt(b, j) {
      RanksFollowKey(a, i, b, j);
      if RankAt(a, i) == RankAt(b, j) {
        NonDigitsFollowKey(a, i + 1, b, j + 1);
      }
    }
  }

  /** The ranks under the cursors decide, or both are non-digits and the cursors go on. */
  lemma {:induction false} RanksFollowKey(a: string, i: nat, b: string, j: nat)
    requires i <= |a| && j <= |b| && NulFree(a) && NulFree(b) && (NonDigitAt(a, i) || NonDigitAt(b, j))
    ensures var x, y := RankAt(a, i), RankAt(b, j);
            if x != y then PadLex(Key(a, i), Key(b, j)) == Sign(x - y)
            else
              && NonDigitAt(a, i) && NonDigitAt(b, j)
              && PadLex(Key(a, i), Key(b, j)) == PadLex(Key(a, i + 1), Key(b, j + 1))
  {
    HeadIsRank(a, i);
    HeadIsRank(b, j);
    PadLexHeads(Key(a, i), Key(b, j));
    KeyParts(a, i);
    KeyParts(b, j);
  }

  lemma {:induction false} HeadIsRank(s: string, i: nat)
    requires i <= |s|
    ensures Head(Key(s, i)) == RankAt(s, i)
  {
  }

  lemma {:induction false} ValueSkipsZeros(s: string, i: nat)
    requires i <= |s|
    ensures Value(s, SkipZeros(s, i), 0) == Value(s, i, 0)
    ensures DigitEnd(s, SkipZeros(s, i)) == DigitEnd(s, i)
    decreases |s| - i
  {
    if i < |s| && s[i] == '0' {
      ValueSkipsZeros(s, i + 1);
    }
  }

  lemma {:induction false} ValueGrows(s: string, i: nat, n: nat)
    requires i <= |s|
    ensures Value(s, i, n) >= n
    decreases |s| - i
  {
    if DigitAt(s, i) {
      ValueGrows(s, i + 1, 10 * n + (s[i] as int - '0' as int));
    }
  }

  /** `x` and `y` are what equally many digits of each run have spelled so far, no run
      starting with a zero: then neither is ten times the other. */
  lemma {:induction false} DigitsCompareValues(a: string, i: nat, b: string, j: nat, firstDiff: int, x: nat, y: nat)
    requires i <= |a| && j <= |b|
    requires Sign(firstDiff) == Sign(x - y)
    requires (x == 0 && y == 0 && RankedNonZero(a, i) && RankedNonZero(b, j)) || (10 * x > y && 10 * y > x)
    ensures var c := Digits(a, i, b, j, firstDiff);
            && Sign(Value(a, i, x) - Value(b, j, y)) == (if c.Decided? then Sign(c.diff) else 0)
            && (c.Reached? ==> c.i == DigitEnd(a, i) && c.j == DigitEnd(b, j))
    decreases |a| - i
  {
    if DigitAt(a, i) && DigitAt(b, j) {
      var d, e := a[i] as int - '0' as int, b[j] as int - '0' as int;
      DigitsCompareValues(a, i + 1, b, j + 1, if firstDiff == 0 then a[i] as int - b[j] as int else firstDiff,
                          10 * x + d, 10 * y + e);
    } else if DigitAt(a, i) {
      ValueGrows(a, i + 1, 10 * x + (a[i] as int - '0' as int));
    } else if DigitAt(b, j) {
      ValueGrows(b, j + 1, 10 * y + (b[j] as int - '0' as int));
    }
  }

  predicate RankedNonZero(s: string, i: nat) {
    i < |s| ==> s[i] != '0'
  }

  lemma {:induction false} RoundFollowsKey(a: string, i: nat, b: string, j: nat)
    requires i <= |a| && j <= |b| && (i < |a| || j < |b|) && NulFree(a) && NulFree(b)
    ensures var c := Round(a, i, b, j);
            PadLex(Key(a, i), Key(b, j)) ==
            if c.Decided? then Sign(c.diff) else PadLex(Key(a, c.i), Key(b, c.j))
  {
    NonDigitsFollowKey(a, i, b, j);
    var c := NonDigits(a, i, b, j);
    if c.Reached? {
      DigitsFollowKey(a, c.i, b, c.j);
    }
  }

  lemma {:induction false} DigitsFollowKey(a: string, i: nat, b: string, j: nat)
    requires i <= |a| && j <= |b| && !NonDigitAt(a, i) && !NonDigitAt(b, j)
    ensures var c := Digits(a, SkipZeros(a, i), b, SkipZeros(b, j), 0);
            PadLex(Key(a, i), Key(b, j)) ==
            if c.Decided? then Sign(c.diff) else PadLex(Key(a, c.i), Key(b, c.j))
  {
    RunsFollowKey(a, i, b, j);
    ValueSkipsZeros(a, i);
    ValueSkipsZeros(b, j);
    DigitsCompareValues(a, SkipZeros(a, i), b, SkipZeros(b, j), 0, 0, 0);
  }

  /** Two digit runs, or ends, in key order: their values, then what follows. */
  lemma {:induction false} RunsFollowKey(a: string, i: nat, b: string, j: nat)
    requires i <= |a| && j <= |b| && !NonDigitAt(a, i) && !NonDigitAt(b, j)
    ensures var x, y := Value(a, i, 0), Value(b, j, 0);
            PadLex(Key(a, i), Key(b, j)) ==
            if x != y then Sign(x - y) else PadLex(Key(a, DigitEnd(a, i)), Key(b, DigitEnd(b, j)))
  {
    NumberKey(a, i);
    NumberKey(b, j);
    PadLexAfterZero(Key(a, i), Key(b, j));
  }

  /** At a digit run, or at the end, the key continues with 0 and the run's value. */
  lemma {:induction false} NumberKey(s: string, i: nat)
    requires i <= |s| && !NonDigitAt(s, i)
    ensures Head(Key(s, i)) == 0 && Head(Tail(Key(s, i))) == Value(s, i, 0)
    ensures Tail(Tail(Key(s, i))) == Key(s, DigitEnd(s, i))
  {
    KeyParts(s, i);
  }

  lemma {:induction false} PadLexAfterZero(k: seq<int>, l: seq<int>)
    requires Head(k) == 0 && Head(l) == 0
    ensures PadLex(k, l) == if Head(Tail(k)) != Head(Tail(l)) then Sign(Head(Tail(k)) - Head(Tail(l)))
                            else PadLex(Tail(Tail(k)), Tail(Tail(l)))
  {
    PadLexHeads(k, l);
    PadLexHeads(Tail(k), Tail(l));
  }

  /** On NUL-free strings the loop's result has the sign of the key order. */
  lemma {:induction false} VerRevCmpIsKeyOrder(a: string, i: nat, b: string, j: nat)
    requires i <= |a| && j <= |b| && NulFree(a) && NulFree(b)
    ensures Sign(VerRevCmp(a, i, b, j)) == PadLex(Key(a, i), Key(b, j))
    decreases |a| - i + |b| - j
  {
    if i < |a| || j < |b| {
      RoundFollowsKey(a, i, b, j);
      var c := Round(a, i, b, j);
      if c.Reached? {
        VerRevCmpIsKeyOrder(a, c.i, b, c.j);
      }
    }
  }

  // ---- a total preorder -----------------------------------------------------------------

  lemma {:induction false} PadLexTransitive(k: seq<int>, l: seq<int>, m: seq<int>)
    requires PadLex(k, l) <= 0 && PadLex(l, m) <= 0
    ensures PadLex(k, m) <= 0
    ensures PadLex(k, m) == 0 ==> PadLex(k, l) == 0 && PadLex(l, m) == 0
    decreases |k| + |l| + |m|
  {
    if k != [] || l != [] || m != [] {
      PadLexHeads(k, l);
      PadLexHeads(l, m);
      PadLexHeads(k, m);
      if Head(k) == Head(l) && Head(l) == Head(m) {
        PadLexTransitive(Tail(k), Tail(l), Tail(m));
      }
    }
  }

  // ---- whole versions ---------------------------------------------------------------------

  function Compare(a: string, b: string): int {
    VerRevCmp(a, 0, b, 0)
  }

  function CompareVersions(a: Version, b: Version): int {
    if Compare(a.epoch, b.epoch) != 0 then Sign(Compare(a.epoch, b.epoch))
    else if Compare(a.upstream, b.upstream) != 0 then Sign(Compare(a.upstream, b.upstream))
    else Sign(Compare(a.revision, b.revision))
  }

  /** compareVersionsFallback. */
  function CompareFallback(a: string, b: string): int {
    CompareVersions(SplitVersion(a), SplitVersion(b))
  }

  method CompareVersionsFallback(a: string, b: string) returns (r: int)
    ensures r == CompareFallback(a, b)
  {
    var va, vb := SplitVersion(a), SplitVersion(b);
    var c := VerRevCmpLoop(va.epoch, vb.epoch);
    if c != 0 {
      return Sign(c);
    }
    c := VerRevCmpLoop(va.upstream, vb.upstream);
    if c != 0 {
      return Sign(c);
    }
    c := VerRevCmpLoop(va.revision, vb.revision);
    return Sign(c);
  }

  lemma {:induction false} SplitIsNulFree(v: string)
    requires NulFree(v)
    ensures var s := SplitVersion(v); NulFree(s.epoch) && NulFree(s.upstream) && NulFree(s.revision)
  {
  }

  /** The same outcome seen from the other side. */
  function Swapped(c: Cursors): Cursors {
    if c.Decided? then Decided(-c.diff) else Reached(c.j, c.i)
  }

  lemma {:induction false} NonDigitsSwap(a: string, i: nat, b: string, j: nat)
    requires i <= |a| && j <= |b|
    ensures NonDigits(b, j, a, i) == Swapped(NonDigits(a, i, b, j))
    decreases |a| - i + |b| - j
  {
    if (NonDigitAt(a, i) || NonDigitAt(b, j)) && RankAt(a, i) == RankAt(b, j) {
      NonDigitsSwap(a, Step(a, i), b, Step(b, j));
    }
  }

  lemma {:induction false} DigitsSwap(a: string, i: nat, b: string, j: nat, firstDiff: int)
    requires i <= |a| && j <= |b|
    ensures Digits(b, j, a, i, -firstDiff) == Swapped(Digits(a, i, b, j, firstDiff))
    decreases |a| - i
  {
    if DigitAt(a, i) && DigitAt(b, j) {
      DigitsSwap(a, i + 1, b, j + 1, if firstDiff == 0 then a[i] as int - b[j] as int else firstDiff);
    }
  }

  /** Swapping the arguments negates the result, for any bytes. */
  lemma {:induction false} VerRevCmpSwap(a: string, i: nat, b: string, j: nat)
    requires i <= |a| && j <= |b|
    ensures VerRevCmp(b, j, a, i) == -VerRevCmp(a, i, b, j)
    decreases |a| - i + |b| - j
  {
    if i < |a| || j < |b| {
      NonDigitsSwap(a, i, b, j);
      var c := NonDigits(a, i, b, j);
      if c.Reached? {
        DigitsSwap(a, SkipZeros(a, c.i), b, SkipZeros(b, c.j), 0);
      }
      var round := Round(a, i, b, j);
      assert Round(b, j, a, i) == Swapped(round);
      if round.Reached? {
        VerRevCmpSwap(a, round.i, b, round.j);
      }
    }
  }

  lemma {:induction false} CompareAntisymmetric(a: string, b: string)
    ensures Sign(Compare(a, b)) == -Sign(Compare(b, a))
  {
    VerRevCmpSwap(a, 0, b, 0);
  }

  lemma {:induction false} CompareTransitive(a: string, b: string, c: string)
    requires NulFree(a) && NulFree(b) && NulFree(c)
    requires Compare(a, b) <= 0 && Compare(b, c) <= 0
    ensures Compare(a, c) <= 0
    ensures Compare(a, c) == 0 ==> Compare(a, b) == 0 && Compare(b, c) == 0
  {
    VerRevCmpIsKeyOrder(a, 0, b, 0);
    VerRevCmpIsKeyOrder(b, 0, c, 0);
    VerRevCmpIsKeyOrder(a, 0, c, 0);
    PadLexTransitive(Key(a, 0), Key(b, 0), Key(c, 0));
  }

  /** Swapping the arguments swaps the verdict, so a version equals itself; NUL bytes
      make no difference here. */
  lemma {:induction false} FallbackAntisymmetric(a: string, b: string)
    ensures CompareFallback(a, b) == -CompareFallback(b, a)
  {
    var va, vb := SplitVersion(a), SplitVersion(b);
    CompareAntisymmetric(va.epoch, vb.epoch);
    CompareAntisymmetric(va.upstream, vb.upstream);
    CompareAntisymmetric(va.revision, vb.revision);
  }

  lemma {:induction false} ComponentsTransitive(a: Version, b: Version, c: Version)
    requires forall x :: x in [a, b, c] ==> NulFree(x.epoch) && NulFree(x.upstream) && NulFree(x.revision)
    requires CompareVersions(a, b) <= 0 && CompareVersions(b, c) <= 0
    ensures CompareVersions(a, c) <= 0
  {
    assert a in [a, b, c] && b in [a, b, c] && c in [a, b, c];
    CompareTransitive(a.epoch, b.epoch, c.epoch);
    if Compare(a.epoch, c.epoch) == 0 {
      CompareTransitive(a.upstream, b.upstream, c.upstream);
      if Compare(a.upstream, c.upstream) == 0 {
        CompareTransitive(a.revision, b.revision, c.revision);
      }
    }
  }

  lemma {:induction false} FallbackTransitive(a: string, b: string, c: string)
    requires NulFree(a) && NulFree(b) && NulFree(c)
    requires CompareFallback(a, b) <= 0 && CompareFallback(b, c) <= 0
    ensures CompareFallback(a, c) <= 0
  {
    SplitIsNulFree(a);
    SplitIsNulFree(b);
    SplitIsNulFree(c);
    ComponentsTransitive(SplitVersion(a), SplitVersion(b), SplitVersion(c));
  }

  /** A NUL byte breaks the order: it ranks like a digit and is read past one, so it
      compares equal to two versions that differ. */
  lemma {:induction false} NulBreaksTransitivity()
    ensures CompareFallback("5", "\0") == 0 && CompareFallback("\0", "6") == 0
    ensures CompareFallback("6", "5") > 0
  {
    assert SplitVersion("5") == Version("0", "5", "0");
    assert SplitVersion("6") == Version("0", "6", "0");
    assert SplitVersion("\0") == Version("0", "\0", "0");
  }

  // ---- what the order ignores, and what it does not ------------------------------------------

  /** Inserting zeros before a digit run changes nothing. */
  lemma {:induction false} KeyIgnoresLeadingZero(pre: string, post: string, i: nat)
    requires i <= |pre| && DigitAt(post, 0) && (pre == "" || !IsDigit(pre[|pre| - 1]))
    ensures Key(pre + "0" + post, i) == Key(pre + post, i)
    decreases |pre| - i
  {
    var s, t := pre + "0" + post, pre + post;
    if i == |pre| {
      assert s[i] == '0' && t[i] == post[0] && s[i + 1] == post[0];
      ShiftRun(s, i + 1, t, i, 0);
      ShiftKey(s, DigitEnd(s, i + 1), t, DigitEnd(t, i));
    } else if IsDigit(pre[i]) {
      DigitEndInside(pre, i);
      SameRun(pre, i, "0" + post, 0);
      SameRun(pre, i, post, 0);
      assert pre + "0" + post == pre + ("0" + post);
      KeyIgnoresLeadingZero(pre, post, DigitEnd(pre, i));
    } else {
      KeyIgnoresLeadingZero(pre, post, i + 1);
    }
  }

  lemma {:induction false} DigitEndInside(pre: string, i: nat)
    requires i < |pre| && !IsDigit(pre[|pre| - 1])
    ensures DigitEnd(pre, i) < |pre|
    decreases |pre| - i
  {
    if DigitAt(pre, i) {
      DigitEndInside(pre, i + 1);
    }
  }

  /** A digit run that ends inside `pre` reads the same whatever follows. */
  lemma {:induction false} SameRun(pre: string, i: nat, post: string, n: nat)
    requires i <= |pre| && (DigitEnd(pre, i) < |pre| || !DigitAt(post, 0))
    ensures Value(pre + post, i, n) == Value(pre, i, n)
    ensures DigitEnd(pre + post, i) == DigitEnd(pre, i)
    decreases |pre| - i
  {
    if i < |pre| {
      assert (pre + post)[i] == pre[i];
      if IsDigit(pre[i]) {
        SameRun(pre, i + 1, post, 10 * n + (pre[i] as int - '0' as int));
      }
    } else {
      assert i < |post| + |pre| ==> (pre + post)[i] == post[0];
    }
  }

  lemma {:induction false} ShiftNext(s: string, i: nat, t: string, j: nat)
    requires i < |s| && j <= |t| && s[i..] == t[j..]
    ensures j < |t| && s[i] == t[j] && s[i + 1..] == t[j + 1..]
  {
    assert |s[i..]| == |t[j..]|;
    assert s[i] == s[i..][0] && t[j] == t[j..][0];
    assert s[i + 1..] == s[i..][1..] && t[j + 1..] == t[j..][1..];
  }

  /** Equal remaining text gives equal runs, with equal text after them. */
  lemma {:induction false} ShiftRun(s: string, i: nat, t: string, j: nat, n: nat)
    requires i <= |s| && j <= |t| && s[i..] == t[j..]
    ensures Value(s, i, n) == Value(t, j, n)
    ensures s[DigitEnd(s, i)..] == t[DigitEnd(t, j)..]
    decreases |s| - i
  {
    assert |s[i..]| == |t[j..]|;
    if i < |s| {
      ShiftNext(s, i, t, j);
      if IsDigit(s[i]) {
        ShiftRun(s, i + 1, t, j + 1, 10 * n + (s[i] as int - '0' as int));
      }
    }
  }

  /** ... and equal keys. */
  lemma {:induction false} ShiftKey(s: string, i: nat, t: string, j: nat)
    requires i <= |s| && j <= |t| && s[i..] == t[j..]
    ensures Key(s, i) == Key(t, j)
    decreases |s| - i
  {
    assert |s[i..]| == |t[j..]|;
    if i < |s| {
      ShiftNext(s, i, t, j);
      if IsDigit(s[i]) {
        ShiftRun(s, i, t, j, 0);
        ShiftKey(s, DigitEnd(s, i), t, DigitEnd(t, j));
      } else {
        ShiftKey(s, i + 1, t, j + 1);
      }
    }
  }

  lemma {:induction false} LeadingZeroIsIgnored(pre: string, post: string, other: string)
    requires DigitAt(post, 0) && (pre == "" || !IsDigit(pre[|pre| - 1]))
    requires NulFree(pre) && NulFree(post) && NulFree(other)
    ensures Sign(Compare(pre + "0" + post, other)) == Sign(Compare(pre + post, other))
  {
    KeyIgnoresLeadingZero(pre, post, 0);
    VerRevCmpIsKeyOrder(pre + "0" + post, 0, other, 0);
    VerRevCmpIsKeyOrder(pre + post, 0, other, 0);
  }

  /** A '~' sorts before everything, the end of the string included. */
  lemma {:induction false} TildeSortsFirst(s: string, t: string)
    requires NulFree(s) && NulFree(t)
    ensures Compare(s + "~" + t, s) < 0
  {
    var u := s + ("~" + t);
    assert s + "~" + t == u;
    VerRevCmpIsKeyOrder(u, 0, s, 0);
    TildeKey(s, "~" + t, 0);
  }

  lemma {:induction false} TildeAtEnd(s: string, x: string)
    requires x != "" && x[0] == '~'
    ensures PadLex(Key(s + x, |s|), Key(s, |s|)) == -1
  {
    var u := s + x;
    assert u[|s|] == '~';
    KeyParts(u, |s|);
    PadLexHeads(Key(u, |s|), Key(s, |s|));
  }

  lemma {:induction false} TildeAfterRun(s: string, x: string, i: nat)
    requires i < |s| && IsDigit(s[i]) && x != "" && x[0] == '~'
    ensures PadLex(Key(s + x, i), Key(s, i)) == PadLex(Key(s + x, DigitEnd(s, i)), Key(s, DigitEnd(s, i)))
  {
    var u := s + x;
    assert u[i] == s[i];
    SameRun(s, i, x, 0);
    RunsFollowKey(u, i, s, i);
  }

  lemma {:induction false} TildeKey(s: string, x: string, i: nat)
    requires i <= |s| && x != "" && x[0] == '~'
    ensures PadLex(Key(s + x, i), Key(s, i)) == -1
    decreases |s| - i
  {
    if i == |s| {
      TildeAtEnd(s, x);
    } else if IsDigit(s[i]) {
      TildeAfterRun(s, x, i);
      TildeKey(s, x, DigitEnd(s, i));
    } else {
      assert (s + x)[i] == s[i];
      KeyParts(s + x, i);
      KeyParts(s, i);
      PadLexHeads(Key(s + x, i), Key(s, i));
      TildeKey(s, x, i + 1);
    }
  }
}
