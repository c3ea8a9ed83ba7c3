/** Which whole versions with a NUL byte the comparison still orders consistently
    (core/apt/dpkgversion.go:41-144). */
module VersionWhole {
  // A part is only looked at where the parts before it tie.  A part whose first NUL does not
  // directly follow a digit puts two NUL-free strings in the wrong order, and versions made of
  // ties with the parts before it and of that pair are in the wrong order themselves.  Nothing
  // NUL-free ties with a part whose text from its first NUL on compares other than nothing does,
  // so what stands behind such a part is never looked at and can do no harm.

  import opened VersionParts
  import opened VersionOrder
  import opened VersionNul

  /** NUL-free versions below and above `v` are in order. */
  ghost predicate VersionOrdersThrough(v: string) {
    forall a, c ::
      NulFree(a) && IsBytes(a) && NulFree(c) && IsBytes(c) && CompareFallback(a, v) <= 0 && CompareFallback(v, c) <= 0
      ==> CompareFallback(a, c) <= 0
  }

  /** What follows the first NUL of `x`, if it has one, compares as nothing does. */
  predicate Ties(x: string) {
    forall m :: 0 <= m < |x| && FirstNulAt(x, m) ==> VerRevCmp("", 0, x, m) == 0
  }

  /** In each part that is looked at, the first NUL, if there is one, directly follows a digit. */
  predicate Harmless(v: Version) {
    && NulAfterDigit(v.epoch)
    && (Ties(v.epoch) ==>
          && NulAfterDigit(v.upstream)
          && (Ties(v.upstream) ==> NulAfterDigit(v.revision)))
  }

  // ---- what ties with a part -------------------------------------------------------

  lemma {:induction false} SelfTies(x: string)
    ensures Compare(x, x) == 0
  {
    VerRevCmpSwap(x, 0, x, 0);
  }

  lemma {:induction false} FirstNulCuts(x: string, m: nat)
    requires NulAfterDigit(x) && FirstNulAt(x, m)
    ensures Cut(x[..m], x)
  {
  }

  /** Nothing NUL-free ties with a part that does not. */
  lemma {:induction false} OnlyTiesTie(a: string, x: string)
    requires NulFree(a) && NulAfterDigit(x) && Compare(a, x) == 0
    ensures Ties(x)
  {
    forall m | 0 <= m < |x| && FirstNulAt(x, m) ensures VerRevCmp("", 0, x, m) == 0 {
      FirstNulCuts(x, m);
      CutDecides(a, 0, x[..m], 0, x);
      CutTies(a, 0, x[..m], 0, x);
    }
  }

  /** Something NUL-free, of the part's own bytes, ties with a part that does. */
  lemma {:induction false} TieOf(x: string) returns (t: string)
    requires NulAfterDigit(x) && Ties(x) && IsBytes(x)
    ensures NulFree(t) && IsBytes(t) && Compare(t, x) == 0 && Compare(x, t) == 0
    ensures forall k :: 0 <= k < |t| ==> t[k] in x
  {
    if NulFree(x) {
      t := x;
      SelfTies(x);
    } else {
      var m := FindFirstNul(x, 0);
      t := x[..m];
      FirstNulCuts(x, m);
      SelfTies(t);
      CutTies(t, 0, t, 0, x);
    }
    VerRevCmpSwap(t, 0, x, 0);
  }

  // ---- harmless versions ----------------------------------------------------------------

  /** NUL-free versions are in order through a harmless one. */
  lemma {:induction false} FallbackOrdersThrough(a: string, v: string, c: string)
    requires NulFree(a) && NulFree(c) && Harmless(SplitVersion(v))
    requires CompareFallback(a, v) <= 0 && CompareFallback(v, c) <= 0
    ensures CompareFallback(a, c) <= 0
  {
    SplitIsNulFree(a);
    SplitIsNulFree(c);
    var x, s, y := SplitVersion(a), SplitVersion(v), SplitVersion(c);
    BetweenNulFree(x.epoch, s.epoch, y.epoch);
    if Compare(x.epoch, y.epoch) == 0 {
      OnlyTiesTie(x.epoch, s.epoch);
      BetweenNulFree(x.upstream, s.upstream, y.upstream);
      if Compare(x.upstream, y.upstream) == 0 {
        OnlyTiesTie(x.upstream, s.upstream);
        BetweenNulFree(x.revision, s.revision, y.revision);
      }
    }
  }

  // ---- harmful versions ------------------------------------------------------------------

  function Built(v: Version): string {
    v.epoch + ":" + (v.upstream + "-" + v.revision)
  }

  /** A version built from parts splits into them. */
  lemma {:induction false} BuiltSplits(v: Version)
    requires ':' !in v.epoch && '-' !in v.revision
    ensures SplitVersion(Built(v)) == v
  {
    var rest := v.upstream + "-" + v.revision;
    EpochOf(v.epoch, rest, Built(v));
    RestOf(v.upstream, v.revision, rest);
  }

  lemma {:induction false} PartsAreClean(v: string)
    requires IsBytes(v)
    ensures var s := SplitVersion(v);
            && IsBytes(s.epoch) && IsBytes(s.upstream) && IsBytes(s.revision)
            && ':' !in s.epoch && '-' !in s.revision
  {
    EpochIsClean(v);
    RevisionIsClean(AfterEpoch(v));
  }

  lemma {:induction false} EpochIsClean(v: string)
    requires IsBytes(v)
    ensures IsBytes(Epoch(v)) && ':' !in Epoch(v) && IsBytes(AfterEpoch(v))
  {
    var c := FindColon(v, 0);
    forall j | 0 <= j < c ensures v[j] != ':' {
      NoColonBefore(v, 0, j);
    }
  }

  lemma {:induction false} RevisionIsClean(rest: string)
    requires IsBytes(rest)
    ensures IsBytes(Upstream(rest)) && IsBytes(Revision(rest)) && '-' !in Revision(rest)
  {
    var d := AfterLastDash(rest, |rest|);
    forall j | d <= j < |rest| ensures rest[j] != '-' {
      NoDashAfter(rest, |rest|, j);
    }
  }

  predicate Plain(s: string) {
    NulFree(s) && IsBytes(s)
  }

  /** The parts of a NUL-free version of bytes, that splits into the parts it was built from. */
  predicate Buildable(v: Version) {
    Plain(v.epoch) && Plain(v.upstream) && Plain(v.revision) && ':' !in v.epoch && '-' !in v.revision
  }

  lemma {:induction false} PlainWith(s: string, c: char, t: string)
    requires Plain(s) && Plain(t) && c != '\0' && c as int < 256
    ensures Plain(s + [c] + t)
  {
  }

  lemma {:induction false} BuiltIsPlain(v: Version)
    requires Buildable(v)
    ensures Plain(Built(v)) && SplitVersion(Built(v)) == v
  {
    PlainWith(v.upstream, '-', v.revision);
    PlainWith(v.epoch, ':', v.upstream + "-" + v.revision);
    BuiltSplits(v);
  }

  /** Parts that `v` puts in the wrong order make versions that it does. */
  lemma {:induction false} WrongOrder(v: string, x: Version, y: Version)
    requires Buildable(x) && Buildable(y)
    requires CompareVersions(x, SplitVersion(v)) <= 0 && CompareVersions(SplitVersion(v), y) <= 0
    requires CompareVersions(x, y) > 0
    ensures !VersionOrdersThrough(v)
  {
    BuiltIsPlain(x);
    BuiltIsPlain(y);
    NotThrough(v, Built(x), Built(y));
  }

  lemma {:induction false} NotThrough(v: string, a: string, c: string)
    requires Plain(a) && Plain(c)
    requires CompareFallback(a, v) <= 0 && CompareFallback(v, c) <= 0 && CompareFallback(a, c) > 0
    ensures !VersionOrdersThrough(v)
  {
  }

  /** The wrong pair of one part, and the bytes it is made of. */
  lemma {:induction false} WrongPair(x: string) returns (a: string, c: string)
    requires !NulAfterDigit(x) && IsBytes(x)
    ensures NulFree(a) && IsBytes(a) && NulFree(c) && IsBytes(c)
    ensures Compare(a, x) < 0 && Compare(x, c) < 0 && Compare(a, c) > 0
    ensures (':' !in x ==> ':' !in a && ':' !in c) && ('-' !in x ==> '-' !in a && '-' !in c)
  {
    var m :| 0 <= m < |x| && FirstNulAt(x, m) && !EndsInDigit(x[..m]);
    a, c := LinedUp(x, m);
  }

  lemma {:induction false} HarmInEpoch(v: string, s: Version)
    requires IsBytes(v) && s == SplitVersion(v) && !NulAfterDigit(s.epoch)
    ensures !VersionOrdersThrough(v)
  {
    PartsAreClean(v);
    var a, c := WrongPair(s.epoch);
    WrongOrder(v, Version(a, "", ""), Version(c, "", ""));
  }

  lemma {:induction false} HarmInUpstream(v: string, s: Version)
    requires IsBytes(v) && s == SplitVersion(v)
    requires NulAfterDigit(s.epoch) && Ties(s.epoch) && !NulAfterDigit(s.upstream)
    ensures !VersionOrdersThrough(v)
  {
    PartsAreClean(v);
    var t := TieOf(s.epoch);
    var a, c := WrongPair(s.upstream);
    SelfTies(t);
    WrongOrder(v, Version(t, a, ""), Version(t, c, ""));
  }

  lemma {:induction false} HarmInRevision(v: string, s: Version)
    requires IsBytes(v) && s == SplitVersion(v) && NulAfterDigit(s.epoch) && Ties(s.epoch)
    requires NulAfterDigit(s.upstream) && Ties(s.upstream) && !NulAfterDigit(s.revision)
    ensures !VersionOrdersThrough(v)
  {
    PartsAreClean(v);
    var t := TieOf(s.epoch);
    var u := TieOf(s.upstream);
    var a, c := WrongPair(s.revision);
    SelfTies(t);
    SelfTies(u);
    WrongOrder(v, Version(t, u, a), Version(t, u, c));
  }

  // ---- exactly ------------------------------------------------------------------------------

  /** NUL-free versions are in order through `v` if and only if `v` is harmless: its first NUL
      directly follows a digit in the epoch, in the upstream version where the epoch can tie,
      and in the revision where both can. */
  lemma {:induction false} VersionOrderedExactly(v: string)
    requires IsBytes(v)
    ensures VersionOrdersThrough(v) <==> Harmless(SplitVersion(v))
  {
    var s := SplitVersion(v);
    if Harmless(s) {
      forall a, c | NulFree(a) && NulFree(c) && CompareFallback(a, v) <= 0 && CompareFallback(v, c) <= 0
        ensures CompareFallback(a, c) <= 0
      {
        FallbackOrdersThrough(a, v, c);
      }
    } else if !NulAfterDigit(s.epoch) {
      HarmInEpoch(v, s);
    } else if !NulAfterDigit(s.upstream) {
      HarmInUpstream(v, s);
    } else {
      HarmInRevision(v, s);
    }
  }

  /** The first NUL of the whole string says too little: here it follows a digit, in an epoch
      that ties, and the one in the upstream version breaks the order. */
  lemma {:induction false} NulInTheNextPart(a: string, v: string, c: string)
    requires a == "5:6" && v == "5\0:\0" && c == "5:5"
    ensures NulAfterDigit(v)
    ensures CompareFallback(a, v) == 0 && CompareFallback(v, c) == 0 && CompareFallback(a, c) > 0
  {
    PartsSplit(a, v, c);
    PartsCompare(SplitVersion(a), SplitVersion(v), SplitVersion(c));
    FirstIsAtOne(v);
  }

  lemma {:induction false} PartsSplit(a: string, v: string, c: string)
    requires a == "5:6" && v == "5\0:\0" && c == "5:5"
    ensures SplitVersion(a) == Version("5", "6", "0") && SplitVersion(c) == Version("5", "5", "0")
    ensures SplitVersion(v) == Version("5\0", "\0", "0")
  {
    SplitsWithout(a, "5", "6");
    SplitsWithout(v, "5\0", "\0");
    SplitsWithout(c, "5", "5");
  }

  lemma {:induction false} PartsCompare(x: Version, s: Version, y: Version)
    requires x == Version("5", "6", "0") && s == Version("5\0", "\0", "0") && y == Version("5", "5", "0")
    ensures CompareVersions(x, s) == 0 && CompareVersions(s, y) == 0 && CompareVersions(x, y) > 0
  {
    SelfTies("0");
    SelfTies("5");
    NulTies(x.epoch, s.epoch);
    DigitTiesNul(x.upstream, s.upstream);
    DigitTiesNul(y.upstream, s.upstream);
    FiveBelow(x.upstream, y.upstream);
  }

  lemma {:induction false} FirstIsAtOne(v: string)
    requires v == "5\0:\0"
    ensures NulAfterDigit(v)
  {
    forall m | 0 <= m < |v| && FirstNulAt(v, m) ensures EndsInDigit(v[..m]) {
      assert v[0] == '5' && v[1] == '\0';
      assert forall j :: 0 <= j < m ==> v[..m][j] == v[j];
    }
  }

  lemma {:induction false} SplitsWithout(v: string, epoch: string, upstream: string)
    requires v == epoch + ":" + upstream && ':' !in epoch && '-' !in upstream
    ensures SplitVersion(v) == Version(epoch, upstream, "0")
  {
    EpochOf(epoch, upstream, v);
    NoRevision(upstream);
  }

  /** A NUL at the end, after a digit. */
  lemma {:induction false} NulTies(p: string, v: string)
    requires p == "5" && v == "5\0"
    ensures Compare(p, v) == 0 && Compare(v, p) == 0
  {
    assert Digits(p, 0, v, 0, 0) == Digits(p, 1, v, 1, 0);
    assert Round(p, 0, v, 0) == Reached(1, 1);
    assert NonDigits(p, 1, v, 1) == NonDigits(p, 1, v, 2);
    assert Round(p, 1, v, 1) == Reached(1, 2);
    assert VerRevCmp(p, 1, v, 1) == VerRevCmp(p, 1, v, 2) == 0;
    VerRevCmpSwap(p, 0, v, 0);
  }

  lemma {:induction false} DigitTiesNul(d: string, z: string)
    requires |d| == 1 && IsDigit(d[0]) && z == "\0"
    ensures Compare(d, z) == 0 && Compare(z, d) == 0
  {
    assert NonDigits(d, 0, z, 0) == NonDigits(d, 1, z, 1);
    assert Round(d, 0, z, 0) == Reached(1, 1);
    VerRevCmpSwap(d, 0, z, 0);
  }

  lemma {:induction false} FiveBelow(a: string, c: string)
    requires a == "6" && c == "5"
    ensures Compare(a, c) > 0
  {
    assert Digits(a, 0, c, 0, 0) == Digits(a, 1, c, 1, 1) == Decided(1);
    assert Round(a, 0, c, 0) == Decided(1);
  }
}
