/** Leading zeros in whole versions (core/apt/dpkgversion.go:41-75, 119-124). */
module VersionZeros {
  import opened VersionParts
  import opened VersionOrder

  /** `y` is `x` with a zero put before the digit run at `i`. */
  predicate PaddedAt(x: string, y: string, i: nat) {
    && i < |x| && IsDigit(x[i]) && (i == 0 || !IsDigit(x[i - 1]))
    && y == x[..i] + "0" + x[i..]
  }

  /** `y` is `x`, or `x` with such a zero. */
  ghost predicate MaybePadded(x: string, y: string) {
    y == x || exists i :: 0 <= i < |x| && PaddedAt(x, y, i)
  }

  lemma {:induction false} PaddedBytes(x: string, y: string, i: nat, k: nat)
    requires PaddedAt(x, y, i)
    ensures |y| == |x| + 1
    ensures k < i ==> y[k] == x[k]
    ensures k == i ==> y[k] == '0'
    ensures i < k < |y| ==> y[k] == x[k - 1]
  {
  }

  lemma {:induction false} PaddedCompares(x: string, y: string, other: string)
    requires MaybePadded(x, y) && NulFree(x) && NulFree(other)
    ensures Sign(Compare(y, other)) == Sign(Compare(x, other))
  {
    if y != x {
      var i :| 0 <= i < |x| && PaddedAt(x, y, i);
      assert x[..i] + x[i..] == x;
      LeadingZeroIsIgnored(x[..i], x[i..], other);
    }
  }

  // ---- where the separators stand ---------------------------------------------------

  lemma {:induction false} PaddedColon(x: string, y: string, i: nat)
    requires PaddedAt(x, y, i)
    ensures FindColon(x, 0) != i
    ensures FindColon(y, 0) == if FindColon(x, 0) < i then FindColon(x, 0) else FindColon(x, 0) + 1
  {
    var c := FindColon(x, 0);
    var k := if c < i then c else c + 1;
    PaddedBytes(x, y, i, k);
    forall j | 0 <= j < k ensures y[j] != ':' {
      PaddedBytes(x, y, i, j);
      if j != i {
        NoColonBefore(x, 0, if j < i then j else j - 1);
      }
    }
    ColonIs(y, 0, k);
  }

  lemma {:induction false} PaddedDash(x: string, y: string, i: nat)
    requires PaddedAt(x, y, i)
    ensures |y| == |x| + 1
    ensures var d := AfterLastDash(x, |x|);
            d != i + 1 && AfterLastDash(y, |y|) == if d <= i then d else d + 1
  {
    var d := AfterLastDash(x, |x|);
    var k := if d <= i then d else d + 1;
    PaddedBytes(x, y, i, if k > 0 then k - 1 else 0);
    forall j | k <= j < |y| ensures y[j] != '-' {
      PaddedBytes(x, y, i, j);
      if j != i {
        NoDashAfter(x, |x|, if j < i then j else j - 1);
      }
    }
    DashIs(y, |y|, k);
  }

  // ---- the parts of a padded version ---------------------------------------------------

  lemma {:induction false} PaddedHead(x: string, y: string, i: nat, k: nat)
    requires PaddedAt(x, y, i) && i < k < |x|
    ensures |y| == |x| + 1 && PaddedAt(x[..k], y[..k + 1], i) && y[k + 2..] == x[k + 1..]
  {
    assert x[..k][..i] == x[..i] && x[..k][i..] == x[i..k];
    assert y[..k + 1] == x[..i] + "0" + x[i..k];
  }

  lemma {:induction false} PaddedTail(x: string, y: string, i: nat, k: nat)
    requires PaddedAt(x, y, i) && k < i
    ensures |y| == |x| + 1 && y[..k] == x[..k] && PaddedAt(x[k + 1..], y[k + 1..], i - k - 1)
  {
    var u := x[k + 1..];
    assert u[..i - k - 1] == x[k + 1..i] && u[i - k - 1..] == x[i..];
    assert y[k + 1..] == x[k + 1..i] + "0" + x[i..];
  }

  /** Cutting both at one separator leaves the zero in one of the two parts. */
  lemma {:induction false} PaddedCut(x: string, y: string, i: nat, k: nat, l: nat)
    requires PaddedAt(x, y, i) && k < |x| && k != i && l == if k < i then k else k + 1
    ensures l < |y| && MaybePadded(x[..k], y[..l]) && MaybePadded(x[k + 1..], y[l + 1..])
  {
    if k < i {
      PaddedTail(x, y, i, k);
    } else {
      PaddedHead(x, y, i, k);
    }
  }

  lemma {:induction false} PaddedDashCut(x: string, y: string, i: nat, d: nat, e: nat)
    requires PaddedAt(x, y, i) && 0 < d <= |x| && d != i + 1 && e == if d <= i then d else d + 1
    ensures e <= |y| && MaybePadded(x[..d - 1], y[..e - 1]) && MaybePadded(x[d..], y[e..])
  {
    PaddedCut(x, y, i, d - 1, e - 1);
  }

  lemma {:induction false} PaddedRest(x: string, y: string)
    requires MaybePadded(x, y)
    ensures MaybePadded(Upstream(x), Upstream(y)) && MaybePadded(Revision(x), Revision(y))
  {
    if y != x {
      var i :| 0 <= i < |x| && PaddedAt(x, y, i);
      PaddedRestAt(x, y, i, AfterLastDash(x, |x|), AfterLastDash(y, |y|));
    }
  }

  lemma {:induction false} PaddedRestAt(x: string, y: string, i: nat, d: nat, e: nat)
    requires PaddedAt(x, y, i) && d == AfterLastDash(x, |x|) && e == AfterLastDash(y, |y|)
    ensures MaybePadded(Upstream(x), Upstream(y)) && MaybePadded(Revision(x), Revision(y))
  {
    PaddedDash(x, y, i);
    if d > 0 {
      PaddedDashCut(x, y, i, d, e);
    } else {
      assert Upstream(x) == x && Upstream(y) == y && Revision(x) == Revision(y) == "0";
    }
  }

  lemma {:induction false} PaddedEpoch(x: string, y: string, i: nat)
    requires PaddedAt(x, y, i)
    ensures MaybePadded(Epoch(x), Epoch(y)) && MaybePadded(AfterEpoch(x), AfterEpoch(y))
  {
    PaddedColon(x, y, i);
    PaddedBytes(x, y, i, 0);
    var c := FindColon(x, 0);
    if c < |x| {
      PaddedCut(x, y, i, c, FindColon(y, 0));
    }
  }

  lemma {:induction false} PaddedVersion(x: string, y: string, i: nat)
    requires PaddedAt(x, y, i)
    ensures var v, w := SplitVersion(x), SplitVersion(y);
            && MaybePadded(v.epoch, w.epoch) && MaybePadded(v.upstream, w.upstream)
            && MaybePadded(v.revision, w.revision)
  {
    PaddedEpoch(x, y, i);
    PaddedRest(AfterEpoch(x), AfterEpoch(y));
  }

  lemma {:induction false} PartsDoNotMatter(v: Version, w: Version, o: Version)
    requires MaybePadded(v.epoch, w.epoch) && MaybePadded(v.upstream, w.upstream) && MaybePadded(v.revision, w.revision)
    requires NulFree(v.epoch) && NulFree(v.upstream) && NulFree(v.revision)
    requires NulFree(o.epoch) && NulFree(o.upstream) && NulFree(o.revision)
    ensures CompareVersions(w, o) == CompareVersions(v, o)
  {
    PaddedCompares(v.epoch, w.epoch, o.epoch);
    PaddedCompares(v.upstream, w.upstream, o.upstream);
    PaddedCompares(v.revision, w.revision, o.revision);
  }

  /** Putting a zero before any digit run of a version, in whichever part it stands, changes
      no verdict. */
  lemma {:induction false} ZerosDoNotMatter(x: string, y: string, i: nat, other: string)
    requires PaddedAt(x, y, i) && NulFree(x) && NulFree(other)
    ensures CompareFallback(y, other) == CompareFallback(x, other)
  {
    PaddedVersion(x, y, i);
    SplitIsNulFree(x);
    SplitIsNulFree(other);
    PartsDoNotMatter(SplitVersion(x), SplitVersion(y), SplitVersion(other));
  }
}
