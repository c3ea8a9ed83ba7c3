/** Taking a version apart (core/apt/dpkgversion.go:59-75). */
module VersionParts {

  /** Index of the first ':' at or after `i`, or |v|. */
  function FindColon(v: string, i: nat): (k: nat)
    requires i <= |v|
    ensures i <= k <= |v|
    ensures k < |v| ==> v[k] == ':'
    decreases |v| - i
  {
    if i == |v| || v[i] == ':' then i else FindColon(v, i + 1)
  }

  /** One more than the index of the last '-' before `n`, or 0. */
  function AfterLastDash(v: string, n: nat): (k: nat)
    requires n <= |v|
    ensures k <= n
    ensures k > 0 ==> v[k - 1] == '-'
  {
    if n == 0 || v[n - 1] == '-' then n else AfterLastDash(v, n - 1)
  }

  datatype Version = Version(epoch: string, upstream: string, revision: string)

  /** The parts before and after the first colon, and "0" for an absent epoch. */
  function Epoch(v: string): string {
    var c := FindColon(v, 0);
    if c < |v| then v[..c] else "0"
  }

  function AfterEpoch(v: string): string {
    var c := FindColon(v, 0);
    if c < |v| then v[c + 1..] else v
  }

  /** The parts before and after the last dash, and "0" for an absent revision. */
  function Upstream(rest: string): string {
    var d := AfterLastDash(rest, |rest|);
    if d > 0 then rest[..d - 1] else rest
  }

  function Revision(rest: string): string {
    var d := AfterLastDash(rest, |rest|);
    if d > 0 then rest[d..] else "0"
  }

  /** splitEpoch followed by splitRevision. */
  function SplitVersion(v: string): Version {
    Version(Epoch(v), Upstream(AfterEpoch(v)), Revision(AfterEpoch(v)))
  }

  // ---- where the separators stand ---------------------------------------------------

  lemma {:induction false} ColonIs(v: string, i: nat, k: nat)
    requires i <= k <= |v| && (k < |v| ==> v[k] == ':') && forall j :: i <= j < k ==> v[j] != ':'
    ensures FindColon(v, i) == k
    decreases k - i
  {
    if i < k {
      ColonIs(v, i + 1, k);
    }
  }

  lemma {:induction false} NoColonBefore(v: string, i: nat, j: nat)
    requires i <= |v| && i <= j < FindColon(v, i)
    ensures v[j] != ':'
    decreases j - i
  {
    if i < j {
      NoColonBefore(v, i + 1, j);
    }
  }

  lemma {:induction false} DashIs(v: string, n: nat, k: nat)
    requires k <= n <= |v| && (k > 0 ==> v[k - 1] == '-') && forall j :: k <= j < n ==> v[j] != '-'
    ensures AfterLastDash(v, n) == k
    decreases n
  {
    if k < n {
      DashIs(v, n - 1, k);
    }
  }

  lemma {:induction false} NoDashAfter(v: string, n: nat, j: nat)
    requires n <= |v| && AfterLastDash(v, n) <= j < n
    ensures v[j] != '-'
    decreases n
  {
    if j < n - 1 {
      NoDashAfter(v, n - 1, j);
    }
  }

  lemma {:induction false} EpochOf(epoch: string, rest: string, s: string)
    requires ':' !in epoch && s == epoch + ":" + rest
    ensures Epoch(s) == epoch && AfterEpoch(s) == rest
  {
    assert s[|epoch|] == ':';
    forall j | 0 <= j < |epoch| ensures s[j] != ':' {
      assert s[j] == epoch[j];
    }
    ColonIs(s, 0, |epoch|);
  }

  lemma {:induction false} RestOf(upstream: string, revision: string, rest: string)
    requires '-' !in revision && rest == upstream + "-" + revision
    ensures Upstream(rest) == upstream && Revision(rest) == revision
  {
    var d := |upstream| + 1;
    assert rest[d - 1] == '-';
    forall j | d <= j < |rest| ensures rest[j] != '-' {
      assert rest[j] == revision[j - d];
    }
    DashIs(rest, |rest|, d);
  }

  lemma {:induction false} NoEpoch(v: string)
    requires ':' !in v
    ensures Epoch(v) == "0" && AfterEpoch(v) == v
  {
    ColonIs(v, 0, |v|);
  }

  lemma {:induction false} NoRevision(rest: string)
    requires '-' !in rest
    ensures Upstream(rest) == rest && Revision(rest) == "0"
  {
    DashIs(rest, |rest|, 0);
  }

  // ---- absent parts ---------------------------------------------------------------------

  /** An absent epoch is epoch 0. */
  lemma {:induction false} AbsentEpochIsZero(v: string)
    requires ':' !in v
    ensures SplitVersion("0:" + v) == SplitVersion(v)
  {
    assert "0:" + v == "0" + ":" + v;
    EpochOf("0", v, "0:" + v);
    NoEpoch(v);
  }

  /** An absent revision is revision 0, for a version without epoch and for any epoch. */
  lemma {:induction false} AbsentRevisionIsZero(epoch: string, upstream: string)
    requires '-' !in upstream && ':' !in epoch
    ensures SplitVersion(epoch + ":" + (upstream + "-0")) == SplitVersion(epoch + ":" + upstream)
    ensures ':' !in upstream ==> SplitVersion(upstream + "-0") == SplitVersion(upstream)
  {
    var rest := upstream + "-0";
    assert rest == upstream + "-" + "0";
    RestOf(upstream, "0", rest);
    NoRevision(upstream);
    EpochOf(epoch, rest, epoch + ":" + rest);
    EpochOf(epoch, upstream, epoch + ":" + upstream);
    if ':' !in upstream {
      NoEpoch(upstream);
      NoEpoch(rest);
    }
  }
}
