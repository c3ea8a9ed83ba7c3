/** Which entry names land on one file (core/bundle/tar.go:309-327). */
module BundleCollisions {
  import opened EntryPath

  /** `t` is `s` without the dots and spaces at its end. */
  predicate Trimmed(s: string, t: string) {
    && t <= s && (forall i :: |t| <= i < |s| ==> s[i] == '.' || s[i] == ' ')
    && (t != "" ==> t[|t| - 1] != '.' && t[|t| - 1] != ' ')
  }

  lemma {:induction false} TrimIsTrimmed(s: string)
    ensures Trimmed(s, TrimRightDots(s))
    decreases |s|
  {
    if s != "" && (s[|s| - 1] == '.' || s[|s| - 1] == ' ') {
      TrimIsTrimmed(s[..|s| - 1]);
    }
  }

  lemma {:induction false} NotLonger(s: string, t: string, u: string)
    requires Trimmed(s, t) && Trimmed(s, u)
    ensures |u| <= |t|
  {
    if u != "" {
      assert u[|u| - 1] == s[|u| - 1];
    }
  }

  lemma {:induction false} TrimmedIsOne(s: string, t: string, u: string)
    requires Trimmed(s, t) && Trimmed(s, u)
    ensures t == u
  {
    NotLonger(s, t, u);
    NotLonger(s, u, t);
  }

  /** Two components are one name to a file system that folds letters and drops dots and spaces
      at the end. */
  ghost predicate SameName(lower: string -> string, c: string, d: string) {
    exists t, u :: Trimmed(c, t) && Trimmed(d, u) && lower(t) == lower(u)
  }

  lemma {:induction false} SameNameIs(lower: string -> string, c: string, d: string)
    ensures SameName(lower, c, d) <==> lower(TrimRightDots(c)) == lower(TrimRightDots(d))
  {
    TrimIsTrimmed(c);
    TrimIsTrimmed(d);
    if SameName(lower, c, d) {
      var t, u :| Trimmed(c, t) && Trimmed(d, u) && lower(t) == lower(u);
      TrimmedIsOne(c, t, TrimRightDots(c));
      TrimmedIsOne(d, u, TrimRightDots(d));
    }
  }

  /** Two paths are one file there: the same number of components, each the same name. */
  ghost predicate SameFile(lower: string -> string, a: string, b: string) {
    && |Split(a)| == |Split(b)|
    && forall i :: 0 <= i < |Split(a)| ==> SameName(lower, Split(a)[i], Split(b)[i])
  }

  ghost predicate KeepsSlashless(lower: string -> string) {
    forall s :: '/' !in s ==> '/' !in lower(s)
  }

  function Folded(lower: string -> string, parts: seq<string>): seq<string> {
    seq(|parts|, i requires 0 <= i < |parts| => lower(TrimRightDots(parts[i])))
  }

  lemma {:induction false} FoldedIsSlashless(lower: string -> string, rel: string)
    requires KeepsSlashless(lower)
    ensures Slashless(Folded(lower, Split(rel))) && Folded(lower, Split(rel)) != []
    ensures CollisionKey(lower, rel) == Join(Folded(lower, Split(rel)))
  {
    var parts := Split(rel);
    SplitIsSlashless(rel);
    forall i | 0 <= i < |parts| ensures '/' !in Folded(lower, parts)[i] {
      TrimIsTrimmed(parts[i]);
      assert '/' !in parts[i];
      assert '/' !in TrimRightDots(parts[i]);
    }
  }

  /** Two paths have one key if and only if they are one file. */
  lemma {:induction false} KeysCollideExactly(lower: string -> string, a: string, b: string)
    requires KeepsSlashless(lower)
    ensures CollisionKey(lower, a) == CollisionKey(lower, b) <==> SameFile(lower, a, b)
  {
    var x, y := Folded(lower, Split(a)), Folded(lower, Split(b));
    FoldedIsSlashless(lower, a);
    FoldedIsSlashless(lower, b);
    SplitOfJoin(x);
    SplitOfJoin(y);
    assert CollisionKey(lower, a) == CollisionKey(lower, b) <==> x == y;
    if |Split(a)| == |Split(b)| {
      forall i | 0 <= i < |x| ensures x[i] == y[i] <==> SameName(lower, Split(a)[i], Split(b)[i]) {
        SameNameIs(lower, Split(a)[i], Split(b)[i]);
      }
    }
  }
}
