/** Facts about sequences that the other modules' proofs quote by name.

    `At` says that one sequence stands inside another at an index.  The proofs about printed
    text and about token lists use it with an index into the whole text rather than with
    suffixes, since a suffix of a suffix is a new sequence while an index is a number.
    `AtSplit` takes such a statement about a concatenation apart; `Assoc` and `Chain` regroup
    concatenations, each stated by itself so that a proof can name the one regrouping it needs
    instead of leaving the choice among all of them open. */
module Seqs {

  /** `x` stands in `s` at index `i`. */
  ghost predicate At<T>(s: seq<T>, i: nat, x: seq<T>) {
    i + |x| <= |s| && forall k :: 0 <= k < |x| ==> s[i + k] == x[k]
  }

  lemma {:induction false} AtSplit<T>(s: seq<T>, i: nat, x: seq<T>, y: seq<T>)
    requires At(s, i, x + y)
    ensures At(s, i, x) && At(s, i + |x|, y)
  {
    forall k | 0 <= k < |x| ensures s[i + k] == x[k] {
      assert (x + y)[k] == x[k];
    }
    forall k | 0 <= k < |y| ensures s[i + |x| + k] == y[k] {
      assert (x + y)[|x| + k] == y[k];
    }
  }

  lemma {:induction false} Assoc<T>(a: seq<T>, b: seq<T>, c: seq<T>)
    ensures a + b + c == a + (b + c)
  {
  }

  lemma {:induction false} Chain<T>(a: seq<T>, x: seq<T>, b: seq<T>, y: seq<T>, c: seq<T>)
    requires a == x + b && b == y + c
    ensures a == x + y + c
  {
  }

  function Mapped<A, B>(f: A -> B, s: seq<A>): seq<B> {
    if s == [] then [] else Mapped(f, s[..|s| - 1]) + [f(s[|s| - 1])]
  }

  lemma {:induction false} MappedAt<A, B>(f: A -> B, s: seq<A>)
    ensures |Mapped(f, s)| == |s| && forall k :: 0 <= k < |s| ==> Mapped(f, s)[k] == f(s[k])
    decreases |s|
  {
    if s == [] {
    } else {
      MappedAt(f, s[..|s| - 1]);
    }
  }

  lemma {:induction false} MappedMembers<A, B>(f: A -> B, s: seq<A>)
    ensures forall y :: y in Mapped(f, s) <==> exists x :: x in s && f(x) == y
  {
    MappedAt(f, s);
    forall y ensures y in Mapped(f, s) <==> exists x :: x in s && f(x) == y {
      if y in Mapped(f, s) {
        var k :| 0 <= k < |s| && Mapped(f, s)[k] == y;
        assert s[k] in s && f(s[k]) == y;
      }
      if x :| x in s && f(x) == y {
        var k :| 0 <= k < |s| && s[k] == x;
        assert Mapped(f, s)[k] == y;
      }
    }
  }
}
