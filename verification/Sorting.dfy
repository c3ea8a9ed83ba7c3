/** The library sorts the source calls, as sorted permutations, and the fact that makes
    sorted output independent of input order.

    `Sort` is an insertion sort by any comparison that is total and transitive.  What is used
    of it is that the result is sorted, that it is a permutation of its input, that it keeps
    elements distinct, and that two inputs with the same elements sort to the same list when no
    two different elements tie.  `StringLe` is the order of Go's strings, for which all of this
    is established once; sort.Slice and sort.SliceStable with a less function are `Sort` with
    the corresponding comparison. */
module Sorting {

  /** A comparison one can sort by. */
  ghost predicate Ordering<T(!new)>(le: (T, T) -> bool) {
    && (forall a, b :: le(a, b) || le(b, a))
    && (forall a, b, c :: le(a, b) && le(b, c) ==> le(a, c))
  }

  /** No two different elements of `s` tie. */
  ghost predicate NoTies<T>(le: (T, T) -> bool, s: seq<T>) {
    forall a, b :: a in s && b in s && le(a, b) && le(b, a) ==> a == b
  }

  predicate Sorted<T>(le: (T, T) -> bool, s: seq<T>) {
    forall i, j :: 0 <= i < j < |s| ==> le(s[i], s[j])
  }

  function Insert<T>(le: (T, T) -> bool, x: T, s: seq<T>): seq<T> {
    if s == [] || le(x, s[0]) then [x] + s else [s[0]] + Insert(le, x, s[1..])
  }

  /** sort.Slice, sort.Strings. */
  function Sort<T>(le: (T, T) -> bool, s: seq<T>): seq<T> {
    if s == [] then [] else Insert(le, s[0], Sort(le, s[1..]))
  }

  lemma {:induction false} InsertIsPermutation<T>(le: (T, T) -> bool, x: T, s: seq<T>)
    ensures multiset(Insert(le, x, s)) == multiset(s) + multiset{x}
  {
    if !(s == [] || le(x, s[0])) {
      InsertIsPermutation(le, x, s[1..]);
      assert s == [s[0]] + s[1..];
    }
  }

  lemma {:induction false} SortIsPermutation<T>(le: (T, T) -> bool, s: seq<T>)
    ensures multiset(Sort(le, s)) == multiset(s)
    ensures forall x :: x in Sort(le, s) <==> x in s
    ensures |Sort(le, s)| == |s|
  {
    if s == [] {
    } else {
      SortIsPermutation(le, s[1..]);
      InsertIsPermutation(le, s[0], Sort(le, s[1..]));
      assert s == [s[0]] + s[1..];
    }
    SameElements(Sort(le, s), s);
  }

  lemma {:induction false} SameElements<T>(s: seq<T>, t: seq<T>)
    requires multiset(s) == multiset(t)
    ensures forall x :: x in s <==> x in t
    ensures |s| == |t|
  {
    assert forall x :: x in s <==> x in multiset(s);
    assert forall x :: x in t <==> x in multiset(t);
    assert |multiset(s)| == |s| && |multiset(t)| == |t|;
  }

  lemma {:induction false} InsertIsSorted<T(!new)>(le: (T, T) -> bool, x: T, s: seq<T>)
    requires Ordering(le) && Sorted(le, s)
    ensures Sorted(le, Insert(le, x, s))
  {
    if !(s == [] || le(x, s[0])) {
      InsertIsSorted(le, x, s[1..]);
      var t := Insert(le, x, s[1..]);
      InsertIsPermutation(le, x, s[1..]);
      forall j | 0 <= j < |t| ensures le(s[0], t[j]) {
        assert t[j] in multiset(t);
        if t[j] != x {
          assert t[j] in s[1..];
        }
      }
    }
  }

  lemma {:induction false} SortIsSorted<T(!new)>(le: (T, T) -> bool, s: seq<T>)
    requires Ordering(le)
    ensures Sorted(le, Sort(le, s))
  {
    if s == [] {
    } else {
      SortIsSorted(le, s[1..]);
      InsertIsSorted(le, s[0], Sort(le, s[1..]));
    }
  }

  lemma {:induction false} HeadsAgree<T(!new)>(le: (T, T) -> bool, s: seq<T>, t: seq<T>)
    requires Ordering(le) && NoTies(le, s) && Sorted(le, s) && Sorted(le, t) && multiset(s) == multiset(t) && s != []
    ensures t != [] && s[0] == t[0]
  {
    SameElements(s, t);
    assert s[0] in t && t[0] in s;
    var i :| 0 <= i < |t| && t[i] == s[0];
    var j :| 0 <= j < |s| && s[j] == t[0];
    assert le(t[0], t[i]) || i == 0;
    assert le(s[0], s[j]) || j == 0;
  }

  lemma {:induction false} TailMultiset<T>(s: seq<T>)
    requires s != []
    ensures multiset(s[1..]) == multiset(s) - multiset{s[0]}
  {
    assert s == [s[0]] + s[1..];
  }

  /** A multiset without ties has one sorted arrangement. */
  lemma {:induction false} SortedIsUnique<T(!new)>(le: (T, T) -> bool, s: seq<T>, t: seq<T>)
    requires Ordering(le) && NoTies(le, s) && Sorted(le, s) && Sorted(le, t) && multiset(s) == multiset(t)
    ensures s == t
    decreases |s|
  {
    SameElements(s, t);
    if s != [] {
      HeadsAgree(le, s, t);
      TailMultiset(s);
      TailMultiset(t);
      SortedIsUnique(le, s[1..], t[1..]);
      assert s == [s[0]] + s[1..] && t == [t[0]] + t[1..];
    }
  }

  /** Sorting forgets the order its input came in. */
  lemma {:induction false} SortForgetsOrder<T(!new)>(le: (T, T) -> bool, s: seq<T>, t: seq<T>)
    requires Ordering(le) && NoTies(le, s) && multiset(s) == multiset(t)
    ensures Sort(le, s) == Sort(le, t)
  {
    SortIsSorted(le, s);
    SortIsSorted(le, t);
    SortIsPermutation(le, s);
    SortIsPermutation(le, t);
    assert NoTies(le, Sort(le, s));
    SortedIsUnique(le, Sort(le, s), Sort(le, t));
  }

  predicate Distinct<T(==)>(s: seq<T>) {
    forall i, j :: 0 <= i < j < |s| ==> s[i] != s[j]
  }

  lemma {:induction false} InsertKeepsDistinct<T>(le: (T, T) -> bool, x: T, s: seq<T>)
    requires Distinct(s) && x !in s
    ensures Distinct(Insert(le, x, s))
  {
    if !(s == [] || le(x, s[0])) {
      InsertKeepsDistinct(le, x, s[1..]);
      InsertIsPermutation(le, x, s[1..]);
      var t := Insert(le, x, s[1..]);
      forall j | 0 <= j < |t| ensures t[j] != s[0] {
        assert t[j] in multiset(t);
        assert t[j] == x || t[j] in s[1..];
      }
    }
  }

  lemma {:induction false} SortKeepsDistinct<T>(le: (T, T) -> bool, s: seq<T>)
    requires Distinct(s)
    ensures Distinct(Sort(le, s))
  {
    if s == [] {
    } else {
      SortKeepsDistinct(le, s[1..]);
      SortIsPermutation(le, s[1..]);
      InsertKeepsDistinct(le, s[0], Sort(le, s[1..]));
    }
  }

  /** Go's `<=` on strings: bytewise lexicographic. */
  predicate StringLe(a: string, b: string) {
    a == [] || (b != [] && (a[0] < b[0] || (a[0] == b[0] && StringLe(a[1..], b[1..]))))
  }

  /** `a` is smaller at the first place where they differ. */
  predicate SmallerAt(a: string, b: string, k: nat) {
    k < |a| && k < |b| && a[..k] == b[..k] && a[k] < b[k]
  }

  lemma {:induction false} SmallerNext(a: string, b: string, k: nat)
    requires a != [] && b != [] && a[0] == b[0]
    ensures SmallerAt(a, b, k + 1) <==> SmallerAt(a[1..], b[1..], k)
    ensures !SmallerAt(a, b, 0)
  {
    if k < |a| - 1 && k < |b| - 1 {
      assert a[..k + 1] == [a[0]] + a[1..][..k] && b[..k + 1] == [a[0]] + b[1..][..k];
      assert a[1..][..k] == a[..k + 1][1..] && b[1..][..k] == b[..k + 1][1..];
    }
  }

  /** The order of strings: a prefix comes first, otherwise the first differing character decides. */
  lemma {:induction false} StringLeIs(a: string, b: string)
    ensures StringLe(a, b) <==> a <= b || exists k: nat :: SmallerAt(a, b, k)
    decreases |a|
  {
    if a == [] || b == [] || a[0] != b[0] {
      if b != [] && a != [] && a[0] < b[0] {
        assert SmallerAt(a, b, 0);
      }
    } else {
      var x, y := a[1..], b[1..];
      StringLeIs(x, y);
      assert a == [a[0]] + x && b == [a[0]] + y;
      assert a <= b <==> x <= y;
      if exists k: nat :: SmallerAt(x, y, k) {
        var k: nat :| SmallerAt(x, y, k);
        SmallerNext(a, b, k);
      }
      if exists k: nat :: SmallerAt(a, b, k) {
        var k: nat :| SmallerAt(a, b, k);
        SmallerNext(a, b, if k == 0 then 0 else k - 1);
      }
    }
  }

  lemma {:induction false} StringLeTotal(a: string, b: string)
    ensures StringLe(a, b) || StringLe(b, a)
    ensures StringLe(a, b) && StringLe(b, a) ==> a == b
    decreases |a|
  {
    if a != [] && b != [] && a[0] == b[0] {
      StringLeTotal(a[1..], b[1..]);
      assert a == [a[0]] + a[1..] && b == [b[0]] + b[1..];
    }
  }

  lemma {:induction false} StringLeTransitive(a: string, b: string, c: string)
    requires StringLe(a, b) && StringLe(b, c)
    ensures StringLe(a, c)
    decreases |a|
  {
    if a != [] && a[0] == b[0] && b[0] == c[0] {
      StringLeTransitive(a[1..], b[1..], c[1..]);
    }
  }

  lemma {:induction false} StringOrder()
    ensures Ordering(StringLe)
    ensures forall a, b :: StringLe(a, b) && StringLe(b, a) ==> a == b
  {
    forall a, b ensures (StringLe(a, b) || StringLe(b, a)) && (StringLe(a, b) && StringLe(b, a) ==> a == b) {
      StringLeTotal(a, b);
    }
    forall a, b, c | StringLe(a, b) && StringLe(b, c) ensures StringLe(a, c) {
      StringLeTransitive(a, b, c);
    }
  }
}
