/** Lists: concatenation of a list of lists, and sorting a set. */
module Sequences {

  function Flatten<T>(ls: seq<seq<T>>): seq<T> {
    if ls == [] then [] else Flatten(ls[..|ls| - 1]) + ls[|ls| - 1]
  }

  /** Each list is found at the length of those before it. */
  lemma {:induction false} SliceOfFlatten<T>(ls: seq<seq<T>>, i: nat)
    requires i < |ls|
    ensures |Flatten(ls[..i])| + |ls[i]| <= |Flatten(ls)|
    ensures Flatten(ls)[|Flatten(ls[..i])|..|Flatten(ls[..i])| + |ls[i]|] == ls[i]
  {
    var n := |ls| - 1;
    if i < n {
      assert ls[..n][..i] == ls[..i];
      SliceOfFlatten(ls[..n], i);
      var o := |Flatten(ls[..i])|;
      SliceOfFront(Flatten(ls[..n]), ls[n], o, o + |ls[i]|);
    }
  }

  lemma SliceOfFront<T>(a: seq<T>, b: seq<T>, i: nat, j: nat)
    requires i <= j <= |a|
    ensures (a + b)[i..j] == a[i..j]
  {
    forall k | i <= k < j ensures (a + b)[k] == a[k] {
    }
  }

  ghost function SumBy<T>(h: T -> int, s: seq<T>): int {
    if s == [] then 0 else SumBy(h, s[..|s| - 1]) + h(s[|s| - 1])
  }

  lemma SumByPush<T>(h: T -> int, s: seq<T>, x: T)
    ensures SumBy(h, s + [x]) == SumBy(h, s) + h(x)
  {
    assert (s + [x])[..|s|] == s;
  }

  lemma SumByLastTwo<T>(h: T -> int, s: seq<T>)
    requires |s| >= 2
    ensures SumBy(h, s) == SumBy(h, s[..|s| - 2]) + h(s[|s| - 2]) + h(s[|s| - 1])
  {
    var n := |s|;
    SumByPush(h, s[..n - 2], s[n - 2]);
    assert s[..n - 2] + [s[n - 2]] == s[..n - 1];
  }

  lemma {:induction false} SumByUpdate<T>(h: T -> int, s: seq<T>, i: nat, x: T)
    requires i < |s|
    ensures SumBy(h, s[i := x]) == SumBy(h, s) - h(s[i]) + h(x)
  {
    var n := |s| - 1;
    if i < n {
      SumByUpdate(h, s[..n], i, x);
      assert s[i := x][..n] == s[..n][i := x];
    } else {
      assert s[i := x][..n] == s[..n];
    }
  }

  lemma {:induction false} SumByNonneg<T>(h: T -> int, s: seq<T>)
    requires forall x :: x in s ==> h(x) >= 0
    ensures SumBy(h, s) >= 0 && forall x :: x in s ==> h(x) <= SumBy(h, s)
  {
    if s != [] {
      SumByNonneg(h, s[..|s| - 1]);
      assert s == s[..|s| - 1] + [s[|s| - 1]];
    }
  }

  lemma ConcatAssociates<T>(a: seq<T>, b: seq<T>, c: seq<T>)
    ensures (a + b) + c == a + (b + c)
  {
  }

  lemma SubsetSameSize<T>(a: set<T>, b: set<T>, x: T)
    requires a <= b && |a| == |b| && x in b
    ensures x in a
  {
    assert |b| == |a| + |b - a|;
  }

  /** The position of x in s. */
  function IndexOf<T(==)>(s: seq<T>, x: T): (i: nat)
    requires x in s
    ensures i < |s| && s[i] == x
  {
    if s[0] == x then 0 else 1 + IndexOf(s[1..], x)
  }

  // ---- order ----

  ghost predicate IsStrictOrder<T(!new)>(less: (T, T) -> bool) {
    && (forall a :: !less(a, a))
    && (forall a, b :: a != b ==> less(a, b) || less(b, a))
    && (forall a, b, c :: less(a, b) && less(b, c) ==> less(a, c))
  }

  ghost predicate Ascending<T>(s: seq<T>, less: (T, T) -> bool) {
    forall i, j :: 0 <= i < j < |s| ==> less(s[i], s[j])
  }

  ghost predicate IsSorted<T(!new)>(s: seq<T>, elements: set<T>, less: (T, T) -> bool) {
    Ascending(s, less) && forall x :: x in s <==> x in elements
  }

  /** sorted() of a set, with the order given. */
  method Sorted<T(==, !new)>(elements: set<T>, less: (T, T) -> bool) returns (s: seq<T>)
    requires IsStrictOrder(less)
    ensures IsSorted(s, elements, less)
  {
    s := [];
    var rest := elements;
    while rest != {}
      invariant rest <= elements && Ascending(s, less)
      invariant forall x :: x in s <==> x in elements && x !in rest
      invariant forall x, y :: x in s && y in rest ==> less(x, y)
      decreases rest
    {
      var x :| x in rest;
      var others := rest - {x};
      while exists y :: y in others && less(y, x)
        invariant x in rest && others <= rest
        invariant forall y :: y in rest && y !in others ==> y == x || less(x, y)
        decreases others
      {
        var y :| y in others && less(y, x);
        others := others - {y};
        x := y;
      }
      rest := rest - {x};
      s := s + [x];
    }
  }

  /** There is only one way to sort a set. */
  lemma {:induction false} SortedUnique<T(!new)>(s: seq<T>, s': seq<T>, elements: set<T>, less: (T, T) -> bool)
    requires IsStrictOrder(less) && IsSorted(s, elements, less) && IsSorted(s', elements, less)
    ensures s == s'
    decreases |s|
  {
    assert s' != [] ==> s'[0] in s';
    if s != [] {
      assert s[0] in s && s[0] in s';
      assert s'[0] in s' && s'[0] in s;
      assert s[0] == s'[0];
      TailSorted(s, elements, less);
      TailSorted(s', elements, less);
      SortedUnique(s[1..], s'[1..], elements - {s[0]}, less);
      assert s == [s[0]] + s[1..] && s' == [s'[0]] + s'[1..];
    }
  }

  lemma {:induction false} SortedSize<T(!new)>(s: seq<T>, elements: set<T>, less: (T, T) -> bool)
    requires IsStrictOrder(less) && IsSorted(s, elements, less)
    ensures |s| == |elements|
    decreases |s|
  {
    if s == [] {
      assert elements == {};
    } else {
      TailSorted(s, elements, less);
      SortedSize(s[1..], elements - {s[0]}, less);
      assert s[0] in s;
      assert elements == (elements - {s[0]}) + {s[0]};
    }
  }

  lemma TailSorted<T(!new)>(s: seq<T>, elements: set<T>, less: (T, T) -> bool)
    requires IsStrictOrder(less) && IsSorted(s, elements, less) && s != []
    ensures IsSorted(s[1..], elements - {s[0]}, less)
  {
    forall x ensures x in s[1..] <==> x in elements && x != s[0] {
      if x in s[1..] {
        assert x in s;
        assert less(s[0], x);
      }
      assert s == [s[0]] + s[1..];
    }
  }

  predicate Smaller(a: int, b: int) { a < b }

  /** The order of lists and tuples. */
  predicate Lexicographic(a: seq<int>, b: seq<int>) {
    b != [] && (a == [] || a[0] < b[0] || (a[0] == b[0] && Lexicographic(a[1..], b[1..])))
  }

  lemma SmallerIsOrder()
    ensures IsStrictOrder(Smaller)
  {
  }

  lemma {:induction false} LexicographicTotal(a: seq<int>, b: seq<int>)
    ensures !Lexicographic(a, a)
    ensures a != b ==> Lexicographic(a, b) || Lexicographic(b, a)
  {
    if a != [] {
      LexicographicTotal(a[1..], if b == [] then [] else b[1..]);
      if b != [] && a[0] == b[0] && a[1..] == b[1..] {
        assert a == [a[0]] + a[1..] && b == [b[0]] + b[1..];
      }
    }
  }

  lemma {:induction false} LexicographicTransitive(a: seq<int>, b: seq<int>, c: seq<int>)
    ensures Lexicographic(a, b) && Lexicographic(b, c) ==> Lexicographic(a, c)
  {
    if a != [] && b != [] && c != [] {
      LexicographicTransitive(a[1..], b[1..], c[1..]);
    }
  }

  lemma LexicographicIsOrder()
    ensures IsStrictOrder(Lexicographic)
  {
    hide Lexicographic;
    forall a, b ensures !Lexicographic(a, a) && (a != b ==> Lexicographic(a, b) || Lexicographic(b, a)) {
      LexicographicTotal(a, b);
    }
    forall a, b, c | Lexicographic(a, b) && Lexicographic(b, c) ensures Lexicographic(a, c) {
      LexicographicTransitive(a, b, c);
    }
  }
}
