/** Which tree src/engine/shared/huffman.cpp builds: the sort is stable, so equal frequencies leave no
    choice, and the finished tree is the only one of its kind. */
module HuffmanOrder {
  import opened Arith
  import opened Sequences
  import opened Huffman
  import opened HuffmanTable
  import opened HuffmanDepth

  // ---- the sort ----

  /** The entries of one frequency, in their order. */
  ghost function OfFrequency(l: seq<Entry>, f: int): seq<Entry> {
    if l == [] then []
    else OfFrequency(l[..|l| - 1], f) + if l[|l| - 1].frequency == f then [l[|l| - 1]] else []
  }

  lemma OfFrequencyPush(l: seq<Entry>, e: Entry, f: int)
    ensures OfFrequency(l + [e], f) == OfFrequency(l, f) + if e.frequency == f then [e] else []
  {
    assert (l + [e])[..|l|] == l;
  }

  lemma {:induction false} InsertStable(l: seq<Entry>, e: Entry, f: int)
    ensures OfFrequency(Insert(l, e), f) == OfFrequency(l, f) + if e.frequency == f then [e] else []
  {
    if l != [] && l[|l| - 1].frequency < e.frequency {
      InsertStable(l[..|l| - 1], e, f);
      OfFrequencyPush(Insert(l[..|l| - 1], e), l[|l| - 1], f);
    } else {
      OfFrequencyPush(l, e, f);
    }
  }

  /** Sorting leaves entries of the same frequency in their order. */
  lemma {:induction false} SortStable(l: seq<Entry>, f: int)
    ensures OfFrequency(SortDesc(l), f) == OfFrequency(l, f)
  {
    hide Insert;
    if l != [] {
      SortStable(l[..|l| - 1], f);
      InsertStable(SortDesc(l[..|l| - 1]), l[|l| - 1], f);
    }
  }

  lemma {:induction false} OfFrequencyMember(l: seq<Entry>, f: int)
    ensures forall e :: e in OfFrequency(l, f) ==> e in l && e.frequency == f
  {
    if l != [] { OfFrequencyMember(l[..|l| - 1], f); }
  }

  /** Descending order and the order of equal entries fix a list. */
  lemma {:induction false} SameOrder(l: seq<Entry>, k: seq<Entry>)
    requires Descending(l) && Descending(k) && forall f: int :: OfFrequency(l, f) == OfFrequency(k, f)
    ensures l == k
    decreases |l|
  {
    if l != [] { NotEmpty(l, k); }
    if k != [] { NotEmpty(k, l); }
    if l != [] {
      var m, n := |l| - 1, |k| - 1;
      LastNotLess(l, k);
      LastNotLess(k, l);
      var g := l[m].frequency;
      assert OfFrequency(l, g) == OfFrequency(k, g);
      assert OfFrequency(l, g)[|OfFrequency(l, g)| - 1] == l[m] && OfFrequency(k, g)[|OfFrequency(k, g)| - 1] == k[n];
      forall f: int ensures OfFrequency(l[..m], f) == OfFrequency(k[..n], f) { SameFront(l, k, f); }
      SameOrder(l[..m], k[..n]);
      assert l == l[..m] + [l[m]] && k == k[..n] + [k[n]];
    }
  }

  lemma NotEmpty(l: seq<Entry>, k: seq<Entry>)
    requires l != [] && forall f: int :: OfFrequency(l, f) == OfFrequency(k, f)
    ensures k != []
  {
    var f := l[|l| - 1].frequency;
    assert OfFrequency(l, f) == OfFrequency(k, f);
  }

  lemma SameFront(l: seq<Entry>, k: seq<Entry>, f: int)
    requires l != [] && k != [] && l[|l| - 1] == k[|k| - 1] && OfFrequency(l, f) == OfFrequency(k, f)
    ensures OfFrequency(l[..|l| - 1], f) == OfFrequency(k[..|k| - 1], f)
  {
    var a, b := OfFrequency(l[..|l| - 1], f), OfFrequency(k[..|k| - 1], f);
    var last := if l[|l| - 1].frequency == f then [l[|l| - 1]] else [];
    assert a + last == b + last;
    assert (a + last)[..|a + last| - |last|] == a && (b + last)[..|b + last| - |last|] == b;
  }

  lemma LastNotLess(l: seq<Entry>, k: seq<Entry>)
    requires l != [] && k != [] && Descending(k) && forall f: int :: OfFrequency(l, f) == OfFrequency(k, f)
    ensures l[|l| - 1].frequency >= k[|k| - 1].frequency
  {
    var e := l[|l| - 1];
    assert e in OfFrequency(l, e.frequency);
    assert e in OfFrequency(k, e.frequency);
    OfFrequencyMember(k, e.frequency);
    var i :| 0 <= i < |k| && k[i] == e;
  }

  /** The entries of each frequency are the same, in the same order. */
  ghost predicate SameWithin(s: seq<Entry>, l: seq<Entry>) {
    forall f: int :: OfFrequency(s, f) == OfFrequency(l, f)
  }

  /** So this is what sorting does: the only descending list with the entries of each frequency in their
      order. */
  lemma SortIsOnly(l: seq<Entry>, s: seq<Entry>)
    ensures s == SortDesc(l) <==> Descending(s) && SameWithin(s, l)
  {
    hide SortDesc, Descending;
    SortKeeps(l);
    var d := SortDesc(l);
    forall f: int ensures OfFrequency(d, f) == OfFrequency(l, f) { SortStable(l, f); }
    assert SameWithin(d, l);
    if Descending(s) && SameWithin(s, l) {
      assert forall f: int :: OfFrequency(s, f) == OfFrequency(d, f);
      SameOrder(s, d);
    }
  }

  // ---- the order of the trees ----

  /** More frequent, or as frequent and older. */
  predicate Precedes(a: Entry, b: Entry) {
    a.frequency > b.frequency || (a.frequency == b.frequency && a.node < b.node)
  }

  ghost predicate Ordered(l: seq<Entry>) {
    forall i, j :: 0 <= i < j < |l| ==> Precedes(l[i], l[j])
  }

  /** Of equally frequent ones the older comes first. */
  ghost predicate TiesAscend(l: seq<Entry>) {
    forall i, j :: 0 <= i < j < |l| ==> l[i].frequency == l[j].frequency ==> l[i].node < l[j].node
  }

  lemma {:induction false} InsertOrdered(l: seq<Entry>, e: Entry)
    requires Ordered(l) && forall i :: 0 <= i < |l| ==> l[i].frequency == e.frequency ==> l[i].node < e.node
    ensures Ordered(Insert(l, e))
  {
    InsertElements(l, e);
    if l != [] {
      var rest, last := l[..|l| - 1], l[|l| - 1];
      if last.frequency < e.frequency {
        InsertOrdered(rest, e);
        InsertElements(rest, e);
        var n := Insert(rest, e);
        hide Insert;
        forall i | 0 <= i < |n| ensures Precedes(n[i], last) {
          assert n[i] in multiset(n);
          if n[i] != e {
            assert n[i] in rest;
            var k :| 0 <= k < |rest| && rest[k] == n[i];
          }
        }
      }
    }
  }

  lemma {:induction false} SortOrdered(l: seq<Entry>)
    requires TiesAscend(l)
    ensures Ordered(SortDesc(l))
  {
    hide Insert, Ordered;
    if l != [] {
      var rest, last := l[..|l| - 1], l[|l| - 1];
      SortOrdered(rest);
      SortKeeps(rest);
      var s := SortDesc(rest);
      forall i | 0 <= i < |s| ensures s[i].frequency == last.frequency ==> s[i].node < last.node {
        assert s[i] in multiset(s);
        assert s[i] in rest;
        var k :| 0 <= k < |rest| && rest[k] == s[i];
      }
      InsertOrdered(s, last);
    } else {
      NothingOrdered();
    }
  }

  lemma NothingOrdered()
    ensures Ordered([])
  {
  }

  // ---- the finished tree ----

  /** x exists and has no parent before node id is made. */
  ghost predicate IsRoot(t: seq<Children>, id: nat, x: nat) {
    && x < id <= |t|
    && forall j: nat :: MAX_SYMBOLS <= j < id ==> t[j].zero != x && t[j].one != x
  }

  /** a is heavier than b, or as heavy and older. */
  ghost predicate Before(t: seq<Children>, f: seq<nat>, a: nat, b: nat)
    requires IsTable(t) && a < |t| && b < |t| && |f| >= MAX_SYMBOLS
  {
    Weight(t, a, f) > Weight(t, b, f) || (Weight(t, a, f) == Weight(t, b, f) && a < b)
  }

  /** The zero child is the last root in this order, the one child the last but one. */
  ghost predicate Picks(t: seq<Children>, f: seq<nat>, id: nat)
    requires IsTable(t) && MAX_SYMBOLS <= id < |t| && |f| >= MAX_SYMBOLS
  {
    && IsRoot(t, id, t[id].zero) && IsRoot(t, id, t[id].one) && Before(t, f, t[id].one, t[id].zero)
    && forall x: nat :: x < id && IsRoot(t, id, x) && x != t[id].zero && x != t[id].one ==> Before(t, f, x, t[id].one)
  }

  /** Each node above the symbols takes the two rarest trees there are when it is made. */
  ghost predicate InOrder(t: seq<Children>, f: seq<nat>) {
    && IsTable(t) && |f| >= MAX_SYMBOLS && t[..MAX_SYMBOLS] == NoChildren()
    && forall id: nat :: MAX_SYMBOLS <= id < |t| ==> Picks(t, f, id)
  }

  /** The entries are the roots. */
  ghost predicate AreRoots(t: seq<Children>, l: seq<Entry>) {
    forall x: nat :: IsRoot(t, |t|, x) <==> HasNode(l, x)
  }

  ghost predicate HasNode(l: seq<Entry>, x: nat) { exists i :: 0 <= i < |l| && l[i].node == x }

  lemma RootsStay(t: seq<Children>, c: Children, id: nat, x: nat)
    requires id <= |t|
    ensures IsRoot(t + [c], id, x) <==> IsRoot(t, id, x)
  {
    var t' := t + [c];
    assert forall j: nat :: j < |t| ==> t'[j] == t[j];
  }

  lemma NextRoots(t: seq<Children>, c: Children, x: nat)
    requires IsTable(t) && c.zero < |t| && c.one < |t|
    ensures IsRoot(t + [c], |t| + 1, x) <==> x == |t| || (IsRoot(t, |t|, x) && x != c.zero && x != c.one)
  {
    var t' := t + [c];
    assert t'[|t|] == c && forall j: nat :: j < |t| ==> t'[j] == t[j];
    if x == |t| {
      forall j: nat | MAX_SYMBOLS <= j < |t| + 1 ensures t'[j].zero != x && t'[j].one != x { }
    } else if x < |t| && IsRoot(t', |t| + 1, x) {
      forall j: nat | MAX_SYMBOLS <= j < |t| ensures t[j].zero != x && t[j].one != x { assert t'[j] == t[j]; }
      assert t'[|t|].zero != x;
    }
  }

  /** A node added behind changes nothing before it. */
  lemma BeforeStays(t: seq<Children>, f: seq<nat>, c: Children, a: nat, b: nat)
    requires IsTable(t) && a < |t| && b < |t| && |f| >= MAX_SYMBOLS && c.zero < |t| && c.one < |t|
    ensures IsTable(t + [c]) && (Before(t + [c], f, a, b) <==> Before(t, f, a, b))
  {
    WeightStays(t, c, a, f);
    WeightStays(t, c, b, f);
  }

  lemma PicksStays(t: seq<Children>, f: seq<nat>, c: Children, id: nat)
    requires IsTable(t) && MAX_SYMBOLS <= id < |t| && |f| >= MAX_SYMBOLS && c.zero < |t| && c.one < |t| && Picks(t, f, id)
    ensures IsTable(t + [c]) && Picks(t + [c], f, id)
  {
    hide IsRoot, Before;
    var t' := t + [c];
    var z, o := t[id].zero, t[id].one;
    assert t'[id] == t[id];
    BeforeStays(t, f, c, o, z);
    RootsStay(t, c, id, z);
    RootsStay(t, c, id, o);
    forall x: nat | x < id && IsRoot(t', id, x) && x != z && x != o ensures Before(t', f, x, o) {
      RootsStay(t, c, id, x);
      BeforeStays(t, f, c, x, o);
    }
  }

  // ---- merging ----

  /** The table so far, the entries and their order. */
  ghost predicate Merging(t: seq<Children>, l: seq<Entry>, f: seq<nat>) {
    InOrder(t, f) && Weighed(t, l, f) && AreRoots(t, l) && TiesAscend(l)
  }

  /** Sorted, the last two entries are the last two roots. */
  lemma LastTwoPicked(t: seq<Children>, s: seq<Entry>, f: seq<nat>)
    requires IsTable(t) && |f| >= MAX_SYMBOLS && |s| >= 2 && Ordered(s) && AreRoots(t, s)
    requires forall i :: 0 <= i < |s| ==> s[i].node < |t| && s[i].frequency == Weight(t, s[i].node, f)
    ensures var a, b := s[|s| - 1].node, s[|s| - 2].node;
            && IsRoot(t, |t|, a) && IsRoot(t, |t|, b) && a != b && Before(t, f, b, a)
            && forall x: nat :: x < |t| && IsRoot(t, |t|, x) && x != a && x != b ==> Before(t, f, x, b)
  {
    hide Weight, IsRoot;
    var n := |s|;
    var a, b := s[n - 1], s[n - 2];
    assert Precedes(b, a);
    assert HasNode(s, a.node) && HasNode(s, b.node);
    forall x: nat | x < |t| && IsRoot(t, |t|, x) && x != a.node && x != b.node ensures Before(t, f, x, b.node) {
      assert HasNode(s, x);
      var i :| 0 <= i < n && s[i].node == x;
      assert Precedes(s[i], b);
    }
  }

  lemma NewPicks(t: seq<Children>, s: seq<Entry>, f: seq<nat>)
    requires IsTable(t) && |f| >= MAX_SYMBOLS && |s| >= 2 && Ordered(s) && AreRoots(t, s)
    requires forall i :: 0 <= i < |s| ==> s[i].node < |t| && s[i].frequency == Weight(t, s[i].node, f)
    ensures var c := Children(s[|s| - 1].node, s[|s| - 2].node);
            IsTable(t + [c]) && Picks(t + [c], f, |t|)
  {
    hide Weight, IsRoot, Before, Ordered, AreRoots;
    LastTwoPicked(t, s, f);
    var a, b := s[|s| - 1].node, s[|s| - 2].node;
    var c := Children(a, b);
    var t' := t + [c];
    BeforeStays(t, f, c, b, a);
    RootsStay(t, c, |t|, a);
    RootsStay(t, c, |t|, b);
    forall x: nat | x < |t| && IsRoot(t', |t|, x) && x != a && x != b ensures Before(t', f, x, b) {
      RootsStay(t, c, |t|, x);
      BeforeStays(t, f, c, x, b);
    }
  }

  lemma MergedRoots(t: seq<Children>, s: seq<Entry>, e: Entry)
    requires IsTable(t) && |s| >= 2 && Ordered(s) && AreRoots(t, s) && e.node == |t|
    requires forall i :: 0 <= i < |s| ==> s[i].node < |t|
    requires forall i, j :: 0 <= i < j < |s| ==> s[i].node != s[j].node
    ensures AreRoots(t + [Children(s[|s| - 1].node, s[|s| - 2].node)], s[..|s| - 2] + [e])
  {
    hide IsRoot, Ordered;
    var n := |s|;
    var c, l := Children(s[n - 1].node, s[n - 2].node), s[..n - 2] + [e];
    var t' := t + [c];
    forall x: nat ensures IsRoot(t', |t'|, x) <==> HasNode(l, x) {
      NextRoots(t, c, x);
      if x == |t| {
        assert l[n - 2].node == x;
      } else if IsRoot(t, |t|, x) && x != c.zero && x != c.one {
        assert HasNode(s, x);
        var i :| 0 <= i < n && s[i].node == x;
        assert l[i] == s[i];
      }
      if i :| 0 <= i < |l| && l[i].node == x {
        if i < n - 2 { assert s[i].node == x; assert HasNode(s, x); }
      }
    }
  }

  /** Nodes of one list are different where its entries are the roots of their weights in strict order. */
  lemma NodesDiffer(t: seq<Children>, s: seq<Entry>, f: seq<nat>)
    requires IsTable(t) && |f| >= MAX_SYMBOLS && Ordered(s)
    requires forall i :: 0 <= i < |s| ==> s[i].node < |t| && s[i].frequency == Weight(t, s[i].node, f)
    ensures forall i, j :: 0 <= i < j < |s| ==> s[i].node != s[j].node
  {
    hide Weight;
    forall i, j | 0 <= i < j < |s| ensures s[i].node != s[j].node { assert Precedes(s[i], s[j]); }
  }

  lemma MergedTies(s: seq<Entry>, e: Entry)
    requires |s| >= 2 && Ordered(s) && forall i :: 0 <= i < |s| ==> s[i].node < e.node
    ensures TiesAscend(s[..|s| - 2] + [e])
  {
    var l := s[..|s| - 2] + [e];
    forall i, j | 0 <= i < j < |l| ensures l[i].frequency == l[j].frequency ==> l[i].node < l[j].node {
      if j < |l| - 1 { assert Precedes(s[i], s[j]); }
    }
  }

  lemma SortedRoots(t: seq<Children>, l: seq<Entry>)
    requires AreRoots(t, l)
    ensures AreRoots(t, SortDesc(l))
  {
    hide SortDesc, IsRoot;
    SortKeeps(l);
    var s := SortDesc(l);
    forall x: nat ensures HasNode(l, x) <==> HasNode(s, x) {
      if i :| 0 <= i < |l| && l[i].node == x {
        assert l[i] in multiset(s);
        var k :| 0 <= k < |s| && s[k] == l[i];
      }
      if i :| 0 <= i < |s| && s[i].node == x {
        assert s[i] in multiset(l);
        var k :| 0 <= k < |l| && l[k] == s[i];
      }
    }
  }

  lemma MergeInOrder(t: seq<Children>, l: seq<Entry>, f: seq<nat>)
    requires Merging(t, l, f) && |l| >= 2 && Total(l) < 0x8000_0000
    ensures Merging(MergeTwo(t, l).0, MergeTwo(t, l).1, f)
  {
    hide Weighed, Picks, AreRoots, Ordered, TiesAscend, Weight, SortDesc, Total, MergeTwo;
    MergeWeighed(t, l, f);
    MergeTwoIs(t, l, f);
    SortOrdered(l);
    SortedRoots(t, l);
    var s, n := SortDesc(l), |l|;
    assert forall i :: 0 <= i < n ==> s[i] in s;
    NodesDiffer(t, s, f);
    var c, e := Children(s[n - 1].node, s[n - 2].node), Entry(|t|, s[n - 1].frequency + s[n - 2].frequency);
    MergedRoots(t, s, e);
    MergedTies(s, e);
    NewPicks(t, s, f);
    var t' := t + [c];
    forall id: nat | MAX_SYMBOLS <= id < |t'| ensures Picks(t', f, id) {
      if id < |t| { PicksStays(t, f, c, id); }
    }
    assert t'[..MAX_SYMBOLS] == t[..MAX_SYMBOLS];
  }

  lemma {:induction false} MergedInOrder(t: seq<Children>, l: seq<Entry>, f: seq<nat>)
    requires Merging(t, l, f) && l != [] && 0 <= Total(l) < 0x8000_0000
    ensures InOrder(Merged(t, l), f) && |Merged(t, l)| == |t| + |l| - 1
    decreases |l|
  {
    hide Weighed, InOrder, AreRoots, TiesAscend, SortDesc, Total;
    MergedNext(t, l);
    if |l| > 1 {
      WeighedFrequencies(t, l, f);
      MergeKeepsTotal(t, l);
      MergeInOrder(t, l, f);
      MergedInOrder(MergeTwo(t, l).0, MergeTwo(t, l).1, f);
    }
  }

  lemma WeighedFrequencies(t: seq<Children>, l: seq<Entry>, f: seq<nat>)
    requires Weighed(t, l, f)
    ensures forall e :: e in l ==> e.frequency >= 0
  {
  }

  lemma StartRoots(f: seq<nat>)
    requires |f| >= MAX_SYMBOLS
    ensures AreRoots(NoChildren(), Symbols(f)) && TiesAscend(Symbols(f)) && IsTable(NoChildren())
  {
    var t, l := NoChildren(), Symbols(f);
    forall x: nat ensures IsRoot(t, |t|, x) <==> HasNode(l, x) {
      if x < MAX_SYMBOLS { assert l[x].node == x; }
    }
  }

  /** The tree of a frequency table: each node above the symbols has for its children the two rarest of the
      trees there were, the rarest in the place of zero, and of equally rare ones the youngest first. */
  lemma TreeInOrder(f: seq<nat>)
    requires FitsInt(f)
    ensures InOrder(TreeOf(f), f) && |TreeOf(f)| == 2 * MAX_SYMBOLS - 1
  {
    hide Weighed, AreRoots, TiesAscend, Total, AllFrequencies;
    SymbolsWeighed(f);
    StartRoots(f);
    assert NoChildren()[..MAX_SYMBOLS] == NoChildren();
    MergedInOrder(NoChildren(), Symbols(f), f);
  }

  // ---- there is only one such tree ----

  lemma {:induction false} WeightOfFront(t: seq<Children>, t': seq<Children>, n: nat, x: nat, f: seq<nat>)
    requires IsTable(t) && IsTable(t') && x < n <= |t| && n <= |t'| && t[..n] == t'[..n] && |f| >= MAX_SYMBOLS
    ensures Weight(t, x, f) == Weight(t', x, f)
    decreases x
  {
    if x >= MAX_SYMBOLS {
      assert t[x] == t[..n][x] && t'[x] == t'[..n][x];
      WeightOfFront(t, t', n, t[x].zero, f);
      WeightOfFront(t, t', n, t[x].one, f);
    }
  }

  lemma SameRoots(t: seq<Children>, t': seq<Children>, n: nat, x: nat)
    requires n <= |t| && n <= |t'| && t[..n] == t'[..n]
    ensures IsRoot(t, n, x) <==> IsRoot(t', n, x)
  {
    assert forall j: nat :: j < n ==> t[j] == t[..n][j] && t'[j] == t'[..n][j];
  }

  lemma SamePick(t: seq<Children>, t': seq<Children>, n: nat, f: seq<nat>)
    requires IsTable(t) && IsTable(t') && MAX_SYMBOLS <= n < |t| && n < |t'| && t[..n] == t'[..n] && |f| >= MAX_SYMBOLS
    requires Picks(t, f, n) && Picks(t', f, n)
    ensures t[n] == t'[n]
  {
    hide IsRoot, Weight;
    var z, o, z', o' := t[n].zero, t[n].one, t'[n].zero, t'[n].one;
    SameRoots(t, t', n, z);
    SameRoots(t, t', n, o);
    SameRoots(t, t', n, z');
    SameRoots(t, t', n, o');
    WeightOfFront(t, t', n, z, f);
    WeightOfFront(t, t', n, o, f);
    WeightOfFront(t, t', n, z', f);
    WeightOfFront(t, t', n, o', f);
  }

  lemma {:induction false} SameTables(t: seq<Children>, t': seq<Children>, n: nat, f: seq<nat>)
    requires InOrder(t, f) && InOrder(t', f) && MAX_SYMBOLS <= n <= |t| == |t'|
    ensures t[..n] == t'[..n]
  {
    hide Picks;
    if n > MAX_SYMBOLS {
      SameTables(t, t', n - 1, f);
      SamePick(t, t', n - 1, f);
      assert t[..n] == t[..n - 1] + [t[n - 1]] && t'[..n] == t'[..n - 1] + [t'[n - 1]];
    }
  }

  /** So a table is the one that is built if and only if each of its nodes takes the two rarest trees. */
  lemma TreeIsOnly(f: seq<nat>, t: seq<Children>)
    requires FitsInt(f)
    ensures t == TreeOf(f) <==> InOrder(t, f) && |t| == 2 * MAX_SYMBOLS - 1
  {
    hide TreeOf, InOrder;
    TreeInOrder(f);
    if InOrder(t, f) && |t| == 2 * MAX_SYMBOLS - 1 {
      SameTables(t, TreeOf(f), |t|, f);
      assert t[..|t|] == t && TreeOf(f)[..|t|] == TreeOf(f);
    }
  }

  /** The zero child of a node never outweighs the one child. */
  lemma ZeroIsRarer(f: seq<nat>, id: nat)
    requires FitsInt(f) && MAX_SYMBOLS <= id < 2 * MAX_SYMBOLS - 1
    ensures var t := TreeOf(f);
            && IsTable(t) && id < |t| && Weight(t, t[id].zero, f) <= Weight(t, t[id].one, f)
  {
    hide TreeOf, Weight, IsRoot;
    TreeInOrder(f);
    assert Picks(TreeOf(f), f, id);
  }

  /** A symbol more frequent than all others together has the code of the single bit 1. */
  lemma HeavyCode(f: seq<nat>, codes: seq<Code>, h: nat)
    requires FitsInt(f) && AllOccur(f) && CodesOf(f, codes) && Outweighs(f, h)
    ensures |codes| >= MAX_SYMBOLS && codes[h] == Code(1, 1)
  {
    hide TreeOf, Nephews, AllFrequencies, Proper;
    TreeWeighed(f);
    TreeInOrder(f);
    var t, id := TreeOf(f), |TreeOf(f)| - 1;
    ZeroIsRarer(f, id);
    HeavyIsChild(t, f, id, h);
    HeavyLeaf(t, f, h);
    assert PathTo(t, h, h) == Code(0, 0);
    assert Weight(t, h, f) == Frequency(f, h);
  }
}
