/** How deep the tree of src/engine/shared/huffman.cpp gets: no nephew weighs more than its uncle, so
    weights grow like the Fibonacci numbers on the way up. */
module HuffmanDepth {
  import opened Arith
  import opened Sequences
  import opened Huffman
  import opened HuffmanTable

  /** The sum of the frequencies of the symbols below a node. */
  ghost function Weight(t: seq<Children>, id: nat, f: seq<nat>): nat
    requires IsTable(t) && id < |t| && |f| >= MAX_SYMBOLS
    decreases id
  {
    if id < MAX_SYMBOLS then Frequency(f, id) else Weight(t, t[id].zero, f) + Weight(t, t[id].one, f)
  }

  lemma {:induction false} WeightStays(t: seq<Children>, c: Children, id: nat, f: seq<nat>)
    requires IsTable(t) && id < |t| && c.zero < |t| && c.one < |t| && |f| >= MAX_SYMBOLS
    ensures IsTable(t + [c]) && Weight(t + [c], id, f) == Weight(t, id, f)
    decreases id
  {
    if id >= MAX_SYMBOLS {
      WeightStays(t, c, t[id].zero, f);
      WeightStays(t, c, t[id].one, f);
    }
  }

  ghost function FrequencyOf(): Entry -> int { (e: Entry) => e.frequency }

  /** The frequencies of all trees together. */
  ghost function Total(l: seq<Entry>): int { SumBy(FrequencyOf(), l) }

  /** The frequencies of all symbols together. */
  ghost function AllFrequencies(f: seq<nat>, n: nat): nat
    requires n <= MAX_SYMBOLS <= |f|
  {
    if n == 0 then 0 else AllFrequencies(f, n - 1) + Frequency(f, n - 1)
  }

  /** No sum of frequencies leaves the range of an int. */
  ghost predicate FitsInt(f: seq<nat>) {
    |f| >= MAX_SYMBOLS && AllFrequencies(f, MAX_SYMBOLS) < 0x8000_0000
  }

  /** The children of a node weigh at most n. */
  ghost predicate ChildrenUpTo(t: seq<Children>, id: nat, f: seq<nat>, n: int)
    requires IsTable(t) && id < |t| && |f| >= MAX_SYMBOLS
  {
    id >= MAX_SYMBOLS ==> Weight(t, t[id].zero, f) <= n && Weight(t, t[id].one, f) <= n
  }

  /** Nephews weigh at most as much as their uncles. */
  ghost predicate Nephews(t: seq<Children>, id: nat, f: seq<nat>)
    requires IsTable(t) && id < |t| && |f| >= MAX_SYMBOLS
  {
    id >= MAX_SYMBOLS ==>
      && ChildrenUpTo(t, t[id].zero, f, Weight(t, t[id].one, f))
      && ChildrenUpTo(t, t[id].one, f, Weight(t, t[id].zero, f))
  }

  /** The trees to be merged carry their weights, none has a child heavier than another tree, and so
      it has been when they were made. */
  ghost predicate Weighed(t: seq<Children>, l: seq<Entry>, f: seq<nat>) {
    && IsTable(t) && |f| >= MAX_SYMBOLS
    && (forall e :: e in l ==> e.node < |t| && e.frequency == Weight(t, e.node, f))
    && (forall e, g :: e in l && g in l ==> ChildrenUpTo(t, e.node, f, g.frequency))
    && (forall id: nat :: id < |t| ==> Nephews(t, id, f))
  }

  lemma ChildrenStay(t: seq<Children>, c: Children, id: nat, f: seq<nat>, n: int)
    requires IsTable(t) && id < |t| && c.zero < |t| && c.one < |t| && |f| >= MAX_SYMBOLS
    ensures IsTable(t + [c])
    ensures ChildrenUpTo(t + [c], id, f, n) <==> ChildrenUpTo(t, id, f, n)
    ensures Nephews(t + [c], id, f) <==> Nephews(t, id, f)
  {
    WeightStays(t, c, id, f);
    if id >= MAX_SYMBOLS {
      var a, b := t[id].zero, t[id].one;
      WeightStays(t, c, a, f);
      WeightStays(t, c, b, f);
      if a >= MAX_SYMBOLS { WeightStays(t, c, t[a].zero, f); WeightStays(t, c, t[a].one, f); }
      if b >= MAX_SYMBOLS { WeightStays(t, c, t[b].zero, f); WeightStays(t, c, t[b].one, f); }
    }
  }

  lemma SortTotal(l: seq<Entry>)
    ensures Total(SortDesc(l)) == Total(l)
  {
    SortSum(FrequencyOf(), l);
  }

  lemma {:induction false} TotalNonneg(l: seq<Entry>)
    requires forall e :: e in l ==> e.frequency >= 0
    ensures Total(l) >= 0
  {
    SumByNonneg(FrequencyOf(), l);
  }

  lemma TotalOfLastTwo(l: seq<Entry>, e: Entry)
    requires |l| >= 2
    ensures Total(l[..|l| - 2] + [e]) == Total(l) - l[|l| - 1].frequency - l[|l| - 2].frequency + e.frequency
  {
    var n := |l|;
    SumByPush(FrequencyOf(), l[..n - 2], e);
    SumByLastTwo(FrequencyOf(), l);
  }

  lemma SumInRange(x: int)
    requires 0 <= x < 0x8000_0000
    ensures ToInt(x) == x
  {
  }

  /** A merge keeps the total; no sum exceeds it. */
  lemma MergeKeepsTotal(t: seq<Children>, l: seq<Entry>)
    requires |l| >= 2 && (forall e :: e in l ==> e.frequency >= 0) && Total(l) < 0x8000_0000
    ensures var s, n := SortDesc(l), |l|;
            && |s| == n && 0 <= s[n - 1].frequency + s[n - 2].frequency <= Total(l)
            && ToInt(s[n - 1].frequency + s[n - 2].frequency) == s[n - 1].frequency + s[n - 2].frequency
    ensures Total(MergeTwo(t, l).1) == Total(l) && forall e :: e in MergeTwo(t, l).1 ==> e.frequency >= 0
  {
    hide SortDesc, ToInt, Total;
    SortKeeps(l);
    var s, n := SortDesc(l), |l|;
    forall e | e in s ensures e.frequency >= 0 { assert e in multiset(s); }
    SortTotal(l);
    TotalOfLastTwo(s, Entry(0, 0));
    TotalOfLastTwo(s, Entry(|t|, s[n - 1].frequency + s[n - 2].frequency));
    TotalNonneg(s[..n - 2] + [Entry(0, 0)]);
    SumInRange(s[n - 1].frequency + s[n - 2].frequency);
  }

  lemma MergeWeighed(t: seq<Children>, l: seq<Entry>, f: seq<nat>)
    requires Weighed(t, l, f) && |l| >= 2 && Total(l) < 0x8000_0000
    ensures Weighed(MergeTwo(t, l).0, MergeTwo(t, l).1, f)
  {
    hide Nephews, ChildrenUpTo, Weight, SortDesc, Total, ToInt;
    MergeKeepsTotal(t, l);
    LastTwoAreLeast(l);
    var s, n := SortDesc(l), |l|;
    var a, b := s[n - 1], s[n - 2];
    var c, e := Children(a.node, b.node), Entry(|t|, a.frequency + b.frequency);
    var t', l' := t + [c], s[..n - 2] + [e];
    assert (t', l') == MergeTwo(t, l);
    NewNode(t, a, b, f);
    forall g | g in l' ensures g.node < |t'| && g.frequency == Weight(t', g.node, f) {
      if g != e { WeightStays(t, c, g.node, f); }
    }
    forall g, h | g in l' && h in l' ensures ChildrenUpTo(t', g.node, f, h.frequency) {
      Lighter(t, l, f, a, b, g, h);
    }
    forall id: nat | id < |t'| ensures Nephews(t', id, f) {
      if id < |t| { ChildrenStay(t, c, id, f, 0); }
    }
  }

  /** The new node weighs what its children do, and no grandchild outweighs its uncle. */
  lemma NewNode(t: seq<Children>, a: Entry, b: Entry, f: seq<nat>)
    requires IsTable(t) && |f| >= MAX_SYMBOLS && a.node < |t| && b.node < |t|
    requires a.frequency == Weight(t, a.node, f) && b.frequency == Weight(t, b.node, f)
    requires ChildrenUpTo(t, a.node, f, b.frequency) && ChildrenUpTo(t, b.node, f, a.frequency)
    ensures var t' := t + [Children(a.node, b.node)];
            && IsTable(t') && Weight(t', |t|, f) == a.frequency + b.frequency && Nephews(t', |t|, f)
            && forall n: int :: n >= a.frequency && n >= b.frequency ==> ChildrenUpTo(t', |t|, f, n)
  {
    var c := Children(a.node, b.node);
    WeightStays(t, c, a.node, f);
    WeightStays(t, c, b.node, f);
    ChildrenStay(t, c, a.node, f, b.frequency);
    ChildrenStay(t, c, b.node, f, a.frequency);
  }

  lemma Lighter(t: seq<Children>, l: seq<Entry>, f: seq<nat>, a: Entry, b: Entry, g: Entry, h: Entry)
    requires Weighed(t, l, f) && a in l && b in l && a.frequency <= b.frequency
    requires var e := Entry(|t|, a.frequency + b.frequency);
             && (g == e || g in l) && (h == e || (h in l && b.frequency <= h.frequency))
    ensures var t' := t + [Children(a.node, b.node)];
            IsTable(t') && g.node < |t'| && ChildrenUpTo(t', g.node, f, h.frequency)
  {
    hide Nephews, Weight;
    var c := Children(a.node, b.node);
    NewNode(t, a, b, f);
    if g in l {
      assert ChildrenUpTo(t, g.node, f, b.frequency);
      ChildrenStay(t, c, g.node, f, b.frequency);
    }
  }

  /** What a merge makes of trees that carry their weights. */
  lemma MergeTwoIs(t: seq<Children>, l: seq<Entry>, f: seq<nat>)
    requires Weighed(t, l, f) && |l| >= 2 && Total(l) < 0x8000_0000
    ensures IsTable(t) && |f| >= MAX_SYMBOLS && |SortDesc(l)| == |l|
    ensures forall e :: e in SortDesc(l) ==> e.node < |t| && e.frequency == Weight(t, e.node, f)
    ensures var s, n := SortDesc(l), |l|;
            MergeTwo(t, l) == (t + [Children(s[n - 1].node, s[n - 2].node)],
                               s[..n - 2] + [Entry(|t|, s[n - 1].frequency + s[n - 2].frequency)])
  {
    hide Nephews, ChildrenUpTo, Weight, SortDesc, Total, ToInt;
    MergeKeepsTotal(t, l);
    LastTwoAreLeast(l);
  }

  /** The finished tree has the property, and weighs as much as the trees it has been merged from. */
  lemma {:induction false} MergedWeighed(t: seq<Children>, l: seq<Entry>, f: seq<nat>)
    requires Weighed(t, l, f) && l != [] && 0 <= Total(l) < 0x8000_0000
    requires |l| == 1 ==> l[0].node == |t| - 1
    ensures var r := Merged(t, l);
            && IsTable(r) && (forall id: nat :: id < |r| ==> Nephews(r, id, f)) && Weight(r, |r| - 1, f) == Total(l)
    decreases |l|
  {
    hide Weight, Nephews, ChildrenUpTo, SortDesc, Total;
    MergedNext(t, l);
    if |l| == 1 {
      OneTotal(l);
      assert l[0] in l;
    } else {
      MergeKeepsTotal(t, l);
      MergeWeighed(t, l, f);
      MergedWeighed(MergeTwo(t, l).0, MergeTwo(t, l).1, f);
    }
  }

  lemma OneTotal(l: seq<Entry>)
    requires |l| == 1
    ensures Total(l) == l[0].frequency
  {
    SumByPush(FrequencyOf(), [], l[0]);
    assert l == [] + [l[0]];
  }

  // ---- depth ----

  ghost function Fib(n: nat): nat { if n < 2 then n else Fib(n - 1) + Fib(n - 2) }

  /** The child of a node that has the symbol below it. */
  ghost function Toward(t: seq<Children>, id: nat, s: nat): (c: nat)
    requires IsTable(t) && MAX_SYMBOLS <= id < |t| && s in Leaves(t, id)
    ensures c < id && s in Leaves(t, c)
  {
    if s in Leaves(t, t[id].one) then t[id].one else t[id].zero
  }

  lemma PathToward(t: seq<Children>, id: nat, s: nat)
    requires IsTable(t) && MAX_SYMBOLS <= id < |t| && s in Leaves(t, id)
    ensures PathTo(t, id, s).numBits == PathTo(t, Toward(t, id, s), s).numBits + 1
  {
  }

  /** On the way to a symbol a node weighs at least as much as the next two together. */
  lemma WeighsNextTwo(t: seq<Children>, f: seq<nat>, id: nat, s: nat)
    requires IsTable(t) && MAX_SYMBOLS <= id < |t| && |f| >= MAX_SYMBOLS && s in Leaves(t, id) && Nephews(t, id, f)
    requires AllOccur(f)
    ensures var p := Toward(t, id, s);
            && Weight(t, id, f) > Weight(t, p, f)
            && (p >= MAX_SYMBOLS ==> Weight(t, id, f) >= Weight(t, p, f) + Weight(t, Toward(t, p, s), f))
  {
    hide Leaves;
    SomeWeight(t, f, t[id].one);
    SomeWeight(t, f, t[id].zero);
  }

  /** No symbol has frequency 0. */
  ghost predicate AllOccur(f: seq<nat>) {
    |f| >= MAX_SYMBOLS && forall s: nat :: s < MAX_SYMBOLS ==> Frequency(f, s) >= 1
  }

  /** A symbol k levels below a node gives the node at least the weight Fib(k + 2). */
  lemma {:induction false} DepthWeighs(t: seq<Children>, f: seq<nat>, id: nat, s: nat)
    requires IsTable(t) && id < |t| && |f| >= MAX_SYMBOLS && s in Leaves(t, id)
    requires (forall i: nat :: i < |t| ==> Nephews(t, i, f)) && AllOccur(f)
    ensures Weight(t, id, f) >= Fib(PathTo(t, id, s).numBits + 2)
    decreases id
  {
    hide Nephews, Toward;
    if id < MAX_SYMBOLS {
      LeafWeighs(t, f, id, s);
    } else {
      hide Leaves, PathTo, Weight;
      var p := Toward(t, id, s);
      PathToward(t, id, s);
      WeighsNextTwo(t, f, id, s);
      DepthWeighs(t, f, p, s);
      if p >= MAX_SYMBOLS {
        PathToward(t, p, s);
        DepthWeighs(t, f, Toward(t, p, s), s);
      } else {
        LeafWeighs(t, f, p, s);
      }
    }
  }

  lemma LeafWeighs(t: seq<Children>, f: seq<nat>, id: nat, s: nat)
    requires IsTable(t) && id < |t| && id < MAX_SYMBOLS && s in Leaves(t, id) && AllOccur(f)
    ensures s == id && PathTo(t, id, s).numBits == 0 && Weight(t, id, f) == Frequency(f, id) >= 1
    ensures Fib(2) == 1 && Fib(3) == 2
  {
  }

  lemma {:induction false} SomeWeight(t: seq<Children>, f: seq<nat>, id: nat)
    requires IsTable(t) && id < |t| && AllOccur(f)
    ensures Weight(t, id, f) >= 1
    decreases id
  {
    if id >= MAX_SYMBOLS { SomeWeight(t, f, t[id].zero); }
  }

  lemma {:induction false} FibGrows(m: nat, n: nat)
    requires m <= n
    ensures Fib(m) <= Fib(n)
    decreases n
  {
    if m < n { FibGrows(m, n - 1); }
  }

  lemma FibValues()
    ensures Fib(24) == 46368 && Fib(26) == 121393 && Fib(27) == 196418
  {
    assert Fib(8) == 21 && Fib(9) == 34;
    assert Fib(13) == 233 && Fib(14) == 377;
    assert Fib(18) == 2584 && Fib(19) == 4181;
    assert Fib(22) == 17711 && Fib(23) == 28657;
  }

  // ---- the tree of a frequency table ----

  lemma {:induction false} SymbolsTotal(f: seq<nat>, n: nat)
    requires n <= MAX_SYMBOLS && FitsInt(f) && AllFrequencies(f, n) <= AllFrequencies(f, MAX_SYMBOLS)
    ensures Total(Symbols(f)[..n]) == AllFrequencies(f, n)
  {
    var l := Symbols(f);
    if n > 0 {
      SymbolsTotal(f, n - 1);
      SumByPush(FrequencyOf(), l[..n - 1], l[n - 1]);
      assert l[..n] == l[..n - 1] + [l[n - 1]];
      SumInRange(Frequency(f, n - 1));
    }
  }

  lemma {:induction false} FrequencyInAll(f: seq<nat>, s: nat, n: nat)
    requires s < n <= MAX_SYMBOLS <= |f|
    ensures Frequency(f, s) <= AllFrequencies(f, n) && AllFrequencies(f, s) <= AllFrequencies(f, n)
  {
    if s < n - 1 { FrequencyInAll(f, s, n - 1); }
  }

  lemma SymbolsWeighed(f: seq<nat>)
    requires FitsInt(f)
    ensures Weighed(NoChildren(), Symbols(f), f) && Total(Symbols(f)) == AllFrequencies(f, MAX_SYMBOLS)
  {
    hide AllFrequencies, Total, ToInt;
    var t, l := NoChildren(), Symbols(f);
    SymbolsTotal(f, MAX_SYMBOLS);
    assert l[..MAX_SYMBOLS] == l;
    forall e | e in l ensures e.node < |t| && e.frequency == Weight(t, e.node, f) {
      FrequencyInAll(f, e.node, MAX_SYMBOLS);
      SumInRange(Frequency(f, e.node));
    }
  }

  /** The finished tree: no nephew outweighs its uncle, and the root weighs all frequencies. */
  lemma TreeWeighed(f: seq<nat>)
    requires FitsInt(f)
    ensures var t := TreeOf(f);
            && IsTable(t) && (forall id: nat :: id < |t| ==> Nephews(t, id, f))
            && Weight(t, |t| - 1, f) == AllFrequencies(f, MAX_SYMBOLS)
  {
    hide Weighed, Nephews, Weight, Total;
    SymbolsWeighed(f);
    MergedWeighed(NoChildren(), Symbols(f), f);
  }

  /** So a code of k bits needs frequencies that sum up to Fib(k + 2). */
  lemma CodeLengthBound(f: seq<nat>, codes: seq<Code>, s: nat)
    requires FitsInt(f) && AllOccur(f) && CodesOf(f, codes) && s < MAX_SYMBOLS
    ensures Fib(codes[s].numBits + 2) <= AllFrequencies(f, MAX_SYMBOLS)
  {
    hide TreeOf, Nephews, Weight, AllFrequencies, Leaves, Proper;
    TreeWeighed(f);
    DepthWeighs(TreeOf(f), f, |TreeOf(f)| - 1, s);
  }

  /** The symbol h is more frequent than all others together. */
  ghost predicate Outweighs(f: seq<nat>, h: nat) {
    h < MAX_SYMBOLS <= |f| && 2 * Frequency(f, h) > AllFrequencies(f, MAX_SYMBOLS)
  }

  lemma {:induction false} LeafWeight(t: seq<Children>, f: seq<nat>, id: nat, s: nat)
    requires IsTable(t) && id < |t| && |f| >= MAX_SYMBOLS && s in Leaves(t, id)
    ensures s < MAX_SYMBOLS && Weight(t, id, f) >= Frequency(f, s)
    decreases id
  {
    if id >= MAX_SYMBOLS { LeafWeight(t, f, Toward(t, id, s), s); }
  }

  /** Such a symbol hangs directly below the root, and everything else below the other child. */
  lemma HeavyIsChild(t: seq<Children>, f: seq<nat>, id: nat, h: nat)
    requires IsTable(t) && MAX_SYMBOLS <= id < |t| && |f| >= MAX_SYMBOLS && h in Leaves(t, id) && Nephews(t, id, f)
    requires AllOccur(f) && h < MAX_SYMBOLS && 2 * Frequency(f, h) > Weight(t, id, f)
    ensures Toward(t, id, h) == h
  {
    hide Leaves, Nephews;
    var p := Toward(t, id, h);
    WeighsNextTwo(t, f, id, h);
    if p >= MAX_SYMBOLS {
      LeafWeight(t, f, p, h);
      LeafWeight(t, f, Toward(t, p, h), h);
      assert false;
    }
    LeafWeighs(t, f, p, h);
  }

  /** Then the frequencies of the others bound the codes. */
  lemma CodeLengthBesideHeavy(f: seq<nat>, codes: seq<Code>, h: nat, s: nat)
    requires FitsInt(f) && AllOccur(f) && CodesOf(f, codes) && Outweighs(f, h) && s < MAX_SYMBOLS
    ensures if s == h then codes[s].numBits == 1
            else Fib(codes[s].numBits + 1) <= AllFrequencies(f, MAX_SYMBOLS) - Frequency(f, h)
  {
    hide TreeOf, Nephews, AllFrequencies, Proper, Leaves;
    TreeWeighed(f);
    var t, id := TreeOf(f), |TreeOf(f)| - 1;
    HeavyIsChild(t, f, id, h);
    PathToward(t, id, s);
    HeavyLeaf(t, f, h);
    hide PathTo, Weight, Toward;
    if s != h {
      OtherChild(t, f, id, h, s);
      DepthWeighs(t, f, Toward(t, id, s), s);
    }
  }

  lemma HeavyLeaf(t: seq<Children>, f: seq<nat>, h: nat)
    requires IsTable(t) && h < MAX_SYMBOLS && AllOccur(f)
    ensures h in Leaves(t, h) && PathTo(t, h, h).numBits == 0
  {
  }

  lemma OtherChild(t: seq<Children>, f: seq<nat>, id: nat, h: nat, s: nat)
    requires IsTable(t) && MAX_SYMBOLS <= id < |t| && |f| >= MAX_SYMBOLS && Proper(t, id)
    requires h in Leaves(t, id) && s in Leaves(t, id) && s != h && h < MAX_SYMBOLS && Toward(t, id, h) == h
    ensures Weight(t, id, f) == Frequency(f, h) + Weight(t, Toward(t, id, s), f)
  {
    assert Leaves(t, h) == {h};
  }

  /** What keeps every code within 24 bits: frequencies of less than Fib(27) together, or less than
      Fib(26) beside a symbol that outweighs the others. */
  ghost predicate Shallow(f: seq<nat>) {
    && FitsInt(f) && AllOccur(f)
    && (AllFrequencies(f, MAX_SYMBOLS) < 196418
        || exists h: nat :: h < MAX_SYMBOLS && Outweighs(f, h) && AllFrequencies(f, MAX_SYMBOLS) - Frequency(f, h) < 121393)
  }

  /** Then the codes are what the accumulators hold. */
  lemma ShallowIsShort(f: seq<nat>, codes: seq<Code>)
    requires Shallow(f) && CodesOf(f, codes)
    ensures ShortCodes(codes)
  {
    hide AllFrequencies, Fib, CodesOf, Outweighs;
    FibValues();
    CodesCount(f, codes);
    forall s: nat | s < MAX_SYMBOLS ensures codes[s].numBits <= 24 {
      var k := codes[s].numBits;
      if AllFrequencies(f, MAX_SYMBOLS) < 196418 {
        CodeLengthBound(f, codes, s);
        if k > 24 { FibGrows(27, k + 2); }
      } else {
        var h: nat :| h < MAX_SYMBOLS && Outweighs(f, h) && AllFrequencies(f, MAX_SYMBOLS) - Frequency(f, h) < 121393;
        CodeLengthBesideHeavy(f, codes, h, s);
        if k > 24 { FibGrows(26, k + 1); }
      }
    }
  }

  lemma CodesCount(f: seq<nat>, codes: seq<Code>)
    requires CodesOf(f, codes)
    ensures |codes| >= MAX_SYMBOLS
  {
  }
}
