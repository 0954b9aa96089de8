/** The tree of src/engine/shared/huffman.cpp is the best there is: no prefix code whatever has a smaller
    sum of frequency times code length. */
module HuffmanOptimal {
  import opened Utf8
  import opened Arith
  import opened Sequences
  import opened Huffman
  import opened HuffmanTable
  import opened HuffmanDepth

  // ---- depths ----

  /** A list of depths and frequencies is a list of entries, the depth in the place of the node. */
  ghost function CostTerm(): Entry -> int { (e: Entry) => e.node * e.frequency }

  ghost function Cost(l: seq<Entry>): int { SumBy(CostTerm(), l) }

  /** How many of the 2^m places at depth m a subtree at depth d takes up. */
  ghost function Share(m: nat, d: nat): nat { if d <= m then Pow2(m - d) else 0 }

  ghost function ShareTerm(m: nat): Entry -> int { (e: Entry) => Share(m, e.node) }

  ghost function Kraft(l: seq<Entry>, m: nat): int { SumBy(ShareTerm(m), l) }

  /** The depths are those of disjoint subtrees. */
  ghost predicate Fits(l: seq<Entry>, m: nat) {
    (forall i :: 0 <= i < |l| ==> l[i].node <= m) && Kraft(l, m) <= Pow2(m)
  }

  ghost predicate Nonnegative(l: seq<Entry>) { forall i :: 0 <= i < |l| ==> l[i].frequency >= 0 }

  ghost predicate SameFrequencies(l: seq<Entry>, k: seq<Entry>) {
    |l| == |k| && forall i :: 0 <= i < |l| ==> l[i].frequency == k[i].frequency
  }

  // ---- merging the two least frequent ----

  /** What the merges add up to: the frequencies of all the trees that are made. */
  ghost function MergeCost(l: seq<Entry>): int
    decreases |l|
  {
    if |l| <= 1 then 0
    else
      SortKeeps(l);
      var s, n := SortDesc(l), |l|;
      var sum := s[n - 1].frequency + s[n - 2].frequency;
      sum + MergeCost(s[..n - 2] + [Entry(0, sum)])
  }

  lemma {:induction false} InsertSame(l: seq<Entry>, k: seq<Entry>, e: Entry, f: Entry)
    requires SameFrequencies(l, k) && e.frequency == f.frequency
    ensures SameFrequencies(Insert(l, e), Insert(k, f))
  {
    if l != [] && l[|l| - 1].frequency < e.frequency {
      InsertSame(l[..|l| - 1], k[..|k| - 1], e, f);
    }
  }

  lemma {:induction false} SortSame(l: seq<Entry>, k: seq<Entry>)
    requires SameFrequencies(l, k)
    ensures SameFrequencies(SortDesc(l), SortDesc(k))
  {
    hide Insert;
    if l != [] {
      SortSame(l[..|l| - 1], k[..|k| - 1]);
      InsertSame(SortDesc(l[..|l| - 1]), SortDesc(k[..|k| - 1]), l[|l| - 1], k[|k| - 1]);
    }
  }

  /** The cost depends on the frequencies only. */
  lemma {:induction false} MergeCostSame(l: seq<Entry>, k: seq<Entry>)
    requires SameFrequencies(l, k)
    ensures MergeCost(l) == MergeCost(k)
    decreases |l|
  {
    hide SortDesc;
    if |l| > 1 {
      SortSame(l, k);
      SortKeeps(l);
      SortKeeps(k);
      var s, s', n := SortDesc(l), SortDesc(k), |l|;
      var sum := s[n - 1].frequency + s[n - 2].frequency;
      MergeCostSame(s[..n - 2] + [Entry(0, sum)], s'[..n - 2] + [Entry(0, sum)]);
    }
  }

  // ---- exchanging depths ----

  /** The greater depth goes to the smaller frequency. */
  lemma Exchange(l: seq<Entry>, m: nat, j: nat, i: nat) returns (k: seq<Entry>)
    requires j <= i < |l| && l[j].frequency >= l[i].frequency && l[j].node >= l[i].node && Fits(l, m)
    ensures SameFrequencies(k, l) && Fits(k, m) && Cost(k) <= Cost(l)
    ensures k[i].node == l[j].node && forall x :: 0 <= x < |l| && x != i && x != j ==> k[x] == l[x]
    ensures k[j].node <= l[j].node
  {
    hide SumBy;
    var a, b := Entry(l[i].node, l[j].frequency), Entry(l[j].node, l[i].frequency);
    k := l[j := a][i := b];
    if j == i {
      assert k == l;
    } else {
      SumByUpdate(CostTerm(), l, j, a);
      SumByUpdate(CostTerm(), l[j := a], i, b);
      SumByUpdate(ShareTerm(m), l, j, a);
      SumByUpdate(ShareTerm(m), l[j := a], i, b);
      Crosswise(l[i].node, l[j].node, l[i].frequency, l[j].frequency);
    }
  }

  lemma Crosswise(d: int, d': int, w: int, w': int)
    requires d <= d' && w <= w'
    ensures d * w' + d' * w <= d * w + d' * w'
  {
    MulNonneg(d' - d, w' - w);
    Distribute(d' - d, w', -w);
  }

  /** The place of the greatest depth among the first n. */
  lemma {:induction false} Deepest(l: seq<Entry>, n: nat) returns (j: nat)
    requires 0 < n <= |l|
    ensures j < n && forall i :: 0 <= i < n ==> l[i].node <= l[j].node
  {
    if n == 1 {
      j := 0;
    } else {
      j := Deepest(l, n - 1);
      if l[n - 1].node > l[j].node { j := n - 1; }
    }
  }

  lemma ShareScales(m: nat, d: nat, x: nat)
    requires x <= d <= m
    ensures Share(m, x) == Pow2(m - d) * Share(d, x)
  {
    Pow2Add(m - d, d - x);
  }

  /** Where nothing is deeper than d, the places at depth m are those at depth d, each 2^(m - d) times. */
  lemma {:induction false} Rescale(l: seq<Entry>, m: nat, d: nat)
    requires d <= m && forall i :: 0 <= i < |l| ==> l[i].node <= d
    ensures Kraft(l, m) == Pow2(m - d) * Kraft(l, d)
  {
    hide Share, Pow2;
    if l != [] {
      var n := |l| - 1;
      Rescale(l[..n], m, d);
      ShareScales(m, d, l[n].node);
      Distribute(Pow2(m - d), Kraft(l[..n], d), Share(d, l[n].node));
    }
  }

  lemma FitsBelow(l: seq<Entry>, m: nat, d: nat)
    requires Fits(l, m) && d <= m && forall i :: 0 <= i < |l| ==> l[i].node <= d
    ensures Fits(l, d)
  {
    hide Kraft, Pow2;
    Rescale(l, m, d);
    Pow2Add(m - d, d);
    Cancel(Pow2(m - d), Kraft(l, d), Pow2(d));
  }

  lemma Cancel(p: nat, k: int, q: int)
    requires p > 0 && p * k <= p * q
    ensures k <= q
  {
    if k >= q + 1 {
      MulOrder(q + 1, k, p);
    }
  }

  /** A single deepest place can be lifted to the depth of the others, since there is room for it. */
  lemma Lift(l: seq<Entry>, m: nat, d: nat) returns (k: seq<Entry>)
    requires l != [] && Fits(l, m) && l[|l| - 1].node == m && d <= m && Nonnegative(l)
    requires forall i :: 0 <= i < |l| - 1 ==> l[i].node <= d
    ensures SameFrequencies(k, l) && Fits(k, d) && Cost(k) <= Cost(l) && k == l[..|l| - 1] + [Entry(d, l[|l| - 1].frequency)]
  {
    hide SumBy;
    var n := |l| - 1;
    var front, w := l[..n], l[n].frequency;
    k := front + [Entry(d, w)];
    assert front + [l[n]] == l;
    SumByPush(CostTerm(), front, l[n]);
    SumByPush(CostTerm(), front, Entry(d, w));
    MulOrder(d, m, w);
    SumByPush(ShareTerm(m), front, l[n]);
    SumByPush(ShareTerm(d), front, Entry(d, w));
    Rescale(front, m, d);
    Pow2Add(m - d, d);
    RoomForOne(Pow2(m - d), Kraft(front, d), Pow2(d));
  }

  lemma MulOrder(d: int, m: int, w: int)
    requires d <= m && w >= 0
    ensures d * w <= m * w
  {
    MulNonneg(m - d, w);
  }

  lemma RoomForOne(p: nat, k: int, q: int)
    requires p > 0 && p * k + 1 <= p * q
    ensures k + 1 <= q
  {
    if k >= q { MulOrder(q, k, p); }
  }

  /** At equal cost or less the two least frequent can be the deepest, side by side. */
  lemma Paired(l: seq<Entry>, m: nat) returns (k: seq<Entry>, d: nat)
    requires |l| >= 2 && Descending(l) && Fits(l, m) && Nonnegative(l)
    ensures SameFrequencies(k, l) && Fits(k, d) && Cost(k) <= Cost(l)
    ensures d > 0 && k[|l| - 1].node == d && k[|l| - 2].node == d
  {
    hide Cost, Kraft;
    var n := |l|;
    var j := Deepest(l, n);
    FitsBelow(l, m, l[j].node);
    var k1 := Exchange(l, l[j].node, j, n - 1);
    var i := Deepest(k1, n - 1);
    d := k1[i].node;
    var k2 := Lift(k1, l[j].node, d);
    assert k2[i].frequency >= k2[n - 2].frequency;
    k := Exchange(k2, d, i, n - 2);
    if d == 0 { TwoShares(k, d); }
  }

  lemma TwoShares(k: seq<Entry>, d: nat)
    requires |k| >= 2 && Fits(k, d) && k[|k| - 1].node == d && k[|k| - 2].node == d
    ensures Pow2(d) >= 2 && Kraft(k[..|k| - 2], d) == Kraft(k, d) - 2 && Kraft(k[..|k| - 2], d) >= 0
  {
    SumByLastTwo(ShareTerm(d), k);
    SumByNonneg(ShareTerm(d), k[..|k| - 2]);
  }

  lemma CostOfPair(k: seq<Entry>)
    requires |k| >= 2 && k[|k| - 1].node == k[|k| - 2].node
    ensures Cost(k) == Cost(k[..|k| - 2]) + k[|k| - 1].node * (k[|k| - 1].frequency + k[|k| - 2].frequency)
  {
    var n := |k|;
    SumByLastTwo(CostTerm(), k);
    Distribute(k[n - 1].node, k[n - 1].frequency, k[n - 2].frequency);
  }

  /** The pair becomes one tree, one step higher. */
  lemma MergePair(k: seq<Entry>, d: nat) returns (r: seq<Entry>)
    requires |k| >= 2 && Fits(k, d) && Nonnegative(k) && d > 0 && k[|k| - 1].node == d && k[|k| - 2].node == d
    ensures var n := |k|;
            var sum := k[n - 1].frequency + k[n - 2].frequency;
            && r == k[..n - 2] + [Entry(d - 1, sum)] && Fits(r, d) && Nonnegative(r) && Cost(r) == Cost(k) - sum
  {
    hide SumBy;
    var n := |k|;
    var sum := k[n - 1].frequency + k[n - 2].frequency;
    var e := Entry(d - 1, sum);
    r := k[..n - 2] + [e];
    TwoShares(k, d);
    CostOfPair(k);
    SumByPush(CostTerm(), k[..n - 2], e);
    SumByPush(ShareTerm(d), k[..n - 2], e);
    Pow2Small();
    Distribute(sum, d - 1, 1);
  }

  /** No depths that fit cost less than merging the two least frequent again and again. */
  lemma {:induction false} MergingIsLeast(l: seq<Entry>, m: nat)
    requires Fits(l, m) && Nonnegative(l)
    ensures Cost(l) >= MergeCost(l)
    decreases |l|
  {
    hide Cost, Kraft, SortDesc, SumBy;
    if |l| <= 1 {
      CostNonneg(l);
    } else {
      var s, n := SortDesc(l), |l|;
      SortedFits(l, m);
      var k, d := Paired(s, m);
      var r := MergePair(k, d);
      MergingIsLeast(r, d);
      MergeCostSame(r, s[..n - 2] + [Entry(0, s[n - 1].frequency + s[n - 2].frequency)]);
    }
  }

  lemma CostNonneg(l: seq<Entry>)
    requires Nonnegative(l)
    ensures Cost(l) >= 0
  {
    forall e | e in l ensures CostTerm()(e) >= 0 { MulNonneg(e.node, e.frequency); }
    SumByNonneg(CostTerm(), l);
  }

  lemma SortedFits(l: seq<Entry>, m: nat)
    requires Fits(l, m) && Nonnegative(l)
    ensures var s := SortDesc(l);
            |s| == |l| && Fits(s, m) && Nonnegative(s) && Descending(s) && Cost(s) == Cost(l)
  {
    hide SortDesc;
    SortKeeps(l);
    SortSum(CostTerm(), l);
    SortSum(ShareTerm(m), l);
    var s := SortDesc(l);
    forall i | 0 <= i < |s| ensures s[i].node <= m && s[i].frequency >= 0 {
      assert s[i] in multiset(s);
      assert s[i] in l;
    }
  }

  // ---- prefix codes ----

  predicate IsPrefix(c: Code, d: Code) {
    c.numBits <= d.numBits && d.bits % Pow2(c.numBits) == c.bits
  }

  /** No code begins with another. */
  ghost predicate PrefixFree(codes: seq<Code>) {
    && |codes| >= MAX_SYMBOLS
    && (forall s: nat :: s < MAX_SYMBOLS ==> codes[s].bits < Pow2(codes[s].numBits))
    && forall s: nat, s': nat :: s < MAX_SYMBOLS && s' < MAX_SYMBOLS && s != s' ==> !IsPrefix(codes[s], codes[s'])
  }

  /** The places at depth m below the codes that begin with p. */
  ghost function Shares(codes: seq<Code>, n: nat, m: nat, p: Code): nat
    requires n <= |codes|
  {
    if n == 0 then 0
    else Shares(codes, n - 1, m, p) + if IsPrefix(p, codes[n - 1]) then Share(m, codes[n - 1].numBits) else 0
  }

  /** p and one more bit. */
  ghost function Next(p: Code, bit: nat): Code {
    MulNonneg(Pow2(p.numBits), bit);
    Code(p.bits + Pow2(p.numBits) * bit, p.numBits + 1)
  }

  lemma PrefixSplits(p: Code, c: Code)
    requires p.bits < Pow2(p.numBits) && p.numBits < c.numBits
    ensures IsPrefix(p, c) <==> IsPrefix(Next(p, 0), c) || IsPrefix(Next(p, 1), c)
    ensures !(IsPrefix(Next(p, 0), c) && IsPrefix(Next(p, 1), c))
  {
    hide Pow2;
    var q := Pow2(p.numBits);
    assert Pow2(p.numBits + 1) == 2 * q by { PowNext(p.numBits); }
    HighBit(c.bits, q);
  }

  lemma PowNext(k: nat)
    ensures Pow2(k + 1) == 2 * Pow2(k)
  {
  }

  lemma HighBit(x: nat, q: nat)
    requires q > 0
    ensures x % (2 * q) == x % q || x % (2 * q) == x % q + q
  {
    var z, y := Division(x, 2 * q);
    Associate(q, 2, z);
    if y < q {
      DivModUnique(x, q, 2 * z, y);
    } else {
      Distribute(q, 2 * z, 1);
      DivModUnique(x, q, 2 * z + 1, y - q);
    }
  }

  lemma {:induction false} SharesSplit(codes: seq<Code>, n: nat, m: nat, p: Code)
    requires n <= MAX_SYMBOLS && PrefixFree(codes) && p.bits < Pow2(p.numBits)
    requires forall s: nat :: s < n && IsPrefix(p, codes[s]) ==> codes[s].numBits > p.numBits
    ensures Shares(codes, n, m, p) == Shares(codes, n, m, Next(p, 0)) + Shares(codes, n, m, Next(p, 1))
  {
    hide Pow2, IsPrefix, Share;
    if n > 0 {
      SharesSplit(codes, n - 1, m, p);
      var c := codes[n - 1];
      if p.numBits < c.numBits { PrefixSplits(p, c); } else { TooShort(p, c); }
    }
  }

  lemma TooShort(p: Code, c: Code)
    requires c.numBits <= p.numBits
    ensures !IsPrefix(Next(p, 0), c) && !IsPrefix(Next(p, 1), c)
  {
  }

  /** Only the code s begins with itself. */
  lemma {:induction false} SharesOfCode(codes: seq<Code>, n: nat, m: nat, s: nat)
    requires n <= MAX_SYMBOLS && PrefixFree(codes) && s < MAX_SYMBOLS
    ensures Shares(codes, n, m, codes[s]) == if s < n then Share(m, codes[s].numBits) else 0
  {
    if n > 0 {
      SharesOfCode(codes, n - 1, m, s);
      if s == n - 1 { SmallMod(codes[s].bits, Pow2(codes[s].numBits)); }
    }
  }

  lemma {:induction false} NoShares(codes: seq<Code>, n: nat, m: nat, p: Code)
    requires n <= |codes| && forall s: nat :: s < n ==> !IsPrefix(p, codes[s])
    ensures Shares(codes, n, m, p) == 0
  {
    if n > 0 { NoShares(codes, n - 1, m, p); }
  }

  lemma FullLength(p: Code, c: Code)
    requires IsPrefix(p, c) && c.numBits == p.numBits && c.bits < Pow2(c.numBits)
    ensures c == p
  {
    SmallMod(c.bits, Pow2(c.numBits));
  }

  lemma NextInRange(p: Code, bit: nat)
    requires p.bits < Pow2(p.numBits) && bit < 2
    ensures Next(p, bit).bits < Pow2(p.numBits + 1) && Next(p, bit).numBits == p.numBits + 1
  {
    PowNext(p.numBits);
  }

  /** Codes that begin with p take up no more than the places below p. */
  lemma {:induction false} SharesFit(codes: seq<Code>, m: nat, p: Code)
    requires PrefixFree(codes) && p.bits < Pow2(p.numBits) && p.numBits <= m
    requires forall s: nat :: s < MAX_SYMBOLS ==> codes[s].numBits <= m
    ensures Shares(codes, MAX_SYMBOLS, m, p) <= Pow2(m - p.numBits)
    decreases m - p.numBits
  {
    hide Shares, IsPrefix, Next, Pow2;
    if s: nat :| s < MAX_SYMBOLS && IsPrefix(p, codes[s]) && codes[s].numBits <= p.numBits {
      LongEnough(p, codes[s]);
      FullLength(p, codes[s]);
      SharesOfCode(codes, MAX_SYMBOLS, m, s);
    } else if p.numBits == m {
      NoShares(codes, MAX_SYMBOLS, m, p);
    } else {
      SharesSplit(codes, MAX_SYMBOLS, m, p);
      NextInRange(p, 0);
      NextInRange(p, 1);
      SharesFit(codes, m, Next(p, 0));
      SharesFit(codes, m, Next(p, 1));
      PowNext(m - p.numBits - 1);
    }
  }

  lemma LongEnough(p: Code, c: Code)
    requires IsPrefix(p, c)
    ensures p.numBits <= c.numBits
  {
  }

  /** The code lengths and frequencies of the symbols. */
  ghost function Labelled(f: seq<nat>, codes: seq<Code>): (l: seq<Entry>)
    requires |f| >= MAX_SYMBOLS && |codes| >= MAX_SYMBOLS
    ensures |l| == MAX_SYMBOLS
  {
    seq(MAX_SYMBOLS, s requires 0 <= s < MAX_SYMBOLS => Entry(codes[s].numBits, Frequency(f, s)))
  }

  /** The sum of frequency times code length. */
  ghost function CodeCost(f: seq<nat>, codes: seq<Code>, n: nat): nat
    requires n <= MAX_SYMBOLS && |f| >= MAX_SYMBOLS && |codes| >= MAX_SYMBOLS
  {
    if n == 0 then 0
    else
      MulNonneg(codes[n - 1].numBits, Frequency(f, n - 1));
      CodeCost(f, codes, n - 1) + codes[n - 1].numBits * Frequency(f, n - 1)
  }

  lemma {:induction false} LabelledSums(f: seq<nat>, codes: seq<Code>, m: nat, n: nat)
    requires n <= MAX_SYMBOLS && |f| >= MAX_SYMBOLS && |codes| >= MAX_SYMBOLS
    ensures Kraft(Labelled(f, codes)[..n], m) == Shares(codes, n, m, Code(0, 0))
    ensures Cost(Labelled(f, codes)[..n]) == CodeCost(f, codes, n)
  {
    hide Share;
    var l := Labelled(f, codes);
    if n > 0 {
      LabelledSums(f, codes, m, n - 1);
      assert l[..n][..n - 1] == l[..n - 1] && l[..n][n - 1] == l[n - 1];
      assert IsPrefix(Code(0, 0), codes[n - 1]);
    }
  }

  lemma {:induction false} LongestOf(codes: seq<Code>, n: nat) returns (m: nat)
    requires n <= |codes|
    ensures forall s: nat :: s < n ==> codes[s].numBits <= m
  {
    m := 0;
    if n > 0 {
      m := LongestOf(codes, n - 1);
      if codes[n - 1].numBits > m { m := codes[n - 1].numBits; }
    }
  }

  /** Every prefix code costs at least what the merges add up to. */
  lemma PrefixCodeCost(f: seq<nat>, codes: seq<Code>)
    requires |f| >= MAX_SYMBOLS && PrefixFree(codes)
    ensures CodeCost(f, codes, MAX_SYMBOLS) >= MergeCost(Labelled(f, codes))
  {
    hide IsPrefix, Shares, Cost, Kraft, MergeCost, CodeCost;
    var m := LongestOf(codes, MAX_SYMBOLS);
    var l := Labelled(f, codes);
    SharesFit(codes, m, Code(0, 0));
    LabelledSums(f, codes, m, MAX_SYMBOLS);
    assert l[..MAX_SYMBOLS] == l;
    MergingIsLeast(l, m);
  }

  // ---- what the tree costs ----

  /** The weights of all inner nodes. */
  ghost function TreeCost(t: seq<Children>, id: nat, f: seq<nat>): nat
    requires IsTable(t) && id < |t| && |f| >= MAX_SYMBOLS
    decreases id
  {
    if id < MAX_SYMBOLS then 0 else TreeCost(t, t[id].zero, f) + TreeCost(t, t[id].one, f) + Weight(t, id, f)
  }

  lemma {:induction false} TreeCostStays(t: seq<Children>, c: Children, id: nat, f: seq<nat>)
    requires IsTable(t) && id < |t| && c.zero < |t| && c.one < |t| && |f| >= MAX_SYMBOLS
    ensures IsTable(t + [c]) && TreeCost(t + [c], id, f) == TreeCost(t, id, f)
    decreases id
  {
    hide Weight;
    WeightStays(t, c, id, f);
    if id >= MAX_SYMBOLS {
      TreeCostStays(t, c, t[id].zero, f);
      TreeCostStays(t, c, t[id].one, f);
    }
  }

  ghost function TreeTerm(t: seq<Children>, f: seq<nat>): Entry -> int {
    (e: Entry) => if IsTable(t) && e.node < |t| && |f| >= MAX_SYMBOLS then TreeCost(t, e.node, f) else 0
  }

  ghost function Forest(t: seq<Children>, l: seq<Entry>, f: seq<nat>): int { SumBy(TreeTerm(t, f), l) }

  lemma {:induction false} ForestStays(t: seq<Children>, c: Children, l: seq<Entry>, f: seq<nat>)
    requires IsTable(t) && c.zero < |t| && c.one < |t| && |f| >= MAX_SYMBOLS && forall e :: e in l ==> e.node < |t|
    ensures Forest(t + [c], l, f) == Forest(t, l, f)
  {
    hide TreeCost;
    if l != [] {
      ForestStays(t, c, l[..|l| - 1], f);
      TreeCostStays(t, c, l[|l| - 1].node, f);
    }
  }

  /** One merge: the costs of the trees grow by the weight of the new one. */
  lemma MergeAdds(t: seq<Children>, l: seq<Entry>, f: seq<nat>)
    requires Weighed(t, l, f) && |l| >= 2 && Total(l) < 0x8000_0000
    ensures Forest(MergeTwo(t, l).0, MergeTwo(t, l).1, f) + MergeCost(MergeTwo(t, l).1) == Forest(t, l, f) + MergeCost(l)
  {
    hide Weighed, Weight, SortDesc, Total, Forest, MergeCost, MergeTwo;
    MergeTwoIs(t, l, f);
    var s, n := SortDesc(l), |l|;
    var a, b := s[n - 1], s[n - 2];
    assert a in s && b in s;
    var c, e := Children(a.node, b.node), Entry(|t|, a.frequency + b.frequency);
    MergeCostNext(l);
    ForestSorted(t, l, f);
    ForestStays(t, c, s[..n - 2], f);
    NewTree(t, s, f);
    MergeCostSame(s[..n - 2] + [e], s[..n - 2] + [Entry(0, a.frequency + b.frequency)]);
  }

  lemma MergeCostNext(l: seq<Entry>)
    requires |l| >= 2
    ensures var s, n := SortDesc(l), |l|;
            && |s| == n
            && var sum := s[n - 1].frequency + s[n - 2].frequency;
               MergeCost(l) == sum + MergeCost(s[..n - 2] + [Entry(0, sum)])
  {
    hide SortDesc;
    SortKeeps(l);
  }

  lemma ForestSorted(t: seq<Children>, l: seq<Entry>, f: seq<nat>)
    ensures Forest(t, SortDesc(l), f) == Forest(t, l, f)
  {
    SortSum(TreeTerm(t, f), l);
  }

  lemma NewTree(t: seq<Children>, s: seq<Entry>, f: seq<nat>)
    requires |s| >= 2 && IsTable(t) && |f| >= MAX_SYMBOLS
    requires forall e :: e in s ==> e.node < |t| && e.frequency == Weight(t, e.node, f)
    ensures var n := |s|;
            var a, b := s[n - 1], s[n - 2];
            var c, e := Children(a.node, b.node), Entry(|t|, a.frequency + b.frequency);
            Forest(t + [c], s[..n - 2] + [e], f)
            == Forest(t + [c], s[..n - 2], f) + Forest(t, s, f) - Forest(t, s[..n - 2], f) + a.frequency + b.frequency
  {
    hide Weight, SumBy;
    var n := |s|;
    var a, b := s[n - 1], s[n - 2];
    assert a in s && b in s;
    var c, e := Children(a.node, b.node), Entry(|t|, a.frequency + b.frequency);
    SumByPush(TreeTerm(t + [c], f), s[..n - 2], e);
    SumByLastTwo(TreeTerm(t, f), s);
    NewTreeCost(t, a.node, b.node, f);
  }

  lemma NewTreeCost(t: seq<Children>, a: nat, b: nat, f: seq<nat>)
    requires IsTable(t) && a < |t| && b < |t| && |f| >= MAX_SYMBOLS
    ensures var t' := t + [Children(a, b)];
            IsTable(t') && TreeCost(t', |t|, f) == TreeCost(t, a, f) + TreeCost(t, b, f) + Weight(t, a, f) + Weight(t, b, f)
  {
    var c := Children(a, b);
    TreeCostStays(t, c, a, f);
    TreeCostStays(t, c, b, f);
    WeightStays(t, c, a, f);
    WeightStays(t, c, b, f);
  }

  lemma {:induction false} MergedCost(t: seq<Children>, l: seq<Entry>, f: seq<nat>)
    requires Weighed(t, l, f) && l != [] && 0 <= Total(l) < 0x8000_0000
    requires |l| == 1 ==> l[0].node == |t| - 1
    ensures var r := Merged(t, l);
            IsTable(r) && r != [] && TreeCost(r, |r| - 1, f) == Forest(t, l, f) + MergeCost(l)
    decreases |l|
  {
    hide Weight, Nephews, ChildrenUpTo, SortDesc, Total, Forest, TreeCost;
    MergedNext(t, l);
    if |l| == 1 {
      OneTree(t, l, f);
    } else {
      MergeKeepsTotal(t, l);
      MergeWeighed(t, l, f);
      MergeAdds(t, l, f);
      MergedCost(MergeTwo(t, l).0, MergeTwo(t, l).1, f);
    }
  }

  lemma OneTree(t: seq<Children>, l: seq<Entry>, f: seq<nat>)
    requires IsTable(t) && |f| >= MAX_SYMBOLS && |l| == 1 && l[0].node < |t|
    ensures Forest(t, l, f) == TreeCost(t, l[0].node, f) && MergeCost(l) == 0
  {
    SumByPush(TreeTerm(t, f), [], l[0]);
    assert l == [] + [l[0]];
  }

  lemma {:induction false} NoTrees(f: seq<nat>, l: seq<Entry>)
    requires |f| >= MAX_SYMBOLS && forall e :: e in l ==> e.node < MAX_SYMBOLS
    ensures Forest(NoChildren(), l, f) == 0
  {
    if l != [] { NoTrees(f, l[..|l| - 1]); }
  }

  lemma TreeOfCosts(f: seq<nat>)
    requires FitsInt(f)
    ensures var t := TreeOf(f);
            IsTable(t) && t != [] && TreeCost(t, |t| - 1, f) == MergeCost(Symbols(f))
  {
    hide Weighed, Forest, Total, MergeCost, TreeCost;
    SymbolsWeighed(f);
    NoTrees(f, Symbols(f));
    MergedCost(NoChildren(), Symbols(f), f);
  }

  // ---- the same, summed over the symbols ----

  ghost function WeightBelow(t: seq<Children>, id: nat, f: seq<nat>, n: nat): nat
    requires IsTable(t) && id < |t| && n <= MAX_SYMBOLS <= |f|
  {
    if n == 0 then 0 else WeightBelow(t, id, f, n - 1) + if n - 1 in Leaves(t, id) then Frequency(f, n - 1) else 0
  }

  ghost function LengthTerm(t: seq<Children>, id: nat, f: seq<nat>, s: nat): nat
    requires IsTable(t) && id < |t| && s < MAX_SYMBOLS <= |f|
  {
    if s in Leaves(t, id) then
      var k := PathTo(t, id, s).numBits;
      MulNonneg(k, Frequency(f, s));
      k * Frequency(f, s)
    else 0
  }

  ghost function LengthBelow(t: seq<Children>, id: nat, f: seq<nat>, n: nat): nat
    requires IsTable(t) && id < |t| && n <= MAX_SYMBOLS <= |f|
  {
    if n == 0 then 0 else LengthBelow(t, id, f, n - 1) + LengthTerm(t, id, f, n - 1)
  }

  lemma OneChildHolds(t: seq<Children>, id: nat, s: nat)
    requires IsTable(t) && MAX_SYMBOLS <= id < |t| && Proper(t, id)
    ensures s in Leaves(t, id) ==>
              if Toward(t, id, s) == t[id].one then s !in Leaves(t, t[id].zero)
              else Toward(t, id, s) == t[id].zero && s !in Leaves(t, t[id].one)
    ensures s !in Leaves(t, id) ==> s !in Leaves(t, t[id].zero) && s !in Leaves(t, t[id].one)
  {
  }

  /** One symbol: it is below one child only, and one step nearer to it. */
  lemma TermSplits(t: seq<Children>, id: nat, f: seq<nat>, s: nat)
    requires IsTable(t) && MAX_SYMBOLS <= id < |t| && s < MAX_SYMBOLS <= |f| && Proper(t, id)
    ensures LengthTerm(t, id, f, s)
         == LengthTerm(t, t[id].zero, f, s) + LengthTerm(t, t[id].one, f, s)
            + if s in Leaves(t, id) then Frequency(f, s) else 0
  {
    hide Leaves, Proper, PathTo, Toward, Frequency;
    OneChildHolds(t, id, s);
    if s in Leaves(t, id) {
      PathToward(t, id, s);
      Distribute(Frequency(f, s), PathTo(t, Toward(t, id, s), s).numBits, 1);
    }
  }

  lemma {:induction false} BelowSplits(t: seq<Children>, id: nat, f: seq<nat>, n: nat)
    requires IsTable(t) && MAX_SYMBOLS <= id < |t| && n <= MAX_SYMBOLS <= |f| && Proper(t, id)
    ensures WeightBelow(t, id, f, n) == WeightBelow(t, t[id].zero, f, n) + WeightBelow(t, t[id].one, f, n)
    ensures LengthBelow(t, id, f, n)
         == LengthBelow(t, t[id].zero, f, n) + LengthBelow(t, t[id].one, f, n) + WeightBelow(t, id, f, n)
  {
    hide LengthTerm;
    if n > 0 {
      BelowSplits(t, id, f, n - 1);
      TermSplits(t, id, f, n - 1);
    }
  }

  lemma {:induction false} BelowLeaf(t: seq<Children>, id: nat, f: seq<nat>, n: nat)
    requires IsTable(t) && id < |t| && id < MAX_SYMBOLS && n <= MAX_SYMBOLS <= |f|
    ensures WeightBelow(t, id, f, n) == (if id < n then Frequency(f, id) else 0) && LengthBelow(t, id, f, n) == 0
  {
    if n > 0 { BelowLeaf(t, id, f, n - 1); }
  }

  lemma {:induction false} TreeCostIsLength(t: seq<Children>, id: nat, f: seq<nat>)
    requires IsTable(t) && id < |t| && |f| >= MAX_SYMBOLS && Proper(t, id)
    ensures WeightBelow(t, id, f, MAX_SYMBOLS) == Weight(t, id, f) && LengthBelow(t, id, f, MAX_SYMBOLS) == TreeCost(t, id, f)
    decreases id
  {
    hide LengthBelow, WeightBelow, Leaves;
    if id < MAX_SYMBOLS {
      BelowLeaf(t, id, f, MAX_SYMBOLS);
    } else {
      BelowSplits(t, id, f, MAX_SYMBOLS);
      TreeCostIsLength(t, t[id].zero, f);
      TreeCostIsLength(t, t[id].one, f);
    }
  }

  lemma {:induction false} CodeCostIsLength(t: seq<Children>, start: nat, f: seq<nat>, codes: seq<Code>, n: nat)
    requires ArePaths(t, start, codes) && n <= MAX_SYMBOLS <= |f|
    ensures CodeCost(f, codes, n) == LengthBelow(t, start, f, n)
  {
    hide Leaves, Proper, PathTo;
    if n > 0 {
      CodeCostIsLength(t, start, f, codes, n - 1);
      assert n - 1 in Leaves(t, start);
    }
  }

  /** The codes of the construction cost what its merges add up to. */
  lemma CodesCost(f: seq<nat>, codes: seq<Code>)
    requires FitsInt(f) && CodesOf(f, codes)
    ensures |codes| >= MAX_SYMBOLS && CodeCost(f, codes, MAX_SYMBOLS) == MergeCost(Symbols(f))
  {
    hide TreeOf, Symbols, CodeCost, LengthBelow, WeightBelow, TreeCost, MergeCost, Proper, HoldsAll, AllFrequencies;
    TreeOfCosts(f);
    var t := TreeOf(f);
    TreeCostIsLength(t, |t| - 1, f);
    CodeCostIsLength(t, |t| - 1, f, codes, MAX_SYMBOLS);
  }

  // ---- optimality ----

  lemma SymbolsLabelled(f: seq<nat>, codes: seq<Code>)
    requires FitsInt(f) && |codes| >= MAX_SYMBOLS
    ensures SameFrequencies(Symbols(f), Labelled(f, codes))
  {
    hide AllFrequencies, ToInt;
    forall s: nat | s < MAX_SYMBOLS ensures ToInt(Frequency(f, s)) == Frequency(f, s) {
      FrequencyInAll(f, s, MAX_SYMBOLS);
      SumInRange(Frequency(f, s));
    }
  }

  /** No prefix code is cheaper than the one built from the frequencies. */
  lemma NoCodeIsCheaper(f: seq<nat>, codes: seq<Code>, other: seq<Code>)
    requires FitsInt(f) && CodesOf(f, codes) && PrefixFree(other)
    ensures |codes| >= MAX_SYMBOLS && CodeCost(f, codes, MAX_SYMBOLS) <= CodeCost(f, other, MAX_SYMBOLS)
  {
    hide Symbols, Labelled, CodesOf, IsPrefix, AllFrequencies, CodeCost, MergeCost;
    CodesCost(f, codes);
    PrefixCodeCost(f, other);
    SymbolsLabelled(f, other);
    MergeCostSame(Symbols(f), Labelled(f, other));
  }

  /** Codes that lead from one node of a table to different symbols are a prefix code. */
  lemma CodedIsPrefixFree(t: seq<Children>, start: nat, codes: seq<Code>)
    requires IsTable(t) && start < |t| && Coded(t, start, codes)
    ensures PrefixFree(codes)
  {
    hide Pow2, Reads;
    forall s: nat | s < MAX_SYMBOLS ensures codes[s].bits < Pow2(codes[s].numBits) {
      assert CodeLeads(t, start, codes[s], s);
    }
    forall s: nat, s': nat | s < MAX_SYMBOLS && s' < MAX_SYMBOLS && s != s' ensures !IsPrefix(codes[s], codes[s']) {
      assert CodeLeads(t, start, codes[s], s) && CodeLeads(t, start, codes[s'], s');
      var c, d := codes[s], codes[s'];
      if IsPrefix(c, d) {
        SmallMod(c.bits, Pow2(c.numBits));
        ReadsLow(t, start, c.bits, d.bits, c.numBits, s);
        ReadsOnce(t, start, d.bits, c.numBits, s, d.numBits, s');
        assert false;
      }
    }
  }

  // ---- messages ----

  /** How often each byte occurs in a message. */
  ghost function Counts(d: seq<Byte>): (f: seq<nat>)
    ensures |f| == MAX_SYMBOLS
  {
    seq(MAX_SYMBOLS, s requires 0 <= s < MAX_SYMBOLS => CountOf(d, s))
  }

  ghost function CountOf(d: seq<Byte>, s: int): nat {
    if d == [] then 0 else CountOf(d[1..], s) + if d[0] == s then 1 else 0
  }

  lemma {:induction false} CountFirst(codes: seq<Code>, d: seq<Byte>, n: nat)
    requires n <= MAX_SYMBOLS <= |codes| && d != []
    ensures CodeCost(Counts(d), codes, n) == CodeCost(Counts(d[1..]), codes, n) + if d[0] < n then codes[d[0]].numBits else 0
  {
    if n > 0 {
      CountFirst(codes, d, n - 1);
      Distribute(codes[n - 1].numBits, Frequency(Counts(d[1..]), n - 1), if d[0] == n - 1 then 1 else 0);
    }
  }

  lemma {:induction false} CountNone(codes: seq<Code>, n: nat)
    requires n <= MAX_SYMBOLS <= |codes|
    ensures CodeCost(Counts([]), codes, n) == if n == MAX_SYMBOLS then codes[EOF_SYMBOL].numBits else 0
  {
    if n > 0 { CountNone(codes, n - 1); }
  }

  /** The length of an encoding is the cost of the code for the counts of the message. */
  lemma {:induction false} LengthIsCost(codes: seq<Code>, d: seq<Byte>)
    requires |codes| >= MAX_SYMBOLS
    ensures EncodedLength(codes, d) == CodeCost(Counts(d), codes, MAX_SYMBOLS)
  {
    hide CodeCost, Counts;
    if d == [] {
      CountNone(codes, MAX_SYMBOLS);
    } else {
      LengthIsCost(codes, d[1..]);
      CountFirst(codes, d, MAX_SYMBOLS);
    }
  }

  lemma {:induction false} CountsFirst(d: seq<Byte>, n: nat)
    requires n <= MAX_SYMBOLS && d != []
    ensures AllFrequencies(Counts(d), n) == AllFrequencies(Counts(d[1..]), n) + if d[0] < n then 1 else 0
  {
    if n > 0 { CountsFirst(d, n - 1); }
  }

  lemma {:induction false} CountsNone(n: nat)
    requires n <= MAX_SYMBOLS
    ensures AllFrequencies(Counts([]), n) == if n == MAX_SYMBOLS then 1 else 0
  {
    if n > 0 { CountsNone(n - 1); }
  }

  /** All symbols of the message and the end symbol. */
  lemma {:induction false} CountsSum(d: seq<Byte>)
    ensures AllFrequencies(Counts(d), MAX_SYMBOLS) == |d| + 1
  {
    hide AllFrequencies, Counts;
    if d == [] {
      CountsNone(MAX_SYMBOLS);
    } else {
      CountsFirst(d, MAX_SYMBOLS);
      CountsSum(d[1..]);
    }
  }

  /** Built from the counts of a message, the code makes its encoding as short as any prefix code can. */
  lemma NoEncodingIsShorter(d: seq<Byte>, codes: seq<Code>, other: seq<Code>)
    requires |d| < 0x7FFF_FFFF && CodesOf(Counts(d), codes) && PrefixFree(other)
    ensures |codes| >= MAX_SYMBOLS && EncodedLength(codes, d) <= EncodedLength(other, d)
  {
    hide CodesOf, Counts, AllFrequencies, IsPrefix, CodeCost, EncodedLength;
    CountsSum(d);
    NoCodeIsCheaper(Counts(d), codes, other);
    LengthIsCost(codes, d);
    LengthIsCost(other, d);
  }
}
