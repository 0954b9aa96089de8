/** How src/engine/shared/huffman.cpp builds its tables: the tree from the frequencies, the codes from
    the tree, and the table of the first ten bits. */
module HuffmanTable {
  import opened Arith
  import opened Huffman
  import opened Sequences

  // ---- codes from the tree ----

  /** The path from a node to a symbol below it, as a code. */
  ghost function PathTo(t: seq<Children>, id: nat, s: nat): Code
    requires IsTable(t) && id < |t| && s in Leaves(t, id)
    decreases id
  {
    if id < MAX_SYMBOLS then Code(0, 0)
    else if s in Leaves(t, t[id].one) then
      var c := PathTo(t, t[id].one, s);
      Code(2 * c.bits + 1, c.numBits + 1)
    else
      var c := PathTo(t, t[id].zero, s);
      Code(2 * c.bits, c.numBits + 1)
  }

  lemma {:induction false} PathLeads(t: seq<Children>, id: nat, s: nat)
    requires IsTable(t) && id < |t| && s in Leaves(t, id)
    ensures var c := PathTo(t, id, s);
            c.bits < Pow2(c.numBits) && Reads(t, id, c.bits, c.numBits, s) && (id >= MAX_SYMBOLS ==> c.numBits > 0)
    decreases id
  {
    hide Leaves;
    if id >= MAX_SYMBOLS {
      if s in Leaves(t, t[id].one) {
        PathLeads(t, t[id].one, s);
        var c := PathTo(t, t[id].one, s);
        ReadsBehind(t, id, c.bits, 1, c.numBits, s);
      } else {
        ChildHolds(t, id, s);
        PathLeads(t, t[id].zero, s);
        var c := PathTo(t, t[id].zero, s);
        ReadsBehind(t, id, c.bits, 0, c.numBits, s);
      }
    } else {
      ChildHolds(t, id, s);
    }
  }

  lemma ChildHolds(t: seq<Children>, id: nat, s: nat)
    requires IsTable(t) && id < |t| && s in Leaves(t, id)
    ensures if id < MAX_SYMBOLS then s == id else s in Leaves(t, t[id].zero) || s in Leaves(t, t[id].one)
  {
  }

  /** One more step in front of a path. */
  lemma ReadsBehind(t: seq<Children>, id: nat, bits: nat, bit: nat, k: nat, s: nat)
    requires IsTable(t) && MAX_SYMBOLS <= id < |t| && bit < 2 && bits < Pow2(k)
    requires Reads(t, if bit == 1 then t[id].one else t[id].zero, bits, k, s)
    ensures Reads(t, id, 2 * bits + bit, k + 1, s) && 2 * bits + bit < Pow2(k + 1)
  {
    assert (2 * bits + bit) / 2 == bits && (2 * bits + bit) % 2 == bit;
  }

  /** A path behind the bits that lead to its start. */
  function Behind(bits: nat, depth: nat, c: Code): Code {
    MulNonneg(Pow2(depth), c.bits);
    Code(bits + Pow2(depth) * c.bits, depth + c.numBits)
  }

  lemma BehindChild(bits: nat, depth: nat, c: Code)
    ensures Behind(bits + Pow2(depth), depth + 1, c) == Behind(bits, depth, Code(2 * c.bits + 1, c.numBits + 1))
    ensures Behind(bits, depth + 1, c) == Behind(bits, depth, Code(2 * c.bits, c.numBits + 1))
  {
    var p := Pow2(depth);
    assert Pow2(depth + 1) == 2 * p;
    Associate(p, 2, c.bits);
    Distribute(p, 2 * c.bits, 1);
  }

  /** What Setbits_r leaves for a symbol below a node. */
  ghost predicate IsSet(t: seq<Children>, codes: seq<Code>, id: nat, bits: nat, depth: nat)
    requires IsTable(t) && id < |t| <= |codes|
  {
    forall s :: s in Leaves(t, id) ==> s < |codes| && codes[s] == Behind(bits, depth, PathTo(t, id, s))
  }

  lemma {:induction false} LeavesAreSymbols(t: seq<Children>, id: nat)
    requires IsTable(t) && id < |t|
    ensures forall s :: s in Leaves(t, id) ==> s < MAX_SYMBOLS
    decreases id
  {
    if id >= MAX_SYMBOLS {
      LeavesAreSymbols(t, t[id].zero);
      LeavesAreSymbols(t, t[id].one);
    }
  }

  /** Symbols have been given a number of bits, the other nodes have none. */
  ghost predicate Marked(t: seq<Children>, codes: seq<Code>, id: nat)
    requires IsTable(t) && id < |t| <= |codes|
  {
    && (forall k: nat :: MAX_SYMBOLS <= k < |t| ==> codes[k].numBits == 0)
    && (forall s :: s in Leaves(t, id) ==> s < |codes| && codes[s].numBits != 0)
  }

  ghost predicate OthersKept(before: seq<Code>, codes: seq<Code>, written: set<nat>) {
    |before| == |codes| && forall k: nat :: k < |codes| && k !in written ==> codes[k] == before[k]
  }

  lemma SetUnder(t: seq<Children>, c0: seq<Code>, c1: seq<Code>, c2: seq<Code>, id: nat, bits: nat, depth: nat)
    requires IsTable(t) && MAX_SYMBOLS <= id < |t| && Proper(t, id) && |c0| == |c1| == |c2| == |t|
    requires IsSet(t, c1, t[id].one, bits + Pow2(depth), depth + 1) && OthersKept(c0, c1, Leaves(t, t[id].one))
    requires IsSet(t, c2, t[id].zero, bits, depth + 1) && OthersKept(c1, c2, Leaves(t, t[id].zero))
    ensures IsSet(t, c2, id, bits, depth) && OthersKept(c0, c2, Leaves(t, id))
  {
    hide Behind, Pow2;
    LeavesAreSymbols(t, id);
    forall s | s in Leaves(t, id) ensures c2[s] == Behind(bits, depth, PathTo(t, id, s)) {
      if s in Leaves(t, t[id].one) {
        BehindChild(bits, depth, PathTo(t, t[id].one, s));
        assert c2[s] == c1[s];
      } else {
        BehindChild(bits, depth, PathTo(t, t[id].zero, s));
      }
    }
  }

  /** Setbits_r */
  method SetBits(t: seq<Children>, codes: array<Code>, id: nat, bits: nat, depth: nat)
    requires IsTable(t) && id < |t| == codes.Length && Proper(t, id) && Marked(t, codes[..], id)
    requires id >= MAX_SYMBOLS || depth > 0
    modifies codes
    ensures IsSet(t, codes[..], id, bits, depth) && OthersKept(old(codes[..]), codes[..], Leaves(t, id))
    decreases id
  {
    hide Behind, PathTo, Pow2;
    ghost var c0 := codes[..];
    LeavesAreSymbols(t, id);
    if id >= MAX_SYMBOLS {
      MarkedBelow(t, c0, id);
      SetBits(t, codes, t[id].one, bits + Pow2(depth), depth + 1);
      ghost var c1 := codes[..];
      MarkedStays(t, c0, c1, id);
      SetBits(t, codes, t[id].zero, bits, depth + 1);
      SetUnder(t, c0, c1, codes[..], id, bits, depth);
      assert codes[id].numBits == 0;
    }
    if codes[id].numBits != 0 {
      codes[id] := Code(bits, depth);
      SetLeaf(t, codes[..], id, bits, depth);
    }
  }

  lemma SetLeaf(t: seq<Children>, codes: seq<Code>, id: nat, bits: nat, depth: nat)
    requires IsTable(t) && id < MAX_SYMBOLS && |t| == |codes| && codes[id] == Code(bits, depth)
    ensures IsSet(t, codes, id, bits, depth) && Leaves(t, id) == {id}
  {
  }

  lemma MarkedBelow(t: seq<Children>, codes: seq<Code>, id: nat)
    requires IsTable(t) && MAX_SYMBOLS <= id < |t| == |codes| && Marked(t, codes, id)
    ensures Marked(t, codes, t[id].one) && Marked(t, codes, t[id].zero)
  {
  }

  lemma MarkedStays(t: seq<Children>, c0: seq<Code>, c1: seq<Code>, id: nat)
    requires IsTable(t) && MAX_SYMBOLS <= id < |t| == |c0| == |c1| && Proper(t, id) && Marked(t, c0, t[id].zero)
    requires OthersKept(c0, c1, Leaves(t, t[id].one))
    ensures Marked(t, c1, t[id].zero)
  {
    LeavesAreSymbols(t, t[id].one);
    LeavesAreSymbols(t, t[id].zero);
  }

  // ---- the tree from the frequencies ----

  /** CHuffmanConstructNode */
  datatype Entry = Entry(node: nat, frequency: int)

  /** The int a number is stored as; sums that leave its range wrap around. */
  function ToInt(x: int): int { (x + 0x8000_0000) % WORD32 - 0x8000_0000 }

  /** What the construction takes for the frequency of a symbol: the end symbol is always the rarest. */
  function Frequency(frequencies: seq<nat>, s: nat): nat
    requires s < MAX_SYMBOLS <= |frequencies|
  {
    if s == EOF_SYMBOL then 1 else frequencies[s]
  }

  /** Puts e behind the entries that are at least as frequent. */
  function Insert(l: seq<Entry>, e: Entry): seq<Entry> {
    if l == [] then [e]
    else if l[|l| - 1].frequency < e.frequency then Insert(l[..|l| - 1], e) + [l[|l| - 1]]
    else l + [e]
  }

  /** std::stable_sort by descending frequency. */
  function SortDesc(l: seq<Entry>): seq<Entry> {
    if l == [] then [] else Insert(SortDesc(l[..|l| - 1]), l[|l| - 1])
  }

  ghost predicate Descending(l: seq<Entry>) {
    forall i, j :: 0 <= i < j < |l| ==> l[i].frequency >= l[j].frequency
  }

  lemma {:induction false} InsertElements(l: seq<Entry>, e: Entry)
    ensures |Insert(l, e)| == |l| + 1 && multiset(Insert(l, e)) == multiset(l) + multiset{e}
  {
    if l != [] && l[|l| - 1].frequency < e.frequency {
      InsertElements(l[..|l| - 1], e);
      assert l == l[..|l| - 1] + [l[|l| - 1]];
    }
  }

  lemma {:induction false} InsertKeeps(l: seq<Entry>, e: Entry)
    ensures |Insert(l, e)| == |l| + 1 && multiset(Insert(l, e)) == multiset(l) + multiset{e}
    ensures Descending(l) ==> Descending(Insert(l, e))
  {
    InsertElements(l, e);
    if l != [] && l[|l| - 1].frequency < e.frequency {
      var rest, last := l[..|l| - 1], l[|l| - 1];
      InsertKeeps(rest, e);
      if Descending(l) {
        assert rest + [last] == l;
        assert Insert(l, e) == Insert(rest, e) + [last];
        hide Insert;
        InsertBelow(rest, e, last);
      }
    }
  }

  lemma InsertBelow(l: seq<Entry>, e: Entry, last: Entry)
    requires Descending(Insert(l, e)) && last.frequency < e.frequency && Descending(l + [last])
    requires multiset(Insert(l, e)) == multiset(l) + multiset{e}
    ensures Descending(Insert(l, e) + [last])
  {
    var n := Insert(l, e);
    forall i | 0 <= i < |n| ensures n[i].frequency >= last.frequency {
      assert n[i] in multiset(n);
      if n[i] != e {
        assert n[i] in l;
        var k :| 0 <= k < |l| && l[k] == n[i];
        assert (l + [last])[k].frequency >= (l + [last])[|l|].frequency;
      }
    }
  }

  lemma {:induction false} SortKeeps(l: seq<Entry>)
    ensures |SortDesc(l)| == |l| && multiset(SortDesc(l)) == multiset(l) && Descending(SortDesc(l))
  {
    if l != [] {
      SortKeeps(l[..|l| - 1]);
      InsertKeeps(SortDesc(l[..|l| - 1]), l[|l| - 1]);
      hide SortDesc, Insert;
      WithoutLast(l);
    }
  }

  lemma WithoutLast(l: seq<Entry>)
    requires l != []
    ensures multiset(l) == multiset(l[..|l| - 1]) + multiset{l[|l| - 1]}
  {
    assert l == l[..|l| - 1] + [l[|l| - 1]];
  }

  /** Sorting keeps every sum over the entries. */
  lemma {:induction false} InsertSum(h: Entry -> int, l: seq<Entry>, e: Entry)
    ensures SumBy(h, Insert(l, e)) == SumBy(h, l) + h(e)
  {
    if l != [] && l[|l| - 1].frequency < e.frequency {
      InsertSum(h, l[..|l| - 1], e);
      SumByPush(h, Insert(l[..|l| - 1], e), l[|l| - 1]);
    } else {
      SumByPush(h, l, e);
    }
  }

  lemma {:induction false} SortSum(h: Entry -> int, l: seq<Entry>)
    ensures SumBy(h, SortDesc(l)) == SumBy(h, l)
  {
    if l != [] {
      SortSum(h, l[..|l| - 1]);
      InsertSum(h, SortDesc(l[..|l| - 1]), l[|l| - 1]);
    }
  }

  /** How many of the entries have symbol s below them. */
  ghost function Holders(t: seq<Children>, l: seq<Entry>, s: nat): nat
    requires IsTable(t) && forall e :: e in l ==> e.node < |t|
  {
    if l == [] then 0 else Holders(t, l[..|l| - 1], s) + if s in Leaves(t, l[|l| - 1].node) then 1 else 0
  }

  lemma {:induction false} InsertHolders(t: seq<Children>, l: seq<Entry>, e: Entry, s: nat)
    requires IsTable(t) && e.node < |t| && forall f :: f in l ==> f.node < |t|
    ensures forall f :: f in Insert(l, e) ==> f.node < |t|
    ensures Holders(t, Insert(l, e), s) == Holders(t, l, s) + if s in Leaves(t, e.node) then 1 else 0
  {
    hide Leaves;
    if l != [] && l[|l| - 1].frequency < e.frequency {
      var rest, last := l[..|l| - 1], l[|l| - 1];
      InsertHolders(t, rest, e, s);
      assert (Insert(rest, e) + [last])[..|Insert(rest, e)|] == Insert(rest, e);
    } else {
      assert (l + [e])[..|l|] == l;
    }
  }

  lemma {:induction false} SortHolders(t: seq<Children>, l: seq<Entry>, s: nat)
    requires IsTable(t) && forall e :: e in l ==> e.node < |t|
    ensures forall e :: e in SortDesc(l) ==> e.node < |t|
    ensures Holders(t, SortDesc(l), s) == Holders(t, l, s)
  {
    hide Leaves;
    if l != [] {
      SortHolders(t, l[..|l| - 1], s);
      InsertHolders(t, SortDesc(l[..|l| - 1]), l[|l| - 1], s);
    }
  }

  /** The trees still to be merged: each symbol hangs below exactly one of them, once. */
  ghost predicate IsForest(t: seq<Children>, l: seq<Entry>) {
    && IsTable(t) && (forall e :: e in l ==> e.node < |t| && Proper(t, e.node))
    && forall s: nat :: s < MAX_SYMBOLS ==> Holders(t, l, s) == 1
  }

  lemma SortForest(t: seq<Children>, l: seq<Entry>)
    requires IsForest(t, l)
    ensures IsForest(t, SortDesc(l))
  {
    hide Leaves, Proper, Holders;
    SortKeeps(l);
    forall e | e in SortDesc(l) ensures e.node < |t| && Proper(t, e.node) {
      assert e in multiset(SortDesc(l));
    }
    forall s: nat | s < MAX_SYMBOLS ensures Holders(t, SortDesc(l), s) == 1 {
      SortHolders(t, l, s);
    }
  }

  /** A new node at the end of the table changes nothing below the others. */
  lemma {:induction false} LeavesStay(t: seq<Children>, c: Children, id: nat)
    requires IsTable(t) && id < |t| && c.zero < |t| && c.one < |t|
    ensures IsTable(t + [c]) && Leaves(t + [c], id) == Leaves(t, id) && (Proper(t, id) ==> Proper(t + [c], id))
    decreases id
  {
    if id >= MAX_SYMBOLS {
      LeavesStay(t, c, t[id].zero);
      LeavesStay(t, c, t[id].one);
    }
  }

  lemma {:induction false} HoldersStay(t: seq<Children>, c: Children, l: seq<Entry>, s: nat)
    requires IsTable(t) && c.zero < |t| && c.one < |t| && forall e :: e in l ==> e.node < |t|
    ensures IsTable(t + [c]) && Holders(t + [c], l, s) == Holders(t, l, s)
  {
    hide Leaves, Proper;
    if l != [] {
      HoldersStay(t, c, l[..|l| - 1], s);
      LeavesStay(t, c, l[|l| - 1].node);
    }
  }

  /** The last two trees share no symbol. */
  lemma LastTwoApart(t: seq<Children>, l: seq<Entry>)
    requires IsForest(t, l) && |l| >= 2
    ensures Leaves(t, l[|l| - 1].node) !! Leaves(t, l[|l| - 2].node)
  {
    var n := |l|;
    assert l[n - 1] in l && l[n - 2] in l;
    LeavesAreSymbols(t, l[n - 1].node);
    hide Leaves, Proper, Holders;
    var a, b := Leaves(t, l[n - 1].node), Leaves(t, l[n - 2].node);
    if s: nat :| s in a && s in b {
      LastTwoHold(t, l, s);
      assert false;
    }
  }

  lemma LastTwoHold(t: seq<Children>, l: seq<Entry>, s: nat)
    requires IsTable(t) && |l| >= 2 && forall e :: e in l ==> e.node < |t|
    ensures l[|l| - 1] in l && l[|l| - 2] in l
    ensures Holders(t, l, s) == Holders(t, l[..|l| - 2], s)
                                + (if s in Leaves(t, l[|l| - 1].node) then 1 else 0)
                                + (if s in Leaves(t, l[|l| - 2].node) then 1 else 0)
  {
    hide Leaves;
    assert l[..|l| - 1][..|l| - 2] == l[..|l| - 2];
  }

  /** Two trees become one. */
  lemma MergeForest(t: seq<Children>, l: seq<Entry>)
    requires IsForest(t, l) && |l| >= 2
    ensures var n := |l|;
            var c := Children(l[n - 1].node, l[n - 2].node);
            var e := Entry(|t|, ToInt(l[n - 1].frequency + l[n - 2].frequency));
            IsForest(t + [c], l[..n - 2] + [e])
  {
    var n := |l|;
    var a, b := l[n - 1], l[n - 2];
    assert a in l && b in l;
    var c, e := Children(a.node, b.node), Entry(|t|, ToInt(a.frequency + b.frequency));
    LastTwoApart(t, l);
    LeavesStay(t, c, a.node);
    LeavesStay(t, c, b.node);
    var t', l' := t + [c], l[..n - 2] + [e];
    assert Leaves(t', |t|) == Leaves(t, a.node) + Leaves(t, b.node) && Proper(t', |t|);
    hide Leaves, Proper;
    forall f | f in l' ensures f.node < |t'| && Proper(t', f.node) {
      if f != e { assert f in l; LeavesStay(t, c, f.node); }
    }
    forall s: nat | s < MAX_SYMBOLS ensures Holders(t', l', s) == 1 {
      HoldersMerge(t, l, s);
      assert l'[..n - 2] == l[..n - 2];
      HoldersStay(t, c, l[..n - 2], s);
    }
  }

  lemma HoldersMerge(t: seq<Children>, l: seq<Entry>, s: nat)
    requires IsForest(t, l) && |l| >= 2 && s < MAX_SYMBOLS
    ensures Holders(t, l[..|l| - 2], s)
         == 1 - if s in Leaves(t, l[|l| - 1].node) || s in Leaves(t, l[|l| - 2].node) then 1 else 0
  {
    hide Leaves, Holders;
    LastTwoApart(t, l);
    LastTwoHold(t, l, s);
  }

  ghost predicate HoldsAll(t: seq<Children>, id: nat)
    requires IsTable(t) && id < |t|
  {
    forall s: nat :: s < MAX_SYMBOLS ==> s in Leaves(t, id)
  }

  /** The codes are the paths from the start node. */
  ghost predicate ArePaths(t: seq<Children>, start: nat, codes: seq<Code>) {
    && IsTable(t) && MAX_SYMBOLS <= start < |t| && |codes| >= MAX_SYMBOLS
    && Proper(t, start) && HoldsAll(t, start)
    && forall s: nat :: s < MAX_SYMBOLS ==> codes[s] == PathTo(t, start, s)
  }

  /** One merge: the two trees that come last when sorted get a common parent. */
  function MergeTwo(t: seq<Children>, l: seq<Entry>): (r: (seq<Children>, seq<Entry>))
    requires |l| >= 2
    ensures |r.1| == |l| - 1
  {
    SortKeeps(l);
    var s, n := SortDesc(l), |l|;
    (t + [Children(s[n - 1].node, s[n - 2].node)],
     s[..n - 2] + [Entry(|t|, ToInt(s[n - 1].frequency + s[n - 2].frequency))])
  }

  /** The table when one tree is left. */
  function Merged(t: seq<Children>, l: seq<Entry>): seq<Children>
    decreases |l|
  {
    if |l| <= 1 then t else Merged(MergeTwo(t, l).0, MergeTwo(t, l).1)
  }

  function Symbols(frequencies: seq<nat>): seq<Entry>
    requires |frequencies| >= MAX_SYMBOLS
  {
    seq(MAX_SYMBOLS, i requires 0 <= i < MAX_SYMBOLS => Entry(i, ToInt(Frequency(frequencies, i))))
  }

  function NoChildren(): (t: seq<Children>)
    ensures |t| == MAX_SYMBOLS
  {
    seq(MAX_SYMBOLS, _ => Children(0xFFFF, 0xFFFF))
  }

  /** The table of ConstructTree. */
  function TreeOf(frequencies: seq<nat>): seq<Children>
    requires |frequencies| >= MAX_SYMBOLS
  {
    Merged(NoChildren(), Symbols(frequencies))
  }

  /** The codes ConstructTree leaves behind. */
  ghost predicate CodesOf(frequencies: seq<nat>, codes: seq<Code>) {
    |frequencies| >= MAX_SYMBOLS
    && var t := TreeOf(frequencies);
       t != [] && ArePaths(t, |t| - 1, codes)
  }

  /** The two that are merged are the least frequent of all. */
  lemma LastTwoAreLeast(l: seq<Entry>)
    requires |l| >= 2
    ensures var s, n := SortDesc(l), |l|;
            && |s| == n && s[n - 1].frequency <= s[n - 2].frequency
            && (forall i :: 0 <= i < n ==> s[i] in l)
            && (forall i :: 0 <= i < n - 2 ==> s[i].frequency >= s[n - 2].frequency)
            && (forall e :: e in l ==> e == s[n - 1] || e.frequency >= s[n - 2].frequency)
  {
    hide SortDesc;
    SortKeeps(l);
    var s := SortDesc(l);
    forall i | 0 <= i < |l| ensures s[i] in l { assert s[i] in multiset(s); }
    forall e | e in l ensures e == s[|s| - 1] || e.frequency >= s[|s| - 2].frequency {
      assert e in multiset(s);
      var i :| 0 <= i < |s| && s[i] == e;
    }
  }

  /** ConstructTree without the codes: merges the two least frequent trees until one is left. */
  method BuildTree(frequencies: seq<nat>) returns (t: seq<Children>)
    requires |frequencies| >= MAX_SYMBOLS
    ensures IsTable(t) && |t| == 2 * MAX_SYMBOLS - 1 && Proper(t, |t| - 1) && HoldsAll(t, |t| - 1)
    ensures t == TreeOf(frequencies)
  {
    hide SortDesc, Merged, Leaves, Proper, Holders, HoldsAll, IsForest;
    t := [];
    var left: seq<Entry> := [];
    for i := 0 to MAX_SYMBOLS
      invariant |t| == i == |left| && left == Symbols(frequencies)[..i]
      invariant forall k :: 0 <= k < i ==> t[k] == Children(0xFFFF, 0xFFFF)
    {
      t := t + [Children(0xFFFF, 0xFFFF)];
      left := left + [Entry(i, ToInt(if i == EOF_SYMBOL then 1 else frequencies[i]))];
    }
    ghost var goal := Merged(t, left);
    assert t == NoChildren() && left == Symbols(frequencies);
    StartForest(t, left);
    while |left| > 1
      invariant |t| + |left| == 2 * MAX_SYMBOLS && |left| >= 1 && IsForest(t, left)
      invariant |t| == MAX_SYMBOLS || left[|left| - 1].node == |t| - 1
      invariant Merged(t, left) == goal
      decreases |left|
    {
      MergedNext(t, left);
      SortForest(t, left);
      SortKeeps(left);
      left := SortDesc(left);
      MergeForest(t, left);
      var n := |left|;
      var node := |t|;
      t := t + [Children(left[n - 1].node, left[n - 2].node)];
      left := left[..n - 2] + [Entry(node, ToInt(left[n - 1].frequency + left[n - 2].frequency))];
    }
    MergedNext(t, left);
    OneTree(t, left);
  }

  lemma MergedNext(t: seq<Children>, l: seq<Entry>)
    ensures |l| <= 1 ==> Merged(t, l) == t
    ensures |l| > 1 ==> Merged(t, l) == Merged(MergeTwo(t, l).0, MergeTwo(t, l).1)
  {
    hide MergeTwo;
  }

  lemma {:induction false} SymbolsHeld(t: seq<Children>, l: seq<Entry>, s: nat)
    requires |t| == MAX_SYMBOLS && |l| <= MAX_SYMBOLS && forall k :: 0 <= k < |l| ==> l[k].node == k
    ensures Holders(t, l, s) == if s < |l| then 1 else 0
  {
    if l != [] { SymbolsHeld(t, l[..|l| - 1], s); }
  }

  lemma StartForest(t: seq<Children>, l: seq<Entry>)
    requires |t| == MAX_SYMBOLS == |l| && forall k :: 0 <= k < |l| ==> l[k].node == k
    ensures IsForest(t, l)
  {
    hide Holders;
    forall s: nat | s < MAX_SYMBOLS ensures Holders(t, l, s) == 1 {
      SymbolsHeld(t, l, s);
    }
  }

  lemma OneTree(t: seq<Children>, l: seq<Entry>)
    requires IsForest(t, l) && |l| == 1
    ensures IsTable(t) && l[0].node < |t| && Proper(t, l[0].node) && HoldsAll(t, l[0].node)
  {
    assert l[0] in l;
    forall s: nat | s < MAX_SYMBOLS ensures s in Leaves(t, l[0].node) {
      assert Holders(t, l, s) == 1;
      assert l[..0] == [];
    }
  }

  // ---- the table of the first bits ----

  const LUTBITS: nat := 10
  const LUTSIZE: nat := 1024

  ghost predicate IsLut(t: seq<Children>, start: nat, lut: seq<nat>)
    requires IsTable(t) && start < |t|
  {
    |lut| == LUTSIZE && forall i: nat :: i < LUTSIZE ==> lut[i] == Descend(t, start, i, LUTBITS)
  }

  /** The loops of Init that fill m_apDecodeLut. */
  method BuildLut(t: seq<Children>, codes: seq<Code>, start: nat) returns (lut: seq<nat>)
    requires IsTable(t) && MAX_SYMBOLS <= start < |t| == |codes|
    requires forall id: nat :: id < |t| ==> (codes[id].numBits != 0 <==> id < MAX_SYMBOLS)
    ensures IsLut(t, start, lut)
  {
    lut := [];
    for i := 0 to LUTSIZE
      invariant |lut| == i && forall j: nat :: j < i ==> lut[j] == Descend(t, start, j, LUTBITS)
    {
      var bits: nat, node: nat := i, start;
      var k := 0;
      while k < LUTBITS
        invariant 0 <= k <= LUTBITS && MAX_SYMBOLS <= node < |t|
        invariant Descend(t, start, i, LUTBITS) == Descend(t, node, bits, LUTBITS - k)
      {
        node := Child(t, node, bits);
        bits := bits / 2;
        if codes[node].numBits != 0 {
          break;
        }
        k := k + 1;
      }
      lut := lut + [node];
    }
  }
}
