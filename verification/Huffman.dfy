/** The prefix code of src/engine/shared/huffman.cpp: a table of nodes in which children come before
    their parents, bit strings as numbers read from the low end, and what a message is encoded as. */
module Huffman {
  import opened Utf8
  import opened Arith

  const EOF_SYMBOL: nat := 256
  const MAX_SYMBOLS: nat := 257

  /** m_aLeafs of a node. */
  datatype Children = Children(zero: nat, one: nat)

  /** m_Bits and m_NumBits of a node. */
  datatype Code = Code(bits: nat, numBits: nat)

  /** The symbols come first; every other node has two children with smaller numbers. */
  predicate IsTable(t: seq<Children>) {
    |t| >= MAX_SYMBOLS && forall id :: MAX_SYMBOLS <= id < |t| ==> t[id].zero < id && t[id].one < id
  }

  function Child(t: seq<Children>, id: nat, bits: nat): (c: nat)
    requires IsTable(t) && MAX_SYMBOLS <= id < |t|
    ensures c < id
  {
    if bits % 2 == 1 then t[id].one else t[id].zero
  }

  ghost function Leaves(t: seq<Children>, id: nat): set<nat>
    requires IsTable(t) && id < |t|
    decreases id
  {
    if id < MAX_SYMBOLS then {id} else Leaves(t, t[id].zero) + Leaves(t, t[id].one)
  }

  /** No symbol hangs below a node twice. */
  ghost predicate Proper(t: seq<Children>, id: nat)
    requires IsTable(t) && id < |t|
    decreases id
  {
    id >= MAX_SYMBOLS ==>
      Proper(t, t[id].zero) && Proper(t, t[id].one) && Leaves(t, t[id].zero) !! Leaves(t, t[id].one)
  }

  // ---- walking ----

  /** Walking down from a node by the low bits of r arrives at symbol s after exactly k steps. */
  ghost predicate Reads(t: seq<Children>, id: nat, r: nat, k: nat, s: nat)
    requires IsTable(t) && id < |t|
    decreases k
  {
    if k == 0 then id == s < MAX_SYMBOLS
    else id >= MAX_SYMBOLS && Reads(t, Child(t, id, r), r / 2, k - 1, s)
  }

  /** Walking down at most k steps, until a symbol is hit. */
  function Descend(t: seq<Children>, id: nat, r: nat, k: nat): (n: nat)
    requires IsTable(t) && id < |t|
    ensures n <= id
    decreases k
  {
    if k == 0 || id < MAX_SYMBOLS then id else Descend(t, Child(t, id, r), r / 2, k - 1)
  }

  /** r >> k */
  function Above(r: nat, k: nat): nat {
    DivNonneg(r, Pow2(k));
    r / Pow2(k)
  }

  lemma DivNonneg(r: nat, p: nat)
    requires p > 0
    ensures r / p >= 0
  {
    var q, b := Division(r, p);
  }

  lemma LowHalf(r: nat, r': nat, k: nat)
    requires k > 0 && r % Pow2(k) == r' % Pow2(k)
    ensures r % 2 == r' % 2 && (r / 2) % Pow2(k - 1) == (r' / 2) % Pow2(k - 1)
  {
    LowBit(r, Pow2(k - 1));
    LowBit(r', Pow2(k - 1));
    SameHalves((r / 2) % Pow2(k - 1), r % 2, (r' / 2) % Pow2(k - 1), r' % 2);
  }

  lemma SameHalves(x: nat, b: nat, y: nat, c: nat)
    requires b < 2 && c < 2
    ensures 2 * x + b == 2 * y + c ==> x == y && b == c
  {
  }

  /** The low bits of r are its lowest bit and the low bits of its half. */
  lemma LowBit(r: nat, p: nat)
    requires p > 0
    ensures r % (2 * p) == 2 * ((r / 2) % p) + r % 2
  {
    var q, h := Division(r / 2, p);
    Associate(2, p, q);
    DivModUnique(r, 2 * p, q, 2 * h + r % 2);
  }

  /** Walking only looks at the low bits. */
  lemma {:induction false} ReadsLow(t: seq<Children>, id: nat, r: nat, r': nat, k: nat, s: nat)
    requires IsTable(t) && id < |t| && r % Pow2(k) == r' % Pow2(k)
    ensures Reads(t, id, r, k, s) ==> Reads(t, id, r', k, s)
    decreases k
  {
    hide Pow2;
    if k > 0 && id >= MAX_SYMBOLS {
      LowHalf(r, r', k);
      ReadsLow(t, Child(t, id, r), r / 2, r' / 2, k - 1, s);
    }
  }

  lemma {:induction false} DescendLow(t: seq<Children>, id: nat, r: nat, r': nat, k: nat)
    requires IsTable(t) && id < |t| && r % Pow2(k) == r' % Pow2(k)
    ensures Descend(t, id, r, k) == Descend(t, id, r', k)
    decreases k
  {
    hide Pow2;
    if k > 0 && id >= MAX_SYMBOLS {
      LowHalf(r, r', k);
      DescendLow(t, Child(t, id, r), r / 2, r' / 2, k - 1);
    }
  }

  /** A walk of j steps at most either hits the symbol or stops on the way to it. */
  lemma {:induction false} DescendReads(t: seq<Children>, id: nat, r: nat, k: nat, s: nat, j: nat)
    requires IsTable(t) && id < |t| && Reads(t, id, r, k, s)
    ensures k <= j ==> Descend(t, id, r, j) == s
    ensures j < k ==> Descend(t, id, r, j) >= MAX_SYMBOLS && Reads(t, Descend(t, id, r, j), Above(r, j), k - j, s)
    decreases k
  {
    if k > 0 && j > 0 {
      DescendReads(t, Child(t, id, r), r / 2, k - 1, s, j - 1);
      DivDiv(r, 2, Pow2(j - 1));
    }
  }

  // ---- codes ----

  /** Every symbol has a code that leads from the start node to it. */
  ghost predicate Coded(t: seq<Children>, start: nat, codes: seq<Code>)
    requires IsTable(t) && start < |t|
  {
    |codes| >= MAX_SYMBOLS && forall s: nat :: s < MAX_SYMBOLS ==> CodeLeads(t, start, codes[s], s)
  }

  ghost predicate CodeLeads(t: seq<Children>, start: nat, c: Code, s: nat)
    requires IsTable(t) && start < |t|
  {
    0 < c.numBits && c.bits < Pow2(c.numBits) && Reads(t, start, c.bits, c.numBits, s)
  }

  /** No code is longer than 24 bits: then neither accumulator of 32 bits overflows or runs dry. */
  ghost predicate ShortCodes(codes: seq<Code>) {
    |codes| >= MAX_SYMBOLS && forall s: nat :: s < MAX_SYMBOLS ==> codes[s].numBits <= 24
  }

  /** The message and the end symbol, one code behind the other. */
  ghost function Encoded(codes: seq<Code>, d: seq<Byte>): nat
    requires |codes| >= MAX_SYMBOLS
  {
    if d == [] then codes[EOF_SYMBOL].bits
    else codes[d[0]].bits + Pow2(codes[d[0]].numBits) * Encoded(codes, d[1..])
  }

  ghost function EncodedLength(codes: seq<Code>, d: seq<Byte>): nat
    requires |codes| >= MAX_SYMBOLS
  {
    if d == [] then codes[EOF_SYMBOL].numBits else codes[d[0]].numBits + EncodedLength(codes, d[1..])
  }

  /** x below n low bits, y above. */
  lemma LowAndHigh(x: nat, y: nat, n: nat)
    requires x < Pow2(n)
    ensures x + Pow2(n) * y >= 0
    ensures (x + Pow2(n) * y) % Pow2(n) == x && (x + Pow2(n) * y) / Pow2(n) == y
  {
    MulNonneg(Pow2(n), y);
    DivModUnique(x + Pow2(n) * y, Pow2(n), y, x);
  }

  function FirstSymbol(d: seq<Byte>): nat { if d == [] then EOF_SYMBOL else d[0] }

  /** Decoding one symbol: the walk arrives at it, and the rest of the message is what remains. */
  lemma FirstIsRead(t: seq<Children>, start: nat, codes: seq<Code>, d: seq<Byte>)
    requires IsTable(t) && start < |t| && Coded(t, start, codes)
    ensures var s := FirstSymbol(d);
            && Reads(t, start, Encoded(codes, d), codes[s].numBits, s)
            && (d != [] ==> Above(Encoded(codes, d), codes[s].numBits) == Encoded(codes, d[1..]))
  {
    hide Pow2, Reads;
    var s := FirstSymbol(d);
    assert CodeLeads(t, start, codes[s], s);
    if d != [] {
      var c, rest := codes[s], Encoded(codes, d[1..]);
      assert Encoded(codes, d) == c.bits + Pow2(c.numBits) * rest;
      hide Encoded;
      LowAndHigh(c.bits, rest, c.numBits);
      SmallMod(c.bits, Pow2(c.numBits));
      ReadsLow(t, start, c.bits, Encoded(codes, d), c.numBits, s);
    }
  }

  lemma SmallMod(x: nat, p: nat)
    requires x < p
    ensures x % p == x
  {
    DivModUnique(x, p, 0, x);
  }

  lemma {:induction false} ReadsOnce(t: seq<Children>, id: nat, r: nat, k: nat, s: nat, k': nat, s': nat)
    requires IsTable(t) && id < |t| && Reads(t, id, r, k, s) && Reads(t, id, r, k', s')
    ensures k == k' && s == s'
    decreases k
  {
    if k > 0 {
      ReadsOnce(t, Child(t, id, r), r / 2, k - 1, s, k' - 1, s');
    }
  }

  /** Different messages have different encodings. */
  lemma {:induction false} UniquelyDecodable(t: seq<Children>, start: nat, codes: seq<Code>, d: seq<Byte>, e: seq<Byte>)
    requires IsTable(t) && start < |t| && Coded(t, start, codes) && Encoded(codes, d) == Encoded(codes, e)
    ensures d == e
    decreases |d|
  {
    FirstIsRead(t, start, codes, d);
    FirstIsRead(t, start, codes, e);
    hide Encoded, Reads, Pow2;
    var s, s' := FirstSymbol(d), FirstSymbol(e);
    ReadsOnce(t, start, Encoded(codes, d), codes[s].numBits, s, codes[s'].numBits, s');
    if d != [] {
      UniquelyDecodable(t, start, codes, d[1..], e[1..]);
      assert d == [d[0]] + d[1..] && e == [e[0]] + e[1..];
    }
  }
}
