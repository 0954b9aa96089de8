/** CHuffman of src/engine/shared/huffman.cpp: compressing through a 32-bit accumulator, and
    decompressing through the table of the first ten bits and a walk down the tree. */
module HuffmanCodec {
  import opened Utf8
  import opened Arith
  import opened Bits
  import opened Huffman
  import opened HuffmanTable

  /** A byte string as a number, the first byte lowest. */
  ghost function Number(b: seq<Byte>): nat {
    if b == [] then 0 else b[0] + 256 * Number(b[1..])
  }

  /** The bytes hold the encoding of d, filled up with zero bits. */
  ghost predicate IsCompressed(codes: seq<Code>, b: seq<Byte>, d: seq<Byte>)
    requires |codes| >= MAX_SYMBOLS
  {
    Number(b) == Encoded(codes, d) && 8 * |b| >= EncodedLength(codes, d)
  }

  // ---- what has been loaded so far ----

  ghost function Loaded(codes: seq<Code>, d: seq<Byte>): nat
    requires |codes| >= MAX_SYMBOLS
  {
    if d == [] then 0
    else
      var front, c := d[..|d| - 1], codes[d[|d| - 1]];
      MulNonneg(Pow2(LoadedLength(codes, front)), c.bits);
      Loaded(codes, front) + Pow2(LoadedLength(codes, front)) * c.bits
  }

  ghost function LoadedLength(codes: seq<Code>, d: seq<Byte>): nat
    requires |codes| >= MAX_SYMBOLS
  {
    if d == [] then 0 else LoadedLength(codes, d[..|d| - 1]) + codes[d[|d| - 1]].numBits
  }

  lemma LoadOne(codes: seq<Code>, d: seq<Byte>, s: Byte)
    requires |codes| >= MAX_SYMBOLS
    ensures LoadedLength(codes, d + [s]) == LoadedLength(codes, d) + codes[s].numBits
    ensures Loaded(codes, d + [s]) == Loaded(codes, d) + Pow2(LoadedLength(codes, d)) * codes[s].bits
  {
    hide Pow2;
    assert (d + [s])[..|d|] == d;
  }

  lemma LoadNone(codes: seq<Code>)
    requires |codes| >= MAX_SYMBOLS
    ensures LoadedLength(codes, []) == 0 && Loaded(codes, []) == 0 && Pow2(0) == 1
  {
  }

  lemma EncodeFirst(codes: seq<Code>, s: Byte, e: seq<Byte>)
    requires |codes| >= MAX_SYMBOLS
    ensures EncodedLength(codes, [s] + e) == codes[s].numBits + EncodedLength(codes, e)
    ensures Encoded(codes, [s] + e) == codes[s].bits + Pow2(codes[s].numBits) * Encoded(codes, e)
  {
    hide Pow2;
    assert ([s] + e)[1..] == e;
  }

  /** Loading the first symbols and encoding the rest behind them is encoding all. */
  lemma {:induction false} LoadedIsEncoded(codes: seq<Code>, d: seq<Byte>, e: seq<Byte>)
    requires |codes| >= MAX_SYMBOLS
    ensures LoadedLength(codes, d) + EncodedLength(codes, e) == EncodedLength(codes, d + e)
    ensures Loaded(codes, d) + Pow2(LoadedLength(codes, d)) * Encoded(codes, e) == Encoded(codes, d + e)
    decreases |d|
  {
    hide Pow2, Loaded, LoadedLength, Encoded, EncodedLength;
    if d == [] {
      LoadNone(codes);
      assert d + e == e;
    } else {
      var n := |d| - 1;
      var f, s := d[..n], d[n];
      assert f + [s] == d && f + ([s] + e) == d + e;
      LoadOne(codes, f, s);
      EncodeFirst(codes, s, e);
      LoadedIsEncoded(codes, f, [s] + e);
      Pow2Add(LoadedLength(codes, f), codes[s].numBits);
      Nested(Pow2(LoadedLength(codes, f)), codes[s].bits, Pow2(codes[s].numBits), Encoded(codes, e));
    }
  }

  lemma Nested(p: nat, b: nat, q: nat, e: nat)
    ensures p * (b + q * e) == p * b + (p * q) * e
  {
    Distribute(p, b, q * e);
    Associate(p, q, e);
  }

  // ---- the accumulator of the compressor ----

  /** The l bits of n: whole bytes, and `bitcount` bits still in the accumulator. */
  ghost predicate Packed(out: seq<Byte>, bits: nat, bitcount: nat, n: nat, l: nat) {
    bits < Pow2(bitcount) && l == 8 * |out| + bitcount && n == Number(out) + Pow2(8 * |out|) * bits
  }

  lemma {:induction false} NumberAppend(out: seq<Byte>, b: Byte)
    ensures Number(out + [b]) == Number(out) + Pow2(8 * |out|) * b
  {
    hide Pow2;
    if out == [] {
      LoadNoBytes(b);
    } else {
      NumberAppend(out[1..], b);
      assert (out + [b])[1..] == out[1..] + [b];
      Pow2Add(8, 8 * |out[1..]|);
      EightBits();
      Distribute(256, Number(out[1..]), Pow2(8 * |out[1..]|) * b);
      Associate(256, Pow2(8 * |out[1..]|), b);
    }
  }

  lemma LoadNoBytes(b: Byte)
    ensures Number([b]) == b && Number([]) == 0 && Pow2(0) == 1
  {
    assert [b][1..] == [];
  }

  lemma EightBits()
    ensures Pow2(8) == 256 && Pow2(10) == 1024 && Pow2(31) < WORD32 && Pow2(32) == WORD32
  {
    Pow2Values();
    assert Pow2(32) == 2 * Pow2(31);
    assert Pow2(4) == 16;
    Pow2Add(4, 4);
    Pow2Add(8, 2);
  }

  lemma PowOrder(m: nat, n: nat)
    requires m <= n
    ensures Pow2(m) <= Pow2(n)
  {
    hide Pow2;
    Pow2Add(m, n - m);
    ProductAtLeast(Pow2(m), Pow2(n - m));
  }

  /** x below 2^m, y below 2^n: together below 2^(m + n). */
  lemma Joined(x: nat, y: nat, m: nat, n: nat)
    requires x < Pow2(m) && y < Pow2(n)
    ensures 0 <= Pow2(m) * y && x + Pow2(m) * y < Pow2(m + n)
  {
    hide Pow2;
    var p := Pow2(m);
    Pow2Add(m, n);
    MulNonneg(p, y);
    MulNonneg(p, Pow2(n) - 1 - y);
    Distribute(p, Pow2(n) - 1 - y, y + 1);
    Distribute(p, y, 1);
  }

  /** `bits |= value << count` where nothing overlaps or is shifted out. */
  lemma OrShifted(bits: nat, value: nat, count: nat, n: nat)
    requires bits < Pow2(count) && value < Pow2(n) && count + n <= 32
    ensures Or(bits, Shl(value, count) % WORD32) == bits + Pow2(count) * value < Pow2(count + n)
  {
    hide Pow2, Or, Shl;
    Joined(bits, value, count, n);
    PowOrder(count + n, 32);
    EightBits();
    ShlIsMul(value, count);
    DivModUnique(Shl(value, count), WORD32, 0, Shl(value, count));
    OrDisjoint(bits, value, count);
  }

  /** HUFFMAN_MACRO_LOADSYMBOL */
  lemma PackLoad(out: seq<Byte>, bits: nat, bitcount: nat, n: nat, l: nat, c: Code)
    requires Packed(out, bits, bitcount, n, l) && bitcount < 8 && c.numBits <= 24 && c.bits < Pow2(c.numBits)
    ensures n + Pow2(l) * c.bits >= 0
    ensures Packed(out, Or(bits, Shl(c.bits, bitcount) % WORD32), bitcount + c.numBits, n + Pow2(l) * c.bits, l + c.numBits)
  {
    hide Pow2, Or, Shl, Number;
    OrShifted(bits, c.bits, bitcount, c.numBits);
    MulNonneg(Pow2(l), c.bits);
    Pow2Add(8 * |out|, bitcount);
    Nested(Pow2(8 * |out|), bits, Pow2(bitcount), c.bits);
  }

  lemma SplitByte(bits: nat, bitcount: nat)
    requires bitcount >= 8 && bits < Pow2(bitcount)
    ensures bits == bits % 256 + 256 * (bits / 256) && bits / 256 < Pow2(bitcount - 8)
  {
    hide Pow2;
    Pow2Add(8, bitcount - 8);
    EightBits();
  }

  /** One turn of HUFFMAN_MACRO_WRITE */
  lemma PackWrite(out: seq<Byte>, bits: nat, bitcount: nat, n: nat, l: nat)
    requires Packed(out, bits, bitcount, n, l) && bitcount >= 8
    ensures Packed(out + [bits % 256], bits / 256, bitcount - 8, n, l)
  {
    hide Pow2, Number;
    SplitByte(bits, bitcount);
    NumberAppend(out, bits % 256);
    EightBits();
    Pow2Add(8 * |out|, 8);
    Nested(Pow2(8 * |out|), bits % 256, 256, bits / 256);
  }

  lemma PackEnd(out: seq<Byte>, bits: nat, bitcount: nat, n: nat, l: nat)
    requires Packed(out, bits, bitcount, n, l) && bitcount < 8
    ensures bits < 256 && Number(out + [bits]) == n
  {
    hide Pow2, Number;
    PowOrder(bitcount, 8);
    EightBits();
    NumberAppend(out, bits);
  }

  // ---- the accumulator of the decompressor ----

  /** What is still to be decoded: the accumulator, and behind it the bytes not yet read. */
  ghost predicate Stream(bits: nat, bitcount: nat, rest: seq<Byte>, r: nat) {
    bits < Pow2(bitcount) && r == bits + Pow2(bitcount) * Number(rest)
  }

  lemma StreamFill(bits: nat, bitcount: nat, rest: seq<Byte>, r: nat)
    requires Stream(bits, bitcount, rest, r) && bitcount < 24 && rest != []
    ensures Stream(Or(bits, Shl(rest[0], bitcount) % WORD32), bitcount + 8, rest[1..], r)
    ensures Or(bits, Shl(rest[0], bitcount) % WORD32) % Pow2(bitcount) == bits
  {
    assert Number(rest) == rest[0] + 256 * Number(rest[1..]);
    hide Pow2, Or, Shl, Number;
    EightBits();
    OrShifted(bits, rest[0], bitcount, 8);
    Pow2Add(bitcount, 8);
    Nested(Pow2(bitcount), rest[0], 256, Number(rest[1..]));
    LowAndHigh(bits, rest[0], bitcount);
  }

  lemma StreamLow(bits: nat, bitcount: nat, rest: seq<Byte>, r: nat, k: nat)
    requires Stream(bits, bitcount, rest, r) && (k <= bitcount || rest == [])
    ensures bits % Pow2(k) == r % Pow2(k)
  {
    hide Pow2;
    if rest != [] { StreamDrop(bits, bitcount, rest, r, k); }
  }

  lemma AboveAdd(r: nat, m: nat, n: nat)
    ensures Above(Above(r, m), n) == Above(r, m + n)
  {
    hide Pow2;
    Pow2Add(m, n);
    DivDiv(r, Pow2(m), Pow2(n));
  }

  lemma AboveStep(r: nat, k: nat)
    ensures Above(r, 0) == r && Above(r, k + 1) == Above(r, k) / 2
  {
    hide Pow2;
    PowTwo();
    Pow2Add(k, 1);
    DivDiv(r, Pow2(k), 2);
  }

  lemma DropBit(bits: nat, bitcount: nat, rest: seq<Byte>, r: nat)
    requires Stream(bits, bitcount, rest, r) && bitcount > 0
    ensures Stream(bits / 2, bitcount - 1, rest, r / 2) && bits % 2 == r % 2
  {
    hide Pow2, Stream;
    PowTwo();
    StreamDrop(bits, bitcount, rest, r, 1);
  }

  lemma StreamDrop(bits: nat, bitcount: nat, rest: seq<Byte>, r: nat, k: nat)
    requires Stream(bits, bitcount, rest, r) && k <= bitcount
    ensures Stream(bits / Pow2(k), bitcount - k, rest, r / Pow2(k)) && bits % Pow2(k) == r % Pow2(k)
  {
    hide Pow2, Number;
    var p, s, t := Pow2(k), Pow2(bitcount - k), Number(rest);
    var q, low := Division(bits, p);
    Pow2Add(k, bitcount - k);
    Associate(p, s, t);
    Distribute(p, q, s * t);
    MulNonneg(s, t);
    DivModUnique(r, p, q + s * t, low);
    QuotientBelow(bits, p, s);
  }

  // ---- the tables ----

  /** The codes that SetBits has written lead to the symbols. */
  lemma SetCodes(t: seq<Children>, before: seq<Code>, codes: seq<Code>, start: nat)
    requires IsTable(t) && MAX_SYMBOLS <= start < |t| == |codes| && Proper(t, start) && HoldsAll(t, start)
    requires IsSet(t, codes, start, 0, 0) && OthersKept(before, codes, Leaves(t, start))
    requires forall id: nat :: MAX_SYMBOLS <= id < |t| ==> before[id].numBits == 0
    ensures Coded(t, start, codes) && ArePaths(t, start, codes)
    ensures forall id: nat :: id < |t| ==> (codes[id].numBits != 0 <==> id < MAX_SYMBOLS)
  {
    hide Leaves, Proper, PathTo, Reads, Behind;
    LeavesAreSymbols(t, start);
    forall s: nat | s < MAX_SYMBOLS ensures codes[s] == PathTo(t, start, s) && CodeLeads(t, start, codes[s], s) {
      assert s in Leaves(t, start);
      PathLeads(t, start, s);
      BehindNothing(PathTo(t, start, s));
    }
    forall id: nat | id < |t| ensures codes[id].numBits != 0 <==> id < MAX_SYMBOLS {
      if id < MAX_SYMBOLS { assert CodeLeads(t, start, codes[id], id); } else { assert codes[id] == before[id]; }
    }
  }

  lemma BehindNothing(c: Code)
    ensures Behind(0, 0, c) == c
  {
  }

  class CHuffman {
    var children: seq<Children>
    var codes: seq<Code>
    var lut: seq<nat>
    var start: nat

    ghost predicate Valid()
      reads this
    {
      && IsTable(children) && MAX_SYMBOLS <= start < |children| == |codes| && Coded(children, start, codes)
      && (forall id: nat :: id < |children| ==> (codes[id].numBits != 0 <==> id < MAX_SYMBOLS))
      && IsLut(children, start, lut)
    }

    constructor ()
    {
      children, codes, lut, start := [], [], [], 0;
    }

    /** Init: whatever the frequencies, every symbol gets the path to it as its code. */
    method Init(frequencies: seq<nat>)
      requires |frequencies| >= MAX_SYMBOLS
      modifies this
      ensures Valid() && children == TreeOf(frequencies) && CodesOf(frequencies, codes)
    {
      hide TreeOf, Leaves, Proper, HoldsAll, IsSet, Coded, IsLut, ArePaths;
      children := BuildTree(frequencies);
      start := |children| - 1;
      var marks := new Code[|children|](id => Code(0, if 0 <= id < MAX_SYMBOLS then 0xFFFF_FFFF else 0));
      ghost var before := marks[..];
      LeavesAreSymbols(children, start);
      SetBits(children, marks, start, 0, 0);
      codes := marks[..];
      SetCodes(children, before, codes, start);
      lut := BuildLut(children, codes, start);
    }

    /** HUFFMAN_MACRO_WRITE: writes whole bytes; fails when the output is full behind one. */
    method WriteBytes(dst: array<Byte>, size: nat, o: nat, bits: nat, bitcount: nat, ghost n: nat, ghost l: nat)
      returns (ok: bool, o': nat, bits': nat, bitcount': nat)
      requires o < size <= dst.Length
      modifies dst
      ensures o <= o' <= size && dst[..o] == old(dst[..o]) && (ok <==> o' < size) && (ok ==> bitcount' < 8)
      ensures Packed(old(dst[..o]), bits, bitcount, n, l) ==> Packed(dst[..o'], bits', bitcount', n, l)
    {
      hide Packed;
      ghost var out := dst[..o];
      o', bits', bitcount' := o, bits, bitcount;
      while bitcount' >= 8
        invariant o <= o' < size && dst[..o] == out
        invariant Packed(out, bits, bitcount, n, l) ==> Packed(dst[..o'], bits', bitcount', n, l)
        decreases bitcount'
      {
        ghost var before := dst[..o'];
        if Packed(before, bits', bitcount', n, l) { PackWrite(before, bits', bitcount', n, l); }
        dst[o'] := bits' % 256;
        o' := o' + 1;
        assert dst[..o'] == before + [bits' % 256];
        bits', bitcount' := bits' / 256, bitcount' - 8;
        if o' == size {
          return false, o', bits', bitcount';
        }
      }
      ok := true;
    }

    /** HUFFMAN_MACRO_LOADSYMBOL on an accumulator. */
    function LoadedBits(s: nat, bits: nat, bitcount: nat): nat
      requires s < |codes|
      reads this
    {
      Or(bits, Shl(codes[s].bits, bitcount) % WORD32)
    }

    /** Load and write one symbol behind those of d. */
    method PutSymbol(dst: array<Byte>, size: nat, o: nat, bits: nat, bitcount: nat, s: nat, ghost n: nat, ghost l: nat)
      returns (ok: bool, o': nat, bits': nat, bitcount': nat)
      requires Valid() && s < MAX_SYMBOLS && o < size <= dst.Length && bitcount < 8
      modifies dst
      ensures o <= o' <= size && dst[..o] == old(dst[..o]) && (ok <==> o' < size) && (ok ==> bitcount' < 8)
      ensures ShortCodes(codes) && Packed(old(dst[..o]), bits, bitcount, n, l) ==>
                0 <= n + Pow2(l) * codes[s].bits &&
                Packed(dst[..o'], bits', bitcount', n + Pow2(l) * codes[s].bits, l + codes[s].numBits)
    {
      hide Packed, Pow2, Or, Shl, Reads, IsLut;
      assert CodeLeads(children, start, codes[s], s);
      ghost var n', l' := n, l;
      MulNonneg(Pow2(l), codes[s].bits);
      if ShortCodes(codes) && Packed(dst[..o], bits, bitcount, n, l) {
        PackLoad(dst[..o], bits, bitcount, n, l, codes[s]);
      }
      ok, o', bits', bitcount' := WriteBytes(dst, size, o, LoadedBits(s, bits, bitcount), bitcount + codes[s].numBits,
                                             n + Pow2(l) * codes[s].bits, l + codes[s].numBits);
    }

    /** What is in the output and the accumulator after the first k symbols of src. */
    ghost predicate Progress(out: seq<Byte>, bits: nat, bitcount: nat, d: seq<Byte>)
      requires |codes| >= MAX_SYMBOLS
      reads this
    {
      ShortCodes(codes) ==> Packed(out, bits, bitcount, Loaded(codes, d), LoadedLength(codes, d))
    }

    /** The symbols of the message, each written when the next one has been fetched. */
    method PutMessage(src: seq<Byte>, dst: array<Byte>, size: nat) returns (ok: bool, o: nat, bits: nat, bitcount: nat)
      requires Valid() && 1 <= size <= dst.Length
      modifies dst
      ensures o <= size && (ok ==> o < size && bitcount < 8 && Progress(dst[..o], bits, bitcount, src))
      ensures !ok && ShortCodes(codes) ==> EncodedLength(codes, src) / 8 >= size
    {
      hide Packed, Pow2, Loaded, LoadedLength, Encoded, EncodedLength, Coded, IsLut, Number;
      bits, bitcount, o, ok := 0, 0, 0, true;
      NothingPacked();
      LoadNone(codes);
      assert dst[..0] == [];
      if src == [] {
        return;
      }
      var symbol := src[0];
      var i := 1;
      while i != |src|
        invariant 1 <= i <= |src| && symbol == src[i - 1] && o < size && bitcount < 8
        invariant Progress(dst[..o], bits, bitcount, src[..i - 1])
      {
        var loaded := symbol;
        symbol := src[i];
        ok, o, bits, bitcount := PutNext(src, i - 1, dst, size, o, bits, bitcount, loaded);
        if !ok {
          return;
        }
        i := i + 1;
      }
      ok, o, bits, bitcount := PutNext(src, i - 1, dst, size, o, bits, bitcount, symbol);
      assert src[..|src|] == src;
    }

    /** Symbol number k of the message. */
    method PutNext(ghost src: seq<Byte>, ghost k: nat, dst: array<Byte>, size: nat, o: nat, bits: nat, bitcount: nat, s: Byte)
      returns (ok: bool, o': nat, bits': nat, bitcount': nat)
      requires Valid() && o < size <= dst.Length && bitcount < 8 && k < |src| && s == src[k]
      requires Progress(dst[..o], bits, bitcount, src[..k])
      modifies dst
      ensures o' <= size && (ok ==> o' < size && bitcount' < 8 && Progress(dst[..o'], bits', bitcount', src[..k + 1]))
      ensures !ok && ShortCodes(codes) ==> EncodedLength(codes, src) / 8 >= size
    {
      hide Packed, Pow2, Loaded, LoadedLength, Encoded, EncodedLength, Coded, IsLut, Number;
      ghost var d := src[..k];
      LoadOne(codes, d, s);
      assert src[..k + 1] == d + [s];
      ok, o', bits', bitcount' := PutSymbol(dst, size, o, bits, bitcount, s, Loaded(codes, d), LoadedLength(codes, d));
      if !ok { Overfull(src, k + 1, dst[..o'], bits', bitcount'); }
    }

    /** Compress: the message and the end symbol as one bit string, in EncodedLength / 8 + 1 bytes; it
        fails exactly when these do not fit. */
    method Compress(src: seq<Byte>, dst: array<Byte>, size: nat) returns (r: int)
      requires Valid() && 1 <= size <= dst.Length
      modifies dst
      ensures r == -1 || 1 <= r <= size
      ensures ShortCodes(codes) ==> (r == -1 <==> EncodedLength(codes, src) / 8 >= size)
      ensures ShortCodes(codes) && r != -1 ==>
                r == EncodedLength(codes, src) / 8 + 1 && IsCompressed(codes, dst[..r], src)
    {
      hide Packed, Pow2, Loaded, LoadedLength, Encoded, EncodedLength, Coded, IsLut, Number;
      var ok, o, bits, bitcount := PutMessage(src, dst, size);
      if !ok {
        return -1;
      }
      WholeMessage(src);
      ok, o, bits, bitcount := PutSymbol(dst, size, o, bits, bitcount, EOF_SYMBOL, Loaded(codes, src), LoadedLength(codes, src));
      ghost var out := dst[..o];
      if ShortCodes(codes) { PackedLength(out, bits, bitcount, Encoded(codes, src), EncodedLength(codes, src)); }
      if !ok {
        return -1;
      }
      if ShortCodes(codes) { PackEnd(out, bits, bitcount, Encoded(codes, src), EncodedLength(codes, src)); }
      dst[o] := bits % 256;
      assert dst[..o + 1] == out + [bits % 256];
      return o + 1;
    }

    lemma WholeMessage(src: seq<Byte>)
      requires |codes| >= MAX_SYMBOLS
      ensures LoadedLength(codes, src) + codes[EOF_SYMBOL].numBits == EncodedLength(codes, src)
      ensures 0 <= Loaded(codes, src) + Pow2(LoadedLength(codes, src)) * codes[EOF_SYMBOL].bits == Encoded(codes, src)
    {
      hide Pow2, Loaded, LoadedLength;
      LoadedIsEncoded(codes, src, []);
      assert src + [] == src;
    }

    /** A full output before the end: the whole would not have fitted either. */
    lemma Overfull(src: seq<Byte>, k: nat, out: seq<Byte>, bits: nat, bitcount: nat)
      requires |codes| >= MAX_SYMBOLS && k <= |src| && Progress(out, bits, bitcount, src[..k])
      ensures ShortCodes(codes) ==> EncodedLength(codes, src) / 8 >= |out|
    {
      hide Pow2, Loaded, LoadedLength, Encoded, EncodedLength;
      LoadedIsEncoded(codes, src[..k], src[k..]);
      assert src[..k] + src[k..] == src;
    }

    lemma PackedLength(out: seq<Byte>, bits: nat, bitcount: nat, n: nat, l: nat)
      requires Packed(out, bits, bitcount, n, l)
      ensures l / 8 >= |out| && (bitcount < 8 ==> l / 8 == |out|)
    {
    }

    // ---- decompressing ----

    /** With d[o..] still to come, the accumulator and the bytes from i on hold its encoding. */
    ghost predicate Ahead(src: seq<Byte>, i: nat, bits: nat, bitcount: nat, d: seq<Byte>, o: nat)
      requires |codes| >= MAX_SYMBOLS && i <= |src|
      reads this
    {
      && o <= |d| && bitcount <= 31 && Stream(bits, bitcount, src[i..], Encoded(codes, d[o..]))
      && bitcount + 8 * (|src| - i) >= EncodedLength(codes, d[o..])
    }

    /** The loop that fills the accumulator. */
    method Fill(src: seq<Byte>, i: nat, bits: nat, bitcount: nat, ghost d: seq<Byte>, ghost o: nat)
      returns (i': nat, bits': nat, bitcount': nat)
      requires |codes| >= MAX_SYMBOLS && i <= |src|
      ensures i <= i' <= |src|
      ensures Ahead(src, i, bits, bitcount, d, o) ==>
                Ahead(src, i', bits', bitcount', d, o) && (bitcount' >= 24 || i' == |src|) && bitcount' >= bitcount
    {
      hide Stream, Or, Shl, Pow2;
      i', bits', bitcount' := i, bits, bitcount;
      while bitcount' < 24 && i' < |src|
        invariant i <= i' <= |src| && bitcount' >= bitcount
        invariant Ahead(src, i, bits, bitcount, d, o) ==> Ahead(src, i', bits', bitcount', d, o)
        decreases |src| - i'
      {
        assert src[i'..][1..] == src[i' + 1..];
        if Ahead(src, i', bits', bitcount', d, o) {
          StreamFill(bits', bitcount', src[i'..], Encoded(codes, d[o..]));
        }
        bits' := Or(bits', Shl(src[i'], bitcount') % WORD32);
        i', bitcount' := i' + 1, bitcount' + 8;
      }
    }

    /** The low ten bits of the accumulator are those of the stream, once there are as many. */
    lemma LowTen(src: seq<Byte>, i: nat, bits: nat, bitcount: nat, d: seq<Byte>, o: nat)
      requires |codes| >= MAX_SYMBOLS && i <= |src| && Ahead(src, i, bits, bitcount, d, o) && (bitcount >= 10 || i == |src|)
      ensures bits % LUTSIZE == Encoded(codes, d[o..]) % LUTSIZE
    {
      hide Pow2, Stream;
      EightBits();
      StreamLow(bits, bitcount, src[i..], Encoded(codes, d[o..]), 10);
    }

    /** What the table says about the symbol that is next. */
    lemma LutReads(bits: nat, d: seq<Byte>, o: nat)
      requires Valid() && o <= |d| && bits % LUTSIZE == Encoded(codes, d[o..]) % LUTSIZE
      ensures var s, r, node := FirstSymbol(d[o..]), Encoded(codes, d[o..]), lut[bits % LUTSIZE];
              var k := codes[s].numBits;
              && Reads(children, start, r, k, s)
              && (k <= 10 ==> node == s)
              && (k > 10 ==> MAX_SYMBOLS <= node < |children| && Reads(children, node, Above(r, 10), k - 10, s))
    {
      hide Pow2, Reads, Descend, Encoded;
      var r := Encoded(codes, d[o..]);
      EightBits();
      FirstIsRead(children, start, codes, d[o..]);
      var s := FirstSymbol(d[o..]);
      DescendReads(children, start, r, codes[s].numBits, s, 10);
      ModMod(bits, 1024);
      DescendLow(children, start, bits % LUTSIZE, r, 10);
    }

    /** There are enough bits for that symbol. */
    lemma Enough(src: seq<Byte>, i: nat, bits: nat, bitcount: nat, d: seq<Byte>, o: nat)
      requires Valid() && i <= |src| && Ahead(src, i, bits, bitcount, d, o) && (bitcount >= 24 || i == |src|) && ShortCodes(codes)
      ensures codes[FirstSymbol(d[o..])].numBits <= bitcount
    {
    }

    /** Behind that symbol comes the rest of the message. */
    lemma RestAhead(src: seq<Byte>, i: nat, bits: nat, bitcount: nat, bits': nat, d: seq<Byte>, o: nat)
      requires Valid() && i <= |src| && Ahead(src, i, bits, bitcount, d, o) && o < |d|
      requires codes[d[o]].numBits <= bitcount
      requires Stream(bits', bitcount - codes[d[o]].numBits, src[i..], Above(Encoded(codes, d[o..]), codes[d[o]].numBits))
      ensures Ahead(src, i, bits', bitcount - codes[d[o]].numBits, d, o + 1)
    {
      hide Pow2, Stream, Reads;
      assert d[o..][1..] == d[o + 1..] && d[o..][0] == d[o];
      FirstIsRead(children, start, codes, d[o..]);
    }

    /** The walk down the tree, bit by bit. */
    method Walk(node: nat, bits: nat, bitcount: nat, ghost rest: seq<Byte>, ghost r: nat, ghost k: nat, ghost s: nat)
      returns (ok: bool, node': nat, bits': nat, bitcount': nat)
      requires Valid() && MAX_SYMBOLS <= node < |children|
      ensures ok ==> node' < MAX_SYMBOLS
      ensures Stream(bits, bitcount, rest, r) && Reads(children, node, r, k, s) && k <= bitcount < WORD32 ==>
                ok && node' == s && bitcount' == bitcount - k && Stream(bits', bitcount', rest, Above(r, k))
    {
      hide Stream, Pow2, IsLut, Coded, Above;
      ghost var good := Stream(bits, bitcount, rest, r) && Reads(children, node, r, k, s) && k <= bitcount < WORD32;
      ghost var j: nat := 0;
      node', bits', bitcount' := node, bits, bitcount;
      AboveStep(r, 0);
      while true
        invariant MAX_SYMBOLS <= node' < |children|
        invariant good ==> j < k && bitcount' == bitcount - j && Stream(bits', bitcount', rest, Above(r, j))
                           && Reads(children, node', Above(r, j), k - j, s)
        decreases node'
      {
        if good {
          DropBit(bits', bitcount', rest, Above(r, j));
          AboveStep(r, j);
        }
        node' := Child(children, node', bits');
        bitcount' := (bitcount' + WORD32 - 1) % WORD32;
        bits' := bits' / 2;
        j := j + 1;
        if codes[node'].numBits != 0 {
          return true, node', bits', bitcount';
        }
        if bitcount' == 0 {
          return false, node', bits', bitcount';
        }
      }
    }

    /** The next symbol is taken from the accumulator: by the table alone, or by a walk from where the
        table stops. */
    method TakeSymbol(src: seq<Byte>, i: nat, lookup: nat, bits: nat, bitcount: nat, ghost d: seq<Byte>, ghost o: nat)
      returns (ok: bool, node: nat, bits': nat, bitcount': nat)
      requires Valid() && i <= |src| && lookup < |children|
      ensures ok ==> node < MAX_SYMBOLS
      ensures Next(src, i, lookup, bits, bitcount, d, o) ==>
                ok && node == FirstSymbol(d[o..]) && (o < |d| ==> Ahead(src, i, bits', bitcount', d, o + 1))
    {
      hide Stream, Pow2, Reads, IsLut, Coded, Encoded, EncodedLength, Above;
      ghost var good := Next(src, i, lookup, bits, bitcount, d, o);
      ghost var e := if o <= |d| then d[o..] else [];
      ghost var s, rest := FirstSymbol(e), src[i..];
      ghost var k, stream := codes[s].numBits, Encoded(codes, e);
      ok, node := true, lookup;
      if codes[node].numBits != 0 {
        if good { Dropped(bits, bitcount, rest, stream, k); }
        bits' := Above(bits, codes[node].numBits);
        bitcount' := (bitcount - codes[node].numBits) % WORD32;
      } else {
        if good {
          Dropped(bits, bitcount, rest, stream, 10);
          AboveAdd(stream, 10, k - 10);
        }
        ok, node, bits', bitcount' := Walk(node, Above(bits, LUTBITS), (bitcount - LUTBITS) % WORD32, rest,
                                           Above(stream, 10), if k >= 10 then k - 10 else 0, s);
      }
      if good && o < |d| { RestAhead(src, i, bits, bitcount, bits', d, o); }
    }

    /** The table entry is that of the symbol that comes next, and all its bits are there. */
    ghost predicate Next(src: seq<Byte>, i: nat, node: nat, bits: nat, bitcount: nat, d: seq<Byte>, o: nat)
      requires Valid() && i <= |src|
      reads this
    {
      && Ahead(src, i, bits, bitcount, d, o)
      && var s, stream := FirstSymbol(d[o..]), Encoded(codes, d[o..]);
         var k := codes[s].numBits;
         && k <= bitcount
         && (k <= 10 ==> node == s)
         && (k > 10 ==> MAX_SYMBOLS <= node < |children| && Reads(children, node, Above(stream, 10), k - 10, s))
    }

    lemma LookedUp(bits0: nat, src: seq<Byte>, i: nat, bits: nat, bitcount: nat, d: seq<Byte>, o: nat)
      requires Valid() && i <= |src| && Ahead(src, i, bits, bitcount, d, o) && (bitcount >= 24 || i == |src|) && ShortCodes(codes)
      requires bits0 % LUTSIZE == Encoded(codes, d[o..]) % LUTSIZE
      ensures Next(src, i, lut[bits0 % LUTSIZE], bits, bitcount, d, o)
    {
      hide Stream, Pow2, Reads, IsLut, Coded, Encoded, EncodedLength;
      LutReads(bits0, d, o);
      Enough(src, i, bits, bitcount, d, o);
      EightBits();
    }

    /** Decompress: what has been compressed from d comes out again, if it fits the output; and that is
        all that happens to fail. */
    method Decompress(src: seq<Byte>, dst: array<Byte>, size: nat, ghost d: seq<Byte>) returns (r: int)
      requires Valid() && size <= dst.Length
      modifies dst
      ensures -1 <= r <= size && forall k :: size <= k < dst.Length ==> dst[k] == old(dst[k])
      ensures ShortCodes(codes) && IsCompressed(codes, src, d) ==>
                r == (if |d| <= size then |d| else -1) && (r != -1 ==> dst[..r] == d)
    {
      hide Stream, Pow2, Reads, Coded, Encoded, EncodedLength, Number, Ahead, Next, Descend;
      ghost var good := ShortCodes(codes) && IsCompressed(codes, src, d);
      var bits: nat, bitcount: nat, i: nat, o: nat := 0, 0, 0, 0;
      if good { AheadStart(src, d); }
      while true
        invariant o <= size && i <= |src|
        invariant good ==> o <= |d| && Ahead(src, i, bits, bitcount, d, o) && dst[..o] == d[..o]
        invariant forall k :: size <= k < dst.Length ==> dst[k] == old(dst[k])
        decreases size - o
      {
        var lookup: int := -1;
        ghost var bits0 := bits;
        if bitcount >= LUTBITS {
          lookup := lut[bits % LUTSIZE];
          if good { LowTen(src, i, bits, bitcount, d, o); }
        }
        i, bits, bitcount := Fill(src, i, bits, bitcount, d, o);
        if lookup == -1 {
          lookup := lut[bits % LUTSIZE];
          bits0 := bits;
          if good { LowTen(src, i, bits, bitcount, d, o); }
        }
        if good { LookedUp(bits0, src, i, bits, bitcount, d, o); }
        var ok, node;
        ok, node, bits, bitcount := TakeSymbol(src, i, lookup, bits, bitcount, d, o);
        if !ok {
          return -1;
        }
        if node == EOF_SYMBOL {
          return o;
        }
        if o == size {
          return -1;
        }
        ghost var before := dst[..o];
        dst[o] := node;
        assert dst[..o + 1] == before + [node];
        o := o + 1;
      }
    }

    lemma AheadStart(src: seq<Byte>, d: seq<Byte>)
      requires |codes| >= MAX_SYMBOLS && IsCompressed(codes, src, d)
      ensures Ahead(src, 0, 0, 0, d, 0)
    {
      hide Encoded, EncodedLength, Number;
      assert src[0..] == src && d[0..] == d;
    }
  }

  lemma Dropped(bits: nat, bitcount: nat, rest: seq<Byte>, r: nat, k: nat)
    requires Stream(bits, bitcount, rest, r) && k <= bitcount <= 31
    ensures Stream(Above(bits, k), bitcount - k, rest, Above(r, k)) && (bitcount - k) % WORD32 == bitcount - k
  {
    hide Pow2, Stream;
    StreamDrop(bits, bitcount, rest, r, k);
  }

  lemma ModMod(x: nat, p: nat)
    requires p > 0
    ensures x % p % p == x % p
  {
    SmallMod(x % p, p);
  }

  lemma PowTwo()
    ensures Pow2(0) == 1 && Pow2(1) == 2
  {
  }

  lemma NothingPacked()
    ensures Packed([], 0, 0, 0, 0)
  {
  }
}
