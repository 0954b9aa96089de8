/** The two-row dynamic programs of src/base/system.cpp for the edit distance, which share one
    scratch buffer between the decoded operands and the rows. */
module EditDistanceBuffer {
  import opened EditDistance
  import opened Utf8
  import opened Utf8Strings

  /** Where the source keeps entry (i, j) of the table: row j in the half given by its parity. */
  function Slot(from: nat, aLen: nat, i: nat, j: nat): nat {
    from + (j % 2) * (aLen + 1) + i
  }

  /** The first n entries of row j are in place in the memory m. */
  ghost predicate RowDone(m: seq<int>, from: nat, a: seq<int>, b: seq<int>, j: nat, n: nat) {
    && j <= |b| && n <= |a| + 1 && from + 2 * (|a| + 1) <= |m|
    && forall i: nat :: i < n ==> m[Slot(from, |a|, i, j)] == Dist(a, b, i, j)
  }

  lemma SlotsDistinct(from: nat, aLen: nat, i: nat, j: nat, i': nat, j': nat)
    requires i <= aLen && i' <= aLen
    ensures from <= Slot(from, aLen, i, j) < from + 2 * (aLen + 1)
    ensures Slot(from, aLen, i, j) == Slot(from, aLen, i', j') ==> i == i' && j % 2 == j' % 2
  {
  }

  lemma StoreKeeps(m: seq<int>, from: nat, a: seq<int>, b: seq<int>, j: nat, n: nat, v: int, j': nat, n': nat)
    requires n <= |a| && RowDone(m, from, a, b, j', n')
    requires n' <= n || j' % 2 != j % 2
    ensures Slot(from, |a|, n, j) < |m|
    ensures RowDone(m[Slot(from, |a|, n, j) := v], from, a, b, j', n')
  {
    hide Dist, Slot;
    SlotsDistinct(from, |a|, n, j, n, j);
    forall i: nat | i < n'
      ensures Slot(from, |a|, i, j') < |m| && m[Slot(from, |a|, n, j) := v][Slot(from, |a|, i, j')] == Dist(a, b, i, j')
    {
      SlotsDistinct(from, |a|, i, j', n, j);
      SlotsDistinct(from, |a|, n, j, i, j');
    }
  }

  /** Storing entry (n, j) extends row j and leaves the row before it alone. */
  lemma StoreEntry(m: seq<int>, from: nat, a: seq<int>, b: seq<int>, j: nat, n: nat, v: int)
    requires n <= |a| && RowDone(m, from, a, b, j, n) && v == Dist(a, b, n, j)
    ensures Slot(from, |a|, n, j) < |m|
    ensures RowDone(m[Slot(from, |a|, n, j) := v], from, a, b, j, n + 1)
    ensures j > 0 && RowDone(m, from, a, b, j - 1, |a| + 1) ==>
              RowDone(m[Slot(from, |a|, n, j) := v], from, a, b, j - 1, |a| + 1)
  {
    hide Dist, Slot;
    StoreKeeps(m, from, a, b, j, n, v, j, n);
    if j > 0 && RowDone(m, from, a, b, j - 1, |a| + 1) {
      StoreKeeps(m, from, a, b, j, n, v, j - 1, |a| + 1);
    }
  }

  /** The entry the inner loop computes from the memory. */
  lemma EntryFromMemory(m: seq<int>, from: nat, a: seq<int>, b: seq<int>, j: nat, n: nat)
    requires 0 < n <= |a| && j > 0
    requires RowDone(m, from, a, b, j, n) && RowDone(m, from, a, b, j - 1, |a| + 1)
    ensures Slot(from, |a|, n - 1, j) < |m| && Slot(from, |a|, n, j - 1) < |m| && Slot(from, |a|, n - 1, j - 1) < |m|
    ensures Dist(a, b, n, j) ==
              Min3(m[Slot(from, |a|, n - 1, j)] + 1, m[Slot(from, |a|, n, j - 1)] + 1,
                   m[Slot(from, |a|, n - 1, j - 1)] + if a[n - 1] != b[j - 1] then 1 else 0)
  {
    hide Dist, Slot;
    Recurrence(a, b, n, j);
    SlotsDistinct(from, |a|, n - 1, j, n, j);
    SlotsDistinct(from, |a|, n, j - 1, n, j);
    SlotsDistinct(from, |a|, n - 1, j - 1, n, j);
  }

  /** An operand lies in memory apart from the rows. */
  ghost predicate Operand(x: seq<int>, base: array<int>, start: nat, buf: array<int>, from: nat, room: nat)
    reads base
  {
    && start + |x| <= base.Length && (forall k :: 0 <= k < |x| ==> base[start + k] == x[k])
    && (base == buf ==> start + |x| <= from || from + room <= start)
  }

  /** The inner loop of str_utf32_dist_buffer: row j from row j - 1. */
  method FillRow(base: array<int>, start: nat, base': array<int>, start': nat, buf: array<int>, from: nat, aLen: nat,
                 j: nat, ghost a: seq<int>, ghost b: seq<int>)
    requires 0 < j <= |b| && aLen == |a|
    requires Operand(a, base, start, buf, from, 2 * (aLen + 1))
    requires Operand(b, base', start', buf, from, 2 * (aLen + 1))
    requires RowDone(buf[..], from, a, b, j - 1, aLen + 1)
    modifies buf
    ensures RowDone(buf[..], from, a, b, j, aLen + 1)
    ensures forall k :: 0 <= k < from || from + 2 * (aLen + 1) <= k < buf.Length ==> buf[k] == old(buf[k])
  {
    hide Dist, Slot, RowDone;
    RowFits(buf[..], from, a, b, j - 1, aLen + 1);
    Border(a, b, 0, j);
    EmptyRow(buf[..], from, a, b, j);
    StoreEntry(buf[..], from, a, b, j, 0, j);
    SlotsDistinct(from, aLen, 0, j, 0, j);
    buf[Slot(from, aLen, 0, j)] := j;
    var i := 1;
    while i <= aLen
      invariant 1 <= i <= aLen + 1
      invariant RowDone(buf[..], from, a, b, j - 1, aLen + 1)
      invariant RowDone(buf[..], from, a, b, j, i)
      invariant forall k :: 0 <= k < from || from + 2 * (aLen + 1) <= k < buf.Length ==> buf[k] == old(buf[k])
    {
      EntryFromMemory(buf[..], from, a, b, j, i);
      assert base[start + (i - 1)] == a[i - 1] && base'[start' + (j - 1)] == b[j - 1];
      var subst := if base[start + i - 1] != base'[start' + j - 1] then 1 else 0;
      var least := Min3(buf[Slot(from, aLen, i - 1, j)] + 1,
                        buf[Slot(from, aLen, i, j - 1)] + 1,
                        buf[Slot(from, aLen, i - 1, j - 1)] + subst);
      StoreEntry(buf[..], from, a, b, j, i, least);
      SlotsDistinct(from, aLen, i, j, i, j);
      buf[Slot(from, aLen, i, j)] := least;
      i := i + 1;
    }
  }

  /** The first loop of str_utf32_dist_buffer: row 0. */
  method FirstRow(buf: array<int>, from: nat, aLen: nat, ghost a: seq<int>, ghost b: seq<int>)
    requires aLen == |a| && from + 2 * (aLen + 1) <= buf.Length
    modifies buf
    ensures RowDone(buf[..], from, a, b, 0, aLen + 1)
    ensures forall k :: 0 <= k < from || from + 2 * (aLen + 1) <= k < buf.Length ==> buf[k] == old(buf[k])
  {
    hide Dist, Slot, RowDone;
    EmptyRow(buf[..], from, a, b, 0);
    var i := 0;
    while i <= aLen
      invariant 0 <= i <= aLen + 1
      invariant RowDone(buf[..], from, a, b, 0, i)
      invariant forall k :: 0 <= k < from || from + 2 * (aLen + 1) <= k < buf.Length ==> buf[k] == old(buf[k])
    {
      Border(a, b, i, 0);
      StoreEntry(buf[..], from, a, b, 0, i, i);
      SlotsDistinct(from, aLen, i, 0, i, 0);
      buf[Slot(from, aLen, i, 0)] := i;
      i := i + 1;
    }
  }

  /** str_utf32_dist_buffer: operands and scratch space may lie in one array, apart from each
      other. */
  method StrUtf32DistBuffer(aBase: array<int>, aFrom: nat, aLength: nat,
                            bBase: array<int>, bFrom: nat, bLength: nat,
                            buf: array<int>, from: nat, bufLen: nat) returns (d: nat)
    requires aFrom + aLength <= aBase.Length && bFrom + bLength <= bBase.Length && from + bufLen <= buf.Length
    requires bufLen >= (aLength + 1) + (bLength + 1)
    requires aBase == buf ==> aFrom + aLength <= from || from + bufLen <= aFrom
    requires bBase == buf ==> bFrom + bLength <= from || from + bufLen <= bFrom
    modifies buf
    ensures d == Distance(old(aBase[aFrom..aFrom + aLength]), old(bBase[bFrom..bFrom + bLength]))
    ensures forall k :: 0 <= k < from || from + bufLen <= k < buf.Length ==> buf[k] == old(buf[k])
  {
    hide Dist, Slot, RowDone;
    var base, start, aLen := aBase, aFrom, aLength;
    var base', start', bLen := bBase, bFrom, bLength;
    ghost var a, b := aBase[aFrom..aFrom + aLength], bBase[bFrom..bFrom + bLength];
    DistSymmetric(a, b, aLen, bLen);
    if aLen > bLen {
      base, start, aLen, base', start', bLen := base', start', bLen, base, start, aLen;
      a, b := b, a;
    }
    d := FillTable(base, start, aLen, base', start', bLen, buf, from, bufLen, a, b);
  }

  /** The loops of str_utf32_dist_buffer, the shorter operand first. */
  method FillTable(base: array<int>, start: nat, aLen: nat, base': array<int>, start': nat, bLen: nat,
                   buf: array<int>, from: nat, bufLen: nat, ghost a: seq<int>, ghost b: seq<int>) returns (d: nat)
    requires aLen == |a| <= |b| == bLen && from + bufLen <= buf.Length && bufLen >= (aLen + 1) + (bLen + 1)
    requires Operand(a, base, start, buf, from, bufLen) && Operand(b, base', start', buf, from, bufLen)
    modifies buf
    ensures d == Distance(a, b)
    ensures forall k :: 0 <= k < from || from + bufLen <= k < buf.Length ==> buf[k] == old(buf[k])
  {
    hide Dist, Slot, RowDone;
    FirstRow(buf, from, aLen, a, b);
    var j := 1;
    while j <= bLen
      invariant 1 <= j <= bLen + 1
      invariant RowDone(buf[..], from, a, b, j - 1, aLen + 1)
      invariant Operand(a, base, start, buf, from, bufLen) && Operand(b, base', start', buf, from, bufLen)
      invariant forall k :: 0 <= k < from || from + bufLen <= k < buf.Length ==> buf[k] == old(buf[k])
    {
      FillRow(base, start, base', start', buf, from, aLen, j, a, b);
      j := j + 1;
    }
    LastEntry(buf[..], from, a, b, bLen);
    return buf[Slot(from, aLen, aLen, bLen)];
  }

  lemma RowFits(m: seq<int>, from: nat, a: seq<int>, b: seq<int>, j: nat, n: nat)
    requires RowDone(m, from, a, b, j, n)
    ensures from + 2 * (|a| + 1) <= |m|
  {
  }

  lemma EmptyRow(m: seq<int>, from: nat, a: seq<int>, b: seq<int>, j: nat)
    requires j <= |b| && from + 2 * (|a| + 1) <= |m|
    ensures RowDone(m, from, a, b, j, 0)
  {
  }

  lemma LastEntry(m: seq<int>, from: nat, a: seq<int>, b: seq<int>, j: nat)
    requires RowDone(m, from, a, b, j, |a| + 1)
    ensures Slot(from, |a|, |a|, j) < |m| && m[Slot(from, |a|, |a|, j)] == Dist(a, b, |a|, j)
  {
    hide Dist;
  }

  // ---- on UTF-8 strings ----

  /** str_to_utf32_unchecked: writes the code points and a final 0 from position `from` on. */
  method StrToUtf32Unchecked(s: seq<Byte>, buf: array<int>, from: nat) returns (n: nat)
    requires NulFree(s) && from + |s| < buf.Length
    modifies buf
    ensures n == |CodePoints(s)| && buf[from..from + n] == CodePoints(s)
    ensures forall k :: 0 <= k < from || from + n < k < buf.Length ==> buf[k] == old(buf[k])
  {
    hide Decode;
    n := 0;
    var p := 0;
    while true
      invariant p <= |s| && n <= p
      invariant CodePoints(s) == buf[from..from + n] + CodePoints(s[p..])
      invariant forall k :: 0 <= k < from || from + n <= k < buf.Length ==> buf[k] == old(buf[k])
      decreases |s| - p
    {
      var c, q := StrUtf8Decode(s, p);
      DecodeZeroIffEnd(s[p..]);
      ghost var before := buf[from..from + n];
      buf[from + n] := c;
      assert buf[from..from + n] == before;
      if c == 0 {
        assert CodePoints(s[p..]) == [];
        return n;
      }
      StepAt(s, p);
      assert buf[from..from + n + 1] == before + [c];
      n, p := n + 1, q;
    }
  }

  /** str_utf8_dist_buffer: decodes both strings into the scratch buffer and always leaves the rows
      enough room. */
  method StrUtf8DistBuffer(aUtf8: seq<Byte>, bUtf8: seq<Byte>, buf: array<int>, bufLen: nat) returns (d: nat)
    requires NulFree(aUtf8) && NulFree(bUtf8)
    requires 2 * (|aUtf8| + 1 + |bUtf8| + 1) <= bufLen <= buf.Length
    modifies buf
    ensures d == Distance(CodePoints(aUtf8), CodePoints(bUtf8))
  {
    hide Dist, CodePoints;
    var first, second := aUtf8, bUtf8;
    if |first| > |second| {
      first, second := second, first;
      var x, y := CodePoints(aUtf8), CodePoints(bUtf8);
      DistSymmetric(x, y, |x|, |y|);
    }
    var aLen := StrToUtf32Unchecked(first, buf, 0);
    ghost var fst := buf[0..aLen];
    var bLen := StrToUtf32Unchecked(second, buf, aLen);
    assert buf[0..aLen] == fst;
    d := StrUtf32DistBuffer(buf, 0, aLen, buf, aLen, bLen, buf, aLen + bLen, bufLen - bLen - aLen);
  }

  /** str_utf8_dist: allocates exactly what the buffer variant asks for. */
  method StrUtf8Dist(a: seq<Byte>, b: seq<Byte>) returns (d: nat)
    requires NulFree(a) && NulFree(b)
    ensures d == Distance(CodePoints(a), CodePoints(b))
  {
    var bufLen := 2 * (|a| + 1 + |b| + 1);
    var buf := new int[bufLen];
    d := StrUtf8DistBuffer(a, b, buf, bufLen);
  }

  /** On valid strings the distance is zero exactly for equal strings. */
  lemma ZeroIffSameString(s: seq<Byte>, t: seq<Byte>)
    requires NulFree(s) && NulFree(t) && Valid(s) && Valid(t)
    ensures Distance(CodePoints(s), CodePoints(t)) == 0 <==> s == t
  {
    var x := ValidGivesCharacters(s);
    var y := ValidGivesCharacters(t);
    CodePointsOfEncoding(x);
    CodePointsOfEncoding(y);
    DistanceIsMetric(x, y, y);
  }
}
