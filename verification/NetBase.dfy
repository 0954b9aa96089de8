/** The one Huffman code of the game (src/engine/shared/network.cpp): its table of frequencies keeps all
    codes short, so compressing works for every message, and packets carry their data unchanged. */
module NetBase {
  import opened Utf8
  import opened Sequences
  import opened Huffman
  import opened HuffmanTable
  import opened HuffmanDepth
  import opened HuffmanCodec

  // ---- ms_aFreqTable ----

  const ROW0: seq<nat> := [0x4000_0000, 4545, 2657, 431, 1950, 919, 444, 482, 2244, 617, 838, 542, 715, 1814, 304, 240, 754, 212, 647, 186]
  const ROW1: seq<nat> := [283, 131, 146, 166, 543, 164, 167, 136, 179, 859, 363, 113, 157, 154, 204, 108, 137, 180, 202, 176]
  const ROW2: seq<nat> := [872, 404, 168, 134, 151, 111, 113, 109, 120, 126, 129, 100, 41, 20, 16, 22, 18, 18, 17, 19]
  const ROW3: seq<nat> := [16, 37, 13, 21, 362, 166, 99, 78, 95, 88, 81, 70, 83, 284, 91, 187, 77, 68, 52, 68]
  const ROW4: seq<nat> := [59, 66, 61, 638, 71, 157, 50, 46, 69, 43, 11, 24, 13, 19, 10, 12, 12, 20, 14, 9]
  const ROW5: seq<nat> := [20, 20, 10, 10, 15, 15, 12, 12, 7, 19, 15, 14, 13, 18, 35, 19, 17, 14, 8, 5]
  const ROW6: seq<nat> := [15, 17, 9, 15, 14, 18, 8, 10, 2173, 134, 157, 68, 188, 60, 170, 60, 194, 62, 175, 71]
  const ROW7: seq<nat> := [148, 67, 167, 78, 211, 67, 156, 69, 1674, 90, 174, 53, 147, 89, 181, 51, 174, 63, 163, 80]
  const ROW8: seq<nat> := [167, 94, 128, 122, 223, 153, 218, 77, 200, 110, 190, 73, 174, 69, 145, 66, 277, 143, 141, 60]
  const ROW9: seq<nat> := [136, 53, 180, 57, 142, 57, 158, 61, 166, 112, 152, 92, 26, 22, 21, 28, 20, 26, 30, 21]
  const ROW10: seq<nat> := [32, 27, 20, 17, 23, 21, 30, 22, 22, 21, 27, 25, 17, 27, 23, 18, 39, 26, 15, 21]
  const ROW11: seq<nat> := [12, 18, 18, 27, 20, 18, 15, 19, 11, 17, 33, 12, 18, 15, 19, 18, 16, 26, 17, 18]
  const ROW12: seq<nat> := [9, 10, 25, 22, 22, 17, 20, 16, 6, 16, 15, 20, 14, 18, 24, 335, 1517]

  function Rows(): seq<seq<nat>> {
    [ROW0, ROW1, ROW2, ROW3, ROW4, ROW5, ROW6, ROW7, ROW8, ROW9, ROW10, ROW11, ROW12]
  }

  function FreqTable(): seq<nat> { Flatten(Rows()) }

  lemma RowLengths()
    ensures |Rows()| == 13 && |Rows()[12]| == 17 && forall i: nat :: i < 12 ==> |Rows()[i]| == 20
  {
  }

  lemma {:induction false} LongRows(ls: seq<seq<nat>>)
    requires forall i :: 0 <= i < |ls| ==> |ls[i]| == 20
    ensures |Flatten(ls)| == 20 * |ls|
  {
    if ls != [] { LongRows(ls[..|ls| - 1]); }
  }

  /** The table row by row. */
  lemma RowAt(i: nat)
    requires i < 13
    ensures |FreqTable()| == MAX_SYMBOLS && |Rows()| == 13 && 20 * i + |Rows()[i]| <= |FreqTable()|
    ensures FreqTable()[20 * i..20 * i + |Rows()[i]|] == Rows()[i]
  {
    hide Rows, Flatten;
    RowLengths();
    var ls := Rows();
    LongRows(ls[..i]);
    LongRows(ls[..12]);
    SliceOfFlatten(ls, i);
    assert |Flatten(ls)| == |Flatten(ls[..12])| + |ls[12]| by { FlattenLast(ls); }
  }

  lemma FlattenLast(ls: seq<seq<nat>>)
    requires ls != []
    ensures |Flatten(ls)| == |Flatten(ls[..|ls| - 1])| + |ls[|ls| - 1]|
  {
  }

  ghost function Four(f: seq<nat>, k: nat): nat
    requires k + 4 <= |f|
  {
    f[k] + f[k + 1] + f[k + 2] + f[k + 3]
  }

  lemma AddFour(f: seq<nat>, k: nat)
    requires |f| >= MAX_SYMBOLS && k + 4 <= EOF_SYMBOL
    ensures AllFrequencies(f, k + 4) == AllFrequencies(f, k) + Four(f, k)
  {
    assert AllFrequencies(f, k + 1) == AllFrequencies(f, k) + f[k];
    assert AllFrequencies(f, k + 2) == AllFrequencies(f, k + 1) + f[k + 1];
    assert AllFrequencies(f, k + 3) == AllFrequencies(f, k + 2) + f[k + 2];
  }

  lemma AddRow(f: seq<nat>, k: nat, row: seq<nat>)
    requires |f| >= MAX_SYMBOLS && |row| >= 16 && k + |row| <= |f| && f[k..k + |row|] == row
    ensures k + 16 <= EOF_SYMBOL ==>
              AllFrequencies(f, k + 16) == AllFrequencies(f, k) + Four(row, 0) + Four(row, 4) + Four(row, 8) + Four(row, 12)
    ensures k + 20 <= EOF_SYMBOL && |row| >= 20 ==>
              AllFrequencies(f, k + 20) == AllFrequencies(f, k + 16) + Four(row, 16)
  {
    hide AllFrequencies;
    assert forall j :: 0 <= j < |row| ==> f[k + j] == row[j];
    if k + 16 <= EOF_SYMBOL {
      AddFour(f, k); AddFour(f, k + 4); AddFour(f, k + 8); AddFour(f, k + 12);
    }
    if k + 20 <= EOF_SYMBOL && |row| >= 20 { AddFour(f, k + 16); }
  }

  ghost function RowSum(row: seq<nat>): nat
    requires |row| == 20
  {
    Four(row, 0) + Four(row, 4) + Four(row, 8) + Four(row, 12) + Four(row, 16)
  }

  lemma RowSums()
    ensures RowSum(ROW0) == 0x4000_0000 + 20541 && RowSum(ROW1) == 4568 && RowSum(ROW2) == 2708
    ensures RowSum(ROW3) == 2036 && RowSum(ROW4) == 1404 && RowSum(ROW5) == 298
    ensures RowSum(ROW6) == 3618 && RowSum(ROW7) == 3902 && RowSum(ROW8) == 2830
    ensures RowSum(ROW9) == 1560 && RowSum(ROW10) == 473 && RowSum(ROW11) == 367
    ensures Four(ROW12, 0) + Four(ROW12, 4) + Four(ROW12, 8) + Four(ROW12, 12) == 589
  {
  }

  /** Besides the symbol 0 all frequencies sum up to 44895. */
  lemma TableTotal()
    ensures |FreqTable()| == MAX_SYMBOLS && AllFrequencies(FreqTable(), MAX_SYMBOLS) == 0x4000_0000 + 44895
    ensures Frequency(FreqTable(), 0) == 0x4000_0000
  {
    hide FreqTable, AllFrequencies, RowSum, Four;
    var f := FreqTable();
    AddRows(f, 12);
    TwelveRows();
    LastTwo(f);
    RowAt(0);
    RowLengths();
    assert f[0] == f[20 * 0..20 * 0 + |Rows()[0]|][0] == ROW0[0];
    RowAt(12);
    AddRow(f, 240, ROW12);
    RowSums();
  }

  /** The frequency of the end symbol is not the one in the table. */
  lemma LastTwo(f: seq<nat>)
    requires |f| >= MAX_SYMBOLS
    ensures AllFrequencies(f, MAX_SYMBOLS) == AllFrequencies(f, EOF_SYMBOL) + 1 && AllFrequencies(f, 0) == 0
  {
  }

  ghost function SumRows(n: nat): nat
    requires n <= 12
  {
    if n == 0 then 0 else RowLengths(); SumRows(n - 1) + RowSum(Rows()[n - 1])
  }

  lemma {:induction false} AddRows(f: seq<nat>, n: nat)
    requires f == FreqTable() && n <= 12
    ensures |f| == MAX_SYMBOLS && AllFrequencies(f, 20 * n) == SumRows(n)
  {
    hide FreqTable, Rows, Four, RowSum;
    RowAt(0);
    if n == 0 {
      LastTwo(f);
    } else {
      AddRows(f, n - 1);
      hide AllFrequencies;
      RowLengths();
      RowAt(n - 1);
      AddRow(f, 20 * (n - 1), Rows()[n - 1]);
      assert RowSum(Rows()[n - 1]) == Four(Rows()[n - 1], 0) + Four(Rows()[n - 1], 4) + Four(Rows()[n - 1], 8)
                                      + Four(Rows()[n - 1], 12) + Four(Rows()[n - 1], 16) by { RowSumIs(Rows()[n - 1]); }
    }
  }

  lemma RowSumIs(row: seq<nat>)
    requires |row| == 20
    ensures RowSum(row) == Four(row, 0) + Four(row, 4) + Four(row, 8) + Four(row, 12) + Four(row, 16)
  {
  }

  lemma SixRows(n: nat)
    requires n <= 6
    ensures SumRows(n + 6) == SumRows(n) + RowSum(Rows()[n]) + RowSum(Rows()[n + 1]) + RowSum(Rows()[n + 2])
                              + RowSum(Rows()[n + 3]) + RowSum(Rows()[n + 4]) + RowSum(Rows()[n + 5])
  {
    hide RowSum, Rows;
    RowLengths();
    assert SumRows(n + 2) == SumRows(n) + RowSum(Rows()[n]) + RowSum(Rows()[n + 1]);
    assert SumRows(n + 4) == SumRows(n + 2) + RowSum(Rows()[n + 2]) + RowSum(Rows()[n + 3]);
  }

  lemma TwelveRows()
    ensures SumRows(12) == 0x4000_0000 + 44305
  {
    hide RowSum;
    RowSums();
    SixRows(0);
    SixRows(6);
  }

  lemma TableOccurs()
    ensures AllOccur(FreqTable())
  {
    hide FreqTable;
    var f := FreqTable();
    RowAt(0);
    forall s: nat | s < MAX_SYMBOLS ensures Frequency(f, s) >= 1 {
      var i, j := s / 20, s % 20;
      RowAt(i);
      RowLengths();
      assert f[s] == f[20 * i..20 * i + |Rows()[i]|][j];
      RowOccurs(i, j);
    }
  }

  ghost predicate FourOccur(row: seq<nat>, k: nat)
    requires k + 4 <= |row|
  {
    row[k] >= 1 && row[k + 1] >= 1 && row[k + 2] >= 1 && row[k + 3] >= 1
  }

  ghost predicate Occurs(row: seq<nat>)
    requires |row| == 20 || |row| == 17
  {
    && FourOccur(row, 0) && FourOccur(row, 4) && FourOccur(row, 8) && FourOccur(row, 12)
    && if |row| == 20 then FourOccur(row, 16) else row[16] >= 1
  }

  lemma FirstRowsOccur()
    ensures Occurs(ROW0) && Occurs(ROW1) && Occurs(ROW2) && Occurs(ROW3) && Occurs(ROW4) && Occurs(ROW5)
  {
  }

  lemma LastRowsOccur()
    ensures Occurs(ROW6) && Occurs(ROW7) && Occurs(ROW8) && Occurs(ROW9) && Occurs(ROW10) && Occurs(ROW11) && Occurs(ROW12)
  {
  }

  lemma RowsOccur(i: nat)
    requires i < 13
    ensures |Rows()| == 13 && |Rows()[i]| == (if i < 12 then 20 else 17) && Occurs(Rows()[i])
  {
    hide Occurs;
    FirstRowsOccur();
    LastRowsOccur();
  }

  lemma RowOccurs(i: nat, j: nat)
    requires i < 13 && j < |Rows()[i]|
    ensures Rows()[i][j] >= 1
  {
    hide Rows;
    RowsOccur(i);
    var row := Rows()[i];
    assert j < 16 ==> FourOccur(row, j / 4 * 4);
  }

  /** The table of the game keeps every code within 24 bits. */
  lemma TableIsShallow()
    ensures Shallow(FreqTable())
  {
    hide FreqTable, AllFrequencies, Fib;
    TableTotal();
    TableOccurs();
    assert Outweighs(FreqTable(), 0);
  }

  /** More than that: no code is longer than 22 bits, and symbol 0 has a code of one bit. */
  lemma LongestCode(codes: seq<Code>, s: nat)
    requires CodesOf(FreqTable(), codes) && s < MAX_SYMBOLS
    ensures |codes| >= MAX_SYMBOLS && codes[s].numBits <= (if s == 0 then 1 else 22)
  {
    hide FreqTable, AllFrequencies, Fib, CodesOf;
    TableIsShallow();
    TableTotal();
    CodesCount(FreqTable(), codes);
    CodeLengthBesideHeavy(FreqTable(), codes, 0, s);
    FibValues();
    if codes[s].numBits > 22 { FibGrows(24, codes[s].numBits + 1); }
  }

  lemma {:induction false} LengthBound(codes: seq<Code>, d: seq<Byte>)
    requires CodesOf(FreqTable(), codes) && |codes| >= MAX_SYMBOLS
    ensures EncodedLength(codes, d) <= 22 * (|d| + 1)
  {
    hide CodesOf, FreqTable;
    if d == [] {
      LongestCode(codes, EOF_SYMBOL);
    } else {
      LongestCode(codes, d[0]);
      LengthBound(codes, d[1..]);
    }
  }

  const NET_MAX_PAYLOAD: nat := 1394

  class CNetBase {
    const huffman: CHuffman

    ghost predicate Valid()
      reads huffman
    {
      huffman.Valid() && CodesOf(FreqTable(), huffman.codes)
    }

    constructor ()
      ensures fresh(huffman)
    {
      huffman := new CHuffman();
    }

    method Init()
      modifies huffman
      ensures Valid()
    {
      hide FreqTable, CodesOf;
      RowAt(0);
      huffman.Init(FreqTable());
    }

    lemma Short()
      requires Valid()
      ensures ShortCodes(huffman.codes)
    {
      hide FreqTable, CodesOf;
      RowAt(0);
      TableIsShallow();
      ShallowIsShort(FreqTable(), huffman.codes);
    }

    /** Compress: no message is too difficult, it only has to fit. */
    method Compress(data: seq<Byte>, output: array<Byte>, size: nat) returns (r: int)
      requires Valid() && 1 <= size <= output.Length
      modifies output
      ensures r == if EncodedLength(huffman.codes, data) / 8 < size then EncodedLength(huffman.codes, data) / 8 + 1 else -1
      ensures r != -1 ==> 1 <= r <= size && IsCompressed(huffman.codes, output[..r], data)
    {
      hide CodesOf, FreqTable, IsCompressed, EncodedLength;
      Short();
      r := huffman.Compress(data, output, size);
    }

    /** Decompress: what has been compressed from data comes out again. */
    method Decompress(src: seq<Byte>, output: array<Byte>, size: nat, ghost data: seq<Byte>) returns (r: int)
      requires Valid() && size <= output.Length
      modifies output
      ensures -1 <= r <= size && forall k :: size <= k < output.Length ==> output[k] == old(output[k])
      ensures IsCompressed(huffman.codes, src, data) ==>
                r == (if |data| <= size then |data| else -1) && (r != -1 ==> output[..r] == data)
    {
      hide CodesOf, FreqTable, IsCompressed;
      Short();
      r := huffman.Decompress(src, output, size, data);
    }

    /** Compressing and decompressing gives every message back, in buffers that are long enough. */
    method CompressionShouldNotChangeData(data: seq<Byte>, compressed: array<Byte>, decompressed: array<Byte>) returns (r: int)
      requires Valid() && compressed.Length > 22 * (|data| + 1) / 8 && decompressed.Length >= |data|
      modifies compressed, decompressed
      ensures r == |data| && decompressed[..r] == data
    {
      hide CodesOf, FreqTable, IsCompressed, EncodedLength;
      CodesCount(FreqTable(), huffman.codes);
      LengthBound(huffman.codes, data);
      var size := Compress(data, compressed, compressed.Length);
      r := Decompress(compressed[..size], decompressed, decompressed.Length, data);
    }

    /** The data of a packet on the wire: compressed only where that makes it shorter. */
    method SendData(data: seq<Byte>, noCompress: bool, buffer: array<Byte>, room: nat) returns (size: nat, compressed: bool)
      requires Valid() && |data| <= room <= buffer.Length && 1 <= room
      modifies buffer
      ensures size <= room && size <= |data| && (compressed ==> size < |data|)
      ensures compressed <==> !noCompress && EncodedLength(huffman.codes, data) / 8 + 1 < |data|
      ensures if compressed then IsCompressed(huffman.codes, buffer[..size], data) else buffer[..size] == data
    {
      hide CodesOf, FreqTable, IsCompressed, EncodedLength;
      var compressedSize := -1;
      if !noCompress {
        compressedSize := Compress(data, buffer, room);
      }
      if !noCompress && compressedSize > 0 && compressedSize < |data| {
        size, compressed := compressedSize, true;
      } else {
        size, compressed := |data|, false;
        forall i | 0 <= i < |data| { buffer[i] := data[i]; }
      }
    }

    /** What UnpackPacket makes of it. */
    method ReceiveData(src: seq<Byte>, compressed: bool, chunks: array<Byte>, ghost data: seq<Byte>) returns (size: int)
      requires Valid() && chunks.Length == NET_MAX_PAYLOAD && (!compressed ==> |src| <= NET_MAX_PAYLOAD)
      modifies chunks
      ensures size == -1 || 0 <= size <= NET_MAX_PAYLOAD
      ensures !compressed ==> size == |src| && chunks[..size] == src
      ensures compressed && IsCompressed(huffman.codes, src, data) ==>
                size == (if |data| <= NET_MAX_PAYLOAD then |data| else -1) && (size != -1 ==> chunks[..size] == data)
    {
      hide CodesOf, FreqTable, IsCompressed;
      if compressed {
        size := Decompress(src, chunks, NET_MAX_PAYLOAD, data);
      } else {
        size := |src|;
        forall i | 0 <= i < |src| { chunks[i] := src[i]; }
      }
    }

    /** The data of every packet arrive as they have been sent. */
    method SendAndReceive(data: seq<Byte>, noCompress: bool, buffer: array<Byte>, room: nat, chunks: array<Byte>) returns (size: int)
      requires Valid() && |data| <= room <= buffer.Length && 1 <= room && |data| <= NET_MAX_PAYLOAD
      requires chunks.Length == NET_MAX_PAYLOAD
      modifies buffer, chunks
      ensures size == |data| && chunks[..size] == data
    {
      hide CodesOf, FreqTable, IsCompressed;
      var sent, compressed := SendData(data, noCompress, buffer, room);
      size := ReceiveData(buffer[..sent], compressed, chunks, data);
    }
  }
}
