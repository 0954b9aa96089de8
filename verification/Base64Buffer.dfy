/** The base64 loops of src/base/system.cpp: the encoder that shifts bits through a 32-bit
    accumulator and the decoder that works group by group. */
module Base64Buffer {
  import opened Utf8
  import opened Base64
  import opened Arith

  /** The number of digits before the padding. */
  function DigitCount(n: nat): nat { (8 * n + 5) / 6 }

  function Or0(d: seq<Byte>, i: nat): Byte { if i < |d| then d[i] else 0 }

  /** Character k of the encoding of d, read off the bit string of d. */
  function SymbolAt(d: seq<Byte>, k: nat): char {
    var g := k / 4 * 3;
    if k >= DigitCount(|d|) then '='
    else if k % 4 == 0 then Digit(Or0(d, g) / 4)
    else if k % 4 == 1 then Digit(Or0(d, g) % 4 * 16 + Or0(d, g + 1) / 16)
    else if k % 4 == 2 then Digit(Or0(d, g + 1) % 16 * 4 + Or0(d, g + 2) / 64)
    else Digit(Or0(d, g + 2) % 64)
  }

  lemma SymbolShift(d: seq<Byte>, k: nat)
    requires |d| >= 3 && k >= 4
    ensures SymbolAt(d, k) == SymbolAt(d[3..], k - 4)
  {
    hide Digit;
    assert (k - 4) / 4 == k / 4 - 1 && (k - 4) % 4 == k % 4;
    assert DigitCount(|d|) == DigitCount(|d| - 3) + 4;
  }

  lemma {:induction false} EncodedAt(d: seq<Byte>, k: nat)
    requires k < |Encoded(d)|
    ensures Encoded(d)[k] == SymbolAt(d, k)
  {
    hide Digit;
    if |d| >= 3 {
      if k >= 4 {
        EncodedAt(d[3..], k - 4);
        SymbolShift(d, k);
      }
    } else {
      assert k == 0 || k == 1 || k == 2 || k == 3;
    }
  }

  lemma {:induction false} EncodedLength(d: seq<Byte>)
    ensures |Encoded(d)| == (|d| + 2) / 3 * 4
  {
    hide Digit;
    if |d| >= 3 {
      EncodedLength(d[3..]);
    }
  }

  // ---- the accumulator ----

  /** An unsigned int after `value = (value << 8) | b`. */
  function Push(value: nat, b: Byte): nat {
    (value * 0x100 + b) % 0x1_0000_0000
  }

  function LowBits(value: nat, n: int): nat {
    if n == 2 then value % 4 else if n == 4 then value % 16 else if n == 6 then value % 64 else 0
  }

  lemma Slice(p: nat, q: nat, hi: nat, mid: nat, lo: nat)
    requires q == 4 || q == 16 || q == 64
    requires mid < 64 && lo < q && p == (hi * 64 + mid) * q + lo
    ensures p / q % 64 == mid && p % q == lo
  {
    DivModUnique(p, q, hi * 64 + mid, lo);
    DivModUnique(hi * 64 + mid, 64, hi, mid);
  }

  lemma PushedBits(v: nat, b: Byte)
    ensures var p := v * 0x100 + b;
            && p / 4 % 64 == b / 4 && p / 16 % 64 == v % 4 * 16 + b / 16 && p / 64 % 64 == v % 16 * 4 + b / 64
            && p % 4 == b % 4 && p % 16 == b % 16 && p % 64 == b % 64
  {
    var p := v * 0x100 + b;
    Slice(p, 4, v, b / 4, b % 4);
    Slice(p, 16, v / 4, v % 4 * 16 + b / 16, b % 16);
    Slice(p, 64, v / 16, v % 16 * 4 + b / 64, b % 64);
  }

  lemma CutTo32(value: nat, b: Byte)
    ensures Push(value, b) == value % 0x100_0000 * 0x100 + b
  {
    var v, h := value % 0x100_0000, value / 0x100_0000;
    assert value * 0x100 + b == h * 0x1_0000_0000 + (v * 0x100 + b);
  }

  lemma Mod16(x: nat, q: nat, r: nat)
    requires x == 16 * q + r && r < 16
    ensures x % 16 == r && x % 4 == r % 4
  {
    DivModUnique(x, 16, q, r);
    DivModUnique(x, 4, 4 * q + r / 4, r % 4);
  }

  lemma LowBitsOfCut(value: nat)
    ensures value % 0x100_0000 % 4 == value % 4 && value % 0x100_0000 % 16 == value % 16
  {
    var h, v := value / 0x100_0000, value % 0x100_0000;
    Mod16(value, 0x10_0000 * h + v / 16, v % 16);
    Mod16(v, v / 16, v % 16);
  }

  /** Overflow of the accumulator never reaches the bits still to be written. */
  lemma PushKeepsBits(value: nat, b: Byte)
    ensures Push(value, b) / 4 % 64 == b / 4 && Push(value, b) % 4 == b % 4
    ensures Push(value, b) / 16 % 64 == value % 4 * 16 + b / 16 && Push(value, b) % 16 == b % 16
    ensures Push(value, b) / 64 % 64 == value % 16 * 4 + b / 64 && Push(value, b) % 64 == b % 64
  {
    hide Push;
    CutTo32(value, b);
    LowBitsOfCut(value);
    PushedBits(value % 0x100_0000, b);
  }

  lemma Mod64(x: nat, q: nat, r: nat)
    requires x == 64 * q + r && r < 64
    ensures x % 0x1_0000_0000 % 64 == r
  {
    var h, v := x / 0x1_0000_0000, x % 0x1_0000_0000;
    assert v == 64 * (q - 0x400_0000 * h) + r;
  }

  /** The six bits `padded` of the source: the oldest ones, or what is left filled up with zeros. */
  function Padded(value: nat, numBits: nat): (p: nat)
    requires 0 < numBits
    ensures p < 64
  {
    if numBits >= 6 then value / Pow2(numBits - 6) % 64
    else value * Pow2(6 - numBits) % 0x1_0000_0000 % 64
  }

  lemma PaddedValues(value: nat)
    ensures Padded(value, 12) == value / 64 % 64 && Padded(value, 10) == value / 16 % 64
    ensures Padded(value, 8) == value / 4 % 64 && Padded(value, 6) == value % 64
    ensures Padded(value, 4) == value % 16 * 4 && Padded(value, 2) == value % 4 * 16
  {
    assert Pow2(2) == 4 && Pow2(4) == 16 && Pow2(6) == 64 && Pow2(0) == 1;
    Mod64(value * 4, value / 16, value % 16 * 4);
    Mod64(value * 16, value / 4, value % 4 * 16);
  }

  // ---- the encoder ----

  /** The state of the loop of str_base64 at its head, after o characters. */
  ghost predicate EncodeInv(d: seq<Byte>, o: nat, i: nat, numBits: int, value: nat) {
    && i == (if o / 4 * 3 + o % 4 < |d| then o / 4 * 3 + o % 4 else |d|)
    && (o <= DigitCount(|d|) ==> numBits == 8 * i - 6 * o)
    && (o > DigitCount(|d|) ==> numBits <= 0)
    && (numBits > 0 ==> 0 < i <= |d| && LowBits(value, numBits) == LowBits(d[i - 1], numBits))
  }

  /** One character: what the loop does after the read. */
  lemma EncodeStep(d: seq<Byte>, o: nat, i: nat, numBits: int, value: nat)
    requires EncodeInv(d, o, i, numBits, value) && o < |Encoded(d)|
    ensures var takes := numBits < 6 && i < |d|;
            var v, n, i' := if takes then Push(value, d[i]) else value, if takes then numBits + 8 else numBits, if takes then i + 1 else i;
            && (n > 0 ==> SymbolAt(d, o) == Digit(Padded(v, n)) && EncodeInv(d, o + 1, i', n - 6, v))
            && (n <= 0 ==> o % 4 != 0 && SymbolAt(d, o) == '=' && EncodeInv(d, o + 1, i', n, v))
  {
    hide Digit, Padded, Push, Encoded, DigitCount;
    var n := Lengths(d);
    NextPosition(o);
    if numBits < 6 && i < |d| {
      PushKeepsBits(value, d[i]);
      PaddedValues(Push(value, d[i]));
    } else {
      PaddedValues(value);
    }
  }

  lemma NextPosition(o: nat)
    ensures o == 4 * (o / 4) + o % 4
    ensures o % 4 < 3 ==> (o + 1) / 4 == o / 4 && (o + 1) % 4 == o % 4 + 1
    ensures o % 4 == 3 ==> (o + 1) / 4 == o / 4 + 1 && (o + 1) % 4 == 0
  {
  }

  lemma Lengths(d: seq<Byte>) returns (n: nat)
    ensures 8 * |d| <= 6 * DigitCount(|d|) <= 8 * |d| + 5
    ensures |Encoded(d)| == 4 * n && |d| <= 3 * n <= |d| + 2
  {
    EncodedLength(d);
    n := (|d| + 2) / 3;
  }

  lemma EncodeEnd(d: seq<Byte>, o: nat, i: nat, numBits: int, value: nat)
    requires EncodeInv(d, o, i, numBits, value) && o == |Encoded(d)|
    ensures o % 4 == 0 && i == |d| && numBits <= 0
  {
    hide Encoded, DigitCount;
    var n := Lengths(d);
    NextPosition(o);
  }

  /** str_base64: the encoding cut to dstSize - 1 characters, and a NUL. */
  method StrBase64(dst: array<char>, dstSize: nat, data: seq<Byte>)
    requires 1 <= dstSize <= dst.Length
    modifies dst
    ensures var n := if |Encoded(data)| < dstSize then |Encoded(data)| else dstSize - 1;
            dst[..n] == Encoded(data)[..n] && dst[n] == '\0'
  {
    hide Digit, Padded, Push, Encoded, SymbolAt, EncodeInv;
    ghost var text := Encoded(data);
    var value, numBits, i, o := 0, 0, 0, 0;
    var size := dstSize - 1;
    dst[size] := '\0';
    StartInv(data);
    while true
      invariant 0 <= o <= size && o <= |text| && 0 <= i && 0 <= value
      invariant EncodeInv(data, o, i, numBits, value)
      invariant dst[..o] == text[..o] && dst[size] == '\0'
      decreases |text| - o
    {
      if o < |text| { EncodeStep(data, o, i, numBits, value); EncodedAt(data, o); } else { EncodeEnd(data, o, i, numBits, value); }
      if numBits < 6 && i < |data| {
        value := Push(value, data[i]);
        numBits := numBits + 8;
        i := i + 1;
      }
      if o == size {
        return;
      }
      if numBits > 0 {
        dst[o] := Digit(Padded(value, numBits));
        numBits := numBits - 6;
        o := o + 1;
      } else if o % 4 != 0 {
        dst[o] := '=';
        o := o + 1;
      } else {
        dst[o] := '\0';
        return;
      }
      assert dst[..o] == dst[..o - 1] + [text[o - 1]];
    }
  }

  lemma StartInv(d: seq<Byte>)
    ensures EncodeInv(d, 0, 0, 0, 0)
  {
  }

  // ---- the decoder ----

  /** str_base64_decode: -3 for a bad length, -2 for lack of room, else what the text says. */
  method StrBase64Decode(dst: array<Byte>, dstSize: nat, data: string) returns (r: int)
    requires dstSize <= dst.Length
    modifies dst
    ensures |data| % 4 == 0 && |data| / 4 * 3 > dstSize ==> r == -2
    ensures |data| % 4 != 0 || |data| / 4 * 3 <= dstSize ==>
              match DecodedText(data)
              case Invalid(code) => r == code
              case Decoded(bytes) => r == |bytes| <= dst.Length && dst[..r] == bytes
  {
    hide Group, DecodedText, Prepend;
    BadLength(data);
    if |data| % 4 != 0 {
      return -3;
    }
    if |data| / 4 * 3 > dstSize {
      return -2;
    }
    var i, o := 0, 0;
    DecodedEmpty();
    while i < |data|
      invariant 0 <= i <= |data| && i % 4 == 0 && (|data| - i) % 4 == 0 && 0 <= o <= i / 4 * 3 && o <= dst.Length
      invariant DecodedText(data) == Prepend(dst[..o], DecodedText(data[i..]))
      decreases |data| - i
    {
      var q := data[i..i + 4];
      ghost var before := dst[..o];
      assert data[i..][..4] == q && data[i..][4..] == data[i + 4..];
      NextGroup(DecodedText(data), data[i..], before);
      GroupIsShort(q, i == |data| - 4);
      var n := DecodeGroup(dst, o, q, i == |data| - 4);
      if n < 0 {
        return n;
      }
      assert dst[..o + n] == before + dst[o..o + n];
      o := o + n;
      i := i + 4;
    }
    assert data[i..] == [];
    PrependNothing(dst[..o]);
    return o;
  }

  function Prepend(b: seq<Byte>, r: Result): Result {
    if r.Invalid? then r else Decoded(b + r.bytes)
  }

  lemma PrependTwice(a: seq<Byte>, b: seq<Byte>, r: Result)
    ensures Prepend(a, Prepend(b, r)) == Prepend(a + b, r)
  {
    if r.Decoded? { assert a + (b + r.bytes) == (a + b) + r.bytes; }
  }

  /** One turn of the loop, behind what has been decoded before. */
  lemma NextGroup(text: Result, rest: string, before: seq<Byte>)
    requires |rest| >= 4 && |rest| % 4 == 0 && text == Prepend(before, DecodedText(rest))
    ensures var g := Group(rest[..4], |rest| == 4);
            && (g.Invalid? ==> text == g)
            && (g.Decoded? ==> text == Prepend(before + g.bytes, DecodedText(rest[4..])))
  {
    hide Group, DecodedText;
    DecodedStep(rest);
    var g := Group(rest[..4], |rest| == 4);
    if g.Decoded? { PrependTwice(before, g.bytes, DecodedText(rest[4..])); }
  }

  lemma BadLength(t: string)
    ensures |t| % 4 != 0 ==> DecodedText(t) == Invalid(-3)
  {
  }

  lemma PrependNothing(b: seq<Byte>)
    ensures Prepend(b, DecodedText([])) == Decoded(b)
  {
    assert b + [] == b;
  }

  lemma DecodedEmpty()
    ensures DecodedText([]) == Decoded([])
    ensures forall t: string {:trigger DecodedText(t)} :: Prepend([], DecodedText(t)) == DecodedText(t)
  {
  }

  lemma DecodedStep(t: string)
    requires |t| >= 4 && |t| % 4 == 0
    ensures var g := Group(t[..4], |t| == 4);
            DecodedText(t) == if g.Invalid? then g else Prepend(g.bytes, DecodedText(t[4..]))
  {
    hide Group;
  }

  lemma GroupIsShort(q: string, last: bool)
    requires |q| == 4
    ensures Group(q, last).Decoded? ==> |Group(q, last).bytes| <= 3
    ensures Group(q, last).Invalid? ==> Group(q, last).code < 0
  {
    hide GroupValue, AllDigits, ByteAt;
  }

  /** The body of the decoder's loop: writes the bytes of one group from position o on. */
  method DecodeGroup(dst: array<Byte>, o: nat, q: string, last: bool) returns (n: int)
    requires |q| == 4 && o + 3 <= dst.Length
    modifies dst
    ensures Group(q, last).Invalid? ==> n == Group(q, last).code
    ensures Group(q, last).Decoded? ==> 0 <= n == |Group(q, last).bytes| <= 3 && dst[o..o + n] == Group(q, last).bytes
    ensures dst[..o] == old(dst[..o])
  {
    hide DigitValue, ByteAt;
    var outputBytes := 3;
    var copy := q;
    if last {
      if copy[3] == '=' {
        copy := copy[3 := 'A'];
        outputBytes := 2;
        if copy[2] == '=' {
          copy := copy[2 := 'A'];
          outputBytes := 1;
        }
      }
    }
    var d0, d1, d2, d3 := DigitValue(copy[0]), DigitValue(copy[1]), DigitValue(copy[2]), DigitValue(copy[3]);
    if d0 == -1 || d1 == -1 || d2 == -1 || d3 == -1 {
      return -1;
    }
    var value := d0 * 0x40000 + d1 * 0x1000 + d2 * 0x40 + d3;
    n := 0;
    for b := 0 to 3
      invariant n == if b < outputBytes then b else outputBytes
      invariant dst[..o] == old(dst[..o])
      invariant forall k :: 0 <= k < n ==> dst[o + k] == ByteAt(value, k)
      invariant forall k :: outputBytes <= k < b ==> ByteAt(value, k) == 0
    {
      var byteValue := ByteAt(value, b);
      if b < outputBytes {
        dst[o + n] := byteValue;
        n := n + 1;
      } else if byteValue != 0 {
        return -2;
      }
    }
  }
}
