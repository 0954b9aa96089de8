/** Base64 as RFC 4648 section 4 defines it, and decoding of one text. */
module Base64 {
  import opened Utf8

  /** The base64 alphabet. */
  function Digit(v: int): char
    requires 0 <= v < 64
  {
    if v < 26 then 'A' + v as char
    else if v < 52 then 'a' + (v - 26) as char
    else if v < 62 then '0' + (v - 52) as char
    else if v == 62 then '+' else '/'
  }

  /** base64_digit_value */
  function DigitValue(c: char): int {
    if 'A' <= c <= 'Z' then (c - 'A') as int
    else if 'a' <= c <= 'z' then (c - 'a') as int + 26
    else if '0' <= c <= '9' then (c - '0') as int + 52
    else if c == '+' then 62
    else if c == '/' then 63
    else -1
  }

  lemma DigitInverse(v: int, c: char)
    ensures 0 <= v < 64 ==> DigitValue(Digit(v)) == v && Digit(v) != '='
    ensures DigitValue(c) != -1 ==> 0 <= DigitValue(c) < 64 && Digit(DigitValue(c)) == c && c != '='
  {
  }

  /** A full group of three bytes. */
  function Quad(a: Byte, b: Byte, c: Byte): string {
    [Digit(a / 4), Digit(a % 4 * 16 + b / 16), Digit(b % 16 * 4 + c / 64), Digit(c % 64)]
  }

  function Encoded(d: seq<Byte>): string {
    if d == [] then []
    else if |d| == 1 then [Digit(d[0] / 4), Digit(d[0] % 4 * 16), '=', '=']
    else if |d| == 2 then [Digit(d[0] / 4), Digit(d[0] % 4 * 16 + d[1] / 16), Digit(d[1] % 16 * 4), '=']
    else Quad(d[0], d[1], d[2]) + Encoded(d[3..])
  }

  // ---- decoding ----

  datatype Result = Decoded(bytes: seq<Byte>) | Invalid(code: int)

  /** Replaces the padding of the last group and tells how many bytes the group stands for. */
  function Unpad(q: string, last: bool): (string, nat)
    requires |q| == 4
  {
    if !last || q[3] != '=' then (q, 3)
    else if q[2] != '=' then (q[3 := 'A'], 2)
    else (q[3 := 'A'][2 := 'A'], 1)
  }

  function GroupValue(q: string): int
    requires |q| == 4
  {
    DigitValue(q[0]) * 0x40000 + DigitValue(q[1]) * 0x1000 + DigitValue(q[2]) * 0x40 + DigitValue(q[3])
  }

  predicate AllDigits(q: string)
    requires |q| == 4
  {
    DigitValue(q[0]) != -1 && DigitValue(q[1]) != -1 && DigitValue(q[2]) != -1 && DigitValue(q[3]) != -1
  }

  function ByteAt(value: int, b: nat): Byte {
    if b == 0 then value / 0x10000 % 256 else if b == 1 then value / 0x100 % 256 else value % 256
  }

  /** One group: an invalid digit is -1, non-zero bits under the padding are -2. */
  function Group(q: string, last: bool): Result
    requires |q| == 4
  {
    var (p, n) := Unpad(q, last);
    if !AllDigits(p) then Invalid(-1)
    else
      var v := GroupValue(p);
      if (n < 2 && ByteAt(v, 1) != 0) || (n < 3 && ByteAt(v, 2) != 0) then Invalid(-2)
      else Decoded([ByteAt(v, 0), ByteAt(v, 1), ByteAt(v, 2)][..n])
  }

  /** The whole text: its length must be a multiple of four. */
  function DecodedText(t: string): Result {
    if |t| % 4 != 0 then Invalid(-3)
    else if t == [] then Decoded([])
    else
      var g := Group(t[..4], |t| == 4);
      if g.Invalid? then g
      else
        var rest := DecodedText(t[4..]);
        if rest.Invalid? then rest else Decoded(g.bytes + rest.bytes)
  }

  // ---- the two are inverse to each other ----

  lemma GroupOfDigits(w: int, x: int, y: int, z: int)
    requires 0 <= w < 64 && 0 <= x < 64 && 0 <= y < 64 && 0 <= z < 64
    ensures var q := [Digit(w), Digit(x), Digit(y), Digit(z)];
            AllDigits(q) && GroupValue(q) == w * 0x40000 + x * 0x1000 + y * 0x40 + z
  {
    DigitInverse(w, 'A');
    DigitInverse(x, 'A');
    DigitInverse(y, 'A');
    DigitInverse(z, 'A');
  }

  lemma ThreeBytes(v: int, p: Byte, q: Byte, r: Byte)
    requires v == p * 0x10000 + q * 0x100 + r
    ensures ByteAt(v, 0) == p && ByteAt(v, 1) == q && ByteAt(v, 2) == r
  {
    assert v / 0x100 == p * 0x100 + q;
  }

  lemma BytesOfDigits(v: int, w: int, x: int, y: int, z: int)
    requires 0 <= w < 64 && 0 <= x < 64 && 0 <= y < 64 && 0 <= z < 64
    requires v == w * 0x40000 + x * 0x1000 + y * 0x40 + z
    ensures ByteAt(v, 0) == w * 4 + x / 16
    ensures ByteAt(v, 1) == x % 16 * 16 + y / 4
    ensures ByteAt(v, 2) == y % 4 * 64 + z
  {
    hide ByteAt;
    var x1, x0, y1, y0 := x / 16, x % 16, y / 4, y % 4;
    var p: int, q: int, r: int := w * 4 + x1, x0 * 16 + y1, y0 * 64 + z;
    assert x == 16 * x1 + x0 && y == 4 * y1 + y0;
    assert v == p * 0x10000 + q * 0x100 + r;
    ThreeBytes(v, p, q, r);
  }

  lemma FullGroup(a: Byte, b: Byte, c: Byte, last: bool)
    ensures Group(Quad(a, b, c), last) == Decoded([a, b, c])
  {
    hide Digit, DigitValue, ByteAt, AllDigits, GroupValue, Group;
    var w, x, y, z := a / 4, a % 4 * 16 + b / 16, b % 16 * 4 + c / 64, c % 64;
    DigitInverse(z, '=');
    GroupOfDigits(w, x, y, z);
    BytesOfDigits(GroupValue(Quad(a, b, c)), w, x, y, z);
    UnpaddedGroup(Quad(a, b, c), last);
  }

  lemma UnpaddedGroup(q: string, last: bool)
    requires |q| == 4 && AllDigits(q) && q[3] != '='
    ensures var v := GroupValue(q); Group(q, last) == Decoded([ByteAt(v, 0), ByteAt(v, 1), ByteAt(v, 2)])
  {
    hide DigitValue, ByteAt, AllDigits, GroupValue;
  }

  lemma OneByteGroup(a: Byte)
    ensures Group([Digit(a / 4), Digit(a % 4 * 16), '=', '='], true) == Decoded([a])
  {
    hide Digit, DigitValue, ByteAt, AllDigits, GroupValue;
    var w, x := a / 4, a % 4 * 16;
    ZeroDigit();
    var q := [Digit(w), Digit(x), Digit(0), Digit(0)];
    GroupOfDigits(w, x, 0, 0);
    BytesOfDigits(GroupValue(q), w, x, 0, 0);
    assert [Digit(w), Digit(x), '=', '='][3 := 'A'][2 := 'A'] == q;
  }

  lemma TwoByteGroup(a: Byte, b: Byte)
    ensures Group([Digit(a / 4), Digit(a % 4 * 16 + b / 16), Digit(b % 16 * 4), '='], true) == Decoded([a, b])
  {
    hide Digit, DigitValue, ByteAt, AllDigits, GroupValue;
    var w, x, y := a / 4, a % 4 * 16 + b / 16, b % 16 * 4;
    ZeroDigit();
    DigitInverse(y, '=');
    var q := [Digit(w), Digit(x), Digit(y), Digit(0)];
    GroupOfDigits(w, x, y, 0);
    BytesOfDigits(GroupValue(q), w, x, y, 0);
    assert [Digit(w), Digit(x), Digit(y), '='][3 := 'A'] == q;
  }

  lemma ZeroDigit()
    ensures Digit(0) == 'A' && DigitValue('A') == 0
  {
  }

  /** Decoding what was encoded gives the bytes back. */
  lemma {:induction false} DecodeEncode(d: seq<Byte>)
    ensures |Encoded(d)| % 4 == 0 && DecodedText(Encoded(d)) == Decoded(d)
  {
    hide Digit, Group, Quad;
    var t := Encoded(d);
    if 0 < |d| {
      if |d| <= 2 {
        if |d| == 1 { OneByteGroup(d[0]); } else { TwoByteGroup(d[0], d[1]); }
        assert t[..4] == t && DecodedText(t[4..]) == Decoded([]);
      } else {
        DecodeEncode(d[3..]);
        FullGroup(d[0], d[1], d[2], |t| == 4);
        QuadLength(d[0], d[1], d[2]);
        assert t[..4] == Quad(d[0], d[1], d[2]) && t[4..] == Encoded(d[3..]);
      }
    }
  }

  lemma QuadLength(a: Byte, b: Byte, c: Byte)
    ensures |Quad(a, b, c)| == 4
  {
  }

  /** The digits of a group from its bytes: the part of each byte that goes into each digit. */
  lemma DigitsOfBytes(w: int, x: int, y: int, z: int, a: Byte, b: Byte, c: Byte)
    requires 0 <= w < 64 && 0 <= x < 64 && 0 <= y < 64 && 0 <= z < 64
    requires a == w * 4 + x / 16 && b == x % 16 * 16 + y / 4 && c == y % 4 * 64 + z
    ensures w == a / 4 && x == a % 4 * 16 + b / 16 && y == b % 16 * 4 + c / 64 && z == c % 64
    ensures b == 0 && c == 0 ==> x == a % 4 * 16 && y == 0 && z == 0
    ensures c == 0 ==> y == b % 16 * 4 && z == 0
  {
  }

  lemma GroupDigits(p: string) returns (a: Byte, b: Byte, c: Byte)
    requires |p| == 4 && AllDigits(p)
    ensures [a, b, c] == [ByteAt(GroupValue(p), 0), ByteAt(GroupValue(p), 1), ByteAt(GroupValue(p), 2)]
    ensures p == Quad(a, b, c)
    ensures c == 0 ==> p[2] == Digit(b % 16 * 4) && p[3] == 'A'
    ensures b == 0 && c == 0 ==> p[1] == Digit(a % 4 * 16) && p[2] == 'A'
  {
    hide Digit, DigitValue, ByteAt;
    ZeroDigit();
    var w, x, y, z := DigitValue(p[0]), DigitValue(p[1]), DigitValue(p[2]), DigitValue(p[3]);
    DigitInverse(0, p[0]);
    DigitInverse(0, p[1]);
    DigitInverse(0, p[2]);
    DigitInverse(0, p[3]);
    var v := GroupValue(p);
    BytesOfDigits(v, w, x, y, z);
    a, b, c := ByteAt(v, 0), ByteAt(v, 1), ByteAt(v, 2);
    DigitsOfBytes(w, x, y, z, a, b, c);
  }

  lemma GroupsComplete(q: string, last: bool)
    requires |q| == 4 && Group(q, last).Decoded?
    ensures var d := Group(q, last).bytes;
            1 <= |d| <= 3 && (!last ==> |d| == 3) && Encoded(d) == q
  {
    hide Digit, DigitValue, ByteAt, AllDigits, GroupValue;
    var (p, n) := Unpad(q, last);
    var a, b, c := GroupDigits(p);
    assert Group(q, last).bytes == [a, b, c][..n];
    if n == 3 {
      EncodedTriple(a, b, c);
      assert [a, b, c][..3] == [a, b, c];
    } else if n == 2 {
      assert [a, b, c][..2] == [a, b];
      assert q == [p[0], p[1], p[2], '='];
    } else {
      assert [a, b, c][..1] == [a];
      assert q == [p[0], p[1], '=', '='];
    }
  }

  lemma EncodedTriple(a: Byte, b: Byte, c: Byte)
    ensures Encoded([a, b, c]) == Quad(a, b, c)
  {
    hide Quad;
    assert [a, b, c][3..] == [];
    assert Encoded([]) == [];
  }

  lemma EncodedAppend(d: seq<Byte>, e: seq<Byte>)
    requires |d| == 3
    ensures Encoded(d + e) == Encoded(d) + Encoded(e)
  {
    hide Quad;
    assert (d + e)[3..] == e && d[3..] == [];
  }

  /** Every text the decoder accepts is the encoding of what it returns. */
  lemma {:induction false} EncodeDecode(t: string)
    requires DecodedText(t).Decoded?
    ensures Encoded(DecodedText(t).bytes) == t
  {
    hide Group, Quad, Encoded;
    if t == [] {
      EncodedEmpty();
    } else {
      var g, rest := Group(t[..4], |t| == 4), DecodedText(t[4..]);
      GroupsComplete(t[..4], |t| == 4);
      EncodeDecode(t[4..]);
      if |t| == 4 {
        assert t[4..] == [] && g.bytes + rest.bytes == g.bytes && t[..4] == t;
      } else {
        EncodedAppend(g.bytes, rest.bytes);
      }
    }
  }

  lemma EncodedEmpty()
    ensures Encoded([]) == []
  {
  }
}
