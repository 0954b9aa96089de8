/** The UTF-8 codec of src/base/system.cpp: one-character decoding and encoding against RFC 3629.
    A C string is the sequence of its bytes before the terminator; reading one past the last byte
    yields the terminating NUL. */
module Utf8 {

  type Byte = x: int | 0 <= x < 256 witness 0

  /** The bytes of a C string: none of them is NUL. */
  predicate NulFree(s: seq<Byte>) {
    forall i :: 0 <= i < |s| ==> s[i] != 0
  }

  function At(s: seq<Byte>, i: nat): Byte {
    if i < |s| then s[i] else 0
  }

  /** Unicode scalar values, the domain of UTF-8 (RFC 3629 section 3). */
  predicate IsScalar(c: int) {
    0 <= c <= 0x10FFFF && !(0xD800 <= c <= 0xDFFF)
  }

  /** The octet sequence of a character number by the table of RFC 3629 section 3, which has no entry
      for surrogates; these are put into three octets like their neighbours. */
  function Encoding(c: int): (e: seq<Byte>)
    requires 0 <= c <= 0x10FFFF
  {
    if c <= 0x7F then [c]
    else if c <= 0x7FF then [0xC0 + c / 0x40, 0x80 + c % 0x40]
    else if c <= 0xFFFF then [0xE0 + c / 0x1000, 0x80 + c / 0x40 % 0x40, 0x80 + c % 0x40]
    else [0xF0 + c / 0x40000, 0x80 + c / 0x1000 % 0x40, 0x80 + c / 0x40 % 0x40, 0x80 + c % 0x40]
  }

  predicate IsContinuation(b: Byte) { 0x80 <= b <= 0xBF }

  /** How many bytes follow the leading byte b; -1 for a byte that cannot lead. */
  function Needed(b: Byte): int {
    if b <= 0x7F then 0
    else if 0xC2 <= b <= 0xDF then 1
    else if 0xE0 <= b <= 0xEF then 2
    else if 0xF0 <= b <= 0xF4 then 3
    else -1
  }

  function SecondLower(b: Byte): Byte { if b == 0xE0 then 0xA0 else if b == 0xF0 then 0x90 else 0x80 }

  function SecondUpper(b: Byte): Byte { if b == 0xED then 0x9F else if b == 0xF4 then 0x8F else 0xBF }

  /** The continuation bytes that can be taken after the lead of s, at most `Needed` many. */
  function Taken(s: seq<Byte>): nat
    requires |s| > 0
  {
    var b, n := s[0], Needed(s[0]);
    if n <= 0 || !(SecondLower(b) <= At(s, 1) <= SecondUpper(b)) then 0
    else if n == 1 || !IsContinuation(At(s, 2)) then 1
    else if n == 2 || !IsContinuation(At(s, 3)) then 2
    else 3
  }

  function Power64(n: nat): nat {
    if n == 0 then 1 else 64 * Power64(n - 1)
  }

  function LeadBits(b: Byte): int {
    match Needed(b) case 1 => b - 0xC0 case 2 => b - 0xE0 case _ => b - 0xF0
  }

  /** The value of the first k continuation bytes of a character with n of them. */
  function PartialValue(s: seq<Byte>, n: nat, k: nat): int
    requires |s| > 0 && k <= n
  {
    if k == 0 then LeadBits(s[0]) * Power64(n)
    else PartialValue(s, n, k - 1) + (At(s, k) - 0x80) * Power64(n - k)
  }

  /** What decoding at the start of s returns: the character, 0 at the end of the string or -1 for
      an error; and by how many bytes it moves on. */
  function Decode(s: seq<Byte>): (int, nat) {
    if s == [] then (0, 1)
    else if s[0] <= 0x7F then (s[0], 1)
    else if Needed(s[0]) == -1 || Taken(s) < Needed(s[0]) then (-1, 1 + Taken(s))
    else (PartialValue(s, Needed(s[0]), Needed(s[0])), 1 + Taken(s))
  }

  /** str_utf8_decode: the loop of the source over the cursor p. */
  method StrUtf8Decode(s: seq<Byte>, p: nat) returns (c: int, q: nat)
    requires p <= |s|
    ensures (c, q - p) == Decode(s[p..])
  {
    q := p;
    ghost var t := s[p..];
    var lower: Byte, upper: Byte := 0x80, 0xBF;
    var codePoint, seen, needed := 0, 0, 0;
    while true
      invariant q == p + (if needed == 0 then 0 else 1 + seen) && q <= |s|
      invariant needed == 0 ==> seen == 0 && codePoint == 0 && lower == 0x80 && upper == 0xBF
      invariant needed != 0 ==> t != [] && needed == Needed(t[0]) && 0 <= seen < needed
      invariant needed != 0 ==> seen <= Taken(t) && codePoint == PartialValue(t, needed, seen)
      invariant needed != 0 && seen == 0 ==> lower == SecondLower(t[0]) && upper == SecondUpper(t[0])
      invariant seen > 0 ==> lower == 0x80 && upper == 0xBF
      decreases if needed == 0 then 4 else needed - seen
    {
      var b: Byte := At(s, q);
      assert b == At(t, q - p);
      q := q + 1;
      if needed == 0 {
        if b <= 0x7F {
          return b, q;
        } else if 0xC2 <= b <= 0xDF {
          needed, codePoint := 1, b - 0xC0;
        } else if 0xE0 <= b <= 0xEF {
          if b == 0xE0 { lower := 0xA0; }
          if b == 0xED { upper := 0x9F; }
          needed, codePoint := 2, b - 0xE0;
        } else if 0xF0 <= b <= 0xF4 {
          if b == 0xF0 { lower := 0x90; }
          if b == 0xF4 { upper := 0x8F; }
          needed, codePoint := 3, b - 0xF0;
        } else {
          return -1, q;
        }
        codePoint := codePoint * Power64(needed);
        continue;
      }
      if !(lower <= b <= upper) {
        q := q - 1;
        return -1, q;
      }
      lower, upper := 0x80, 0xBF;
      seen := seen + 1;
      codePoint := codePoint + (b - 0x80) * Power64(needed - seen);
      if seen != needed {
        continue;
      }
      return codePoint, q;
    }
  }

  /** str_utf8_encode: writes the bytes of chr through ptr and returns their number. */
  method StrUtf8Encode(ptr: array<Byte>, chr: int) returns (n: nat)
    requires chr <= 0x7F ==> ptr.Length >= 1
    requires 0x7F < chr <= 0x10FFFF ==> ptr.Length >= if chr <= 0x7FF then 2 else if chr <= 0xFFFF then 3 else 4
    modifies ptr
    ensures n <= ptr.Length && ptr[n..] == old(ptr[..])[n..]
    ensures ptr[..n] == if chr < 0 then [chr % 256] else if chr <= 0x10FFFF then Encoding(chr) else []
  {
    hide Encoding;
    if 0 <= chr <= 0x10FFFF { MaskedEncoding(chr); }
    if chr <= 0x7F {
      ptr[0] := chr % 256;
      assert ptr[..1] == [ptr[0]];
      return 1;
    } else if chr <= 0x7FF {
      ptr[0] := 0xC0 + chr / 0x40 % 0x20;
      ptr[1] := 0x80 + chr % 0x40;
      assert ptr[..2] == [ptr[0], ptr[1]];
      return 2;
    } else if chr <= 0xFFFF {
      ptr[0] := 0xE0 + chr / 0x1000 % 0x10;
      ptr[1] := 0x80 + chr / 0x40 % 0x40;
      ptr[2] := 0x80 + chr % 0x40;
      assert ptr[..3] == [ptr[0], ptr[1], ptr[2]];
      return 3;
    } else if chr <= 0x10FFFF {
      ptr[0] := 0xF0 + chr / 0x40000 % 8;
      ptr[1] := 0x80 + chr / 0x1000 % 0x40;
      ptr[2] := 0x80 + chr / 0x40 % 0x40;
      ptr[3] := 0x80 + chr % 0x40;
      assert ptr[..4] == [ptr[0], ptr[1], ptr[2], ptr[3]];
      return 4;
    }
    return 0;
  }

  lemma MaskKeeps(x: nat, m: nat)
    requires x < m
    ensures x % m == x
  {
  }

  /** The masks of the source do not change the leading bytes. */
  lemma MaskedEncoding(c: nat)
    requires c <= 0x10FFFF
    ensures c <= 0x7F ==> Encoding(c) == [c % 256]
    ensures 0x7F < c <= 0x7FF ==> Encoding(c) == [0xC0 + c / 0x40 % 0x20, 0x80 + c % 0x40]
    ensures 0x7FF < c <= 0xFFFF ==>
              Encoding(c) == [0xE0 + c / 0x1000 % 0x10, 0x80 + c / 0x40 % 0x40, 0x80 + c % 0x40]
    ensures 0xFFFF < c ==>
              Encoding(c) == [0xF0 + c / 0x40000 % 8, 0x80 + c / 0x1000 % 0x40, 0x80 + c / 0x40 % 0x40, 0x80 + c % 0x40]
  {
    if c <= 0x7F {
      MaskKeeps(c, 256);
    } else if c <= 0x7FF {
      MaskKeeps(c / 0x40, 0x20);
    } else if c <= 0xFFFF {
      MaskKeeps(c / 0x1000, 0x10);
    } else {
      MaskKeeps(c / 0x40000, 8);
    }
  }

  // ---- decode and encode are mutual inverses ----

  lemma PowersOf64()
    ensures Power64(0) == 1 && Power64(1) == 64 && Power64(2) == 0x1000 && Power64(3) == 0x40000
  {
    assert Power64(2) == 64 * Power64(1);
    assert Power64(3) == 64 * Power64(2);
  }

  lemma ValueOf(s: seq<Byte>)
    requires |s| > 0 && Needed(s[0]) > 0 && Taken(s) == Needed(s[0])
    ensures Needed(s[0]) == 1 ==> Decode(s).0 == (s[0] - 0xC0) * 0x40 + At(s, 1) - 0x80
    ensures Needed(s[0]) == 2 ==>
              Decode(s).0 == (s[0] - 0xE0) * 0x1000 + (At(s, 1) - 0x80) * 0x40 + At(s, 2) - 0x80
    ensures Needed(s[0]) == 3 ==>
              Decode(s).0 == (s[0] - 0xF0) * 0x40000 + (At(s, 1) - 0x80) * 0x1000 + (At(s, 2) - 0x80) * 0x40 + At(s, 3) - 0x80
  {
    PowersOf64();
    var n := Needed(s[0]);
    assert PartialValue(s, n, 1) == PartialValue(s, n, 0) + (At(s, 1) - 0x80) * Power64(n - 1);
    if n >= 2 { assert PartialValue(s, n, 2) == PartialValue(s, n, 1) + (At(s, 2) - 0x80) * Power64(n - 2); }
    if n >= 3 { assert PartialValue(s, n, 3) == PartialValue(s, n, 2) + (At(s, 3) - 0x80) * Power64(n - 3); }
  }

  /** Decoding moves on by at least one byte and, on a non-empty remainder, never past the
      terminator, whatever the input. */
  lemma DecodeStaysInside(s: seq<Byte>)
    requires s != []
    ensures 1 <= Decode(s).1 <= |s|
  {
  }

  lemma Digits(c: int, w: int, x: int, y: int, z: int)
    requires 0 <= w && 0 <= x < 0x40 && 0 <= y < 0x40 && 0 <= z < 0x40
    requires c == w * 0x40000 + x * 0x1000 + y * 0x40 + z
    ensures c % 0x40 == z && c / 0x40 == w * 0x1000 + x * 0x40 + y
    ensures c / 0x40 % 0x40 == y
    ensures c / 0x1000 == w * 0x40 + x && c / 0x1000 % 0x40 == x
    ensures c / 0x40000 == w
  {
    assert c / 0x40 == w * 0x1000 + x * 0x40 + y;
    assert c / 0x1000 == w * 0x40 + x;
  }

  /** Decode accepts only shortest forms of scalar values... */
  lemma DecodeSound(s: seq<Byte>)
    requires s != [] && NulFree(s) && Decode(s).0 != -1
    ensures IsScalar(Decode(s).0) && Decode(s).0 > 0
    ensures Decode(s).1 == |Encoding(Decode(s).0)| <= |s|
    ensures s[..Decode(s).1] == Encoding(Decode(s).0)
  {
    if s[0] > 0x7F {
      Decoded(s);
      ValueOf(s);
      hide Decode, PartialValue, Taken, Encoding;
      var c, n := Decode(s).0, Needed(s[0]);
      if n == 1 {
        Two(c, s[0], s[1]);
        assert s[..2] == [s[0], s[1]];
      } else if n == 2 {
        Three(c, s[0], s[1], s[2]);
        assert s[..3] == [s[0], s[1], s[2]];
      } else {
        Four(c, s[0], s[1], s[2], s[3]);
        assert s[..4] == [s[0], s[1], s[2], s[3]];
      }
    }
  }

  /** What a successful decoding has seen. */
  lemma Decoded(s: seq<Byte>)
    requires s != [] && NulFree(s) && s[0] > 0x7F && Decode(s).0 != -1
    ensures var n := Needed(s[0]);
            && 1 <= n <= 3 && Taken(s) == n && Decode(s).1 == n + 1 <= |s| && SecondLower(s[0]) <= s[1] <= SecondUpper(s[0])
            && (n >= 2 ==> IsContinuation(s[2])) && (n == 3 ==> IsContinuation(s[3]))
  {
  }

  lemma Two(c: int, a: Byte, b: Byte)
    requires Needed(a) == 1 && SecondLower(a) <= b <= SecondUpper(a) && c == (a - 0xC0) * 0x40 + b - 0x80
    ensures IsScalar(c) && c > 0 && Encoding(c) == [a, b]
  {
    Digits(c, 0, 0, a - 0xC0, b - 0x80);
  }

  lemma Three(c: int, a: Byte, b: Byte, d: Byte)
    requires Needed(a) == 2 && SecondLower(a) <= b <= SecondUpper(a) && IsContinuation(d)
    requires c == (a - 0xE0) * 0x1000 + (b - 0x80) * 0x40 + d - 0x80
    ensures IsScalar(c) && c > 0 && Encoding(c) == [a, b, d]
  {
    Digits(c, 0, a - 0xE0, b - 0x80, d - 0x80);
    assert c > 0x7FF;
  }

  lemma Four(c: int, a: Byte, b: Byte, d: Byte, e: Byte)
    requires Needed(a) == 3 && SecondLower(a) <= b <= SecondUpper(a) && IsContinuation(d) && IsContinuation(e)
    requires c == (a - 0xF0) * 0x40000 + (b - 0x80) * 0x1000 + (d - 0x80) * 0x40 + e - 0x80
    ensures IsScalar(c) && c > 0 && Encoding(c) == [a, b, d, e]
  {
    Digits(c, a - 0xF0, b - 0x80, d - 0x80, e - 0x80);
    assert c > 0xFFFF;
  }

  function Lead(c: int): int requires IsScalar(c) { Encoding(c)[0] }

  function Tail(c: int, i: nat): int requires IsScalar(c) && i < |Encoding(c)| { var b: int := Encoding(c)[i]; b - 0x80 }

  lemma EncodingDigits(c: int)
    requires IsScalar(c) && c > 0x7F
    ensures var e := Encoding(c);
            && Needed(e[0]) == |e| - 1 && SecondLower(e[0]) <= e[1] <= SecondUpper(e[0])
            && forall i :: 0 < i < |e| ==> IsContinuation(e[i])
    ensures c <= 0x7FF ==> c == (Lead(c) - 0xC0) * 0x40 + Tail(c, 1)
    ensures 0x7FF < c <= 0xFFFF ==> c == (Lead(c) - 0xE0) * 0x1000 + Tail(c, 1) * 0x40 + Tail(c, 2)
    ensures c > 0xFFFF ==>
              c == (Lead(c) - 0xF0) * 0x40000 + Tail(c, 1) * 0x1000 + Tail(c, 2) * 0x40 + Tail(c, 3)
  {
    LeadBounds(c);
    SextetsOf(c);
  }

  /** What the first two octets can be. */
  lemma LeadBounds(c: int)
    requires IsScalar(c) && c > 0x7F
    ensures var e := Encoding(c);
            Needed(e[0]) == |e| - 1 && SecondLower(e[0]) <= e[1] <= SecondUpper(e[0])
  {
    var z, y, x, w := c % 0x40, c / 0x40 % 0x40, c / 0x1000 % 0x40, c / 0x40000;
    SextetsOf(c);
    Digits(c, w, x, y, z);
  }

  lemma SextetsOf(c: nat)
    ensures c == c / 0x40000 * 0x40000 + c / 0x1000 % 0x40 * 0x1000 + c / 0x40 % 0x40 * 0x40 + c % 0x40
  {
    assert c / 0x40 / 0x40 == c / 0x1000 && c / 0x1000 / 0x40 == c / 0x40000;
  }

  /** ...and every string starting with the encoding of a scalar value decodes to it. */
  lemma DecodeComplete(s: seq<Byte>, c: int)
    requires IsScalar(c) && c != 0 && Encoding(c) <= s
    ensures Decode(s) == (c, |Encoding(c)|)
  {
    var e := Encoding(c);
    assert forall i :: 0 <= i < |e| ==> s[i] == e[i];
    if c > 0x7F {
      EncodingDigits(c);
      hide Encoding, PartialValue;
      assert Taken(s) == Needed(s[0]);
      ValueOf(s);
    }
  }

  /** The examples of RFC 3629 section 7. */
  lemma Rfc3629Examples()
    ensures Encoding(0x41) == [0x41] && Encoding(0x2262) == [0xE2, 0x89, 0xA2] && Encoding(0x391) == [0xCE, 0x91]
    ensures Encoding(0xD55C) == [0xED, 0x95, 0x9C] && Encoding(0x65E5) == [0xE6, 0x97, 0xA5]
    ensures Encoding(0x233B4) == [0xF0, 0xA3, 0x8E, 0xB4]
  {
  }
}
