/** SHA-256 as FIPS 180-4 defines it: functions of section 4.1.2, padding of section 5.1.1, hash
    computation of section 6.2.2. */
module Sha256Spec {

  import opened Words

  /** Section 4.2.2: one constant a round. */
  function K(t: nat): Word
    requires t < 64
  {
    if t < 8 then [0x428A2F98, 0x71374491, 0xB5C0FBCF, 0xE9B5DBA5, 0x3956C25B, 0x59F111F1, 0x923F82A4, 0xAB1C5ED5][t]
    else if t < 16 then [0xD807AA98, 0x12835B01, 0x243185BE, 0x550C7DC3, 0x72BE5D74, 0x80DEB1FE, 0x9BDC06A7, 0xC19BF174][t - 8]
    else if t < 24 then [0xE49B69C1, 0xEFBE4786, 0x0FC19DC6, 0x240CA1CC, 0x2DE92C6F, 0x4A7484AA, 0x5CB0A9DC, 0x76F988DA][t - 16]
    else if t < 32 then [0x983E5152, 0xA831C66D, 0xB00327C8, 0xBF597FC7, 0xC6E00BF3, 0xD5A79147, 0x06CA6351, 0x14292967][t - 24]
    else if t < 40 then [0x27B70A85, 0x2E1B2138, 0x4D2C6DFC, 0x53380D13, 0x650A7354, 0x766A0ABB, 0x81C2C92E, 0x92722C85][t - 32]
    else if t < 48 then [0xA2BFE8A1, 0xA81A664B, 0xC24B8B70, 0xC76C51A3, 0xD192E819, 0xD6990624, 0xF40E3585, 0x106AA070][t - 40]
    else if t < 56 then [0x19A4C116, 0x1E376C08, 0x2748774C, 0x34B0BCB5, 0x391C0CB3, 0x4ED8AA4A, 0x5B9CCA4F, 0x682E6FF3][t - 48]
    else [0x748F82EE, 0x78A5636F, 0x84C87814, 0x8CC70208, 0x90BEFFFA, 0xA4506CEB, 0xBEF9A3F7, 0xC67178F2][t - 56]
  }

  /** Section 5.3.3: the initial hash value. */
  const H0: seq<Word> :=
    [0x6A09E667, 0xBB67AE85, 0x3C6EF372, 0xA54FF53A, 0x510E527F, 0x9B05688C, 0x1F83D9AB, 0x5BE0CD19]

  /** The t-th big-endian word of a block. */
  function BlockWord(block: seq<Octet>, t: nat): Word
    requires 4 * t + 4 <= |block|
  {
    ((block[4 * t] as Word) << 24) | ((block[4 * t + 1] as Word) << 16)
    | ((block[4 * t + 2] as Word) << 8) | (block[4 * t + 3] as Word)
  }

  function ScheduleWord(w2: Word, w7: Word, w15: Word, w16: Word): Word {
    Add(Add(Add(SmallSigma1(w2), w7), SmallSigma0(w15)), w16)
  }

  /** The message schedule. */
  function Schedule(block: seq<Octet>, t: nat): Word
    requires |block| == 64 && t < 64
  {
    if t < 16 then BlockWord(block, t)
    else ScheduleWord(Schedule(block, t - 2), Schedule(block, t - 7), Schedule(block, t - 15), Schedule(block, t - 16))
  }

  /** The working variables. */
  datatype Vars = Vars(a: Word, b: Word, c: Word, d: Word, e: Word, f: Word, g: Word, h: Word)

  function Round(v: Vars, k: Word, w: Word): Vars {
    var t1 := Add(Add(Add(Add(v.h, BigSigma1(v.e)), Ch(v.e, v.f, v.g)), k), w);
    var t2 := Add(BigSigma0(v.a), Maj(v.a, v.b, v.c));
    Vars(Add(t1, t2), v.a, v.b, v.c, Add(v.d, t1), v.e, v.f, v.g)
  }

  function Rounds(v: Vars, block: seq<Octet>, t: nat): Vars
    requires |block| == 64 && t <= 64
  {
    if t == 0 then v else Round(Rounds(v, block, t - 1), K(t - 1), Schedule(block, t - 1))
  }

  function Load(h: seq<Word>): Vars
    requires |h| == 8
  {
    Vars(h[0], h[1], h[2], h[3], h[4], h[5], h[6], h[7])
  }

  function Compress(h: seq<Word>, block: seq<Octet>): (r: seq<Word>)
    requires |h| == 8 && |block| == 64
    ensures |r| == 8
  {
    var v := Rounds(Load(h), block, 64);
    [Add(v.a, h[0]), Add(v.b, h[1]), Add(v.c, h[2]), Add(v.d, h[3]),
     Add(v.e, h[4]), Add(v.f, h[5]), Add(v.g, h[6]), Add(v.h, h[7])]
  }

  /** The hash value after the first n blocks of m. */
  function HashAfter(m: seq<Octet>, n: nat): (h: seq<Word>)
    requires 64 * n <= |m|
    ensures |h| == 8
  {
    if n == 0 then H0 else Compress(HashAfter(m, n - 1), m[64 * (n - 1)..64 * n])
  }

  function Zeros(n: nat): (z: seq<Octet>)
    ensures |z| == n
  {
    seq(n, _ => 0)
  }

  /** A 64-bit number as eight big-endian bytes. */
  function BigEndian64(x: nat): (b: seq<Octet>)
    ensures |b| == 8
  {
    seq(8, i requires 0 <= i < 8 => ByteOf(x, 7 - i))
  }

  /** Byte i of a 64-bit number, byte 0 the least significant. */
  function ByteOf(x: nat, i: nat): Octet {
    if i == 0 then (x % 256) as Octet else ByteOf(x / 256, i - 1)
  }

  /** The number of zero bytes between the 1 bit and the length. */
  function PadZeros(len: nat): nat {
    (119 - len % 64) % 64
  }

  lemma PadLength(len: nat)
    ensures (len + 1 + PadZeros(len)) % 64 == 56 && (len + 1 + PadZeros(len) + 8) % 64 == 0
  {
  }

  /** Section 5.1.1. */
  function Padded(m: seq<Octet>): (p: seq<Octet>)
    ensures |p| % 64 == 0
  {
    PadLength(|m|);
    m + [0x80] + Zeros(PadZeros(|m|)) + BigEndian64(8 * |m| % 0x1_0000_0000_0000_0000)
  }

  function WordBytes(w: Word): seq<Octet> {
    [((w >> 24) & 0xFF) as Octet, ((w >> 16) & 0xFF) as Octet, ((w >> 8) & 0xFF) as Octet, (w & 0xFF) as Octet]
  }

  function AllBytes(h: seq<Word>): (b: seq<Octet>)
    ensures |b| == 4 * |h|
  {
    if h == [] then [] else AllBytes(h[..|h| - 1]) + WordBytes(h[|h| - 1])
  }

  /** The digest of a message. */
  function Sha256(m: seq<Octet>): seq<Octet> {
    AllBytes(HashAfter(Padded(m), |Padded(m)| / 64))
  }
}
