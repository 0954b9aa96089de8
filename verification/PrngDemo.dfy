/** The numbers that src/test/prng.cpp takes from the reference implementation of the generator. */
module PrngDemo {
  import opened Arith
  import opened Bits
  import opened Prng
  import opened PrngOutput

  // ---- xor digit by digit ----

  function Differ(a: nat, b: nat): (d: nat)
    ensures d < 2
  {
    if a == b then 0 else 1
  }

  lemma XorBit(x: nat, y: nat, h: nat, k: nat, a: nat, b: nat)
    requires x == 2 * h + a && y == 2 * k + b && a < 2 && b < 2
    ensures Xor(x, y) == 2 * Xor(h, k) + Differ(a, b)
  {
    hide Xor;
    XorStep(x, y);
    HalfOf(x, h, a);
    HalfOf(y, k, b);
    assert (x + y) % 2 == (a + b) % 2;
  }

  /** Half of a number below 2p that stands below a multiple of 2p. */
  lemma HalfBelow(p: nat, h: nat, a: nat)
    ensures 0 <= p * h && (2 * p) * h + a == 2 * (p * h + a / 2) + a % 2
  {
    MulNonneg(p, h);
    Associate(2, p, h);
  }

  /** The low n bits of two numbers are combined apart from the others. */
  lemma {:induction false} XorParts(h: nat, k: nat, a: nat, b: nat, n: nat)
    requires a < Pow2(n) && b < Pow2(n)
    ensures 0 <= Pow2(n) * h && 0 <= Pow2(n) * k
    ensures Xor(Pow2(n) * h + a, Pow2(n) * k + b) == Pow2(n) * Xor(h, k) + Xor(a, b) && Xor(a, b) < Pow2(n)
  {
    hide Xor;
    MulNonneg(Pow2(n), h);
    MulNonneg(Pow2(n), k);
    if n == 0 {
      XorZero(0);
    } else {
      XorParts(h, k, a / 2, b / 2, n - 1);
      XorNext(h, k, a, b, Pow2(n - 1));
    }
  }

  lemma XorNext(h: nat, k: nat, a: nat, b: nat, p: nat)
    requires 0 <= p * h && 0 <= p * k && a < 2 * p && b < 2 * p
    requires Xor(p * h + a / 2, p * k + b / 2) == p * Xor(h, k) + Xor(a / 2, b / 2) && Xor(a / 2, b / 2) < p
    ensures 0 <= (2 * p) * h && 0 <= (2 * p) * k
    ensures Xor((2 * p) * h + a, (2 * p) * k + b) == (2 * p) * Xor(h, k) + Xor(a, b) && Xor(a, b) < 2 * p
  {
    hide Xor;
    MulNonneg(2 * p, h);
    MulNonneg(2 * p, k);
    HalfBelow(p, h, a);
    HalfBelow(p, k, b);
    XorBit((2 * p) * h + a, (2 * p) * k + b, p * h + a / 2, p * k + b / 2, a % 2, b % 2);
    XorBit(a, b, a / 2, b / 2, a % 2, b % 2);
    Associate(2, p, Xor(h, k));
  }

  /** The bit of weight w in a number below 2w, and what is below it. */
  function High(x: nat, w: nat): (b: nat)
    ensures x < 2 * w ==> b < 2 && x == w * b + Low(x, w) && Low(x, w) < w
  {
    if x >= w then 1 else 0
  }

  function Low(x: nat, w: nat): nat { if x >= w then x - w else x }

  /** x ^ y for hexadecimal digits */
  function Digit(x: nat, y: nat): (z: nat)
    requires x < 16 && y < 16
    ensures z < 16
  {
    var x1, x2, x3 := Low(x, 8), Low(Low(x, 8), 4), Low(Low(Low(x, 8), 4), 2);
    var y1, y2, y3 := Low(y, 8), Low(Low(y, 8), 4), Low(Low(Low(y, 8), 4), 2);
    8 * Differ(High(x, 8), High(y, 8)) + 4 * Differ(High(x1, 4), High(y1, 4)) + 2 * Differ(High(x2, 2), High(y2, 2))
    + Differ(High(x3, 1), High(y3, 1))
  }

  predicate AreBits(a: nat, b: nat, c: nat, d: nat) { a < 2 && b < 2 && c < 2 && d < 2 }

  lemma XorOneBit(a: nat, b: nat)
    requires a < 2 && b < 2
    ensures Xor(a, b) == Differ(a, b)
  {
    hide Xor, Differ;
    XorZero(0);
    XorBit(a, b, 0, 0, a, b);
  }

  lemma XorFourBits(a: nat, b: nat, c: nat, d: nat, a': nat, b': nat, c': nat, d': nat)
    requires AreBits(a, b, c, d) && AreBits(a', b', c', d')
    ensures Xor(8 * a + 4 * b + 2 * c + d, 8 * a' + 4 * b' + 2 * c' + d')
         == 8 * Differ(a, a') + 4 * Differ(b, b') + 2 * Differ(c, c') + Differ(d, d')
  {
    hide Xor, Differ;
    XorOneBit(a, a');
    XorThreeMore(8 * a + 4 * b + 2 * c + d, 8 * a' + 4 * b' + 2 * c' + d', a, a', b, b', c, c', d, d');
  }

  lemma XorThreeMore(x: nat, y: nat, h: nat, k: nat, b: nat, b': nat, c: nat, c': nat, d: nat, d': nat)
    requires AreBits(0, b, c, d) && AreBits(0, b', c', d')
    requires x == 8 * h + 4 * b + 2 * c + d && y == 8 * k + 4 * b' + 2 * c' + d'
    ensures Xor(x, y) == 8 * Xor(h, k) + 4 * Differ(b, b') + 2 * Differ(c, c') + Differ(d, d')
  {
    hide Xor, Differ;
    XorBit(x, y, 4 * h + 2 * b + c, 4 * k + 2 * b' + c', d, d');
    XorBit(4 * h + 2 * b + c, 4 * k + 2 * b' + c', 2 * h + b, 2 * k + b', c, c');
    XorBit(2 * h + b, 2 * k + b', h, k, b, b');
  }

  lemma DigitIsXor(x: nat, y: nat)
    requires x < 16 && y < 16
    ensures Xor(x, y) == Digit(x, y)
  {
    hide Xor, Low, High, Differ;
    var x1, x2, x3 := Low(x, 8), Low(Low(x, 8), 4), Low(Low(Low(x, 8), 4), 2);
    var y1, y2, y3 := Low(y, 8), Low(Low(y, 8), 4), Low(Low(Low(y, 8), 4), 2);
    XorFourBits(High(x, 8), High(x1, 4), High(x2, 2), High(x3, 1), High(y, 8), High(y1, 4), High(y2, 2), High(y3, 1));
  }

  /** A number of five hexadecimal digits. */
  function Hex(a: nat, b: nat, c: nat, d: nat, e: nat): nat {
    0x1_0000 * a + 0x1000 * b + 0x100 * c + 0x10 * d + e
  }

  lemma XorDigit(h: nat, k: nat, a: nat, b: nat)
    requires a < 16 && b < 16
    ensures Xor(16 * h + a, 16 * k + b) == 16 * Xor(h, k) + Digit(a, b)
  {
    hide Xor, Digit;
    assert Pow2(4) == 16 by { Pow2Small(); }
    XorParts(h, k, a, b, 4);
    DigitIsXor(a, b);
  }

  lemma XorHex(a: nat, b: nat, c: nat, d: nat, e: nat, a': nat, b': nat, c': nat, d': nat, e': nat)
    requires a < 16 && b < 16 && c < 16 && d < 16 && e < 16 && a' < 16 && b' < 16 && c' < 16 && d' < 16 && e' < 16
    ensures Xor(Hex(a, b, c, d, e), Hex(a', b', c', d', e'))
         == Hex(Digit(a, a'), Digit(b, b'), Digit(c, c'), Digit(d, d'), Digit(e, e'))
  {
    hide Xor, Digit;
    DigitIsXor(a, a');
    XorDigit(a, a', b, b');
    XorDigit(16 * a + b, 16 * a' + b', c, c');
    XorDigit(256 * a + 16 * b + c, 256 * a' + 16 * b' + c', d, d');
    XorDigit(4096 * a + 256 * b + 16 * c + d, 4096 * a' + 256 * b' + 16 * c' + d', e, e');
  }

  // ---- one number ----

  lemma Powers()
    ensures Pow2(13) == 0x2000 && Pow2(19) == 0x8_0000 && Pow2(27) == 0x800_0000
    ensures Pow2(45) == 0x2000_0000_0000 && Pow2(59) == 0x800_0000_0000_0000
  {
    hide Pow2;
    Pow2Values();
    Pow2Add(13, 5);
    Pow2Add(18, 1);
    Pow2Small();
    Pow2Add(18, 27);
  }

  /** The 32 bits to be rotated: of the low 19 each is combined with one 18 places higher. */
  lemma ShiftedIs(x: Word64, h: nat, m: nat, n: nat)
    requires h == x / 0x4000_0000_0000 && m == x / 0x800_0000 % 0x8_0000 && n == x / 0x2000_0000_0000
    ensures Xor(m, n) < 0x8_0000 && Shr(XorShift18(x), 27) % WORD32 == h % 0x2000 * 0x8_0000 + Xor(m, n)
    ensures Shr(x, 59) == x / 0x800_0000_0000_0000
  {
    hide Xor, Shr, Pow2;
    Powers();
    XorShift(x, Shr(x, 18), 27);
    ShrAdd(x, 18, 27);
    ShrIsDiv(x, 27);
    ShrIsDiv(x, 45);
    ShrIsDiv(x, 59);
    DivDiv(x, 0x800_0000, 0x8_0000);
    Upper(h, m, n);
  }

  lemma Upper(h: nat, m: nat, n: nat)
    requires m < 0x8_0000 && n < 0x8_0000
    ensures Xor(m, n) < 0x8_0000 && Xor(0x8_0000 * h + m, n) % WORD32 == h % 0x2000 * 0x8_0000 + Xor(m, n)
  {
    hide Xor, Pow2;
    Powers();
    XorParts(h, 0, m, n, 19);
    XorZero(h);
    CutWord(h, Xor(m, n));
  }

  lemma CutWord(h: nat, z: nat)
    requires z < 0x8_0000
    ensures (0x8_0000 * h + z) % WORD32 == h % 0x2000 * 0x8_0000 + z
  {
    DivModUnique(0x8_0000 * h + z, WORD32, h / 0x2000, h % 0x2000 * 0x8_0000 + z);
  }

  lemma RotatedIs(v: Word32, s: nat, p: nat, t: nat)
    requires 0 < s < 32 && p == Pow2(s) && t == Pow2(32 - s)
    ensures 0 <= v / p && RotateRight32(v, s) == v % p * t + v / p
  {
    hide Or, Shl, Shr, Pow2, RotateRight32;
    SplitWord(s);
    QuotientBelow(v, p, t);
    var q, r := Division(v, p);
    RotateValue(v, q, r, s);
  }

  /** The output from its parts. */
  lemma OutputIs(x: Word64, h: nat, m: nat, n: nat, z: nat, s: nat, v: Word32, p: nat, t: nat)
    requires h == x / 0x4000_0000_0000 && m == x / 0x800_0000 % 0x8_0000 && n == x / 0x2000_0000_0000 && z == Xor(m, n)
    requires s == x / 0x800_0000_0000_0000 && 0 < s < 32 && p == Pow2(s) && t == Pow2(32 - s)
    requires v == h % 0x2000 * 0x8_0000 + z
    ensures Output(x) == v % p * t + v / p
  {
    hide Xor, Shr, RotateRight32, Pow2, XorShift18;
    ShiftedIs(x, h, m, n);
    RotatedIs(v, s, p, t);
  }

  // ---- the six numbers ----

  lemma RotationPowers()
    ensures Pow2(2) == 0x4 && Pow2(3) == 0x8 && Pow2(5) == 0x20 && Pow2(15) == 0x8000
    ensures Pow2(16) == 0x1_0000 && Pow2(17) == 0x2_0000 && Pow2(27) == 0x800_0000 && Pow2(29) == 0x2000_0000
    ensures Pow2(30) == 0x4000_0000
  {
    hide Pow2;
    Pow2Values();
    Pow2Small();
    Pow2Add(5, 5);
    Pow2Add(5, 10);
    Pow2Add(15, 1);
    Pow2Add(16, 1);
    Pow2Add(27, 2);
    Pow2Add(29, 1);
  }

  lemma First()
    ensures Output(0x1857_06B8_2C2E_03F8) == 0xA15C_02B7 && Next(0x1857_06B8_2C2E_03F8, 109) == 0x2B47_FED8_8766_BB05
  {
    hide Output, Pow2, Xor;
    RotationPowers();
    XorHex(0x0, 0xD, 0x7, 0x0, 0x5, 0x0, 0xC, 0x2, 0xB, 0x8);
    OutputIs(0x1857_06B8_2C2E_03F8, 0x615C, 0xD705, 0xC2B8, 0x15BD, 3, 0xAE0_15BD, 0x8, 0x2000_0000);
  }

  lemma Second()
    ensures Output(0x2B47_FED8_8766_BB05) == 0x7B47_F409 && Next(0x2B47_FED8_8766_BB05, 109) == 0x8B33_296D_19BF_5B4E
  {
    hide Output, Pow2, Xor;
    RotationPowers();
    XorHex(0x7, 0xD, 0xB, 0x1, 0x0, 0x1, 0x5, 0xA, 0x3, 0xF);
    OutputIs(0x2B47_FED8_8766_BB05, 0xAD1F, 0x7_DB10, 0x1_5A3F, 0x6_812F, 5, 0x68FE_812F, 0x20, 0x800_0000);
  }

  lemma Third()
    ensures Output(0x8B33_296D_19BF_5B4E) == 0xBA1D_3330 && Next(0x8B33_296D_19BF_5B4E, 109) == 0xF707_9824_C154_BF23
  {
    hide Output, Pow2, Xor;
    RotationPowers();
    XorHex(0x5, 0x2, 0xD, 0xA, 0x3, 0x4, 0x5, 0x9, 0x9, 0x9);
    OutputIs(0x8B33_296D_19BF_5B4E, 0x2_2CCC, 0x5_2DA3, 0x4_5999, 0x1_743A, 17, 0x6661_743A, 0x2_0000, 0x8000);
  }

  lemma Fourth()
    ensures Output(0xF707_9824_C154_BF23) == 0x83D2_F293 && Next(0xF707_9824_C154_BF23, 109) == 0xEBBF_9E97_AA16_F694
  {
    hide Output, Pow2, Xor;
    RotationPowers();
    XorHex(0x3, 0x0, 0x4, 0x9, 0x8, 0x7, 0xB, 0x8, 0x3, 0xC);
    OutputIs(0xF707_9824_C154_BF23, 0x3_DC1E, 0x3_0498, 0x7_B83C, 0x4_BCA4, 30, 0xE0F4_BCA4, 0x4000_0000, 0x4);
  }

  lemma Fifth()
    ensures Output(0xEBBF_9E97_AA16_F694) == 0xBFA4_784B && Next(0xEBBF_9E97_AA16_F694, 109) == 0x8303_569F_BE80_C471
  {
    hide Output, Pow2, Xor;
    RotationPowers();
    XorHex(0x3, 0xD, 0x2, 0xF, 0x5, 0x7, 0x5, 0xD, 0xF, 0xC);
    OutputIs(0xEBBF_9E97_AA16_F694, 0x3_AEFE, 0x3_D2F5, 0x7_5DFC, 0x4_8F09, 29, 0x77F4_8F09, 0x2000_0000, 0x8);
  }

  lemma Sixth()
    ensures Output(0x8303_569F_BE80_C471) == 0xCBED_606E && Next(0x8303_569F_BE80_C471, 109) == 0xBEB6_D0B7_3FDB_974A
  {
    hide Output, Pow2, Xor;
    RotationPowers();
    XorHex(0x2, 0xD, 0x3, 0xF, 0x7, 0x4, 0x1, 0x8, 0x1, 0xA);
    OutputIs(0x8303_569F_BE80_C471, 0x2_0C0D, 0x2_D3F7, 0x4_181A, 0x6_CBED, 16, 0x606E_CBED, 0x1_0000, 0x1_0000);
  }

  /** The reference sequence: seeded with 42 and 54, the generator answers these. */
  method EqualsPcg32GlobalDemo() returns (numbers: seq<nat>)
    ensures numbers == [0xA15C_02B7, 0x7B47_F409, 0xBA1D_3330, 0x83D2_F293, 0xBFA4_784B, 0xCBED_606E]
  {
    hide Next, Output;
    var prng := new CPrng();
    prng.Seed(42, 54);
    FirstState(prng.increment, prng.state);
    First(); Second(); Third(); Fourth(); Fifth(); Sixth();
    numbers := [];
    for i := 0 to 6
      invariant prng.seeded && prng.increment == 109 && |numbers| == i
      invariant prng.state == StateAfter(0x1857_06B8_2C2E_03F8, 109, i)
      invariant forall k :: 0 <= k < i ==> numbers[k] == Output(StateAfter(0x1857_06B8_2C2E_03F8, 109, k))
    {
      var bits := prng.RandomBits();
      numbers := numbers + [bits];
    }
    SixStates();
  }

  lemma FirstState(increment: Word64, state: Word64)
    requires increment % 2 == 1 && increment / 2 == 54 % (MODULUS / 2)
    requires state == Next((42 + increment) % MODULUS, increment)
    ensures increment == 109 && state == 0x1857_06B8_2C2E_03F8
  {
    hide Next;
    SeededIncrement(increment);
    SeededState();
  }

  lemma SeededIncrement(increment: Word64)
    requires increment % 2 == 1 && increment / 2 == 54 % (MODULUS / 2)
    ensures increment == 109
  {
    assert 54 % (MODULUS / 2) == 54;
  }

  lemma SeededState()
    ensures (42 + 109) % MODULUS == 151 && Next(151, 109) == 0x1857_06B8_2C2E_03F8
  {
  }

  lemma SixStates()
    ensures StateAfter(0x1857_06B8_2C2E_03F8, 109, 0) == 0x1857_06B8_2C2E_03F8
    ensures StateAfter(0x1857_06B8_2C2E_03F8, 109, 1) == 0x2B47_FED8_8766_BB05
    ensures StateAfter(0x1857_06B8_2C2E_03F8, 109, 2) == 0x8B33_296D_19BF_5B4E
    ensures StateAfter(0x1857_06B8_2C2E_03F8, 109, 3) == 0xF707_9824_C154_BF23
    ensures StateAfter(0x1857_06B8_2C2E_03F8, 109, 4) == 0xEBBF_9E97_AA16_F694
    ensures StateAfter(0x1857_06B8_2C2E_03F8, 109, 5) == 0x8303_569F_BE80_C471
  {
    hide Next, Output;
    First(); Second(); Third(); Fourth(); Fifth();
    assert StateAfter(0x1857_06B8_2C2E_03F8, 109, 1) == Next(StateAfter(0x1857_06B8_2C2E_03F8, 109, 0), 109);
    assert StateAfter(0x1857_06B8_2C2E_03F8, 109, 2) == Next(StateAfter(0x1857_06B8_2C2E_03F8, 109, 1), 109);
    assert StateAfter(0x1857_06B8_2C2E_03F8, 109, 3) == Next(StateAfter(0x1857_06B8_2C2E_03F8, 109, 2), 109);
    assert StateAfter(0x1857_06B8_2C2E_03F8, 109, 4) == Next(StateAfter(0x1857_06B8_2C2E_03F8, 109, 3), 109);
    assert StateAfter(0x1857_06B8_2C2E_03F8, 109, 5) == Next(StateAfter(0x1857_06B8_2C2E_03F8, 109, 4), 109);
  }
}
