/** The tables of SHA-256 are what FIPS 180-4 says they are: the fractions of the square and cube roots of
    the first primes. */
module Sha256Constants {
  import opened Arith
  import opened Words
  import opened Sha256Spec

  // ---- the first primes ----

  ghost predicate IsPrime(n: nat) { n >= 2 && forall d :: 2 <= d < n ==> n % d != 0 }

  /** p is the next prime after n. */
  ghost predicate IsNextPrime(n: nat, p: nat) {
    n < p && IsPrime(p) && forall m: nat :: n < m < p ==> !IsPrime(m)
  }

  /** No prime up to 17 divides n, except n itself. */
  predicate Sieved(n: nat) {
    && n >= 2 && (n == 2 || n % 2 != 0) && (n == 3 || n % 3 != 0) && (n == 5 || n % 5 != 0) && (n == 7 || n % 7 != 0)
    && (n == 11 || n % 11 != 0) && (n == 13 || n % 13 != 0) && (n == 17 || n % 17 != 0)
  }

  /** Below 18 * 18 that decides. */
  lemma SievedIsPrime(n: nat)
    requires n < 324
    ensures Sieved(n) <==> IsPrime(n)
  {
    if Sieved(n) {
      forall d | 2 <= d < n ensures n % d != 0 {
        if n % d == 0 {
          var e := n / d;
          assert n == d * e;
          SmallFactor(d, e, n);
          assert false;
        }
      }
    }
  }

  /** One of two factors is at most 17, and has a prime factor up to 17. */
  lemma SmallFactor(d: nat, e: nat, n: nat)
    requires 2 <= d < n < 324 && n == d * e
    ensures !Sieved(n)
  {
    hide Sieved;
    FactorBounds(d, e);
    if d <= 17 {
      Multiple(d, e);
    } else if e <= 17 {
      Multiple(e, d);
    } else {
      TooLarge(d, e);
      assert false;
    }
  }

  lemma FactorBounds(d: nat, e: nat)
    requires 2 <= d < d * e
    ensures e >= 2
  {
  }

  lemma TooLarge(d: nat, e: nat)
    requires d >= 18 && e >= 18
    ensures d * e >= 324
  {
    MulNonneg(d - 18, e);
    Distribute(e, d - 18, 18);
  }

  /** A proper multiple of a small number does not pass. */
  lemma Multiple(d: nat, e: nat)
    requires 2 <= d <= 17 && e >= 2
    ensures !Sieved(d * e)
  {
    var p := SmallPrime(d);
    hide SmallPrime;
    var k := d / p;
    assert d == p * k;
    Associate(p, k, e);
    AtLeastTwo(k, e);
    MultipleMod(p, k * e);
  }

  lemma AtLeastTwo(k: nat, e: nat)
    requires k >= 1 && e >= 2
    ensures k * e >= 2
  {
    ProductAtLeast(e, k);
  }

  function SmallPrime(d: nat): (p: nat)
    requires 2 <= d <= 17
    ensures p in {2, 3, 5, 7, 11, 13, 17} && d % p == 0 && d >= p
  {
    if d % 2 == 0 then 2 else if d % 3 == 0 then 3 else if d % 5 == 0 then 5 else d
  }

  lemma MultipleMod(p: nat, k: nat)
    requires p > 0 && k >= 2
    ensures (p * k) % p == 0 && p * k != p
  {
    DivModUnique(p * k, p, k, 0);
    ProductAtLeast(p, k - 1);
    Distribute(p, k - 1, 1);
  }

  /** Primes below 324 are at most 14 apart. */
  lemma Next(n: nat, p: nat)
    requires n % 2 == 1 && n > 2 && n < p <= n + 14 && p < 324 && Sieved(p)
    requires (n + 2 < p ==> !Sieved(n + 2)) && (n + 4 < p ==> !Sieved(n + 4)) && (n + 6 < p ==> !Sieved(n + 6))
    requires (n + 8 < p ==> !Sieved(n + 8)) && (n + 10 < p ==> !Sieved(n + 10)) && (n + 12 < p ==> !Sieved(n + 12))
    ensures IsNextPrime(n, p)
  {
    hide Sieved, IsPrime;
    SievedIsPrime(p);
    forall m: nat | n < m < p ensures !IsPrime(m) {
      SievedIsPrime(m);
      if m % 2 == 0 { EvenFails(m); } else { OddSteps(n, m); }
    }
  }

  lemma OddSteps(n: nat, m: nat)
    requires n % 2 == 1 == m % 2 && n < m < n + 14
    ensures m == n + 2 || m == n + 4 || m == n + 6 || m == n + 8 || m == n + 10 || m == n + 12
  {
  }

  lemma EvenFails(m: nat)
    requires m > 2 && m % 2 == 0
    ensures !Sieved(m)
  {
  }

  lemma FirstPrimes()
    ensures IsNextPrime(0, 2) && IsNextPrime(2, 3)
  {
    SievedIsPrime(2);
    SievedIsPrime(3);
  }

  // ---- roots ----

  /** k are the first 32 bits of the fraction of the cube root of p. */
  ghost predicate IsCubeRootFraction(k: nat, p: nat) {
    exists q: nat :: IsCubeRoot(q * WORD32 + k, p)
  }

  /** c is the integer part of 2^32 times the cube root of p. */
  predicate IsCubeRoot(c: nat, p: nat) {
    c * c * c <= p * 0x1_0000_0000_0000_0000_0000_0000 < (c + 1) * (c + 1) * (c + 1)
  }

  ghost predicate IsSquareRootFraction(h: nat, p: nat) {
    exists q: nat :: IsSquareRoot(q * WORD32 + h, p)
  }

  predicate IsSquareRoot(c: nat, p: nat) {
    c * c <= p * 0x1_0000_0000_0000_0000 < (c + 1) * (c + 1)
  }

  lemma CubeRoot(t: nat, q: nat, k: nat, p: nat)
    requires t < 64 && K(t) as nat == k < WORD32 && IsCubeRoot(q * WORD32 + k, p)
    ensures IsCubeRootFraction(K(t) as nat, p)
  {
    hide K, IsCubeRoot;
  }

  lemma SquareRoot(t: nat, q: nat, h: nat, p: nat)
    requires t < 8 && H0[t] as nat == h < WORD32 && IsSquareRoot(q * WORD32 + h, p)
    ensures IsSquareRootFraction(H0[t] as nat, p)
  {
    hide IsSquareRoot;
  }

  // ---- the tables ----

  /** The primes after n, none left out. */
  ghost predicate Consecutive(n: nat, ps: seq<nat>) {
    forall i :: 0 <= i < |ps| ==> IsNextPrime(Before(n, ps, i), ps[i])
  }

  function Before(n: nat, ps: seq<nat>, i: int): nat
    requires 0 <= i < |ps|
  {
    if i == 0 then n else ps[i - 1]
  }

  lemma ConsecutiveRows(n: nat, ps: seq<nat>, m: nat, qs: seq<nat>)
    requires Consecutive(n, ps) && ps != [] && ps[|ps| - 1] == m && Consecutive(m, qs)
    ensures Consecutive(n, ps + qs)
  {
    hide IsNextPrime;
    var rs := ps + qs;
    forall i | 0 <= i < |rs| ensures IsNextPrime(Before(n, rs, i), rs[i]) {
      if i < |ps| {
        assert Before(n, rs, i) == Before(n, ps, i) && rs[i] == ps[i];
      } else {
        assert Before(n, rs, i) == Before(m, qs, i - |ps|) && rs[i] == qs[i - |ps|];
      }
    }
  }

  const PRIMES0: seq<nat> := [2, 3, 5, 7, 11, 13, 17, 19]
  const PRIMES8: seq<nat> := [23, 29, 31, 37, 41, 43, 47, 53]
  const PRIMES16: seq<nat> := [59, 61, 67, 71, 73, 79, 83, 89]
  const PRIMES24: seq<nat> := [97, 101, 103, 107, 109, 113, 127, 131]
  const PRIMES32: seq<nat> := [137, 139, 149, 151, 157, 163, 167, 173]
  const PRIMES40: seq<nat> := [179, 181, 191, 193, 197, 199, 211, 223]
  const PRIMES48: seq<nat> := [227, 229, 233, 239, 241, 251, 257, 263]
  const PRIMES56: seq<nat> := [269, 271, 277, 281, 283, 293, 307, 311]

  lemma Primes0()
    ensures Consecutive(0, PRIMES0)
  {
    hide IsNextPrime;
    FirstPrimes();
    Next(3, 5);
    Next(5, 7);
    Next(7, 11);
    Next(11, 13);
    Next(13, 17);
    Next(17, 19);
  }

  lemma Primes8()
    ensures Consecutive(19, PRIMES8)
  {
    hide IsNextPrime;
    Next(19, 23);
    Next(23, 29);
    Next(29, 31);
    Next(31, 37);
    Next(37, 41);
    Next(41, 43);
    Next(43, 47);
    Next(47, 53);
  }

  lemma Primes16()
    ensures Consecutive(53, PRIMES16)
  {
    hide IsNextPrime;
    Next(53, 59);
    Next(59, 61);
    Next(61, 67);
    Next(67, 71);
    Next(71, 73);
    Next(73, 79);
    Next(79, 83);
    Next(83, 89);
  }

  lemma Primes24()
    ensures Consecutive(89, PRIMES24)
  {
    hide IsNextPrime;
    Next(89, 97);
    Next(97, 101);
    Next(101, 103);
    Next(103, 107);
    Next(107, 109);
    Next(109, 113);
    Next(113, 127);
    Next(127, 131);
  }

  lemma Primes32()
    ensures Consecutive(131, PRIMES32)
  {
    hide IsNextPrime;
    Next(131, 137);
    Next(137, 139);
    Next(139, 149);
    Next(149, 151);
    Next(151, 157);
    Next(157, 163);
    Next(163, 167);
    Next(167, 173);
  }

  lemma Primes40()
    ensures Consecutive(173, PRIMES40)
  {
    hide IsNextPrime;
    Next(173, 179);
    Next(179, 181);
    Next(181, 191);
    Next(191, 193);
    Next(193, 197);
    Next(197, 199);
    Next(199, 211);
    Next(211, 223);
  }

  lemma Primes48()
    ensures Consecutive(223, PRIMES48)
  {
    hide IsNextPrime;
    Next(223, 227);
    Next(227, 229);
    Next(229, 233);
    Next(233, 239);
    Next(239, 241);
    Next(241, 251);
    Next(251, 257);
    Next(257, 263);
  }

  lemma Primes56()
    ensures Consecutive(263, PRIMES56)
  {
    hide IsNextPrime;
    Next(263, 269);
    Next(269, 271);
    Next(271, 277);
    Next(277, 281);
    Next(281, 283);
    Next(283, 293);
    Next(293, 307);
    Next(307, 311);
  }

  const LOWER: seq<nat> := PRIMES0 + PRIMES8 + PRIMES16 + PRIMES24
  const UPPER: seq<nat> := PRIMES32 + PRIMES40 + PRIMES48 + PRIMES56

  /** The first 64 primes. */
  const PRIMES: seq<nat> := LOWER + UPPER

  lemma PrimesInOrder()
    ensures |LOWER| == 32 && |UPPER| == 32 && Consecutive(0, PRIMES)
  {
    hide Consecutive;
    Primes0();
    Primes8();
    Primes16();
    Primes24();
    Primes32();
    Primes40();
    Primes48();
    Primes56();
    ConsecutiveRows(0, PRIMES0, 19, PRIMES8);
    ConsecutiveRows(0, PRIMES0 + PRIMES8, 53, PRIMES16);
    ConsecutiveRows(0, PRIMES0 + PRIMES8 + PRIMES16, 89, PRIMES24);
    ConsecutiveRows(131, PRIMES32, 173, PRIMES40);
    ConsecutiveRows(131, PRIMES32 + PRIMES40, 223, PRIMES48);
    ConsecutiveRows(131, PRIMES32 + PRIMES40 + PRIMES48, 263, PRIMES56);
    ConsecutiveRows(0, LOWER, 131, UPPER);
  }

  lemma Roots0(i: nat)
    requires i < 8
    ensures IsCubeRootFraction(K(0 + i) as nat, PRIMES0[i])
  {
    hide IsCubeRootFraction;
    if i == 0 { CubeRoot(0, 1, 0x428A2F98, 2); }
    else if i == 1 { CubeRoot(1, 1, 0x71374491, 3); }
    else if i == 2 { CubeRoot(2, 1, 0xB5C0FBCF, 5); }
    else if i == 3 { CubeRoot(3, 1, 0xE9B5DBA5, 7); }
    else if i == 4 { CubeRoot(4, 2, 0x3956C25B, 11); }
    else if i == 5 { CubeRoot(5, 2, 0x59F111F1, 13); }
    else if i == 6 { CubeRoot(6, 2, 0x923F82A4, 17); }
    else { CubeRoot(7, 2, 0xAB1C5ED5, 19); }
  }

  lemma Roots8(i: nat)
    requires i < 8
    ensures IsCubeRootFraction(K(8 + i) as nat, PRIMES8[i])
  {
    hide IsCubeRootFraction;
    if i == 0 { CubeRoot(8, 2, 0xD807AA98, 23); }
    else if i == 1 { CubeRoot(9, 3, 0x12835B01, 29); }
    else if i == 2 { CubeRoot(10, 3, 0x243185BE, 31); }
    else if i == 3 { CubeRoot(11, 3, 0x550C7DC3, 37); }
    else if i == 4 { CubeRoot(12, 3, 0x72BE5D74, 41); }
    else if i == 5 { CubeRoot(13, 3, 0x80DEB1FE, 43); }
    else if i == 6 { CubeRoot(14, 3, 0x9BDC06A7, 47); }
    else { CubeRoot(15, 3, 0xC19BF174, 53); }
  }

  lemma Roots16(i: nat)
    requires i < 8
    ensures IsCubeRootFraction(K(16 + i) as nat, PRIMES16[i])
  {
    hide IsCubeRootFraction;
    if i == 0 { CubeRoot(16, 3, 0xE49B69C1, 59); }
    else if i == 1 { CubeRoot(17, 3, 0xEFBE4786, 61); }
    else if i == 2 { CubeRoot(18, 4, 0x0FC19DC6, 67); }
    else if i == 3 { CubeRoot(19, 4, 0x240CA1CC, 71); }
    else if i == 4 { CubeRoot(20, 4, 0x2DE92C6F, 73); }
    else if i == 5 { CubeRoot(21, 4, 0x4A7484AA, 79); }
    else if i == 6 { CubeRoot(22, 4, 0x5CB0A9DC, 83); }
    else { CubeRoot(23, 4, 0x76F988DA, 89); }
  }

  lemma Roots24(i: nat)
    requires i < 8
    ensures IsCubeRootFraction(K(24 + i) as nat, PRIMES24[i])
  {
    hide IsCubeRootFraction;
    if i == 0 { CubeRoot(24, 4, 0x983E5152, 97); }
    else if i == 1 { CubeRoot(25, 4, 0xA831C66D, 101); }
    else if i == 2 { CubeRoot(26, 4, 0xB00327C8, 103); }
    else if i == 3 { CubeRoot(27, 4, 0xBF597FC7, 107); }
    else if i == 4 { CubeRoot(28, 4, 0xC6E00BF3, 109); }
    else if i == 5 { CubeRoot(29, 4, 0xD5A79147, 113); }
    else if i == 6 { CubeRoot(30, 5, 0x06CA6351, 127); }
    else { CubeRoot(31, 5, 0x14292967, 131); }
  }

  lemma Roots32(i: nat)
    requires i < 8
    ensures IsCubeRootFraction(K(32 + i) as nat, PRIMES32[i])
  {
    hide IsCubeRootFraction;
    if i == 0 { CubeRoot(32, 5, 0x27B70A85, 137); }
    else if i == 1 { CubeRoot(33, 5, 0x2E1B2138, 139); }
    else if i == 2 { CubeRoot(34, 5, 0x4D2C6DFC, 149); }
    else if i == 3 { CubeRoot(35, 5, 0x53380D13, 151); }
    else if i == 4 { CubeRoot(36, 5, 0x650A7354, 157); }
    else if i == 5 { CubeRoot(37, 5, 0x766A0ABB, 163); }
    else if i == 6 { CubeRoot(38, 5, 0x81C2C92E, 167); }
    else { CubeRoot(39, 5, 0x92722C85, 173); }
  }

  lemma Roots40(i: nat)
    requires i < 8
    ensures IsCubeRootFraction(K(40 + i) as nat, PRIMES40[i])
  {
    hide IsCubeRootFraction;
    if i == 0 { CubeRoot(40, 5, 0xA2BFE8A1, 179); }
    else if i == 1 { CubeRoot(41, 5, 0xA81A664B, 181); }
    else if i == 2 { CubeRoot(42, 5, 0xC24B8B70, 191); }
    else if i == 3 { CubeRoot(43, 5, 0xC76C51A3, 193); }
    else if i == 4 { CubeRoot(44, 5, 0xD192E819, 197); }
    else if i == 5 { CubeRoot(45, 5, 0xD6990624, 199); }
    else if i == 6 { CubeRoot(46, 5, 0xF40E3585, 211); }
    else { CubeRoot(47, 6, 0x106AA070, 223); }
  }

  lemma Roots48(i: nat)
    requires i < 8
    ensures IsCubeRootFraction(K(48 + i) as nat, PRIMES48[i])
  {
    hide IsCubeRootFraction;
    if i == 0 { CubeRoot(48, 6, 0x19A4C116, 227); }
    else if i == 1 { CubeRoot(49, 6, 0x1E376C08, 229); }
    else if i == 2 { CubeRoot(50, 6, 0x2748774C, 233); }
    else if i == 3 { CubeRoot(51, 6, 0x34B0BCB5, 239); }
    else if i == 4 { CubeRoot(52, 6, 0x391C0CB3, 241); }
    else if i == 5 { CubeRoot(53, 6, 0x4ED8AA4A, 251); }
    else if i == 6 { CubeRoot(54, 6, 0x5B9CCA4F, 257); }
    else { CubeRoot(55, 6, 0x682E6FF3, 263); }
  }

  lemma Roots56(i: nat)
    requires i < 8
    ensures IsCubeRootFraction(K(56 + i) as nat, PRIMES56[i])
  {
    hide IsCubeRootFraction;
    if i == 0 { CubeRoot(56, 6, 0x748F82EE, 269); }
    else if i == 1 { CubeRoot(57, 6, 0x78A5636F, 271); }
    else if i == 2 { CubeRoot(58, 6, 0x84C87814, 277); }
    else if i == 3 { CubeRoot(59, 6, 0x8CC70208, 281); }
    else if i == 4 { CubeRoot(60, 6, 0x90BEFFFA, 283); }
    else if i == 5 { CubeRoot(61, 6, 0xA4506CEB, 293); }
    else if i == 6 { CubeRoot(62, 6, 0xBEF9A3F7, 307); }
    else { CubeRoot(63, 6, 0xC67178F2, 311); }
  }

  lemma SquareRoots(i: nat)
    requires i < 8
    ensures IsSquareRootFraction(H0[i] as nat, PRIMES0[i])
  {
    hide IsSquareRootFraction;
    if i == 0 { SquareRoot(0, 1, 0x6A09E667, 2); }
    else if i == 1 { SquareRoot(1, 1, 0xBB67AE85, 3); }
    else if i == 2 { SquareRoot(2, 2, 0x3C6EF372, 5); }
    else if i == 3 { SquareRoot(3, 2, 0xA54FF53A, 7); }
    else if i == 4 { SquareRoot(4, 3, 0x510E527F, 11); }
    else if i == 5 { SquareRoot(5, 3, 0x9B05688C, 13); }
    else if i == 6 { SquareRoot(6, 4, 0x1F83D9AB, 17); }
    else { SquareRoot(7, 4, 0x5BE0CD19, 19); }
  }

  lemma LowerRoots(i: nat)
    requires i < 32
    ensures |LOWER| == 32 && IsCubeRootFraction(K(0 + i) as nat, LOWER[i])
  {
    hide IsCubeRootFraction, K;
    if i < 8 {
      Roots0(i);
    } else if i < 16 {
      Roots8(i - 8);
    } else if i < 24 {
      Roots16(i - 16);
    } else {
      Roots24(i - 24);
    }
  }

  lemma UpperRoots(i: nat)
    requires i < 32
    ensures |UPPER| == 32 && IsCubeRootFraction(K(32 + i) as nat, UPPER[i])
  {
    hide IsCubeRootFraction, K;
    if i < 8 {
      Roots32(i);
    } else if i < 16 {
      Roots40(i - 8);
    } else if i < 24 {
      Roots48(i - 16);
    } else {
      Roots56(i - 24);
    }
  }

  /** Section 4.2.2: the constant of round t is the fraction of the cube root of prime number t; section
      5.3.3: word t of the initial hash value is that of its square root. */
  lemma TablesAreRoots(t: nat)
    requires t < 64
    ensures |PRIMES| == 64 && Consecutive(0, PRIMES)
    ensures IsCubeRootFraction(K(t) as nat, PRIMES[t]) && (t < 8 ==> IsSquareRootFraction(H0[t] as nat, PRIMES[t]))
  {
    hide Consecutive, IsCubeRootFraction, IsSquareRootFraction, K;
    PrimesInOrder();
    if t < 32 { LowerRoots(t); } else { UpperRoots(t - 32); }
    if t < 8 { SquareRoots(t); }
  }
}
