/** The PCG-XSH-RR generator of src/game/prng.cpp: a 64-bit linear congruential generator whose
    state is scrambled into a 32-bit output.  Words are natural numbers with the wrap-around
    written out. */
module Prng {
  import opened Arith
  import opened Bits
  import opened Sequences
  import opened TwoAdic

  const MODULUS: int := 0x1_0000_0000_0000_0000
  const MULTIPLIER: int := 6364136223846793005

  type Word64 = x: int | 0 <= x < MODULUS
  type Word32 = x: int | 0 <= x < WORD32

  function Next(x: Word64, increment: Word64): Word64 {
    (x * MULTIPLIER + increment) % MODULUS
  }

  /** The state after `n` further calls of `RandomBits`. */
  function StateAfter(x: Word64, increment: Word64, n: nat): Word64 {
    if n == 0 then x else Next(StateAfter(x, increment, n - 1), increment)
  }

  function RotateRight32(x: Word32, shift: nat): nat
    requires shift < 32
  {
    Or(Shr(x, shift), Shl(x, (32 - shift) % 32) % WORD32)
  }

  function XorShift18(x: nat): nat {
    Xor(x, Shr(x, 18))
  }

  function Output(x: Word64): nat {
    TopBits(x);
    RotateRight32(Shr(XorShift18(x), 27) % WORD32, Shr(x, 59))
  }

  lemma TopBits(x: Word64)
    ensures Shr(x, 59) < 32
  {
    Pow2Values();
    ShrIsDiv(x, 59);
  }

  lemma DoubledPlusOne(seed: Word64)
    ensures var i := (seed * 2) % MODULUS + 1;
            0 < i < MODULUS && i % 2 == 1 && i / 2 == seed % (MODULUS / 2)
  {
    var half := MODULUS / 2;
    var q, r := seed / half, seed % half;
    DivModUnique(seed * 2, MODULUS, q, 2 * r);
  }

  class CPrng {
    var seeded: bool
    var state: Word64
    var increment: Word64

    constructor ()
      ensures !seeded
    {
      seeded, state, increment := false, 0, 0;
    }

    /** Seeding makes the increment odd, whatever the seed, and runs the generator once. */
    method Seed(seed0: Word64, seed1: Word64)
      modifies this
      ensures seeded
      ensures increment % 2 == 1 && increment / 2 == seed1 % (MODULUS / 2)
      ensures state == Next((seed0 + increment) % MODULUS, increment)
    {
      hide Next;
      DoubledPlusOne(seed1);
      seeded := true;
      increment := (seed1 * 2) % MODULUS + 1;
      state := (seed0 + increment) % MODULUS;
      var bits := RandomBits();
    }

    method RandomBits() returns (bits: nat)
      requires seeded
      modifies this`state
      ensures state == Next(old(state), increment)
      ensures bits == Output(old(state))
    {
      var x: nat := state;
      TopBits(state);
      var count := Shr(x, 59);
      state := (x * MULTIPLIER + increment) % MODULUS;
      x := Xor(x, Shr(x, 18));
      bits := RotateRight32(Shr(x, 27) % WORD32, count);
    }
  }

  // ---- the period ----

  lemma ModShift(y: int, q: int)
    ensures (y + MODULUS * q) % MODULUS == y % MODULUS
  {
    Distribute(MODULUS, y / MODULUS, q);
    DivModUnique(y + MODULUS * q, MODULUS, y / MODULUS + q, y % MODULUS);
  }

  lemma ModStep(y: int, a: int, c: int)
    ensures ((y % MODULUS) * a + c) % MODULUS == (y * a + c) % MODULUS
  {
    var q, r := y / MODULUS, y % MODULUS;
    Distribute(a, MODULUS * q, r);
    Associate(MODULUS, q, a);
    ModShift(r * a + c, q * a);
  }

  lemma ClosedStep(x: int, c: int, p: int, g: int, a: int)
    ensures (p * x + c * g) * a + c == (a * p) * x + c * (a * g + 1)
  {
    Distribute(a, p * x, c * g);
    Associate(a, p, x);
    Associate(c, g, a);
    Distribute(c, a * g, 1);
  }

  lemma {:induction false} StateAfterClosed(x: Word64, c: Word64, d: nat)
    ensures StateAfter(x, c, d) == Sum(x, c, d) % MODULUS
  {
    hide Pow, Geometric, Sum;
    ClosedSums(x, c, d);
    if d > 0 {
      StateAfterClosed(x, c, d - 1);
      ModStep(Sum(x, c, d - 1), MULTIPLIER, c);
    } else {
      DivModUnique(x, MODULUS, 0, x);
    }
  }

  /** The closed form before the remainder is taken. */
  ghost function Sum(x: int, c: int, d: nat): int {
    Pow(MULTIPLIER, d) * x + c * Geometric(MULTIPLIER, d)
  }

  lemma ClosedSums(x: int, c: int, d: nat)
    ensures d == 0 ==> Sum(x, c, d) == x
    ensures d > 0 ==> Sum(x, c, d) == Sum(x, c, d - 1) * MULTIPLIER + c
  {
    if d > 0 {
      var p, g := Pow(MULTIPLIER, d - 1), Geometric(MULTIPLIER, d - 1);
      ClosedStep(x, c, p, g, MULTIPLIER);
    }
  }

  lemma ModZeroIffEqual(x: Word64, z: int)
    ensures (x + z) % MODULUS == x <==> z % MODULUS == 0
  {
    var y := x + z;
    if z % MODULUS == 0 {
      ModShift(x, z / MODULUS);
    }
    if y % MODULUS == x {
      DivModUnique(z, MODULUS, y / MODULUS, 0);
    }
  }

  lemma Excess(x: int, c: int, g: int, b: int)
    ensures (b * g + 1) * x + c * g == x + g * (b * x + c)
  {
    Distribute(x, b * g, 1);
    Distribute(g, b * x, c);
    Associate(g, b, x);
  }

  lemma OddFactor(d: nat, w: nat)
    requires w % 2 == 1
    ensures (Geometric(MULTIPLIER, d) * w) % MODULUS == 0 <==> d % MODULUS == 0
  {
    var g := Geometric(MULTIPLIER, d);
    OddFactorCancels(64, g, w);
    GeometricValuation(MULTIPLIER, 64, d);
    TwoPowerDividesIsMod(64, g * w);
    TwoPowerDividesIsMod(64, d);
    Pow2Values();
  }

  lemma OddStep(x: nat, c: nat, b: nat)
    requires c % 2 == 1 && b % 2 == 0
    ensures (b * x + c) % 2 == 1
  {
    Associate(2, b / 2, x);
    EvenPlus((b / 2) * x, c);
  }

  /** Every d-step move is a multiple of 1 + a + ... + a^(d-1) by an odd factor. */
  lemma StateAfterOffset(x: Word64, c: Word64, d: nat) returns (w: nat)
    requires c % 2 == 1
    ensures w % 2 == 1
    ensures StateAfter(x, c, d) == (x + Geometric(MULTIPLIER, d) * w) % MODULUS
  {
    var b: nat := MULTIPLIER - 1;
    w := b * x + c;
    OddStep(x, c, b);
    StateAfterClosed(x, c, d);
    GeometricClosed(MULTIPLIER, d);
    Excess(x, c, Geometric(MULTIPLIER, d), b);
  }

  /** Full period: with an odd increment the state comes back after d calls exactly when 2^64
      divides d. */
  lemma FullPeriod(x: Word64, c: Word64, d: nat)
    requires c % 2 == 1
    ensures StateAfter(x, c, d) == x <==> d % MODULUS == 0
  {
    hide StateAfter;
    var w := StateAfterOffset(x, c, d);
    ModZeroIffEqual(x, Geometric(MULTIPLIER, d) * w);
    OddFactor(d, w);
  }

  lemma {:induction false} StateAfterAdd(x: Word64, c: Word64, m: nat, n: nat)
    ensures StateAfter(x, c, m + n) == StateAfter(StateAfter(x, c, m), c, n)
  {
    if n > 0 {
      StateAfterAdd(x, c, m, n - 1);
    }
  }

  /** Two points of a run show the same state exactly when their distance is a multiple of 2^64. */
  lemma SameStateIff(x: Word64, c: Word64, i: nat, j: nat)
    requires c % 2 == 1 && i <= j
    ensures StateAfter(x, c, i) == StateAfter(x, c, j) <==> (j - i) % MODULUS == 0
  {
    hide StateAfter;
    StateAfterAdd(x, c, i, j - i);
    FullPeriod(StateAfter(x, c, i), c, j - i);
  }

  // ---- every state is visited exactly once in a period ----

  ghost function Range(n: nat): set<int> {
    if n == 0 then {} else Range(n - 1) + {n - 1}
  }

  lemma {:induction false} RangeSize(n: nat)
    ensures |Range(n)| == n
    ensures forall i :: i in Range(n) <==> 0 <= i < n
  {
    if n > 0 {
      RangeSize(n - 1);
    }
  }

  ghost function Visited(x: Word64, c: Word64, n: nat): set<int> {
    if n == 0 then {} else Visited(x, c, n - 1) + {StateAfter(x, c, n - 1)}
  }

  lemma {:induction false} VisitedIn(x: Word64, c: Word64, n: nat, s: int) returns (i: nat)
    requires s in Visited(x, c, n)
    ensures i < n && StateAfter(x, c, i) == s
  {
    if s == StateAfter(x, c, n - 1) { i := n - 1; } else { i := VisitedIn(x, c, n - 1, s); }
  }

  lemma {:induction false} VisitedSize(x: Word64, c: Word64, n: nat)
    requires c % 2 == 1 && n <= MODULUS
    ensures |Visited(x, c, n)| == n
  {
    hide StateAfter;
    if n > 0 {
      VisitedSize(x, c, n - 1);
      var s := StateAfter(x, c, n - 1);
      if s in Visited(x, c, n - 1) {
        var i := VisitedIn(x, c, n - 1, s);
        SameStateIff(x, c, i, n - 1);
        assert false;
      }
    }
  }

  /** One period visits every 64-bit state (and, by SameStateIff, only once). */
  lemma EveryStateVisited(x: Word64, c: Word64, s: Word64) returns (i: nat)
    requires c % 2 == 1
    ensures i < MODULUS && StateAfter(x, c, i) == s
  {
    hide StateAfter, Visited, Range;
    VisitedSize(x, c, MODULUS);
    RangeSize(MODULUS);
    forall v | v in Visited(x, c, MODULUS) ensures v in Range(MODULUS) {
      var j := VisitedIn(x, c, MODULUS, v);
    }
    SubsetSameSize(Visited(x, c, MODULUS), Range(MODULUS), s);
    i := VisitedIn(x, c, MODULUS, s);
  }
}
