/** The output function of the generator in src/game/prng.cpp is balanced: over one period every
    32-bit value comes out exactly 2^32 times. */
module PrngOutput {
  import opened Arith
  import opened Bits
  import opened Prng

  // ---- rotation is invertible ----

  lemma ShrPlus(q: nat, r: nat, s: nat)
    requires r < Pow2(s)
    ensures Shr(q * Pow2(s) + r, s) == q
  {
    ShrIsDiv(q * Pow2(s) + r, s);
    DivModUnique(q * Pow2(s) + r, Pow2(s), q, r);
  }

  lemma MulBelow(r: nat, a: nat, b: nat)
    requires r < a && b > 0
    ensures 0 <= r * b && r * b + b <= a * b
  {
    Distribute(b, a - 1 - r, r + 1);
    Distribute(b, r, 1);
    MulNonneg(b, a - 1 - r);
    MulNonneg(r, b);
  }

  lemma ShiftOut(q: nat, r: nat, p: nat, t: nat)
    requires p > 0 && t > 0 && r < p && q < t
    ensures 0 <= q * p + r < t * p
    ensures ((q * p + r) * t) % (p * t) == r * t
  {
    MulBelow(q, t, p);
    MulBelow(r, p, t);
    Distribute(t, q * p, r);
    Associate(q, p, t);
    DivModUnique((q * p + r) * t, p * t, q, r * t);
  }

  lemma SplitWord(s: nat)
    requires s <= 32
    ensures Pow2(s) * Pow2(32 - s) == WORD32
  {
    Pow2Values();
    Pow2Add(s, 32 - s);
  }

  lemma ShlOut(v: Word32, q: nat, r: nat, s: nat)
    requires 0 < s < 32 && r < Pow2(s) && q < Pow2(32 - s)
    requires v == q * Pow2(s) + r
    ensures Shl(v, 32 - s) % WORD32 == Shl(r, 32 - s)
  {
    hide Or, Shl, Shr, Pow2;
    SplitWord(s);
    var p, t := Pow2(s), Pow2(32 - s);
    ShlIsMul(v, 32 - s);
    ShlIsMul(r, 32 - s);
    ShiftOut(q, r, p, t);
  }

  /** Rotating right by s swaps the low s bits with the others. */
  lemma RotateValue(v: Word32, q: nat, r: nat, s: nat)
    requires 0 < s < 32 && r < Pow2(s) && q < Pow2(32 - s)
    requires v == q * Pow2(s) + r
    ensures RotateRight32(v, s) == r * Pow2(32 - s) + q
  {
    hide Or, Shl, Shr, Pow2;
    var t := 32 - s;
    ShlOut(v, q, r, s);
    ShrPlus(q, r, s);
    ShlIsMul(r, t);
    OrDisjoint(q, r, t);
    assert RotateRight32(v, s) == Or(q, Shl(r, t));
  }

  lemma Pieces(v: nat, p: nat, t: nat) returns (q: nat, r: nat)
    requires p > 0 && v < p * t
    ensures q < t && r < p && v == q * p + r
  {
    q, r := v / p, v % p;
    QuotientBelow(v, p, t);
  }

  lemma WordPieces(v: Word32, s: nat) returns (q: nat, r: nat)
    requires s <= 32
    ensures q < Pow2(32 - s) && r < Pow2(s) && v == q * Pow2(s) + r
  {
    hide Or, Shl, Shr, Pow2;
    SplitWord(s);
    q, r := Pieces(v, Pow2(s), Pow2(32 - s));
  }

  lemma RotateByZero(v: Word32)
    ensures RotateRight32(v, 0) == v
  {
    OrSelf(v);
  }

  lemma RotateBelow(q: nat, r: nat, s: nat)
    requires s <= 32 && r < Pow2(s) && q < Pow2(32 - s)
    ensures 0 <= r * Pow2(32 - s) + q < WORD32
  {
    hide Or, Shl, Shr, Pow2;
    SplitWord(s);
    ShiftOut(r, q, Pow2(32 - s), Pow2(s));
  }

  lemma RotateInverse(v: Word32, s: nat)
    requires s < 32
    ensures 0 <= RotateRight32(v, s) < WORD32
    ensures RotateRight32(RotateRight32(v, s), (32 - s) % 32) == v
  {
    hide Or, Shl, Shr, Pow2, RotateRight32;
    if s == 0 {
      RotateByZero(v);
    } else {
      var q, r := WordPieces(v, s);
      RotateBelow(q, r, s);
      RotateTwice(v, r * Pow2(32 - s) + q, q, r, s);
    }
  }

  /** The two parts change places twice. */
  lemma RotateTwice(v: Word32, u: Word32, q: nat, r: nat, s: nat)
    requires 0 < s < 32 && r < Pow2(s) && q < Pow2(32 - s)
    requires v == q * Pow2(s) + r && u == r * Pow2(32 - s) + q
    ensures RotateRight32(v, s) == u && RotateRight32(u, 32 - s) == v
  {
    hide Or, Shl, Shr, Pow2, RotateRight32;
    RotateValue(v, q, r, s);
    RotateValue(u, r, q, 32 - s);
  }

  // ---- x ^ (x >> 18) is invertible ----

  function Unshift18(y: nat): nat {
    if y == 0 then 0 else
      ShrSmaller(y);
      Xor(y, Unshift18(Shr(y, 18)))
  }

  lemma ShrSmaller(y: nat)
    requires y > 0
    ensures Shr(y, 18) < y
  {
    Pow2Values();
    ShrIsDiv(y, 18);
  }

  lemma ShrOfZero(n: nat)
    ensures Shr(0, n) == 0
  {
    ShrIsDiv(0, n);
    DivModUnique(0, Pow2(n), 0, 0);
  }

  lemma {:induction false} UnshiftCommutes(y: nat)
    ensures Shr(Unshift18(y), 18) == Unshift18(Shr(y, 18))
  {
    ShrOfZero(18);
    if y > 0 {
      var z := Shr(y, 18);
      ShrSmaller(y);
      UnshiftCommutes(z);
      XorShift(y, Unshift18(z), 18);
      if z == 0 { XorZero(0); }
    }
  }

  lemma XorShiftUnshift(y: nat)
    ensures XorShift18(Unshift18(y)) == y
  {
    UnshiftCommutes(y);
    ShrOfZero(18);
    if y > 0 {
      XorCancels(y, Unshift18(Shr(y, 18)));
    }
  }

  lemma {:induction false} UnshiftXorShift(x: nat)
    ensures Unshift18(XorShift18(x)) == x
  {
    var z := Shr(x, 18);
    ShrOfZero(18);
    if x > 0 {
      ShrSmaller(x);
      UnshiftXorShift(z);
      XorShift(x, z, 18);
      XorCancels(x, z);
      if XorShift18(x) == 0 { XorZero(z); }
    }
  }

  lemma {:induction false} XorBelow(x: nat, y: nat, n: nat)
    requires x < Pow2(n) && y < Pow2(n)
    ensures Xor(x, y) < Pow2(n)
  {
    if n > 0 {
      XorBelow(x / 2, y / 2, n - 1);
    }
  }

  lemma {:induction false} UnshiftBelow(y: nat, n: nat)
    requires y < Pow2(n)
    ensures Unshift18(y) < Pow2(n)
  {
    if y > 0 {
      ShrSmaller(y);
      UnshiftBelow(Shr(y, 18), n);
      XorBelow(y, Unshift18(Shr(y, 18)), n);
    }
  }

  /** The five rotation bits survive the xor-shift. */
  lemma TopBitsSurvive(x: Word64)
    ensures 0 <= XorShift18(x) < MODULUS
    ensures Shr(XorShift18(x), 59) == Shr(x, 59)
  {
    hide Or, Shl, Shr, Pow2, Xor;
    var z := Shr(x, 18);
    Pow2Values();
    if x > 0 { ShrSmaller(x); } else { ShrOfZero(18); }
    XorBelow(x, z, 64);
    XorShift(x, z, 59);
    ShrAdd(x, 18, 59);
    ShrAdd(x, 64, 13);
    ShrIsDiv(x, 64);
    ShrOfZero(13);
    XorZero(Shr(x, 59));
  }

  // ---- outputs ----

  /** The part of a state its output does not determine: the rotation count and the 27 low bits
      after the xor-shift, packed into one 32-bit index. */
  function Residue(x: Word64): nat {
    var y := XorShift18(x);
    Shr(y, 59) * 0x800_0000 + y % 0x800_0000
  }

  /** The one state with output w and residue r. */
  function StateOf(w: Word32, r: Word32): nat {
    var count, low := r / 0x800_0000, r % 0x800_0000;
    var v := RotateRight32(w, (32 - count) % 32);
    Unshift18((count * WORD32 + v) * 0x800_0000 + low)
  }

  lemma Assemble(count: nat, v: nat, low: nat)
    requires count < 32 && v < WORD32 && low < 0x800_0000
    ensures var y := (count * WORD32 + v) * 0x800_0000 + low;
            y < MODULUS && Shr(y, 27) % WORD32 == v && Shr(y, 59) == count && y % 0x800_0000 == low
  {
    hide Or, Shl, Shr, Pow2;
    var y := (count * WORD32 + v) * 0x800_0000 + low;
    Pow2Values();
    ShrPlus(count * WORD32 + v, low, 27);
    ShrPlus(count, v, 32);
    ShrAdd(y, 27, 32);
  }

  lemma OutputOfUnshift(y: Word64, v: Word32, count: nat)
    requires count < 32 && Shr(y, 27) % WORD32 == v && Shr(y, 59) == count
    ensures 0 <= Unshift18(y) < MODULUS
    ensures Output(Unshift18(y)) == RotateRight32(v, count)
    ensures Residue(Unshift18(y)) == count * 0x800_0000 + y % 0x800_0000
  {
    hide Or, Shl, Shr, Pow2, RotateRight32, Unshift18, XorShift18;
    Pow2Values();
    UnshiftBelow(y, 64);
    XorShiftUnshift(y);
    TopBitsSurvive(Unshift18(y));
  }

  lemma RotateBack(w: Word32, count: nat) returns (v: nat)
    requires count < 32
    ensures v == RotateRight32(w, (32 - count) % 32) < WORD32
    ensures RotateRight32(v, count) == w
  {
    hide Or, Shl, Shr, Pow2, RotateRight32;
    var back := (32 - count) % 32;
    v := RotateRight32(w, back);
    RotateInverse(w, back);
    assert (32 - back) % 32 == count;
  }

  lemma StateOfIsRight(w: Word32, r: Word32)
    ensures 0 <= StateOf(w, r) < MODULUS
    ensures Output(StateOf(w, r)) == w && Residue(StateOf(w, r)) == r
  {
    hide Or, Shl, Shr, Pow2, RotateRight32, Unshift18, Output, Residue;
    var count, low := r / 0x800_0000, r % 0x800_0000;
    var v := RotateBack(w, count);
    Assemble(count, v, low);
    var y := (count * WORD32 + v) * 0x800_0000 + low;
    assert StateOf(w, r) == Unshift18(y);
    OutputOfUnshift(y, v, count);
  }

  lemma OutputPieces(x: Word64)
    ensures var y := XorShift18(x);
            Shr(y, 59) < 32 && 0 <= y < MODULUS && Output(x) == RotateRight32(Shr(y, 27) % WORD32, Shr(y, 59))
  {
    TopBitsSurvive(x);
    TopBits(x);
  }

  lemma RotateRoundTrip(v: Word32, count: nat)
    requires count < 32
    ensures 0 <= RotateRight32(v, count) < WORD32
    ensures RotateRight32(RotateRight32(v, count), (32 - count) % 32) == v
  {
    hide Or, Shl, Shr, Pow2, RotateRight32;
    RotateInverse(v, count);
  }

  lemma StateOfPieces(w: Word32, r: Word32, count: nat, v: Word32, low: nat)
    requires count < 32 && low < 0x800_0000
    requires r == count * 0x800_0000 + low && RotateRight32(w, (32 - count) % 32) == v
    ensures StateOf(w, r) == Unshift18((count * WORD32 + v) * 0x800_0000 + low)
  {
    hide Or, Shl, Shr, Pow2, RotateRight32, Unshift18;
    DivModUnique(r, 0x800_0000, count, low);
  }

  lemma StateOfIsOnly(x: Word64)
    ensures 0 <= Output(x) < WORD32 && 0 <= Residue(x) < WORD32
    ensures StateOf(Output(x), Residue(x)) == x
  {
    hide Or, Shl, Shr, Pow2, RotateRight32, Unshift18, StateOf, XorShift18;
    OutputPieces(x);
    var y := XorShift18(x);
    var count, v, low := Shr(y, 59), Shr(y, 27) % WORD32, y % 0x800_0000;
    RotateRoundTrip(v, count);
    StateOfPieces(Output(x), Residue(x), count, v, low);
    Disassemble(y);
    UnshiftXorShift(x);
  }

  lemma Disassemble(y: Word64)
    ensures y == (Shr(y, 59) * WORD32 + Shr(y, 27) % WORD32) * 0x800_0000 + y % 0x800_0000
  {
    hide Or, Shl, Shr, Pow2;
    Pow2Values();
    ShrAdd(y, 27, 32);
    ShrIsDiv(y, 27);
    ShrIsDiv(Shr(y, 27), 32);
  }

  // ---- counting over a period ----

  /** The calls of one period whose output is w, for the first n residues. */
  ghost predicate EmittedAt(x: Word64, c: Word64, w: Word32, n: nat, d: nat) {
    d < MODULUS && Output(StateAfter(x, c, d)) == w && Residue(StateAfter(x, c, d)) < n
  }

  lemma EmissionUnique(x: Word64, c: Word64, w: Word32, r: Word32, d: nat, e: nat)
    requires c % 2 == 1 && d < MODULUS && e < MODULUS
    requires 0 <= StateOf(w, r) < MODULUS && StateAfter(x, c, e) == StateOf(w, r)
    requires Output(StateAfter(x, c, d)) == w && Residue(StateAfter(x, c, d)) == r
    ensures d == e
  {
    hide Or, Shl, Shr, Pow2, RotateRight32, Unshift18, StateOf, Output, Residue, StateAfter;
    StateOfIsOnly(StateAfter(x, c, d));
    if d < e { SameStateIff(x, c, d, e); } else { SameStateIff(x, c, e, d); }
  }

  lemma {:induction false} EmissionsBelow(x: Word64, c: Word64, w: Word32, n: nat) returns (s: set<nat>)
    requires c % 2 == 1 && n <= WORD32
    ensures |s| == n
    ensures forall d: nat :: d in s <==> EmittedAt(x, c, w, n, d)
  {
    hide Or, Shl, Shr, Pow2, RotateRight32, Unshift18, StateOf, Output, Residue, StateAfter;
    s := {};
    if n > 0 {
      var t := EmissionsBelow(x, c, w, n - 1);
      StateOfIsRight(w, n - 1);
      var e := EveryStateVisited(x, c, StateOf(w, n - 1));
      s := t + {e};
      assert EmittedAt(x, c, w, n, e) && !EmittedAt(x, c, w, n - 1, e);
      forall d: nat | EmittedAt(x, c, w, n, d) && !EmittedAt(x, c, w, n - 1, d) ensures d == e {
        EmissionUnique(x, c, w, n - 1, d, e);
      }
      assert forall d: nat :: EmittedAt(x, c, w, n - 1, d) ==> EmittedAt(x, c, w, n, d);
    } else {
      assert forall d: nat :: !EmittedAt(x, c, w, n, d);
    }
  }

  /** Over one period every 32-bit value is produced by exactly 2^32 of the 2^64 calls. */
  lemma EveryOutputEquallyOften(x: Word64, c: Word64, w: Word32) returns (s: set<nat>)
    requires c % 2 == 1
    ensures |s| == 0x1_0000_0000
    ensures forall d: nat :: d in s <==> d < MODULUS && Output(StateAfter(x, c, d)) == w
  {
    s := EmissionsBelow(x, c, w, WORD32);
    forall d: nat | d < MODULUS ensures Residue(StateAfter(x, c, d)) < WORD32 {
      StateOfIsOnly(StateAfter(x, c, d));
    }
  }
}
