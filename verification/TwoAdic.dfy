/** Divisibility by powers of two of the sums 1 + a + ... + a^(d-1). */
module TwoAdic {
  import opened Arith

  /** 2^k divides n. */
  ghost predicate TwoPowerDivides(k: nat, n: nat) {
    k == 0 || (n % 2 == 0 && TwoPowerDivides(k - 1, n / 2))
  }

  lemma DoubledDivMod(m: nat, q: nat, r: nat, b: nat)
    requires m > 0 && r < m && b < 2
    ensures (2 * (m * q + r) + b) % (2 * m) == 2 * r + b
  {
    Associate(2, m, q);
    DivModUnique(2 * (m * q + r) + b, 2 * m, q, 2 * r + b);
  }

  lemma Halves(x: nat, b: nat)
    requires b < 2
    ensures (2 * x + b) / 2 == x && (2 * x + b) % 2 == b
  {
  }

  lemma DoubledMod(x: nat, b: nat, m: nat)
    requires m > 0 && b < 2
    ensures (2 * x + b) % (2 * m) == 0 <==> b == 0 && x % m == 0
  {
    var q, r := Division(x, m);
    DoubledDivMod(m, q, r, b);
  }

  lemma {:induction false} TwoPowerDividesIsMod(k: nat, n: nat)
    ensures TwoPowerDivides(k, n) <==> n % Pow2(k) == 0
  {
    if k > 0 {
      TwoPowerDividesIsMod(k - 1, n / 2);
      Halves(n / 2, n % 2);
      DoubledMod(n / 2, n % 2, Pow2(k - 1));
    }
  }

  lemma TimesOdd(s: nat, w: nat)
    requires w % 2 == 1
    ensures s * w == 2 * (s * (w / 2)) + s
    ensures s % 2 == 0 ==> s * w == 2 * ((s / 2) * w)
  {
    var h := w / 2;
    Distribute(s, 2 * h, 1);
    Associate(s, h, 2);
    if s % 2 == 0 {
      Associate(2, s / 2, w);
    }
  }

  lemma OddParity(s: nat, w: nat)
    requires w % 2 == 1
    ensures (s * w) % 2 == s % 2 && (s % 2 == 0 ==> s * w / 2 == (s / 2) * w)
  {
    TimesOdd(s, w);
    MulNonneg(s, w / 2);
    if s % 2 == 0 {
      MulNonneg(s / 2, w);
      Halves((s / 2) * w, 0);
    } else {
      OddSum(s * (w / 2), s);
    }
  }

  lemma OddSum(x: nat, s: nat)
    requires s % 2 == 1
    ensures (2 * x + s) % 2 == 1
  {
  }

  lemma {:induction false} OddFactorCancels(k: nat, s: nat, w: nat)
    requires w % 2 == 1
    ensures TwoPowerDivides(k, s * w) <==> TwoPowerDivides(k, s)
  {
    MulNonneg(s, w);
    if k > 0 {
      OddParity(s, w);
      if s % 2 == 0 {
        OddFactorCancels(k - 1, s / 2, w);
      }
    }
  }

  /** 1 + a + ... + a^(d-1) */
  ghost function Geometric(a: nat, d: nat): nat {
    if d == 0 then 0 else a * Geometric(a, d - 1) + 1
  }

  lemma {:induction false} GeometricClosed(a: nat, d: nat)
    requires a >= 1
    ensures Pow(a, d) == (a - 1) * Geometric(a, d) + 1
  {
    if d > 0 {
      GeometricClosed(a, d - 1);
      var g := Geometric(a, d - 1);
      var b := a - 1;
      Distribute(a, b * g, 1);
      Associate(a, b, g);
      Associate(b, a, g);
      Distribute(b, a * g, 1);
    }
  }

  lemma {:induction false} GeometricAdd(a: nat, d: nat, e: nat)
    ensures Geometric(a, d + e) == Pow(a, e) * Geometric(a, d) + Geometric(a, e)
  {
    if e > 0 {
      GeometricAdd(a, d, e - 1);
      var p, g, h := Pow(a, e - 1), Geometric(a, d), Geometric(a, e - 1);
      Distribute(a, p * g, h);
      Associate(a, p, g);
    }
  }

  lemma {:induction false} PowMod4(a: nat, d: nat)
    requires a % 4 == 1
    ensures Pow(a, d) % 4 == 1
  {
    if d > 0 {
      PowMod4(a, d - 1);
      var p, q, r := Pow(a, d - 1), Pow(a, d - 1) / 4, a / 4;
      Distribute(a, 4 * q, 1);
      Associate(a, q, 4);
      DivModUnique(a * p, 4, a * q + r, 1);
    }
  }

  lemma EvenPlus(t: int, r: int)
    ensures (2 * t + r) % 2 == r % 2
  {
  }

  lemma OddTimesPlusOne(a: nat, g: nat)
    requires a % 2 == 1
    ensures (a * g + 1) % 2 == (g + 1) % 2
  {
    TimesOdd(g, a);
    EvenPlus(g * (a / 2), g + 1);
  }

  lemma {:induction false} GeometricParity(a: nat, d: nat)
    requires a % 2 == 1
    ensures Geometric(a, d) % 2 == d % 2
  {
    hide Geometric;
    GeometricNext(a, d);
    if d > 0 {
      GeometricParity(a, d - 1);
      OddTimesPlusOne(a, Geometric(a, d - 1));
      NextParity(Geometric(a, d - 1), d - 1);
    }
  }

  lemma GeometricNext(a: nat, d: nat)
    ensures d == 0 ==> Geometric(a, d) == 0
    ensures d > 0 ==> Geometric(a, d) == a * Geometric(a, d - 1) + 1
  {
  }

  lemma NextParity(x: nat, y: nat)
    requires x % 2 == y % 2
    ensures (x + 1) % 2 == (y + 1) % 2
  {
  }

  lemma HalveSum(a: nat, e: nat)
    requires a % 4 == 1
    ensures Pow(a, e) % 2 == 1 && ((Pow(a, e) + 1) / 2) % 2 == 1
    ensures Geometric(a, e + e) == 2 * (Geometric(a, e) * ((Pow(a, e) + 1) / 2))
  {
    hide Pow, Geometric;
    GeometricAdd(a, e, e);
    PowMod4(a, e);
    OddPower(Pow(a, e));
    HalfProduct(Pow(a, e), Geometric(a, e), (Pow(a, e) + 1) / 2);
  }

  lemma OddPower(p: nat)
    requires p % 4 == 1
    ensures p % 2 == 1 && ((p + 1) / 2) % 2 == 1 && p == 2 * ((p + 1) / 2) - 1
  {
    var h, b := Division(p, 4);
    Halves(2 * h, 1);
    Halves(2 * h + 1, 0);
    Halves(h, 1);
  }

  lemma HalfProduct(p: int, g: int, u: int)
    requires p == 2 * u - 1
    ensures p * g + g == 2 * (g * u)
  {
    Distribute(g, p, 1);
    Associate(2, u, g);
  }

  lemma SmallDivides(k: nat, n: nat)
    ensures k == 0 ==> TwoPowerDivides(k, n)
    ensures k > 0 && n % 2 == 1 ==> !TwoPowerDivides(k, n)
  {
  }

  lemma TwiceDivides(k: nat, n: nat)
    requires k > 0
    ensures TwoPowerDivides(k, 2 * n) <==> TwoPowerDivides(k - 1, n)
  {
  }

  lemma HalveDivides(a: nat, k: nat, e: nat)
    requires a % 4 == 1 && k > 0
    ensures TwoPowerDivides(k, Geometric(a, e + e)) <==> TwoPowerDivides(k - 1, Geometric(a, e))
  {
    hide Pow, Geometric, TwoPowerDivides;
    HalveSum(a, e);
    var g, u := Geometric(a, e), (Pow(a, e) + 1) / 2;
    MulNonneg(g, u);
    TwiceDivides(k, g * u);
    OddFactorCancels(k - 1, g, u);
  }

  /** 1 + a + ... + a^(d-1) is divisible by exactly the powers of two that divide d. */
  lemma {:induction false} GeometricValuation(a: nat, k: nat, d: nat)
    requires a % 4 == 1
    ensures TwoPowerDivides(k, Geometric(a, d)) <==> TwoPowerDivides(k, d)
    decreases k
  {
    hide Pow, Geometric, TwoPowerDivides;
    SmallDivides(k, d);
    SmallDivides(k, Geometric(a, d));
    if k > 0 {
      GeometricParity(a, d);
      var e := d / 2;
      if d == e + e {
        TwiceDivides(k, e);
        HalveDivides(a, k, e);
        GeometricValuation(a, k - 1, e);
      }
    }
  }
}
