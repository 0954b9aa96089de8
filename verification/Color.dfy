/** The colour conversions of src/base/color.h, over the reals. */
module Color {
  import opened Arith

  datatype Rgb = Rgb(r: real, g: real, b: real)

  datatype Hsl = Hsl(h: real, s: real, l: real)

  function Min2(x: real, y: real): real { if x < y then x else y }

  function Max2(x: real, y: real): real { if x > y then x else y }

  function Minimum(c: Rgb): real { Min2(Min2(c.r, c.g), c.b) }

  function Maximum(c: Rgb): real { Max2(Max2(c.r, c.g), c.b) }

  /** 1 - |2 l - 1| */
  function Width(l: real): real { 1.0 - Abs(2.0 * l - 1.0) }

  /** fmod(x, 2) */
  function Mod2(x: real): real { x - 2.0 * Truncate(x / 2.0) as real }

  /** Six times the hue. */
  function Sextant(c: Rgb): real {
    var lo, hi := Minimum(c), Maximum(c);
    if hi == lo then 0.0
    else if hi == c.r then (c.g - c.b) / (hi - lo) + if c.g < c.b then 6.0 else 0.0
    else if hi == c.g then (c.b - c.r) / (hi - lo) + 2.0
    else (c.r - c.g) / (hi - lo) + 4.0
  }

  /** RgbToHue */
  function RgbToHue(c: Rgb): real { Sextant(c) / 6.0 }

  predicate InRange(c: Rgb) {
    0.0 <= c.r <= 1.0 && 0.0 <= c.g <= 1.0 && 0.0 <= c.b <= 1.0
  }

  lemma Denominator(lo: real, hi: real)
    requires 0.0 <= lo <= hi <= 1.0 && hi != 0.0 && lo != 1.0
    ensures Width(0.5 * (hi + lo)) >= hi - lo
    ensures Width(0.5 * (hi + lo)) > 0.0
  {
  }

  /** color_cast from RGB to HSL */
  function ToHsl(c: Rgb): Hsl
    requires InRange(c)
  {
    var lo, hi := Minimum(c), Maximum(c);
    var chroma, l := hi - lo, 0.5 * (hi + lo);
    var s := if hi != 0.0 && lo != 1.0 then
               Denominator(lo, hi);
               chroma / Width(l)
             else 0.0;
    Hsl(RgbToHue(c), s, l)
  }

  /** The sector of the color wheel: what the switch adds to each component. */
  function Sector(n: int, c: real, x: real): Rgb {
    match n
    case 0 => Rgb(c, x, 0.0)
    case 1 => Rgb(x, c, 0.0)
    case 2 => Rgb(0.0, c, x)
    case 3 => Rgb(0.0, x, c)
    case 4 => Rgb(x, 0.0, c)
    case 5 => Rgb(c, 0.0, x)
    case 6 => Rgb(c, 0.0, x)
    case _ => Rgb(0.0, 0.0, 0.0)
  }

  function Chroma(h: Hsl): real { Width(h.l) * h.s }

  function Second(c: real, h1: real): real { c * (1.0 - Abs(Mod2(h1) - 1.0)) }

  /** color_cast from HSL to RGB */
  function ToRgb(h: Hsl): Rgb {
    var h1 := h.h * 6.0;
    var c := Chroma(h);
    var x := Second(c, h1);
    var p := Sector(Truncate(h1), c, x);
    var m := h.l - c / 2.0;
    Rgb(p.r + m, p.g + m, p.b + m)
  }

  // ---- RGB to HSL and back ----

  lemma DivMul(a: real, c: real)
    requires c != 0.0
    ensures a / c * c == a && c * (a / c) == a
  {
  }

  lemma DivSelf(c: real)
    requires c != 0.0
    ensures c / c == 1.0
  {
  }

  lemma QuotientRange(a: real, c: real)
    requires c > 0.0
    ensures 0.0 <= a <= c ==> 0.0 <= a / c <= 1.0
    ensures 0.0 < a ==> 0.0 < a / c
    ensures a < c ==> a / c < 1.0
    ensures a == c ==> a / c == 1.0
  {
    DivSelf(c);
    var q := a / c;
    DivMul(a, c);
    if q > 1.0 { Scale(q - 1.0, c); }
    if q < 0.0 { Scale(-q, c); }
  }

  lemma Scale(q: real, c: real)
    requires q > 0.0 && c > 0.0
    ensures q * c > 0.0
  {
  }

  lemma FloorIs(x: real, n: int)
    requires n as real <= x < n as real + 1.0
    ensures x.Floor == n
  {
  }

  /** The fractional value x of the conversion in each sector. */
  lemma Ramp(h1: real, n: int)
    requires 0 <= n <= 5 && n as real <= h1 < n as real + 1.0
    ensures Truncate(h1) == n
    ensures 1.0 - Abs(Mod2(h1) - 1.0) == if n % 2 == 0 then h1 - n as real else n as real + 1.0 - h1
  {
    FloorIs(h1, n);
    FloorIs(h1 / 2.0, n / 2);
  }

  /** Where the sextant of a color lies, with the share of the middle component. */
  datatype Place = Place(n: int, middle: real)

  ghost function PlaceOf(c: Rgb): Place {
    if c.r >= c.g && c.r >= c.b then
      if c.g < c.b then Place(5, c.b - c.g)
      else if c.g < c.r then Place(0, c.g - c.b) else Place(1, c.r - c.b)
    else if c.g >= c.b then
      if c.r > c.b then Place(1, c.r - c.b)
      else if c.b < c.g then Place(2, c.b - c.r) else Place(3, c.g - c.r)
    else if c.g > c.r then Place(3, c.g - c.r)
    else Place(4, c.r - c.g)
  }

  /** The sextant and the sector it falls in. */
  lemma SextantPlace(c: Rgb)
    requires Maximum(c) != Minimum(c)
    ensures var p, chroma := PlaceOf(c), Maximum(c) - Minimum(c);
            && 0 <= p.n <= 5 && p.n as real <= Sextant(c) < p.n as real + 1.0 && chroma > 0.0
            && p.middle / chroma == if p.n % 2 == 0 then Sextant(c) - p.n as real else p.n as real + 1.0 - Sextant(c)
  {
    var chroma := Maximum(c) - Minimum(c);
    QuotientRange(c.g - c.b, chroma);
    QuotientRange(c.b - c.g, chroma);
    QuotientRange(c.b - c.r, chroma);
    QuotientRange(c.r - c.b, chroma);
    QuotientRange(c.r - c.g, chroma);
    QuotientRange(c.g - c.r, chroma);
    NegQuotient(c.g - c.b, chroma);
    NegQuotient(c.b - c.r, chroma);
    NegQuotient(c.r - c.g, chroma);
  }

  lemma NegQuotient(a: real, c: real)
    requires c != 0.0
    ensures (-a) / c == -(a / c)
  {
  }

  /** The two outer components follow from the place. */
  lemma PlaceRestores(c: Rgb)
    requires Maximum(c) != Minimum(c)
    ensures var p, chroma, lo := PlaceOf(c), Maximum(c) - Minimum(c), Minimum(c);
            var q := Sector(p.n, chroma, p.middle);
            Rgb(q.r + lo, q.g + lo, q.b + lo) == c
  {
  }

  /** Hue in [0, 1), saturation and lightness in [0, 1]. */
  lemma HslRange(c: Rgb)
    requires InRange(c)
    ensures var h := ToHsl(c); 0.0 <= h.h < 1.0 && 0.0 <= h.s <= 1.0 && 0.0 <= h.l <= 1.0
  {
    hide RgbToHue;
    var lo, hi := Minimum(c), Maximum(c);
    HueRange(c);
    if hi != 0.0 && lo != 1.0 {
      Denominator(lo, hi);
      QuotientRange(hi - lo, Width(0.5 * (hi + lo)));
    }
  }

  lemma HueRange(c: Rgb)
    ensures 0.0 <= RgbToHue(c) < 1.0
  {
    if Maximum(c) != Minimum(c) {
      hide Sextant;
      SextantPlace(c);
    }
  }

  lemma Extremes(c: Rgb)
    requires InRange(c)
    ensures 0.0 <= Minimum(c) <= Maximum(c) <= 1.0
  {
  }

  /** The chroma comes back from lightness and saturation. */
  lemma ChromaBack(c: Rgb)
    requires InRange(c)
    ensures var h, chroma := ToHsl(c), Maximum(c) - Minimum(c);
            Chroma(h) == chroma && h.l - chroma / 2.0 == Minimum(c)
  {
    hide RgbToHue, Minimum, Maximum, Width;
    var lo, hi := Minimum(c), Maximum(c);
    Extremes(c);
    if hi != 0.0 && lo != 1.0 {
      Denominator(lo, hi);
      DivMul(hi - lo, Width(0.5 * (hi + lo)));
    }
  }

  lemma ToRgbParts(h: Hsl, chroma: real, lo: real, n: int, x: real)
    requires Chroma(h) == chroma && h.l - chroma / 2.0 == lo
    requires Truncate(h.h * 6.0) == n && Second(chroma, h.h * 6.0) == x
    ensures var p := Sector(n, chroma, x); ToRgb(h) == Rgb(p.r + lo, p.g + lo, p.b + lo)
  {
    hide Sector, Chroma, Second, Truncate;
  }

  /** The ramp of a color is its middle component, less the least one. */
  lemma RampIsMiddle(c: Rgb)
    requires Maximum(c) != Minimum(c)
    ensures var chroma, p := Maximum(c) - Minimum(c), PlaceOf(c);
            Truncate(Sextant(c)) == p.n && Second(chroma, Sextant(c)) == p.middle
  {
    hide Sextant, PlaceOf, Mod2, Truncate, Abs;
    SextantPlace(c);
    Ramp(Sextant(c), PlaceOf(c).n);
    DivMul(PlaceOf(c).middle, Maximum(c) - Minimum(c));
  }

  /** Converting to HSL and back is the identity. */
  lemma RgbRoundTrip(c: Rgb)
    requires InRange(c)
    ensures ToRgb(ToHsl(c)) == c
  {
    hide Sextant, PlaceOf, Mod2, Truncate, ToHsl, Abs, Sector, Maximum, Minimum, Chroma;
    var h, chroma, lo := ToHsl(c), Maximum(c) - Minimum(c), Minimum(c);
    ChromaBack(c);
    HueOf(c);
    if chroma == 0.0 {
      GrayHue(c);
      Ramp(Sextant(c), 0);
      ToRgbParts(h, chroma, lo, 0, 0.0);
      GraySector();
    } else {
      var p := PlaceOf(c);
      RampIsMiddle(c);
      ToRgbParts(h, chroma, lo, p.n, p.middle);
      PlaceRestores(c);
    }
  }

  lemma GraySector()
    ensures Sector(0, 0.0, 0.0) == Rgb(0.0, 0.0, 0.0)
  {
  }

  lemma HueOf(c: Rgb)
    requires InRange(c)
    ensures ToHsl(c).h * 6.0 == Sextant(c)
  {
  }

  lemma GrayHue(c: Rgb)
    requires Maximum(c) == Minimum(c)
    ensures Sextant(c) == 0.0 && c == Rgb(Minimum(c), Minimum(c), Minimum(c))
  {
  }

  // ---- HSL to RGB and back ----

  predicate IsColorful(h: Hsl) {
    0.0 <= h.h < 1.0 && 0.0 < h.s <= 1.0 && 0.0 < h.l < 1.0
  }

  lemma ChromaIsProduct(h: Hsl)
    ensures Chroma(h) == Width(h.l) * h.s
  {
    hide Width;
  }

  lemma ChromaFrom(h: Hsl, w: real)
    requires w == Width(h.l) && w > 0.0 && 0.0 < h.s <= 1.0
    ensures 0.0 < Chroma(h) <= w && Chroma(h) / w == h.s
  {
    hide Width, Chroma;
    ChromaIsProduct(h);
    RampRange(Width(h.l), h.s);
  }

  lemma LightnessWidth(l: real)
    requires 0.0 < l < 1.0
    ensures var w := Width(l); 0.0 < w <= 2.0 * l && w <= 2.0 - 2.0 * l
  {
  }

  lemma QuotientOfProduct(w: real, s: real)
    requires w != 0.0
    ensures w * s / w == s && s * w / w == s
  {
  }

  lemma RampRange(c: real, f: real)
    requires c > 0.0 && 0.0 <= f <= 1.0
    ensures 0.0 <= c * f <= c && c * f / c == f
    ensures f < 1.0 ==> c * f < c
    ensures f > 0.0 ==> c * f > 0.0
    ensures f == 1.0 ==> c * f == c
  {
    if f > 0.0 { Scale(f, c); }
    if f < 1.0 { Scale(1.0 - f, c); }
    QuotientOfProduct(c, f);
  }

  lemma SameQuotient(a: real, b: real, c: real, d: real)
    requires a == b && c == d && c != 0.0
    ensures a / c == b / d
  {
  }

  lemma SectorExtremes(n: int, c: real, x: real, m: real)
    requires 0 <= n <= 5 && 0.0 <= x <= c
    ensures var p := Sector(n, c, x);
            var rgb := Rgb(p.r + m, p.g + m, p.b + m);
            Minimum(rgb) == m && Maximum(rgb) == m + c
  {
  }

  /** A color built in sector n has its sextant at h1. */
  lemma SextantFrom(rgb: Rgb, n: int, c: real, x: real, f: real, m: real, h1: real)
    requires 0 <= n <= 5 && c > 0.0 && n as real <= h1 < n as real + 1.0
    requires f == if n % 2 == 0 then h1 - n as real else n as real + 1.0 - h1
    requires 0.0 <= x <= c && x / c == f && (f < 1.0 ==> x < c) && (f > 0.0 ==> x > 0.0) && (f == 1.0 ==> x == c)
    requires var p := Sector(n, c, x); rgb == Rgb(p.r + m, p.g + m, p.b + m)
    requires Minimum(rgb) == m && Maximum(rgb) == m + c
    ensures Sextant(rgb) == h1
  {
    hide Minimum, Maximum;
    var d := Maximum(rgb) - Minimum(rgb);
    NegQuotient(x, c);
    if n == 0 || (n == 1 && x == c) {
      SameQuotient(rgb.g - rgb.b, x, d, c);
    } else if n == 5 {
      SameQuotient(rgb.g - rgb.b, -x, d, c);
    } else if n == 1 {
      SameQuotient(rgb.b - rgb.r, -x, d, c);
    } else if n == 2 || (n == 3 && x == c) {
      SameQuotient(rgb.b - rgb.r, x, d, c);
    } else if n == 3 {
      SameQuotient(rgb.r - rgb.g, -x, d, c);
    } else {
      SameQuotient(rgb.r - rgb.g, x, d, c);
    }
  }

  lemma ToHslParts(rgb: Rgb, lo: real, hi: real, h1: real)
    requires InRange(rgb) && Minimum(rgb) == lo && Maximum(rgb) == hi && Sextant(rgb) == h1 && hi != 0.0 && lo != 1.0
    ensures Width(0.5 * (hi + lo)) != 0.0
    ensures ToHsl(rgb) == Hsl(h1 / 6.0, (hi - lo) / Width(0.5 * (hi + lo)), 0.5 * (hi + lo))
  {
    hide Sextant, Width;
    assert lo <= hi;
    Denominator(lo, hi);
  }

  lemma SecondFrom(c: real, h1: real, f: real)
    requires c > 0.0 && 0.0 <= f <= 1.0 && 1.0 - Abs(Mod2(h1) - 1.0) == f
    ensures var x := Second(c, h1);
            0.0 <= x <= c && x / c == f && (f < 1.0 ==> x < c) && (f > 0.0 ==> x > 0.0) && (f == 1.0 ==> x == c)
  {
    hide Mod2, Abs;
    RampRange(c, f);
  }

  /** A color with some saturation that is neither black nor white survives the way to RGB and back. */
  lemma HslRoundTrip(h: Hsl)
    requires IsColorful(h)
    ensures InRange(ToRgb(h)) && ToHsl(ToRgb(h)) == h
  {
    hide Sextant, Mod2, Truncate, Abs, Width, Sector, Chroma, Second, ToRgb, ToHsl;
    var w, h1, c, m := Width(h.l), h.h * 6.0, Chroma(h), h.l - Chroma(h) / 2.0;
    LightnessWidth(h.l);
    ChromaFrom(h, w);
    var n := h1.Floor;
    Ramp(h1, n);
    var f := if n % 2 == 0 then h1 - n as real else n as real + 1.0 - h1;
    SecondFrom(c, h1, f);
    var x := Second(c, h1);
    ToRgbParts(h, c, m, n, x);
    var rgb := ToRgb(h);
    SectorExtremes(n, c, x, m);
    SextantFrom(rgb, n, c, x, f, m, h1);
    assert 0.0 <= Minimum(rgb) && Maximum(rgb) <= 1.0;
    ToHslParts(rgb, m, m + c, h1);
    assert 0.5 * (m + c + m) == h.l;
  }

  // ---- the wheel ----

  /** The wheel begins with red. */
  lemma Red()
    ensures ToHsl(Rgb(1.0, 0.0, 0.0)) == Hsl(0.0, 1.0, 0.5)
  {
    DivSelf(1.0);
  }

  /** A sixth of the wheel further lies yellow. */
  lemma Yellow()
    ensures ToHsl(Rgb(1.0, 1.0, 0.0)) == Hsl(1.0 / 6.0, 1.0, 0.5)
  {
    DivSelf(1.0);
  }

  /** The components moved on by one place: the new green is the old red. */
  function MovedOn(c: Rgb): Rgb { Rgb(c.b, c.r, c.g) }

  lemma MovedExtremes(c: Rgb)
    ensures Maximum(MovedOn(c)) == Maximum(c) && Minimum(MovedOn(c)) == Minimum(c)
  {
  }

  lemma MovedSextant(c: Rgb)
    requires Minimum(c) != Maximum(c)
    ensures Sextant(MovedOn(c)) == if Sextant(c) < 4.0 then Sextant(c) + 2.0 else Sextant(c) - 4.0
  {
    var chroma := Maximum(c) - Minimum(c);
    MovedExtremes(c);
    QuotientRange(c.g - c.b, chroma);
    QuotientRange(c.b - c.g, chroma);
    QuotientRange(c.b - c.r, chroma);
    QuotientRange(c.r - c.b, chroma);
    QuotientRange(c.r - c.g, chroma);
    QuotientRange(c.g - c.r, chroma);
    NegQuotient(c.g - c.b, chroma);
    NegQuotient(c.b - c.r, chroma);
    NegQuotient(c.r - c.g, chroma);
  }

  /** Moving the components on goes a third round the wheel and changes nothing else. */
  lemma ThirdTurn(c: Rgb)
    requires InRange(c) && Minimum(c) != Maximum(c)
    ensures var h, h' := ToHsl(c), ToHsl(MovedOn(c));
            && h'.s == h.s && h'.l == h.l
            && h'.h == if h.h + 1.0 / 3.0 < 1.0 then h.h + 1.0 / 3.0 else h.h + 1.0 / 3.0 - 1.0
  {
    hide Width, Sextant;
    MovedExtremes(c);
    MovedSextant(c);
  }
}
