/** Box movement against the tile map, src/game/collision.cpp.  Floating-point results are taken
    through a rounding function `fl` that may be anything; statements about lengths take it to be
    exact. */
module MoveBox {
  import opened Arith

  datatype Vec = Vec(x: real, y: real)

  /** The tiles of the map: width by height of 32 by 32 units each. */
  datatype TileMap = TileMap(width: int, height: int, tiles: seq<int>) {
    ghost predicate Valid() { width > 0 && height > 0 && |tiles| == height * width }
  }

  const TILE_SOLID := 1
  const TILE_NOHOOK := 3
  const TILE_NOLASER := 4

  /** Division of ints truncates towards zero. */
  function TruncDiv(a: int, b: int): int
    requires b > 0
  {
    if a >= 0 then a / b else -((-a) / b)
  }

  /** round_to_int */
  function RoundToInt(f: real): int { if f > 0.0 then Truncate(f + 0.5) else Truncate(f - 0.5) }

  function TileColumn(g: TileMap, x: real): int { Clamp(TruncDiv(RoundToInt(x), 32), 0, g.width - 1) }

  function TileRow(g: TileMap, y: real): int { Clamp(TruncDiv(RoundToInt(y), 32), 0, g.height - 1) }

  lemma TileInside(g: TileMap, c: int, r: int)
    requires g.Valid() && 0 <= c < g.width && 0 <= r < g.height
    ensures 0 <= r * g.width + c < |g.tiles|
  {
    MulNonneg(r, g.width);
    MulNonneg(g.height - 1 - r, g.width);
    Distribute(g.width, g.height - 1 - r, r + 1);
    Distribute(g.width, r, 1);
  }

  /** IsSolid of a tile, through GetTile. */
  function SolidTile(g: TileMap, c: int, r: int): bool
    requires g.Valid() && 0 <= c < g.width && 0 <= r < g.height
  {
    TileInside(g, c, r);
    var index := g.tiles[r * g.width + c];
    var tile := if TILE_SOLID <= index <= TILE_NOLASER then index else 0;
    tile == TILE_SOLID || tile == TILE_NOHOOK
  }

  /** CheckPoint */
  predicate CheckPoint(g: TileMap, x: real, y: real)
    requires g.Valid()
  {
    SolidTile(g, TileColumn(g, x), TileRow(g, y))
  }

  /** TestBox: the four corners. */
  predicate TestBox(g: TileMap, fl: real -> real, pos: Vec, size: Vec)
    requires g.Valid()
  {
    var w, h := fl(size.x * 0.5), fl(size.y * 0.5);
    CheckPoint(g, fl(pos.x - w), fl(pos.y - h)) || CheckPoint(g, fl(pos.x + w), fl(pos.y - h)) ||
    CheckPoint(g, fl(pos.x - w), fl(pos.y + h)) || CheckPoint(g, fl(pos.x + w), fl(pos.y + h))
  }

  function Exact(r: real): real { r }

  // ---- four corners are enough ----

  lemma RoundNear(f: real)
    ensures f - 0.5 <= RoundToInt(f) as real <= f + 0.5
  {
  }

  lemma RoundMonotone(f: real, h: real)
    requires f <= h
    ensures RoundToInt(f) <= RoundToInt(h)
  {
  }

  lemma TruncDivMonotone(a: int, b: int)
    requires a <= b
    ensures TruncDiv(a, 32) <= TruncDiv(b, 32)
    ensures b <= a + 32 ==> TruncDiv(b, 32) <= TruncDiv(a, 32) + 1
  {
  }

  /** Between two coordinates at most 31 apart lies no tile but theirs. */
  lemma NoTileBetween(x0: real, x: real, x1: real, n: int)
    requires x0 <= x <= x1 <= x0 + 31.0 && n > 0
    ensures var t := (v: real) => Clamp(TruncDiv(RoundToInt(v), 32), 0, n - 1);
            t(x) == t(x0) || t(x) == t(x1)
  {
    hide RoundToInt;
    RoundMonotone(x0, x);
    RoundMonotone(x, x1);
    RoundNear(x0);
    RoundNear(x1);
    hide TruncDiv;
    TruncDivMonotone(RoundToInt(x0), RoundToInt(x));
    TruncDivMonotone(RoundToInt(x), RoundToInt(x1));
    TruncDivMonotone(RoundToInt(x0), RoundToInt(x1));
  }

  predicate InBox(pos: Vec, size: Vec, x: real, y: real) {
    pos.x - size.x * 0.5 <= x <= pos.x + size.x * 0.5 && pos.y - size.y * 0.5 <= y <= pos.y + size.y * 0.5
  }

  /** For sides up to 31 the corner test is true exactly when some point of the box is solid. */
  lemma CornersSuffice(g: TileMap, pos: Vec, size: Vec)
    requires g.Valid() && 0.0 <= size.x <= 31.0 && 0.0 <= size.y <= 31.0
    ensures TestBox(g, Exact, pos, size) <==> exists x, y :: InBox(pos, size, x, y) && CheckPoint(g, x, y)
  {
    hide RoundToInt, TruncDiv, SolidTile;
    var w, h := size.x * 0.5, size.y * 0.5;
    assert InBox(pos, size, pos.x - w, pos.y - h) && InBox(pos, size, pos.x + w, pos.y - h);
    assert InBox(pos, size, pos.x - w, pos.y + h) && InBox(pos, size, pos.x + w, pos.y + h);
    if x, y :| InBox(pos, size, x, y) && CheckPoint(g, x, y) {
      NoTileBetween(pos.x - w, x, pos.x + w, g.width);
      NoTileBetween(pos.y - h, y, pos.y + h, g.height);
    }
  }

  // ---- MoveBox ----

  datatype Motion = Motion(pos: Vec, vel: Vec, grounded: bool)

  function ClampUnit(e: real): real { if e < -1.0 then -1.0 else if e > 1.0 then 1.0 else e }

  /** `Vel *= -Elasticity` along one axis. */
  function Flip(fl: real -> real, v: real, e: real): real { fl(v * -e) }

  /** `Pos + Vel * Fraction` along one axis. */
  function Advance(fl: real -> real, p: real, v: real, fraction: real): real { fl(p + fl(v * fraction)) }

  /** One sub-step to the proposed position p. */
  function SubStep(g: TileMap, fl: real -> real, size: Vec, e: Vec, m: Motion, p: Vec): Motion
    requires g.Valid()
  {
    if !TestBox(g, fl, p, size) then m.(pos := p)
    else
      var floor := e.y > 0.0 && m.vel.y > 0.0;
      var bounceX, bounceY := Flip(fl, m.vel.x, e.x), Flip(fl, m.vel.y, e.y);
      var hitY := TestBox(g, fl, Vec(m.pos.x, p.y), size);
      var p1 := if hitY then Vec(p.x, m.pos.y) else p;
      var hitX := TestBox(g, fl, Vec(p1.x, m.pos.y), size);
      if !hitY && !hitX then Motion(m.pos, Vec(bounceX, bounceY), m.grounded || floor)
      else
        Motion(if hitX then Vec(m.pos.x, p1.y) else p1,
               Vec(if hitX then bounceX else m.vel.x, if hitY then bounceY else m.vel.y),
               m.grounded || (hitY && floor))
  }

  function Proposed(fl: real -> real, m: Motion, fraction: real): Vec {
    Vec(Advance(fl, m.pos.x, m.vel.x, fraction), Advance(fl, m.pos.y, m.vel.y, fraction))
  }

  predicate Stops(fl: real -> real, m: Motion, fraction: real) {
    m.vel == Vec(0.0, 0.0) || Proposed(fl, m, fraction) == m.pos
  }

  /** The motions after each of at most n sub-steps, the first one included. */
  function Trail(g: TileMap, fl: real -> real, size: Vec, e: Vec, m: Motion, fraction: real, n: nat): (t: seq<Motion>)
    requires g.Valid()
    ensures |t| > 0 && t[0] == m
    decreases n
  {
    if n == 0 || Stops(fl, m, fraction) then [m]
    else [m] + Trail(g, fl, size, e, SubStep(g, fl, size, e, m, Proposed(fl, m, fraction)), fraction, n - 1)
  }

  function Last<T>(s: seq<T>): T
    requires s != []
  {
    s[|s| - 1]
  }

  lemma TrailStep(g: TileMap, fl: real -> real, size: Vec, e: Vec, m: Motion, fraction: real, n: nat)
    requires g.Valid()
    ensures n == 0 || Stops(fl, m, fraction) ==> Last(Trail(g, fl, size, e, m, fraction, n)) == m
    ensures n > 0 && !Stops(fl, m, fraction) ==>
              Last(Trail(g, fl, size, e, m, fraction, n))
              == Last(Trail(g, fl, size, e, SubStep(g, fl, size, e, m, Proposed(fl, m, fraction)), fraction, n - 1))
  {
    hide SubStep, Proposed;
  }

  /** The collision handling in the loop of MoveBox. */
  method Collide(g: TileMap, fl: real -> real, size: Vec, e: Vec, m: Motion, proposed: Vec) returns (m': Motion)
    requires g.Valid()
    ensures m' == SubStep(g, fl, size, e, m, proposed)
  {
    hide TestBox, Flip;
    var pos, vel, grounded, newPos := m.pos, m.vel, m.grounded, proposed;
    if TestBox(g, fl, newPos, size) {
      var hits := 0;
      if TestBox(g, fl, Vec(pos.x, newPos.y), size) {
        if e.y > 0.0 && vel.y > 0.0 {
          grounded := true;
        }
        newPos := newPos.(y := pos.y);
        vel := vel.(y := Flip(fl, vel.y, e.y));
        hits := hits + 1;
      }
      if TestBox(g, fl, Vec(newPos.x, pos.y), size) {
        newPos := newPos.(x := pos.x);
        vel := vel.(x := Flip(fl, vel.x, e.x));
        hits := hits + 1;
      }
      if hits == 0 {
        if e.y > 0.0 && vel.y > 0.0 {
          grounded := true;
        }
        newPos := newPos.(y := pos.y);
        vel := vel.(y := Flip(fl, vel.y, e.y));
        newPos := newPos.(x := pos.x);
        vel := vel.(x := Flip(fl, vel.x, e.x));
      }
    }
    m' := Motion(newPos, vel, grounded);
  }

  /** The sub-steps MoveBox takes, `distance` being the length of the velocity. */
  function Path(g: TileMap, fl: real -> real, start: Motion, size: Vec, elasticity: Vec, distance: real): (t: seq<Motion>)
    requires g.Valid() && distance >= 0.0
    ensures t != [] && t[0] == start
  {
    if distance <= 0.00001 then [start]
    else
      Trail(g, fl, size, Vec(ClampUnit(elasticity.x), ClampUnit(elasticity.y)), start,
            fl(Fraction(Truncate(distance) + 1)), Truncate(distance) + 1)
  }

  /** MoveBox ends at the end of its path. */
  method MoveBox(g: TileMap, fl: real -> real, start: Motion, size: Vec, elasticity: Vec, distance: real)
    returns (m: Motion)
    requires g.Valid() && distance >= 0.0
    ensures m == Last(Path(g, fl, start, size, elasticity, distance))
  {
    hide TestBox, SubStep, Trail, Advance;
    m := start;
    var max := Truncate(distance);
    if distance > 0.00001 {
      var fraction := fl(Fraction(max + 1));
      var e := Vec(ClampUnit(elasticity.x), ClampUnit(elasticity.y));
      var i := 0;
      while i <= max
        invariant 0 <= i <= max + 1
        invariant Last(Trail(g, fl, size, e, start, fraction, max + 1))
               == Last(Trail(g, fl, size, e, m, fraction, max + 1 - i))
      {
        TrailStep(g, fl, size, e, m, fraction, max + 1 - i);
        if m.vel == Vec(0.0, 0.0) {
          break;
        }
        var newPos := Vec(Advance(fl, m.pos.x, m.vel.x, fraction), Advance(fl, m.pos.y, m.vel.y, fraction));
        if newPos == m.pos {
          break;
        }
        m := Collide(g, fl, size, e, m, newPos);
        i := i + 1;
      }
      TrailStep(g, fl, size, e, m, fraction, max + 1 - i);
    }
  }

  // ---- never inside solid ground ----

  lemma SubStepStaysFree(g: TileMap, fl: real -> real, size: Vec, e: Vec, m: Motion, p: Vec)
    requires g.Valid() && !TestBox(g, fl, m.pos, size)
    ensures !TestBox(g, fl, SubStep(g, fl, size, e, m, p).pos, size)
  {
    hide TestBox;
    if TestBox(g, fl, p, size) && !TestBox(g, fl, Vec(m.pos.x, p.y), size) {
      assert Vec(p.x, p.y) == p;
    }
    assert Vec(m.pos.x, m.pos.y) == m.pos;
  }

  lemma {:induction false} TrailStaysFree(g: TileMap, fl: real -> real, size: Vec, e: Vec, m: Motion, fraction: real, n: nat)
    requires g.Valid() && !TestBox(g, fl, m.pos, size)
    ensures forall s :: s in Trail(g, fl, size, e, m, fraction, n) ==> !TestBox(g, fl, s.pos, size)
    decreases n
  {
    hide TestBox, SubStep, Proposed;
    if n > 0 && !Stops(fl, m, fraction) {
      var p := Proposed(fl, m, fraction);
      SubStepStaysFree(g, fl, size, e, m, p);
      TrailStaysFree(g, fl, size, e, SubStep(g, fl, size, e, m, p), fraction, n - 1);
    }
  }

  /** Whatever the rounding: started outside solid tiles, the box passes only through positions
      outside and ends outside. */
  lemma NeverInSolid(g: TileMap, fl: real -> real, start: Motion, size: Vec, elasticity: Vec, distance: real)
    requires g.Valid() && distance >= 0.0 && !TestBox(g, fl, start.pos, size)
    ensures forall s :: s in Path(g, fl, start, size, elasticity, distance) ==> !TestBox(g, fl, s.pos, size)
  {
    hide TestBox, Trail;
    if distance > 0.00001 {
      TrailStaysFree(g, fl, size, Vec(ClampUnit(elasticity.x), ClampUnit(elasticity.y)), start,
                     fl(Fraction(Truncate(distance) + 1)), Truncate(distance) + 1);
    }
  }

  // ---- lengths, over the reals ----

  lemma Product(a: real, b: real)
    requires a >= 0.0 && b >= 0.0
    ensures a * b >= 0.0
  {
  }

  lemma RealDistribute(a: real, b: real, c: real)
    ensures (a + b) * c == a * c + b * c
  {
  }

  lemma RealSwap(a: real, b: real, c: real)
    ensures a * (b * c) == b * (a * c)
  {
  }

  /** The share of one of n sub-steps. */
  function Fraction(n: int): real
    requires n > 0
  {
    1.0 / n as real
  }

  lemma FractionOfOne(n: int)
    requires n > 0
    ensures Fraction(n) > 0.0 && n as real * Fraction(n) == 1.0
  {
  }

  lemma StepCount(distance: real)
    requires distance >= 0.0
    ensures Truncate(distance) >= 0 && distance <= (Truncate(distance) + 1) as real
  {
  }

  lemma Bounce(v: real, e: real)
    requires -1.0 <= e <= 1.0
    ensures Abs(v * -e) <= Abs(v)
  {
    if v >= 0.0 {
      Product(v, 1.0 - e);
      Product(v, 1.0 + e);
    } else {
      Product(-v, 1.0 - e);
      Product(-v, 1.0 + e);
    }
  }

  lemma ScaleAbs(v: real, b: real, f: real)
    requires Abs(v) <= b && f >= 0.0
    ensures Abs(v * f) <= b * f
  {
    Product(b - v, f);
    Product(b + v, f);
  }

  /** Each velocity component is bounded by its first value. */
  predicate Slow(m: Motion, vx: real, vy: real) {
    Abs(m.vel.x) <= vx && Abs(m.vel.y) <= vy
  }

  lemma ExactMoves(p: real, v: real, b: real, e: real, f: real)
    requires -1.0 <= e <= 1.0 && f >= 0.0 && Abs(v) <= b
    ensures Abs(Flip(Exact, v, e)) <= b
    ensures Abs(Advance(Exact, p, v, f) - p) <= b * f && 0.0 <= b * f
  {
    Bounce(v, e);
    ScaleAbs(v, b, f);
    Product(b, f);
  }

  lemma SubStepExact(g: TileMap, size: Vec, e: Vec, m: Motion, f: real, vx: real, vy: real)
    requires g.Valid() && -1.0 <= e.x <= 1.0 && -1.0 <= e.y <= 1.0 && f >= 0.0 && Slow(m, vx, vy)
    ensures var m' := SubStep(g, Exact, size, e, m, Proposed(Exact, m, f));
            Slow(m', vx, vy) && Abs(m'.pos.x - m.pos.x) <= vx * f && Abs(m'.pos.y - m.pos.y) <= vy * f
  {
    hide TestBox, Flip, Advance;
    ExactMoves(m.pos.x, m.vel.x, vx, e.x, f);
    ExactMoves(m.pos.y, m.vel.y, vy, e.y, f);
  }

  /** Total travel along each axis. */
  ghost function TravelX(t: seq<Motion>): real {
    if |t| <= 1 then 0.0 else Abs(t[1].pos.x - t[0].pos.x) + TravelX(t[1..])
  }

  ghost function TravelY(t: seq<Motion>): real {
    if |t| <= 1 then 0.0 else Abs(t[1].pos.y - t[0].pos.y) + TravelY(t[1..])
  }

  ghost predicate ShortSteps(t: seq<Motion>, dx: real, dy: real) {
    forall k :: 0 < k < |t| ==> Abs(t[k].pos.x - t[k - 1].pos.x) <= dx && Abs(t[k].pos.y - t[k - 1].pos.y) <= dy
  }

  /** n times d. */
  ghost function Multiple(n: nat, d: real): real {
    if n == 0 then 0.0 else Multiple(n - 1, d) + d
  }

  lemma {:induction false} MultipleIsProduct(n: nat, d: real)
    ensures Multiple(n, d) == n as real * d
  {
    if n > 0 {
      MultipleIsProduct(n - 1, d);
      assert n as real == (n - 1) as real + 1.0;
      RealDistribute((n - 1) as real, 1.0, d);
    }
  }

  lemma {:induction false} MultipleNonneg(n: nat, d: real)
    requires d >= 0.0
    ensures Multiple(n, d) >= 0.0
  {
    if n > 0 { MultipleNonneg(n - 1, d); }
  }

  lemma PrependShort(m: Motion, t: seq<Motion>, dx: real, dy: real)
    requires t != [] && ShortSteps(t, dx, dy)
    requires Abs(t[0].pos.x - m.pos.x) <= dx && Abs(t[0].pos.y - m.pos.y) <= dy
    ensures ShortSteps([m] + t, dx, dy)
  {
    hide Abs;
    var u := [m] + t;
    forall k | 0 < k < |u|
      ensures Abs(u[k].pos.x - u[k - 1].pos.x) <= dx && Abs(u[k].pos.y - u[k - 1].pos.y) <= dy
    {
      if k > 1 { assert u[k] == t[k - 1] && u[k - 1] == t[k - 2]; }
    }
  }

  lemma PrependTravelX(m: Motion, t: seq<Motion>)
    requires t != []
    ensures TravelX([m] + t) == Abs(t[0].pos.x - m.pos.x) + TravelX(t)
  {
    hide Abs;
    var u := [m] + t;
    assert u[1..] == t;
    assert TravelX(u) == Abs(u[1].pos.x - u[0].pos.x) + TravelX(u[1..]);
    hide TravelX;
  }

  lemma PrependTravelY(m: Motion, t: seq<Motion>)
    requires t != []
    ensures TravelY([m] + t) == Abs(t[0].pos.y - m.pos.y) + TravelY(t)
  {
    hide Abs;
    var u := [m] + t;
    assert u[1..] == t;
    assert TravelY(u) == Abs(u[1].pos.y - u[0].pos.y) + TravelY(u[1..]);
    hide TravelY;
  }

  lemma NoSteps(m: Motion, dx: real, dy: real)
    ensures ShortSteps([m], dx, dy)
  {
  }

  lemma {:induction false} TrailExact(g: TileMap, size: Vec, e: Vec, m: Motion, f: real, n: nat,
                                      vx: real, vy: real, dx: real, dy: real)
    requires g.Valid() && -1.0 <= e.x <= 1.0 && -1.0 <= e.y <= 1.0 && f >= 0.0 && Slow(m, vx, vy)
    requires dx == vx * f >= 0.0 && dy == vy * f >= 0.0
    ensures var t := Trail(g, Exact, size, e, m, f, n);
            && ShortSteps(t, dx, dy)
            && TravelX(t) <= Multiple(n, dx) && TravelY(t) <= Multiple(n, dy)
            && forall s :: s in t ==> Slow(s, vx, vy)
    decreases n
  {
    hide SubStep, Proposed, Slow, Stops, Abs, ShortSteps;
    NoSteps(m, dx, dy);
    MultipleNonneg(n, dx);
    MultipleNonneg(n, dy);
    if n > 0 && !Stops(Exact, m, f) {
      var m' := SubStep(g, Exact, size, e, m, Proposed(Exact, m, f));
      SubStepExact(g, size, e, m, f, vx, vy);
      TrailExact(g, size, e, m', f, n - 1, vx, vy, dx, dy);
      var t := Trail(g, Exact, size, e, m', f, n - 1);
      PrependShort(m, t, dx, dy);
      PrependTravelX(m, t);
      PrependTravelY(m, t);
    }
  }

  lemma Squares(a: real, b: real)
    requires 0.0 <= a <= b
    ensures a * a <= b * b
  {
  }

  lemma ProductSquare(a: real, f: real)
    ensures (a * f) * (a * f) == (a * a) * (f * f)
  {
    RealSwap(a * f, a, f);
    RealSwap(f, a, a);
  }

  lemma ShortSquares(dx: real, dy: real, vx: real, vy: real, d: real, n: int, f: real)
    requires n > 0 && vx >= 0.0 && vy >= 0.0 && f >= 0.0 && n as real * f == 1.0
    requires 0.0 <= dx <= vx * f && 0.0 <= dy <= vy * f
    requires d * d == vx * vx + vy * vy && 0.0 <= d <= n as real
    ensures dx * dx + dy * dy <= 1.0
  {
    Squares(dx, vx * f);
    Squares(dy, vy * f);
    ProductSquare(vx, f);
    ProductSquare(vy, f);
    ProductSquare(d, f);
    RealDistribute(vx * vx, vy * vy, f * f);
    Product(n as real - d, f);
    RealDistribute(n as real - d, d, f);
    Product(d, f);
    Squares(d * f, 1.0);
  }

  lemma Whole(n: nat, b: real)
    requires n > 0
    ensures Multiple(n, b * Fraction(n)) == b
  {
    FractionOfOne(n);
    RealSwap(n as real, b, Fraction(n));
    MultipleIsProduct(n, b * Fraction(n));
  }

  lemma AbsSquare(v: real)
    ensures Abs(v) >= 0.0 && Abs(v) * Abs(v) == v * v
  {
  }

  lemma StepWithin(dx: real, dy: real, v: Vec, distance: real, n: int)
    requires n > 0 && 0.0 <= distance <= n as real
    requires distance * distance == v.x * v.x + v.y * v.y
    requires Abs(dx) <= Abs(v.x) * Fraction(n) && Abs(dy) <= Abs(v.y) * Fraction(n)
    ensures dx * dx + dy * dy <= 1.0
  {
    hide Abs, Fraction;
    FractionOfOne(n);
    AbsSquare(v.x);
    AbsSquare(v.y);
    AbsSquare(dx);
    AbsSquare(dy);
    ShortSquares(Abs(dx), Abs(dy), Abs(v.x), Abs(v.y), distance, n, Fraction(n));
  }

  lemma PathExact(g: TileMap, start: Motion, size: Vec, elasticity: Vec, distance: real, n: int,
                  vx: real, vy: real, dx: real, dy: real)
    requires g.Valid() && distance >= 0.0 && n == Truncate(distance) + 1 && n > 0 && Slow(start, vx, vy)
    requires dx == vx * Fraction(n) >= 0.0 && dy == vy * Fraction(n) >= 0.0
    ensures var t := Path(g, Exact, start, size, elasticity, distance);
            && ShortSteps(t, dx, dy) && TravelX(t) <= Multiple(n, dx) && TravelY(t) <= Multiple(n, dy)
            && forall s :: s in t ==> Slow(s, vx, vy)
  {
    hide Trail, Fraction, Truncate, Multiple, Slow, Abs;
    FractionOfOne(n);
    if distance > 0.00001 {
      TrailExact(g, size, Vec(ClampUnit(elasticity.x), ClampUnit(elasticity.y)), start, Fraction(n), n, vx, vy, dx, dy);
    } else {
      MultipleNonneg(n, dx);
      MultipleNonneg(n, dy);
    }
  }

  lemma SlowStart(m: Motion)
    ensures Slow(m, Abs(m.vel.x), Abs(m.vel.y))
  {
  }

  /** Over the reals no sub-step is longer than 1, the travel along each axis is at most the initial
      speed along it, and no speed exceeds the initial one. */
  lemma LengthsBounded(g: TileMap, start: Motion, size: Vec, elasticity: Vec, distance: real, k: nat)
    requires g.Valid() && distance >= 0.0
    requires distance * distance == start.vel.x * start.vel.x + start.vel.y * start.vel.y
    ensures var t := Path(g, Exact, start, size, elasticity, distance);
            && TravelX(t) <= Abs(start.vel.x) && TravelY(t) <= Abs(start.vel.y)
            && (0 < k < |t| ==>
                  var dx, dy := t[k].pos.x - t[k - 1].pos.x, t[k].pos.y - t[k - 1].pos.y;
                  dx * dx + dy * dy <= 1.0)
            && forall s :: s in t ==> Slow(s, Abs(start.vel.x), Abs(start.vel.y))
  {
    hide Path, TravelX, TravelY, Abs, Truncate, Fraction, Slow, Multiple;
    StepCount(distance);
    var n := Truncate(distance) + 1;
    var vx, vy, f := Abs(start.vel.x), Abs(start.vel.y), Fraction(n);
    AbsSquare(start.vel.x);
    AbsSquare(start.vel.y);
    FractionOfOne(n);
    Product(vx, f);
    Product(vy, f);
    SlowStart(start);
    PathExact(g, start, size, elasticity, distance, n, vx, vy, vx * f, vy * f);
    Whole(n, vx);
    Whole(n, vy);
    var t := Path(g, Exact, start, size, elasticity, distance);
    if 0 < k < |t| {
      StepWithin(t[k].pos.x - t[k - 1].pos.x, t[k].pos.y - t[k - 1].pos.y, start.vel, distance, n);
    }
  }

  /** Along both axes the speed after each sub-step is at most the one before. */
  ghost predicate Slowing(t: seq<Motion>) {
    forall k :: 0 < k < |t| ==> Slow(t[k], Abs(t[k - 1].vel.x), Abs(t[k - 1].vel.y))
  }

  lemma {:induction false} TrailSlows(g: TileMap, size: Vec, e: Vec, m: Motion, f: real, n: nat)
    requires g.Valid() && -1.0 <= e.x <= 1.0 && -1.0 <= e.y <= 1.0 && f >= 0.0
    ensures Slowing(Trail(g, Exact, size, e, m, f, n))
    decreases n
  {
    hide SubStep, Proposed, Slow, Abs, Stops;
    if n > 0 && !Stops(Exact, m, f) {
      var m' := SubStep(g, Exact, size, e, m, Proposed(Exact, m, f));
      SlowStart(m);
      SubStepExact(g, size, e, m, f, Abs(m.vel.x), Abs(m.vel.y));
      TrailSlows(g, size, e, m', f, n - 1);
      var t := Trail(g, Exact, size, e, m', f, n - 1);
      forall k | 0 < k < |t| + 1 ensures Slow(([m] + t)[k], Abs(([m] + t)[k - 1].vel.x), Abs(([m] + t)[k - 1].vel.y)) {
        if k > 1 { assert Slow(t[k - 1], Abs(t[k - 2].vel.x), Abs(t[k - 2].vel.y)); }
      }
    }
  }

  /** Over the reals the speed along each axis never grows from one sub-step to the next, for any
      elasticity, which is clamped. */
  lemma SpeedsNeverGrow(g: TileMap, start: Motion, size: Vec, elasticity: Vec, distance: real)
    requires g.Valid() && distance >= 0.0
    ensures Slowing(Path(g, Exact, start, size, elasticity, distance))
  {
    hide Trail, Slow, Truncate, Fraction;
    StepCount(distance);
    FractionOfOne(Truncate(distance) + 1);
    if distance > 0.00001 {
      TrailSlows(g, size, Vec(ClampUnit(elasticity.x), ClampUnit(elasticity.y)), start,
                 Fraction(Truncate(distance) + 1), Truncate(distance) + 1);
    }
  }

  // ---- free flight ----

  /** What one of the sub-steps adds, for a velocity v along an axis. */
  ghost function Share(v: real, f: real): real { v * f }

  /** Where k sub-steps of the same velocity lead. */
  ghost function Along(m: Motion, f: real, k: nat): Vec {
    Vec(m.pos.x + Multiple(k, Share(m.vel.x, f)), m.pos.y + Multiple(k, Share(m.vel.y, f)))
  }

  ghost predicate Free(g: TileMap, size: Vec, m: Motion, f: real, n: nat)
    requires g.Valid()
  {
    forall k: nat :: 0 < k <= n ==> !TestBox(g, Exact, Along(m, f, k), size)
  }

  lemma MultipleStep(k: nat, d: real)
    ensures Multiple(0, d) == 0.0 && Multiple(1, d) == d && Multiple(k + 1, d) == Multiple(k, d) + d
  {
    assert Multiple(1, d) == Multiple(0, d) + d;
  }

  lemma ProposedExact(m: Motion, f: real)
    ensures Proposed(Exact, m, f) == Vec(m.pos.x + Share(m.vel.x, f), m.pos.y + Share(m.vel.y, f))
  {
  }

  lemma AlongStep(m: Motion, f: real, k: nat)
    ensures Along(m, f, 0) == m.pos && Along(m, f, 1) == Proposed(Exact, m, f)
    ensures Along(m.(pos := Along(m, f, 1)), f, k) == Along(m, f, k + 1)
  {
    hide Multiple, Share, Proposed;
    ProposedExact(m, f);
    MultipleStep(k, Share(m.vel.x, f));
    MultipleStep(k, Share(m.vel.y, f));
  }

  lemma FreeStep(g: TileMap, size: Vec, e: Vec, m: Motion, f: real, n: nat)
    requires g.Valid() && n > 0 && Free(g, size, m, f, n)
    ensures var m' := SubStep(g, Exact, size, e, m, Proposed(Exact, m, f));
            m' == m.(pos := Along(m, f, 1)) && Free(g, size, m', f, n - 1)
  {
    hide TestBox, Along, Proposed;
    AlongStep(m, f, 0);
    var m' := m.(pos := Along(m, f, 1));
    forall k: nat | 0 < k <= n - 1 ensures !TestBox(g, Exact, Along(m', f, k), size) {
      AlongStep(m, f, k);
    }
  }

  lemma NotStopping(m: Motion, f: real)
    requires Share(m.vel.x, f) != 0.0 || Share(m.vel.y, f) != 0.0
    ensures !Stops(Exact, m, f)
  {
    ProposedExact(m, f);
    hide Proposed;
    assert Share(0.0, f) == 0.0;
  }

  lemma {:induction false} TrailFree(g: TileMap, size: Vec, e: Vec, m: Motion, f: real, n: nat)
    requires g.Valid() && Free(g, size, m, f, n) && (Share(m.vel.x, f) != 0.0 || Share(m.vel.y, f) != 0.0)
    ensures Last(Trail(g, Exact, size, e, m, f, n)) == m.(pos := Along(m, f, n))
    decreases n
  {
    hide Free, SubStep, Along, Proposed, Share, Stops, Trail;
    TrailStep(g, Exact, size, e, m, f, n);
    AlongStep(m, f, 0);
    if n > 0 {
      NotStopping(m, f);
      FreeStep(g, size, e, m, f, n);
      AlongStep(m, f, n - 1);
      TrailFree(g, size, e, SubStep(g, Exact, size, e, m, Proposed(Exact, m, f)), f, n - 1);
    }
  }

  lemma AllShares(n: nat, v: real)
    requires n > 0
    ensures Multiple(n, Share(v, Fraction(n))) == v
  {
    Whole(n, v);
  }

  lemma Positive(a: real, b: real)
    requires a > 0.0 && b > 0.0
    ensures a * b > 0.0
  {
  }

  lemma NonzeroShare(v: real, f: real)
    requires v != 0.0 && f > 0.0
    ensures Share(v, f) != 0.0
  {
    RealDistribute(v, -v, f);
    Positive(if v > 0.0 then v else -v, f);
  }

  lemma ZeroSquare(a: real)
    ensures a == 0.0 ==> a * a == 0.0
  {
  }

  lemma ProductPositive(a: real, b: real, ab: real)
    requires a > 0.0 && b > 0.0 && ab == a * b
    ensures ab > 0.0
  {
  }

  lemma Moving(v: Vec, distance: real, dd: real)
    requires distance > 0.0 && distance * distance == dd == v.x * v.x + v.y * v.y
    ensures v.x != 0.0 || v.y != 0.0
  {
    ProductPositive(distance, distance, dd);
    ZeroSquare(v.x);
    ZeroSquare(v.y);
  }

  /** Over the reals, a box that meets nothing at any of its sub-steps goes by exactly its velocity,
      unless that is too short to move at all. */
  lemma FreeFlight(g: TileMap, start: Motion, size: Vec, elasticity: Vec, distance: real)
    requires g.Valid() && distance >= 0.0
    requires distance * distance == start.vel.x * start.vel.x + start.vel.y * start.vel.y
    requires Free(g, size, start, Fraction(Truncate(distance) + 1), Truncate(distance) + 1)
    ensures Last(Path(g, Exact, start, size, elasticity, distance))
         == if distance > 0.00001 then start.(pos := Vec(start.pos.x + start.vel.x, start.pos.y + start.vel.y)) else start
  {
    hide Free, Trail, Truncate, Fraction, Share, Multiple;
    StepCount(distance);
    var n := Truncate(distance) + 1;
    FractionOfOne(n);
    if distance > 0.00001 {
      Moving(start.vel, distance, distance * distance);
      if start.vel.x != 0.0 { NonzeroShare(start.vel.x, Fraction(n)); } else { NonzeroShare(start.vel.y, Fraction(n)); }
      TrailFree(g, size, Vec(ClampUnit(elasticity.x), ClampUnit(elasticity.y)), start, Fraction(n), n);
      AllShares(n, start.vel.x);
      AllShares(n, start.vel.y);
    }
  }
}
