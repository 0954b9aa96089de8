/** What a collision in MoveBox of src/game/collision.cpp does to position, speed and ground contact,
    stated for the motions of a path alone; and which tile a point lies in. */
module MoveBoxSteps {
  import opened Arith
  import opened MoveBox

  // ---- the tile at a point ----

  /** Coordinate v belongs to tile i of n: each tile begins half a unit before a multiple of 32, and the
      first and the last one go on for ever. */
  predicate InTile(v: real, i: int, n: int) {
    0 <= i < n && (i > 0 ==> (32 * i) as real - 0.5 <= v) && (i < n - 1 ==> v < (32 * i) as real + 31.5)
  }

  lemma RoundedIn(v: real, k: int)
    ensures k > 0 ==> (k as real - 0.5 <= v <==> k <= RoundToInt(v))
    ensures k < 0 ==> (v <= k as real + 0.5 <==> RoundToInt(v) <= k)
  {
  }

  lemma TileOf(v: real, i: int, n: int)
    requires InTile(v, i, n)
    ensures Clamp(TruncDiv(RoundToInt(v), 32), 0, n - 1) == i
  {
    hide RoundToInt;
    if i > 0 { RoundedIn(v, 32 * i); }
    if i < n - 1 { RoundedIn(v, 32 * i + 32); }
    TileOfInt(RoundToInt(v), i, n);
  }

  lemma TileOfInt(k: int, i: int, n: int)
    requires 0 <= i < n && (i > 0 ==> 32 * i <= k) && (i < n - 1 ==> k < 32 * i + 32)
    ensures Clamp(TruncDiv(k, 32), 0, n - 1) == i
  {
  }

  /** A point is solid exactly if the tile it lies in is of one of the two solid kinds. */
  lemma PointIsSolid(g: TileMap, x: real, y: real, c: int, r: int)
    requires g.Valid() && InTile(x, c, g.width) && InTile(y, r, g.height)
    ensures 0 <= r * g.width + c < |g.tiles|
    ensures CheckPoint(g, x, y) <==> g.tiles[r * g.width + c] == 1 || g.tiles[r * g.width + c] == 3
  {
    TileOf(x, c, g.width);
    TileOf(y, r, g.height);
    TileInside(g, c, r);
    hide RoundToInt, TruncDiv;
  }

  /** Every point lies in a tile. */
  lemma SomeTile(v: real, n: int) returns (i: int)
    requires n > 0
    ensures InTile(v, i, n)
  {
    hide RoundToInt;
    var k := RoundToInt(v);
    i := Clamp(TruncDiv(k, 32), 0, n - 1);
    RoundedIn(v, 32 * i);
    RoundedIn(v, 32 * i + 32);
    IntInTile(k, i, n);
  }

  lemma IntInTile(k: int, i: int, n: int)
    requires n > 0 && i == Clamp(TruncDiv(k, 32), 0, n - 1)
    ensures 0 <= i < n && (i > 0 ==> 32 * i <= k) && (i < n - 1 ==> k < 32 * i + 32)
  {
  }

  // ---- one sub-step ----

  /** Where the velocity leads in the share f of the time. */
  function Aim(m: Motion, f: real): Vec { Vec(m.pos.x + m.vel.x * f, m.pos.y + m.vel.y * f) }

  /** One coordinate: it arrives, with the speed unchanged, or is blocked, with the speed turned round and
      cut by the elasticity. */
  predicate Bounced(p: real, v: real, aim: real, e: real, p': real, v': real, arrives: bool) {
    && p' == (if arrives then aim else p)
    && v' == (if p' == aim then v else -e * v)
  }

  /** A coordinate arrives if the aim is free, or if moving along this axis alone would be free and along
      the other one would not. */
  ghost predicate Stepped(g: TileMap, size: Vec, e: Vec, f: real, m: Motion, m': Motion)
    requires g.Valid()
  {
    var aim := Aim(m, f);
    var free := !TestBox(g, Exact, aim, size);
    var freeX, freeY := !TestBox(g, Exact, Vec(aim.x, m.pos.y), size), !TestBox(g, Exact, Vec(m.pos.x, aim.y), size);
    && Bounced(m.pos.x, m.vel.x, aim.x, e.x, m'.pos.x, m'.vel.x, free || (freeX && !freeY))
    && Bounced(m.pos.y, m.vel.y, aim.y, e.y, m'.pos.y, m'.vel.y, free || (freeY && !freeX))
    && (m'.grounded <==> m.grounded || (m'.pos.y != aim.y && e.y > 0.0 && m.vel.y > 0.0))
  }

  lemma AimIsProposed(m: Motion, f: real)
    ensures Proposed(Exact, m, f) == Aim(m, f)
  {
  }

  /** Turning round is multiplying by the negative elasticity, and a resting axis stays at rest. */
  lemma Turned(v: real, e: real)
    ensures Flip(Exact, v, e) == -e * v && (v == 0.0 ==> -e * v == 0.0)
  {
  }

  lemma AimElsewhere(p: real, v: real, f: real)
    requires f > 0.0
    ensures p + v * f == p <==> v == 0.0
  {
    if v != 0.0 { NonzeroShare(v, f); }
  }

  lemma SubStepIs(g: TileMap, size: Vec, e: Vec, m: Motion, f: real)
    requires g.Valid() && f > 0.0
    ensures Stepped(g, size, e, f, m, SubStep(g, Exact, size, e, m, Proposed(Exact, m, f)))
  {
    hide TestBox, Flip, Proposed;
    AimIsProposed(m, f);
    Turned(m.vel.x, e.x);
    Turned(m.vel.y, e.y);
    AimElsewhere(m.pos.x, m.vel.x, f);
    AimElsewhere(m.pos.y, m.vel.y, f);
  }

  /** There is only one such motion. */
  lemma StepIsOnly(g: TileMap, size: Vec, e: Vec, f: real, m: Motion, m': Motion, m'': Motion)
    requires g.Valid() && Stepped(g, size, e, f, m, m') && Stepped(g, size, e, f, m, m'')
    ensures m' == m''
  {
    hide TestBox, Aim;
  }

  // ---- the path ----

  const REST: Vec := Vec(0.0, 0.0)

  /** Motion k follows from the one before, which was not at rest. */
  ghost predicate StepAt(g: TileMap, size: Vec, e: Vec, f: real, t: seq<Motion>, k: int)
    requires g.Valid() && 0 < k < |t|
  {
    t[k - 1].vel != REST && Stepped(g, size, e, f, t[k - 1], t[k])
  }

  /** Sub-steps one after the other, n of them or until the box is at rest, and none from rest. */
  ghost predicate Steps(g: TileMap, size: Vec, e: Vec, f: real, start: Motion, n: nat, t: seq<Motion>)
    requires g.Valid()
  {
    && 0 < |t| <= n + 1 && t[0] == start
    && (forall k :: 0 < k < |t| ==> StepAt(g, size, e, f, t, k))
    && (|t| == n + 1 || t[|t| - 1].vel == REST)
  }

  lemma StopsAtRest(m: Motion, f: real)
    requires f > 0.0
    ensures Stops(Exact, m, f) <==> m.vel == REST
  {
    hide Proposed;
    AimIsProposed(m, f);
    AimElsewhere(m.pos.x, m.vel.x, f);
    AimElsewhere(m.pos.y, m.vel.y, f);
  }

  lemma PrependStep(g: TileMap, size: Vec, e: Vec, f: real, m: Motion, m': Motion, n: nat, t: seq<Motion>)
    requires g.Valid() && m.vel != REST && Stepped(g, size, e, f, m, m') && Steps(g, size, e, f, m', n, t)
    ensures Steps(g, size, e, f, m, n + 1, [m] + t)
  {
    hide Stepped;
    var u := [m] + t;
    forall k | 0 < k < |u| ensures StepAt(g, size, e, f, u, k) {
      if k > 1 { assert StepAt(g, size, e, f, t, k - 1) && u[k] == t[k - 1] && u[k - 1] == t[k - 2]; }
    }
  }

  lemma {:induction false} TrailIsSteps(g: TileMap, size: Vec, e: Vec, f: real, m: Motion, n: nat)
    requires g.Valid() && f > 0.0
    ensures Steps(g, size, e, f, m, n, Trail(g, Exact, size, e, m, f, n))
    decreases n
  {
    hide Stepped, SubStep, Proposed, Stops;
    StopsAtRest(m, f);
    if n > 0 && m.vel != REST {
      var m' := SubStep(g, Exact, size, e, m, Proposed(Exact, m, f));
      SubStepIs(g, size, e, m, f);
      TrailIsSteps(g, size, e, f, m', n - 1);
      PrependStep(g, size, e, f, m, m', n - 1, Trail(g, Exact, size, e, m', f, n - 1));
    }
  }

  lemma {:induction false} SameSteps(g: TileMap, size: Vec, e: Vec, f: real, m: Motion, n: nat, t: seq<Motion>, u: seq<Motion>, k: nat)
    requires g.Valid() && Steps(g, size, e, f, m, n, t) && Steps(g, size, e, f, m, n, u) && k < |t|
    ensures k < |u| && t[k] == u[k]
  {
    hide Stepped;
    if k > 0 {
      SameSteps(g, size, e, f, m, n, t, u, k - 1);
      assert StepAt(g, size, e, f, t, k) && StepAt(g, size, e, f, u, k);
      StepIsOnly(g, size, e, f, t[k - 1], t[k], u[k]);
    }
  }

  /** The clamped elasticity and the share of the time that one sub-step has. */
  function Elasticity(e: Vec): Vec { Vec(ClampUnit(e.x), ClampUnit(e.y)) }

  /** A sequence of motions is the path of MoveBox if and only if its motions follow one another by these
      sub-steps: as many as the length of the velocity says, or up to the one that comes to rest. */
  lemma PathIsSteps(g: TileMap, start: Motion, size: Vec, elasticity: Vec, distance: real, t: seq<Motion>)
    requires g.Valid() && distance > 0.00001
    ensures Truncate(distance) >= 0
    ensures var n := Truncate(distance) + 1;
            t == Path(g, Exact, start, size, elasticity, distance)
            <==> Steps(g, size, Elasticity(elasticity), 1.0 / n as real, start, n, t)
  {
    hide Trail, Steps;
    StepCount(distance);
    var n := Truncate(distance) + 1;
    FractionOfOne(n);
    var e, f := Elasticity(elasticity), 1.0 / n as real;
    var p := Path(g, Exact, start, size, elasticity, distance);
    assert p == Trail(g, Exact, size, e, start, f, n);
    TrailIsSteps(g, size, e, f, start, n);
    if Steps(g, size, e, f, start, n, t) { StepsUnique(g, size, e, f, start, n, t, p); }
  }

  lemma StepsUnique(g: TileMap, size: Vec, e: Vec, f: real, m: Motion, n: nat, t: seq<Motion>, u: seq<Motion>)
    requires g.Valid() && Steps(g, size, e, f, m, n, t) && Steps(g, size, e, f, m, n, u)
    ensures t == u
  {
    hide Stepped;
    SameSteps(g, size, e, f, m, n, t, u, |t| - 1);
    SameSteps(g, size, e, f, m, n, u, t, |u| - 1);
    forall k | 0 <= k < |t| ensures t[k] == u[k] { SameSteps(g, size, e, f, m, n, t, u, k); }
  }

  // ---- what that means ----

  /** Step k of the path aimed at this. */
  function AimAt(t: seq<Motion>, k: nat, n: int): Vec
    requires 0 < k < |t| && n > 0
  {
    Aim(t[k - 1], 1.0 / n as real)
  }

  lemma StepOfPath(g: TileMap, start: Motion, size: Vec, elasticity: Vec, distance: real, k: nat)
    requires g.Valid() && distance >= 0.0 && 0 < k < |Path(g, Exact, start, size, elasticity, distance)|
    ensures distance > 0.00001 && Truncate(distance) >= 0
    ensures var t := Path(g, Exact, start, size, elasticity, distance);
            Stepped(g, size, Elasticity(elasticity), 1.0 / (Truncate(distance) + 1) as real, t[k - 1], t[k])
  {
    hide Trail, Stepped, Truncate;
    var t := Path(g, Exact, start, size, elasticity, distance);
    PathIsSteps(g, start, size, elasticity, distance, t);
    assert StepAt(g, size, Elasticity(elasticity), 1.0 / (Truncate(distance) + 1) as real, t, k);
  }

  /** A coordinate that does not arrive stays and its speed becomes minus e times what it was; one that
      arrives keeps its speed. */
  lemma BlockedBounces(g: TileMap, start: Motion, size: Vec, elasticity: Vec, distance: real, k: nat)
    requires g.Valid() && distance >= 0.0 && 0 < k < |Path(g, Exact, start, size, elasticity, distance)|
    ensures Truncate(distance) >= 0
    ensures var t, e := Path(g, Exact, start, size, elasticity, distance), Elasticity(elasticity);
            var aim := AimAt(t, k, Truncate(distance) + 1);
            && (if t[k].pos.x == aim.x then t[k].vel.x == t[k - 1].vel.x
                else t[k].pos.x == t[k - 1].pos.x && t[k].vel.x == -e.x * t[k - 1].vel.x)
            && (if t[k].pos.y == aim.y then t[k].vel.y == t[k - 1].vel.y
                else t[k].pos.y == t[k - 1].pos.y && t[k].vel.y == -e.y * t[k - 1].vel.y)
            && (!t[k - 1].grounded ==>
                  (t[k].grounded <==> t[k].pos.y != aim.y && e.y > 0.0 && t[k - 1].vel.y > 0.0))
  {
    hide Path, TestBox, Truncate, Elasticity;
    StepOfPath(g, start, size, elasticity, distance, k);
  }

  /** Without elasticity a blocked axis comes to rest, for the rest of the path. */
  lemma {:induction false} BlockedRests(g: TileMap, start: Motion, size: Vec, elasticity: Vec, distance: real, k: nat, j: nat)
    requires g.Valid() && distance >= 0.0 && 0 < k <= j < |Path(g, Exact, start, size, elasticity, distance)|
    ensures Truncate(distance) >= 0
    ensures var t := Path(g, Exact, start, size, elasticity, distance);
            var aim := AimAt(t, k, Truncate(distance) + 1);
            && (elasticity.x == 0.0 && t[k].pos.x != aim.x ==> t[j].vel.x == 0.0)
            && (elasticity.y == 0.0 && t[k].pos.y != aim.y ==> t[j].vel.y == 0.0)
  {
    hide Path, TestBox, Truncate, AimAt;
    BlockedBounces(g, start, size, elasticity, distance, j);
    if k < j { BlockedRests(g, start, size, elasticity, distance, k, j - 1); }
  }
}
