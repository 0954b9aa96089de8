/** CLayers::InitTilemapSkip of src/game/layers.cpp: every tile a row walk stops at says how many
    empty tiles follow it. */
module TilemapSkip {
  import opened Utf8
  import opened Arith

  datatype Tile = Tile(index: Byte, flags: Byte, skip: Byte)

  /** The skip of column x: all the empty tiles that follow it in a row of the given width, but at
      most 254. */
  ghost predicate SkipsAll(t: seq<Tile>, base: nat, x: nat, width: nat)
    requires x < width && base + width <= |t|
  {
    var next := x + 1 + t[base + x].skip;
    && t[base + x].skip <= 254 && next <= width
    && (forall k :: base + x < k < base + next ==> t[k].index == 0)
    && (next == width || t[base + x].skip == 254 || t[base + next].index != 0)
  }

  /** From column x the walk x := x + 1 + skip reaches column stop over such skips. */
  ghost predicate Walks(t: seq<Tile>, base: nat, x: nat, stop: nat, width: nat)
    requires stop <= width && base + width <= |t|
    decreases stop - x
  {
    if x >= stop then x == stop
    else SkipsAll(t, base, x, width) && Walks(t, base, x + 1 + t[base + x].skip, stop, width)
  }

  /** Whether the walk from column x stops at column c. */
  ghost predicate Visits(t: seq<Tile>, base: nat, x: nat, stop: nat, c: nat)
    requires base + stop <= |t|
    decreases stop - x
  {
    x < stop && (x == c || Visits(t, base, x + 1 + t[base + x].skip, stop, c))
  }

  /** The walk stops at every non-empty tile of the row. */
  lemma {:induction false} WalkFindsTiles(t: seq<Tile>, base: nat, x: nat, width: nat, c: nat)
    requires base + width <= |t| && Walks(t, base, x, width, width)
    requires x <= c < width && t[base + c].index != 0
    ensures Visits(t, base, x, width, c)
    decreases width - x
  {
    var next := x + 1 + t[base + x].skip;
    if x != c {
      assert c >= next;
      WalkFindsTiles(t, base, next, width, c);
    }
  }

  lemma {:induction false} VisitsAhead(t: seq<Tile>, base: nat, x: nat, stop: nat, c: nat)
    requires base + stop <= |t| && Visits(t, base, x, stop, c)
    ensures x <= c < stop
    decreases stop - x
  {
    if x != c {
      VisitsAhead(t, base, x + 1 + t[base + x].skip, stop, c);
    }
  }

  /** ...and an empty tile only where a run of more than 254 empty tiles makes it stop. */
  lemma {:induction false} EmptyStops(t: seq<Tile>, base: nat, x: nat, width: nat, c: nat)
    requires base + width <= |t| && Walks(t, base, x, width, width)
    requires x < c < width && t[base + c].index == 0 && Visits(t, base, x, width, c)
    ensures c >= x + 255 && forall k :: base + c - 255 < k <= base + c ==> t[k].index == 0
    decreases width - x
  {
    var next := x + 1 + t[base + x].skip;
    VisitsAhead(t, base, next, width, c);
    if next != c {
      EmptyStops(t, base, next, width, c);
    }
  }

  lemma {:induction false} VisitsOn(t: seq<Tile>, base: nat, x: nat, mid: nat, stop: nat, c: nat)
    requires mid <= stop && base + stop <= |t| && Visits(t, base, x, mid, c)
    ensures Visits(t, base, x, stop, c)
    decreases mid - x
  {
    if x != c {
      VisitsOn(t, base, x + 1 + t[base + x].skip, mid, stop, c);
    }
  }

  lemma {:induction false} VisitsEnd(t: seq<Tile>, base: nat, x: nat, mid: nat, width: nat)
    requires mid < width && base + width <= |t| && Walks(t, base, x, mid, width)
    ensures Visits(t, base, x, mid + 1, mid)
    decreases mid - x
  {
    if x < mid {
      VisitsEnd(t, base, x + 1 + t[base + x].skip, mid, width);
    }
  }

  lemma {:induction false} VisitsLocal(t: seq<Tile>, t': seq<Tile>, base: nat, x: nat, stop: nat, c: nat)
    requires base + stop <= |t| && |t| == |t'| && Visits(t, base, x, stop, c)
    requires forall k :: base <= k < base + stop ==> t'[k] == t[k]
    ensures Visits(t', base, x, stop, c)
    decreases stop - x
  {
    if x != c {
      VisitsLocal(t, t', base, x + 1 + t[base + x].skip, stop, c);
    }
  }

  /** The columns before `stop` that are no stops of the walk are as they were. */
  ghost predicate OthersKept(before: seq<Tile>, t: seq<Tile>, base: nat, stop: nat)
    requires base + stop <= |t| && |before| == |t|
  {
    forall k: nat :: base <= k < base + stop ==> t[k] == before[k] || Visits(t, base, 1, stop, k - base)
  }

  /** A turn of the loop: the skip of column x is written. */
  lemma KeptOn(before: seq<Tile>, t: seq<Tile>, t': seq<Tile>, base: nat, x: nat, next: nat, width: nat)
    requires 1 <= x < next <= width && base + width <= |t| && |before| == |t| == |t'|
    requires OthersKept(before, t, base, x) && Walks(t', base, 1, x, width)
    requires forall k :: 0 <= k < |t| && k != base + x ==> t'[k] == t[k]
    requires forall k :: base + x < k < base + next ==> t[k] == before[k]
    ensures OthersKept(before, t', base, next)
  {
    hide Walks, Visits;
    forall k: nat | base <= k < base + next ensures t'[k] == before[k] || Visits(t', base, 1, next, k - base) {
      if k == base + x {
        VisitsEnd(t', base, 1, x, width);
        VisitsOn(t', base, 1, x + 1, next, x);
      } else if k < base + x && t[k] != before[k] {
        VisitsLocal(t, t', base, 1, x, k - base);
        VisitsOn(t', base, 1, x, next, k - base);
      }
    }
  }

  lemma {:induction false} WalksOn(t: seq<Tile>, base: nat, x: nat, mid: nat, width: nat)
    requires mid < width && base + width <= |t| && Walks(t, base, x, mid, width) && SkipsAll(t, base, mid, width)
    ensures Walks(t, base, x, mid + 1 + t[base + mid].skip, width)
    decreases mid - x
  {
    var stop := mid + 1 + t[base + mid].skip;
    if x < mid {
      WalksOn(t, base, x + 1 + t[base + x].skip, mid, width);
    } else {
      assert Walks(t, base, stop, stop, width);
    }
  }

  /** Neither the skips of columns not yet reached nor other rows matter. */
  lemma {:induction false} WalksLocal(t: seq<Tile>, t': seq<Tile>, base: nat, x: nat, stop: nat, width: nat)
    requires stop <= width && base + width <= |t| && SameTiles(t, t') && Walks(t, base, x, stop, width)
    requires forall k :: base <= k < base + stop ==> t'[k] == t[k]
    ensures Walks(t', base, x, stop, width)
    decreases stop - x
  {
    if x < stop {
      WalksLocal(t, t', base, x + 1 + t[base + x].skip, stop, width);
    }
  }

  ghost predicate SameTiles(t: seq<Tile>, t': seq<Tile>) {
    |t| == |t'| && forall k :: 0 <= k < |t| ==> t'[k].index == t[k].index && t'[k].flags == t[k].flags
  }

  /** The state of the loop over a row when it has come to column x. */
  ghost predicate RowInv(before: seq<Tile>, t: seq<Tile>, base: nat, x: nat, width: nat)
    requires 1 <= x <= width && base + width <= |t|
  {
    && SameTiles(before, t)
    && (forall k :: 0 <= k < |t| && !(base <= k < base + x) ==> t[k] == before[k])
    && Walks(t, base, 1, x, width) && OthersKept(before, t, base, x)
  }

  lemma RowStart(t: seq<Tile>, base: nat, width: nat)
    requires 1 <= width && base + width <= |t|
    ensures RowInv(t, t, base, 1, width)
  {
  }

  /** A turn of the loop. */
  lemma RowStep(before: seq<Tile>, t: seq<Tile>, base: nat, x: nat, skipped: nat, width: nat)
    requires 1 <= x < x + skipped <= width && skipped <= 255 && base + width <= |t| && RowInv(before, t, base, x, width)
    requires forall k :: base + x < k < base + x + skipped ==> t[k].index == 0
    requires x + skipped == width || skipped == 255 || t[base + x + skipped].index != 0
    ensures RowInv(before, t[base + x := t[base + x].(skip := skipped - 1)], base, x + skipped, width)
  {
    hide Walks, Visits, OthersKept;
    var t' := t[base + x := t[base + x].(skip := skipped - 1)];
    WalksLocal(t, t', base, 1, x, width);
    KeptOn(before, t, t', base, x, x + skipped, width);
    WalksOn(t', base, 1, x, width);
  }

  /** The loop over one row. */
  method SkipRow(tiles: array<Tile>, base: nat, width: nat)
    requires base + width <= tiles.Length
    modifies tiles
    ensures SameTiles(old(tiles[..]), tiles[..])
    ensures forall k :: 0 <= k < base || base + width <= k < tiles.Length ==> tiles[k] == old(tiles[k])
    ensures width > 0 ==> Walks(tiles[..], base, 1, width, width)
    ensures OthersKept(old(tiles[..]), tiles[..], base, width)
  {
    hide Walks, Visits;
    ghost var before := tiles[..];
    var x := 1;
    if width > 0 { RowStart(before, base, width); }
    while x < width
      invariant 1 <= x && (width > 0 ==> x <= width && RowInv(before, tiles[..], base, x, width))
      invariant width == 0 ==> tiles[..] == before
    {
      hide RowInv, OthersKept, SameTiles;
      var skipped := 1;
      while x + skipped < width && skipped < 255
        invariant 1 <= skipped <= 255 && x + skipped <= width
        invariant forall k :: base + x < k < base + x + skipped ==> tiles[k].index == 0
      {
        if tiles[base + x + skipped].index != 0 {
          break;
        }
        skipped := skipped + 1;
      }
      RowStep(before, tiles[..], base, x, skipped, width);
      tiles[base + x] := tiles[base + x].(skip := skipped - 1);
      x := x + skipped;
    }
  }

  /** The index of the first tile of row y. */
  function Base(y: nat, width: nat): (b: nat) { y * width }

  lemma BaseNext(y: nat, width: nat)
    ensures Base(0, width) == 0 && Base(y + 1, width) == Base(y, width) + width
  {
    Distribute(width, y, 1);
  }

  lemma RowsApart(width: nat, y: nat, y': nat)
    requires y < y'
    ensures Base(y, width) + width <= Base(y', width)
  {
    Distribute(width, y' - y - 1, y + 1);
    MulNonneg(width, y' - y - 1);
  }

  lemma KeptLocal(before: seq<Tile>, t: seq<Tile>, before': seq<Tile>, t': seq<Tile>, base: nat, width: nat)
    requires base + width <= |t| && |before| == |t| == |t'| == |before'| && OthersKept(before, t, base, width)
    requires forall k :: base <= k < base + width ==> t'[k] == t[k] && before'[k] == before[k]
    ensures OthersKept(before', t', base, width)
  {
    hide Visits;
    forall k: nat | base <= k < base + width && t'[k] != before'[k] ensures Visits(t', base, 1, width, k - base) {
      VisitsLocal(t, t', base, 1, width, k - base);
    }
  }

  /** Row y has its skips, and its other columns are as they were. */
  ghost predicate RowDone(before: seq<Tile>, t: seq<Tile>, y: nat, width: nat) {
    && |before| == |t| && Base(y, width) + width <= |t|
    && (width > 0 ==> Walks(t, Base(y, width), 1, width, width))
    && OthersKept(before, t, Base(y, width), width)
  }

  lemma RowStaysDone(before: seq<Tile>, t: seq<Tile>, t': seq<Tile>, r: nat, y: nat, width: nat)
    requires RowDone(before, t, r, width) && r < y && SameTiles(t, t')
    requires forall k :: 0 <= k < |t| && k < Base(y, width) ==> t'[k] == t[k]
    ensures RowDone(before, t', r, width)
  {
    hide Walks, OthersKept, Base;
    RowsApart(width, r, y);
    if width > 0 { WalksLocal(t, t', Base(r, width), 1, width, width); }
    KeptLocal(before, t, before, t', Base(r, width), width);
  }

  /** InitTilemapSkip on one tile layer. */
  method InitTilemapSkip(tiles: array<Tile>, width: nat, height: nat)
    requires tiles.Length == Base(height, width)
    modifies tiles
    ensures SameTiles(old(tiles[..]), tiles[..])
    ensures forall y: nat :: y < height ==> RowDone(old(tiles[..]), tiles[..], y, width)
  {
    hide Walks, OthersKept, RowDone, Base;
    ghost var before := tiles[..];
    var y := 0;
    BaseNext(0, width);
    while y < height
      invariant 0 <= y <= height
      invariant SameTiles(before, tiles[..])
      invariant forall k :: Base(y, width) <= k < tiles.Length ==> tiles[k] == before[k]
      invariant forall r: nat :: r < y ==> RowDone(before, tiles[..], r, width)
    {
      RowsApart(width, y, height);
      BaseNext(y, width);
      ghost var t := tiles[..];
      SkipRow(tiles, Base(y, width), width);
      FinishRow(before, t, tiles[..], y, width);
      forall r: nat | r < y ensures RowDone(before, tiles[..], r, width) {
        RowStaysDone(before, t, tiles[..], r, y, width);
      }
      y := y + 1;
    }
  }

  lemma FinishRow(before: seq<Tile>, t: seq<Tile>, t': seq<Tile>, y: nat, width: nat)
    requires |before| == |t| == |t'| && Base(y, width) + width <= |t|
    requires forall k :: Base(y, width) <= k < |t| ==> t[k] == before[k]
    requires (width > 0 ==> Walks(t', Base(y, width), 1, width, width)) && OthersKept(t, t', Base(y, width), width)
    ensures RowDone(before, t', y, width)
  {
    hide Walks, OthersKept, Base;
    KeptLocal(t, t', before, t', Base(y, width), width);
  }
}
