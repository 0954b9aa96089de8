/** InsertPixelArtQuads of src/tools/map_create_pixelart.cpp: the quads are an exact cover of the
    visible cells and fit the array allocated for them. */
module PixelArtInsert {
  import opened Arith
  import opened PixelArt
  import opened PixelArtMerge

  predicate Before(a: int, b: int, i: int, j: int) { b < j || (b == j && a < i) }

  ghost predicate CoveredSoFar(g: Grid, rs: seq<Rect>, i: int, j: int)
    requires g.img.Valid()
  {
    forall a, b :: g.Inside(a, b) && Before(a, b, i, j) && g.Cell(a, b).a > 0 ==> Covered(rs, a, b)
  }

  /** With merging, the mask holds the covered cells; without, it stays empty and every quad is one
      earlier cell. */
  ghost predicate MaskInv(g: Grid, mask: seq<bool>, rs: seq<Rect>, optimize: bool, i: int, j: int)
    requires g.Valid()
  {
    && |mask| == g.img.height * g.img.width
    && (optimize ==> forall a: nat, b: nat :: g.Inside(a, b) ==> (Mark(g, mask, a, b) <==> Covered(rs, a, b)))
    && (!optimize ==> forall a: nat, b: nat :: g.Inside(a, b) ==> !Mark(g, mask, a, b))
    && (!optimize ==> forall k :: 0 <= k < |rs| ==> rs[k].cw == 1 == rs[k].ch && Before(rs[k].cx, rs[k].cy, i, j))
  }

  ghost predicate Inv(g: Grid, mask: seq<bool>, rs: seq<Rect>, optimize: bool, i: nat, j: nat)
    requires g.Valid()
  {
    Packing(g, rs) && CoveredSoFar(g, rs, i, j) && MaskInv(g, mask, rs, optimize, i, j) && |rs| <= j * g.cols + i
  }

  lemma AddRect(g: Grid, rs: seq<Rect>, r: Rect)
    requires g.img.Valid() && Packing(g, rs) && Uniform(g, r)
    requires forall a, b :: Covers(r, a, b) ==> !Covered(rs, a, b)
    ensures Packing(g, rs + [r])
    ensures forall a, b :: Covered(rs + [r], a, b) <==> Covered(rs, a, b) || Covers(r, a, b)
  {
    hide Uniform, Covers;
    var n := rs + [r];
    forall k | 0 <= k < |rs| ensures Disjoint(n[k], r) {
      forall a, b ensures !(Covers(n[k], a, b) && Covers(r, a, b)) {
        if Covers(n[k], a, b) { assert Covered(rs, a, b); }
      }
    }
    forall a, b ensures Covered(n, a, b) <==> Covered(rs, a, b) || Covers(r, a, b) {
      if Covered(rs, a, b) {
        var k :| 0 <= k < |rs| && Covers(rs[k], a, b);
        assert Covers(n[k], a, b);
      }
      assert n[|rs|] == r;
    }
  }

  /** Nothing to do at a cell that is marked or invisible. */
  lemma SkipCell(g: Grid, mask: seq<bool>, rs: seq<Rect>, optimize: bool, i: nat, j: nat)
    requires g.Valid() && Inv(g, mask, rs, optimize, i, j) && g.Inside(i, j)
    requires Mark(g, mask, i, j) || g.Cell(i, j).a == 0
    ensures Inv(g, mask, rs, optimize, i + 1, j)
  {
    hide Packing, Covered;
    forall a, b | g.Inside(a, b) && Before(a, b, i + 1, j) && g.Cell(a, b).a > 0 ensures Covered(rs, a, b) {
      assert Before(a, b, i, j) || (a == i && b == j);
    }
  }

  lemma CoveredAfter(g: Grid, rs: seq<Rect>, r: Rect, i: nat, j: nat)
    requires g.img.Valid() && CoveredSoFar(g, rs, i, j) && Covers(r, i, j)
    requires forall a, b :: Covered(rs + [r], a, b) <==> Covered(rs, a, b) || Covers(r, a, b)
    ensures CoveredSoFar(g, rs + [r], i + 1, j)
  {
    hide Covered;
    forall a, b | g.Inside(a, b) && Before(a, b, i + 1, j) && g.Cell(a, b).a > 0 ensures Covered(rs + [r], a, b) {
      assert Before(a, b, i, j) || (a == i && b == j);
    }
  }

  /** Without merging: one quad of one cell. */
  lemma PlaceSingle(g: Grid, mask: seq<bool>, rs: seq<Rect>, i: nat, j: nat)
    requires g.Valid() && Inv(g, mask, rs, false, i, j) && g.Inside(i, j) && g.Cell(i, j).a > 0
    ensures Inv(g, mask, rs + [Rect(i, j, 1, 1, g.Cell(i, j))], false, i + 1, j)
  {
    var r := Rect(i, j, 1, 1, g.Cell(i, j));
    assert forall a, b :: Covers(r, a, b) ==> !Covered(rs, a, b);
    AddRect(g, rs, r);
    CoveredAfter(g, rs, r, i, j);
    hide Packing, Covered, CoveredSoFar;
    assert MaskInv(g, mask, rs + [r], false, i + 1, j);
  }

  lemma GreedyIsUniform(g: Grid, mask: seq<bool>, i: nat, j: nat, cw: nat, ch: nat, color: Color)
    requires g.Valid() && |mask| == g.img.height * g.img.width && Greedy(g, mask, i, j, cw, ch, color)
    ensures Uniform(g, Rect(i, j, cw, ch, color))
    ensures forall a: nat, b: nat :: Covers(Rect(i, j, cw, ch, color), a, b) ==> g.Inside(a, b) && !Mark(g, mask, a, b)
  {
    var r := Rect(i, j, cw, ch, color);
    forall a: int, b: int | Covers(r, a, b)
      ensures a >= 0 && b >= 0 && g.Inside(a, b) && g.Cell(a, b) == r.color && r.color.a > 0 && !Mark(g, mask, a, b)
    {
      assert ColumnFree(g, mask, a, j, ch, color);
      assert Free(g, mask, a, b, color);
      FreeIsInside(g, mask, a, b, color);
    }
  }

  lemma MarkAfter(g: Grid, mask: seq<bool>, mask': seq<bool>, i: nat, j: nat, cw: nat, ch: nat, a: nat, b: nat)
    requires g.Valid() && g.Inside(a, b)
    requires Marks(g.img, mask, mask', Corner(i, g.px), Corner(j, g.px), Corner(i + cw, g.px), Corner(j + ch, g.px), Corner(i, g.px))
    ensures Mark(g, mask', a, b) <==> Mark(g, mask, a, b) || (i <= a < i + cw && j <= b < j + ch)
  {
    hide Index, Corner;
    CornerInside(g, a, b);
    CornerOrder(i, a, g.px);
    CornerOrder(a, i + cw, g.px);
    CornerOrder(j, b, g.px);
    CornerOrder(b, j + ch, g.px);
  }

  /** With merging: the greedy rectangle. */
  lemma PlaceGreedy(g: Grid, mask: seq<bool>, mask': seq<bool>, rs: seq<Rect>, i: nat, j: nat, cw: nat, ch: nat, color: Color)
    requires g.Valid() && Inv(g, mask, rs, true, i, j)
    requires Greedy(g, mask, i, j, cw, ch, color)
    requires Marks(g.img, mask, mask', Corner(i, g.px), Corner(j, g.px), Corner(i + cw, g.px), Corner(j + ch, g.px), Corner(i, g.px))
    ensures Inv(g, mask', rs + [Rect(i, j, cw, ch, color)], true, i + 1, j)
  {
    hide Mark, Marks, Free, ColumnFree;
    var r := Rect(i, j, cw, ch, color);
    GreedyIsUniform(g, mask, i, j, cw, ch, color);
    forall a: int, b: int | Covers(r, a, b) ensures !Covered(rs, a, b) {
      assert a >= 0 && b >= 0;
      var x: nat, y: nat := a, b;
      assert g.Inside(x, y) && !Mark(g, mask, x, y);
    }
    AddRect(g, rs, r);
    assert Covers(r, i, j);
    CoveredAfter(g, rs, r, i, j);
    MarksSize(g.img, mask, mask', Corner(i, g.px), Corner(j, g.px), Corner(i + cw, g.px), Corner(j + ch, g.px), Corner(i, g.px));
    hide Packing, Covered, CoveredSoFar;
    forall a: nat, b: nat | g.Inside(a, b) ensures Mark(g, mask', a, b) <==> Covered(rs + [r], a, b) {
      MarkAfter(g, mask, mask', i, j, cw, ch, a, b);
    }
  }

  lemma MarksSize(img: Image, before: seq<bool>, after: seq<bool>, x0: nat, y0: nat, x1: nat, y1: nat, x: nat)
    requires Marks(img, before, after, x0, y0, x1, y1, x)
    ensures |after| == |before| == img.height * img.width
  {
  }

  // ---- the loops ----

  /** The quads allocated for the new ones: the source divides by the pixel size only once. */
  function MaxNewQuads(img: Image, px: nat): nat
    requires px > 0
  {
    img.width * img.height / px
  }

  lemma CellsFit(g: Grid)
    requires g.Valid()
    ensures g.cols * g.rows <= MaxNewQuads(g.img, g.px)
  {
    var c, r, p := g.cols, g.rows, g.px;
    MulNonneg(c, r);
    Associate(c * p, r, p);
    MulNonneg(c * p, r);
    assert g.img.width * g.img.height == (c * p) * r * p;
    DivModUnique(g.img.width * g.img.height, p, (c * p) * r, 0);
    Associate(c, p, r);
    Associate(c, r, p);
    Distribute(c * r, p - 1, 1);
    MulNonneg(c * r, p - 1);
  }

  lemma EmptyInv(g: Grid, mask: seq<bool>, optimize: bool)
    requires g.Valid() && |mask| == g.img.height * g.img.width && forall k :: 0 <= k < |mask| ==> !mask[k]
    ensures Inv(g, mask, [], optimize, 0, 0)
  {
    hide Index, Corner;
    forall a: nat, b: nat | g.Inside(a, b) ensures !Mark(g, mask, a, b) && !Covered([], a, b) {
      CornerInside(g, a, b);
      IndexInside(g.img.width, g.img.height, Corner(a, g.px), Corner(b, g.px));
    }
    hide Mark;
    assert Packing(g, []) && CoveredSoFar(g, [], 0, 0) && MaskInv(g, mask, [], optimize, 0, 0);
  }

  lemma NextRow(g: Grid, mask: seq<bool>, rs: seq<Rect>, optimize: bool, j: nat)
    requires g.Valid() && Inv(g, mask, rs, optimize, g.cols, j)
    ensures Inv(g, mask, rs, optimize, 0, j + 1)
  {
    hide Packing, Covered, Mark;
    Distribute(g.cols, j, 1);
    forall a, b | g.Inside(a, b) && Before(a, b, 0, j + 1) && g.Cell(a, b).a > 0 ensures Covered(rs, a, b) {
      assert Before(a, b, g.cols, j);
    }
    if !optimize {
      forall k | 0 <= k < |rs| ensures rs[k].cw == 1 == rs[k].ch && Before(rs[k].cx, rs[k].cy, 0, j + 1) {
        assert Before(rs[k].cx, rs[k].cy, g.cols, j);
      }
    }
  }

  lemma CountBelow(g: Grid, i: nat, j: nat)
    requires g.Inside(i, j)
    ensures j * g.cols + i < g.cols * g.rows
  {
    IndexInside(g.cols, g.rows, i, j);
  }

  lemma InvGivesCover(g: Grid, mask: seq<bool>, rs: seq<Rect>, optimize: bool)
    requires g.Valid() && Inv(g, mask, rs, optimize, 0, g.rows)
    ensures ExactCover(g, rs) && |rs| <= g.rows * g.cols
    ensures !optimize ==> forall k :: 0 <= k < |rs| ==> rs[k].cw == 1 == rs[k].ch
  {
    hide Packing, Covered, Mark;
    forall a, b | g.Inside(a, b) && g.Cell(a, b).a > 0 ensures Covered(rs, a, b) {
      assert Before(a, b, 0, g.rows);
    }
  }

  /** InsertPixelArtQuads: appends the new quads behind the numQuads existing ones. */
  method InsertPixelArtQuads(quads: array<Rect>, numQuads: nat, g: Grid, optimize: bool) returns (num: nat)
    requires g.Valid() && numQuads + MaxNewQuads(g.img, g.px) <= quads.Length
    modifies quads
    ensures numQuads <= num <= numQuads + g.cols * g.rows && num <= quads.Length
    ensures quads[..numQuads] == old(quads[..numQuads])
    ensures ExactCover(g, quads[numQuads..num])
    ensures !optimize ==> forall k :: numQuads <= k < num ==> quads[k].cw == 1 == quads[k].ch
  {
    hide Packing, Covered, CoveredSoFar, MaskInv, ExactCover, Mark, MaxNewQuads, Corner;
    CellsFit(g);
    var visited := new bool[g.img.height * g.img.width](_ => false);
    EmptyInv(g, visited[..], optimize);
    num := numQuads;
    assert quads[numQuads..num] == [];
    var y := 0;
    ghost var j := 0;
    CornerOrder(0, g.rows, g.px);
    while y < g.img.height
      invariant y == Corner(j, g.px) && 0 <= j <= g.rows
      invariant numQuads <= num <= quads.Length && quads[..numQuads] == old(quads[..numQuads])
      invariant fresh(visited) && Inv(g, visited[..], quads[numQuads..num], optimize, 0, j)
      decreases g.rows - j
    {
      CornerOrder(j, g.rows, g.px);
      num := InsertRow(quads, numQuads, num, g, optimize, visited, y, j);
      NextRow(g, visited[..], quads[numQuads..num], optimize, j);
      CornerAdd(j, 1, g.px);
      y, j := y + g.px, j + 1;
    }
    CornerOrder(j, g.rows, g.px);
    InvGivesCover(g, visited[..], quads[numQuads..num], optimize);
    forall k | numQuads <= k < num && !optimize ensures quads[k].cw == 1 == quads[k].ch {
      assert quads[k] == quads[numQuads..num][k - numQuads];
    }
  }

  /** The inner loop of InsertPixelArtQuads over one row of cells. */
  method InsertRow(quads: array<Rect>, numQuads: nat, start: nat, g: Grid, optimize: bool, visited: array<bool>,
                   y: nat, ghost j: nat) returns (num: nat)
    requires g.Valid() && numQuads + g.cols * g.rows <= quads.Length && numQuads <= start <= quads.Length
    requires j < g.rows && y == Corner(j, g.px)
    requires Inv(g, visited[..], quads[numQuads..start], optimize, 0, j)
    modifies quads, visited
    ensures numQuads <= num <= quads.Length && quads[..numQuads] == old(quads[..numQuads])
    ensures Inv(g, visited[..], quads[numQuads..num], optimize, g.cols, j)
  {
    hide Packing, Covered, CoveredSoFar, MaskInv, Mark, Corner;
    num := start;
    var x := 0;
    ghost var i := 0;
    CornerOrder(0, g.cols, g.px);
    while x < g.img.width
      invariant x == Corner(i, g.px) && 0 <= i <= g.cols
      invariant numQuads <= num <= quads.Length && quads[..numQuads] == old(quads[..numQuads])
      invariant Inv(g, visited[..], quads[numQuads..num], optimize, i, j)
      decreases g.cols - i
    {
      CornerOrder(i, g.cols, g.px);
      num := InsertCell(quads, numQuads, num, g, optimize, visited, x, y, i, j);
      CornerAdd(i, 1, g.px);
      x, i := x + g.px, i + 1;
    }
    CornerOrder(i, g.cols, g.px);
  }

  /** The body of the loops: one cell. */
  method InsertCell(quads: array<Rect>, numQuads: nat, start: nat, g: Grid, optimize: bool, visited: array<bool>,
                    x: nat, y: nat, ghost i: nat, ghost j: nat) returns (num: nat)
    requires g.Valid() && numQuads + g.cols * g.rows <= quads.Length && numQuads <= start <= quads.Length
    requires g.Inside(i, j) && x == Corner(i, g.px) && y == Corner(j, g.px)
    requires Inv(g, visited[..], quads[numQuads..start], optimize, i, j)
    modifies quads, visited
    ensures numQuads <= num <= quads.Length && quads[..numQuads] == old(quads[..numQuads])
    ensures Inv(g, visited[..], quads[numQuads..num], optimize, i + 1, j)
  {
    hide Packing, Covered, CoveredSoFar, MaskInv, Index, Greedy, Marks, Mark, Free, Corner, PixelAt;
    num := start;
    ghost var mask, rs := visited[..], quads[numQuads..start];
    InvSizes(g, mask, rs, optimize, i, j);
    CornerInside(g, i, j);
    IndexInside(g.img.width, g.img.height, x, y);
    MarkAt(g, mask, i, j, x, y);
    var pixel := PixelAt(g.img, x, y);
    if visited[Index(g.img.width, x, y)] || pixel.a == 0 {
      SkipCell(g, mask, rs, optimize, i, j);
      return;
    }
    var width, height := 1, 1;
    if optimize {
      width, height := GetOptimizedQuadSize(g, pixel, i, j, x, y, visited);
      PlaceGreedy(g, mask, visited[..], rs, i, j, width, height, pixel);
    } else {
      PlaceSingle(g, mask, rs, i, j);
    }
    CountBelow(g, i, j);
    CornerDiv(i, g.px);
    CornerDiv(j, g.px);
    quads[num] := Rect(x / g.px, y / g.px, width, height, pixel);
    num := num + 1;
    assert quads[numQuads..num] == rs + [Rect(i, j, width, height, pixel)];
  }

  lemma InvSizes(g: Grid, mask: seq<bool>, rs: seq<Rect>, optimize: bool, i: nat, j: nat)
    requires g.Valid() && Inv(g, mask, rs, optimize, i, j)
    ensures |mask| == g.img.height * g.img.width && |rs| <= j * g.cols + i
  {
  }

  lemma MarkAt(g: Grid, mask: seq<bool>, i: nat, j: nat, x: nat, y: nat)
    requires g.Valid() && |mask| == g.img.height * g.img.width && g.Inside(i, j)
    requires x == Corner(i, g.px) && y == Corner(j, g.px)
    ensures Index(g.img.width, x, y) < |mask| && mask[Index(g.img.width, x, y)] == Mark(g, mask, i, j)
    ensures PixelAt(g.img, x, y) == g.Cell(i, j)
    ensures !Mark(g, mask, i, j) && g.Cell(i, j).a > 0 ==> Free(g, mask, i, j, g.Cell(i, j))
  {
    hide Corner, Index, PixelAt;
    CornerInside(g, i, j);
    IndexInside(g.img.width, g.img.height, x, y);
  }
}
