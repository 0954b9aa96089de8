/** The loops of src/tools/map_create_pixelart.cpp that grow rectangles over the visited mask. */
module PixelArtMerge {
  import opened Arith
  import opened PixelArt

  /** IsPixelOptimizable */
  predicate IsPixelOptimizable(img: Image, x: nat, y: nat, color: Color, mask: seq<bool>)
    requires img.Valid() && |mask| == img.height * img.width
  {
    x < img.width && y < img.height &&
    (IndexInside(img.width, img.height, x, y); !mask[Index(img.width, x, y)]) &&
    PixelAt(img, x, y).a > 0 && PixelAt(img, x, y) == color
  }

  /** The corner of a cell lies in the image exactly when the cell lies in the grid. */
  lemma CornerInside(g: Grid, i: nat, j: nat)
    requires g.Valid()
    ensures 0 <= Corner(i, g.px) && 0 <= Corner(j, g.px)
    ensures Corner(i, g.px) < g.img.width <==> i < g.cols
    ensures Corner(j, g.px) < g.img.height <==> j < g.rows
  {
    hide Corner;
    CornerOrder(0, i, g.px);
    CornerOrder(0, j, g.px);
    CornerOrder(i, g.cols, g.px);
    CornerOrder(j, g.rows, g.px);
  }

  /** Whether the corner of a cell is marked. */
  ghost function Mark(g: Grid, mask: seq<bool>, a: nat, b: nat): bool
    requires g.Valid() && |mask| == g.img.height * g.img.width && g.Inside(a, b)
  {
    CornerInside(g, a, b);
    IndexInside(g.img.width, g.img.height, Corner(a, g.px), Corner(b, g.px));
    mask[Index(g.img.width, Corner(a, g.px), Corner(b, g.px))]
  }

  /** A cell of the grid that is unmarked and of a visible color. */
  ghost predicate Free(g: Grid, mask: seq<bool>, i: nat, j: nat, color: Color)
    requires g.Valid() && |mask| == g.img.height * g.img.width
  {
    g.Inside(i, j) && !Mark(g, mask, i, j) && g.Cell(i, j) == color && color.a > 0
  }

  /** The pixel test at the corner of a cell is about the cell: when the pixel size divides the image
      it never looks at a cell that is cut off. */
  lemma OptimizableMeansFree(g: Grid, mask: seq<bool>, x: nat, y: nat, i: nat, j: nat, color: Color)
    requires g.Valid() && |mask| == g.img.height * g.img.width
    requires x == Corner(i, g.px) && y == Corner(j, g.px)
    ensures IsPixelOptimizable(g.img, x, y, color, mask) <==> Free(g, mask, i, j, color)
  {
    hide Corner, Index, PixelAt;
    CornerInside(g, i, j);
  }

  // ---- SetVisitedPixels ----

  predicate InRegion(x: int, y: int, x0: int, y0: int, x1: int, y1: int) {
    x0 <= x < x1 && y0 <= y < y1
  }

  /** new is old with the pixels of a region marked, the region given row by row. */
  ghost predicate Marks(img: Image, before: seq<bool>, after: seq<bool>, x0: nat, y0: nat, x1: nat, y1: nat, x: nat) {
    && |before| == |after| == img.height * img.width
    && forall x', y' :: 0 <= x' < img.width && 0 <= y' < img.height ==>
         0 <= Index(img.width, x', y') < |after| &&
         (after[Index(img.width, x', y')] <==>
           before[Index(img.width, x', y')] || InRegion(x', y', x0, y0, x1, y1) || InRegion(x', y', x0, y1, x, y1 + 1))
  }

  lemma MarkOne(img: Image, before: seq<bool>, after: seq<bool>, x0: nat, y0: nat, x1: nat, y: nat, x: nat)
    requires Marks(img, before, after, x0, y0, x1, y, x) && x0 <= x < img.width && y < img.height
    ensures Index(img.width, x, y) < |after|
    ensures Marks(img, before, after[Index(img.width, x, y) := true], x0, y0, x1, y, x + 1)
  {
    hide Index;
    IndexInside(img.width, img.height, x, y);
    var n := after[Index(img.width, x, y) := true];
    forall x', y' | 0 <= x' < img.width && 0 <= y' < img.height
      ensures 0 <= Index(img.width, x', y') < |n|
      ensures n[Index(img.width, x', y')] <==>
           before[Index(img.width, x', y')] || InRegion(x', y', x0, y0, x1, y) || InRegion(x', y', x0, y, x + 1, y + 1)
    {
      IndexInside(img.width, img.height, x', y');
      IndexInjective(img.width, x, y, x', y');
    }
  }

  /** SetVisitedPixels */
  method SetVisitedPixels(img: Image, posX: nat, posY: nat, width: nat, height: nat, visited: array<bool>)
    requires img.Valid() && visited.Length == img.height * img.width
    requires posX + width <= img.width && posY + height <= img.height
    modifies visited
    ensures Marks(img, old(visited[..]), visited[..], posX, posY, posX + width, posY + height, posX)
  {
    hide Index;
    ghost var before := visited[..];
    forall x', y' | 0 <= x' < img.width && 0 <= y' < img.height ensures 0 <= Index(img.width, x', y') < |before| {
      IndexInside(img.width, img.height, x', y');
    }
    var y := posY;
    while y < posY + height
      invariant posY <= y <= posY + height
      invariant Marks(img, before, visited[..], posX, posY, posX + width, y, posX)
    {
      var x := posX;
      while x < posX + width
        invariant posX <= x <= posX + width
        invariant Marks(img, before, visited[..], posX, posY, posX + width, y, x)
      {
        MarkOne(img, before, visited[..], posX, posY, posX + width, y, x);
        visited[Index(img.width, x, y)] := true;
        x := x + 1;
      }
      y := y + 1;
    }
  }

  // ---- GetOptimizedQuadSize ----

  /** All cells of column i in rows j .. j + n are free. */
  ghost predicate ColumnFree(g: Grid, mask: seq<bool>, i: nat, j: nat, n: nat, color: Color)
    requires g.Valid() && |mask| == g.img.height * g.img.width
  {
    forall k: nat :: j <= k < j + n ==> Free(g, mask, i, k, color)
  }

  /** The rectangle the greedy growth picks at cell (i, j): the longest run of free cells in the row,
      as high as every column of the run allows. */
  ghost predicate Greedy(g: Grid, mask: seq<bool>, i: nat, j: nat, cw: nat, ch: nat, color: Color)
    requires g.Valid() && |mask| == g.img.height * g.img.width
  {
    && cw > 0 && ch > 0
    && (forall c: nat :: i <= c < i + cw ==> ColumnFree(g, mask, c, j, ch, color))
    && !Free(g, mask, i + cw, j, color)
    && SomeColumnEnds(g, mask, i, cw, j + ch, color)
  }

  ghost predicate SomeColumnEnds(g: Grid, mask: seq<bool>, i: nat, cw: nat, row: nat, color: Color)
    requires g.Valid() && |mask| == g.img.height * g.img.width
  {
    exists c: nat :: i <= c < i + cw && !Free(g, mask, c, row, color)
  }

  /** The inner loop: how many cells of column `i` are free from row j on, at most `limit` (0: no
      limit).  The result is in pixels. */
  method ColumnHeight(g: Grid, ghost i: nat, ghost j: nat, x: nat, y: nat, color: Color, visited: array<bool>, limit: nat, ghost cl: nat)
    returns (h: nat, ghost n: nat)
    requires g.Valid() && visited.Length == g.img.height * g.img.width
    requires x == Corner(i, g.px) && y == Corner(j, g.px) && limit == Corner(cl, g.px)
    requires Free(g, visited[..], i, j, color)
    ensures h == Corner(n, g.px) && n > 0 && ColumnFree(g, visited[..], i, j, n, color)
    ensures (cl > 0 && n == cl) || !Free(g, visited[..], i, j + n, color)
    ensures cl > 0 ==> n <= cl
  {
    hide IsPixelOptimizable, Corner, Free;
    h, n := 0, 0;
    CornerOrder(0, cl, g.px);
    CornerAdd(j, 0, g.px);
    OptimizableMeansFree(g, visited[..], x, y + h, i, j, color);
    while IsPixelOptimizable(g.img, x, y + h, color, visited[..]) && (limit == 0 || h < limit)
      invariant h == Corner(n, g.px) && y + h == Corner(j + n, g.px)
      invariant ColumnFree(g, visited[..], i, j, n, color)
      invariant cl > 0 ==> n <= cl
      invariant IsPixelOptimizable(g.img, x, y + h, color, visited[..]) <==> Free(g, visited[..], i, j + n, color)
      decreases g.rows - (j + n)
    {
      FreeIsInside(g, visited[..], i, j + n, color);
      CornerOrder(n, cl, g.px);
      CornerAdd(n, 1, g.px);
      CornerAdd(j + n, 1, g.px);
      ColumnGrows(g, visited[..], i, j, n, color);
      h, n := h + g.px, n + 1;
      OptimizableMeansFree(g, visited[..], x, y + h, i, j + n, color);
    }
    CornerOrder(n, cl, g.px);
    CornerOrder(0, n, g.px);
  }

  lemma FreeIsInside(g: Grid, mask: seq<bool>, i: nat, j: nat, color: Color)
    requires g.Valid() && |mask| == g.img.height * g.img.width && Free(g, mask, i, j, color)
    ensures i < g.cols && j < g.rows
  {
  }

  lemma ColumnGrows(g: Grid, mask: seq<bool>, i: nat, j: nat, n: nat, color: Color)
    requires g.Valid() && |mask| == g.img.height * g.img.width
    requires ColumnFree(g, mask, i, j, n, color) && Free(g, mask, i, j + n, color)
    ensures ColumnFree(g, mask, i, j, n + 1, color)
  {
    hide Free;
  }

  /** What the outer loop has found after w columns. */
  ghost predicate Growing(g: Grid, mask: seq<bool>, i: nat, j: nat, w: nat, h: nat, color: Color)
    requires g.Valid() && |mask| == g.img.height * g.img.width
  {
    && (w == 0 <==> h == 0)
    && (forall c: nat :: i <= c < i + w ==> ColumnFree(g, mask, c, j, h, color))
    && (w > 0 ==> SomeColumnEnds(g, mask, i, w, j + h, color))
  }

  lemma ColumnShrinks(g: Grid, mask: seq<bool>, c: nat, j: nat, n: nat, m: nat, color: Color)
    requires g.Valid() && |mask| == g.img.height * g.img.width
    requires ColumnFree(g, mask, c, j, n, color) && m <= n
    ensures ColumnFree(g, mask, c, j, m, color)
  {
  }

  lemma GrowColumn(g: Grid, mask: seq<bool>, i: nat, j: nat, w: nat, h: nat, n: nat, color: Color)
    requires g.Valid() && |mask| == g.img.height * g.img.width
    requires Growing(g, mask, i, j, w, h, color)
    requires n > 0 && ColumnFree(g, mask, i + w, j, n, color) && (h > 0 ==> n <= h)
    requires (h > 0 && n == h) || !Free(g, mask, i + w, j + n, color)
    ensures Growing(g, mask, i, j, w + 1, n, color)
  {
    hide Free, ColumnFree;
    forall c: nat | i <= c < i + w + 1 ensures ColumnFree(g, mask, c, j, n, color) {
      if c < i + w { ColumnShrinks(g, mask, c, j, h, n, color); }
    }
    if h > 0 && n == h {
      var c: nat :| i <= c < i + w && !Free(g, mask, c, j + h, color);
    }
  }

  /** GetOptimizedQuadSize: picks the greedy rectangle and marks its pixels. */
  method GetOptimizedQuadSize(g: Grid, color: Color, ghost i: nat, ghost j: nat, posX: nat, posY: nat, visited: array<bool>)
    returns (width: nat, height: nat)
    requires g.Valid() && visited.Length == g.img.height * g.img.width
    requires posX == Corner(i, g.px) && posY == Corner(j, g.px) && Free(g, visited[..], i, j, color)
    modifies visited
    ensures Greedy(g, old(visited[..]), i, j, width, height, color)
    ensures Corner(i + width, g.px) <= g.img.width && Corner(j + height, g.px) <= g.img.height
    ensures Marks(g.img, old(visited[..]), visited[..], posX, posY, Corner(i + width, g.px), Corner(j + height, g.px), posX)
  {
    hide IsPixelOptimizable, Free, ColumnFree, Growing, Greedy, Marks, Corner;
    ghost var mask := visited[..];
    var w, optimizedWidth, optimizedHeight := 0, 0, 0;
    ghost var cw, ch := 0, 0;
    CornerOrder(0, 0, g.px);
    EmptyGrowth(g, mask, i, j, color);
    OptimizableMeansFree(g, mask, posX, posY, i, j, color);
    while IsPixelOptimizable(g.img, posX + w, posY, color, visited[..])
      invariant visited[..] == mask
      invariant w == optimizedWidth == Corner(cw, g.px) && posX + w == Corner(i + cw, g.px)
      invariant optimizedHeight == Corner(ch, g.px)
      invariant Growing(g, mask, i, j, cw, ch, color)
      invariant IsPixelOptimizable(g.img, posX + w, posY, color, mask) <==> Free(g, mask, i + cw, j, color)
      decreases g.cols - (i + cw)
    {
      FreeIsInside(g, mask, i + cw, j, color);
      var h, n := ColumnHeight(g, i + cw, j, posX + w, posY, color, visited, optimizedHeight, ch);
      GrowColumn(g, mask, i, j, cw, ch, n, color);
      CornerOrder(0, ch, g.px);
      CornerOrder(n, ch, g.px);
      CornerAdd(cw, 1, g.px);
      CornerAdd(i + cw, 1, g.px);
      if optimizedHeight == 0 || h < optimizedHeight {
        optimizedHeight := h;
      }
      w := w + g.px;
      optimizedWidth := w;
      cw, ch := cw + 1, n;
      OptimizableMeansFree(g, mask, posX + w, posY, i + cw, j, color);
    }
    GreedyInside(g, mask, i, j, cw, ch, color);
    CornerAdd(i, cw, g.px);
    CornerAdd(j, ch, g.px);
    SetVisitedPixels(g.img, posX, posY, optimizedWidth, optimizedHeight, visited);
    CornerDiv(cw, g.px);
    CornerDiv(ch, g.px);
    width, height := optimizedWidth / g.px, optimizedHeight / g.px;
  }

  lemma EmptyGrowth(g: Grid, mask: seq<bool>, i: nat, j: nat, color: Color)
    requires g.Valid() && |mask| == g.img.height * g.img.width
    ensures Growing(g, mask, i, j, 0, 0, color)
  {
    hide Free;
  }

  lemma GreedyInside(g: Grid, mask: seq<bool>, i: nat, j: nat, cw: nat, ch: nat, color: Color)
    requires g.Valid() && |mask| == g.img.height * g.img.width
    requires Growing(g, mask, i, j, cw, ch, color) && Free(g, mask, i, j, color) && !Free(g, mask, i + cw, j, color)
    ensures Greedy(g, mask, i, j, cw, ch, color)
    ensures Corner(i + cw, g.px) <= g.img.width && Corner(j + ch, g.px) <= g.img.height
  {
    hide Free, Corner;
    assert cw > 0;
    assert ColumnFree(g, mask, i + cw - 1, j, ch, color);
    assert Free(g, mask, i + cw - 1, j + ch - 1, color);
    FreeIsInside(g, mask, i + cw - 1, j + ch - 1, color);
    CornerOrder(i + cw, g.cols, g.px);
    CornerOrder(j + ch, g.rows, g.px);
  }
}
