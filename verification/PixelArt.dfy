/** src/tools/map_create_pixelart.cpp: an image is turned into coloured rectangles, greedily merging
    equal cells that a mask has not marked as used. */
module PixelArt {
  import opened Utf8
  import opened Arith

  datatype Color = Color(r: Byte, g: Byte, b: Byte, a: Byte)

  /** An RGB or RGBA image, row by row. */
  datatype Image = Image(width: nat, height: nat, pixelSize: nat, data: seq<Byte>) {
    ghost predicate Valid() {
      width > 0 && height > 0 && (pixelSize == 3 || pixelSize == 4) && |data| == width * height * pixelSize
    }
  }

  function Index(width: nat, x: nat, y: nat): nat {
    x + y * width
  }

  lemma IndexInside(width: nat, height: nat, x: nat, y: nat)
    requires x < width && y < height
    ensures Index(width, x, y) < width * height == height * width
  {
    Distribute(width, height - 1 - y, y + 1);
    Distribute(width, y, 1);
    MulNonneg(width, height - 1 - y);
  }

  lemma IndexInjective(width: nat, x: nat, y: nat, x': nat, y': nat)
    requires x < width && x' < width
    ensures Index(width, x, y) == Index(width, x', y') ==> x == x' && y == y'
  {
    if Index(width, x, y) == Index(width, x', y') {
      DivModUnique(Index(width, x, y), width, y, x);
      DivModUnique(Index(width, x, y), width, y', x');
    }
  }

  lemma PixelInside(img: Image, x: nat, y: nat)
    requires img.Valid() && x < img.width && y < img.height
    ensures x * img.pixelSize + img.width * img.pixelSize * y + img.pixelSize <= |img.data|
  {
    IndexInside(img.width, img.height, x, y);
    var n, i, p := img.width * img.height, Index(img.width, x, y), img.pixelSize;
    Distribute(p, n - 1 - i, i + 1);
    Distribute(p, x, y * img.width);
    Distribute(p, i, 1);
    MulNonneg(p, n - 1 - i);
    Associate(img.width, p, y);
    Associate(y, img.width, p);
  }

  /** GetPixelClamped: an image without alpha is opaque. */
  function PixelAt(img: Image, x: int, y: int): Color
    requires img.Valid()
  {
    var cx: nat, cy: nat := Clamp(x, 0, img.width - 1), Clamp(y, 0, img.height - 1);
    PixelInside(img, cx, cy);
    var p := cx * img.pixelSize + img.width * img.pixelSize * cy;
    Color(img.data[p], img.data[p + 1], img.data[p + 2], if img.pixelSize == 4 then img.data[p + 3] else 255)
  }

  /** The data of an RGBA image: its pixels row by row, four bytes each. */
  function Pixels(width: nat, height: nat, color: (int, int) -> Color): seq<Byte>
    requires width > 0
  {
    MulNonneg(width, height);
    seq<Byte>(width * height * 4, k requires 0 <= k => Component(color(k / 4 % width, k / 4 / width), k % 4))
  }

  function Component(c: Color, i: int): Byte { if i == 0 then c.r else if i == 1 then c.g else if i == 2 then c.b else c.a }

  /** Byte i of pixel (x, y). */
  lemma ByteOfPixel(width: nat, height: nat, color: (int, int) -> Color, x: nat, y: nat, i: nat)
    requires x < width && y < height && i < 4
    ensures var p := x * 4 + width * 4 * y;
            0 <= p && p + i < |Pixels(width, height, color)| && Pixels(width, height, color)[p + i] == Component(color(x, y), i)
  {
    hide Component;
    PixelPlace(width, x, y);
    IndexInside(width, height, x, y);
    var q: nat := y * width + x;
    DivModUnique(4 * q + i, 4, q, i);
  }

  /** Reading a pixel gives the color written there, and outside the image that of the nearest pixel. */
  lemma PixelsRead(width: nat, height: nat, color: (int, int) -> Color, x: int, y: int)
    requires width > 0 && height > 0
    ensures var img := Image(width, height, 4, Pixels(width, height, color));
            && img.Valid()
            && PixelAt(img, x, y) == color(Clamp(x, 0, width - 1), Clamp(y, 0, height - 1))
  {
    hide Component, Pixels;
    PixelsSize(width, height, color);
    var cx: nat, cy: nat := Clamp(x, 0, width - 1), Clamp(y, 0, height - 1);
    ByteOfPixel(width, height, color, cx, cy, 0);
    ByteOfPixel(width, height, color, cx, cy, 1);
    ByteOfPixel(width, height, color, cx, cy, 2);
    ByteOfPixel(width, height, color, cx, cy, 3);
    Components(color(cx, cy));
  }

  lemma PixelsSize(width: nat, height: nat, color: (int, int) -> Color)
    requires width > 0
    ensures |Pixels(width, height, color)| == width * height * 4
  {
    MulNonneg(width, height);
  }

  /** Where the bytes of a pixel begin. */
  lemma PixelPlace(width: nat, x: nat, y: nat)
    requires x < width
    ensures var q := y * width + x;
            x * 4 + width * 4 * y == 4 * q && q / width == y && q % width == x
  {
    Associate(width, 4, y);
    Associate(4, width, y);
    DivModUnique(y * width + x, width, y, x);
  }

  lemma Components(c: Color)
    ensures c == Color(Component(c, 0), Component(c, 1), Component(c, 2), Component(c, 3))
  {
  }

  // ---- cells ----

  /** The first pixel, along one axis, of cell i. */
  function Corner(i: int, px: nat): (c: int)
    ensures i >= 0 ==> c >= 0
  {
    i * px
  }

  lemma CornerOrder(a: int, b: int, px: nat)
    requires px > 0
    ensures Corner(a, px) < Corner(b, px) <==> a < b
    ensures Corner(a, px) <= Corner(b, px) <==> a <= b
    ensures Corner(0, px) == 0
  {
    if a < b { ProductAtLeast(px, b - a); }
    if b < a { ProductAtLeast(px, a - b); }
    Distribute(px, b, -a);
  }

  lemma CornerAdd(a: int, b: int, px: nat)
    ensures Corner(a + b, px) == Corner(a, px) + Corner(b, px)
    ensures Corner(1, px) == px
  {
    Distribute(px, a, b);
  }

  lemma CornerDiv(i: nat, px: nat)
    requires px > 0
    ensures Corner(i, px) >= 0 && Corner(i, px) / px == i
  {
    CornerOrder(0, i, px);
    DivModUnique(Corner(i, px), px, i, 0);
  }

  // ---- rectangles of cells ----

  /** A quad: cw by ch cells from cell (cx, cy) on. */
  datatype Rect = Rect(cx: nat, cy: nat, cw: nat, ch: nat, color: Color)

  predicate Covers(r: Rect, i: int, j: int) {
    r.cx <= i < r.cx + r.cw && r.cy <= j < r.cy + r.ch
  }

  ghost predicate Covered(rs: seq<Rect>, i: int, j: int) {
    exists k :: 0 <= k < |rs| && Covers(rs[k], i, j)
  }

  /** The image consists of cols by rows cells of px by px pixels. */
  datatype Grid = Grid(img: Image, px: nat, cols: nat, rows: nat) {
    ghost predicate Valid() {
      img.Valid() && px > 0 && img.width == Corner(cols, px) && img.height == Corner(rows, px)
    }

    ghost predicate Inside(i: int, j: int) { 0 <= i < cols && 0 <= j < rows }

    /** The pixel sampled for a cell. */
    ghost function Cell(i: int, j: int): Color
      requires img.Valid()
    {
      PixelAt(img, Corner(i, px), Corner(j, px))
    }
  }

  /** The rectangle lies on visible cells of its own color. */
  ghost predicate Uniform(g: Grid, r: Rect)
    requires g.img.Valid()
  {
    forall i, j :: Covers(r, i, j) ==> g.Inside(i, j) && g.Cell(i, j) == r.color && r.color.a > 0
  }

  ghost predicate Disjoint(r: Rect, s: Rect) {
    forall i, j :: !(Covers(r, i, j) && Covers(s, i, j))
  }

  /** Pairwise disjoint, each of one visible color. */
  ghost predicate Packing(g: Grid, rs: seq<Rect>)
    requires g.img.Valid()
  {
    && (forall k :: 0 <= k < |rs| ==> Uniform(g, rs[k]))
    && (forall k, l :: 0 <= k < l < |rs| ==> Disjoint(rs[k], rs[l]))
  }

  /** ...and every visible cell is covered. */
  ghost predicate ExactCover(g: Grid, rs: seq<Rect>)
    requires g.img.Valid()
  {
    Packing(g, rs) && forall i, j :: g.Inside(i, j) && g.Cell(i, j).a > 0 ==> Covered(rs, i, j)
  }

  // ---- painting ----

  datatype Paint = Nothing | Painted(color: Color)

  /** What the quads show at a cell, later ones over earlier ones. */
  ghost function Shown(rs: seq<Rect>, i: int, j: int): Paint {
    if rs == [] then Nothing
    else if Covers(rs[|rs| - 1], i, j) then Painted(rs[|rs| - 1].color)
    else Shown(rs[..|rs| - 1], i, j)
  }

  lemma {:induction false} ShownWhere(rs: seq<Rect>, i: int, j: int)
    ensures !Covered(rs, i, j) ==> Shown(rs, i, j) == Nothing
    ensures Covered(rs, i, j) ==>
              exists k :: 0 <= k < |rs| && Covers(rs[k], i, j) && Shown(rs, i, j) == Painted(rs[k].color)
  {
    if rs != [] {
      var n := |rs| - 1;
      ShownWhere(rs[..n], i, j);
      if !Covers(rs[n], i, j) {
        if Covered(rs, i, j) {
          var k :| 0 <= k < |rs| && Covers(rs[k], i, j);
          assert rs[..n][k] == rs[k];
        }
        if Covered(rs[..n], i, j) {
          var k :| 0 <= k < n && Covers(rs[..n][k], i, j) && Shown(rs[..n], i, j) == Painted(rs[..n][k].color);
          assert rs[k] == rs[..n][k];
        }
      }
    }
  }

  /** An exact cover shows every visible cell in its color and nothing else. */
  lemma CoverShowsImage(g: Grid, rs: seq<Rect>, i: int, j: int)
    requires g.img.Valid() && ExactCover(g, rs)
    ensures Shown(rs, i, j) == if g.Inside(i, j) && g.Cell(i, j).a > 0 then Painted(g.Cell(i, j)) else Nothing
  {
    ShownWhere(rs, i, j);
    if Covered(rs, i, j) {
      var k :| 0 <= k < |rs| && Covers(rs[k], i, j) && Shown(rs, i, j) == Painted(rs[k].color);
      assert Uniform(g, rs[k]);
    }
  }

  /** So merged and unmerged quads paint the same image. */
  lemma SameImage(g: Grid, rs: seq<Rect>, rs': seq<Rect>)
    requires g.img.Valid() && ExactCover(g, rs) && ExactCover(g, rs')
    ensures forall i, j :: Shown(rs, i, j) == Shown(rs', i, j)
  {
    forall i, j ensures Shown(rs, i, j) == Shown(rs', i, j) {
      CoverShowsImage(g, rs, i, j);
      CoverShowsImage(g, rs', i, j);
    }
  }

  /** No cell is covered twice. */
  lemma CoveredOnce(g: Grid, rs: seq<Rect>, i: int, j: int, k: nat, l: nat)
    requires g.img.Valid() && Packing(g, rs)
    requires k < |rs| && l < |rs| && Covers(rs[k], i, j) && Covers(rs[l], i, j)
    ensures k == l
  {
    assert k < l ==> Disjoint(rs[k], rs[l]);
    assert l < k ==> Disjoint(rs[l], rs[k]);
  }
}
