/**
 * Pixel geometry of the board: where each cell's tile is anchored on the
 * canvas, the rectangle the cursor outlines, and how `make_tile` centres a
 * fitted image over the gradient and frames it with a black border
 * (main.py:6-15, 100-109, 117-118, 147-151).
 */
module Geometry {
  import opened Grid

  const SCREEN_WIDTH := 1170
  const SCREEN_HEIGHT := 2532
  const TILE_SIZE := 200
  const BORDER := 2
  /** `ImageOps.contain` fits each image into TILE_SIZE - PADDING on both axes. */
  const PADDING := 20
  /** Pixel offset of the top-left tile from the canvas corner. */
  const MARGIN := 100
  /** Edge of a bordered tile, and the distance between neighbouring tile origins. */
  const SPAN := TILE_SIZE + 2 * BORDER

  datatype Point = Point(x: int, y: int)

  /** An axis-aligned rectangle covering the pixels left <= x < right, top <= y < bottom. */
  datatype Rect = Rect(left: int, top: int, right: int, bottom: int)

  predicate Contains(b: Rect, pt: Point) {
    b.left <= pt.x < b.right && b.top <= pt.y < b.bottom
  }

  /** The canvas point at which the tile of cell `p` is anchored (north-west corner). */
  function CellOrigin(p: Cell): Point {
    Point(p.col * (TILE_SIZE + 2 * BORDER) + MARGIN, p.row * (TILE_SIZE + 2 * BORDER) + MARGIN)
  }

  /** The rectangle one bordered tile of cell `p` covers; the cursor outlines the same one. */
  function TileBox(p: Cell): Rect
  {
    var o := CellOrigin(p);
    Rect(o.x, o.y, o.x + SPAN, o.y + SPAN)
  }

  /** The cell whose tile covers canvas point `pt`: the inverse of `TileBox`. */
  function CellAt(pt: Point): Cell {
    Cell((pt.x - MARGIN) / SPAN, (pt.y - MARGIN) / SPAN)
  }

  /**
   * The outline drawn for cell `p` covers exactly the bordered tile drawn
   * there: the pixels from the tile's anchor across the black square that
   * `make_tile` returns, which are exactly the pixels belonging to `p`.
   */
  lemma HighlightOutlinesTile(p: Cell, w: int, h: int, pt: Point)
    requires 0 <= w <= TILE_SIZE - PADDING && 0 <= h <= TILE_SIZE - PADDING
    ensures var o, side := CellOrigin(p), MakeTile(w, h).side;
      Contains(TileBox(p), pt) <==> o.x <= pt.x < o.x + side && o.y <= pt.y < o.y + side
    ensures Contains(TileBox(p), pt) <==> CellAt(pt) == p
  {
    if Contains(TileBox(p), pt) {
      CellAtInverse(p, pt);
    }
  }

  /** Integer division undoes the multiplication by SPAN that placed a tile. */
  lemma DivSpan(q: int, d: int)
    requires 0 <= d < SPAN
    ensures (q * SPAN + d) / SPAN == q
  {
    var k := (q * SPAN + d) / SPAN;
    var m := (q * SPAN + d) % SPAN;
    assert q * SPAN + d == k * SPAN + m;
    assert (q - k) * SPAN == m - d;
  }

  /** Every pixel of a cell's tile maps back to that cell. */
  lemma CellAtInverse(p: Cell, pt: Point)
    requires Contains(TileBox(p), pt)
    ensures CellAt(pt) == p
  {
    DivSpan(p.col, pt.x - CellOrigin(p).x);
    DivSpan(p.row, pt.y - CellOrigin(p).y);
  }

  /** Distinct cells' tiles share no pixel. */
  lemma TilesDisjoint(p: Cell, q: Cell)
    requires p != q
    ensures forall pt :: !(Contains(TileBox(p), pt) && Contains(TileBox(q), pt))
  {
    forall pt | Contains(TileBox(p), pt)
      ensures !Contains(TileBox(q), pt)
    {
      CellAtInverse(p, pt);
      if Contains(TileBox(q), pt) {
        CellAtInverse(q, pt);
      }
    }
  }

  /** Neighbouring tiles abut: one ends exactly where the next begins. */
  lemma NeighboursAbut(p: Cell)
    ensures TileBox(Cell(p.col + 1, p.row)).left == TileBox(p).right
    ensures TileBox(Cell(p.col, p.row + 1)).top == TileBox(p).bottom
  {
  }

  /** Every tile of the grid lies inside the portrait screen. */
  lemma BoardOnScreen(p: Cell)
    requires InGrid(COLS, ROWS, p)
    ensures 0 <= TileBox(p).left && TileBox(p).right <= SCREEN_WIDTH
    ensures 0 <= TileBox(p).top && TileBox(p).bottom <= SCREEN_HEIGHT
  {
  }

  /**
   * The offset that centres an extent inside a space: the two leftover
   * margins differ by at most one pixel, the larger one after the image.
   */
  function Centre(space: int, extent: int): (offset: int)
    requires 0 <= extent <= space
    ensures 0 <= offset && offset + extent <= space
    ensures 0 <= (space - extent - offset) - offset <= 1
  {
    (space - extent) / 2
  }

  /** Only one offset splits the leftover space that evenly. */
  lemma CentreUnique(space: int, extent: int, offset: int)
    requires 0 <= extent <= space
    requires 0 <= (space - extent - offset) - offset <= 1
    ensures offset == Centre(space, extent)
  {
  }

  /**
   * Where `make_tile` pastes things: the fitted image at `image` inside the
   * gradient, and the gradient at `inner` inside a black square of edge `side`.
   */
  datatype Placement = Placement(image: Point, inner: Point, side: int)

  /** The layout of a tile whose contained image is `w` x `h` pixels. */
  function MakeTile(w: int, h: int): (t: Placement)
    requires 0 <= w <= TILE_SIZE - PADDING && 0 <= h <= TILE_SIZE - PADDING
    ensures t.side == SPAN
    ensures t.inner == Point(BORDER, BORDER) && t.inner.x + TILE_SIZE + BORDER == t.side
    ensures PADDING / 2 <= t.image.x && t.image.x + w <= TILE_SIZE - PADDING / 2
    ensures PADDING / 2 <= t.image.y && t.image.y + h <= TILE_SIZE - PADDING / 2
    ensures 0 <= (TILE_SIZE - w - t.image.x) - t.image.x <= 1
    ensures 0 <= (TILE_SIZE - h - t.image.y) - t.image.y <= 1
  {
    Placement(Point(Centre(TILE_SIZE, w), Centre(TILE_SIZE, h)), Point(BORDER, BORDER), TILE_SIZE + 2 * BORDER)
  }

  /** The fitted image, offset by the border, lies inside the bordered tile, clear of the frame. */
  lemma ImageInsideFrame(w: int, h: int)
    requires 0 <= w <= TILE_SIZE - PADDING && 0 <= h <= TILE_SIZE - PADDING
    ensures var t := MakeTile(w, h);
      BORDER < t.inner.x + t.image.x && t.inner.x + t.image.x + w < t.side - BORDER &&
      BORDER < t.inner.y + t.image.y && t.inner.y + t.image.y + h < t.side - BORDER
  {
  }
}
