/** The order in which the board's drawing loop appends new dictionary keys. */
module DrawOrder {
  import opened Grid

  /** `p` comes before `q` in the row-by-row order `draw_board` visits cells in. */
  predicate RowMajorBefore(p: Cell, q: Cell) {
    p.row < q.row || (p.row == q.row && p.col < q.col)
  }

  /** Every cell of `s` is a key `m0` lacks, in row `r` left of column `c`. */
  ghost predicate NewInRow<V>(s: seq<Cell>, m0: map<Cell, V>, c: int, r: int) {
    forall i :: 0 <= i < |s| ==> s[i] !in m0 && s[i].row == r && 0 <= s[i].col < c
  }

  /** The columns of the cells of `s` strictly increase. */
  ghost predicate LeftToRight(s: seq<Cell>) {
    forall i, j :: 0 <= i < j < |s| ==> s[i].col < s[j].col
  }

  /** Every cell of `s` is a key `m0` lacks, in a row above `r`. */
  ghost predicate NewAbove<V>(s: seq<Cell>, m0: map<Cell, V>, r: int) {
    forall i :: 0 <= i < |s| ==> s[i] !in m0 && s[i].row < r
  }

  /** The cells of `s` come in row-major order. */
  ghost predicate RowMajor(s: seq<Cell>) {
    forall i, j :: 0 <= i < j < |s| ==> RowMajorBefore(s[i], s[j])
  }

  /** Appending the new cells of row `r` to new cells of earlier rows gives new cells of rows up to `r`. */
  lemma NewAboveAppend<V>(a: seq<Cell>, b: seq<Cell>, s: seq<Cell>, m0: map<Cell, V>, c: int, r: int)
    requires NewAbove(a, m0, r) && NewInRow(b, m0, c, r) && s == a + b
    ensures NewAbove(s, m0, r + 1)
  {
    forall i | 0 <= i < |s|
      ensures s[i] !in m0 && s[i].row < r + 1
    {
      if i >= |a| {
        assert s[i] == b[i - |a|];
      }
    }
  }

  /**
   * Appending the cells of row `r`, left to right, to row-major cells of
   * earlier rows keeps the row-major order.
   */
  lemma RowMajorAppend<V>(a: seq<Cell>, b: seq<Cell>, s: seq<Cell>, m0: map<Cell, V>, c: int, r: int)
    requires NewAbove(a, m0, r) && RowMajor(a)
    requires NewInRow(b, m0, c, r) && LeftToRight(b)
    requires s == a + b
    ensures RowMajor(s)
  {
    forall i, j | 0 <= i < j < |s|
      ensures RowMajorBefore(s[i], s[j])
    {
      if j < |a| {
        assert s[i] == a[i] && s[j] == a[j];
      } else if i >= |a| {
        assert s[i] == b[i - |a|] && s[j] == b[j - |a|];
      } else {
        assert s[i] == a[i] && s[j] == b[j - |a|];
      }
    }
  }
}

/**
 * The tile dictionary as values: its entries, and what the drawing and
 * refreshing loops of the board do to it, step by step.
 */
module Tiles {
  import opened DrawOrder
  import opened Seqs
  import opened Grid
  import opened Geometry

  /** A tile bitmap ready for the canvas (an `ImageTk.PhotoImage`); its pixels are not modelled. */
  type Photo(==)

  /**
   * One entry of `tile_widgets`: the canvas image item showing the tile, the
   * bitmap it shows, and the point the item was created at.
   */
  datatype Widget = Widget(tileId: nat, photo: Photo, anchor: Point)

  /** `p` is a tile cell that `draw_board` has handled before reaching column `c` of row `r`. */
  predicate DrawnBefore(p: Cell, c: int, r: int) {
    InGrid(COLS, ROWS, p) && !InHole(p) && RowMajorBefore(p, Cell(c, r))
  }

  /** `p` is a tile cell of row `r` left of column `c`. */
  predicate RowBefore(p: Cell, c: int, r: int) {
    InGrid(COLS, ROWS, p) && !InHole(p) && p.row == r && p.col < c
  }

  /** Visiting cell `(c, r)` adds it, unless it is in the hole, to the cells handled. */
  lemma RowStep(c: int, r: int)
    requires 0 <= c < COLS && 0 <= r < ROWS
    ensures forall p :: RowBefore(p, c + 1, r) <==> RowBefore(p, c, r) || (p == Cell(c, r) && !InHole(p))
  {
  }

  /**
   * After columns `0..c-1` of row `r`, the map `m` holds the entries of `m0`
   * plus the tile cells of the row visited so far, each with its new tile and
   * an item id of at least `n0`; every other entry of `m0` is unchanged.
   */
  ghost predicate RowDrawn(m0: map<Cell, Widget>, n0: nat, m: map<Cell, Widget>, tiles: Cell -> Photo, c: int, r: int) {
    && (forall p :: p in m <==> p in m0 || RowBefore(p, c, r))
    && (forall p :: RowBefore(p, c, r) ==> m[p].photo == tiles(p) && n0 <= m[p].tileId)
    && (forall p :: !RowBefore(p, c, r) && p in m0 ==> m[p] == m0[p])
  }

  /**
   * Drawing cell `(c, r)` turned `m` into `m1`: a tile cell gets an entry
   * showing its new tile, with an item id of at least `n`; a cell of the hole
   * changes nothing, and no other entry changes.
   */
  ghost predicate CellDrawn(m: map<Cell, Widget>, n: nat, m1: map<Cell, Widget>, tiles: Cell -> Photo, c: int, r: int) {
    && (forall p :: p in m1 <==> p in m || (p == Cell(c, r) && !InHole(p)))
    && (!InHole(Cell(c, r)) ==> Cell(c, r) in m1 && m1[Cell(c, r)].photo == tiles(Cell(c, r)) && n <= m1[Cell(c, r)].tileId)
    && (forall p :: !(p == Cell(c, r) && !InHole(p)) && p in m ==> m1[p] == m[p])
  }

  /** Drawing cell `(c, r)` into `m`, giving `m1`, extends `RowDrawn` by one column. */
  lemma RowDrawnStep(m0: map<Cell, Widget>, n0: nat, m: map<Cell, Widget>, n: nat, m1: map<Cell, Widget>, tiles: Cell -> Photo, c: int, r: int)
    requires 0 <= c < COLS && 0 <= r < ROWS && n0 <= n
    requires RowDrawn(m0, n0, m, tiles, c, r) && CellDrawn(m, n, m1, tiles, c, r)
    ensures RowDrawn(m0, n0, m1, tiles, c + 1, r)
  {
    RowStep(c, r);
  }


  /** Finishing row `r` adds its tile cells to the cells handled. */
  lemma RowsStep(r: int)
    requires 0 <= r < ROWS
    ensures forall p :: DrawnBefore(p, 0, r + 1) <==> DrawnBefore(p, 0, r) || RowBefore(p, 4, r)
  {
  }

  /**
   * After rows `0..r-1`, the map `m` holds the entries of `m0` plus every tile
   * cell of those rows, each with its new tile and an item id of at least
   * `n0`; every other entry of `m0` is unchanged.
   */
  ghost predicate RowsDrawn(m0: map<Cell, Widget>, n0: nat, m: map<Cell, Widget>, tiles: Cell -> Photo, r: int) {
    && (forall p :: p in m <==> p in m0 || DrawnBefore(p, 0, r))
    && (forall p :: DrawnBefore(p, 0, r) ==> m[p].photo == tiles(p) && n0 <= m[p].tileId)
    && (forall p :: !DrawnBefore(p, 0, r) && p in m0 ==> m[p] == m0[p])
  }

  /** Drawing row `r` on top of rows `0..r-1` gives rows `0..r`. */
  lemma RowsDrawnStep(m0: map<Cell, Widget>, n0: nat, m: map<Cell, Widget>, n1: nat, m1: map<Cell, Widget>, tiles: Cell -> Photo, r: int)
    requires 0 <= r < ROWS && n0 <= n1
    requires RowsDrawn(m0, n0, m, tiles, r)
    requires RowDrawn(m, n1, m1, tiles, 4, r)
    ensures RowsDrawn(m0, n0, m1, tiles, r + 1)
  {
    RowsStep(r);
  }

  /** Once every row is drawn, the tile cells are exactly `Occupied()`. */
  lemma RowsDrawnAll(m0: map<Cell, Widget>, n0: nat, m: map<Cell, Widget>, tiles: Cell -> Photo)
    requires RowsDrawn(m0, n0, m, tiles, ROWS)
    ensures m.Keys == m0.Keys + Occupied()
    ensures forall p :: p in Occupied() ==> m[p].photo == tiles(p) && n0 <= m[p].tileId
    ensures forall p :: p in m0 && p !in Occupied() ==> m[p] == m0[p]
  {
    assert forall p :: DrawnBefore(p, 0, ROWS) <==> p in Occupied();
  }

  /**
   * The keys that drawing columns `0..c-1` of row `r` appends to a dictionary
   * that held the keys of `m0`: the tile cells not yet present, left to right.
   */
  ghost function RowNew(m0: map<Cell, Widget>, c: int, r: int): seq<Cell>
    decreases c
  {
    if c <= 0 then []
    else RowNew(m0, c - 1, r) + (if !InHole(Cell(c - 1, r)) && Cell(c - 1, r) !in m0 then [Cell(c - 1, r)] else [])
  }

  /** The keys appended in row `r` are new, lie left of column `c`, and ascend. */
  lemma {:induction false} RowNewProps(m0: map<Cell, Widget>, c: int, r: int)
    ensures NewInRow(RowNew(m0, c, r), m0, c, r) && LeftToRight(RowNew(m0, c, r))
  {
    if c > 0 {
      RowNewProps(m0, c - 1, r);
    }
  }

  /** Appending what cell `(c, r)` adds to what the columns before it added gives what columns `0..c` add. */
  lemma RowNewStep(o0: seq<Cell>, m0: map<Cell, Widget>, m: map<Cell, Widget>, step: seq<Cell>, c: int, r: int)
    requires 0 <= c && (Cell(c, r) in m <==> Cell(c, r) in m0)
    requires step == if !InHole(Cell(c, r)) && Cell(c, r) !in m then [Cell(c, r)] else []
    ensures o0 + RowNew(m0, c, r) + step == o0 + RowNew(m0, c + 1, r)
  {
    AppendAssoc(o0, RowNew(m0, c, r), step);
  }

  /** Only which cells of row `r` are present decides what the row appends. */
  lemma {:induction false} RowNewFrame(m: map<Cell, Widget>, m0: map<Cell, Widget>, c: int, r: int)
    requires forall p: Cell :: p.row == r ==> (p in m <==> p in m0)
    ensures RowNew(m, c, r) == RowNew(m0, c, r)
  {
    if c > 0 {
      RowNewFrame(m, m0, c - 1, r);
      assert Cell(c - 1, r) in m <==> Cell(c - 1, r) in m0;
    }
  }

  /** The keys that drawing columns `0..c-1` of rows `0..r-1` appends, row after row. */
  ghost function BoardNew(m0: map<Cell, Widget>, c: int, r: int): seq<Cell>
    decreases r
  {
    if r <= 0 then [] else BoardNew(m0, c, r - 1) + RowNew(m0, c, r - 1)
  }

  /**
   * Drawing rows `0..r-1` leaves the cells of row `r` as they were in `m0`, so
   * what drawing row `r` into `m` appends extends what the draw has appended.
   */
  lemma BoardNewStep(o0: seq<Cell>, m0: map<Cell, Widget>, n0: nat, m: map<Cell, Widget>, tiles: Cell -> Photo, r: int)
    requires 0 <= r && RowsDrawn(m0, n0, m, tiles, r)
    ensures o0 + BoardNew(m0, COLS, r) + RowNew(m, COLS, r) == o0 + BoardNew(m0, COLS, r + 1)
  {
    RowNewFrame(m, m0, COLS, r);
    AppendAssoc(o0, BoardNew(m0, COLS, r), RowNew(m0, COLS, r));
  }

  /** The keys the draw appends are new and lie above row `r`. */
  lemma {:induction false} BoardNewAbove(m0: map<Cell, Widget>, c: int, r: int)
    ensures NewAbove(BoardNew(m0, c, r), m0, r)
  {
    if r > 0 {
      BoardNewAbove(m0, c, r - 1);
      RowNewProps(m0, c, r - 1);
      assert BoardNew(m0, c, r) == BoardNew(m0, c, r - 1) + RowNew(m0, c, r - 1);
      NewAboveAppend(BoardNew(m0, c, r - 1), RowNew(m0, c, r - 1), BoardNew(m0, c, r), m0, c, r - 1);
    }
  }

  /** Drawing row `r - 1` after rows `0..r-2` keeps the appended keys in row-major order. */
  lemma BoardRowMajorStep(m0: map<Cell, Widget>, c: int, r: int)
    requires r > 0 && RowMajor(BoardNew(m0, c, r - 1))
    ensures RowMajor(BoardNew(m0, c, r))
  {
    BoardNewAbove(m0, c, r - 1);
    RowNewProps(m0, c, r - 1);
    assert BoardNew(m0, c, r) == BoardNew(m0, c, r - 1) + RowNew(m0, c, r - 1);
    RowMajorAppend(BoardNew(m0, c, r - 1), RowNew(m0, c, r - 1), BoardNew(m0, c, r), m0, c, r - 1);
  }

  /** The keys the draw appends come in row-major order. */
  lemma {:induction false} BoardNewRowMajor(m0: map<Cell, Widget>, c: int, r: int)
    ensures RowMajor(BoardNew(m0, c, r))
  {
    if r > 0 {
      BoardNewRowMajor(m0, c, r - 1);
      BoardRowMajorStep(m0, c, r);
    }
  }

  /**
   * After the first `i` keys of `keys` are refreshed, `m` is `m0` with each of
   * those entries showing its new tile and every other entry unchanged.
   */
  ghost predicate RefreshedUpTo(m0: map<Cell, Widget>, m: map<Cell, Widget>, tiles: Cell -> Photo, keys: seq<Cell>, i: int)
    requires 0 <= i <= |keys|
  {
    && m.Keys == m0.Keys
    && forall p :: p in m0 ==> m[p] == if p in keys[..i] then m0[p].(photo := tiles(p)) else m0[p]
  }

  /** Retiling key `keys[i]` extends the refreshed prefix by one key. */
  lemma RefreshedStep(m0: map<Cell, Widget>, m: map<Cell, Widget>, m1: map<Cell, Widget>, tiles: Cell -> Photo, keys: seq<Cell>, i: int)
    requires 0 <= i < |keys| && keys[i] in m0
    requires RefreshedUpTo(m0, m, tiles, keys, i)
    requires m1 == m[keys[i] := m[keys[i]].(photo := tiles(keys[i]))]
    ensures RefreshedUpTo(m0, m1, tiles, keys, i + 1)
  {
    assert keys[..i + 1] == keys[..i] + [keys[i]];
  }

  /** Once every key is refreshed, every entry shows its new tile. */
  lemma RefreshedAll(m0: map<Cell, Widget>, m: map<Cell, Widget>, tiles: Cell -> Photo, keys: seq<Cell>)
    requires forall p :: p in m0 ==> p in keys
    requires RefreshedUpTo(m0, m, tiles, keys, |keys|)
    ensures m.Keys == m0.Keys
    ensures forall p :: p in m ==> m[p] == m0[p].(photo := tiles(p))
  {
    assert keys[..|keys|] == keys;
  }
}

/**
 * The board object: the ring of cursor positions, the dictionary from cell to
 * displayed tile, and the highlight cursor (main.py:48-155).
 *
 * The Tk canvas is reduced to what the board observes of it: every item it
 * creates gets a fresh integer id (`nextItem` counts them), and the single
 * item tagged "cursor" is `cursor`. The random choices of `make_tile` and
 * `highlight_cursor` are supplied by the caller.
 */
module Board {
  import opened DrawOrder
  import opened Tiles
  import opened Wrappers
  import opened Seqs
  import opened Grid
  import opened Geometry
  import opened Loader

  /** The outline drawn around the active tile. */
  datatype Highlight = Highlight(itemId: nat, box: Rect)

  /**
   * The tile dictionary is consistent: `order` lists its keys once each, and
   * every entry's item sits at its cell's origin, has an id below `nextItem`,
   * and is recorded in `itemCell` as the item created for that cell.
   */
  ghost predicate TilesValid(tiles: map<Cell, Widget>, order: seq<Cell>, nextItem: nat, itemCell: map<nat, Cell>) {
    && Distinct(order)
    && (forall p :: p in tiles <==> p in order)
    && (forall p :: p in tiles ==> tiles[p].anchor == CellOrigin(p) && tiles[p].tileId < nextItem)
    && (forall p :: p in tiles ==> tiles[p].tileId in itemCell && itemCell[tiles[p].tileId] == p)
  }

  /** Distinct cells show distinct canvas items. */
  lemma TileIdsDistinct(tiles: map<Cell, Widget>, order: seq<Cell>, nextItem: nat, itemCell: map<nat, Cell>)
    requires TilesValid(tiles, order, nextItem, itemCell)
    ensures forall p, q :: p in tiles && q in tiles && p != q ==> tiles[p].tileId != tiles[q].tileId
  {
  }

  /** The highlight, when drawn, has an id below `nextItem` that no tile item uses. */
  ghost predicate CursorValid(cursor: Option<Highlight>, tiles: map<Cell, Widget>, nextItem: nat) {
    cursor.Some? ==> cursor.value.itemId < nextItem && forall p :: p in tiles ==> tiles[p].tileId != cursor.value.itemId
  }

  class PressYourLuckBoard {
    const imageDir: string
    /** The paths of the tile images, kept for the lifetime of the board. */
    const images: seq<string>
    /** The cursor ring, clockwise from the top-left corner. */
    var positions: seq<Cell>
    var tileWidgets: map<Cell, Widget>
    /** The keys of `tileWidgets` in insertion order, the order Python iterates a dict in. */
    var order: seq<Cell>
    var cursorIndex: int
    var cursor: Option<Highlight>
    var nextItem: nat
    /** The cell each tile item was created for, by item id. */
    ghost var itemCell: map<nat, Cell>

    ghost predicate Valid()
      reads this
    {
      && images != []
      && positions == Ring(COLS, ROWS)
      && TilesConsistent()
      && 0 <= cursorIndex < |positions|
    }

    /** The part of `Valid` that drawing a tile can affect. */
    ghost predicate TilesConsistent()
      reads this
    {
      TilesValid(tileWidgets, order, nextItem, itemCell) && CursorValid(cursor, tileWidgets, nextItem)
    }

    /** Every tile cell, and no other, has an entry. */
    ghost predicate Populated()
      reads this
    {
      tileWidgets.Keys == Occupied()
    }

    /**
     * Models main.py:49-91 from the point where at least one image was found:
     * build the ring, draw the board, then run the first update.
     */
    constructor (imageDir: string, images: seq<string>, drawTiles: Cell -> Photo, updateTiles: Cell -> Photo, k: int)
      requires images != []
      requires 0 <= k < RingLength(COLS, ROWS)
      ensures Valid() && Populated()
      ensures this.imageDir == imageDir && this.images == images
      ensures tileWidgets.Keys == Elements(positions) && |tileWidgets| == |positions| == 14
      ensures forall i, j :: 0 <= i < j < |order| ==> RowMajorBefore(order[i], order[j])
      ensures forall p :: p in tileWidgets ==> tileWidgets[p].photo == updateTiles(p)
      ensures cursor.Some? && cursor.value.box == TileBox(positions[k])
      ensures cursorIndex == (k + 1) % 14
    {
      this.imageDir := imageDir;
      this.images := images;
      positions := [];
      tileWidgets := map[];
      order := [];
      cursorIndex := 0;
      cursor := None;
      nextItem := 1;
      itemCell := map[];
      new;
      assert this.imageDir == imageDir && this.images == images;
      BuildRing();
      ghost var drawn := DrawBoard(drawTiles);
      assert order == drawn;
      UpdateBoard(updateTiles, k);
      OccupiedIsRing();
      RingShape(COLS, ROWS);
    }

    /** main.py:73-85: the four loops that append the border cells clockwise. */
    method BuildRing()
      modifies this`positions
      ensures positions == Ring(COLS, ROWS)
    {
      ghost var ring := Ring(COLS, ROWS);
      positions := [];
      for c := 0 to 4
        invariant positions == ring[..c]
      {
        positions := positions + [Cell(c, 0)];
      }
      for r := 1 to 5
        invariant positions == ring[..r + 3]
      {
        positions := positions + [Cell(3, r)];
      }
      var c := 2;
      while c > -1
        invariant -1 <= c <= 2
        invariant positions == ring[..10 - c]
      {
        positions := positions + [Cell(c, 4)];
        c := c - 1;
      }
      var r := 3;
      while r > 0
        invariant 0 <= r <= 3
        invariant positions == ring[..14 - r]
      {
        positions := positions + [Cell(0, r)];
        r := r - 1;
      }
      assert positions == ring;
    }

    /**
     * main.py:113-126: visit the grid row by row, skip the hole, and record a
     * freshly made tile for every other cell. `tiles(p)` is what `make_tile`
     * returns when called for cell `p`.
     */
    method DrawBoard(tiles: Cell -> Photo) returns (ghost added: seq<Cell>)
      requires Valid()
      modifies this`tileWidgets, this`order, this`nextItem, this`itemCell
      ensures Valid()
      ensures tileWidgets.Keys == old(tileWidgets.Keys) + Occupied()
      ensures forall p :: p in Occupied() ==> tileWidgets[p].photo == tiles(p) && old(nextItem) <= tileWidgets[p].tileId
      ensures forall p :: p in old(tileWidgets) && p !in Occupied() ==> tileWidgets[p] == old(tileWidgets[p])
      ensures order == old(order) + added
      ensures forall i :: 0 <= i < |added| ==> added[i] !in old(tileWidgets)
      ensures forall i, j :: 0 <= i < j < |added| ==> RowMajorBefore(added[i], added[j])
    {
      ghost var m0, n0, o0 := tileWidgets, nextItem, order;
      for r := 0 to 5
        invariant TilesConsistent() && n0 <= nextItem
        invariant RowsDrawn(m0, n0, tileWidgets, tiles, r)
        invariant order == o0 + BoardNew(m0, COLS, r)
      {
        ghost var m, n := tileWidgets, nextItem;
        DrawRow(r, tiles);
        RowsDrawnStep(m0, n0, m, n, tileWidgets, tiles, r);
        BoardNewStep(o0, m0, n0, m, tiles, r);
      }
      RowsDrawnAll(m0, n0, tileWidgets, tiles);
      added := BoardNew(m0, COLS, ROWS);
      BoardNewAbove(m0, COLS, ROWS);
      BoardNewRowMajor(m0, COLS, ROWS);
    }

    /** The inner loop of main.py:116-126: the cells of row `r`, left to right. */
    method DrawRow(r: int, tiles: Cell -> Photo)
      requires TilesConsistent() && 0 <= r < ROWS
      modifies this`tileWidgets, this`order, this`nextItem, this`itemCell
      ensures TilesConsistent() && old(nextItem) <= nextItem
      ensures RowDrawn(old(tileWidgets), old(nextItem), tileWidgets, tiles, COLS, r)
      ensures order == old(order) + RowNew(old(tileWidgets), COLS, r)
    {
      ghost var m0, n0, o0 := tileWidgets, nextItem, order;
      for c := 0 to 4
        invariant TilesConsistent() && n0 <= nextItem
        invariant RowDrawn(m0, n0, tileWidgets, tiles, c, r)
        invariant order == o0 + RowNew(m0, c, r)
      {
        ghost var m, n := tileWidgets, nextItem;
        assert Cell(c, r) in m <==> Cell(c, r) in m0;
        ghost var step := DrawCell(c, r, tiles);
        RowDrawnStep(m0, n0, m, n, tileWidgets, tiles, c, r);
        RowNewStep(o0, m0, m, step, c, r);
      }
    }

    /**
     * The body of the inner loop, main.py:117-126: skip a cell of the hole;
     * otherwise create a canvas image item for the cell's tile and record it,
     * a new key going to the end of the dictionary's order.
     */
    method DrawCell(c: int, r: int, tiles: Cell -> Photo) returns (ghost step: seq<Cell>)
      requires TilesConsistent() && 0 <= c < COLS && 0 <= r < ROWS
      modifies this`tileWidgets, this`order, this`nextItem, this`itemCell
      ensures TilesConsistent() && old(nextItem) <= nextItem
      ensures InHole(Cell(c, r)) ==> nextItem == old(nextItem)
      ensures !InHole(Cell(c, r)) ==> nextItem == old(nextItem) + 1
      ensures CellDrawn(old(tileWidgets), old(nextItem), tileWidgets, tiles, c, r)
      ensures order == old(order) + step
      ensures step == if !InHole(Cell(c, r)) && Cell(c, r) !in old(tileWidgets) then [Cell(c, r)] else []
    {
      var x := c * (TILE_SIZE + 2 * BORDER) + 100;
      var y := r * (TILE_SIZE + 2 * BORDER) + 100;
      step := [];
      if 1 <= c <= 2 && 1 <= r <= 3 {
        return;
      }
      var tile := tiles(Cell(c, r));
      var tileId := nextItem;
      nextItem := nextItem + 1;
      if Cell(c, r) !in tileWidgets {
        step := [Cell(c, r)];
        order := order + [Cell(c, r)];
      }
      tileWidgets := tileWidgets[Cell(c, r) := Widget(tileId, tile, Point(x, y))];
      itemCell := itemCell[tileId := Cell(c, r)];
    }

    /** main.py:131-133: show `tile` in the item recorded under `p`, keeping the item and its anchor. */
    method Retile(p: Cell, tile: Photo)
      requires Valid()
      requires p in tileWidgets
      modifies this`tileWidgets
      ensures Valid()
      ensures tileWidgets == old(tileWidgets)[p := old(tileWidgets[p]).(photo := tile)]
    {
      var tileId := tileWidgets[p].tileId;
      tileWidgets := tileWidgets[p := Widget(tileId, tile, tileWidgets[p].anchor)];
    }

    /**
     * main.py:130-133: give every entry a freshly made tile, keeping its key,
     * its canvas item and its anchor. `tiles(p)` is the new tile for cell `p`.
     */
    method RefreshTiles(tiles: Cell -> Photo)
      requires Valid()
      modifies this`tileWidgets
      ensures Valid()
      ensures tileWidgets.Keys == old(tileWidgets.Keys)
      ensures forall p :: p in tileWidgets ==> tileWidgets[p] == old(tileWidgets[p]).(photo := tiles(p))
    {
      for i := 0 to |order|
        invariant Valid()
        invariant RefreshedUpTo(old(tileWidgets), tileWidgets, tiles, order, i)
      {
        ghost var m := tileWidgets;
        Retile(order[i], tiles(order[i]));
        RefreshedStep(old(tileWidgets), m, tileWidgets, tiles, order, i);
      }
      RefreshedAll(old(tileWidgets), tileWidgets, tiles, order);
    }

    /**
     * main.py:141-155: replace the outline by one around ring entry `k` (the
     * outcome of `randrange`), then store the index after it.
     */
    method HighlightCursor(k: int)
      requires Valid()
      requires 0 <= k < |positions|
      modifies this`cursor, this`cursorIndex, this`nextItem
      ensures Valid()
      ensures cursor == Some(Highlight(old(nextItem), TileBox(positions[k])))
      ensures positions[k] in tileWidgets ==> Point(cursor.value.box.left, cursor.value.box.top) == tileWidgets[positions[k]].anchor
      ensures cursorIndex == (k + 1) % |positions|
      ensures nextItem == old(nextItem) + 1
    {
      cursor := None;
      cursorIndex := k;
      var p := positions[cursorIndex];
      var x := p.col * (TILE_SIZE + 2 * BORDER) + 100;
      var y := p.row * (TILE_SIZE + 2 * BORDER) + 100;
      cursor := Some(Highlight(nextItem, Rect(x, y, x + TILE_SIZE + 2 * BORDER, y + TILE_SIZE + 2 * BORDER)));
      nextItem := nextItem + 1;
      cursorIndex := (cursorIndex + 1) % |positions|;
    }

    /** main.py:128-136: one tick: refresh every tile, then move the cursor. */
    method UpdateBoard(tiles: Cell -> Photo, k: int)
      requires Valid()
      requires 0 <= k < |positions|
      modifies this`tileWidgets, this`cursor, this`cursorIndex, this`nextItem
      ensures Valid()
      ensures tileWidgets.Keys == old(tileWidgets.Keys)
      ensures forall p :: p in tileWidgets ==> tileWidgets[p] == old(tileWidgets[p]).(photo := tiles(p))
      ensures cursor == Some(Highlight(old(nextItem), TileBox(positions[k])))
      ensures cursorIndex == (k + 1) % |positions|
    {
      RefreshTiles(tiles);
      HighlightCursor(k);
    }
  }

  /**
   * main.py:49-91 in full: filter the listing, fail with "No WEBP images found!"
   * when nothing is left, and otherwise build the board, draw it and run the
   * first update.
   */
  method Open(imageDir: string, listing: seq<string>, drawTiles: Cell -> Photo, updateTiles: Cell -> Photo, k: int)
    returns (r: Result<PressYourLuckBoard, string>)
    requires 0 <= k < RingLength(COLS, ROWS)
    ensures r.Failure? <==> forall n :: n in listing ==> !IsWebp(n)
    ensures r.Failure? ==> r.error == NO_IMAGES
    ensures r.Success? ==> fresh(r.value) && r.value.Valid() && r.value.Populated()
    ensures r.Success? ==> LoadImages(imageDir, listing) == Success(r.value.images) && r.value.imageDir == imageDir
    ensures r.Success? ==> r.value.tileWidgets.Keys == Elements(r.value.positions) && |r.value.tileWidgets| == 14
    ensures r.Success? ==> forall i, j :: 0 <= i < j < |r.value.order| ==> RowMajorBefore(r.value.order[i], r.value.order[j])
    ensures r.Success? ==> forall p :: p in r.value.tileWidgets ==> r.value.tileWidgets[p].photo == updateTiles(p)
    ensures r.Success? ==> r.value.cursor.Some? && r.value.cursor.value.box == TileBox(r.value.positions[k])
    ensures r.Success? ==> r.value.cursorIndex == (k + 1) % 14
  {
    var loaded := LoadImages(imageDir, listing);
    if loaded.Failure? {
      return Failure(loaded.error);
    }
    var board := new PressYourLuckBoard(imageDir, loaded.value, drawTiles, updateTiles, k);
    return Success(board);
  }
}
