/**
 * The board's cell grid: COLS columns by ROWS rows, a centre block left empty
 * for the logo, and the clockwise ring of border cells the highlight cursor
 * runs over (main.py:10-12, 72-85, 115-122).
 */
module Grid {
  import opened Seqs

  const ROWS := 5
  const COLS := 4

  /** A board position `(c, r)`: column first, then row. */
  datatype Cell = Cell(col: int, row: int)

  predicate InGrid(cols: int, rows: int, p: Cell) {
    0 <= p.col < cols && 0 <= p.row < rows
  }

  /** `p` is a cell of the outer ring of a `cols` x `rows` grid. */
  predicate OnEdge(cols: int, rows: int, p: Cell) {
    InGrid(cols, rows, p) && (p.col == 0 || p.col == cols - 1 || p.row == 0 || p.row == rows - 1)
  }

  /** The centre block that `draw_board` skips: columns 1-2, rows 1-3. */
  predicate InHole(p: Cell) {
    1 <= p.col <= 2 && 1 <= p.row <= 3
  }

  /** The cells that carry a tile. */
  ghost function Occupied(): set<Cell> {
    set c, r | 0 <= c < COLS && 0 <= r < ROWS && !InHole(Cell(c, r)) :: Cell(c, r)
  }

  /** The cells of the outer ring of a `cols` x `rows` grid. */
  ghost function EdgeCells(cols: int, rows: int): set<Cell> {
    set c, r | 0 <= c < cols && 0 <= r < rows && OnEdge(cols, rows, Cell(c, r)) :: Cell(c, r)
  }

  function RingLength(cols: int, rows: int): int {
    2 * cols + 2 * rows - 4
  }

  /**
   * The i-th cell of the ring: the top row left to right, the right column
   * downwards, the bottom row right to left, the left column upwards.
   */
  function RingCell(cols: int, rows: int, i: int): Cell
    requires 2 <= cols && 2 <= rows && 0 <= i < RingLength(cols, rows)
  {
    if i < cols then Cell(i, 0)
    else if i < cols + rows - 1 then Cell(cols - 1, i - cols + 1)
    else if i < 2 * cols + rows - 2 then Cell(2 * cols + rows - 3 - i, rows - 1)
    else Cell(0, 2 * cols + 2 * rows - 4 - i)
  }

  /** The whole ring, starting at the top-left corner. */
  function Ring(cols: int, rows: int): seq<Cell>
    requires 2 <= cols && 2 <= rows
  {
    seq(RingLength(cols, rows), i requires 0 <= i < RingLength(cols, rows) => RingCell(cols, rows, i))
  }

  /** The four directions a step along the ring can take (screen rows grow downwards). */
  datatype Heading = East | South | West | North

  predicate Moves(a: Cell, b: Cell, h: Heading) {
    match h
    case East => b == Cell(a.col + 1, a.row)
    case South => b == Cell(a.col, a.row + 1)
    case West => b == Cell(a.col - 1, a.row)
    case North => b == Cell(a.col, a.row - 1)
  }

  /** Orthogonal neighbours. */
  predicate Adjacent(a: Cell, b: Cell) {
    (a.row == b.row && (a.col - b.col == 1 || b.col - a.col == 1)) ||
    (a.col == b.col && (a.row - b.row == 1 || b.row - a.row == 1))
  }

  /** The side of the grid the step leaving entry `i` of the ring runs along. */
  function Side(cols: int, rows: int, i: int): Heading {
    if i < cols - 1 then East
    else if i < cols + rows - 2 then South
    else if i < 2 * cols + rows - 3 then West
    else North
  }

  /** The ring starts at the top-left corner and has one entry per border cell. */
  lemma RingShape(cols: int, rows: int)
    requires 2 <= cols && 2 <= rows
    ensures |Ring(cols, rows)| == 2 * rows + 2 * cols - 4
    ensures Ring(cols, rows)[0] == Cell(0, 0)
  {
  }

  /** Every ring entry lies on the outer edge. */
  lemma RingOnEdge(cols: int, rows: int, i: int)
    requires 2 <= cols && 2 <= rows && 0 <= i < RingLength(cols, rows)
    ensures OnEdge(cols, rows, Ring(cols, rows)[i])
  {
  }

  /** No cell occurs twice on the ring. */
  lemma RingDistinct(cols: int, rows: int)
    requires 2 <= cols && 2 <= rows
    ensures Distinct(Ring(cols, rows))
  {
  }

  /** The entry after `i` on a ring of `n` entries. */
  function Next(n: int, i: int): int {
    if i + 1 < n then i + 1 else 0
  }

  /** `Next` is the successor modulo `n`. */
  lemma NextIsSuccessorMod(n: int, i: int)
    requires 0 <= i < n
    ensures (i + 1) % n == Next(n, i)
  {
    if i + 1 < n {
      assert (i + 1) % n == i + 1;
    } else {
      assert (i + 1) % n == 0;
    }
  }

  /** One step along the ring moves one cell along the side entry `i` belongs to. */
  lemma RingStep(cols: int, rows: int, i: int)
    requires 2 <= cols && 2 <= rows && 0 <= i < RingLength(cols, rows)
    ensures Moves(RingCell(cols, rows, i), RingCell(cols, rows, Next(RingLength(cols, rows), i)), Side(cols, rows, i))
  {
  }

  /**
   * The ring runs clockwise: each step, including the wrap from the last entry
   * back to the first, moves one cell along the side it belongs to, so
   * consecutive entries are orthogonal neighbours.
   */
  lemma RingClockwise(cols: int, rows: int, i: int)
    requires 2 <= cols && 2 <= rows && 0 <= i < RingLength(cols, rows)
    ensures Moves(Ring(cols, rows)[i], Ring(cols, rows)[(i + 1) % RingLength(cols, rows)], Side(cols, rows, i))
    ensures Adjacent(Ring(cols, rows)[i], Ring(cols, rows)[(i + 1) % RingLength(cols, rows)])
  {
    var n := RingLength(cols, rows);
    NextIsSuccessorMod(n, i);
    RingStep(cols, rows, i);
  }

  /** Every border cell of the grid is on the ring. */
  lemma {:induction false} RingCoversEdge(cols: int, rows: int, p: Cell)
    requires 2 <= cols && 2 <= rows && OnEdge(cols, rows, p)
    ensures p in Ring(cols, rows)
  {
    var ring := Ring(cols, rows);
    var i;
    if p.row == 0 {
      i := p.col;
    } else if p.col == cols - 1 {
      i := cols - 1 + p.row;
    } else if p.row == rows - 1 {
      i := 2 * cols + rows - 3 - p.col;
    } else {
      i := 2 * cols + 2 * rows - 4 - p.row;
    }
    assert ring[i] == p;
  }

  /** The ring enumerates exactly the border cells, 2*rows + 2*cols - 4 of them. */
  lemma EdgeCellsAreRing(cols: int, rows: int)
    requires 2 <= cols && 2 <= rows
    ensures EdgeCells(cols, rows) == Elements(Ring(cols, rows))
    ensures |EdgeCells(cols, rows)| == 2 * rows + 2 * cols - 4
  {
    var ring := Ring(cols, rows);
    forall p | p in EdgeCells(cols, rows)
      ensures p in Elements(ring)
    {
      RingCoversEdge(cols, rows, p);
    }
    forall p | p in Elements(ring)
      ensures p in EdgeCells(cols, rows)
    {
      var i :| 0 <= i < |ring| && ring[i] == p;
      RingOnEdge(cols, rows, i);
    }
    RingDistinct(cols, rows);
    DistinctCard(ring);
  }

  /**
   * On this board the cells that carry a tile are exactly the ring cells:
   * 20 - 6 = 14 of them.
   */
  lemma OccupiedIsRing()
    ensures Occupied() == Elements(Ring(COLS, ROWS))
    ensures |Occupied()| == ROWS * COLS - 6
  {
    assert Occupied() == EdgeCells(COLS, ROWS);
    EdgeCellsAreRing(COLS, ROWS);
  }
}
