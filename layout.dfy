/**
 * The geometry of an identicon: a square canvas, a 5x5 sprite, and the
 * square of canvas pixels that each sprite cell covers.
 */
module Layout {

  /** Cells per side of the sprite. */
  const SPRITE_SIZE: nat := 5
  /** Canvas side, in pixels. */
  const IMAGE_SIZE: nat := 290
  /** Side of the square drawn for one cell. */
  const PIXEL_SIZE: nat := IMAGE_SIZE / (SPRITE_SIZE + 1)
  /** Offset of the sprite from the top-left corner of the canvas. */
  const MARGIN: nat := PIXEL_SIZE / 2

  /** Coordinates are `u32` in the source; every value here is below this limit. */
  const U32_LIMIT: nat := 0x1_0000_0000

  lemma Constants()
    ensures PIXEL_SIZE == 48 && MARGIN == 24
    ensures MARGIN + SPRITE_SIZE * PIXEL_SIZE <= IMAGE_SIZE
  {
  }

  /** The half-open pixel rectangle [x0, x1) x [y0, y1). */
  datatype Rect = Rect(x0: nat, y0: nat, x1: nat, y1: nat)
  {
    predicate Contains(x: nat, y: nat) {
      x0 <= x < x1 && y0 <= y < y1
    }
  }

  /**
   * The square painted for the cell in `row` and `col`: origin
   * (col * PIXEL_SIZE, row * PIXEL_SIZE) shifted by MARGIN, side PIXEL_SIZE.
   */
  function CellRect(row: nat, col: nat): (r: Rect)
    requires row < SPRITE_SIZE && col < SPRITE_SIZE
    ensures r.x1 - r.x0 == PIXEL_SIZE && r.y1 - r.y0 == PIXEL_SIZE
    ensures MARGIN <= r.x0 && r.x1 <= MARGIN + SPRITE_SIZE * PIXEL_SIZE <= IMAGE_SIZE
    ensures MARGIN <= r.y0 && r.y1 <= MARGIN + SPRITE_SIZE * PIXEL_SIZE <= IMAGE_SIZE
    ensures r.x1 < U32_LIMIT && r.y1 < U32_LIMIT
  {
    var x := col * PIXEL_SIZE;
    var y := row * PIXEL_SIZE;
    Rect(x + MARGIN, y + MARGIN, x + PIXEL_SIZE + MARGIN, y + PIXEL_SIZE + MARGIN)
  }

  /** Position of a cell in the row-major 25-element sprite. */
  function CellIndex(row: nat, col: nat): (i: nat)
    requires row < SPRITE_SIZE && col < SPRITE_SIZE
    ensures i < SPRITE_SIZE * SPRITE_SIZE
  {
    col + row * SPRITE_SIZE
  }

  lemma CellIndexInjective(r1: nat, c1: nat, r2: nat, c2: nat)
    requires r1 < SPRITE_SIZE && c1 < SPRITE_SIZE && r2 < SPRITE_SIZE && c2 < SPRITE_SIZE
    ensures CellIndex(r1, c1) == CellIndex(r2, c2) <==> r1 == r2 && c1 == c2
  {
  }

  datatype Option<T> = None | Some(value: T)

  datatype Cell = Cell(row: nat, col: nat)

  /**
   * The cell whose square holds pixel (x, y), if any: an independent
   * description of the canvas computed by division rather than by the
   * per-cell rectangles.
   */
  function CellAt(x: nat, y: nat): (c: Option<Cell>)
    ensures c.Some? ==> c.value.row < SPRITE_SIZE && c.value.col < SPRITE_SIZE
  {
    var span := MARGIN + SPRITE_SIZE * PIXEL_SIZE;
    if MARGIN <= x < span && MARGIN <= y < span
    then Some(Cell((y - MARGIN) / PIXEL_SIZE, (x - MARGIN) / PIXEL_SIZE))
    else None
  }

  /** A pixel lies in a cell's square exactly when CellAt names that cell. */
  lemma CellAtIff(row: nat, col: nat, x: nat, y: nat)
    requires row < SPRITE_SIZE && col < SPRITE_SIZE
    ensures CellRect(row, col).Contains(x, y) <==> CellAt(x, y) == Some(Cell(row, col))
  {
    DivWindow(x, col);
    DivWindow(y, row);
  }

  lemma DivWindow(v: nat, k: nat)
    requires k < SPRITE_SIZE
    ensures k * 48 + 24 <= v < k * 48 + 72 <==> (24 <= v && (v - 24) / 48 == k)
  {
  }

  /** The squares of two different cells share no pixel. */
  lemma CellsDisjoint(r1: nat, c1: nat, r2: nat, c2: nat, x: nat, y: nat)
    requires r1 < SPRITE_SIZE && c1 < SPRITE_SIZE && r2 < SPRITE_SIZE && c2 < SPRITE_SIZE
    requires (r1, c1) != (r2, c2)
    ensures !(CellRect(r1, c1).Contains(x, y) && CellRect(r2, c2).Contains(x, y))
  {
    CellAtIff(r1, c1, x, y);
    CellAtIff(r2, c2, x, y);
  }
}
