/**
 * `gen`: an identicon image from a 16-byte digest. The canvas is filled
 * with the background colour, then the square of every painted sprite cell
 * is filled with a foreground colour picked from the palette by three
 * bytes of the digest.
 */
module Identicon {
  import opened Nibbler
  import opened Layout
  import opened Sprite
  import opened Canvas

  const BACKGROUND: Rgb := Rgb(240, 240, 240)

  /**
   * The sum of digest bytes 11, 12 and 15. The source adds them as `usize`,
   * which cannot overflow: the sum is at most 3 * 255.
   */
  function ColorSum(hash: seq<Byte>): (s: nat)
    requires |hash| == 16
    ensures s <= 3 * 255
  {
    hash[11] as nat + hash[12] as nat + hash[15] as nat
  }

  /** The palette position of the foreground colour: always a valid index. */
  function ColorIndex(hash: seq<Byte>, len: nat): (i: nat)
    requires |hash| == 16 && len > 0
    ensures i < len
    ensures ColorSum(hash) - i == len * (ColorSum(hash) / len)
  {
    ColorSum(hash) % len
  }

  /** The foreground colour: a palette entry, chosen only by bytes 11, 12 and 15. */
  function Foreground(hash: seq<Byte>, palette: seq<Rgb>): (c: Rgb)
    requires |hash| == 16 && |palette| > 0
    ensures c in palette
  {
    palette[ColorIndex(hash, |palette|)]
  }

  /** Digests that agree at bytes 11, 12 and 15 get the same foreground colour. */
  lemma ForegroundDependsOnColorBytes(h1: seq<Byte>, h2: seq<Byte>, palette: seq<Rgb>)
    requires |h1| == 16 && |h2| == 16 && |palette| > 0
    requires h1[11] == h2[11] && h1[12] == h2[12] && h1[15] == h2[15]
    ensures Foreground(h1, palette) == Foreground(h2, palette)
  {
  }

  /**
   * Whether pixel (x, y) shows the foreground for sprite `grid`: it lies in
   * the square of some cell, and that cell is painted.
   */
  predicate Shown(grid: seq<bool>, x: nat, y: nat)
    requires |grid| == SPRITE_SIZE * SPRITE_SIZE
  {
    match CellAt(x, y)
    case None => false
    case Some(cell) => grid[CellIndex(cell.row, cell.col)]
  }

  /** Shown holds exactly when some painted cell's square covers the pixel. */
  lemma ShownIffCovered(grid: seq<bool>, x: nat, y: nat)
    requires |grid| == SPRITE_SIZE * SPRITE_SIZE
    ensures Shown(grid, x, y) <==>
            exists row, col | 0 <= row < SPRITE_SIZE && 0 <= col < SPRITE_SIZE ::
              grid[CellIndex(row, col)] && CellRect(row, col).Contains(x, y)
  {
    match CellAt(x, y)
    case None =>
      forall row, col | 0 <= row < SPRITE_SIZE && 0 <= col < SPRITE_SIZE
        ensures !CellRect(row, col).Contains(x, y)
      {
        CellAtIff(row, col, x, y);
      }
    case Some(cell) =>
      CellAtIff(cell.row, cell.col, x, y);
      forall row, col | 0 <= row < SPRITE_SIZE && 0 <= col < SPRITE_SIZE && CellRect(row, col).Contains(x, y)
        ensures row == cell.row && col == cell.col
      {
        CellAtIff(row, col, x, y);
      }
  }

  /** Shown restricted to the cells before position `k` in row-major order. */
  predicate ShownBefore(grid: seq<bool>, k: nat, x: nat, y: nat)
    requires |grid| == SPRITE_SIZE * SPRITE_SIZE
  {
    match CellAt(x, y)
    case None => false
    case Some(cell) => CellIndex(cell.row, cell.col) < k && grid[CellIndex(cell.row, cell.col)]
  }

  /** Drawing (or skipping) cell (row, col) extends ShownBefore by that one cell. */
  lemma ShownStep(grid: seq<bool>, row: nat, col: nat, x: nat, y: nat)
    requires |grid| == SPRITE_SIZE * SPRITE_SIZE && row < SPRITE_SIZE && col < SPRITE_SIZE
    ensures ShownBefore(grid, CellIndex(row, col) + 1, x, y) ==
            if grid[CellIndex(row, col)] && CellRect(row, col).Contains(x, y) then true
            else ShownBefore(grid, CellIndex(row, col), x, y)
  {
    CellAtIff(row, col, x, y);
    match CellAt(x, y)
    case None =>
    case Some(cell) =>
      CellIndexInjective(cell.row, cell.col, row, col);
  }

  /**
   * `gen` of the source, from the digest on: a 290x290 canvas of BACKGROUND,
   * then for each painted cell, rows in order and columns in order within a
   * row, its square filled with the foreground colour. Every pixel ends as
   * the foreground if Shown and as the background otherwise.
   */
  method Gen(hash: seq<Byte>, palette: seq<Rgb>) returns (image: array2<Rgb>)
    requires |hash| == 16 && |palette| > 0
    ensures fresh(image)
    ensures image.Length0 == IMAGE_SIZE && image.Length1 == IMAGE_SIZE
    ensures forall x, y | 0 <= x < IMAGE_SIZE && 0 <= y < IMAGE_SIZE ::
      image[x, y] == if Shown(Grid(hash), x, y) then Foreground(hash, palette) else BACKGROUND
  {
    var foreground := Foreground(hash, palette);
    image := new Rgb[IMAGE_SIZE, IMAGE_SIZE]((_, _) => BACKGROUND);
    var pixels, _ := Pixels(hash);
    for row := 0 to SPRITE_SIZE
      invariant forall x, y | 0 <= x < IMAGE_SIZE && 0 <= y < IMAGE_SIZE ::
        image[x, y] == if ShownBefore(pixels, row * SPRITE_SIZE, x, y) then foreground else BACKGROUND
    {
      for col := 0 to SPRITE_SIZE
        invariant forall x, y | 0 <= x < IMAGE_SIZE && 0 <= y < IMAGE_SIZE ::
          image[x, y] == if ShownBefore(pixels, row * SPRITE_SIZE + col, x, y) then foreground else BACKGROUND
      {
        if pixels[CellIndex(row, col)] {
          var x := col * PIXEL_SIZE;
          var y := row * PIXEL_SIZE;
          DrawRect(image, x + MARGIN, y + MARGIN, x + PIXEL_SIZE + MARGIN, y + PIXEL_SIZE + MARGIN, foreground);
        }
        forall x, y | 0 <= x < IMAGE_SIZE && 0 <= y < IMAGE_SIZE
          ensures image[x, y] == if ShownBefore(pixels, CellIndex(row, col) + 1, x, y) then foreground else BACKGROUND
        {
          ShownStep(pixels, row, col, x, y);
        }
      }
    }
    forall x, y | 0 <= x < IMAGE_SIZE && 0 <= y < IMAGE_SIZE
      ensures ShownBefore(pixels, SPRITE_SIZE * SPRITE_SIZE, x, y) == Shown(pixels, x, y)
    {
    }
  }

  /**
   * The picture's own symmetry: pixel (x, y) and its reflection
   * (287 - x, y) about the vertical centre line of the sprite area
   * [24, 264) show the same colour.
   */
  lemma ShownMirror(hash: seq<Byte>, x: nat, y: nat)
    requires |hash| == 16 && x <= 2 * MARGIN + SPRITE_SIZE * PIXEL_SIZE - 1
    ensures Shown(Grid(hash), x, y) == Shown(Grid(hash), 2 * MARGIN + SPRITE_SIZE * PIXEL_SIZE - 1 - x, y)
  {
    var x' := 2 * MARGIN + SPRITE_SIZE * PIXEL_SIZE - 1 - x;
    if MARGIN <= x < MARGIN + SPRITE_SIZE * PIXEL_SIZE {
      var col := (x - MARGIN) / PIXEL_SIZE;
      assert col * 48 <= x - 24 < col * 48 + 48;
      assert (x' - MARGIN) / PIXEL_SIZE == 4 - col;
      if MARGIN <= y < MARGIN + SPRITE_SIZE * PIXEL_SIZE {
        Mirror(hash, (y - MARGIN) / PIXEL_SIZE, col);
      }
    } else {
      assert CellAt(x, y) == None && CellAt(x', y) == None;
    }
  }
}
