/**
 * The 5x5 sprite of an identicon: which cells are painted. Columns 2, 1
 * and 0 are read from the nibble stream, column by column and top to
 * bottom; columns 3 and 4 mirror columns 1 and 0.
 */
module Sprite {
  import opened Nibbler
  import opened Layout

  /** Number of nibbles the sprite consumes: rows times the distinct columns. */
  const NIBBLES_USED: nat := 15

  /** A nibble paints its cell when its value is even. */
  predicate Paints(n: Nibble) {
    n % 2 == 0
  }

  /** The column a cell takes its value from: columns 3 and 4 copy 1 and 0. */
  function SourceCol(col: nat): (c: nat)
    requires col < SPRITE_SIZE
    ensures c <= 2 && (c == col || c == 4 - col)
  {
    if col <= 2 then col else 4 - col
  }

  /** The position in the nibble stream that decides cell (row, col). */
  function NibbleFor(row: nat, col: nat): (k: nat)
    requires row < SPRITE_SIZE && col < SPRITE_SIZE
    ensures k < NIBBLES_USED
  {
    (2 - SourceCol(col)) * SPRITE_SIZE + row
  }

  /** The sprite of a digest, row-major, as a closed formula over the cells. */
  function Grid(hash: seq<Byte>): (g: seq<bool>)
    requires |hash| == 16
    ensures |g| == SPRITE_SIZE * SPRITE_SIZE
  {
    var ns := Nibbles(hash);
    seq(25, i requires 0 <= i < 25 => Paints(ns[NibbleFor(i / 5, i % 5)]))
  }

  /**
   * `pixels` of the source: fills a 25-cell array, initially all false,
   * column by column from column 2 down to column 0 and row by row within a
   * column, taking one nibble per cell from the stream and writing it to
   * the cell and to its mirror. `pos` is the iterator's position and
   * `consumed` the number of nibbles taken; the bound check on `stream[pos]` is the `next().unwrap()` of the
   * source, so it never panics.
   */
  method Pixels(hash: seq<Byte>) returns (pixels: seq<bool>, ghost consumed: nat)
    requires |hash| == 16
    ensures pixels == Grid(hash)
    ensures |pixels| == SPRITE_SIZE * SPRITE_SIZE
    ensures forall row, col | 0 <= row < 5 && 0 <= col < 5 :: pixels[CellIndex(row, col)] == pixels[CellIndex(row, 4 - col)]
    ensures forall row, col | 0 <= row < 5 && 0 <= col < 3 :: pixels[CellIndex(row, col)] == Paints(Nibbles(hash)[(2 - col) * 5 + row])
    ensures consumed == NIBBLES_USED
  {
    var stream := Nibbles(hash);
    ghost var grid := Grid(hash);
    var cells := new bool[25](_ => false);
    var pos := 0;
    for col := 3 downto 0
      invariant pos == (3 - col) * 5
      invariant FilledUpTo(cells[..], grid, col - 1, 0)
    {
      for row := 0 to 5
        invariant pos == (2 - col) * 5 + row
        invariant FilledUpTo(cells[..], grid, col, row)
      {
        var ix := col + row * 5;
        var mirrorCol := 4 - col;
        var mirrorIx := mirrorCol + row * 5;
        var paint := Paints(stream[pos]);
        pos := pos + 1;
        GridAt(hash, row, col);
        GridAt(hash, row, mirrorCol);
        FillStep(cells[..], grid, col, row, paint);
        cells[ix] := paint;
        cells[mirrorIx] := paint;
      }
      FillColumn(cells[..], grid, col);
    }
    FilledAll(cells[..], grid);
    GridShape(hash);
    pixels, consumed := cells[..], pos;
  }

  /**
   * The cells of `cells` already agree with `grid` for all columns whose
   * source column is past `col`, and for the first `rows` rows of `col`.
   */
  ghost predicate FilledUpTo(cells: seq<bool>, grid: seq<bool>, col: int, rows: nat)
    requires |cells| == 25 && |grid| == 25
  {
    forall r, c | 0 <= r < 5 && 0 <= c < 5 && (SourceCol(c) > col || (SourceCol(c) == col && r < rows)) ::
      cells[CellIndex(r, c)] == grid[CellIndex(r, c)]
  }

  /** Writing one cell and its mirror extends the filled region by one row. */
  lemma FillStep(cells: seq<bool>, grid: seq<bool>, col: nat, row: nat, paint: bool)
    requires |cells| == 25 && |grid| == 25 && col <= 2 && row < 5
    requires FilledUpTo(cells, grid, col, row)
    requires grid[CellIndex(row, col)] == paint && grid[CellIndex(row, 4 - col)] == paint
    ensures FilledUpTo(cells[CellIndex(row, col) := paint][CellIndex(row, 4 - col) := paint], grid, col, row + 1)
  {
    var next := cells[CellIndex(row, col) := paint][CellIndex(row, 4 - col) := paint];
    forall r, c | 0 <= r < 5 && 0 <= c < 5 && (SourceCol(c) > col || (SourceCol(c) == col && r < row + 1))
      ensures next[CellIndex(r, c)] == grid[CellIndex(r, c)]
    {
      CellIndexInjective(r, c, row, col);
      CellIndexInjective(r, c, row, 4 - col);
    }
  }

  lemma FillColumn(cells: seq<bool>, grid: seq<bool>, col: int)
    requires |cells| == 25 && |grid| == 25
    requires FilledUpTo(cells, grid, col, 5)
    ensures FilledUpTo(cells, grid, col - 1, 0)
  {
  }

  lemma FilledAll(cells: seq<bool>, grid: seq<bool>)
    requires |cells| == 25 && |grid| == 25
    requires FilledUpTo(cells, grid, -1, 0)
    ensures cells == grid
  {
    forall i | 0 <= i < 25
      ensures cells[i] == grid[i]
    {
      assert i == CellIndex(i / 5, i % 5);
    }
  }

  /** Mirror symmetry and the nibble of each read cell, for the whole sprite. */
  lemma GridShape(hash: seq<Byte>)
    requires |hash| == 16
    ensures forall row, col | 0 <= row < 5 && 0 <= col < 5 :: Grid(hash)[CellIndex(row, col)] == Grid(hash)[CellIndex(row, 4 - col)]
    ensures forall row, col | 0 <= row < 5 && 0 <= col < 3 :: Grid(hash)[CellIndex(row, col)] == Paints(Nibbles(hash)[(2 - col) * 5 + row])
  {
    forall row, col | 0 <= row < 5 && 0 <= col < 5
      ensures Grid(hash)[CellIndex(row, col)] == Grid(hash)[CellIndex(row, 4 - col)]
      ensures col < 3 ==> Grid(hash)[CellIndex(row, col)] == Paints(Nibbles(hash)[(2 - col) * 5 + row])
    {
      GridAt(hash, row, col);
      GridAt(hash, row, 4 - col);
    }
  }

  /** Cell (row, col) of the sprite is decided by nibble NibbleFor(row, col). */
  lemma GridAt(hash: seq<Byte>, row: nat, col: nat)
    requires |hash| == 16 && row < SPRITE_SIZE && col < SPRITE_SIZE
    ensures Grid(hash)[CellIndex(row, col)] == Paints(Nibbles(hash)[NibbleFor(row, col)])
  {
    var i := CellIndex(row, col);
    assert i / 5 == row && i % 5 == col;
  }

  /** The sprite is symmetric about its middle column. */
  lemma Mirror(hash: seq<Byte>, row: nat, col: nat)
    requires |hash| == 16 && row < SPRITE_SIZE && col < SPRITE_SIZE
    ensures Grid(hash)[CellIndex(row, col)] == Grid(hash)[CellIndex(row, 4 - col)]
  {
  }

  /** For the three read columns, cell (row, col) is painted iff nibble (2 - col) * 5 + row is even. */
  lemma CellFormula(hash: seq<Byte>, row: nat, col: nat)
    requires |hash| == 16 && row < SPRITE_SIZE && col < 3
    ensures Grid(hash)[CellIndex(row, col)] <==> Nibbles(hash)[(2 - col) * 5 + row] % 2 == 0
  {
  }

  /**
   * The sprite sees exactly the parities of the first 15 nibbles: two digests
   * give the same sprite iff those parities agree, so nibbles 15 to 31
   * never affect it.
   */
  lemma {:induction false} GridDeterminedByFirstNibbles(h1: seq<Byte>, h2: seq<Byte>)
    requires |h1| == 16 && |h2| == 16
    ensures Grid(h1) == Grid(h2) <==> SameParities(Nibbles(h1), Nibbles(h2), NIBBLES_USED)
  {
    var n1, n2 := Nibbles(h1), Nibbles(h2);
    if Grid(h1) == Grid(h2) {
      forall k | 0 <= k < NIBBLES_USED
        ensures Paints(n1[k]) == Paints(n2[k])
      {
        var row, col := k % 5, 2 - k / 5;
        GridAt(h1, row, col);
        GridAt(h2, row, col);
        assert NibbleFor(row, col) == k;
      }
    }
    if SameParities(n1, n2, NIBBLES_USED) {
      forall i | 0 <= i < 25
        ensures Grid(h1)[i] == Grid(h2)[i]
      {
        var row, col := i / 5, i % 5;
        assert i == CellIndex(row, col);
        GridAt(h1, row, col);
        GridAt(h2, row, col);
      }
      assert Grid(h1) == Grid(h2);
    }
  }

  /** The first `n` nibbles of two streams agree in whether they paint. */
  predicate SameParities(n1: seq<Nibble>, n2: seq<Nibble>, n: nat)
    requires n <= |n1| && n <= |n2|
  {
    forall k | 0 <= k < n :: Paints(n1[k]) == Paints(n2[k])
  }

  /**
   * The first 15 nibbles are the first seven bytes and the high nibble of
   * the eighth, so the rest of the digest (among it the bytes that choose
   * the colour) does not change the sprite.
   */
  lemma GridIgnoresLaterBytes(h1: seq<Byte>, h2: seq<Byte>)
    requires |h1| == 16 && |h2| == 16
    requires h1[..7] == h2[..7] && High(h1[7]) == High(h2[7])
    ensures Grid(h1) == Grid(h2)
  {
    var n1, n2 := Nibbles(h1), Nibbles(h2);
    forall k | 0 <= k < NIBBLES_USED
      ensures n1[k] == n2[k]
    {
      var b := k / 2;
      assert h1[b] == h2[b] || b == 7;
      if k % 2 == 0 {
        assert n1[2 * b] == High(h1[b]);
      } else {
        assert n1[2 * b + 1] == Low(h1[b]) && h1[b] == h2[b];
      }
    }
    GridDeterminedByFirstNibbles(h1, h2);
  }
}
