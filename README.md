# Identicon generator — verified model

This project models the image generator of the `identicon` crate (`src/lib.rs`).
It turns a 16-byte digest of a name into a 290×290 RGB picture in three steps:

1. **Sprite.** The digest is read as 32 nibbles, high nibble first within each byte.
   A nibble paints its cell when its value is even. `pixels` fills a 5×5 sprite
   column by column: columns 2, 1 and 0, rows 0 to 4 within each column. Every
   value is also written to the mirror column `4 - col`. This consumes 15 nibbles.
2. **Colour.** The foreground colour is palette entry
   `(hash[11] + hash[12] + hash[15]) % len`. The background is `(240, 240, 240)`.
3. **Raster.** `gen` starts from a canvas filled with the background. For each
   painted cell in row `r` and column `c` it calls `draw_rect` on the square
   `[c*48+24, c*48+72) × [r*48+24, r*48+72)`.

Modules, one per part of `src/lib.rs`:

- `Nibbler` (`nibbler.dfy`): the nibble stream of a byte string, and its inverse `Pack`.
- `Layout` (`layout.dfy`): the constants `SPRITE_SIZE`, `IMAGE_SIZE`, `PIXEL_SIZE` and `MARGIN`, plus cell geometry.
  `CellAt` is an independent division-based description of which cell owns a pixel.
- `Sprite` (`sprite.dfy`): `Pixels`, the imperative `pixels` loop over a local 25-cell array.
  It is proved equal to `Grid`, a closed formula giving each cell's nibble.
- `Canvas` (`canvas.dfy`): `DrawRect`, the in-place rectangle fill on an `array2<Rgb>` indexed `[x, y]`.
- `Identicon` (`identicon.dfy`): colour selection and `Gen`, the paint loop.
  `Gen` is proved to produce exactly "foreground where a painted cell's square covers the pixel, background elsewhere".

## Model

| member | source | states |
|---|---|---|
| `Nibbler.Nibbles` | src/lib.rs:42 | the stream has two nibbles per byte; nibble `2k` is the high half of byte `k` and nibble `2k+1` its low half |
| `Nibbler.PackNibbles` | src/lib.rs:42 | the stream loses nothing: packing each nibble pair gives back the original bytes |
| `Nibbler.NibblesInjective` | src/lib.rs:42 | different digests give different nibble streams |
| `Layout.Constants` | src/lib.rs:7-10 | `PIXEL_SIZE = 290 / 6 = 48` and `MARGIN = 24`; the sprite area ends at `24 + 5*48 = 264 <= 290` |
| `Layout.CellIndex` | src/lib.rs:46 | cell `(row, col)` sits at `col + row*5`, inside the 25-cell sprite |
| `Layout.CellRect` | src/lib.rs:24-31 | a cell's square has side 48, lies in `[24, 264)` on both axes, so it is inside the 290×290 canvas; its bounds fit in `u32`, so the source's `u32` sums are exact |
| `Layout.CellAt` | src/lib.rs:24-31 | the cell a pixel belongs to, found by division, is always a valid cell |
| `Layout.CellAtIff` | src/lib.rs:24-31 | a pixel lies in cell `(row, col)`'s square iff `CellAt` names that cell |
| `Layout.CellsDisjoint` | src/lib.rs:21-33 | the squares of two different cells share no pixel |
| `Sprite.SourceCol` | src/lib.rs:44-48 | columns 3 and 4 take their value from columns 1 and 0; columns 0 to 2 from themselves |
| `Sprite.NibbleFor` | src/lib.rs:44-49 | every cell is decided by one of the first 15 nibbles |
| `Sprite.Grid` | src/lib.rs:41-55 | the sprite has 25 cells; cell `(r, c)` is painted iff nibble `(2 - SourceCol(c))*5 + r` is even |
| `Sprite.Pixels` | src/lib.rs:41-55 | the loop yields exactly `Grid(hash)`; the result is mirror-symmetric; cell `(r, c)` for `c < 3` is nibble `(2-c)*5 + r`'s parity; exactly 15 nibbles are taken, each index in bounds, so `next().unwrap()` never panics |
| `Sprite.GridAt` | src/lib.rs:42-50 | cell `(row, col)` of `Grid` is the parity of nibble `NibbleFor(row, col)` |
| `Sprite.GridShape` | src/lib.rs:44-52 | for every row `r` and column `c`, cell `(r, c)` equals cell `(r, 4-c)`; read cells follow the nibble formula |
| `Sprite.Mirror` | src/lib.rs:44-52 | left-right mirror symmetry of one cell pair |
| `Sprite.CellFormula` | src/lib.rs:42-50 | for `c < 3`, cell `(r, c)` is painted iff nibble `(2-c)*5 + r` is even |
| `Sprite.GridDeterminedByFirstNibbles` | src/lib.rs:42-53 | two digests give the same sprite iff the parities of their first 15 nibbles agree (both directions) |
| `Sprite.GridIgnoresLaterBytes` | src/lib.rs:42-53 | bytes 8 to 15 and the low nibble of byte 7 (nibbles 15 to 31) never change the sprite |
| `Canvas.DrawRect` | src/lib.rs:57-63 | afterwards every pixel with `x0 <= x < x1` and `y0 <= y < y1` holds `color`, and every other pixel is unchanged; a non-empty rectangle must lie inside the image (otherwise `put_pixel` panics) |
| `Identicon.ColorSum` | src/lib.rs:17 | the sum of bytes 11, 12 and 15 is at most 765, so the `usize` addition cannot overflow |
| `Identicon.ColorIndex` | src/lib.rs:16-17 | the index is below the palette length, and it differs from the sum by a multiple of the length |
| `Identicon.Foreground` | src/lib.rs:16-17 | the foreground is an entry of the palette |
| `Identicon.ForegroundDependsOnColorBytes` | src/lib.rs:16-17 | digests that agree at bytes 11, 12 and 15 get the same foreground |
| `Identicon.ShownIffCovered` | src/lib.rs:21-36 | a pixel is shown iff some painted cell's square covers it |
| `Identicon.Gen` | src/lib.rs:12-39 | a fresh 290×290 image; each pixel is the foreground if its owning cell is painted and the background `(240, 240, 240)` otherwise |
| `Identicon.ShownMirror` | src/lib.rs:21-52 | the picture is symmetric: pixel `(x, y)` and `(287 - x, y)` show the same colour |

## Left out

- MD5 (`src/utils.rs`): the digest is an input of 16 bytes. The hashing lives in the external `md5` crate and is not part of this model.
- The nibble iterator (`src/nibbler.rs`) is not part of this model. It is stated as the function `Nibbler.Nibbles`: high nibble before low nibble, in byte order.
- The palette (`src/colors.rs`) is not part of this model. `DARK_COLORS` is an arbitrary non-empty sequence passed to `Gen`.
- `ImageBuffer`/`RgbImage` from the `image` crate is an `array2<Rgb>` indexed `[x, y]`. `put_pixel`'s bounds check becomes `DrawRect`'s precondition.
- `Sprite.Pixels` returns the sprite as a sequence copied from its local array. This matches the source, which returns `[bool; 25]` by value. It also returns a ghost count of the nibbles consumed.
- `u32` coordinates are modelled as `nat`. This loses nothing: no value exceeds 264, as `Layout.CellRect` states.
- PNG encoding, the hex ETag, and the `If-None-Match` and favicon checks are left out. So are the HTTP server, its caches and its middleware (`src/main.rs`, `src/bin/identicon-server.rs`). They are calls into foreign crates or I/O and concurrency plumbing around `gen`.
