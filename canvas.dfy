/**
 * An RGB image held as a two-dimensional array indexed [x, y], and the
 * in-place rectangle fill used to paint it.
 */
module Canvas {
  import opened Nibbler
  import opened Layout

  datatype Rgb = Rgb(r: Byte, g: Byte, b: Byte)

  /**
   * `draw_rect` of the source: writes `color` to every pixel (x, y) with
   * x0 <= x < x1 and y0 <= y < y1, x in the outer loop and y in the inner.
   * Writing outside the image panics in the source, so the caller must keep
   * a non-empty rectangle inside it; an empty range writes nothing.
   */
  method DrawRect(image: array2<Rgb>, x0: nat, y0: nat, x1: nat, y1: nat, color: Rgb)
    requires x0 < x1 && y0 < y1 ==> x1 <= image.Length0 && y1 <= image.Length1
    modifies image
    ensures forall x, y | 0 <= x < image.Length0 && 0 <= y < image.Length1 ::
      image[x, y] == if Rect(x0, y0, x1, y1).Contains(x, y) then color else old(image[x, y])
  {
    for x := x0 to if x1 < x0 then x0 else x1
      invariant forall a, b | 0 <= a < image.Length0 && 0 <= b < image.Length1 ::
        image[a, b] == if x0 <= a < x && y0 <= b < y1 then color else old(image[a, b])
    {
      for y := y0 to if y1 < y0 then y0 else y1
        invariant forall a, b | 0 <= a < image.Length0 && 0 <= b < image.Length1 ::
          image[a, b] == if (x0 <= a < x && y0 <= b < y1) || (a == x && y0 <= b < y) then color else old(image[a, b])
      {
        image[x, y] := color;
      }
    }
  }
}
