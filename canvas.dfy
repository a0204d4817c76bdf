/** The mutable RGBA canvas of `resizeWithAspectRatio` (main.go:39, 46): Go's
    `image.NewRGBA` and `draw.Draw` with the `draw.Src` operator. A canvas is a
    two-dimensional array indexed `[row, col]`, that is `[y, x]`. */
module Canvas {
  import opened Pixels
  import opened Geometry

  /** `image.NewRGBA(image.Rect(0, 0, size, size))`: a fresh `size x size`
      canvas whose every pixel is the zero, fully transparent, pixel. */
  method NewCanvas(size: nat) returns (c: array2<Pixel>)
    ensures fresh(c)
    ensures c.Length0 == size && c.Length1 == size
    ensures forall row, col :: 0 <= row < size && 0 <= col < size ==> c[row, col] == Transparent
  {
    c := new Pixel[size, size]((_, _) => Transparent);
  }

  /** Canvas pixel (row, col) is written by `draw.Draw(dst, r, src,
      image.Point{}, draw.Src)` when it lies in `r` and in the bounds of `src`
      moved to `r`'s corner. Go also clips `r` to the bounds of the canvas;
      that clip is the index range of `DrawSrc`'s postcondition. */
  predicate Drawn(r: Rect, src: Image, row: int, col: int) {
    r.Contains(row, col) && col - r.left < src.width && row - r.top < src.height
  }

  /** `draw.Draw(dst, r, src, image.Point{}, draw.Src)`: every canvas pixel in
      the clipped rectangle is overwritten by the source pixel at the same
      position relative to `r`'s corner (a copy, not a blend), and every other
      canvas pixel is left as it was. */
  method DrawSrc(dst: array2<Pixel>, r: Rect, src: Image)
    requires WellFormed(src)
    modifies dst
    ensures forall row, col :: 0 <= row < dst.Length0 && 0 <= col < dst.Length1 ==>
      dst[row, col] == if Drawn(r, src, row, col) then src.px[row - r.top][col - r.left]
                       else old(dst[row, col])
  {
    var row0 := if r.top < 0 then 0 else r.top;
    var row1 := Min(Min(r.bottom, dst.Length0), r.top + src.height);
    var col0 := if r.left < 0 then 0 else r.left;
    var col1 := Min(Min(r.right, dst.Length1), r.left + src.width);
    if row1 < row0 { row1 := row0; }
    if col1 < col0 { col1 := col0; }
    for row := row0 to row1
      invariant forall i, j :: 0 <= i < dst.Length0 && 0 <= j < dst.Length1 ==>
        dst[i, j] == if Drawn(r, src, i, j) && i < row then src.px[i - r.top][j - r.left]
                     else old(dst[i, j])
    {
      for col := col0 to col1
        invariant forall i, j :: 0 <= i < dst.Length0 && 0 <= j < dst.Length1 ==>
          dst[i, j] == if Drawn(r, src, i, j) && (i < row || (i == row && j < col))
                       then src.px[i - r.top][j - r.left]
                       else old(dst[i, j])
      {
        dst[row, col] := src.px[row - r.top][col - r.left];
      }
    }
  }

  function Min(a: int, b: int): int {
    if a < b then a else b
  }
}
