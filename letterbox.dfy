/** `resizeWithAspectRatio` (main.go:18-49): resize the source image so that
    its longer side equals the canvas edge, then copy it onto the centre of a
    transparent square canvas. */
module Letterbox {
  import opened Pixels
  import opened Geometry
  import opened Canvas

  /** The resampling library call `resize.Resize(w, h, img, resize.Lanczos3)`,
      supplied from outside: its Lanczos convolution is not part of this model. */
  type Resampler = (Image, nat, nat) -> Image

  /** What the model relies on from the resampler: it always yields a
      well-formed grid, and one of exactly `w x h` pixels when both requested
      dimensions are positive. (A zero dimension would make it preserve the
      aspect ratio instead; then the draw rectangle is empty and the grid is
      never read.) */
  ghost predicate Honours(resample: Resampler) {
    forall img: Image, w: nat, h: nat ::
      WellFormed(resample(img, w, h)) &&
      (0 < w && 0 < h ==> resample(img, w, h).width == w && resample(img, w, h).height == h)
  }

  /** The pixel at (row, col) of the canvas of edge `size` built from `img`:
      the resized image's pixel at the same position relative to the placed
      rectangle when (row, col) is inside it, the transparent zero pixel
      everywhere else. */
  ghost function LetterboxPixel(img: Image, size: nat, resample: Resampler, row: int, col: int): Pixel
    requires Honours(resample)
    requires 0 < img.width || 0 < img.height
  {
    var d := ScaledDims(img.width, img.height, size);
    var p := Placement(img.width, img.height, size);
    if p.Contains(row, col) then resample(img, d.width, d.height).px[row - p.top][col - p.left]
    else Transparent
  }

  /** Builds the `size x size` letterboxed canvas for one icon size. The result
      is a newly allocated square of edge `size` and holds `LetterboxPixel`
      everywhere. */
  method ResizeWithAspectRatio(img: Image, size: nat, resample: Resampler) returns (canvas: array2<Pixel>)
    requires Honours(resample)
    requires 0 < img.width || 0 < img.height
    ensures fresh(canvas)
    ensures canvas.Length0 == size && canvas.Length1 == size
    ensures forall row, col :: 0 <= row < size && 0 <= col < size ==>
      canvas[row, col] == LetterboxPixel(img, size, resample, row, col)
  {
    var d := ScaledDims(img.width, img.height, size);
    var resized := resample(img, d.width, d.height);
    canvas := NewCanvas(size);
    var x := Offset(size, d.width);
    var y := Offset(size, d.height);
    ghost var p := Placement(img.width, img.height, size);
    assert p == Rect(x, y, x + d.width, y + d.height);
    DrawSrc(canvas, Rect(x, y, x + d.width, y + d.height), resized);
    forall row, col | 0 <= row < size && 0 <= col < size
      ensures Drawn(p, resized, row, col) == p.Contains(row, col)
    {
      if p.Contains(row, col) {
        assert 0 < d.width && 0 < d.height;
      }
    }
  }

  /** A pixel that is not transparent lies in the placed rectangle, and so on
      the canvas: no visible part of the image falls outside its canvas. */
  lemma VisibleInsidePlacement(img: Image, size: nat, resample: Resampler, row: int, col: int)
    requires Honours(resample)
    requires 0 < img.width || 0 < img.height
    requires LetterboxPixel(img, size, resample, row, col) != Transparent
    ensures Placement(img.width, img.height, size).Contains(row, col)
    ensures 0 <= row < size && 0 <= col < size
  {
  }

  /** A square source fills its canvas completely: every canvas pixel is the
      pixel at the same position of the image resized to `size x size`, with
      no transparent border. */
  lemma SquareFillsCanvas(img: Image, size: nat, resample: Resampler, row: int, col: int)
    requires Honours(resample)
    requires 0 < img.width == img.height
    requires 0 <= row < size && 0 <= col < size
    ensures LetterboxPixel(img, size, resample, row, col) == resample(img, size, size).px[row][col]
  {
    SquarePlacement(img.width, size);
  }

  /** A landscape source so wide that its scaled height rounds down to zero
      (`width > height * size`) gets an empty draw rectangle: the whole canvas
      stays transparent. */
  lemma FlatSourceLeavesCanvasEmpty(img: Image, size: nat, resample: Resampler, row: int, col: int)
    requires Honours(resample)
    requires img.width > img.height * size
    ensures ScaledDims(img.width, img.height, size).height == 0
    ensures LetterboxPixel(img, size, resample, row, col) == Transparent
  {
    var h := ScaledDims(img.width, img.height, size).height;
    assert h * img.width <= img.height * size < img.width;
    if h > 0 {
      MulMonotone(1, h, img.width);
      assert false;
    }
  }

  /** The portrait counterpart: a source so tall that its scaled width rounds
      down to zero (`height > width * size`) gets an empty draw rectangle, and
      the whole canvas stays transparent. */
  lemma TallSourceLeavesCanvasEmpty(img: Image, size: nat, resample: Resampler, row: int, col: int)
    requires Honours(resample)
    requires img.height > img.width * size
    ensures ScaledDims(img.width, img.height, size).width == 0
    ensures LetterboxPixel(img, size, resample, row, col) == Transparent
  {
    var w := ScaledDims(img.width, img.height, size).width;
    if img.width <= img.height {
      assert w * img.height <= img.width * size < img.height;
      if w > 0 {
        MulMonotone(1, w, img.height);
        assert false;
      }
    }
  }
}
