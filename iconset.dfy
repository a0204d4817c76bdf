/** The multi-size loop of `main` (main.go:101-108): one letterboxed canvas per
    icon size, in the order of the size list. */
module IconSet {
  import opened Pixels
  import opened Letterbox

  /** The icon edges, in pixels, in the order they are written to the file. */
  const Sizes: seq<nat> := [16, 32, 48, 64, 128, 256]

  /** Builds the image set handed to the icon encoder: entry `k` is the
      `Sizes[k] x Sizes[k]` canvas for that size, newly allocated, whatever
      the input's dimensions. */
  method BuildIconSet(img: Image, resample: Resampler) returns (images: seq<array2<Pixel>>)
    requires Honours(resample)
    requires 0 < img.width || 0 < img.height
    ensures |images| == |Sizes| == 6
    ensures forall k :: 0 <= k < |images| ==> fresh(images[k])
    ensures forall k :: 0 <= k < |images| ==>
      images[k].Length0 == Sizes[k] && images[k].Length1 == Sizes[k]
    ensures forall k, row, col :: 0 <= k < |images| && 0 <= row < Sizes[k] && 0 <= col < Sizes[k] ==>
      images[k][row, col] == LetterboxPixel(img, Sizes[k], resample, row, col)
  {
    images := [];
    for i := 0 to |Sizes|
      invariant |images| == i
      invariant forall k :: 0 <= k < i ==> fresh(images[k])
      invariant forall k :: 0 <= k < i ==>
        images[k].Length0 == Sizes[k] && images[k].Length1 == Sizes[k]
      invariant forall k, row, col :: 0 <= k < i && 0 <= row < Sizes[k] && 0 <= col < Sizes[k] ==>
        images[k][row, col] == LetterboxPixel(img, Sizes[k], resample, row, col)
    {
      var canvas := ResizeWithAspectRatio(img, Sizes[i], resample);
      images := images + [canvas];
    }
  }
}
