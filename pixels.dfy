/** Colour samples and immutable pixel grids, the values that the decoder and
    the resampling library hand to the compositor. */
module Pixels {

  /** One 8-bit colour channel, as stored by Go's `image.RGBA`. */
  newtype byte = b: int | 0 <= b < 256

  /** A red/green/blue/alpha sample as `image.RGBA` stores it: Go's
      `color.RGBA`, whose colour channels are premultiplied by alpha. */
  datatype Pixel = RGBA(r: byte, g: byte, b: byte, a: byte)

  /** The zero pixel that `image.NewRGBA` fills a new canvas with. */
  const Transparent: Pixel := RGBA(0, 0, 0, 0)

  /** An immutable pixel grid whose bounds start at (0, 0): `px[row][col]`
      is the sample at x = col, y = row. */
  datatype Image = Image(width: nat, height: nat, px: seq<seq<Pixel>>)

  /** The grid holds exactly `height` rows of `width` samples each. */
  predicate WellFormed(img: Image) {
    |img.px| == img.height &&
    forall row :: 0 <= row < |img.px| ==> |img.px[row]| == img.width
  }
}
