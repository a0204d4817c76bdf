/** The integer geometry of `resizeWithAspectRatio` (main.go:18-49): the scaled
    dimensions of the resized image and where it is placed on the square canvas. */
module Geometry {

  /** A width and a height in pixels. */
  datatype Dims = Dims(width: nat, height: nat)

  /** A rectangle in the style of Go's `image.Rectangle`: columns
      `left <= x < right`, rows `top <= y < bottom`. */
  datatype Rect = Rect(left: int, top: int, right: int, bottom: int) {
    predicate Contains(row: int, col: int) {
      left <= col < right && top <= row < bottom
    }
  }

  /** `q` is the exact quotient `n / d` rounded down: the largest natural
      whose product with `d` does not exceed `n`. */
  predicate IsFloorQuotient(q: nat, n: nat, d: nat) {
    q * d <= n < (q + 1) * d
  }

  /** Natural division rounds down. */
  lemma FloorQuotient(n: nat, d: nat)
    requires 0 < d
    ensures IsFloorQuotient(n / d, n, d)
  {
    var q, r := n / d, n % d;
    assert n == q * d + r;
    assert (q + 1) * d == q * d + d;
  }

  /** Multiplying both sides of `x <= y` by the same natural `d`. */
  lemma {:induction false} MulMonotone(x: nat, y: nat, d: nat)
    requires x <= y
    ensures x * d <= y * d
  {
    if d > 0 {
      MulMonotone(x, y, d - 1);
      assert x * d == x * (d - 1) + x;
      assert y * d == y * (d - 1) + y;
    }
  }

  /** Dividing both sides of `a * d <= b * d` by a positive `d`. */
  lemma CancelFactor(a: nat, b: nat, d: nat)
    requires 0 < d && a * d <= b * d
    ensures a <= b
  {
    if a > b {
      assert (b + 1) * d == b * d + d;
      MulMonotone(b + 1, a, d);
    }
  }

  /** The shorter side `short` scaled by the ratio `size / long` and rounded
      down, `uint(float64(short) * float64(size) / float64(long))` on
      naturals: at most `size`, and the floor of the exact ratio. */
  function ScaleShorter(short: nat, long: nat, size: nat): (q: nat)
    requires short <= long && 0 < long
    ensures q <= size
    ensures IsFloorQuotient(q, short * size, long)
  {
    var q := short * size / long;
    FloorQuotient(short * size, long);
    MulMonotone(short, long, size);
    assert size * long == long * size;
    assert short * size == size * short;
    CancelFactor(q, size, long);
    q
  }

  /** The dimensions the image is resized to before it is placed on a canvas of
      edge `size` (main.go:24-33): the longer side becomes `size`, the other
      side is scaled by the same ratio and rounded down. A landscape image
      (`width > height`) keeps `size` columns; a portrait or square one keeps
      `size` rows. The decoder never yields an image with no pixels at all, so
      at least one side is positive. */
  function ScaledDims(width: nat, height: nat, size: nat): (d: Dims)
    requires 0 < width || 0 < height
    ensures width > height ==> d.width == size && d.height <= size
    ensures width > height ==> IsFloorQuotient(d.height, height * size, width)
    ensures width <= height ==> d.height == size && d.width <= size
    ensures width <= height ==> IsFloorQuotient(d.width, width * size, height)
  {
    if width > height then Dims(size, ScaleShorter(height, width, size))
    else Dims(ScaleShorter(width, height, size), size)
  }

  /** Go's `a / 2` on `int`, which truncates toward zero (Dafny's `/` is
      Euclidean and rounds negative quotients down). */
  function GoHalf(a: int): (q: int)
    ensures 0 <= a ==> 0 <= q && 2 * q <= a <= 2 * q + 1
    ensures a < 0 ==> q <= 0 && 2 * q - 1 <= a <= 2 * q
  {
    if a >= 0 then a / 2 else -((-a) / 2)
  }

  /** The centring offset `(int(size) - int(dim)) / 2` (main.go:42-43). For a
      side no longer than the canvas edge the offset is non-negative, the side
      fits after it, and the margin after it is the margin before it or one
      more pixel: the image is centred, with the odd pixel on the far side. */
  function Offset(size: nat, dim: nat): (o: int)
    ensures dim <= size ==> 0 <= o && o + dim <= size
    ensures dim <= size ==> o <= size - dim - o <= o + 1
    ensures dim > size ==> o <= 0
  {
    GoHalf(size - dim)
  }

  /** The rectangle `image.Rect(x, y, x+newWidth, y+newHeight)` of main.go:46
      that the resized image covers on a canvas of edge `size`. It lies inside
      the canvas `[0, size) x [0, size)`, has exactly the scaled dimensions,
      touches both edges of the canvas along the longer source side, and is
      centred: on each axis the far margin equals the near one or is one pixel
      larger. */
  function Placement(width: nat, height: nat, size: nat): (p: Rect)
    requires 0 < width || 0 < height
    ensures 0 <= p.left <= p.right <= size && 0 <= p.top <= p.bottom <= size
    ensures p.right - p.left == ScaledDims(width, height, size).width
    ensures p.bottom - p.top == ScaledDims(width, height, size).height
    ensures width > height ==> p.left == 0 && p.right == size
    ensures width <= height ==> p.top == 0 && p.bottom == size
    ensures p.left <= size - p.right <= p.left + 1
    ensures p.top <= size - p.bottom <= p.top + 1
  {
    var d := ScaledDims(width, height, size);
    var x := Offset(size, d.width);
    var y := Offset(size, d.height);
    Rect(x, y, x + d.width, y + d.height)
  }

  /** A square source is scaled to fill the whole canvas, at offset (0, 0). */
  lemma SquarePlacement(edge: nat, size: nat)
    requires 0 < edge
    ensures ScaledDims(edge, edge, size) == Dims(size, size)
    ensures Placement(edge, edge, size) == Rect(0, 0, size, size)
  {
    var q := ScaledDims(edge, edge, size).width;
    assert q * edge <= size * edge < (q + 1) * edge by {
      assert IsFloorQuotient(q, edge * size, edge);
      assert edge * size == size * edge;
    }
    CancelFactor(q, size, edge);
    if q + 1 <= size {
      MulMonotone(q + 1, size, edge);
    }
  }
}
