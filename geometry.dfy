/**
 * Pixel-space geometry of a detected marker: the detector reports each
 * corner as a pair of floats, the tracker truncates them to integers and
 * takes the midpoint of the top-left / bottom-right diagonal as the pixel
 * at which depth is sampled.
 */
module Geometry {

  /** A corner as the detector reports it (floating-point pixel coordinates). */
  datatype Corner = Corner(x: real, y: real)

  /** An integer pixel, after truncation. */
  datatype Pixel = Pixel(x: int, y: int)

  /** The four corners of one marker, in the detector's winding order. */
  datatype Quad = Quad(topLeft: Corner, topRight: Corner, bottomRight: Corner, bottomLeft: Corner)

  function Min(a: int, b: int): int { if a <= b then a else b }
  function Max(a: int, b: int): int { if a <= b then b else a }

  /** Python's int() on a float: rounds toward zero. */
  function Truncate(r: real): (t: int)
    ensures r >= 0.0 ==> t >= 0 && t as real <= r < t as real + 1.0
    ensures r < 0.0 ==> t <= 0 && t as real - 1.0 < r <= t as real
  {
    if r >= 0.0 then r.Floor else -((-r).Floor)
  }

  /** A corner converted with int() on each coordinate. */
  function ToPixel(c: Corner): Pixel
  {
    Pixel(Truncate(c.x), Truncate(c.y))
  }

  /** int((a + b) / 2.0) for integers a and b: the midpoint, rounded toward zero. */
  function HalfTrunc(a: int, b: int): (m: int)
    ensures a + b >= 0 ==> m == (a + b) / 2
    ensures a + b < 0 ==> m == -((-(a + b)) / 2)
    ensures Min(a, b) <= m <= Max(a, b)
  {
    Truncate((a + b) as real / 2.0)
  }

  /** The pixel at which the tracker samples depth for a marker. */
  function RepresentativePixel(q: Quad): Pixel
  {
    var tl := ToPixel(q.topLeft);
    var br := ToPixel(q.bottomRight);
    Pixel(HalfTrunc(tl.x, br.x), HalfTrunc(tl.y, br.y))
  }

  /** The representative pixel ignores the top-right and bottom-left corners. */
  lemma RepresentativePixelUsesDiagonal(q: Quad, q': Quad)
    requires q.topLeft == q'.topLeft && q.bottomRight == q'.bottomRight
    ensures RepresentativePixel(q) == RepresentativePixel(q')
  {
  }

  /**
   * For non-negative coordinates the representative pixel is the integer
   * midpoint of the truncated diagonal, and it always lies in the bounding
   * box of the two truncated diagonal corners.
   */
  lemma RepresentativePixelIsMidpoint(q: Quad)
    ensures var tl, br, p := ToPixel(q.topLeft), ToPixel(q.bottomRight), RepresentativePixel(q);
      && Min(tl.x, br.x) <= p.x <= Max(tl.x, br.x)
      && Min(tl.y, br.y) <= p.y <= Max(tl.y, br.y)
      && (q.topLeft.x >= 0.0 && q.bottomRight.x >= 0.0 ==> p.x == (tl.x + br.x) / 2)
      && (q.topLeft.y >= 0.0 && q.bottomRight.y >= 0.0 ==> p.y == (tl.y + br.y) / 2)
  {
  }
}
