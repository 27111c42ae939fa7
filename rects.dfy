/** Integer points and rectangles with the semantics of the toolkit's wxPoint and wxRect,
    written out here because the toolkit is not part of this model, and the truncating
    integer division of C++. */
module Rects {

  datatype Point = Point(x: int, y: int)

  function Max(a: int, b: int): int { if a < b then b else a }
  function Min(a: int, b: int): int { if a < b then a else b }

  /** A rectangle of `width` x `height` pixels whose top-left pixel is (x, y). */
  datatype Rect = Rect(x: int, y: int, width: int, height: int) {
    /** Column of the rightmost pixel (wxRect::GetRight). */
    function Right(): int { x + width - 1 }
    /** Row of the bottom pixel (wxRect::GetBottom). */
    function Bottom(): int { y + height - 1 }

    /** wxRect::Contains: the pixel p lies inside the rectangle. */
    predicate Contains(p: Point) {
      p.x >= x && p.y >= y && p.y - y < height && p.x - x < width
    }

    /** wxRect::Intersects: the clipped intersection of the two rectangles is not empty. */
    predicate Intersects(r: Rect) {
      Max(x, r.x) <= Min(Right(), r.Right()) && Max(y, r.y) <= Min(Bottom(), r.Bottom())
    }

    /** Every pixel of this rectangle is a pixel of `r`. */
    predicate Within(r: Rect) {
      width > 0 && height > 0 ==> r.x <= x && r.y <= y && Right() <= r.Right() && Bottom() <= r.Bottom()
    }
  }

  /** Intersects means exactly "some pixel lies in both rectangles". */
  lemma IntersectsIffCommonPixel(a: Rect, b: Rect)
    ensures a.Intersects(b) <==> exists p: Point :: a.Contains(p) && b.Contains(p)
  {
    if a.Intersects(b) {
      var p := Point(Max(a.x, b.x), Max(a.y, b.y));
      assert a.Contains(p) && b.Contains(p);
    }
  }

  /** A rectangle that meets part of `r` meets `r`. */
  lemma MeetsPartMeetsWhole(a: Rect, r: Rect, b: Rect)
    requires a.Within(r) && b.Intersects(a)
    ensures b.Intersects(r)
  {
    IntersectsIffCommonPixel(b, a);
    var p :| b.Contains(p) && a.Contains(p);
    assert r.Contains(p);
    IntersectsIffCommonPixel(b, r);
  }

  /** C++ integer division by a positive divisor, which truncates toward zero (Dafny's `/`
      rounds toward negative infinity for negative dividends). */
  function CDiv(a: int, b: int): (q: int)
    requires b > 0
    ensures a >= 0 ==> 0 <= q && q * b <= a < q * b + b
    ensures a < 0 ==> q <= 0 && q * b - b < a <= q * b
  {
    if a >= 0 then a / b else -((-a) / b)
  }
}
