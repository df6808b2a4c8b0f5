/** The rectangle-selection helpers of BABitArray+Rectangles.h. The source
    works on `CGRect`; cells of a bit array are whole, so the model uses
    integer fields. */
module Rectangles {

  datatype Rect = Rect(x: int, y: int, width: int, height: int)

  /** `BARectArea`: never negative for a rectangle with non-negative sides,
      and zero when a side is zero. */
  function Area(r: Rect): (a: int)
    ensures r.width >= 0 && r.height >= 0 ==> a >= 0
    ensures r.width == 0 || r.height == 0 ==> a == 0
  {
    r.width * r.height
  }

  /** `BARectPerimeter`: sixteen times the area never exceeds the squared
      perimeter, with equality for a square, so among rectangles of one area
      a square has the least perimeter. */
  function Perimeter(r: Rect): (p: int)
    ensures 16 * Area(r) <= p * p
    ensures r.width == r.height ==> 16 * Area(r) == p * p
  {
    SquareBound(r.width, r.height);
    r.width * 2 + r.height * 2
  }

  /** `16 w h <= (2 w + 2 h)^2`, since the difference is `4 (w - h)^2`. */
  lemma SquareBound(w: int, h: int)
    ensures 16 * (w * h) <= (w * 2 + h * 2) * (w * 2 + h * 2)
    ensures w == h ==> 16 * (w * h) == (w * 2 + h * 2) * (w * 2 + h * 2)
  {
    var d := w - h;
    assert (w * 2 + h * 2) * (w * 2 + h * 2) == 16 * (w * h) + 4 * (d * d);
  }

  /** `r2` beats `r1`: strictly larger, or as large and strictly more compact. */
  predicate Beats(r2: Rect, r1: Rect) {
    Area(r2) > Area(r1) || (Area(r2) == Area(r1) && Perimeter(r2) < Perimeter(r1))
  }

  /** `BABestRect`: the larger area wins; an area tie goes to the smaller
      perimeter; a full tie keeps the first argument. */
  function BestRect(r1: Rect, r2: Rect): (r: Rect)
    ensures r == r1 || r == r2
    ensures Area(r) >= Area(r1) && Area(r) >= Area(r2)
    ensures Area(r) == Area(r1) ==> Perimeter(r) <= Perimeter(r1)
    ensures Area(r) == Area(r2) ==> Perimeter(r) <= Perimeter(r2)
    ensures Area(r1) == Area(r2) && Perimeter(r1) == Perimeter(r2) ==> r == r1
  {
    var r1a, r1p := Area(r1), Perimeter(r1);
    var r2a, r2p := Area(r2), Perimeter(r2);
    if r2a > r1a || (r2a == r1a && r1p > r2p) then r2 else r1
  }

  /** `BABestRect` picks `r2` exactly when `r2` beats `r1`. */
  lemma BestRectChoosesBeater(r1: Rect, r2: Rect)
    ensures BestRect(r1, r2) == (if Beats(r2, r1) then r2 else r1)
  {
  }

  /** Scanning candidates left to right, keeping `BABestRect(best, next)`: the
      selection a rectangle search performs. The winner is a candidate of
      maximal area, of minimal perimeter among those, and the earliest such. */
  function BestOf(rs: seq<Rect>): (r: Rect)
    requires |rs| > 0
    ensures r in rs
    ensures forall k | 0 <= k < |rs| :: Area(rs[k]) <= Area(r)
    ensures forall k | 0 <= k < |rs| :: Area(rs[k]) == Area(r) ==> Perimeter(r) <= Perimeter(rs[k])
    ensures exists i | 0 <= i < |rs| :: rs[i] == r && forall k | 0 <= k < i :: Beats(r, rs[k])
    decreases |rs|
  {
    if |rs| == 1 then rs[0]
    else
      var init := rs[..|rs| - 1];
      var best := BestOf(init);
      var last := rs[|rs| - 1];
      var r := BestRect(best, last);
      assert forall k | 0 <= k < |rs| - 1 :: rs[k] == init[k];
      if r == best then
        r
      else
        assert Beats(last, best);
        assert forall k | 0 <= k < |rs| - 1 :: Beats(last, rs[k]);
        assert rs[|rs| - 1] == r;
        r
  }

  function Min(a: int, b: int): int { if a <= b then a else b }

  /** `BARectSquare`: keeps the origin and cuts the longer side down to the
      shorter one. */
  function RectSquare(rect: Rect): (r: Rect)
    ensures r.x == rect.x && r.y == rect.y
    ensures r.width == r.height == Min(rect.width, rect.height)
  {
    if rect.width < rect.height then rect.(height := rect.width)
    else if rect.height < rect.width then rect.(width := rect.height)
    else rect
  }

  /** A square is its own square, and for non-negative sides squaring never
      grows the area. */
  lemma RectSquareProperties(rect: Rect)
    ensures RectSquare(RectSquare(rect)) == RectSquare(rect)
    ensures rect.width >= 0 && rect.height >= 0 ==> Area(RectSquare(rect)) <= Area(rect)
  {
    var m := Min(rect.width, rect.height);
    if rect.width >= 0 && rect.height >= 0 {
      if rect.width <= rect.height {
        assert m * m <= m * rect.height;
      } else {
        assert m * m <= rect.width * m;
      }
    }
  }
}
