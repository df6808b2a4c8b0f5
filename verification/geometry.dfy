/** Integer points, sizes and regions (BATypes.h) and the inline region
    functions of BAFunctions.h. BAFunctions.h spells the region type `BARegion`
    while BATypes.h declares `BARegion2`; both name the one origin+size record
    `Region2` below. Coordinates are unbounded integers (`NSInteger` overflow is
    not modelled). */
module Geometry {

  datatype Point2 = Point2(x: int, y: int)

  datatype Size2 = Size2(width: int, height: int)

  datatype Region2 = Region2(origin: Point2, size: Size2)

  // ---------------------------------------------------------------------------
  // BAQuadrant: an NSUInteger bitmask, one bit per quadrant

  type Quadrant = bv64

  const Quadrant00: Quadrant := 0x01  // +X, +Y
  const Quadrant01: Quadrant := 0x02  // -X, +Y
  const Quadrant10: Quadrant := 0x04  // +X, -Y
  const Quadrant11: Quadrant := 0x08  // -X, -Y

  const Quadrant0: Quadrant := Quadrant00
  const Quadrant1: Quadrant := Quadrant01
  const Quadrant2: Quadrant := Quadrant11
  const Quadrant3: Quadrant := Quadrant10

  const PositiveX: Quadrant := Quadrant00 | Quadrant10
  const NegativeX: Quadrant := Quadrant01 | Quadrant11
  const PositiveY: Quadrant := Quadrant00 | Quadrant01
  const NegativeY: Quadrant := Quadrant10 | Quadrant11
  const QuadrantsAll: Quadrant := PositiveX | NegativeX

  /** Exactly one quadrant bit is set. */
  predicate IsSingleQuadrant(q: Quadrant) {
    q == Quadrant00 || q == Quadrant01 || q == Quadrant10 || q == Quadrant11
  }

  /** The enum's values: four distinct single bits, the numbered aliases a
      permutation of them, and the half-plane masks complementary pairs. */
  lemma QuadrantConstants()
    ensures Quadrant00 == 1 && Quadrant01 == 2 && Quadrant10 == 4 && Quadrant11 == 8
    ensures [Quadrant0, Quadrant1, Quadrant2, Quadrant3] == [Quadrant00, Quadrant01, Quadrant11, Quadrant10]
    ensures forall q :: IsSingleQuadrant(q) <==> q in {Quadrant0, Quadrant1, Quadrant2, Quadrant3}
    ensures PositiveX & NegativeX == 0 && PositiveX | NegativeX == QuadrantsAll
    ensures PositiveY & NegativeY == 0 && PositiveY | NegativeY == QuadrantsAll
    ensures PositiveX & PositiveY == Quadrant00 && NegativeX & NegativeY == Quadrant11
    ensures QuadrantsAll == 0x0F
  {
  }

  // ---------------------------------------------------------------------------
  // Points

  /** `BAPoint2GetQuadrant`: start at +X+Y, shift once for a negative x and
      twice for a negative y. */
  function PointQuadrant(p: Point2): (q: Quadrant)
    ensures IsSingleQuadrant(q)
    ensures (q & NegativeX != 0) <==> p.x < 0
    ensures (q & NegativeY != 0) <==> p.y < 0
  {
    var q1 := if p.x < 0 then Quadrant00 << 1 else Quadrant00;
    if p.y < 0 then q1 << 2 else q1
  }

  // ---------------------------------------------------------------------------
  // Regions

  /** `BARegionGetMinX`: no cell lies left of it, and a non-empty region has
      a cell on it. */
  function MinX(r: Region2): (m: int)
    ensures forall p | HasCell(r, p) :: m <= p.x
    ensures !IsEmpty(r) ==> HasCell(r, Point2(m, r.origin.y))
  {
    r.origin.x
  }

  /** `BARegionGetMaxX`: an exclusive bound, every cell lying left of it, and
      a non-empty region has a cell just left of it. */
  function MaxX(r: Region2): (m: int)
    ensures forall p | HasCell(r, p) :: p.x < m
    ensures !IsEmpty(r) ==> HasCell(r, Point2(m - 1, r.origin.y))
  {
    r.origin.x + r.size.width
  }

  /** `BARegionGetMinY`: no cell lies below it, and a non-empty region has a
      cell on it. */
  function MinY(r: Region2): (m: int)
    ensures forall p | HasCell(r, p) :: m <= p.y
    ensures !IsEmpty(r) ==> HasCell(r, Point2(r.origin.x, m))
  {
    r.origin.y
  }

  /** `BARegionGetMaxY`: an exclusive bound, every cell lying below it, and a
      non-empty region has a cell just below it. */
  function MaxY(r: Region2): (m: int)
    ensures forall p | HasCell(r, p) :: p.y < m
    ensures !IsEmpty(r) ==> HasCell(r, Point2(r.origin.x, m - 1))
  {
    r.origin.y + r.size.height
  }

  function BottomLeft(r: Region2): Point2 { Point2(MinX(r), MinY(r)) }
  function BottomRight(r: Region2): Point2 { Point2(MaxX(r), MinY(r)) }
  function TopLeft(r: Region2): Point2 { Point2(MinX(r), MaxY(r)) }
  function TopRight(r: Region2): Point2 { Point2(MaxX(r), MaxY(r)) }

  /** `BARegionMake`. */
  function MakeRegion(x: int, y: int, width: int, height: int): (r: Region2)
    ensures MinX(r) == x && MinY(r) == y && MaxX(r) - MinX(r) == width && MaxY(r) - MinY(r) == height
  {
    Region2(Point2(x, y), Size2(width, height))
  }

  /** The unit cell at `p` lies in the region: the region is the half-open
      rectangle `[MinX, MaxX) x [MinY, MaxY)` of cells. */
  predicate HasCell(r: Region2, p: Point2) {
    r.origin.x <= p.x < r.origin.x + r.size.width && r.origin.y <= p.y < r.origin.y + r.size.height
  }

  /** `BARegionEqualToRegion`: fieldwise comparison is value equality. */
  function RegionEqual(a: Region2, b: Region2): (eq: bool)
    ensures eq <==> a == b
  {
    a.origin.x == b.origin.x && a.origin.y == b.origin.y
    && a.size.width == b.size.width && a.size.height == b.size.height
  }

  /** `BARegionIsEmpty`: a non-positive side means the region holds no cell. */
  function IsEmpty(r: Region2): (empty: bool)
    ensures empty ==> forall p :: !HasCell(r, p)
    ensures !empty ==> HasCell(r, r.origin)
  {
    r.size.width <= 0 || r.size.height <= 0
  }

  /** `BARegionArea`. */
  function Area(r: Region2): (a: int)
    ensures !IsEmpty(r) ==> a >= 1
  {
    r.size.width * r.size.height
  }

  /** `BARegionGetQuadrant`: the union of the quadrants of the four corners.
      A quadrant bit is present exactly when some corner x and some corner y
      have that quadrant's signs (the corners are every pairing of an x from
      {MinX, MaxX} with a y from {MinY, MaxY}). */
  function RegionQuadrant(r: Region2): (q: Quadrant)
    ensures q != 0 && q & !QuadrantsAll == 0
    ensures (q & Quadrant00 != 0) <==> (MinX(r) >= 0 || MaxX(r) >= 0) && (MinY(r) >= 0 || MaxY(r) >= 0)
    ensures (q & Quadrant01 != 0) <==> (MinX(r) < 0 || MaxX(r) < 0) && (MinY(r) >= 0 || MaxY(r) >= 0)
    ensures (q & Quadrant10 != 0) <==> (MinX(r) >= 0 || MaxX(r) >= 0) && (MinY(r) < 0 || MaxY(r) < 0)
    ensures (q & Quadrant11 != 0) <==> (MinX(r) < 0 || MaxX(r) < 0) && (MinY(r) < 0 || MaxY(r) < 0)
  {
    var a, b, c, d := PointQuadrant(BottomLeft(r)), PointQuadrant(BottomRight(r)),
                      PointQuadrant(TopLeft(r)), PointQuadrant(TopRight(r));
    PointQuadrantCases(BottomLeft(r));
    PointQuadrantCases(BottomRight(r));
    PointQuadrantCases(TopLeft(r));
    PointQuadrantCases(TopRight(r));
    SingleQuadrantUnion(a, b, c, d);
    a | b | c | d
  }

  /** Which single quadrant a point lies in, sign by sign. */
  lemma PointQuadrantCases(p: Point2)
    ensures PointQuadrant(p) == Quadrant00 <==> p.x >= 0 && p.y >= 0
    ensures PointQuadrant(p) == Quadrant01 <==> p.x < 0 && p.y >= 0
    ensures PointQuadrant(p) == Quadrant10 <==> p.x >= 0 && p.y < 0
    ensures PointQuadrant(p) == Quadrant11 <==> p.x < 0 && p.y < 0
  {
  }

  /** The union of four single quadrants is a non-empty quadrant mask that
      holds exactly those four. */
  lemma SingleQuadrantUnion(a: Quadrant, b: Quadrant, c: Quadrant, d: Quadrant)
    requires IsSingleQuadrant(a) && IsSingleQuadrant(b) && IsSingleQuadrant(c) && IsSingleQuadrant(d)
    ensures a | b | c | d != 0 && (a | b | c | d) & !QuadrantsAll == 0
    ensures forall m | IsSingleQuadrant(m) :: ((a | b | c | d) & m != 0 <==> m == a || m == b || m == c || m == d)
  {
  }

  /** `BARegionContainsRegion`: all four edges of `inner` lie within `outer`. */
  function ContainsRegion(outer: Region2, inner: Region2): (c: bool)
    ensures c ==> forall p :: HasCell(inner, p) ==> HasCell(outer, p)
  {
    MinX(outer) <= MinX(inner) && MaxX(outer) >= MaxX(inner)
    && MinY(outer) <= MinY(inner) && MaxY(outer) >= MaxY(inner)
  }

  /** For a region that holds cells, containment is exactly cell inclusion. */
  lemma ContainsRegionByCells(outer: Region2, inner: Region2)
    requires !IsEmpty(inner)
    requires forall p :: HasCell(inner, p) ==> HasCell(outer, p)
    ensures ContainsRegion(outer, inner)
  {
    assert HasCell(inner, BottomLeft(inner));
    assert HasCell(inner, Point2(MaxX(inner) - 1, MaxY(inner) - 1));
  }

  lemma ContainsRegionPreorder(a: Region2, b: Region2, c: Region2)
    ensures ContainsRegion(a, a)
    ensures ContainsRegion(a, b) && ContainsRegion(b, c) ==> ContainsRegion(a, c)
  {
  }

  function Max(a: int, b: int): int { if a >= b then a else b }
  function Min(a: int, b: int): int { if a <= b then a else b }

  /** `BARegionIntersection`: the larger minimum and the smaller maximum on
      each axis. The size may come out negative for disjoint regions. */
  function Intersection(first: Region2, second: Region2): (r: Region2)
    ensures ContainsRegion(first, r) && ContainsRegion(second, r)
    ensures forall p :: HasCell(r, p) <==> HasCell(first, p) && HasCell(second, p)
  {
    var bottomLeft := Point2(Max(MinX(first), MinX(second)), Max(MinY(first), MinY(second)));
    var topRight := Point2(Min(MaxX(first), MaxX(second)), Min(MaxY(first), MaxY(second)));
    MakeRegion(bottomLeft.x, bottomLeft.y, topRight.x - bottomLeft.x, topRight.y - bottomLeft.y)
  }

  lemma IntersectionAlgebra(a: Region2, b: Region2)
    ensures Intersection(a, b) == Intersection(b, a)
    ensures Intersection(a, a) == a
  {
    var ab, ba, aa := Intersection(a, b), Intersection(b, a), Intersection(a, a);
    assert ab.origin == ba.origin && ab.size == ba.size;
    assert aa.origin == a.origin && aa.size == a.size;
  }
}
