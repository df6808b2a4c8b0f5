/** The shape arithmetic of `BASparseArray` (BASparseArray.h) and the storage
    index encoding of BASparseArrayPrivate.h.

    A tree of `level` has `scale = 2^power` children per interior node and
    leaves of `leafSize = base^power` cells; the whole tree is a hypercube of
    edge `treeBase = base * 2^level` holding `treeSize = treeBase^power`
    cells. A storage index is a leaf index times `leafSize` plus an offset
    inside the leaf. The leaf-index functions of the source
    (`LeafIndexFor2DCoordinates` and friends) are declared but not defined in
    the headers, so they are parameters here, applied to the coordinates
    divided by `base`. */
module SparseShape {
  import opened Wrappers
  import opened Arith
  import opened SampleArrays

  datatype Shape = Shape(base: nat, power: nat)

  /** The shapes the initialiser accepts: a positive leaf edge and one to
      three dimensions. */
  predicate ValidShape(sh: Shape) {
    sh.base >= 1 && 1 <= sh.power <= 3
  }

  /** `scale`: children per interior node. */
  function Scale(sh: Shape): (s: nat)
    ensures s >= 1
    ensures ValidShape(sh) ==> s >= 2
  {
    PowPositive(2, sh.power);
    if sh.power >= 1 then PowMonotoneExp(2, 1, sh.power); Pow(2, sh.power)
    else Pow(2, sh.power)
  }

  /** `leafSize`: cells per leaf. */
  function LeafSize(sh: Shape): (n: nat)
    ensures sh.base >= 1 ==> n >= 1
  {
    PowNonnegative(sh.base, sh.power);
    if sh.base >= 1 then PowPositive(sh.base, sh.power); Pow(sh.base, sh.power)
    else Pow(sh.base, sh.power)
  }

  /** `treeBase`: the edge of the hypercube a tree of `level` covers. */
  function TreeBase(sh: Shape, level: nat): nat {
    PowNonnegative(2, level);
    sh.base * Pow(2, level)
  }

  /** `treeSize`: the cells a tree of `level` covers. */
  function TreeSize(sh: Shape, level: nat): nat {
    PowNonnegative(TreeBase(sh, level), sh.power);
    Pow(TreeBase(sh, level), sh.power)
  }

  /** The leaf slots below a node of `level`: one digit of radix `scale` per
      level. */
  function LeafCount(sh: Shape, level: nat): (n: nat)
    ensures n >= 1
  {
    PowPositive(Scale(sh), level);
    Pow(Scale(sh), level)
  }

  /** `treeSize = leafSize * scale^level`: a tree holds `scale^level` leaves. */
  lemma TreeSizeFactors(sh: Shape, level: nat)
    ensures TreeSize(sh, level) == LeafSize(sh) * LeafCount(sh, level)
  {
    PowOfProduct(sh.base, Pow(2, level), sh.power);
    PowMul(2, level, sh.power);
    PowMul(2, sh.power, level);
    assert level * sh.power == sh.power * level;
  }

  /** One more level doubles the edge and multiplies the size by `scale`; a
      level-0 tree is one leaf. */
  lemma TreeSizeStep(sh: Shape, level: nat)
    ensures TreeBase(sh, level + 1) == 2 * TreeBase(sh, level)
    ensures TreeSize(sh, level + 1) == Scale(sh) * TreeSize(sh, level)
    ensures TreeSize(sh, 0) == LeafSize(sh) && LeafCount(sh, 0) == 1
  {
    TreeSizeFactors(sh, level);
    TreeSizeFactors(sh, level + 1);
    TreeSizeFactors(sh, 0);
    assert LeafCount(sh, level + 1) == Scale(sh) * LeafCount(sh, level);
  }

  /** Tree size grows strictly with the level for a valid shape. */
  lemma TreeSizeGrows(sh: Shape, level: nat)
    requires ValidShape(sh)
    ensures TreeSize(sh, level) >= 1
    ensures TreeSize(sh, level + 1) >= 2 * TreeSize(sh, level)
  {
    TreeSizeStep(sh, level);
    TreeSizeFactors(sh, level);
    MulPositive(LeafSize(sh), LeafCount(sh, level));
    MulMonotone(2, Scale(sh), TreeSize(sh, level));
  }

  /** The alternative size written beside `_treeSize`:
      `leafSize * 2^(level + power)`. */
  function CommentTreeSize(sh: Shape, level: nat): nat {
    PowNonnegative(2, level + sh.power);
    LeafSize(sh) * Pow(2, level + sh.power)
  }

  /** The alternative agrees with the tree size exactly when
      `level + power == level * power`; in particular it is wrong at level 0
      for every valid shape (it claims `leafSize * scale` there). */
  lemma CommentTreeSizeExactlyWhen(sh: Shape, level: nat)
    requires sh.base >= 1
    ensures CommentTreeSize(sh, level) == TreeSize(sh, level) <==> level + sh.power == level * sh.power
    ensures ValidShape(sh) ==> CommentTreeSize(sh, 0) == Scale(sh) * TreeSize(sh, 0) != TreeSize(sh, 0)
  {
    TreeSizeFactors(sh, level);
    PowMul(2, sh.power, level);
    assert sh.power * level == level * sh.power;
    var l := LeafSize(sh);
    var m, n := level + sh.power, level * sh.power;
    if m < n {
      PowStrictExp(2, m, n);
      MulStrict(l, Pow(2, m), Pow(2, n));
    } else if n < m {
      PowStrictExp(2, n, m);
      MulStrict(l, Pow(2, n), Pow(2, m));
    }
    TreeSizeStep(sh, 0);
    if ValidShape(sh) {
      assert CommentTreeSize(sh, 0) == l * Scale(sh);
      MulStrict(l, 1, Scale(sh));
    }
  }

  lemma MulStrict(l: int, a: int, b: int)
    requires l >= 1 && a < b
    ensures l * a < l * b
  {
    assert l * b - l * a == l * (b - a);
    MulPositive(l, b - a);
  }

  /** A deeper tree is never smaller. */
  lemma TreeSizeMonotone(sh: Shape, l1: nat, l2: nat)
    requires ValidShape(sh) && l1 <= l2
    ensures TreeSize(sh, l1) <= TreeSize(sh, l2)
  {
    var ls, c1, c2 := LeafSize(sh), LeafCount(sh, l1), LeafCount(sh, l2);
    PowMonotoneExp(Scale(sh), l1, l2);
    assert c1 <= c2;
    TreeSizeFactors(sh, l1);
    TreeSizeFactors(sh, l2);
    MulMonotone(c1, c2, ls);
    assert ls * c1 == c1 * ls && ls * c2 == c2 * ls;
  }

  // ---------------------------------------------------------------------------
  // The 10-entry power tables

  /** `TABLE_SIZE`: entries in `powersOf2`, `powersOf4` and `powersOf8`. */
  const TableSize: nat := 10

  /** The scale of a valid shape is the radix of one of the three tables, and
      every leaf count the tables can express (levels below `TABLE_SIZE`)
      fits in a `uint32_t`. */
  lemma LeafCountTableFits(sh: Shape, level: nat)
    requires ValidShape(sh) && level < TableSize
    ensures Scale(sh) in {2, 4, 8}
    ensures LeafCount(sh, level) < 0x1_0000_0000
  {
    PowMul(2, sh.power, level);
    PowMonotoneExp(2, sh.power * level, 27);
    PowStrictExp(2, 27, 32);
    PowersOfTwo();
  }

  // ---------------------------------------------------------------------------
  // Storage indices

  /** A leaf index and an offset below the leaf size split back out of
      `leafIndex * leafSize + offset`. */
  lemma LeafMajorSplit(leafIndex: nat, size: nat, offset: nat)
    requires offset < size
    ensures (leafIndex * size + offset) / size == leafIndex
    ensures (leafIndex * size + offset) % size == offset
  {
    DivModUnique(leafIndex * size + offset, size, leafIndex, offset);
  }

  /** The leaf a storage index falls in: storage is leaf-major, `leafSize`
      cells per leaf. */
  function LeafOf(sh: Shape, index: nat): (li: nat)
    requires ValidShape(sh)
    ensures li * LeafSize(sh) + OffsetInLeaf(sh, index) == index
  {
    var size := LeafSize(sh);
    var li := index / size;
    assert li >= 0;
    li
  }

  /** The offset of a storage index inside its leaf. */
  function OffsetInLeaf(sh: Shape, index: nat): (o: nat)
    requires ValidShape(sh)
    ensures o < LeafSize(sh)
  {
    var size := LeafSize(sh);
    var o := index % size;
    assert o >= 0;
    o
  }

  /** Splitting `leafIndex * leafSize + offset` gives back the leaf and the
      offset. */
  lemma LeafOfSplit(sh: Shape, leafIndex: nat, offset: nat)
    requires ValidShape(sh) && offset < LeafSize(sh)
    ensures LeafOf(sh, leafIndex * LeafSize(sh) + offset) == leafIndex
    ensures OffsetInLeaf(sh, leafIndex * LeafSize(sh) + offset) == offset
  {
    LeafMajorSplit(leafIndex, LeafSize(sh), offset);
  }

  /** Two storage indices in the same leaf sit at different offsets. */
  lemma SameLeafDistinctOffsets(sh: Shape, i: nat, j: nat)
    requires ValidShape(sh) && i != j && LeafOf(sh, i) == LeafOf(sh, j)
    ensures OffsetInLeaf(sh, i) != OffsetInLeaf(sh, j)
  {
  }

  /** Two digits below `b` make a number below `b^2` that division by `b`
      splits back into the digits. */
  lemma Digits2(p: nat, q: nat, b: nat)
    requires p < b && q < b
    ensures q * b + p < b * b
    ensures (q * b + p) % b == p && (q * b + p) / b == q
  {
    MulMonotone(q, b - 1, b);
    DivModUnique(q * b + p, b, q, p);
  }

  /** Three digits below `b` make a number below `b^3` that successive
      division by `b` splits back into the digits. */
  lemma Digits3(p: nat, q: nat, r: nat, b: nat)
    requires p < b && q < b && r < b
    ensures r * b * b + q * b + p < b * b * b
    ensures (r * b * b + q * b + p) % b == p
    ensures (r * b * b + q * b + p) / b % b == q
    ensures (r * b * b + q * b + p) / b / b == r
  {
    Digits2(q, r, b);
    var upper := r * b + q;
    assert r * b * b + q * b + p == upper * b + p;
    MulMonotone(upper, b * b - 1, b);
    DivModUnique(upper * b + p, b, upper, p);
  }

  /** The in-leaf offset of a 2-D cell: row `y % base`, column `x % base`. */
  function Offset2D(x: nat, y: nat, b: nat): (o: nat)
    requires b >= 1
    ensures o < b * b
    ensures o % b == x % b && o / b == y % b
  {
    Digits2(x % b, y % b, b);
    (y % b) * b + x % b
  }

  /** The in-leaf offset of a 3-D cell; successive division by `base` gives
      back the three in-leaf coordinates. */
  function Offset3D(x: nat, y: nat, z: nat, b: nat): (o: nat)
    requires b >= 1
    ensures o < b * b * b
    ensures o % b == x % b && o / b % b == y % b && o / b / b == z % b
  {
    Digits3(x % b, y % b, z % b, b);
    (z % b) * b * b + (y % b) * b + x % b
  }

  /** The in-leaf offsets are the sample-array linear index of the in-leaf
      coordinates, first coordinate fastest: a leaf is laid out as a sample
      array of order `base`. */
  lemma OffsetsAreLinearIndices(x: nat, y: nat, z: nat, b: nat)
    requires b >= 1
    ensures Offset2D(x, y, b) == LinearIndex([x % b, y % b], b)
    ensures Offset3D(x, y, z, b) == LinearIndex([x % b, y % b, z % b], b)
  {
    LinearIndexOfDigits(x % b, y % b, z % b, b);
  }

  /** `StorageIndexFor2DCoordinates`: the leaf index of `(x / base, y / base)`
      times `base^2`, plus the row-major offset of `(x % base, y % base)`
      inside the leaf. The quotient recovers the leaf index and the remainder
      the two in-leaf coordinates. */
  function StorageIndex2D(x: nat, y: nat, b: nat, leafIndexOf: (nat, nat) -> nat): (s: nat)
    requires b >= 1
    ensures s / (b * b) == leafIndexOf(x / b, y / b)
    ensures s % (b * b) == Offset2D(x, y, b)
  {
    var s := leafIndexOf(x / b, y / b) * (b * b) + Offset2D(x, y, b);
    LeafMajorSplit(leafIndexOf(x / b, y / b), b * b, Offset2D(x, y, b));
    s
  }

  /** `StorageIndexFor3DCoordinates`: as in two dimensions, with a leaf of
      `base^3` cells. */
  function StorageIndex3D(x: nat, y: nat, z: nat, b: nat, leafIndexOf: (nat, nat, nat) -> nat): (s: nat)
    requires b >= 1
    ensures s / (b * b * b) == leafIndexOf(x / b, y / b, z / b)
    ensures s % (b * b * b) == Offset3D(x, y, z, b)
  {
    var s := leafIndexOf(x / b, y / b, z / b) * (b * b * b) + Offset3D(x, y, z, b);
    LeafMajorSplit(leafIndexOf(x / b, y / b, z / b), b * b * b, Offset3D(x, y, z, b));
    s
  }

  /** A plane's cell `(x, y)` lands in leaf `leafIndexOf(x / base, y / base)`
      at in-leaf offset `Offset2D(x, y, base)`, a leaf holding `base^2` cells. */
  lemma CellInLeaf2D(sh: Shape, x: nat, y: nat, leafIndexOf: (nat, nat) -> nat)
    requires ValidShape(sh) && sh.power == 2
    ensures LeafSize(sh) == sh.base * sh.base
    ensures LeafOf(sh, StorageIndex2D(x, y, sh.base, leafIndexOf)) == leafIndexOf(x / sh.base, y / sh.base)
    ensures OffsetInLeaf(sh, StorageIndex2D(x, y, sh.base, leafIndexOf)) == Offset2D(x, y, sh.base)
  {
    assert Pow(sh.base, 2) == sh.base * sh.base by {
      assert Pow(sh.base, 1) == sh.base;
    }
  }

  /** A volume's cell `(x, y, z)` lands in leaf
      `leafIndexOf(x / base, y / base, z / base)` at offset
      `Offset3D(x, y, z, base)`, a leaf holding `base^3` cells. */
  lemma CellInLeaf3D(sh: Shape, x: nat, y: nat, z: nat, leafIndexOf: (nat, nat, nat) -> nat)
    requires ValidShape(sh) && sh.power == 3
    ensures LeafSize(sh) == sh.base * sh.base * sh.base
    ensures LeafOf(sh, StorageIndex3D(x, y, z, sh.base, leafIndexOf)) == leafIndexOf(x / sh.base, y / sh.base, z / sh.base)
    ensures OffsetInLeaf(sh, StorageIndex3D(x, y, z, sh.base, leafIndexOf)) == Offset3D(x, y, z, sh.base)
  {
    assert Pow(sh.base, 3) == sh.base * sh.base * sh.base by {
      assert Pow(sh.base, 1) == sh.base;
      assert Pow(sh.base, 2) == sh.base * sh.base;
    }
  }

  /** Two coordinate pairs share a storage index exactly when they share a
      leaf index and the in-leaf remainders. */
  lemma StorageIndex2DEqual(x: nat, y: nat, x': nat, y': nat, b: nat, leafIndexOf: (nat, nat) -> nat)
    requires b >= 1
    ensures StorageIndex2D(x, y, b, leafIndexOf) == StorageIndex2D(x', y', b, leafIndexOf)
      <==> leafIndexOf(x / b, y / b) == leafIndexOf(x' / b, y' / b) && x % b == x' % b && y % b == y' % b
  {
    var s, s' := StorageIndex2D(x, y, b, leafIndexOf), StorageIndex2D(x', y', b, leafIndexOf);
    if leafIndexOf(x / b, y / b) == leafIndexOf(x' / b, y' / b) && x % b == x' % b && y % b == y' % b {
      assert Offset2D(x, y, b) == Offset2D(x', y', b);
    }
  }

  lemma StorageIndex3DEqual(x: nat, y: nat, z: nat, x': nat, y': nat, z': nat, b: nat,
                            leafIndexOf: (nat, nat, nat) -> nat)
    requires b >= 1
    ensures StorageIndex3D(x, y, z, b, leafIndexOf) == StorageIndex3D(x', y', z', b, leafIndexOf)
      <==> leafIndexOf(x / b, y / b, z / b) == leafIndexOf(x' / b, y' / b, z' / b)
           && x % b == x' % b && y % b == y' % b && z % b == z' % b
  {
    var L, L' := leafIndexOf(x / b, y / b, z / b), leafIndexOf(x' / b, y' / b, z' / b);
    var o, o' := Offset3D(x, y, z, b), Offset3D(x', y', z', b);
    var s, s' := StorageIndex3D(x, y, z, b, leafIndexOf), StorageIndex3D(x', y', z', b, leafIndexOf);
    assert s == L * (b * b * b) + o && s' == L' * (b * b * b) + o';
    if L == L' && x % b == x' % b && y % b == y' % b && z % b == z' % b {
      assert o == o';
    }
  }

  /** The leaf-index function and its inverse (`LeafCoordinatesForIndex2D`)
      undo each other on leaf coordinates. */
  ghost predicate Inverse2D(leafIndexOf: (nat, nat) -> nat, leafCoordsOf: nat -> (nat, nat)) {
    forall p: nat, q: nat :: leafCoordsOf(leafIndexOf(p, q)) == (p, q)
  }

  ghost predicate Inverse3D(leafIndexOf: (nat, nat, nat) -> nat, leafCoordsOf: nat -> (nat, nat, nat)) {
    forall p: nat, q: nat, r: nat :: leafCoordsOf(leafIndexOf(p, q, r)) == (p, q, r)
  }

  /** A storage index decoded back to coordinates: the leaf's coordinates
      scaled by `base`, plus the in-leaf remainders. */
  function Coordinates2D(s: nat, b: nat, leafCoordsOf: nat -> (nat, nat)): (nat, nat)
    requires b >= 1
  {
    MulPositive(b, b);
    var square := b * b;
    var d := s / square;
    assert d >= 0;
    var leaf := leafCoordsOf(d);
    var offset := s % square;
    assert offset >= 0 && offset / b >= 0;
    (Place(leaf.0, b, offset % b), Place(leaf.1, b, offset / b))
  }

  function Coordinates3D(s: nat, b: nat, leafCoordsOf: nat -> (nat, nat, nat)): (nat, nat, nat)
    requires b >= 1
  {
    MulPositive(b, b);
    MulPositive(b * b, b);
    var cube := b * b * b;
    var d := s / cube;
    assert d >= 0;
    var leaf := leafCoordsOf(d);
    var offset := s % cube;
    assert offset >= 0 && offset / b >= 0 && offset / b / b >= 0;
    (Place(leaf.0, b, offset % b), Place(leaf.1, b, offset / b % b), Place(leaf.2, b, offset / b / b))
  }

  /** The coordinate whose leaf coordinate is `high` and whose in-leaf
      remainder is `low`. */
  function Place(high: nat, b: nat, low: nat): nat {
    high * b + low
  }

  /** Encoding then decoding a coordinate pair gives it back. */
  lemma Coordinates2DRoundTrip(x: nat, y: nat, b: nat, leafIndexOf: (nat, nat) -> nat, leafCoordsOf: nat -> (nat, nat))
    requires b >= 1 && Inverse2D(leafIndexOf, leafCoordsOf)
    ensures Coordinates2D(StorageIndex2D(x, y, b, leafIndexOf), b, leafCoordsOf) == (x, y)
  {
    assert leafCoordsOf(leafIndexOf(x / b, y / b)) == (x / b, y / b);
    Reassemble(x, b);
    Reassemble(y, b);
  }

  /** Encoding then decoding a coordinate triple gives it back. */
  lemma Coordinates3DRoundTrip(x: nat, y: nat, z: nat, b: nat,
                               leafIndexOf: (nat, nat, nat) -> nat, leafCoordsOf: nat -> (nat, nat, nat))
    requires b >= 1 && Inverse3D(leafIndexOf, leafCoordsOf)
    ensures Coordinates3D(StorageIndex3D(x, y, z, b, leafIndexOf), b, leafCoordsOf) == (x, y, z)
  {
    assert leafCoordsOf(leafIndexOf(x / b, y / b, z / b)) == (x / b, y / b, z / b);
    Reassemble(x, b);
    Reassemble(y, b);
    Reassemble(z, b);
  }

  lemma Reassemble(x: nat, b: nat)
    requires b >= 1
    ensures (x / b) * b + x % b == x
  {
  }

  /** With an invertible leaf-index function, distinct coordinates have
      distinct storage indices. */
  lemma StorageIndex2DInjective(x: nat, y: nat, x': nat, y': nat, b: nat,
                                leafIndexOf: (nat, nat) -> nat, leafCoordsOf: nat -> (nat, nat))
    requires b >= 1 && Inverse2D(leafIndexOf, leafCoordsOf)
    ensures StorageIndex2D(x, y, b, leafIndexOf) == StorageIndex2D(x', y', b, leafIndexOf) <==> (x, y) == (x', y')
  {
    Coordinates2DRoundTrip(x, y, b, leafIndexOf, leafCoordsOf);
    Coordinates2DRoundTrip(x', y', b, leafIndexOf, leafCoordsOf);
  }

  lemma StorageIndex3DInjective(x: nat, y: nat, z: nat, x': nat, y': nat, z': nat, b: nat,
                                leafIndexOf: (nat, nat, nat) -> nat, leafCoordsOf: nat -> (nat, nat, nat))
    requires b >= 1 && Inverse3D(leafIndexOf, leafCoordsOf)
    ensures StorageIndex3D(x, y, z, b, leafIndexOf) == StorageIndex3D(x', y', z', b, leafIndexOf)
      <==> (x, y, z) == (x', y', z')
  {
    Coordinates3DRoundTrip(x, y, z, b, leafIndexOf, leafCoordsOf);
    Coordinates3DRoundTrip(x', y', z', b, leafIndexOf, leafCoordsOf);
  }
}
