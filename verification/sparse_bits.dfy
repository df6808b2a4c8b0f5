/** `BASparseBitArray` (BASparseBitArray.h): a sparse tree whose leaves own
    `BABitArray` storage of `leafSize` bits. Bit `i` lives in leaf
    `i / leafSize` at offset `i % leafSize`; a leaf that was never
    materialised reads as all clear, and writing past the tree first grows it
    with `expandToFitSize:`. */
module SparseBitArrays {
  import opened Wrappers
  import opened Arith
  import opened IntMath
  import BitArrays
  import opened SparseShape
  import opened SparseTrees

  type SparseBitArray = Tree<BitArrays.BitArray>

  /** A leaf's storage: a consistent bit array of `leafSize` bits. */
  predicate GoodLeaf(sh: Shape, b: BitArrays.BitArray) {
    BitArrays.Valid(b) && BitArrays.Length(b) == LeafSize(sh)
  }

  /** Every materialised leaf holds good storage. */
  ghost predicate ValidBits(t: SparseBitArray) {
    ValidTree(t) && forall li: nat :: TreeLeaf(t, li).Some? ==> GoodLeaf(t.shape, TreeLeaf(t, li).value)
  }

  /** The storage of a newly materialised leaf: `leafSize` clear bits. */
  function Blank(sh: Shape): (b: BitArrays.BitArray)
    ensures GoodLeaf(sh, b) && b.count == 0
    ensures forall k | 0 <= k < LeafSize(sh) :: !b.bits[k]
  {
    BitArrays.Make(LeafSize(sh))
  }

  /** `bit:`: the bit at storage index `i`; clear in a leaf never
      materialised and past the tree. */
  function Bit(t: SparseBitArray, i: nat): (r: bool)
    requires ValidBits(t)
    ensures i >= TreeSize(t.shape, t.level) ==> !r
    ensures TreeLeaf(t, LeafOf(t.shape, i)).None? ==> !r
    ensures TreeLeaf(t, LeafOf(t.shape, i)).Some? ==>
      r == TreeLeaf(t, LeafOf(t.shape, i)).value.bits[OffsetInLeaf(t.shape, i)]
  {
    StorageIndexSplit(t.shape, t.level, i);
    if i < TreeSize(t.shape, t.level) then
      match TreeLeaf(t, LeafOf(t.shape, i))
      case None => false
      case Some(b) => b.bits[OffsetInLeaf(t.shape, i)]
    else
      LeafAtBeyond(t.root, Scale(t.shape), t.level, LeafOf(t.shape, i));
      false
  }

  /** `initWithBase:power:`: the initial two-level tree with blank leaves;
      every bit is clear. */
  function Init(base: nat, power: nat): (r: Result<SparseBitArray>)
    ensures r.Success? <==> ValidShape(Shape(base, power))
    ensures r.Failure? ==> r.error == InvalidArgument
    ensures r.Success? ==> ValidBits(r.value) && r.value.shape == Shape(base, power) && r.value.level == 1
    ensures r.Success? ==> forall i: nat :: !Bit(r.value, i)
  {
    var r := InitialTree(base, power, Blank(Shape(base, power)));
    if r.Success? then
      BlankTree(r.value);
      r
    else r
  }

  lemma BlankTree(t: SparseBitArray)
    requires ValidTree(t) && t.level == 1
    requires forall li | 0 <= li < Scale(t.shape) :: TreeLeaf(t, li) == Some(Blank(t.shape))
    ensures ValidBits(t)
    ensures forall i: nat :: !Bit(t, i)
  {
    assert LeafCount(t.shape, 1) == Scale(t.shape);
    forall li: nat | li >= Scale(t.shape)
      ensures TreeLeaf(t, li) == None
    {
      LeafAtBeyond(t.root, Scale(t.shape), 1, li);
    }
    forall i: nat
      ensures !Bit(t, i)
    {
      StorageIndexSplit(t.shape, 1, i);
    }
  }

  // ---------------------------------------------------------------------------
  // What leaf-level changes do to the bits

  /** Growing the tree keeps every bit, and the new cells are clear. */
  lemma ExpandKeepsBits(t: SparseBitArray, size: nat)
    requires ValidBits(t)
    ensures ValidBits(ExpandToFitSize(t, size))
    ensures forall j: nat :: Bit(ExpandToFitSize(t, size), j) == Bit(t, j)
  {
    var e := ExpandToFitSize(t, size);
    var sh := t.shape;
    assert LeavesExtend(e, t);
    forall li: nat | TreeLeaf(e, li).Some?
      ensures GoodLeaf(sh, TreeLeaf(e, li).value)
    {
      assert TreeLeaf(e, li) == (if li < LeafCount(sh, t.level) then TreeLeaf(t, li) else None);
    }
    forall j: nat
      ensures Bit(e, j) == Bit(t, j)
    {
      StorageIndexSplit(sh, t.level, j);
      StorageIndexSplit(sh, e.level, j);
      assert TreeLeaf(e, LeafOf(sh, j))
        == (if LeafOf(sh, j) < LeafCount(sh, t.level) then TreeLeaf(t, LeafOf(sh, j)) else None);
    }
  }

  /** Materialising a leaf with blank storage changes no bit. */
  lemma MaterialiseKeepsBits(t: SparseBitArray, li: nat)
    requires ValidBits(t) && li < LeafCount(t.shape, t.level)
    ensures ValidBits(Materialise(t, li, Blank(t.shape)))
    ensures forall j: nat :: Bit(Materialise(t, li, Blank(t.shape)), j) == Bit(t, j)
  {
    var m := Materialise(t, li, Blank(t.shape));
    forall j: nat
      ensures Bit(m, j) == Bit(t, j)
    {
      if j < TreeSize(t.shape, t.level) && LeafOf(t.shape, j) == li {
        assert TreeLeaf(m, li) == Some(TreeLeaf(t, li).GetOr(Blank(t.shape)));
      }
    }
  }

  /** Replacing leaf `li` changes exactly the bits stored in it. */
  lemma WithLeafBits(t: SparseBitArray, li: nat, leaf: BitArrays.BitArray)
    requires ValidBits(t) && li < LeafCount(t.shape, t.level) && GoodLeaf(t.shape, leaf)
    ensures ValidBits(WithLeaf(t, li, leaf))
    ensures forall j: nat ::
      (Bit(WithLeaf(t, li, leaf), j)
       == if j < TreeSize(t.shape, t.level) && LeafOf(t.shape, j) == li then leaf.bits[OffsetInLeaf(t.shape, j)]
          else Bit(t, j))
  {
  }

  // ---------------------------------------------------------------------------
  // Single-bit mutators

  /** Writes `v` at a storage index inside the tree, through
      `leafForStorageIndex:offset:`. */
  function StoreBit(t: SparseBitArray, i: nat, v: bool): (r: SparseBitArray)
    requires ValidBits(t) && i < TreeSize(t.shape, t.level)
    ensures ValidBits(r) && r.shape == t.shape && r.level == t.level
    ensures Bit(r, i) == v
    ensures forall j: nat | j != i :: Bit(r, j) == Bit(t, j)
  {
    var sh := t.shape;
    StorageIndexSplit(sh, t.level, i);
    var lookup := LeafForStorageIndex(t, i, Blank(sh)).value;
    var li := LeafOf(sh, i);
    MaterialiseKeepsBits(t, li);
    assert TreeLeaf(lookup.tree, li) == Some(lookup.leaf);
    var leaf := BitArrays.WithBit(lookup.leaf, lookup.offset, v);
    WithLeafBits(lookup.tree, li, leaf);
    var r := WithLeaf(lookup.tree, li, leaf);
    forall j: nat | j != i
      ensures Bit(r, j) == Bit(t, j)
    {
      if j < TreeSize(sh, t.level) && LeafOf(sh, j) == li {
        SameLeafDistinctOffsets(sh, i, j);
      }
    }
    r
  }

  /** Sets bit `i` to `v`, growing the tree first when `i` lies past it.
      Every other bit keeps its value. */
  function SetBitTo(t: SparseBitArray, i: nat, v: bool): (r: SparseBitArray)
    requires ValidBits(t)
    ensures ValidBits(r) && r.shape == t.shape && r.level >= t.level
    ensures i < TreeSize(r.shape, r.level)
    ensures i < TreeSize(t.shape, t.level) ==> r.level == t.level
    ensures Bit(r, i) == v
    ensures forall j: nat | j != i :: Bit(r, j) == Bit(t, j)
  {
    var e := ExpandToFitSize(t, i + 1);
    ExpandKeepsBits(t, i + 1);
    StoreBit(e, i, v)
  }

  /** `setBit:`. */
  function SetBit(t: SparseBitArray, i: nat): (r: SparseBitArray)
    requires ValidBits(t)
    ensures ValidBits(r) && r.shape == t.shape
    ensures Bit(r, i)
    ensures forall j: nat | j != i :: Bit(r, j) == Bit(t, j)
  {
    SetBitTo(t, i, true)
  }

  /** `clearBit:`. */
  function ClearBit(t: SparseBitArray, i: nat): (r: SparseBitArray)
    requires ValidBits(t)
    ensures ValidBits(r) && r.shape == t.shape
    ensures !Bit(r, i)
    ensures forall j: nat | j != i :: Bit(r, j) == Bit(t, j)
  {
    SetBitTo(t, i, false)
  }

  // ---------------------------------------------------------------------------
  // Ranges and whole-array mutators

  /** Sets every bit of `[loc, loc + len)` to `v`, one bit at a time; bits
      outside the range keep their values. */
  function SetRangeTo(t: SparseBitArray, loc: nat, len: nat, v: bool): (r: SparseBitArray)
    requires ValidBits(t)
    ensures ValidBits(r) && r.shape == t.shape && r.level >= t.level
    ensures loc + len <= TreeSize(t.shape, t.level) ==> r.level == t.level
    ensures forall j: nat :: Bit(r, j) == if loc <= j < loc + len then v else Bit(t, j)
    decreases len
  {
    if len == 0 then t
    else SetRangeTo(SetBitTo(t, loc, v), loc + 1, len - 1, v)
  }

  /** `setRange:`. */
  function SetRange(t: SparseBitArray, loc: nat, len: nat): (r: SparseBitArray)
    requires ValidBits(t)
    ensures ValidBits(r) && r.shape == t.shape
    ensures forall j: nat :: Bit(r, j) == if loc <= j < loc + len then true else Bit(t, j)
  {
    SetRangeTo(t, loc, len, true)
  }

  /** `clearRange:`. */
  function ClearRange(t: SparseBitArray, loc: nat, len: nat): (r: SparseBitArray)
    requires ValidBits(t)
    ensures ValidBits(r) && r.shape == t.shape
    ensures forall j: nat :: Bit(r, j) == if loc <= j < loc + len then false else Bit(t, j)
  {
    SetRangeTo(t, loc, len, false)
  }

  /** `setAll`: every bit of the tree set, without growing it. */
  function SetAll(t: SparseBitArray): (r: SparseBitArray)
    requires ValidBits(t)
    ensures ValidBits(r) && r.shape == t.shape && r.level == t.level
    ensures forall j: nat :: Bit(r, j) == (j < TreeSize(t.shape, t.level))
  {
    SetRangeTo(t, 0, TreeSize(t.shape, t.level), true)
  }

  /** `clearAll`: every bit clear, without growing the tree. */
  function ClearAll(t: SparseBitArray): (r: SparseBitArray)
    requires ValidBits(t)
    ensures ValidBits(r) && r.shape == t.shape && r.level == t.level
    ensures forall j: nat :: !Bit(r, j)
  {
    SetRangeTo(t, 0, TreeSize(t.shape, t.level), false)
  }

  // ---------------------------------------------------------------------------
  // Power 2 and power 3 conveniences. `leafIndexOf` is the leaf numbering
  // `LeafIndexFor2DCoordinates` / `LeafIndexFor3DCoordinates`, applied to the
  // leaf coordinates.

  /** `bitAtX:y:`: the bit stored for cell `(x, y)` of a plane, which is bit
      `Offset2D` of leaf `leafIndexOf(x / base, y / base)` and clear when that
      leaf was never materialised. */
  function BitAt2D(t: SparseBitArray, x: nat, y: nat, leafIndexOf: (nat, nat) -> nat): (r: bool)
    requires ValidBits(t) && t.shape.power == 2
    ensures (CellInLeaf2D(t.shape, x, y, leafIndexOf);
      var leaf := TreeLeaf(t, leafIndexOf(x / t.shape.base, y / t.shape.base));
      (leaf.None? ==> !r) &&
      (leaf.Some? ==> r == leaf.value.bits[Offset2D(x, y, t.shape.base)]))
  {
    CellInLeaf2D(t.shape, x, y, leafIndexOf);
    Bit(t, StorageIndex2D(x, y, t.shape.base, leafIndexOf))
  }

  /** `setBitAtX:y:`: sets the cell's bit; every other storage index keeps
      its bit. */
  function SetBitAt2D(t: SparseBitArray, x: nat, y: nat, leafIndexOf: (nat, nat) -> nat): (r: SparseBitArray)
    requires ValidBits(t) && t.shape.power == 2
    ensures ValidBits(r) && r.shape == t.shape
    ensures BitAt2D(r, x, y, leafIndexOf)
    ensures forall j: nat | j != StorageIndex2D(x, y, t.shape.base, leafIndexOf) :: Bit(r, j) == Bit(t, j)
  {
    SetBit(t, StorageIndex2D(x, y, t.shape.base, leafIndexOf))
  }

  /** `clearBitAtX:y:`. */
  function ClearBitAt2D(t: SparseBitArray, x: nat, y: nat, leafIndexOf: (nat, nat) -> nat): (r: SparseBitArray)
    requires ValidBits(t) && t.shape.power == 2
    ensures ValidBits(r) && r.shape == t.shape
    ensures !BitAt2D(r, x, y, leafIndexOf)
    ensures forall j: nat | j != StorageIndex2D(x, y, t.shape.base, leafIndexOf) :: Bit(r, j) == Bit(t, j)
  {
    ClearBit(t, StorageIndex2D(x, y, t.shape.base, leafIndexOf))
  }

  /** `updateBitAtX:y:on:`: setting or clearing according to `set`, here `on`. */
  function UpdateBitAt2D(t: SparseBitArray, x: nat, y: nat, on: bool, leafIndexOf: (nat, nat) -> nat): (r: SparseBitArray)
    requires ValidBits(t) && t.shape.power == 2
    ensures ValidBits(r) && r.shape == t.shape
    ensures on ==> r == SetBitAt2D(t, x, y, leafIndexOf)
    ensures !on ==> r == ClearBitAt2D(t, x, y, leafIndexOf)
    ensures BitAt2D(r, x, y, leafIndexOf) == on
  {
    SetBitTo(t, StorageIndex2D(x, y, t.shape.base, leafIndexOf), on)
  }

  /** With an invertible leaf numbering, updating one cell of a plane leaves
      every other cell as it was. */
  lemma UpdateBitAt2DFrame(t: SparseBitArray, x: nat, y: nat, on: bool,
                           leafIndexOf: (nat, nat) -> nat, leafCoordsOf: nat -> (nat, nat))
    requires ValidBits(t) && t.shape.power == 2 && Inverse2D(leafIndexOf, leafCoordsOf)
    ensures forall x': nat, y': nat | (x', y') != (x, y) ::
      BitAt2D(UpdateBitAt2D(t, x, y, on, leafIndexOf), x', y', leafIndexOf) == BitAt2D(t, x', y', leafIndexOf)
  {
    var r := UpdateBitAt2D(t, x, y, on, leafIndexOf);
    forall x': nat, y': nat | (x', y') != (x, y)
      ensures BitAt2D(r, x', y', leafIndexOf) == BitAt2D(t, x', y', leafIndexOf)
    {
      StorageIndex2DInjective(x, y, x', y', t.shape.base, leafIndexOf, leafCoordsOf);
    }
  }

  /** `bitAtX:y:z:`: the bit stored for cell `(x, y, z)` of a volume, read
      from leaf `leafIndexOf(x / base, y / base, z / base)` at `Offset3D`. */
  function BitAt3D(t: SparseBitArray, x: nat, y: nat, z: nat, leafIndexOf: (nat, nat, nat) -> nat): (r: bool)
    requires ValidBits(t) && t.shape.power == 3
    ensures (CellInLeaf3D(t.shape, x, y, z, leafIndexOf);
      var leaf := TreeLeaf(t, leafIndexOf(x / t.shape.base, y / t.shape.base, z / t.shape.base));
      (leaf.None? ==> !r) &&
      (leaf.Some? ==> r == leaf.value.bits[Offset3D(x, y, z, t.shape.base)]))
  {
    CellInLeaf3D(t.shape, x, y, z, leafIndexOf);
    Bit(t, StorageIndex3D(x, y, z, t.shape.base, leafIndexOf))
  }

  /** `setBitAtX:y:z:`. */
  function SetBitAt3D(t: SparseBitArray, x: nat, y: nat, z: nat, leafIndexOf: (nat, nat, nat) -> nat): (r: SparseBitArray)
    requires ValidBits(t) && t.shape.power == 3
    ensures ValidBits(r) && r.shape == t.shape
    ensures BitAt3D(r, x, y, z, leafIndexOf)
    ensures forall j: nat | j != StorageIndex3D(x, y, z, t.shape.base, leafIndexOf) :: Bit(r, j) == Bit(t, j)
  {
    SetBit(t, StorageIndex3D(x, y, z, t.shape.base, leafIndexOf))
  }

  /** `clearBitAtX:y:z:`. */
  function ClearBitAt3D(t: SparseBitArray, x: nat, y: nat, z: nat, leafIndexOf: (nat, nat, nat) -> nat): (r: SparseBitArray)
    requires ValidBits(t) && t.shape.power == 3
    ensures ValidBits(r) && r.shape == t.shape
    ensures !BitAt3D(r, x, y, z, leafIndexOf)
    ensures forall j: nat | j != StorageIndex3D(x, y, z, t.shape.base, leafIndexOf) :: Bit(r, j) == Bit(t, j)
  {
    ClearBit(t, StorageIndex3D(x, y, z, t.shape.base, leafIndexOf))
  }

  /** `updateBitAtX:y:z:on:`. */
  function UpdateBitAt3D(t: SparseBitArray, x: nat, y: nat, z: nat, on: bool,
                         leafIndexOf: (nat, nat, nat) -> nat): (r: SparseBitArray)
    requires ValidBits(t) && t.shape.power == 3
    ensures ValidBits(r) && r.shape == t.shape
    ensures on ==> r == SetBitAt3D(t, x, y, z, leafIndexOf)
    ensures !on ==> r == ClearBitAt3D(t, x, y, z, leafIndexOf)
    ensures BitAt3D(r, x, y, z, leafIndexOf) == on
  {
    SetBitTo(t, StorageIndex3D(x, y, z, t.shape.base, leafIndexOf), on)
  }

  /** With an invertible leaf numbering, updating one cell of a volume leaves
      every other cell as it was. */
  lemma UpdateBitAt3DFrame(t: SparseBitArray, x: nat, y: nat, z: nat, on: bool,
                           leafIndexOf: (nat, nat, nat) -> nat, leafCoordsOf: nat -> (nat, nat, nat))
    requires ValidBits(t) && t.shape.power == 3 && Inverse3D(leafIndexOf, leafCoordsOf)
    ensures forall x': nat, y': nat, z': nat | (x', y', z') != (x, y, z) ::
      BitAt3D(UpdateBitAt3D(t, x, y, z, on, leafIndexOf), x', y', z', leafIndexOf) == BitAt3D(t, x', y', z', leafIndexOf)
  {
    var r := UpdateBitAt3D(t, x, y, z, on, leafIndexOf);
    forall x': nat, y': nat, z': nat | (x', y', z') != (x, y, z)
      ensures BitAt3D(r, x', y', z', leafIndexOf) == BitAt3D(t, x', y', z', leafIndexOf)
    {
      StorageIndex3DInjective(x, y, z, x', y', z', t.shape.base, leafIndexOf, leafCoordsOf);
    }
  }

  // ---------------------------------------------------------------------------
  // count

  /** The cached count of leaf `li`; a leaf never materialised has none. */
  function LeafSetCount(t: SparseBitArray, li: nat): nat
    requires ValidBits(t)
  {
    match TreeLeaf(t, li)
    case None => 0
    case Some(b) => b.count
  }

  /** The cached counts of leaves `0 .. n - 1`, summed. */
  function CountLeaves(t: SparseBitArray, n: nat): nat
    requires ValidBits(t)
    decreases n
  {
    if n == 0 then 0 else CountLeaves(t, n - 1) + LeafSetCount(t, n - 1)
  }

  /** `count`: the leaves' cached counts summed, which is the number of set
      bits of the whole tree. */
  function Count(t: SparseBitArray): (n: nat)
    requires ValidBits(t)
    ensures n == CountTrue(Bits(t))
    ensures n <= TreeSize(t.shape, t.level)
  {
    var leaves := LeafCount(t.shape, t.level);
    CountLeavesBlocks(t, leaves);
    BlockCountsPrefix(Bits(t), LeafSize(t.shape), leaves);
    TreeSizeFactors(t.shape, t.level);
    assert Bits(t)[..TreeSize(t.shape, t.level)] == Bits(t);
    CountTrueBound(Bits(t));
    CountLeaves(t, leaves)
  }

  /** The bits of the tree in storage-index order. */
  function Bits(t: SparseBitArray): (s: seq<bool>)
    requires ValidBits(t)
    ensures |s| == TreeSize(t.shape, t.level)
    ensures forall j | 0 <= j < |s| :: s[j] == Bit(t, j)
  {
    seq(TreeSize(t.shape, t.level), j requires 0 <= j => Bit(t, j))
  }

  /** Storage index `li * leafSize + k` is bit `k` of leaf `li`. */
  lemma BitInLeaf(t: SparseBitArray, li: nat, k: nat)
    requires ValidBits(t) && li < LeafCount(t.shape, t.level) && k < LeafSize(t.shape)
    ensures li * LeafSize(t.shape) + k < TreeSize(t.shape, t.level)
    ensures TreeLeaf(t, li).Some? ==> k < |TreeLeaf(t, li).value.bits|
    ensures Bit(t, li * LeafSize(t.shape) + k)
         == match TreeLeaf(t, li) case None => false case Some(b) => b.bits[k]
  {
    var sh := t.shape;
    BlocksWithinTree(sh, t.level, li + 1);
    MulPredecessor(li + 1, LeafSize(sh));
    LeafOfSplit(sh, li, k);
  }

  /** The bits of one leaf's block of storage indices are its storage, or
      all clear when it was never materialised. */
  lemma LeafBlockCount(t: SparseBitArray, li: nat)
    requires ValidBits(t) && li < LeafCount(t.shape, t.level)
    ensures li * LeafSize(t.shape) + LeafSize(t.shape) <= TreeSize(t.shape, t.level)
    ensures CountTrue(Bits(t)[li * LeafSize(t.shape)..li * LeafSize(t.shape) + LeafSize(t.shape)])
         == LeafSetCount(t, li)
  {
    var sh, ls := t.shape, LeafSize(t.shape);
    BlocksWithinTree(sh, t.level, li + 1);
    MulPredecessor(li + 1, ls);
    var start := li * ls;
    var bits := Bits(t);
    var block := bits[start..start + ls];
    match TreeLeaf(t, li)
    case None =>
      forall k | 0 <= k < ls
        ensures !block[k]
      {
        assert block[k] == bits[start + k];
        BitInLeaf(t, li, k);
      }
      CountTrueExtremes(block);
    case Some(b) =>
      assert GoodLeaf(sh, b);
      forall k | 0 <= k < ls
        ensures block[k] == b.bits[k]
      {
        assert block[k] == bits[start + k];
        BitInLeaf(t, li, k);
      }
      assert block == b.bits;
  }

  /** The set bits of the first `n` blocks of `size` entries, block by
      block. */
  function BlockCounts(bits: seq<bool>, size: nat, n: nat): nat
    requires n * size <= |bits|
    decreases n
  {
    if n == 0 then 0
    else
      MulPredecessor(n, size);
      BlockCounts(bits, size, n - 1) + CountTrue(bits[(n - 1) * size..(n - 1) * size + size])
  }

  /** Counting block by block counts the whole prefix. */
  lemma {:induction false} BlockCountsPrefix(bits: seq<bool>, size: nat, n: nat)
    requires n * size <= |bits|
    ensures BlockCounts(bits, size, n) == CountTrue(bits[..n * size])
    decreases n
  {
    if n > 0 {
      MulPredecessor(n, size);
      var a := (n - 1) * size;
      BlockCountsPrefix(bits, size, n - 1);
      assert bits[..n * size] == bits[..a] + bits[a..a + size];
      CountTrueAppend(bits[..a], bits[a..a + size]);
    }
  }

  lemma {:induction false} CountLeavesBlocks(t: SparseBitArray, n: nat)
    requires ValidBits(t) && n <= LeafCount(t.shape, t.level)
    ensures n * LeafSize(t.shape) <= TreeSize(t.shape, t.level)
    ensures CountLeaves(t, n) == BlockCounts(Bits(t), LeafSize(t.shape), n)
    decreases n
  {
    BlocksWithinTree(t.shape, t.level, n);
    if n > 0 {
      var bits, ls := Bits(t), LeafSize(t.shape);
      CountLeavesBlocks(t, n - 1);
      LeafBlockCount(t, n - 1);
      BlockCountsStep(bits, ls, n);
      assert CountLeaves(t, n) == CountLeaves(t, n - 1) + LeafSetCount(t, n - 1);
    }
  }

  lemma BlockCountsStep(bits: seq<bool>, size: nat, n: nat)
    requires n >= 1 && n * size <= |bits|
    ensures (n - 1) * size + size <= |bits|
    ensures BlockCounts(bits, size, n)
         == BlockCounts(bits, size, n - 1) + CountTrue(bits[(n - 1) * size..(n - 1) * size + size])
  {
    MulPredecessor(n, size);
  }

  /** The first `n` leaves' blocks lie inside the tree. */
  lemma BlocksWithinTree(sh: Shape, level: nat, n: nat)
    requires ValidShape(sh) && n <= LeafCount(sh, level)
    ensures n * LeafSize(sh) <= TreeSize(sh, level)
  {
    var ls, lc := LeafSize(sh), LeafCount(sh, level);
    TreeSizeFactors(sh, level);
    MulMonotone(n, lc, ls);
    assert ls * lc == lc * ls;
  }

  /** After `setAll` the count is the tree size; after `clearAll` it is zero. */
  lemma SetAllClearAllCount(t: SparseBitArray)
    requires ValidBits(t)
    ensures Count(SetAll(t)) == TreeSize(t.shape, t.level)
    ensures Count(ClearAll(t)) == 0
  {
    var n := TreeSize(t.shape, t.level);
    assert Bits(SetAll(t)) == seq(n, _ => true);
    assert Bits(ClearAll(t)) == seq(n, _ => false);
    CountTrueConstant(n, true);
    CountTrueConstant(n, false);
  }

  /** Writing one bit moves the count by one exactly when the bit flips. */
  lemma SetBitToCount(t: SparseBitArray, i: nat, v: bool)
    requires ValidBits(t)
    ensures Count(SetBitTo(t, i, v)) + (if Bit(t, i) then 1 else 0) == Count(t) + (if v then 1 else 0)
  {
    var r := SetBitTo(t, i, v);
    TreeSizeMonotone(t.shape, t.level, r.level);
    var s, u := Bits(t), Bits(r);
    forall j | 0 <= j < |u| && j != i
      ensures u[j] == (j < |s| && s[j])
    {
      assert u[j] == Bit(r, j) == Bit(t, j);
    }
    assert Bit(t, i) == (i < |s| && s[i]);
    CountPaddedUpdate(s, u, i, v);
  }
}
