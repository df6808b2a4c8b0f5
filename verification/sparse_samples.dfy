/** `BASparseSampleArray` (BASparseSampleArray.h): a sparse tree whose leaves
    own `BASampleArray` storage of `leafSize` samples of `sampleSize` bytes.
    Sample `i` lives in leaf `i / leafSize` at offset `i % leafSize`; a
    sample never written reads as zero bytes, and writing past the tree first
    grows it with `expandToFitSize:`. */
module SparseSampleArrays {
  import opened Wrappers
  import opened Arith
  import opened IntMath
  import SampleArrays
  import opened SparseShape
  import opened SparseTrees

  datatype SparseSampleArray = SparseSampleArray(tree: Tree<SampleArrays.SampleArray>, sampleSize: nat)

  /** A leaf's storage: a consistent sample array of `leafSize` samples,
      with the tree's power, `base` as its order and the array's sample
      size. */
  predicate GoodLeaf(sh: Shape, size: nat, s: SampleArrays.SampleArray) {
    SampleArrays.Valid(s) && s.power == sh.power && s.order == sh.base && s.size == size
  }

  /** At least one byte per sample, and every materialised leaf holds good
      storage. */
  ghost predicate ValidSamples(a: SparseSampleArray) {
    ValidTree(a.tree) && a.sampleSize >= 1
    && forall li: nat :: TreeLeaf(a.tree, li).Some? ==> GoodLeaf(a.tree.shape, a.sampleSize, TreeLeaf(a.tree, li).value)
  }

  /** A good leaf has one sample per cell of the leaf. */
  lemma GoodLeafCount(sh: Shape, size: nat, s: SampleArrays.SampleArray)
    requires ValidShape(sh) && GoodLeaf(sh, size, s)
    ensures |s.samples| == SampleArrays.Count(s) == LeafSize(sh)
  {
  }

  /** The storage of a newly materialised leaf: `leafSize` zero samples. */
  function Blank(sh: Shape, size: nat): (s: SampleArrays.SampleArray)
    requires ValidShape(sh)
    ensures GoodLeaf(sh, size, s)
    ensures forall k | 0 <= k < LeafSize(sh) :: s.samples[k] == SampleArrays.Zeros(size)
  {
    SampleArrays.SampleArray(sh.power, sh.base, size, seq(LeafSize(sh), _ => SampleArrays.Zeros(size)))
  }

  /** `sample:atIndex:`: the bytes of sample `i`; zero in a leaf never
      materialised and past the tree. */
  function Sample(a: SparseSampleArray, i: nat): (r: seq<Byte>)
    requires ValidSamples(a)
    ensures |r| == a.sampleSize
    ensures i >= TreeSize(a.tree.shape, a.tree.level) ==> r == SampleArrays.Zeros(a.sampleSize)
    ensures TreeLeaf(a.tree, LeafOf(a.tree.shape, i)).None? ==> r == SampleArrays.Zeros(a.sampleSize)
    ensures TreeLeaf(a.tree, LeafOf(a.tree.shape, i)).Some? ==>
      (GoodLeafCount(a.tree.shape, a.sampleSize, TreeLeaf(a.tree, LeafOf(a.tree.shape, i)).value);
       r == TreeLeaf(a.tree, LeafOf(a.tree.shape, i)).value.samples[OffsetInLeaf(a.tree.shape, i)])
  {
    var sh := a.tree.shape;
    StorageIndexSplit(sh, a.tree.level, i);
    if i < TreeSize(sh, a.tree.level) then
      match TreeLeaf(a.tree, LeafOf(sh, i))
      case None => SampleArrays.Zeros(a.sampleSize)
      case Some(s) =>
        GoodLeafCount(sh, a.sampleSize, s);
        s.samples[OffsetInLeaf(sh, i)]
    else
      LeafAtBeyond(a.tree.root, Scale(sh), a.tree.level, LeafOf(sh, i));
      SampleArrays.Zeros(a.sampleSize)
  }

  /** `initWithBase:power:sampleSize:`: the initial two-level tree with
      blank leaves; fails on a shape the tree cannot have or an empty
      sample, and otherwise every sample is zero. */
  function Init(base: nat, power: nat, size: nat): (r: Result<SparseSampleArray>)
    ensures r.Success? <==> ValidShape(Shape(base, power)) && size >= 1
    ensures r.Failure? ==> r.error == InvalidArgument
    ensures r.Success? ==> ValidSamples(r.value) && r.value.sampleSize == size
    ensures r.Success? ==> r.value.tree.shape == Shape(base, power) && r.value.tree.level == 1
    ensures r.Success? ==> forall i: nat :: Sample(r.value, i) == SampleArrays.Zeros(size)
  {
    var sh := Shape(base, power);
    if !ValidShape(sh) || size == 0 then Failure(InvalidArgument)
    else
      var t := InitialTree(base, power, Blank(sh, size)).value;
      var a := SparseSampleArray(t, size);
      BlankTree(a);
      Success(a)
  }

  /** `initWithBase:power:`: one byte per sample. */
  function InitDefault(base: nat, power: nat): (r: Result<SparseSampleArray>)
    ensures r.Success? <==> ValidShape(Shape(base, power))
    ensures r.Failure? ==> r.error == InvalidArgument
    ensures r.Success? ==> ValidSamples(r.value) && r.value.sampleSize == 1
    ensures r.Success? ==> forall i: nat :: Sample(r.value, i) == [0]
  {
    Init(base, power, 1)
  }

  lemma BlankTree(a: SparseSampleArray)
    requires ValidTree(a.tree) && a.tree.level == 1 && a.sampleSize >= 1
    requires forall li | 0 <= li < Scale(a.tree.shape) :: TreeLeaf(a.tree, li) == Some(Blank(a.tree.shape, a.sampleSize))
    ensures ValidSamples(a)
    ensures forall i: nat :: Sample(a, i) == SampleArrays.Zeros(a.sampleSize)
  {
    var t := a.tree;
    assert LeafCount(t.shape, 1) == Scale(t.shape);
    forall li: nat | li >= Scale(t.shape)
      ensures TreeLeaf(t, li) == None
    {
      LeafAtBeyond(t.root, Scale(t.shape), 1, li);
    }
    forall i: nat
      ensures Sample(a, i) == SampleArrays.Zeros(a.sampleSize)
    {
      StorageIndexSplit(t.shape, 1, i);
    }
  }

  // ---------------------------------------------------------------------------
  // What leaf-level changes do to the samples

  /** Growing the tree keeps every sample, and the new cells are zero. */
  lemma ExpandKeepsSamples(a: SparseSampleArray, size: nat)
    requires ValidSamples(a)
    ensures ValidSamples(SparseSampleArray(ExpandToFitSize(a.tree, size), a.sampleSize))
    ensures forall j: nat :: Sample(SparseSampleArray(ExpandToFitSize(a.tree, size), a.sampleSize), j) == Sample(a, j)
  {
    var t := a.tree;
    var e := ExpandToFitSize(t, size);
    var b := SparseSampleArray(e, a.sampleSize);
    var sh := t.shape;
    assert LeavesExtend(e, t);
    forall li: nat | TreeLeaf(e, li).Some?
      ensures GoodLeaf(sh, a.sampleSize, TreeLeaf(e, li).value)
    {
      assert TreeLeaf(e, li) == (if li < LeafCount(sh, t.level) then TreeLeaf(t, li) else None);
    }
    forall j: nat
      ensures Sample(b, j) == Sample(a, j)
    {
      StorageIndexSplit(sh, t.level, j);
      StorageIndexSplit(sh, e.level, j);
      assert TreeLeaf(e, LeafOf(sh, j))
        == (if LeafOf(sh, j) < LeafCount(sh, t.level) then TreeLeaf(t, LeafOf(sh, j)) else None);
    }
  }

  /** Materialising a leaf with blank storage changes no sample. */
  lemma MaterialiseKeepsSamples(a: SparseSampleArray, li: nat)
    requires ValidSamples(a) && li < LeafCount(a.tree.shape, a.tree.level)
    ensures ValidSamples(SparseSampleArray(Materialise(a.tree, li, Blank(a.tree.shape, a.sampleSize)), a.sampleSize))
    ensures forall j: nat ::
      Sample(SparseSampleArray(Materialise(a.tree, li, Blank(a.tree.shape, a.sampleSize)), a.sampleSize), j) == Sample(a, j)
  {
    var t := a.tree;
    var blank := Blank(t.shape, a.sampleSize);
    var m := SparseSampleArray(Materialise(t, li, blank), a.sampleSize);
    forall j: nat
      ensures Sample(m, j) == Sample(a, j)
    {
      if j < TreeSize(t.shape, t.level) && LeafOf(t.shape, j) == li {
        assert TreeLeaf(m.tree, li) == Some(TreeLeaf(t, li).GetOr(blank));
      }
    }
  }

  /** Replacing leaf `li` changes exactly the samples stored in it. */
  lemma WithLeafSamples(a: SparseSampleArray, li: nat, leaf: SampleArrays.SampleArray)
    requires ValidSamples(a) && li < LeafCount(a.tree.shape, a.tree.level)
    requires GoodLeaf(a.tree.shape, a.sampleSize, leaf)
    ensures ValidSamples(SparseSampleArray(WithLeaf(a.tree, li, leaf), a.sampleSize))
    ensures forall j: nat | j < TreeSize(a.tree.shape, a.tree.level) && LeafOf(a.tree.shape, j) == li ::
      OffsetInLeaf(a.tree.shape, j) < |leaf.samples|
    ensures forall j: nat ::
      (Sample(SparseSampleArray(WithLeaf(a.tree, li, leaf), a.sampleSize), j)
       == if j < TreeSize(a.tree.shape, a.tree.level) && LeafOf(a.tree.shape, j) == li
          then leaf.samples[OffsetInLeaf(a.tree.shape, j)]
          else Sample(a, j))
  {
    GoodLeafCount(a.tree.shape, a.sampleSize, leaf);
  }

  // ---------------------------------------------------------------------------
  // Writing samples

  /** Writes `sample` at a storage index inside the tree, through
      `leafForStorageIndex:offset:`. */
  function StoreSample(a: SparseSampleArray, i: nat, sample: seq<Byte>): (r: SparseSampleArray)
    requires ValidSamples(a) && i < TreeSize(a.tree.shape, a.tree.level) && |sample| == a.sampleSize
    ensures ValidSamples(r) && r.sampleSize == a.sampleSize
    ensures r.tree.shape == a.tree.shape && r.tree.level == a.tree.level
    ensures Sample(r, i) == sample
    ensures forall j: nat | j != i :: Sample(r, j) == Sample(a, j)
  {
    var t, sh := a.tree, a.tree.shape;
    var blank := Blank(sh, a.sampleSize);
    StorageIndexSplit(sh, t.level, i);
    var lookup := LeafForStorageIndex(t, i, blank).value;
    var li := LeafOf(sh, i);
    MaterialiseKeepsSamples(a, li);
    var m := SparseSampleArray(lookup.tree, a.sampleSize);
    assert TreeLeaf(lookup.tree, li) == Some(lookup.leaf);
    GoodLeafCount(sh, a.sampleSize, lookup.leaf);
    var leaf := SampleArrays.SetSample(lookup.leaf, lookup.offset, sample).value;
    WithLeafSamples(m, li, leaf);
    var r := SparseSampleArray(WithLeaf(lookup.tree, li, leaf), a.sampleSize);
    forall j: nat | j != i
      ensures Sample(r, j) == Sample(a, j)
    {
      if j < TreeSize(sh, t.level) && LeafOf(sh, j) == li {
        SameLeafDistinctOffsets(sh, i, j);
      }
    }
    r
  }

  /** `setSample:atIndex:`: writes sample `i`, growing the tree first when
      `i` lies past it. Every other sample keeps its bytes. */
  function SetSample(a: SparseSampleArray, i: nat, sample: seq<Byte>): (r: SparseSampleArray)
    requires ValidSamples(a) && |sample| == a.sampleSize
    ensures ValidSamples(r) && r.sampleSize == a.sampleSize
    ensures r.tree.shape == a.tree.shape && r.tree.level >= a.tree.level
    ensures i < TreeSize(r.tree.shape, r.tree.level)
    ensures i < TreeSize(a.tree.shape, a.tree.level) ==> r.tree.level == a.tree.level
    ensures Sample(r, i) == sample
    ensures forall j: nat | j != i :: Sample(r, j) == Sample(a, j)
  {
    var e := SparseSampleArray(ExpandToFitSize(a.tree, i + 1), a.sampleSize);
    ExpandKeepsSamples(a, i + 1);
    StoreSample(e, i, sample)
  }

  /** Writing back the sample already stored changes nothing that can be
      read. */
  lemma SetSampleIdempotent(a: SparseSampleArray, i: nat)
    requires ValidSamples(a)
    ensures forall j: nat :: Sample(SetSample(a, i, Sample(a, i)), j) == Sample(a, j)
  {
  }

  // ---------------------------------------------------------------------------
  // Pages (power 2) and blocks (power 3) of four-byte samples. `leafIndexOf`
  // is the leaf numbering `LeafIndexFor2DCoordinates` /
  // `LeafIndexFor3DCoordinates`, applied to the leaf coordinates.

  /** `pageSampleAtX:y:`: the four bytes at `(x, y)` read as a `UInt32`: the
      sample at `Offset2D` of leaf `leafIndexOf(x / base, y / base)`, and zero
      when that leaf was never materialised. */
  function PageSampleAt(a: SparseSampleArray, x: nat, y: nat, leafIndexOf: (nat, nat) -> nat): (r: bv32)
    requires ValidSamples(a) && a.sampleSize == 4 && a.tree.shape.power == 2
    ensures (CellInLeaf2D(a.tree.shape, x, y, leafIndexOf);
      var leaf := TreeLeaf(a.tree, leafIndexOf(x / a.tree.shape.base, y / a.tree.shape.base));
      (leaf.None? ==> r == 0) &&
      (leaf.Some? ==> (GoodLeafCount(a.tree.shape, 4, leaf.value);
                      r == SampleArrays.DecodeU32(leaf.value.samples[Offset2D(x, y, a.tree.shape.base)]))))
  {
    CellInLeaf2D(a.tree.shape, x, y, leafIndexOf);
    SampleArrays.DecodeZeros();
    SampleArrays.DecodeU32(Sample(a, StorageIndex2D(x, y, a.tree.shape.base, leafIndexOf)))
  }

  /** `setPageSample:atX:y:`: stores the four bytes of `v` at `(x, y)`;
      every other storage index keeps its sample. */
  function SetPageSample(a: SparseSampleArray, v: bv32, x: nat, y: nat, leafIndexOf: (nat, nat) -> nat): (r: SparseSampleArray)
    requires ValidSamples(a) && a.sampleSize == 4 && a.tree.shape.power == 2
    ensures ValidSamples(r) && r.sampleSize == 4 && r.tree.shape == a.tree.shape
    ensures PageSampleAt(r, x, y, leafIndexOf) == v
    ensures forall j: nat | j != StorageIndex2D(x, y, a.tree.shape.base, leafIndexOf) :: Sample(r, j) == Sample(a, j)
  {
    SetSample(a, StorageIndex2D(x, y, a.tree.shape.base, leafIndexOf), SampleArrays.EncodeU32(v))
  }

  /** With an invertible leaf numbering, writing one cell of a page leaves
      every other cell as it was; and writing back the value read changes no
      sample. */
  lemma PageSampleRoundTrip(a: SparseSampleArray, v: bv32, x: nat, y: nat,
                            leafIndexOf: (nat, nat) -> nat, leafCoordsOf: nat -> (nat, nat))
    requires ValidSamples(a) && a.sampleSize == 4 && a.tree.shape.power == 2
    requires Inverse2D(leafIndexOf, leafCoordsOf)
    ensures forall x': nat, y': nat | (x', y') != (x, y) ::
      PageSampleAt(SetPageSample(a, v, x, y, leafIndexOf), x', y', leafIndexOf) == PageSampleAt(a, x', y', leafIndexOf)
    ensures forall j: nat ::
      Sample(SetPageSample(a, PageSampleAt(a, x, y, leafIndexOf), x, y, leafIndexOf), j) == Sample(a, j)
  {
    var r := SetPageSample(a, v, x, y, leafIndexOf);
    forall x': nat, y': nat | (x', y') != (x, y)
      ensures PageSampleAt(r, x', y', leafIndexOf) == PageSampleAt(a, x', y', leafIndexOf)
    {
      StorageIndex2DInjective(x, y, x', y', a.tree.shape.base, leafIndexOf, leafCoordsOf);
    }
    var i := StorageIndex2D(x, y, a.tree.shape.base, leafIndexOf);
    SampleArrays.EncodeDecodeU32(Sample(a, i));
    SetSampleIdempotent(a, i);
  }

  /** `blockSampleAtX:y:z:`: the four bytes at `(x, y, z)` read as a
      `UInt32`, from leaf `leafIndexOf(x / base, y / base, z / base)` at
      `Offset3D`, and zero when that leaf was never materialised. */
  function BlockSampleAt(a: SparseSampleArray, x: nat, y: nat, z: nat, leafIndexOf: (nat, nat, nat) -> nat): (r: bv32)
    requires ValidSamples(a) && a.sampleSize == 4 && a.tree.shape.power == 3
    ensures (CellInLeaf3D(a.tree.shape, x, y, z, leafIndexOf);
      var leaf := TreeLeaf(a.tree, leafIndexOf(x / a.tree.shape.base, y / a.tree.shape.base, z / a.tree.shape.base));
      (leaf.None? ==> r == 0) &&
      (leaf.Some? ==> (GoodLeafCount(a.tree.shape, 4, leaf.value);
                      r == SampleArrays.DecodeU32(leaf.value.samples[Offset3D(x, y, z, a.tree.shape.base)]))))
  {
    CellInLeaf3D(a.tree.shape, x, y, z, leafIndexOf);
    SampleArrays.DecodeZeros();
    SampleArrays.DecodeU32(Sample(a, StorageIndex3D(x, y, z, a.tree.shape.base, leafIndexOf)))
  }

  /** `setBlockSample:atX:y:z:`. */
  function SetBlockSample(a: SparseSampleArray, v: bv32, x: nat, y: nat, z: nat,
                          leafIndexOf: (nat, nat, nat) -> nat): (r: SparseSampleArray)
    requires ValidSamples(a) && a.sampleSize == 4 && a.tree.shape.power == 3
    ensures ValidSamples(r) && r.sampleSize == 4 && r.tree.shape == a.tree.shape
    ensures BlockSampleAt(r, x, y, z, leafIndexOf) == v
    ensures forall j: nat | j != StorageIndex3D(x, y, z, a.tree.shape.base, leafIndexOf) :: Sample(r, j) == Sample(a, j)
  {
    SetSample(a, StorageIndex3D(x, y, z, a.tree.shape.base, leafIndexOf), SampleArrays.EncodeU32(v))
  }

  /** The block analogue of `PageSampleRoundTrip`. */
  lemma BlockSampleRoundTrip(a: SparseSampleArray, v: bv32, x: nat, y: nat, z: nat,
                             leafIndexOf: (nat, nat, nat) -> nat, leafCoordsOf: nat -> (nat, nat, nat))
    requires ValidSamples(a) && a.sampleSize == 4 && a.tree.shape.power == 3
    requires Inverse3D(leafIndexOf, leafCoordsOf)
    ensures forall x': nat, y': nat, z': nat | (x', y', z') != (x, y, z) ::
      BlockSampleAt(SetBlockSample(a, v, x, y, z, leafIndexOf), x', y', z', leafIndexOf)
      == BlockSampleAt(a, x', y', z', leafIndexOf)
    ensures forall j: nat ::
      Sample(SetBlockSample(a, BlockSampleAt(a, x, y, z, leafIndexOf), x, y, z, leafIndexOf), j) == Sample(a, j)
  {
    var r := SetBlockSample(a, v, x, y, z, leafIndexOf);
    forall x': nat, y': nat, z': nat | (x', y', z') != (x, y, z)
      ensures BlockSampleAt(r, x', y', z', leafIndexOf) == BlockSampleAt(a, x', y', z', leafIndexOf)
    {
      StorageIndex3DInjective(x, y, z, x', y', z', a.tree.shape.base, leafIndexOf, leafCoordsOf);
    }
    var i := StorageIndex3D(x, y, z, a.tree.shape.base, leafIndexOf);
    SampleArrays.EncodeDecodeU32(Sample(a, i));
    SetSampleIdempotent(a, i);
  }
}
