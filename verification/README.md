# BAFoundation integer spatial storage, in Dafny

This project models the integer spatial-storage layer of BAFoundation, an
Objective-C library. The layer has five parts:

- the inline integer helpers and the 2-D region geometry of
  `BAFunctions.h` and `BATypes.h`;
- the packed bit array `BABitArray`, with its byte I/O and the rectangle
  helpers of `BABitArray+Rectangles.h`;
- the fixed-record sample array `BASampleArray`;
- the sparse tree `BASparseArray`, with its storage-index encoding and its
  bit (`BASparseBitArray`) and sample (`BASparseSampleArray`)
  specialisations.

The model proves properties of these parts.

Every value is immutable, and every operation is a pure function. A mutator
returns the updated value. An operation the library performs on a bad
argument (an index past the end, a range that does not fit, an invalid
shape) returns a `Result` failure.

One module per file follows the library's headers:

| file | module | models |
|---|---|---|
| `wrappers.dfy` | `Wrappers` | `Option`, `Result` and the error kinds |
| `arith.dfy` | `Arith` | the mathematical power and the div/mod facts the encodings rely on |
| `int_math.dfy` | `IntMath` | both `powi` routines, `NextPowerOf2`, `countBits` |
| `geometry.dfy` | `Geometry` | `BAPoint2`, `BASize2`, `BARegion2`, `BAQuadrant`, the `BARegion*` functions |
| `rectangles.dfy` | `Rectangles` | `BARectArea`, `BARectPerimeter`, `BABestRect`, `BARectSquare` |
| `bit_array.dfy` | `BitArrays` | `BABitArray`: bits, count, ranges, searches, bit I/O |
| `bit_array_bytes.dfy` | `BitArrayBytes` | `readBytes:range:` and `writeBytes:range:` on the packed buffer |
| `sample_array.dfy` | `SampleArrays` | `BASampleArray`: samples by index and by coordinates, the size bound, max orders, page and block |
| `sparse_shape.dfy` | `SparseShape` | the tree's shape fields, leaf/offset split, `StorageIndexFor2D/3DCoordinates` |
| `sparse_tree.dfy` | `SparseTrees` | the tree of interior nodes and leaves, initial tree, growth, child and leaf lookup |
| `sparse_bits.dfy` | `SparseBitArrays` | `BASparseBitArray` |
| `sparse_samples.dfy` | `SparseSampleArrays` | `BASparseSampleArray` |

The library's headers are its only visible code. Header functions are
modelled from their bodies:

- `powi`;
- `NextPowerOf2`;
- `countBits`;
- the region functions;
- `BABestRect` and `BARectSquare`;
- the storage-index functions.

Where the model departs from those bodies, the list of choices below says
so: see "Leaf index functions", "Leaf-index width" and "Integer width"
(`powi` does not wrap at the `NSInteger` width), and the "Left out" line on
rectangles, which are integer rather than `CGRect` values.

The class methods come from their declarations and doc-comments. For these,
the model keeps abstract state:

- a bit array is a `seq<bool>` with a cached count;
- a sample array is a `seq<seq<bv8>>` with `power`, `order` and `size`;
- a sparse array is a recursive tree of `Interior`, `Leaf` and `Absent`
  nodes. A `Leaf` holds a bit array or a sample array, and an `Absent` node
  is storage that was never materialised.

The following choices fill gaps the headers leave open:

- **Bit order in a byte.** Bit `i` of a bit array lives in byte `i / 8` of
  the buffer, under mask `1 << (i % 8)`.
- **Sample encoding.** A four-byte page or block sample is a little-endian
  `UInt32`.
- **Fresh storage.** Fresh bit arrays and samples are zero, and so are
  leaves that were never materialised.
- **Leaf index functions.** `LeafIndexFor2DCoordinates` and
  `LeafIndexFor3DCoordinates` have no visible body. They are parameters of
  the model: functions of the leaf coordinates `(x/base, y/base[, z/base])`.
  The storage-index properties hold for any such function. Injectivity uses
  one more parameter, the matching `LeafCoordinatesForIndex2D/3D`, which is
  required to invert them.
- **Valid shapes.** A shape is valid when `base >= 1` and `power` is 1, 2
  or 3. The header does not check the power; it calls it "usually" 1, 2 or
  3, and the three 10-entry power tables cover only the scales 2, 4 and 8.
  The model refuses any other shape as an invalid argument.
- **Sample layout.** A dense sample array stores its samples with the first
  coordinate varying fastest: coordinates `(c0, c1, ...)` are at
  `c0 + order * (c1 + order * ...)`. The page and block accessors use the
  same layout, `y*order + x` and `z*order^2 + y*order + x`.
- **Empty samples.** The sparse sample array's initialiser refuses a
  sample size of 0 as an invalid argument. The header only says the size
  starts at 1; the dense `SampleArrays.Init` accepts size 0.
- **Sample size.** The sparse sample array's `sampleSize` is a writable
  property, but the header does not say what changing it does to stored
  samples. The model fixes it at construction and has no setter.
- **Leaf-index width.** `LeafIndexFor2DCoordinates` and
  `LeafIndexFor3DCoordinates` take `uint32_t` arguments, while the
  storage-index functions pass `NSUInteger` coordinates and base. The model
  does not narrow them to 32 bits: the leaf numbering sees the unbounded
  leaf coordinates.
- **Integer width.**
  - Integers are unbounded except where the width is the point.
    `NextPowerOf2` works on `bv32` with wrap-around. The sample-array bound
    uses a word size of 32 or 64 bits.
  - `BAFunctions.h` uses the type name `BARegion`, and `BATypes.h` declares
    `BARegion2`. Both are the one record `Geometry.Region2`.

The two `powi` routines are not the same function:

- `BAFunctions.h` returns 0 for base 0 at every exponent, exponent 0
  included.
- `BASparseArray.h` returns 1 for exponent 0, base 0 included.

## Model

| member | source | states |
|---|---|---|
| IntMath.PowiLoop | BAFoundation/BAFunctions.h:22-27 | the square-and-multiply loop keeps `result * base^exp` equal to its final answer |
| IntMath.Powi | BAFoundation/BAFunctions.h:20-29 | for a non-zero base the result is `base^exp`; for base 0 it is 0 at every exponent, 0 included |
| IntMath.PowiRepeat | BAFoundation/BASparseArray.h:31 | the repeated-multiplication loop multiplies its accumulator by `base^k` |
| IntMath.PowiSparse | BAFoundation/BASparseArray.h:28-33 | the sparse array's `powi` is `base^exp`, so 1 at exponent 0 even for base 0 |
| IntMath.PowiAgreement | BAFoundation/BASparseArray.h:28-33 | the two `powi` routines agree everywhere except at (0, 0), where they give 0 and 1 |
| IntMath.NextPowerOf2 | BAFoundation/BAFunctions.h:31-42 | for `1 <= v <= 2^31` the result is a power of two at least `v` whose half is below `v`, so it is the least one; 0 and every `v > 2^31` wrap to 0 |
| IntMath.NextPowerOf2Idempotent | BAFoundation/BAFunctions.h:31-42 | a power of two is its own next power of two, so applying the function twice is applying it once |
| IntMath.CountBits | BAFoundation/BAFunctions.h:44-50 | the loop counts exactly the true entries among the first `length`, and the count is at most `length` |
| IntMath.CountTrueIsCardinality | BAFoundation/BAFunctions.h:44-50 | the count of true entries is the number of positions that hold `true` |
| Geometry.QuadrantConstants | BAFoundation/BATypes.h:26-40 | the quadrants are the single bits 1, 2, 4, 8; the numbered aliases are a permutation of them; the half-plane masks are complementary pairs; all quadrants make 0x0F |
| Geometry.PointQuadrant | BAFoundation/BAFunctions.h:68-77 | a point lies in exactly one quadrant, in the negative-X half iff `x < 0` and in the negative-Y half iff `y < 0` |
| Geometry.PointQuadrantCases | BAFoundation/BAFunctions.h:68-77 | each of the four quadrant values is chosen exactly by its pair of signs, as the enum's comments say |
| Geometry.MakeRegion | BAFoundation/BAFunctions.h:95-97 | the made region's minima are the given origin and its extents are the given width and height |
| Geometry.MinX | BAFoundation/BAFunctions.h:127-129 | no cell of the region lies left of the minimum x, and a non-empty region has a cell on it |
| Geometry.MaxX | BAFoundation/BAFunctions.h:131-133 | the maximum x is an exclusive bound: every cell lies left of it, and a non-empty region has a cell just left of it |
| Geometry.MinY | BAFoundation/BAFunctions.h:135-137 | no cell of the region lies below the minimum y, and a non-empty region has a cell on it |
| Geometry.MaxY | BAFoundation/BAFunctions.h:139-141 | the maximum y is an exclusive bound: every cell lies below it, and a non-empty region has a cell just below it |
| Geometry.RegionEqual | BAFoundation/BAFunctions.h:103-105 | comparing origin and size field by field is equality of regions |
| Geometry.IsEmpty | BAFoundation/BAFunctions.h:159-161 | an empty region holds no cell; a non-empty one holds its origin cell |
| Geometry.Area | BAFoundation/BAFunctions.h:123-125 | a non-empty region has area at least 1 |
| Geometry.RegionQuadrant | BAFoundation/BAFunctions.h:163-170 | the result is non-zero and within 0x0F, and it has a quadrant's bit iff some corner of the region has that quadrant's signs |
| Geometry.ContainsRegion | BAFoundation/BAFunctions.h:172-177 | containment implies every cell of the inner region is a cell of the outer one |
| Geometry.ContainsRegionByCells | BAFoundation/BAFunctions.h:172-177 | conversely, a non-empty region whose cells all lie in another is contained in it |
| Geometry.ContainsRegionPreorder | BAFoundation/BAFunctions.h:172-177 | containment is reflexive and transitive |
| Geometry.Intersection | BAFoundation/BAFunctions.h:179-184 | the intersection is contained in both regions, and a cell is in it iff it is in both |
| Geometry.IntersectionAlgebra | BAFoundation/BAFunctions.h:179-184 | intersection is commutative, and a region intersected with itself is unchanged |
| Rectangles.Area | BAFoundation/BABitArray+Rectangles.h:12 | a rectangle with non-negative sides has a non-negative area, and a zero side gives area 0 |
| Rectangles.Perimeter | BAFoundation/BABitArray+Rectangles.h:13 | sixteen times the area is at most the squared perimeter, with equality for a square, so a square has the least perimeter for its area |
| Rectangles.BestRect | BAFoundation/BABitArray+Rectangles.h:16-27 | the result is one of the two, has the larger area, has the smaller perimeter among equal areas, and is the first on a full tie |
| Rectangles.BestRectChoosesBeater | BAFoundation/BABitArray+Rectangles.h:23-26 | the second rectangle wins exactly when its area is larger, or equal with a smaller perimeter |
| Rectangles.BestOf | BAFoundation/BABitArray+Rectangles.h:16-27 | folding the choice over a non-empty list gives a member of maximal area and, among those, minimal perimeter, that beats everything before it |
| Rectangles.RectSquare | BAFoundation/BABitArray+Rectangles.h:29-35 | the origin is kept and both sides become the shorter side |
| Rectangles.RectSquareProperties | BAFoundation/BABitArray+Rectangles.h:29-35 | squaring is idempotent and, for non-negative sides, never grows the area |
| BitArrays.BufferLength | BAFoundation/BABitArray.h:47-49 | the buffer is the fewest bytes holding `length` bits |
| BitArrays.Make | BAFoundation/BABitArray.h:76 | a new array has the given length, every bit clear and a zero count |
| BitArrays.Preset | BAFoundation/BABitArray.h:83-86 | the presets are clear arrays of 8, 64, 512 and 4096 bits |
| BitArrays.Bit | BAFoundation/BABitArray.h:19 | reading succeeds exactly for an index below `length`, and gives that bit |
| BitArrays.SetBit | BAFoundation/BABitArray.h:21 | the bit becomes set, no other bit changes, and the count grows by one iff the bit was clear; fails past the end |
| BitArrays.ClearBit | BAFoundation/BABitArray.h:25 | the bit becomes clear, no other bit changes, and the count drops by one iff the bit was set; fails past the end |
| BitArrays.SetRange | BAFoundation/BABitArray.h:22 | exactly the bits of `[loc, loc+len)` become set, and the count grows by the bits that were clear there; fails when the range does not fit |
| BitArrays.ClearRange | BAFoundation/BABitArray.h:26 | exactly the bits of `[loc, loc+len)` become clear, and the count drops by the bits that were set there; fails when the range does not fit |
| BitArrays.SetAll | BAFoundation/BABitArray.h:23 | every bit is set and the count is the length |
| BitArrays.ClearAll | BAFoundation/BABitArray.h:27 | every bit is clear and the count is 0 |
| BitArrays.SetThenClearRange | BAFoundation/BABitArray.h:22-26 | clearing a range that was just set restores an array that was clear there |
| BitArrays.SetThenClearRangeAny | BAFoundation/BABitArray.h:22-26 | whatever the range held, clearing it after setting it equals clearing it alone |
| BitArrays.FirstSetBit | BAFoundation/BABitArray.h:29 | the first set bit is set with only clear bits before it; none is found exactly when the count is 0 |
| BitArrays.LastSetBit | BAFoundation/BABitArray.h:30 | the last set bit is set with only clear bits after it; none is found exactly when the count is 0 |
| BitArrays.FirstClearBit | BAFoundation/BABitArray.h:37 | the first clear bit is clear with only set bits before it; none is found exactly when all bits are set |
| BitArrays.LastClearBit | BAFoundation/BABitArray.h:38 | the last clear bit is clear with only set bits after it; none is found exactly when all bits are set |
| BitArrays.FirstLastBracket | BAFoundation/BABitArray.h:29-38 | with any bit set, the first set bit is at or before the last; likewise for clear bits |
| BitArrays.NextAfter | BAFoundation/BABitArray.h:63 | the result is the least set bit after `prev`; none when no bit after `prev` is set |
| BitArrays.EnumerateFrom | BAFoundation/BABitArray.h:63-64 | chaining `nextAfter:` from a set bit visits every later set bit once, in ascending order |
| BitArrays.Enumerate | BAFoundation/BABitArray.h:64 | enumeration visits exactly the set bits, ascending, `count` of them |
| BitArrays.ReadBits | BAFoundation/BABitArray.h:34 | reading a bit range gives its `len` bits in order; fails when the range does not fit |
| BitArrays.WriteBits | BAFoundation/BABitArray.h:35 | writing a bit range keeps the length and the count consistent and leaves bits outside the range alone; fails when the range does not fit |
| BitArrays.WriteThenReadBits | BAFoundation/BABitArray.h:33-35 | reading back a written bit range gives the written bits |
| BitArrays.FromRange | BAFoundation/BABitArray.h:78-79 | the sub-array has `len` bits equal to the source's bits from `loc`; fails when the range does not fit the source |
| BitArrays.CheckCount | BAFoundation/BABitArray.h:66 | the check holds exactly when the cached count is the size of the set of positions whose bit is set |
| BitArrays.RefreshCount | BAFoundation/BABitArray.h:67 | refreshing makes the count consistent without touching bits, and changes nothing on a consistent array |
| BitArrays.MutatorsKeepCount | BAFoundation/BABitArray.h:17-27 | every mutator leaves an array whose count passes the check |
| BitArrays.IsEqual | BAFoundation/BABitArray.h:61 | two consistent arrays compare equal exactly when they are the same array |
| BitArrayBytes.PackedByte | BAFoundation/BABitArray.h:47-49 | byte `k` of the buffer holds bits `8k` to `8k+7`, bit `j` under mask `1 << j`, with zero padding past the length |
| BitArrayBytes.ReadBytes | BAFoundation/BABitArray.h:69-70 | reading a byte range gives the packed buffer bytes; fails when the byte range passes the buffer |
| BitArrayBytes.WriteBytes | BAFoundation/BABitArray.h:69-71 | writing a byte range sets exactly the bits those bytes cover to the bytes' bits, keeps the count consistent, and fails when the byte range passes the buffer |
| BitArrayBytes.WriteThenReadBytes | BAFoundation/BABitArray.h:69-71 | reading back written bytes gives the written bits, except padding bits past the length, which read clear |
| BitArrayBytes.WriteThenReadWholeBytes | BAFoundation/BABitArray.h:69-71 | for bytes wholly inside the length, reading back gives exactly the written bytes |
| BitArrayBytes.ReadBytesAgreesWithReadBits | BAFoundation/BABitArray.h:69-70 | a byte range read agrees bit for bit with the bit-range read of the same bits |
| SampleArrays.UIntMax | BAFoundation/BASampleArray.h:44 | `NSUIntegerMax` is one less than `2^W` for a 32- or 64-bit word |
| SampleArrays.OneDimensionalCount | BAFoundation/BASampleArray.h:16-17 | a one-dimensional array has `order` samples |
| SampleArrays.Init | BAFoundation/BASampleArray.h:44 | construction succeeds exactly when `(order^power) * size <= NSUIntegerMax`, giving `order^power` zero samples of `size` bytes; otherwise it fails with overflow |
| SampleArrays.Sample | BAFoundation/BASampleArray.h:26 | reading succeeds exactly below `count`, giving the `size` bytes at that index |
| SampleArrays.SetSample | BAFoundation/BASampleArray.h:27 | writing succeeds exactly below `count`, replaces that sample only, and keeps `power`, `order` and `size` |
| SampleArrays.SetThenSample | BAFoundation/BASampleArray.h:26-27 | a written sample reads back, every other index reads as before, and the count is unchanged |
| SampleArrays.LinearIndexBound | BAFoundation/BASampleArray.h:16-17 | coordinates each below `order` address an index below `order^power` |
| SampleArrays.CoordinatesOfLinearIndex | BAFoundation/BASampleArray.h:28-29 | decoding the linear index of in-grid coordinates gives the coordinates back |
| SampleArrays.LinearIndexOfCoordinates | BAFoundation/BASampleArray.h:28-29 | every index below the count decodes to in-grid coordinates whose linear index is that index |
| SampleArrays.SampleAt | BAFoundation/BASampleArray.h:28 | a coordinate read succeeds exactly for in-grid coordinates and is the index read at their linear index |
| SampleArrays.SetSampleAt | BAFoundation/BASampleArray.h:29 | a coordinate write succeeds exactly for in-grid coordinates and is the index write at their linear index |
| SampleArrays.CoordinateWriteVisibleByIndex | BAFoundation/BASampleArray.h:26-29 | a coordinate write is seen by the index read at the linear index, and by no other index |
| SampleArrays.MaxOrderForPower | BAFoundation/BASampleArray.h:110 | for one-byte samples the maximum order is at least 1, its `power`-th power is at most `2^W`, and twice it would pass `2^W` |
| SampleArrays.MaxOrderCount | BAFoundation/BASampleArray.h:49 | `maxOrder^power` is `2^(W div power * power)`: at most `2^W`, exactly `2^W` when `power` divides `W`, and doubling the order passes `2^W` |
| SampleArrays.MaxOrderTable32 | BAFoundation/BASampleArray.h:51-70 | the 32-bit order column of the table follows from `2^(32 div power)` |
| SampleArrays.MaxOrderTable64 | BAFoundation/BASampleArray.h:51-70 | the 64-bit order column of the table follows from `2^(64 div power)` |
| SampleArrays.MaxOrderCountTable32 | BAFoundation/BASampleArray.h:51-70 | the 32-bit count column of the table is `maxOrder^power` |
| SampleArrays.MaxOrderCountTable64 | BAFoundation/BASampleArray.h:51-70 | the 64-bit count column of the table is `maxOrder^power` |
| SampleArrays.MaxOrderAtEdgeOverflows | BAFoundation/BASampleArray.h:44-70 | when `power` divides `W`, an array of the documented maximum order with one-byte samples breaks the size bound |
| SampleArrays.PowerOfTwoMaxOrderIsTight | BAFoundation/BASampleArray.h:44-49 | the corrected maximum order fits the size bound, and twice it does not |
| SampleArrays.PowerOfTwoMaxOrderBounds | BAFoundation/BASampleArray.h:44-49 | the corrected maximum order's count is below `2^W`, and twice the order reaches `2^W` |
| SampleArrays.Page | BAFoundation/BASampleArray.h:107 | the page is the 32 x 32 array of 4-byte samples, 4096 bytes, as the constructor builds it |
| SampleArrays.Block | BAFoundation/BASampleArray.h:108 | the block is the 32 x 32 x 32 array of 4-byte samples, 131072 bytes, as the constructor builds it |
| SampleArrays.EncodeU32 | BAFoundation/BASampleArray.h:98-101 | a `UInt32` becomes four bytes that decode back to it |
| SampleArrays.EncodeDecodeU32 | BAFoundation/BASampleArray.h:98-101 | four bytes decoded and encoded again are unchanged |
| SampleArrays.PageSampleAt | BAFoundation/BASampleArray.h:98 | a page read succeeds exactly when `x` and `y` are below the order, and decodes the sample at `y*order + x` |
| SampleArrays.SetPageSample | BAFoundation/BASampleArray.h:99 | a page write succeeds exactly when `x` and `y` are below the order, stores the encoded value at `y*order + x`, changes no other sample and keeps the page shape |
| SampleArrays.PageSampleRoundTrip | BAFoundation/BASampleArray.h:98-99 | a written page sample reads back, and every other cell reads as before |
| SampleArrays.BlockSampleAt | BAFoundation/BASampleArray.h:100 | a block read succeeds exactly when `x`, `y` and `z` are below the order, and decodes the sample at `z*order^2 + y*order + x` |
| SampleArrays.SetBlockSample | BAFoundation/BASampleArray.h:101 | a block write succeeds exactly when `x`, `y` and `z` are below the order, stores the encoded value at `z*order^2 + y*order + x`, changes no other sample and keeps the block shape |
| SampleArrays.BlockSampleRoundTrip | BAFoundation/BASampleArray.h:100-101 | a written block sample reads back, and every other cell reads as before |
| SparseShape.Scale | BAFoundation/BASparseArray.h:69 | every interior node has at least one child, and at least two for a valid shape |
| SparseShape.LeafSize | BAFoundation/BASparseArray.h:71 | a leaf holds at least one cell whenever `base >= 1` |
| SparseShape.TreeSizeFactors | BAFoundation/BASparseArray.h:71-73 | `treeSize = (base * 2^level)^power` equals `leafSize * scale^level` |
| SparseShape.TreeSizeStep | BAFoundation/BASparseArray.h:72-73 | one level more doubles `treeBase` and multiplies `treeSize` by `scale`; level 0 covers one leaf |
| SparseShape.TreeSizeGrows | BAFoundation/BASparseArray.h:72-73 | the tree size is positive and at least doubles with every level |
| SparseShape.CommentTreeSizeExactlyWhen | BAFoundation/BASparseArray.h:72 | the comment's `leafSize * 2^(level+power)` equals the tree size exactly when `level + power == level * power`; at level 0 it is `scale` times too large |
| SparseShape.TreeSizeMonotone | BAFoundation/BASparseArray.h:72-73 | a deeper tree is never smaller |
| SparseShape.LeafCountTableFits | BAFoundation/BASparseArray.h:12-16 | a valid shape's scale is 2, 4 or 8, the radix of one of the three tables, and below the 10-entry table size the leaf count fits 32 bits |
| SparseShape.LeafOf | BAFoundation/BASparseArray.h:102 | a storage index is its leaf number times `leafSize` plus its offset |
| SparseShape.OffsetInLeaf | BAFoundation/BASparseArray.h:102 | the offset within a leaf is below `leafSize` |
| SparseShape.LeafOfSplit | BAFoundation/BASparseArray.h:102 | leaf number and offset are recovered from `leaf * leafSize + offset` |
| SparseShape.Offset2D | BAFoundation/BASparseArrayPrivate.h:15 | the 2-D in-leaf offset is below `base^2` and decodes to `x mod base` and `y mod base` |
| SparseShape.Offset3D | BAFoundation/BASparseArrayPrivate.h:20 | the 3-D in-leaf offset is below `base^3` and decodes by successive div/mod to the three remainders |
| SparseShape.OffsetsAreLinearIndices | BAFoundation/BASparseArrayPrivate.h:13-21 | the in-leaf offsets are the sample-array linear indices of the remainders |
| SparseShape.StorageIndex2D | BAFoundation/BASparseArrayPrivate.h:13-16 | the 2-D storage index divided by `base^2` is the leaf index, and its remainder is the in-leaf offset |
| SparseShape.StorageIndex3D | BAFoundation/BASparseArrayPrivate.h:18-21 | the 3-D storage index divided by `base^3` is the leaf index, and its remainder is the in-leaf offset |
| SparseShape.CellInLeaf2D | BAFoundation/BASparseArrayPrivate.h:13-16 | a plane's cell `(x, y)` lands in leaf `leafIndexOf(x/base, y/base)` at offset `Offset2D`, in a leaf of `base^2` cells |
| SparseShape.CellInLeaf3D | BAFoundation/BASparseArrayPrivate.h:18-21 | a volume's cell lands in leaf `leafIndexOf(x/base, y/base, z/base)` at offset `Offset3D`, in a leaf of `base^3` cells |
| SparseShape.StorageIndex2DEqual | BAFoundation/BASparseArrayPrivate.h:13-16 | two points share a 2-D storage index iff they share the leaf index and both remainders |
| SparseShape.StorageIndex3DEqual | BAFoundation/BASparseArrayPrivate.h:18-21 | two points share a 3-D storage index iff they share the leaf index and all three remainders |
| SparseShape.Coordinates2DRoundTrip | BAFoundation/BASparseArrayPrivate.h:13-16 | with an inverse for the leaf index, a 2-D storage index decodes back to its point |
| SparseShape.Coordinates3DRoundTrip | BAFoundation/BASparseArrayPrivate.h:18-21 | with an inverse for the leaf index, a 3-D storage index decodes back to its point |
| SparseShape.StorageIndex2DInjective | BAFoundation/BASparseArrayPrivate.h:13-16 | with an invertible leaf index, distinct points have distinct 2-D storage indices |
| SparseShape.StorageIndex3DInjective | BAFoundation/BASparseArrayPrivate.h:18-21 | with an invertible leaf index, distinct points have distinct 3-D storage indices |
| SparseTrees.InitialTree | BAFoundation/BASparseArray.h:95-97 | a valid base and power give a level-1 tree whose root has `scale` leaf children, each holding blank storage; any other shape is refused as an invalid argument |
| SparseTrees.InitialTreeSize | BAFoundation/BASparseArray.h:95-97 | the initial tree covers `leafSize * scale` cells |
| SparseTrees.InitWithChild | BAFoundation/BASparseArrayPrivate.h:26 | the parent is one level above the child and holds it at `position`, all other children absent; fails unless `position < scale` |
| SparseTrees.InitWithChildLeaves | BAFoundation/BASparseArrayPrivate.h:26 | the parent's leaves in the child's slot are the child's leaves, and all its other leaves are absent |
| SparseTrees.GrowExtends | BAFoundation/BASparseArray.h:99 | wrapping the root as child 0 keeps every leaf at its number and adds only absent leaves |
| SparseTrees.ExpandToFitSize | BAFoundation/BASparseArray.h:99 | afterwards the tree size is at least the request, the level has not decreased, no level was added needlessly, and every leaf keeps its number; a tree below level 10 stays below it when the request fits a level-9 tree |
| SparseTrees.ChildAtIndex | BAFoundation/BASparseArray.h:101 | at level 1 or more and `index < scale` the lookup succeeds with the subtree one level down that holds the leaves of that slot, an empty subtree when the slot was never materialised; otherwise it is out of range |
| SparseTrees.StorageIndexSplit | BAFoundation/BASparseArray.h:102 | a storage index is inside the tree iff its leaf number is below the leaf count |
| SparseTrees.Materialise | BAFoundation/BASparseArray.h:102 | the addressed leaf is created with blank storage if absent, and no other leaf changes |
| SparseTrees.LeafForStorageIndex | BAFoundation/BASparseArray.h:102 | a lookup succeeds exactly inside the tree, giving the leaf holding the index and the offset below `leafSize`; otherwise out of range |
| SparseBitArrays.Init | BAFoundation/BASparseArray.h:95-97 | a valid shape gives a level-1 sparse bit array with every bit clear; any other shape is refused as an invalid argument |
| SparseBitArrays.Bit | BAFoundation/BASparseBitArray.h:26 | a bit past the tree or in a leaf never materialised reads clear; otherwise it is the leaf's bit at the index's offset |
| SparseBitArrays.ExpandKeepsBits | BAFoundation/BASparseArray.h:99 | growing the tree changes no bit |
| SparseBitArrays.MaterialiseKeepsBits | BAFoundation/BASparseBitArray.h:26 | creating a leaf changes no bit: a bit in an absent leaf reads clear |
| SparseBitArrays.SetBitTo | BAFoundation/BASparseBitArray.h:27-28 | the bit takes the value, the tree grows only if the index was outside it, and no other bit changes |
| SparseBitArrays.SetBit | BAFoundation/BASparseBitArray.h:27 | the bit becomes set, in any leaf, and no other bit changes |
| SparseBitArrays.ClearBit | BAFoundation/BASparseBitArray.h:28 | the bit becomes clear and no other bit changes |
| SparseBitArrays.SetRangeTo | BAFoundation/BASparseBitArray.h:30-31 | exactly the bits of `[loc, loc+len)` take the value, and the tree grows only if the range passes its end |
| SparseBitArrays.SetRange | BAFoundation/BASparseBitArray.h:30 | exactly the bits of the range become set |
| SparseBitArrays.ClearRange | BAFoundation/BASparseBitArray.h:31 | exactly the bits of the range become clear |
| SparseBitArrays.SetAll | BAFoundation/BASparseBitArray.h:33 | every bit inside the tree becomes set, and the level is unchanged |
| SparseBitArrays.ClearAll | BAFoundation/BASparseBitArray.h:34 | every bit becomes clear |
| SparseBitArrays.BitAt2D | BAFoundation/BASparseBitArray.h:37 | the cell's bit is bit `Offset2D` of leaf `leafIndexOf(x/base, y/base)`, and clear when that leaf was never materialised |
| SparseBitArrays.SetBitAt2D | BAFoundation/BASparseBitArray.h:39 | the 2-D bit becomes set, and only the bit at its storage index can change |
| SparseBitArrays.ClearBitAt2D | BAFoundation/BASparseBitArray.h:40 | the 2-D bit becomes clear, and only the bit at its storage index can change |
| SparseBitArrays.UpdateBitAt2D | BAFoundation/BASparseBitArray.h:38-40 | the update is the set when `set` holds and the clear otherwise |
| SparseBitArrays.UpdateBitAt2DFrame | BAFoundation/BASparseBitArray.h:37-38 | with an invertible leaf index, a 2-D update leaves every other point's bit unchanged |
| SparseBitArrays.BitAt3D | BAFoundation/BASparseBitArray.h:43 | the cell's bit is bit `Offset3D` of leaf `leafIndexOf(x/base, y/base, z/base)`, and clear when that leaf was never materialised |
| SparseBitArrays.SetBitAt3D | BAFoundation/BASparseBitArray.h:45 | the 3-D bit becomes set, and only the bit at its storage index can change |
| SparseBitArrays.ClearBitAt3D | BAFoundation/BASparseBitArray.h:46 | the 3-D bit becomes clear, and only the bit at its storage index can change |
| SparseBitArrays.UpdateBitAt3D | BAFoundation/BASparseBitArray.h:44-46 | the update is the set when `set` holds and the clear otherwise |
| SparseBitArrays.UpdateBitAt3DFrame | BAFoundation/BASparseBitArray.h:43-44 | with an invertible leaf index, a 3-D update leaves every other point's bit unchanged |
| SparseBitArrays.Count | BAFoundation/BASparseBitArray.h:24 | the summed leaf counts equal the number of set bits in the tree, at most `treeSize` |
| SparseBitArrays.SetAllClearAllCount | BAFoundation/BASparseBitArray.h:24-34 | after setting all the count is `treeSize`; after clearing all it is 0 |
| SparseBitArrays.SetBitToCount | BAFoundation/BASparseBitArray.h:24-28 | writing one bit changes the count by one exactly when the bit flips |
| SparseSampleArrays.Init | BAFoundation/BASparseSampleArray.h:24 | a valid shape and a sample size of at least 1 give a level-1 array of zero samples; any other shape is refused as an invalid argument |
| SparseSampleArrays.InitDefault | BAFoundation/BASparseSampleArray.h:17 | the default sample size is 1, and every sample reads as one zero byte |
| SparseSampleArrays.Sample | BAFoundation/BASampleArray.h:26 | a sample past the tree or in a leaf never materialised reads as zeros; otherwise it is the leaf's sample at the index's offset |
| SparseSampleArrays.ExpandKeepsSamples | BAFoundation/BASparseArray.h:99 | growing the tree changes no sample |
| SparseSampleArrays.MaterialiseKeepsSamples | BAFoundation/BASampleArray.h:26-27 | creating a leaf changes no sample: a sample in an absent leaf reads as zeros |
| SparseSampleArrays.SetSample | BAFoundation/BASampleArray.h:27 | the written sample reads back, the tree grows only if the index was outside it, and no other sample changes |
| SparseSampleArrays.SetSampleIdempotent | BAFoundation/BASampleArray.h:26-27 | writing back the sample just read changes nothing |
| SparseSampleArrays.PageSampleAt | BAFoundation/BASparseSampleArray.h:26 | the cell's value decodes sample `Offset2D` of leaf `leafIndexOf(x/base, y/base)`, and is 0 when that leaf was never materialised |
| SparseSampleArrays.SetPageSample | BAFoundation/BASparseSampleArray.h:27 | the written page sample reads back, and only the sample at its 2-D storage index can change |
| SparseSampleArrays.PageSampleRoundTrip | BAFoundation/BASparseSampleArray.h:26-27 | with an invertible leaf index, a page write leaves every other point's sample alone, and writing back the value read changes nothing |
| SparseSampleArrays.BlockSampleAt | BAFoundation/BASparseSampleArray.h:29 | the cell's value decodes sample `Offset3D` of leaf `leafIndexOf(x/base, y/base, z/base)`, and is 0 when that leaf was never materialised |
| SparseSampleArrays.SetBlockSample | BAFoundation/BASparseSampleArray.h:30 | the written block sample reads back, and only the sample at its 3-D storage index can change |
| SparseSampleArrays.BlockSampleRoundTrip | BAFoundation/BASparseSampleArray.h:29-30 | with an invertible leaf index, a block write leaves every other point's sample alone, and writing back the value read changes nothing |

## Left out

- Procedural noise: `BANoise`, the noise transforms and the noise-seeded initialisers. They are floating-point numerics.
- `BARandomIntegerInRange` draws random numbers, and the `CGRect` conversions of regions work on floating point.
- The float sample accessors `blockFloatAtX:y:z:` and `setBlockFloat:atX:y:z:`, in the dense and the sparse sample array, work on floating point.
- Rectangles: `BABestRect` and `BARectSquare` work on integer rectangles rather than `CGRect`, because a bit array's cells are whole.
- Archiving (`NSCoding`, `enableArchiveCompression`), copying, and the `NSData` views `bufferData`, `dataForRange:` and `data` are serialisation.
- `initWithData:length:` is deserialisation, for the same reason.
- The callback blocks are caller code with no visible behaviour to model:
  - the toggle, update, build and expand blocks;
  - the weak `userObject`.
- Enumeration: `enumerate:` is modelled as the sequence of indices it visits, not as a call of a block.
- `histogram2d`, `inverseHistogram2d`, `iterateEmptyRectsWithBlock:`, `largestEmptyRect` and `largestEmptySquare` have no visible body.
- The `SpatialStorage` category (`setRect:`, `writeRect:`, `subArrayWithRect:`) has no visible body and takes `NSRect` arguments.
- The same goes for `initWithLength:size:`, `size2d` and `sampleArrayForSize2d:`.
- `isEqualToSampleArray:` has no visible body. The bit array's `isEqualToBitArray:` is modelled.
- The optional `readSamples:range:` and `writeSamples:range:` have no stated behaviour beyond their names.
- The sparse sample array's N-dimensional `sample:atCoordinates:` needs `LeafIndexForCoordinates`, whose body is not shown. Its page and block accessors are modelled.
- The private `initWithBase:power:level:`, `initWithParent:`, `treeSizeForStorageIndex:` and `childForStorageIndex:offset:` are internal steps of growth and lookup. Their effects are modelled in `ExpandToFitSize` and `LeafForStorageIndex`.
- `initializeChildren:` is an internal step too, modelled in the same way.
- `NSUInteger` overflow is not modelled for storage indices, tree sizes and counts, because integers are unbounded. Only `NextPowerOf2` and the sample-array size bound model a word width.
- `LeafIndexFor2DCoordinates`, `LeafIndexFor3DCoordinates` and their inverses have no visible body, so they are parameters.
- SparseSampleArrays.Init: does not apply the dense sample array's size bound to leaf storage, because leaves are built directly at `leafSize` samples.
- SparseShape.Scale: the contract states only that a node has at least one child, and at least two for a valid shape. The value `2^power` is the definition, and `TreeSizeStep` states what it does to the tree size.
- SparseShape.LeafSize: the contract states only that a leaf holds a cell. The value `base^power` is the definition, and `TreeSizeFactors` relates it to the tree size.
- SampleArrays.MaxOrderForPower: only one-byte samples are modelled, so the `size` argument is dropped, because the header gives no formula for larger sizes.
- SparseShape.LeafCountTableFits: the header's "max level is 9 in 32-bit mode" is not enforced, and a tree may grow past level 9. `ExpandToFitSize` stays below level 10 only when the request fits a level-9 tree.
- Rectangles.Area: the contract states only the sign of the area. The product `width * height` is the definition.
- Rectangles.Perimeter: the contract relates the perimeter to the area. The sum `width * 2 + height * 2` is the definition.
- Geometry.MinX: for an empty region the contract does not fix the value, which is the origin's x by definition.
- Geometry.MaxX: for an empty region the contract does not fix the value, which is `x + width` by definition.
- Geometry.MinY: for an empty region the contract does not fix the value, which is the origin's y by definition.
- Geometry.MaxY: for an empty region the contract does not fix the value, which is `y + height` by definition.
- Geometry.Area: the contract states only that a non-empty region has a positive area. The product `width * height` is the definition, and `NSInteger` overflow of the product is not modelled.
- The private `childAtIndex:create:` of BASparseArrayPrivate.h creates a missing child on request. `ChildAtIndex` models the plain lookup, and leaf creation is modelled by `Materialise`.
- Reads that create storage: the library may materialise a leaf on a read, and the model reads without changing the tree. Growth and materialisation are proved not to change any value.
- Reflection, Core Data and collection extensions, and `BANumber`, are outside the storage layer.

## Findings

| source | as written | input that shows it | evidently intended | confidence | as-written member | corrected member |
|---|---|---|---|---|---|---|
| BAFoundation/BASampleArray.h:49-70 | the maximum order for a power is `2^(W div power)`, and the table's count column reaches `2^W` | power 1, 2, 4 or 8 with 1-byte samples, e.g. power 2 on 32-bit: order `2^16` gives `2^32` bytes, one more than `NSUIntegerMax` | the largest order whose count stays within `NSUIntegerMax`: the power of two `2^k` with `k * power < W` | not executed | SampleArrays.MaxOrderAtEdgeOverflows | SampleArrays.PowerOfTwoMaxOrderIsTight |
| BAFoundation/BASparseArray.h:72 | `treeSize = leafSize * 2^(level+power)` | level 0 with any valid shape, e.g. base 1, power 1: the formula gives 2 where the tree holds 1 cell | `treeSize = leafSize * scale^level = leafSize * 2^(level*power)` | not executed | SparseShape.CommentTreeSizeExactlyWhen | SparseShape.TreeSizeFactors |
