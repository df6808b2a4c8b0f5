/** `BASampleArray` (BASampleArray.h): `order^power` fixed-size byte records
    ("samples") of `size` bytes each, addressed by a linear index or by
    `power` coordinates, each below `order`. Construction is bounded by the
    word size: `(order^power) * size <= NSUIntegerMax`. */
module SampleArrays {
  import opened Wrappers
  import opened Arith
  import opened IntMath

  /** The width of `NSUInteger` on the target. */
  datatype WordSize = Word32 | Word64

  function WordBits(w: WordSize): nat {
    match w
    case Word32 => 32
    case Word64 => 64
  }

  /** `NSUIntegerMax`, one less than `2^W`. */
  function UIntMax(w: WordSize): (m: nat)
    ensures m + 1 == Pow(2, WordBits(w))
    ensures w == Word32 ==> m == 0xFFFF_FFFF
    ensures w == Word64 ==> m == 0xFFFF_FFFF_FFFF_FFFF
  {
    PowersOfTwo();
    match w
    case Word32 => 0xFFFF_FFFF
    case Word64 => 0xFFFF_FFFF_FFFF_FFFF
  }

  datatype SampleArray = SampleArray(power: nat, order: nat, size: nat, samples: seq<seq<Byte>>)

  /** `count`: the number of samples, `order^power`. */
  function Count(s: SampleArray): nat {
    PowNonnegative(s.order, s.power);
    Pow(s.order, s.power)
  }

  /** The record invariant: `count` samples of `size` bytes each. */
  predicate Valid(s: SampleArray) {
    |s.samples| == Count(s) && forall i | 0 <= i < |s.samples| :: |s.samples[i]| == s.size
  }

  /** A one-dimensional array has `order` samples. */
  lemma OneDimensionalCount(s: SampleArray)
    requires s.power == 1
    ensures Count(s) == s.order
  {
  }

  function Zeros(n: nat): seq<Byte> {
    seq(n, _ => 0)
  }

  /** `initWithPower:order:size:`: fails with `Overflow` when the byte size
      `(order^power) * size` exceeds `NSUIntegerMax`; otherwise all samples
      are zero. */
  function Init(w: WordSize, power: nat, order: nat, size: nat): (r: Result<SampleArray>)
    ensures r.Success? <==> Pow(order, power) * size <= UIntMax(w)
    ensures r.Failure? ==> r.error == Overflow
    ensures r.Success? ==> Valid(r.value)
    ensures r.Success? ==> r.value.power == power && r.value.order == order && r.value.size == size
    ensures r.Success? ==> forall i | 0 <= i < Count(r.value) :: r.value.samples[i] == Zeros(size)
  {
    PowNonnegative(order, power);
    var count := Pow(order, power);
    if count * size <= UIntMax(w) then
      Success(SampleArray(power, order, size, seq(count, _ => Zeros(size))))
    else Failure(Overflow)
  }

  // ---------------------------------------------------------------------------
  // Index access

  /** `sample:atIndex:`. */
  function Sample(s: SampleArray, index: nat): (r: Result<seq<Byte>>)
    requires Valid(s)
    ensures r.Success? <==> index < Count(s)
    ensures r.Success? ==> |r.value| == s.size && r.value == s.samples[index]
  {
    if index < Count(s) then Success(s.samples[index]) else Failure(OutOfRange)
  }

  /** `setSample:atIndex:`; the caller's buffer holds `size` bytes. */
  function SetSample(s: SampleArray, index: nat, sample: seq<Byte>): (r: Result<SampleArray>)
    requires Valid(s) && |sample| == s.size
    ensures r.Success? <==> index < Count(s)
    ensures r.Success? ==> Valid(r.value)
    ensures r.Success? ==> r.value.power == s.power && r.value.order == s.order && r.value.size == s.size
    ensures r.Success? ==> r.value.samples[index] == sample
    ensures r.Success? ==> forall j | 0 <= j < Count(s) && j != index :: r.value.samples[j] == s.samples[j]
  {
    if index < Count(s) then Success(s.(samples := s.samples[index := sample])) else Failure(OutOfRange)
  }

  /** Reading a written sample returns the written bytes; every other sample,
      and the shape, are unchanged. */
  lemma SetThenSample(s: SampleArray, index: nat, sample: seq<Byte>, other: nat)
    requires Valid(s) && |sample| == s.size && index < Count(s)
    ensures SetSample(s, index, sample).Success?
    ensures Sample(SetSample(s, index, sample).value, index) == Success(sample)
    ensures other != index ==> Sample(SetSample(s, index, sample).value, other) == Sample(s, other)
    ensures Count(SetSample(s, index, sample).value) == Count(s)
  {
  }

  // ---------------------------------------------------------------------------
  // Coordinate access: x + y*order + z*order^2 + ...

  /** The linear index of a coordinate tuple, first coordinate fastest. */
  function LinearIndex(coords: seq<nat>, order: nat): nat
    decreases |coords|
  {
    if |coords| == 0 then 0 else coords[0] + order * LinearIndex(coords[1..], order)
  }

  predicate InGrid(coords: seq<nat>, order: nat) {
    forall k | 0 <= k < |coords| :: coords[k] < order
  }

  /** In-grid coordinates address a sample of the array. */
  lemma {:induction false} LinearIndexBound(coords: seq<nat>, order: nat)
    requires InGrid(coords, order)
    ensures LinearIndex(coords, order) < Pow(order, |coords|)
    decreases |coords|
  {
    if |coords| > 0 {
      var rest := coords[1..];
      LinearIndexBound(rest, order);
      var p, l := Pow(order, |rest|), LinearIndex(rest, order);
      assert Pow(order, |coords|) == order * p;
      assert LinearIndex(coords, order) == coords[0] + order * l;
      MulMonotone(l, p - 1, order);
      MulPredecessor(p, order);
    }
  }

  /** The coordinates of a linear index: successive remainders and quotients. */
  function Coordinates(index: nat, order: nat, power: nat): (c: seq<nat>)
    requires order > 0
    ensures |c| == power
    decreases power
  {
    if power == 0 then [] else [index % order] + Coordinates(index / order, order, power - 1)
  }

  /** Encoding in-grid coordinates and decoding the index gives them back. */
  lemma {:induction false} CoordinatesOfLinearIndex(coords: seq<nat>, order: nat)
    requires order > 0 && InGrid(coords, order)
    ensures Coordinates(LinearIndex(coords, order), order, |coords|) == coords
    decreases |coords|
  {
    if |coords| > 0 {
      var rest := coords[1..];
      CoordinatesOfLinearIndex(rest, order);
      DivModUnique(LinearIndex(coords, order), order, LinearIndex(rest, order), coords[0]);
      assert coords == [coords[0]] + rest;
    }
  }

  /** Decoding an index of the array and re-encoding gives it back, through
      in-grid coordinates. */
  lemma {:induction false} LinearIndexOfCoordinates(index: nat, order: nat, power: nat)
    requires order > 0 && index < Pow(order, power)
    ensures InGrid(Coordinates(index, order, power), order)
    ensures LinearIndex(Coordinates(index, order, power), order) == index
    decreases power
  {
    if power > 0 {
      var c, q := Coordinates(index, order, power), index / order;
      var rest := Coordinates(q, order, power - 1);
      assert Pow(order, power) == order * Pow(order, power - 1);
      DivBelow(index, order, Pow(order, power - 1));
      LinearIndexOfCoordinates(q, order, power - 1);
      assert c == [index % order] + rest;
      assert c[1..] == rest;
      assert LinearIndex(c, order) == index % order + order * LinearIndex(rest, order);
      DivModIdentity(index, order);
      assert forall k | 1 <= k < |c| :: c[k] == rest[k - 1];
    }
  }

  /** `sample:atCoordinates:`; the caller passes `power` coordinates. */
  function SampleAt(s: SampleArray, coords: seq<nat>): (r: Result<seq<Byte>>)
    requires Valid(s) && |coords| == s.power
    ensures r.Success? <==> InGrid(coords, s.order)
    ensures r.Success? ==> LinearIndex(coords, s.order) < Count(s)
    ensures r.Success? ==> r == Sample(s, LinearIndex(coords, s.order))
  {
    if InGrid(coords, s.order) then
      LinearIndexBound(coords, s.order);
      Sample(s, LinearIndex(coords, s.order))
    else Failure(OutOfRange)
  }

  /** `setSample:atCoordinates:`. */
  function SetSampleAt(s: SampleArray, coords: seq<nat>, sample: seq<Byte>): (r: Result<SampleArray>)
    requires Valid(s) && |coords| == s.power && |sample| == s.size
    ensures r.Success? <==> InGrid(coords, s.order)
    ensures r.Success? ==> r == SetSample(s, LinearIndex(coords, s.order), sample)
  {
    if InGrid(coords, s.order) then
      LinearIndexBound(coords, s.order);
      SetSample(s, LinearIndex(coords, s.order), sample)
    else Failure(OutOfRange)
  }

  /** A write by coordinates is seen by the index read at the linear index of
      those coordinates, and by no other index. */
  lemma CoordinateWriteVisibleByIndex(s: SampleArray, coords: seq<nat>, sample: seq<Byte>, other: nat)
    requires Valid(s) && |coords| == s.power && |sample| == s.size && InGrid(coords, s.order)
    ensures SetSampleAt(s, coords, sample).Success?
    ensures Sample(SetSampleAt(s, coords, sample).value, LinearIndex(coords, s.order)) == Success(sample)
    ensures other != LinearIndex(coords, s.order) ==>
      Sample(SetSampleAt(s, coords, sample).value, other) == Sample(s, other)
  {
    LinearIndexBound(coords, s.order);
    SetThenSample(s, LinearIndex(coords, s.order), sample, other);
  }

  // ---------------------------------------------------------------------------
  // maxOrderForPower:size: for single-byte samples

  /** The documented maximum order for single-byte samples, `2^(W div power)`:
      the power of two whose `power`-th power is at most `2^W` while its
      double's is not. */
  function MaxOrderForPower(w: WordSize, power: nat): (r: nat)
    requires power >= 1
    ensures r >= 1
    ensures Pow(r, power) <= Pow(2, WordBits(w)) < Pow(2 * r, power)
  {
    var W := WordBits(w);
    var k := W / power;
    PowNonnegative(2, k);
    PowMul(2, k, power);
    QuotientTimesDivisor(W, power);
    PowMonotoneExp(2, k * power, W);
    PowAdd(2, 1, k);
    PowMul(2, k + 1, power);
    PowStrictExp(2, W, (k + 1) * power);
    PowPositive(2, k);
    Pow(2, k)
  }

  /** The documented order makes `order^power = 2^((W div power) * power)`, at
      most `2^W`, and exactly `2^W` when `power` divides `W`; doubling the
      order goes past `2^W`. */
  lemma MaxOrderCount(w: WordSize, power: nat)
    requires power >= 1
    ensures Pow(MaxOrderForPower(w, power), power) == Pow(2, WordBits(w) / power * power)
    ensures Pow(MaxOrderForPower(w, power), power) <= Pow(2, WordBits(w))
    ensures WordBits(w) % power == 0 ==> Pow(MaxOrderForPower(w, power), power) == Pow(2, WordBits(w))
    ensures Pow(2 * MaxOrderForPower(w, power), power) > Pow(2, WordBits(w))
  {
    MaxOrderCountExact(w, power);
    QuotientTimesDivisor(WordBits(w), power);
  }

  /** The documented order makes `order^power = 2^((W div power) * power)`. */
  lemma MaxOrderCountExact(w: WordSize, power: nat)
    requires power >= 1
    ensures Pow(MaxOrderForPower(w, power), power) == Pow(2, WordBits(w) / power * power)
  {
    PowMul(2, WordBits(w) / power, power);
  }

  /** `(W div p) * p` is at most `W`, equal to it when `p` divides `W`, and
      `(W div p + 1) * p` exceeds `W`. */
  lemma QuotientTimesDivisor(n: nat, p: nat)
    requires p >= 1
    ensures n / p * p <= n < (n / p + 1) * p
    ensures n % p == 0 ==> n / p * p == n
    ensures n % p != 0 ==> n / p * p < n
  {
    assert n == n / p * p + n % p;
    assert (n / p + 1) * p == n / p * p + p;
  }

  /** The 32-bit row of the maximum-order table. */
  lemma MaxOrderTable32()
    ensures [MaxOrderForPower(Word32, 1), MaxOrderForPower(Word32, 2), MaxOrderForPower(Word32, 3),
             MaxOrderForPower(Word32, 4), MaxOrderForPower(Word32, 5), MaxOrderForPower(Word32, 6),
             MaxOrderForPower(Word32, 7), MaxOrderForPower(Word32, 8)]
         == [0x1_0000_0000, 0x1_0000, 1024, 256, 64, 32, 16, 16]
  {
    PowersOfTwo();
    assert MaxOrderForPower(Word32, 1) == Pow(2, 32) && MaxOrderForPower(Word32, 2) == Pow(2, 16);
    assert MaxOrderForPower(Word32, 3) == Pow(2, 10) && MaxOrderForPower(Word32, 4) == Pow(2, 8);
    assert MaxOrderForPower(Word32, 5) == Pow(2, 6) && MaxOrderForPower(Word32, 6) == Pow(2, 5);
    assert MaxOrderForPower(Word32, 7) == Pow(2, 4) && MaxOrderForPower(Word32, 8) == Pow(2, 4);
  }

  /** The 64-bit row of the maximum-order table. */
  lemma MaxOrderTable64()
    ensures [MaxOrderForPower(Word64, 1), MaxOrderForPower(Word64, 2), MaxOrderForPower(Word64, 3),
             MaxOrderForPower(Word64, 4), MaxOrderForPower(Word64, 5), MaxOrderForPower(Word64, 6),
             MaxOrderForPower(Word64, 7), MaxOrderForPower(Word64, 8)]
         == [0x1_0000_0000_0000_0000, 0x1_0000_0000, 0x20_0000, 0x1_0000, 4096, 1024, 512, 256]
  {
    PowersOfTwo();
    PowAdd(2, 16, 5);
    assert MaxOrderForPower(Word64, 1) == Pow(2, 64) && MaxOrderForPower(Word64, 2) == Pow(2, 32);
    assert MaxOrderForPower(Word64, 3) == Pow(2, 21) && MaxOrderForPower(Word64, 4) == Pow(2, 16);
    assert MaxOrderForPower(Word64, 5) == Pow(2, 12) && MaxOrderForPower(Word64, 6) == Pow(2, 10);
    assert MaxOrderForPower(Word64, 7) == Pow(2, 9) && MaxOrderForPower(Word64, 8) == Pow(2, 8);
  }

  /** Where `power` divides `W` the tabulated order reaches `2^W` samples of
      one byte, one more than `NSUIntegerMax`, so the constructor's bound
      rejects it: the table and the bound disagree at that edge. */
  lemma MaxOrderAtEdgeOverflows(w: WordSize, power: nat)
    requires power >= 1 && WordBits(w) % power == 0
    ensures Init(w, power, MaxOrderForPower(w, power), 1) == Failure(Overflow)
  {
    MaxOrderCount(w, power);
  }

  /** The 32-bit count column of the maximum-order table, as powers of two. */
  lemma MaxOrderCountTable32()
    ensures Pow(MaxOrderForPower(Word32, 1), 1) == Pow(2, 32) && Pow(MaxOrderForPower(Word32, 2), 2) == Pow(2, 32)
    ensures Pow(MaxOrderForPower(Word32, 3), 3) == Pow(2, 30) && Pow(MaxOrderForPower(Word32, 4), 4) == Pow(2, 32)
    ensures Pow(MaxOrderForPower(Word32, 5), 5) == Pow(2, 30) && Pow(MaxOrderForPower(Word32, 6), 6) == Pow(2, 30)
    ensures Pow(MaxOrderForPower(Word32, 7), 7) == Pow(2, 28) && Pow(MaxOrderForPower(Word32, 8), 8) == Pow(2, 32)
  {
    MaxOrderCountExact(Word32, 1); MaxOrderCountExact(Word32, 2); MaxOrderCountExact(Word32, 3);
    MaxOrderCountExact(Word32, 4); MaxOrderCountExact(Word32, 5); MaxOrderCountExact(Word32, 6);
    MaxOrderCountExact(Word32, 7); MaxOrderCountExact(Word32, 8);
  }

  /** The 64-bit count column of the maximum-order table, as powers of two. */
  lemma MaxOrderCountTable64()
    ensures Pow(MaxOrderForPower(Word64, 1), 1) == Pow(2, 64) && Pow(MaxOrderForPower(Word64, 2), 2) == Pow(2, 64)
    ensures Pow(MaxOrderForPower(Word64, 3), 3) == Pow(2, 63) && Pow(MaxOrderForPower(Word64, 4), 4) == Pow(2, 64)
    ensures Pow(MaxOrderForPower(Word64, 5), 5) == Pow(2, 60) && Pow(MaxOrderForPower(Word64, 6), 6) == Pow(2, 60)
    ensures Pow(MaxOrderForPower(Word64, 7), 7) == Pow(2, 63) && Pow(MaxOrderForPower(Word64, 8), 8) == Pow(2, 64)
  {
    MaxOrderCountExact(Word64, 1); MaxOrderCountExact(Word64, 2); MaxOrderCountExact(Word64, 3);
    MaxOrderCountExact(Word64, 4); MaxOrderCountExact(Word64, 5); MaxOrderCountExact(Word64, 6);
    MaxOrderCountExact(Word64, 7); MaxOrderCountExact(Word64, 8);
  }

  /** The largest power-of-two order that the constructor accepts for
      single-byte samples: the tabulated order, halved where `power` divides
      `W`. */
  function PowerOfTwoMaxOrder(w: WordSize, power: nat): nat
    requires power >= 1
  {
    var k := TightExponent(WordBits(w), power);
    PowNonnegative(2, k);
    Pow(2, k)
  }

  /** The exponent of the corrected order: `W div power`, less one where
      `power` divides `W`. */
  function TightExponent(W: nat, power: nat): (k: nat)
    requires power >= 1 && W >= 1
    ensures k * power < W <= (k + 1) * power
  {
    var q := W / power;
    QuotientTimesDivisor(W, power);
    if W % power == 0 then
      assert q != 0;
      MulPredecessor(q, power);
      q - 1
    else q
  }


  /** The corrected order is accepted, and its double is not. */
  lemma PowerOfTwoMaxOrderIsTight(w: WordSize, power: nat)
    requires power >= 1
    ensures Init(w, power, PowerOfTwoMaxOrder(w, power), 1).Success?
    ensures Init(w, power, 2 * PowerOfTwoMaxOrder(w, power), 1) == Failure(Overflow)
  {
    PowerOfTwoMaxOrderBounds(w, power);
    var m := UIntMax(w);
    assert Pow(PowerOfTwoMaxOrder(w, power), power) * 1 <= m;
    assert Pow(2 * PowerOfTwoMaxOrder(w, power), power) * 1 > m;
  }

  /** `order^power` stays below `2^W` at the corrected order and reaches it at
      twice that order. */
  lemma PowerOfTwoMaxOrderBounds(w: WordSize, power: nat)
    requires power >= 1
    ensures Pow(PowerOfTwoMaxOrder(w, power), power) < Pow(2, WordBits(w))
    ensures Pow(2 * PowerOfTwoMaxOrder(w, power), power) >= Pow(2, WordBits(w))
  {
    var W := WordBits(w);
    var k := TightExponent(W, power);
    PowMul(2, k, power);
    PowAdd(2, 1, k);
    PowMul(2, k + 1, power);
    PowStrictExp(2, k * power, W);
    PowMonotoneExp(2, W, (k + 1) * power);
  }

  // ---------------------------------------------------------------------------
  // Page and block presets

  /** `page`: 32 x 32 samples of 4 bytes, 4096 bytes in all. */
  function Page(): (s: SampleArray)
    ensures Valid(s) && s.power == 2 && s.order == 32 && s.size == 4
    ensures Count(s) * s.size == 4096
    ensures forall w :: Init(w, 2, 32, 4) == Success(s)
  {
    PowersOfTwo();
    SampleArray(2, 32, 4, seq(1024, _ => Zeros(4)))
  }

  /** `block`: 32 x 32 x 32 samples of 4 bytes, 131072 bytes in all. */
  function Block(): (s: SampleArray)
    ensures Valid(s) && s.power == 3 && s.order == 32 && s.size == 4
    ensures Count(s) * s.size == 131072
    ensures forall w :: Init(w, 3, 32, 4) == Success(s)
  {
    PowersOfTwo();
    SampleArray(3, 32, 4, seq(32768, _ => Zeros(4)))
  }

  /** A `UInt32` sample read from its four bytes, least significant first. */
  function DecodeU32(b: seq<Byte>): bv32
    requires |b| == 4
  {
    (b[0] as bv32) | ((b[1] as bv32) << 8) | ((b[2] as bv32) << 16) | ((b[3] as bv32) << 24)
  }

  /** The four bytes of a `UInt32` sample; the inverse of `DecodeU32`. */
  function EncodeU32(v: bv32): (b: seq<Byte>)
    ensures |b| == 4
    ensures DecodeU32(b) == v
  {
    [(v & 0xFF) as Byte, ((v >> 8) & 0xFF) as Byte, ((v >> 16) & 0xFF) as Byte, ((v >> 24) & 0xFF) as Byte]
  }

  lemma EncodeDecodeU32(b: seq<Byte>)
    requires |b| == 4
    ensures EncodeU32(DecodeU32(b)) == b
  {
  }

  /** Four zero bytes read as the `UInt32` zero. */
  lemma DecodeZeros()
    ensures DecodeU32(Zeros(4)) == 0
  {
    assert Zeros(4) == [0, 0, 0, 0];
  }

  /** Arrays of the page shape: two dimensions, four-byte samples. */
  predicate IsPageShaped(s: SampleArray) {
    Valid(s) && s.power == 2 && s.size == 4
  }

  /** Arrays of the block shape: three dimensions, four-byte samples. */
  predicate IsBlockShaped(s: SampleArray) {
    Valid(s) && s.power == 3 && s.size == 4
  }

  lemma InGridPair(x: nat, y: nat, order: nat)
    ensures InGrid([x, y], order) <==> x < order && y < order
  {
    assert [x, y][0] == x && [x, y][1] == y;
  }

  lemma InGridTriple(x: nat, y: nat, z: nat, order: nat)
    ensures InGrid([x, y, z], order) <==> x < order && y < order && z < order
  {
    assert [x, y, z][0] == x && [x, y, z][1] == y && [x, y, z][2] == z;
  }

  /** Two and three coordinates, first fastest: `y*order + x` and
      `z*order^2 + y*order + x`. */
  lemma LinearIndexOfDigits(p: nat, q: nat, r: nat, b: nat)
    ensures LinearIndex([p, q], b) == q * b + p
    ensures LinearIndex([p, q, r], b) == r * b * b + q * b + p
  {
    assert [p, q][1..] == [q] && [q][1..] == [];
    assert [p, q, r][1..] == [q, r] && [q, r][1..] == [r] && [r][1..] == [];
    assert LinearIndex([r], b) == r;
    assert LinearIndex([q, r], b) == q + b * r;
    assert LinearIndex([p, q, r], b) == p + b * (q + b * r);
    assert b * (q + b * r) == q * b + r * b * b;
  }

  /** The index of page cell `(x, y)`: rows of `order` samples. */
  function PageIndex(x: nat, y: nat, order: nat): nat {
    y * order + x
  }

  /** The index of block cell `(x, y, z)`: planes of `order` rows. */
  function BlockIndex(x: nat, y: nat, z: nat, order: nat): nat {
    z * order * order + y * order + x
  }

  /** `pageSampleAtX:y:`. */
  function PageSampleAt(s: SampleArray, x: nat, y: nat): (r: Result<bv32>)
    requires IsPageShaped(s)
    ensures r.Success? <==> x < s.order && y < s.order
    ensures r.Success? ==> PageIndex(x, y, s.order) < Count(s) && r.value == DecodeU32(s.samples[PageIndex(x, y, s.order)])
  {
    InGridPair(x, y, s.order);
    LinearIndexOfDigits(x, y, 0, s.order);
    var sample :- SampleAt(s, [x, y]);
    Success(DecodeU32(sample))
  }

  /** `setPageSample:atX:y:`. */
  function SetPageSample(s: SampleArray, v: bv32, x: nat, y: nat): (r: Result<SampleArray>)
    requires IsPageShaped(s)
    ensures r.Success? <==> x < s.order && y < s.order
    ensures r.Success? ==> IsPageShaped(r.value) && r.value.order == s.order
    ensures r.Success? ==> PageIndex(x, y, s.order) < Count(s) && r.value.samples[PageIndex(x, y, s.order)] == EncodeU32(v)
    ensures r.Success? ==> forall j | 0 <= j < Count(s) && j != PageIndex(x, y, s.order) :: r.value.samples[j] == s.samples[j]
  {
    InGridPair(x, y, s.order);
    LinearIndexOfDigits(x, y, 0, s.order);
    SetSampleAt(s, [x, y], EncodeU32(v))
  }

  /** `blockSampleAtX:y:z:`. */
  function BlockSampleAt(s: SampleArray, x: nat, y: nat, z: nat): (r: Result<bv32>)
    requires IsBlockShaped(s)
    ensures r.Success? <==> x < s.order && y < s.order && z < s.order
    ensures r.Success? ==> BlockIndex(x, y, z, s.order) < Count(s)
    ensures r.Success? ==> r.value == DecodeU32(s.samples[BlockIndex(x, y, z, s.order)])
  {
    InGridTriple(x, y, z, s.order);
    LinearIndexOfDigits(x, y, z, s.order);
    var sample :- SampleAt(s, [x, y, z]);
    Success(DecodeU32(sample))
  }

  /** `setBlockSample:atX:y:z:`. */
  function SetBlockSample(s: SampleArray, v: bv32, x: nat, y: nat, z: nat): (r: Result<SampleArray>)
    requires IsBlockShaped(s)
    ensures r.Success? <==> x < s.order && y < s.order && z < s.order
    ensures r.Success? ==> IsBlockShaped(r.value) && r.value.order == s.order
    ensures r.Success? ==> BlockIndex(x, y, z, s.order) < Count(s)
    ensures r.Success? ==> r.value.samples[BlockIndex(x, y, z, s.order)] == EncodeU32(v)
    ensures r.Success? ==> forall j | 0 <= j < Count(s) && j != BlockIndex(x, y, z, s.order) ::
      r.value.samples[j] == s.samples[j]
  {
    InGridTriple(x, y, z, s.order);
    LinearIndexOfDigits(x, y, z, s.order);
    SetSampleAt(s, [x, y, z], EncodeU32(v))
  }

  /** A page sample reads back as written, and other cells keep their values. */
  lemma PageSampleRoundTrip(s: SampleArray, v: bv32, x: nat, y: nat, x': nat, y': nat)
    requires IsPageShaped(s) && x < s.order && y < s.order
    ensures PageSampleAt(SetPageSample(s, v, x, y).value, x, y) == Success(v)
    ensures (x', y') != (x, y) ==>
      PageSampleAt(SetPageSample(s, v, x, y).value, x', y') == PageSampleAt(s, x', y')
  {
    var t := SetPageSample(s, v, x, y).value;
    CoordinateWriteVisibleByIndex(s, [x, y], EncodeU32(v), LinearIndex([x', y'], s.order));
    if (x', y') != (x, y) && x' < s.order && y' < s.order {
      CoordinatesOfLinearIndex([x, y], s.order);
      CoordinatesOfLinearIndex([x', y'], s.order);
    }
  }

  /** A block sample reads back as written, and other cells keep their values. */
  lemma BlockSampleRoundTrip(s: SampleArray, v: bv32, x: nat, y: nat, z: nat, x': nat, y': nat, z': nat)
    requires IsBlockShaped(s) && x < s.order && y < s.order && z < s.order
    ensures BlockSampleAt(SetBlockSample(s, v, x, y, z).value, x, y, z) == Success(v)
    ensures (x', y', z') != (x, y, z) ==>
      BlockSampleAt(SetBlockSample(s, v, x, y, z).value, x', y', z') == BlockSampleAt(s, x', y', z')
  {
    var t := SetBlockSample(s, v, x, y, z).value;
    CoordinateWriteVisibleByIndex(s, [x, y, z], EncodeU32(v), LinearIndex([x', y', z'], s.order));
    if (x', y', z') != (x, y, z) && x' < s.order && y' < s.order && z' < s.order {
      CoordinatesOfLinearIndex([x, y, z], s.order);
      CoordinatesOfLinearIndex([x', y', z'], s.order);
    }
  }
}
