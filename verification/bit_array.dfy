/** `BABitArray` (BABitArray.h): a fixed-length bit vector with a cached count
    of set bits. The abstract state is the sequence of live bits and the
    cached count; the packed byte buffer is recovered in `BitArrayBytes`.
    Failing calls (an index or range that does not fit) return `Failure`,
    and the searches return `None` where the class returns `NSNotFound`. */
module BitArrays {
  import opened Wrappers
  import opened IntMath

  datatype BitArray = BitArray(bits: seq<bool>, count: nat)

  /** The class invariant: the cached count is the number of set bits. */
  predicate Valid(a: BitArray) {
    a.count == CountTrue(a.bits)
  }

  /** `length`: the number of bits, fixed at construction. */
  function Length(a: BitArray): nat {
    |a.bits|
  }

  /** `bufferLength`: the bytes needed to hold `length` bits, rounded up. */
  function BufferLength(a: BitArray): (n: nat)
    ensures 8 * n >= Length(a)
    ensures n > 0 ==> 8 * (n - 1) < Length(a)
  {
    (Length(a) + 7) / 8
  }

  /** `initWithLength:`: every bit clear. */
  function Make(length: nat): (a: BitArray)
    ensures Valid(a) && Length(a) == length && a.count == 0
    ensures forall i | 0 <= i < length :: !a.bits[i]
  {
    CountTrueConstant(length, false);
    BitArray(seq(length, _ => false), 0)
  }

  /** `bitArray8`, `bitArray64`, `bitArray512` and `bitArray4096` (16^3). */
  function Preset(which: nat): (a: BitArray)
    requires which < 4
    ensures Valid(a) && a.count == 0
    ensures Length(a) == [8, 64, 512, 4096][which]
  {
    Make([8, 64, 512, 4096][which])
  }

  /** `bit:`. */
  function Bit(a: BitArray, index: nat): (r: Result<bool>)
    ensures r.Success? <==> index < Length(a)
    ensures r.Success? ==> r.value == a.bits[index]
  {
    if index < Length(a) then Success(a.bits[index]) else Failure(OutOfRange)
  }

  // ---------------------------------------------------------------------------
  // Single-bit mutators

  /** Writes one bit, adjusting the cached count by the change at that bit. */
  function WithBit(a: BitArray, index: nat, v: bool): (r: BitArray)
    requires Valid(a) && index < Length(a)
    ensures Valid(r)
    ensures r.bits == a.bits[index := v]
  {
    CountTrueUpdate(a.bits, index, v);
    var count' :=
      if a.bits[index] == v then a.count
      else if v then a.count + 1
      else a.count - 1;
    BitArray(a.bits[index := v], count')
  }

  /** `setBit:`. */
  function SetBit(a: BitArray, index: nat): (r: Result<BitArray>)
    requires Valid(a)
    ensures r.Success? <==> index < Length(a)
    ensures r.Success? ==> Valid(r.value) && Length(r.value) == Length(a)
    ensures r.Success? ==> r.value.bits[index]
    ensures r.Success? ==> forall j | 0 <= j < Length(a) && j != index :: r.value.bits[j] == a.bits[j]
    ensures r.Success? ==> r.value.count == a.count + (if a.bits[index] then 0 else 1)
  {
    if index < Length(a) then Success(WithBit(a, index, true)) else Failure(OutOfRange)
  }

  /** `clearBit:`. */
  function ClearBit(a: BitArray, index: nat): (r: Result<BitArray>)
    requires Valid(a)
    ensures r.Success? <==> index < Length(a)
    ensures r.Success? ==> Valid(r.value) && Length(r.value) == Length(a)
    ensures r.Success? ==> !r.value.bits[index]
    ensures r.Success? ==> forall j | 0 <= j < Length(a) && j != index :: r.value.bits[j] == a.bits[j]
    ensures r.Success? ==> r.value.count + (if a.bits[index] then 1 else 0) == a.count
  {
    if index < Length(a) then Success(WithBit(a, index, false)) else Failure(OutOfRange)
  }

  // ---------------------------------------------------------------------------
  // Range mutators: one splice with an incremental count

  /** Replaces the bits `[loc, loc + |src|)` by `src`. The count moves by the
      difference between the new and the old bits of the range only, without
      rescanning the rest of the array. */
  function Splice(a: BitArray, loc: nat, src: seq<bool>): (r: BitArray)
    requires Valid(a) && loc + |src| <= Length(a)
    ensures Valid(r) && Length(r) == Length(a)
    ensures forall j | 0 <= j < Length(a) ::
      r.bits[j] == if loc <= j < loc + |src| then src[j - loc] else a.bits[j]
  {
    var end := loc + |src|;
    SpliceCount(a.bits, loc, src);
    BitArray(a.bits[..loc] + src + a.bits[end..], a.count - CountTrue(a.bits[loc..end]) + CountTrue(src))
  }

  /** Splicing moves the count by the difference between the new and the old
      bits of the range. */
  lemma SpliceCount(bits: seq<bool>, loc: nat, src: seq<bool>)
    requires loc + |src| <= |bits|
    ensures CountTrue(bits[loc..loc + |src|]) <= CountTrue(bits)
    ensures CountTrue(bits[..loc] + src + bits[loc + |src|..])
         == CountTrue(bits) - CountTrue(bits[loc..loc + |src|]) + CountTrue(src)
  {
    var end := loc + |src|;
    var pre, mid, post := bits[..loc], bits[loc..end], bits[end..];
    SplitThree(bits, loc, end);
    CountTrueAppend3(pre, mid, post);
    CountTrueAppend3(pre, src, post);
  }

  lemma SplitThree<T>(s: seq<T>, i: nat, j: nat)
    requires i <= j <= |s|
    ensures s == s[..i] + s[i..j] + s[j..]
  {
  }

  lemma CountTrueAppend3(x: seq<bool>, y: seq<bool>, z: seq<bool>)
    ensures CountTrue(x + y + z) == CountTrue(x) + CountTrue(y) + CountTrue(z)
  {
    CountTrueAppend(x + y, z);
    CountTrueAppend(x, y);
  }

  /** Every bit of the half-open range `[loc, loc + len)` becomes `v`. */
  function FillRange(a: BitArray, loc: nat, len: nat, v: bool): (r: Result<BitArray>)
    requires Valid(a)
    ensures r.Success? <==> loc + len <= Length(a)
    ensures r.Success? ==> Valid(r.value) && Length(r.value) == Length(a)
    ensures r.Success? ==> forall j | 0 <= j < Length(a) ::
      r.value.bits[j] == if loc <= j < loc + len then v else a.bits[j]
  {
    if loc + len <= Length(a) then Success(Splice(a, loc, seq(len, _ => v)))
    else Failure(InvalidArgument)
  }

  /** `setRange:`: sets exactly the bits of the range; the count grows by the
      number of bits of the range that were clear. */
  function SetRange(a: BitArray, loc: nat, len: nat): (r: Result<BitArray>)
    requires Valid(a)
    ensures r.Success? <==> loc + len <= Length(a)
    ensures r.Success? ==> Valid(r.value) && Length(r.value) == Length(a)
    ensures r.Success? ==> forall j | 0 <= j < Length(a) ::
      r.value.bits[j] == (loc <= j < loc + len || a.bits[j])
    ensures r.Success? ==> r.value.count == a.count + len - CountTrue(a.bits[loc..loc + len])
  {
    var r := FillRange(a, loc, len, true);
    if r.Success? then
      RangeCount(a, r.value, loc, len, true);
      r
    else r
  }

  /** `clearRange:`: clears exactly the bits of the range; the count drops by
      the number of bits of the range that were set. */
  function ClearRange(a: BitArray, loc: nat, len: nat): (r: Result<BitArray>)
    requires Valid(a)
    ensures r.Success? <==> loc + len <= Length(a)
    ensures r.Success? ==> Valid(r.value) && Length(r.value) == Length(a)
    ensures r.Success? ==> forall j | 0 <= j < Length(a) ::
      r.value.bits[j] == (!(loc <= j < loc + len) && a.bits[j])
    ensures r.Success? ==> r.value.count == a.count - CountTrue(a.bits[loc..loc + len])
  {
    var r := FillRange(a, loc, len, false);
    if r.Success? then
      RangeCount(a, r.value, loc, len, false);
      r
    else r
  }

  /** The count after filling a range, in terms of the range's old bits. */
  lemma RangeCount(a: BitArray, b: BitArray, loc: nat, len: nat, v: bool)
    requires Valid(a) && Valid(b) && loc + len <= Length(a) == Length(b)
    requires forall j | 0 <= j < Length(a) :: b.bits[j] == if loc <= j < loc + len then v else a.bits[j]
    ensures b.count + CountTrue(a.bits[loc..loc + len]) == a.count + (if v then len else 0)
  {
    var end := loc + len;
    assert a.bits == a.bits[..loc] + a.bits[loc..end] + a.bits[end..];
    assert b.bits == a.bits[..loc] + seq(len, _ => v) + a.bits[end..];
    CountTrueAppend(a.bits[..loc] + a.bits[loc..end], a.bits[end..]);
    CountTrueAppend(a.bits[..loc], a.bits[loc..end]);
    CountTrueAppend(a.bits[..loc] + seq(len, _ => v), a.bits[end..]);
    CountTrueAppend(a.bits[..loc], seq(len, _ => v));
    CountTrueConstant(len, v);
  }

  /** `setAll`. */
  function SetAll(a: BitArray): (r: BitArray)
    ensures Valid(r) && Length(r) == Length(a) && r.count == Length(a)
    ensures forall j | 0 <= j < Length(a) :: r.bits[j]
  {
    CountTrueConstant(Length(a), true);
    BitArray(seq(Length(a), _ => true), Length(a))
  }

  /** `clearAll`. */
  function ClearAll(a: BitArray): (r: BitArray)
    ensures Valid(r) && Length(r) == Length(a) && r.count == 0
    ensures forall j | 0 <= j < Length(a) :: !r.bits[j]
  {
    Make(Length(a))
  }

  /** On a range that was clear, setting it and then clearing it gives back
      the original array. */
  lemma SetThenClearRange(a: BitArray, loc: nat, len: nat)
    requires Valid(a) && loc + len <= Length(a)
    requires forall j | loc <= j < loc + len :: !a.bits[j]
    ensures SetRange(a, loc, len).Success?
    ensures ClearRange(SetRange(a, loc, len).value, loc, len) == Success(a)
  {
    var s := SetRange(a, loc, len).value;
    var c := ClearRange(s, loc, len).value;
    assert c.bits == a.bits;
  }

  /** Whatever the range held, clearing it after setting it is clearing it:
      the earlier set leaves no trace. */
  lemma SetThenClearRangeAny(a: BitArray, loc: nat, len: nat)
    requires Valid(a) && loc + len <= Length(a)
    ensures SetRange(a, loc, len).Success?
    ensures ClearRange(SetRange(a, loc, len).value, loc, len) == ClearRange(a, loc, len)
  {
    var c := ClearRange(SetRange(a, loc, len).value, loc, len).value;
    var d := ClearRange(a, loc, len).value;
    assert c.bits == d.bits;
  }

  // ---------------------------------------------------------------------------
  // Searches

  /** The first index at or after `from` holding `v`, if any. */
  function FindFirst(bits: seq<bool>, v: bool, from: nat): (r: Option<nat>)
    ensures r.Some? ==> from <= r.value < |bits| && bits[r.value] == v
    ensures r.Some? ==> forall j | from <= j < r.value :: bits[j] != v
    ensures r.None? ==> forall j | from <= j < |bits| :: bits[j] != v
    decreases |bits| - from
  {
    if from >= |bits| then None
    else if bits[from] == v then Some(from)
    else FindFirst(bits, v, from + 1)
  }

  /** The last index below `upto` holding `v`, if any. */
  function FindLast(bits: seq<bool>, v: bool, upto: nat): (r: Option<nat>)
    requires upto <= |bits|
    ensures r.Some? ==> r.value < upto && bits[r.value] == v
    ensures r.Some? ==> forall j | r.value < j < upto :: bits[j] != v
    ensures r.None? ==> forall j | 0 <= j < upto :: bits[j] != v
    decreases upto
  {
    if upto == 0 then None
    else if bits[upto - 1] == v then Some(upto - 1)
    else FindLast(bits, v, upto - 1)
  }

  /** `firstSetBit`; `None` is `NSNotFound`, which happens exactly when the count is zero. */
  function FirstSetBit(a: BitArray): (r: Option<nat>)
    requires Valid(a)
    ensures r.Some? ==> r.value < Length(a) && a.bits[r.value]
    ensures r.Some? ==> forall j | 0 <= j < r.value :: !a.bits[j]
    ensures r.None? <==> a.count == 0
  {
    CountTrueExtremes(a.bits);
    FindFirst(a.bits, true, 0)
  }

  /** `lastSetBit`. */
  function LastSetBit(a: BitArray): (r: Option<nat>)
    requires Valid(a)
    ensures r.Some? ==> r.value < Length(a) && a.bits[r.value]
    ensures r.Some? ==> forall j | r.value < j < Length(a) :: !a.bits[j]
    ensures r.None? <==> a.count == 0
  {
    CountTrueExtremes(a.bits);
    FindLast(a.bits, true, Length(a))
  }

  /** `firstClearBit`; `None` exactly when every bit is set. */
  function FirstClearBit(a: BitArray): (r: Option<nat>)
    requires Valid(a)
    ensures r.Some? ==> r.value < Length(a) && !a.bits[r.value]
    ensures r.Some? ==> forall j | 0 <= j < r.value :: a.bits[j]
    ensures r.None? <==> a.count == Length(a)
  {
    CountTrueExtremes(a.bits);
    FindFirst(a.bits, false, 0)
  }

  /** `lastClearBit`. */
  function LastClearBit(a: BitArray): (r: Option<nat>)
    requires Valid(a)
    ensures r.Some? ==> r.value < Length(a) && !a.bits[r.value]
    ensures r.Some? ==> forall j | r.value < j < Length(a) :: a.bits[j]
    ensures r.None? <==> a.count == Length(a)
  {
    CountTrueExtremes(a.bits);
    FindLast(a.bits, false, Length(a))
  }

  /** When some bit is set, the first and last set bits bracket every set
      bit; the same holds for clear bits. */
  lemma FirstLastBracket(a: BitArray)
    requires Valid(a)
    ensures a.count > 0 ==>
      (FirstSetBit(a).Some? && LastSetBit(a).Some? && FirstSetBit(a).value <= LastSetBit(a).value)
    ensures a.count < Length(a) ==>
      (FirstClearBit(a).Some? && LastClearBit(a).Some? && FirstClearBit(a).value <= LastClearBit(a).value)
  {
  }

  // ---------------------------------------------------------------------------
  // Enumeration

  /** `nextAfter:`: the first set bit strictly after `prev`. */
  function NextAfter(a: BitArray, prev: nat): (r: Option<nat>)
    ensures r.Some? ==> prev < r.value < Length(a) && a.bits[r.value]
    ensures r.Some? ==> forall j | prev < j < r.value :: !a.bits[j]
    ensures r.None? ==> forall j | prev < j < Length(a) :: !a.bits[j]
  {
    FindFirst(a.bits, true, prev + 1)
  }

  predicate Increasing(s: seq<nat>) {
    forall i, j | 0 <= i < j < |s| :: s[i] < s[j]
  }

  /** The indices visited from the set bit `k` on by chaining `nextAfter:`:
      every set bit from `k` onwards, in ascending order, once each. */
  function EnumerateFrom(a: BitArray, k: nat): (r: seq<nat>)
    requires k < Length(a) && a.bits[k]
    ensures |r| > 0 && r[0] == k && Increasing(r)
    ensures forall i :: i in r <==> k <= i < Length(a) && a.bits[i]
    ensures |r| == CountTrue(a.bits[k..])
    decreases Length(a) - k
  {
    match NextAfter(a, k)
    case None =>
      CountSuffix(a.bits, k, Length(a));
      [k]
    case Some(n) =>
      var rest := EnumerateFrom(a, n);
      CountSuffix(a.bits, k, n);
      PrependIncreasing(k, rest);
      [k] + rest
  }

  /** An index below the head of an increasing sequence extends it. */
  lemma PrependIncreasing(k: nat, rest: seq<nat>)
    requires |rest| > 0 && k < rest[0] && Increasing(rest)
    ensures Increasing([k] + rest)
    ensures forall i :: i in [k] + rest <==> i == k || i in rest
  {
    var s := [k] + rest;
    forall i, j | 0 <= i < j < |s|
      ensures s[i] < s[j]
    {
      if i > 0 {
        assert s[i] == rest[i - 1] && s[j] == rest[j - 1];
      } else if j > 1 {
        assert s[j] == rest[j - 1];
      }
    }
  }

  /** A set bit at `k` followed by clear bits up to `n` contributes one to the
      count of the suffix. */
  lemma CountSuffix(bits: seq<bool>, k: nat, n: nat)
    requires k < n <= |bits| && bits[k]
    requires forall j | k < j < n :: !bits[j]
    ensures CountTrue(bits[k..]) == 1 + CountTrue(bits[n..])
  {
    assert bits[k..] == [bits[k]] + bits[k + 1..n] + bits[n..];
    CountTrueAppend([bits[k]] + bits[k + 1..n], bits[n..]);
    CountTrueAppend([bits[k]], bits[k + 1..n]);
    CountTrueExtremes(bits[k + 1..n]);
    assert CountTrue([bits[k]]) == 1 by {
      assert [bits[k]][..0] == [];
    }
  }

  /** Clear bits before `k` add nothing to the count. */
  lemma CountAfterClearPrefix(bits: seq<bool>, k: nat)
    requires k <= |bits| && forall j | 0 <= j < k :: !bits[j]
    ensures CountTrue(bits[k..]) == CountTrue(bits)
  {
    SplitThree(bits, 0, k);
    assert bits[..0] + bits[0..k] == bits[..k];
    CountTrueAppend(bits[..k], bits[k..]);
    CountTrueExtremes(bits[..k]);
  }

  /** `enumerate:` driven by `firstSetBit` and `nextAfter:`: the callback sees
      every set bit once, in ascending order, `count` times in all. */
  function Enumerate(a: BitArray): (r: seq<nat>)
    requires Valid(a)
    ensures Increasing(r)
    ensures forall i: nat :: i in r <==> i < Length(a) && a.bits[i]
    ensures |r| == a.count
  {
    match FirstSetBit(a)
    case None =>
      CountTrueExtremes(a.bits);
      []
    case Some(k) =>
      CountAfterClearPrefix(a.bits, k);
      EnumerateFrom(a, k)
  }

  // ---------------------------------------------------------------------------
  // Bit-range I/O

  /** `readBits:range:` with a bit range. */
  function ReadBits(a: BitArray, loc: nat, len: nat): (r: Result<seq<bool>>)
    ensures r.Success? <==> loc + len <= Length(a)
    ensures r.Success? ==> |r.value| == len
    ensures r.Success? ==> forall i | 0 <= i < len :: r.value[i] == a.bits[loc + i]
  {
    if loc + len <= Length(a) then Success(a.bits[loc..loc + len]) else Failure(InvalidArgument)
  }

  /** `writeBits:range:` with a bit range of `|src|` bits at `loc`. */
  function WriteBits(a: BitArray, src: seq<bool>, loc: nat): (r: Result<BitArray>)
    requires Valid(a)
    ensures r.Success? <==> loc + |src| <= Length(a)
    ensures r.Success? ==> Valid(r.value) && Length(r.value) == Length(a)
    ensures r.Success? ==> forall j | 0 <= j < Length(a) && !(loc <= j < loc + |src|) :: r.value.bits[j] == a.bits[j]
  {
    if loc + |src| <= Length(a) then Success(Splice(a, loc, src)) else Failure(InvalidArgument)
  }

  /** Reading back a written bit range returns what was written. */
  lemma WriteThenReadBits(a: BitArray, src: seq<bool>, loc: nat)
    requires Valid(a) && loc + |src| <= Length(a)
    ensures WriteBits(a, src, loc).Success?
    ensures ReadBits(WriteBits(a, src, loc).value, loc, |src|) == Success(src)
  {
    var w := WriteBits(a, src, loc).value;
    var r := ReadBits(w, loc, |src|).value;
    assert forall i | 0 <= i < |src| :: r[i] == w.bits[loc + i] == src[i];
  }

  // ---------------------------------------------------------------------------
  // Construction from a sub-range, counts, equality

  /** `initWithBitArray:range:`: a copy of the bits `[loc, loc + len)` of
      `other`; the range must fit within `other`. */
  function FromRange(other: BitArray, loc: nat, len: nat): (r: Result<BitArray>)
    ensures r.Success? <==> loc + len <= Length(other)
    ensures r.Success? ==> Valid(r.value) && Length(r.value) == len
    ensures r.Success? ==> forall i | 0 <= i < len :: r.value.bits[i] == other.bits[loc + i]
  {
    if loc + len <= Length(other) then
      var bits := other.bits[loc..loc + len];
      Success(BitArray(bits, CountTrue(bits)))
    else Failure(InvalidArgument)
  }

  /** `checkCount`: does the cached count agree with a full rescan? It holds
      exactly when the count is the number of positions whose bit is set. */
  function CheckCount(a: BitArray): (ok: bool)
    ensures ok <==> a.count == |TrueIndices(a.bits)|
  {
    CountTrueIsCardinality(a.bits);
    a.count == CountTrue(a.bits)
  }

  /** `refreshCount`: rescans and stores the count; the bits are untouched, and
      on an array whose count is consistent it changes nothing. */
  function RefreshCount(a: BitArray): (r: BitArray)
    ensures Valid(r) && r.bits == a.bits
    ensures Valid(a) ==> r == a
  {
    BitArray(a.bits, CountTrue(a.bits))
  }

  /** Every mutator keeps `checkCount` true. */
  lemma MutatorsKeepCount(a: BitArray, index: nat, loc: nat, len: nat, src: seq<bool>)
    requires Valid(a)
    ensures SetBit(a, index).Success? ==> CheckCount(SetBit(a, index).value)
    ensures ClearBit(a, index).Success? ==> CheckCount(ClearBit(a, index).value)
    ensures SetRange(a, loc, len).Success? ==> CheckCount(SetRange(a, loc, len).value)
    ensures ClearRange(a, loc, len).Success? ==> CheckCount(ClearRange(a, loc, len).value)
    ensures WriteBits(a, src, loc).Success? ==> CheckCount(WriteBits(a, src, loc).value)
    ensures CheckCount(SetAll(a)) && CheckCount(ClearAll(a))
  {
  }

  /** `isEqualToBitArray:`: equal lengths and equal live bits. */
  function IsEqual(a: BitArray, b: BitArray): (eq: bool)
    requires Valid(a) && Valid(b)
    ensures eq <==> a == b
  {
    var eq := Length(a) == Length(b) && forall i | 0 <= i < Length(a) :: a.bits[i] == b.bits[i];
    if eq then
      assert a.bits == b.bits;
      eq
    else eq
  }
}
