/** The byte view of `BABitArray`: `bufferLength` bytes packing the live bits,
    read and written with BYTE ranges by `readBytes:range:` and
    `writeBytes:range:` (BABitArray.h), as opposed to the bit ranges of
    `readBits:range:` and `writeBits:range:`.
    Bit `i` is taken to live in byte `i / 8` under the mask `1 << (i % 8)`;
    pad bits past `length` in the last byte are always zero. */
module BitArrayBytes {
  import opened Wrappers
  import opened IntMath
  import opened BitArrays

  const Masks: seq<Byte> := [1, 2, 4, 8, 16, 32, 64, 128]

  /** Bit `j` of a byte. */
  predicate ByteBit(b: Byte, j: nat)
    requires j < 8
  {
    b & Masks[j] != 0
  }

  /** Two bytes with the same eight bits are the same byte. */
  lemma ByteExtensionality(x: Byte, y: Byte)
    requires forall j | 0 <= j < 8 :: ByteBit(x, j) == ByteBit(y, j)
    ensures x == y
  {
    assert ByteBit(x, 0) == ByteBit(y, 0) && ByteBit(x, 1) == ByteBit(y, 1);
    assert ByteBit(x, 2) == ByteBit(y, 2) && ByteBit(x, 3) == ByteBit(y, 3);
    assert ByteBit(x, 4) == ByteBit(y, 4) && ByteBit(x, 5) == ByteBit(y, 5);
    assert ByteBit(x, 6) == ByteBit(y, 6) && ByteBit(x, 7) == ByteBit(y, 7);
  }

  /** Bit `i` of the buffer, zero past the live bits. */
  function BufferBit(bits: seq<bool>, i: nat): bool {
    i < |bits| && bits[i]
  }

  function MaskIf(b: bool, j: nat): Byte
    requires j < 8
  {
    if b then Masks[j] else 0
  }

  /** Byte `k` of the packed buffer. */
  function PackedByte(bits: seq<bool>, k: nat): (b: Byte)
    ensures forall j | 0 <= j < 8 :: ByteBit(b, j) == BufferBit(bits, 8 * k + j)
  {
    var b0, b1, b2, b3 := BufferBit(bits, 8 * k), BufferBit(bits, 8 * k + 1), BufferBit(bits, 8 * k + 2), BufferBit(bits, 8 * k + 3);
    var b4, b5, b6, b7 := BufferBit(bits, 8 * k + 4), BufferBit(bits, 8 * k + 5), BufferBit(bits, 8 * k + 6), BufferBit(bits, 8 * k + 7);
    var b := MaskIf(b0, 0) | MaskIf(b1, 1) | MaskIf(b2, 2) | MaskIf(b3, 3)
           | MaskIf(b4, 4) | MaskIf(b5, 5) | MaskIf(b6, 6) | MaskIf(b7, 7);
    assert ByteBit(b, 0) == b0 && ByteBit(b, 1) == b1 && ByteBit(b, 2) == b2 && ByteBit(b, 3) == b3;
    assert ByteBit(b, 4) == b4 && ByteBit(b, 5) == b5 && ByteBit(b, 6) == b6 && ByteBit(b, 7) == b7;
    b
  }

  /** `readBytes:range:`: copies out the bytes `[loc, loc + len)` of the buffer;
      the byte range must lie within `bufferLength`. */
  function ReadBytes(a: BitArray, loc: nat, len: nat): (r: Result<seq<Byte>>)
    ensures r.Success? <==> loc + len <= BufferLength(a)
    ensures r.Success? ==> |r.value| == len
    ensures r.Success? ==> forall k, j | 0 <= k < len && 0 <= j < 8 ::
      ByteBit(r.value[k], j) == BufferBit(a.bits, 8 * (loc + k) + j)
  {
    if loc + len <= BufferLength(a) then
      var bytes := seq(len, k requires 0 <= k < len => PackedByte(a.bits, loc + k));
      assert forall k | 0 <= k < len :: bytes[k] == PackedByte(a.bits, loc + k);
      Success(bytes)
    else Failure(InvalidArgument)
  }

  /** `writeBytes:range:`: overwrites the bytes `[loc, loc + |bytes|)` of the
      buffer. Bits of a written byte that fall past `length` are pad bits and
      are dropped. The count is recomputed. */
  function WriteBytes(a: BitArray, bytes: seq<Byte>, loc: nat): (r: Result<BitArray>)
    ensures r.Success? <==> loc + |bytes| <= BufferLength(a)
    ensures r.Success? ==> Valid(r.value) && Length(r.value) == Length(a)
    ensures r.Success? ==> forall i | 0 <= i < Length(a) ::
      r.value.bits[i] == if loc <= i / 8 < loc + |bytes| then ByteBit(bytes[i / 8 - loc], i % 8) else a.bits[i]
  {
    if loc + |bytes| <= BufferLength(a) then
      var bits := seq(Length(a), i requires 0 <= i < Length(a) =>
        if loc <= i / 8 < loc + |bytes| then ByteBit(bytes[i / 8 - loc], i % 8) else a.bits[i]);
      Success(BitArray(bits, CountTrue(bits)))
    else Failure(InvalidArgument)
  }

  /** Reading back written bytes returns them with their pad bits cleared:
      bit `j` of byte `k` survives exactly when it addresses a live bit. */
  lemma WriteThenReadBytes(a: BitArray, bytes: seq<Byte>, loc: nat)
    requires loc + |bytes| <= BufferLength(a)
    ensures WriteBytes(a, bytes, loc).Success?
    ensures ReadBytes(WriteBytes(a, bytes, loc).value, loc, |bytes|).Success?
    ensures forall k, j | 0 <= k < |bytes| && 0 <= j < 8 ::
      ByteBit(ReadBytes(WriteBytes(a, bytes, loc).value, loc, |bytes|).value[k], j)
        == (8 * (loc + k) + j < Length(a) && ByteBit(bytes[k], j))
  {
    var w := WriteBytes(a, bytes, loc).value;
    forall k, j | 0 <= k < |bytes| && 0 <= j < 8
      ensures BufferBit(w.bits, 8 * (loc + k) + j) == (8 * (loc + k) + j < Length(a) && ByteBit(bytes[k], j))
    {
      var i := 8 * (loc + k) + j;
      Arith.DivModUnique(i, 8, loc + k, j);
      if i < Length(a) {
        assert w.bits[i] == ByteBit(bytes[k], j);
      }
    }
  }

  /** Whole bytes inside the live bits round-trip exactly. */
  lemma WriteThenReadWholeBytes(a: BitArray, bytes: seq<Byte>, loc: nat)
    requires 8 * (loc + |bytes|) <= Length(a)
    ensures loc + |bytes| <= BufferLength(a)
    ensures ReadBytes(WriteBytes(a, bytes, loc).value, loc, |bytes|) == Success(bytes)
  {
    WholeBytesFit(loc + |bytes|, Length(a));
    WriteThenReadBytes(a, bytes, loc);
    var r := ReadBytes(WriteBytes(a, bytes, loc).value, loc, |bytes|).value;
    forall k | 0 <= k < |bytes|
      ensures r[k] == bytes[k]
    {
      SameByte(r[k], bytes[k], 8 * (loc + k), Length(a));
    }
    assert r == bytes;
  }

  /** A read-back byte whose eight bits are all live equals the written byte. */
  lemma SameByte(read: Byte, written: Byte, first: nat, length: nat)
    requires first + 8 <= length
    requires forall j | 0 <= j < 8 :: ByteBit(read, j) == (first + j < length && ByteBit(written, j))
    ensures read == written
  {
    ByteExtensionality(read, written);
  }

  lemma WholeBytesFit(n: nat, length: nat)
    requires 8 * n <= length
    ensures n <= (length + 7) / 8
  {
    Arith.DivModUnique(8 * n + 7, 8, n, 7);
    Arith.DivMonotone(8 * n + 7, length + 7, 8);
  }

  /** Reading a byte range sees exactly the bits that a bit-range read sees. */
  lemma ReadBytesAgreesWithReadBits(a: BitArray, loc: nat, len: nat)
    requires 8 * (loc + len) <= Length(a)
    ensures ReadBytes(a, loc, len).Success? && ReadBits(a, 8 * loc, 8 * len).Success?
    ensures forall k, j | 0 <= k < len && 0 <= j < 8 ::
      ByteBit(ReadBytes(a, loc, len).value[k], j) == ReadBits(a, 8 * loc, 8 * len).value[8 * k + j]
  {
  }
}
