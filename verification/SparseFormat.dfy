/** The Android sparse image format: its byte encoding and its meaning (android/android_sparse.c). */
module SparseFormat {
  import opened Base

  const MAGIC: uint32 := 0xed26ff3a
  const RAW: uint16 := 0xCAC1
  const FILL: uint16 := 0xCAC2
  const DONT_CARE: uint16 := 0xCAC3
  const CRC32: uint16 := 0xCAC4

  const HEADER_SIZE := 28

  datatype Header = Header(blkSz: uint32, totalBlks: uint32, totalChunks: uint32)

  function HeaderBytes(h: Header): (r: seq<byte>)
    ensures |r| == 28
  {
    LeBytes(0xed26ff3a, 4) + LeBytes(1, 2) + LeBytes(0, 2) + LeBytes(28, 2) + LeBytes(12, 2)
    + LeBytes(h.blkSz, 4) + LeBytes(h.totalBlks, 4) + LeBytes(h.totalChunks, 4) + LeBytes(0, 4)
  }

  datatype ChunkHeader = ChunkHeader(kind: uint16, chunkSz: uint32, totalSz: uint32)

  function ChunkHeaderBytes(c: ChunkHeader): (r: seq<byte>)
    ensures |r| == 12
  {
    LeBytes(c.kind, 2) + LeBytes(0, 2) + LeBytes(c.chunkSz, 4) + LeBytes(c.totalSz, 4)
  }

  /** The header that detection accepts: magic, version 1.0 and the header size are checked. */
  function ReadHeader(file: seq<byte>): Option<Header> {
    if |file| < 28 || Field(file, 0, 4) != MAGIC || Field(file, 4, 2) != 1 || Field(file, 6, 2) != 0
       || Field(file, 8, 2) != 28 then None
    else
      FieldBound(file, 12, 4);
      FieldBound(file, 16, 4);
      FieldBound(file, 20, 4);
      Some(Header(Field(file, 12, 4), Field(file, 16, 4), Field(file, 20, 4)))
  }

  function ReadChunkHeader(file: seq<byte>, off: nat): Option<ChunkHeader> {
    if off + 12 > |file| then None
    else
      FieldBound(file, off, 2);
      FieldBound(file, off + 4, 4);
      FieldBound(file, off + 8, 4);
      Some(ChunkHeader(Field(file, off, 2), Field(file, off + 4, 4), Field(file, off + 8, 4)))
  }

  lemma {:induction false} HeaderRoundTrip(h: Header, rest: seq<byte>)
    ensures ReadHeader(HeaderBytes(h) + rest) == Some(h)
  {
    hide LeBytes, LeValue, Field;
    var f := HeaderBytes(h) + rest;
    assert f[0..4] == LeBytes(0xed26ff3a, 4) && f[4..6] == LeBytes(1, 2) && f[6..8] == LeBytes(0, 2);
    assert f[8..10] == LeBytes(28, 2) && f[12..16] == LeBytes(h.blkSz, 4);
    assert f[16..20] == LeBytes(h.totalBlks, 4) && f[20..24] == LeBytes(h.totalChunks, 4);
    FieldOfBytes(f, 0, 0xed26ff3a, 4);
    FieldOfBytes(f, 4, 1, 2);
    FieldOfBytes(f, 6, 0, 2);
    FieldOfBytes(f, 8, 28, 2);
    FieldOfBytes(f, 12, h.blkSz, 4);
    FieldOfBytes(f, 16, h.totalBlks, 4);
    FieldOfBytes(f, 20, h.totalChunks, 4);
  }

  lemma {:induction false} ChunkHeaderRoundTrip(file: seq<byte>, off: nat, c: ChunkHeader)
    requires off + 12 <= |file| && file[off..off + 12] == ChunkHeaderBytes(c)
    ensures ReadChunkHeader(file, off) == Some(c)
  {
    hide LeBytes, LeValue, Field;
    var b := file[off..off + 12];
    SubSlice(file, off, 12, 0, 2);
    SubSlice(file, off, 12, 4, 8);
    SubSlice(file, off, 12, 8, 12);
    assert b[0..2] == LeBytes(c.kind, 2) && b[4..8] == LeBytes(c.chunkSz, 4) && b[8..12] == LeBytes(c.totalSz, 4);
    FieldOfBytes(file, off, c.kind, 2);
    FieldOfBytes(file, off + 4, c.chunkSz, 4);
    FieldOfBytes(file, off + 8, c.totalSz, 4);
  }

  /** `n` bytes of a repeated little-endian fill word; a last partial word stays zero. */
  function FillBytes(value: uint32, n: nat): (r: seq<byte>)
    ensures |r| == n
    decreases n
  {
    if n < 4 then Zeros(n) else LeBytes(value, 4) + FillBytes(value, n - 4)
  }

  lemma {:induction false} FillConcat(value: uint32, a: nat, b: nat)
    requires a % 4 == 0
    ensures FillBytes(value, a) + FillBytes(value, b) == FillBytes(value, a + b)
    decreases a
  {
    hide FillBytes, LeBytes;
    if a == 0 {
      assert FillBytes(value, 0) + FillBytes(value, b) == FillBytes(value, b);
    } else {
      FillConcat(value, a - 4, b);
      FillStep(value, a);
      FillStep(value, a + b);
      Regroup(LeBytes(value, 4), FillBytes(value, a - 4), FillBytes(value, b));
    }
  }

  lemma {:induction false} FillStep(value: uint32, n: nat)
    requires n >= 4
    ensures FillBytes(value, n) == LeBytes(value, 4) + FillBytes(value, n - 4)
  {
    hide LeBytes, Zeros;
  }

  /** The same, with what a last partial word holds. */
  function FillWith(value: uint32, n: nat, tail: seq<byte>): (r: seq<byte>)
    requires |tail| == n % 4
    ensures |r| == n
    decreases n
  {
    if n < 4 then tail else LeBytes(value, 4) + FillWith(value, n - 4, tail)
  }

  lemma {:induction false} FillWhole(value: uint32, n: nat)
    requires n % 4 == 0
    ensures FillWith(value, n, []) == FillBytes(value, n)
    decreases n
  {
    if n >= 4 {
      FillWhole(value, n - 4);
    }
  }

  /** `count` copies of a block. */
  function Repeat(block: seq<byte>, count: nat): (r: seq<byte>)
    decreases count
  {
    if count == 0 then [] else Repeat(block, count - 1) + block
  }

  lemma {:induction false} RepeatFill(value: uint32, size: nat, count: nat)
    requires size % 4 == 0
    ensures Repeat(FillBytes(value, size), count) == FillBytes(value, count * size)
    decreases count
  {
    if count > 0 {
      RepeatFill(value, size, count - 1);
      Distribute(count - 1, 1, size);
      MultipleOfFour(count - 1, size);
      FillConcat(value, (count - 1) * size, size);
    } else {
      assert 0 * size == 0;
      assert FillBytes(value, 0) == [];
    }
  }

  lemma {:induction false} MultipleOfFour(count: nat, size: nat)
    requires size % 4 == 0
    ensures count * size >= 0 && (count * size) % 4 == 0
  {
    var k := size / 4;
    assert size == 4 * k;
    assert count * size == 4 * (count * k) by {
      assert count * (4 * k) == 4 * (count * k);
    }
    MulMonotone(0, count, size);
  }

  lemma {:induction false} RepeatZeros(size: nat, count: nat)
    ensures count * size >= 0 && Repeat(Zeros(size), count) == Zeros(count * size)
    decreases count
  {
    MulMonotone(0, count, size);
    if count > 0 {
      RepeatZeros(size, count - 1);
      Distribute(count - 1, 1, size);
    } else {
      assert 0 * size == 0;
    }
  }

  /** An unsigned 32-bit product. */
  function Mul32(a: uint32, b: uint32): uint32 {
    (a * b) % 0x1_0000_0000
  }

  /** The size of a number of blocks. */
  function Blocks(count: nat, size: nat): (r: nat)
    ensures r == count * size
  {
    MulMonotone(0, count, size);
    count * size
  }

  /** The size of the data of a chunk survives also where that of the whole chunk wraps around. */
  lemma {:induction false} RawSize(totalSz: uint32, n: nat)
    requires totalSz == (12 + n) % 0x1_0000_0000
    ensures (totalSz + 0x1_0000_0000 - 12) % 0x1_0000_0000 == n % 0x1_0000_0000 <= n
  {
  }

  /** The output is the full one, except that trailing zeros may be missing. */
  ghost predicate UpToZeros(out: seq<byte>, full: seq<byte>) {
    |out| <= |full| && full == out + Zeros(|full| - |out|)
  }

  lemma {:induction false} WriteCompletes(out: seq<byte>, full: seq<byte>, data: seq<byte>)
    requires UpToZeros(out, full)
    ensures data != [] ==> WriteAt(out, |full|, data) == full + data
    ensures UpToZeros(WriteAt(out, |full|, data), full + data)
    ensures out == full ==> WriteAt(out, |full|, data) == full + data
  {
    if data == [] {
      assert full + data == full;
    } else {
      assert WriteAt(out, |full|, data) == full + data;
    }
  }
}
