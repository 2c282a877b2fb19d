/** The two interpreters of a sparse image: unpacking to a file and hashing (android/android_sparse.c, dd.c). */
module SparseReader {
  import opened Base
  import opened SparseFormat
  import opened BlockHash
  import Sha

  /**
   * What stays in memory from chunk to chunk: the fill word read last and the end of the block buffer
   * behind its last whole word. At first both are whatever was there.
   */
  datatype Memory = Memory(fill: uint32, tail: seq<byte>)

  /** What lies in a fresh copy buffer: the byte at an index when a position of the file is read into it. */
  type Stale = (nat, nat) -> byte

  function Available(file: seq<byte>, pos: nat, n: nat): (k: nat)
    ensures k <= n && (k > 0 ==> pos + k <= |file|)
    ensures pos + n <= |file| ==> k == n
  {
    if pos + n <= |file| then n else if pos <= |file| then |file| - pos else 0
  }

  /** Reading a fill word; at the end of the file the bytes that are missing stay as they were. */
  function FillWord(file: seq<byte>, pos: nat, before: uint32): uint32 {
    var k := Available(file, pos, 4);
    var b := (if k == 0 then [] else file[pos..pos + k]) + LeBytes(before, 4)[k..];
    LeBytesOfLeValue(b);
    Pow256Values();
    LeValue(b)
  }

  /** A chunk that both interpreters refuse. */
  predicate Malformed(c: ChunkHeader) {
    (c.kind != RAW && c.kind != DONT_CARE && c.kind != FILL && c.kind != CRC32) || (c.kind == FILL && c.totalSz != 16)
  }

  /** The size of the data of a chunk, from its total size in 32 bits. */
  function DataSize(c: ChunkHeader): uint32 {
    (c.totalSz + 0x1_0000_0000 - 12) % 0x1_0000_0000
  }

  /** The data of a chunk runs past the end of the file. */
  predicate PastEnd(file: seq<byte>, off: nat, c: ChunkHeader) {
    c.kind == RAW && off + 12 + DataSize(c) > |file|
  }

  /** What unpacking writes for the chunk at `off`, or nothing if it fails; sizes are computed in 32 bits. */
  function UnpackChunk(file: seq<byte>, off: nat, c: ChunkHeader, blkSz: uint32, mem: Memory): Option<seq<byte>> {
    if Malformed(c) || PastEnd(file, off, c) then None
    else if c.kind == RAW then Some(file[off + 12..off + 12 + DataSize(c)])
    else if c.kind == DONT_CARE then Some(Zeros(Mul32(c.chunkSz, blkSz)))
    else if c.kind == FILL then Some(FillBytes(FillWord(file, off + 12, mem.fill), Mul32(c.chunkSz, blkSz)))
    else Some([])
  }

  /**
   * What a copy of `size` bytes hands on, in pieces of at most 1 MiB: a short read hands on the whole piece,
   * with what was in the buffer behind the bytes that were read.
   */
  function Copied(file: seq<byte>, pos: nat, size: nat, stale: Stale): seq<byte>
    decreases size
  {
    var m := Piece(size);
    var k := Available(file, pos, m);
    if k == 0 then []
    else Handed(file, pos, m, stale) + Copied(file, pos + k, size - k, stale)
  }

  function Piece(size: nat): (m: nat)
    ensures m <= size
  {
    if size < 0x10_0000 then size else 0x10_0000
  }

  /** One piece, with what was in the buffer behind the bytes that were read. */
  function Handed(file: seq<byte>, pos: nat, m: nat, stale: Stale): seq<byte>
    requires Available(file, pos, m) > 0
  {
    var k := Available(file, pos, m);
    file[pos..pos + k] + Garbage(stale, pos, k, m)
  }

  function Garbage(stale: Stale, pos: nat, from: nat, to: nat): seq<byte>
    requires from <= to
  {
    seq(to - from, i requires 0 <= i < to - from => stale(pos, from + i))
  }

  /** A number of blocks, copied one by one. */
  function CopiedBlocks(file: seq<byte>, pos: nat, size: nat, count: nat, stale: Stale): seq<byte>
    decreases count
  {
    if count == 0 then []
    else CopiedBlocks(file, pos, size, count - 1, stale) + Copied(file, pos + Blocks(count - 1, size), size, stale)
  }

  function TailOf(mem: Memory, blkSz: uint32): (r: seq<byte>)
    ensures |r| == blkSz % 4
  {
    if |mem.tail| == blkSz % 4 then mem.tail else Zeros(blkSz % 4)
  }

  /**
   * What hashing feeds for the chunk at `off`, block by block. The results of reads are not looked at, so
   * data that is missing is no failure.
   */
  function HashChunk(file: seq<byte>, off: nat, c: ChunkHeader, blkSz: uint32, mem: Memory, stale: Stale)
    : Option<seq<byte>>
  {
    if Malformed(c) then None
    else if c.kind == RAW then Some(CopiedBlocks(file, off + 12, blkSz, c.chunkSz, stale))
    else if c.kind == DONT_CARE then Some(Repeat(Zeros(blkSz), c.chunkSz))
    else if c.kind == FILL then
      Some(Repeat(FillWith(FillWord(file, off + 12, mem.fill), blkSz, TailOf(mem, blkSz)), c.chunkSz))
    else Some([])
  }

  function NextMemory(file: seq<byte>, off: nat, c: ChunkHeader, blkSz: uint32, mem: Memory): Memory {
    if c.kind == FILL then mem.(fill := FillWord(file, off + 12, mem.fill))
    else if c.kind == DONT_CARE then mem.(tail := Zeros(blkSz % 4))
    else mem
  }

  /** The meaning of a chunk: what it contributes to the output. */
  type Meaning = (seq<byte>, nat, ChunkHeader, uint32, Memory) -> Option<seq<byte>>

  function Hashing(stale: Stale): Meaning {
    (file: seq<byte>, off: nat, c: ChunkHeader, blkSz: uint32, mem: Memory) =>
      HashChunk(file, off, c, blkSz, mem, stale)
  }

  /** The output of `n` chunks from offset `off` under an interpretation, up to the first chunk that fails. */
  function Interpret(meaning: Meaning, file: seq<byte>, off: nat, n: nat, blkSz: uint32, mem: Memory): (bool, seq<byte>)
    decreases n
  {
    if n == 0 then (true, []) else
    var c := ReadChunkHeader(file, off);
    if c.None? then (false, []) else
    var data := meaning(file, off, c.value, blkSz, mem);
    if data.None? then (false, []) else
    var (ok, rest) :=
      Interpret(meaning, file, off + c.value.totalSz, n - 1, blkSz, NextMemory(file, off, c.value, blkSz, mem));
    (ok, data.value + rest)
  }

  function Unpacked(file: seq<byte>, off: nat, n: nat, blkSz: uint32, mem: Memory): (bool, seq<byte>) {
    Interpret(UnpackChunk, file, off, n, blkSz, mem)
  }

  function Hashed(file: seq<byte>, off: nat, n: nat, blkSz: uint32, mem: Memory, stale: Stale): (bool, seq<byte>) {
    Interpret(Hashing(stale), file, off, n, blkSz, mem)
  }

  // Where the two agree.

  /** A chunk whose two sizes agree and fit 32 bits. */
  predicate Consistent(c: ChunkHeader, blkSz: uint32) {
    && (c.kind == RAW ==> c.totalSz == 12 + c.chunkSz * blkSz)
    && (c.kind == FILL || c.kind == DONT_CARE ==> c.chunkSz * blkSz < 0x1_0000_0000)
  }

  /** The data of a chunk lies inside the file. */
  predicate Inside(file: seq<byte>, off: nat, c: ChunkHeader) {
    !PastEnd(file, off, c) && (c.kind == FILL ==> off + 16 <= |file|)
  }

  /** The first `n` chunks of an image are consistent and complete, as far as their headers can be read. */
  ghost predicate Complete(file: seq<byte>, off: nat, n: nat, blkSz: uint32)
    decreases n
  {
    n > 0 && ReadChunkHeader(file, off).Some? ==>
      var c := ReadChunkHeader(file, off).value;
      Consistent(c, blkSz) && Inside(file, off, c) && Complete(file, off + c.totalSz, n - 1, blkSz)
  }

  lemma {:induction false} SmallProduct(a: uint32, b: uint32)
    requires a * b < 0x1_0000_0000
    ensures Mul32(a, b) == a * b
  {
    MulMonotone(0, a, b);
  }

  lemma {:induction false} WholeWord(file: seq<byte>, pos: nat, before: uint32)
    requires pos + 4 <= |file|
    ensures FillWord(file, pos, before) == Field(file, pos, 4)
  {
    assert file[pos..pos + 4] + LeBytes(before, 4)[4..] == file[pos..pos + 4];
  }

  /** A copy from inside the file is exact. */
  lemma {:induction false} CopiedInside(file: seq<byte>, pos: nat, size: nat, stale: Stale)
    requires pos + size <= |file|
    ensures Copied(file, pos, size, stale) == file[pos..pos + size]
    decreases size
  {
    var m := Piece(size);
    if m > 0 {
      CopiedInside(file, pos + m, size - m, stale);
      assert Garbage(stale, pos, m, m) == [];
      assert file[pos..pos + m] + [] + file[pos + m..pos + size] == file[pos..pos + size];
    }
  }

  lemma {:induction false} CopiedBlocksInside(file: seq<byte>, pos: nat, size: nat, count: nat, stale: Stale)
    requires pos + Blocks(count, size) <= |file|
    ensures CopiedBlocks(file, pos, size, count, stale) == file[pos..pos + Blocks(count, size)]
    decreases count
  {
    hide Copied;
    if count > 0 {
      Distribute(count - 1, 1, size);
      var a := Blocks(count - 1, size);
      CopiedBlocksInside(file, pos, size, count - 1, stale);
      CopiedInside(file, pos + a, size, stale);
      assert file[pos..pos + a] + file[pos + a..pos + a + size] == file[pos..pos + a + size];
    }
  }

  /** Whatever the two programs have in memory, a complete chunk means the same to both. */
  lemma {:induction false} ChunksAgree(
    file: seq<byte>, off: nat, c: ChunkHeader, blkSz: uint32, mem: Memory, mem': Memory, stale: Stale)
    requires Consistent(c, blkSz) && Inside(file, off, c) && blkSz % 4 == 0
    ensures UnpackChunk(file, off, c, blkSz, mem) == HashChunk(file, off, c, blkSz, mem', stale)
  {
    hide FillBytes, FillWith, Repeat, Field, Mul32, Blocks, FillWord, CopiedBlocks;
    var n := Blocks(c.chunkSz, blkSz);
    if c.kind == RAW {
      SmallRemainder(c.totalSz);
      RawSize(c.totalSz, n);
      CopiedBlocksInside(file, off + 12, blkSz, c.chunkSz, stale);
    } else if c.kind == DONT_CARE {
      SmallProduct(c.chunkSz, blkSz);
      RepeatZeros(blkSz, c.chunkSz);
    } else if c.kind == FILL {
      SmallProduct(c.chunkSz, blkSz);
      WholeWord(file, off + 12, mem.fill);
      WholeWord(file, off + 12, mem'.fill);
      FieldBound(file, off + 12, 4);
      FillWhole(Field(file, off + 12, 4), blkSz);
      RepeatFill(Field(file, off + 12, 4), blkSz, c.chunkSz);
    }
  }

  /** On complete images the bytes that are hashed are the bytes that are unpacked, with the same result. */
  lemma {:induction false} InterpretersAgree(
    file: seq<byte>, off: nat, n: nat, blkSz: uint32, mem: Memory, mem': Memory, stale: Stale)
    requires Complete(file, off, n, blkSz) && blkSz % 4 == 0
    ensures Unpacked(file, off, n, blkSz, mem) == Hashed(file, off, n, blkSz, mem', stale)
    decreases n
  {
    hide ReadChunkHeader, UnpackChunk, HashChunk, NextMemory, Inside, Consistent;
    if n > 0 && ReadChunkHeader(file, off).Some? {
      var c := ReadChunkHeader(file, off).value;
      ChunksAgree(file, off, c, blkSz, mem, mem', stale);
      InterpretersAgree(file, off + c.totalSz, n - 1, blkSz, NextMemory(file, off, c, blkSz, mem),
                        NextMemory(file, off, c, blkSz, mem'), stale);
    }
  }

  // Where their results differ, on any image.

  /** All chunk headers can be read and none is malformed. */
  ghost predicate WellHeaded(file: seq<byte>, off: nat, n: nat)
    decreases n
  {
    n > 0 ==>
      var c := ReadChunkHeader(file, off);
      c.Some? && !Malformed(c.value) && WellHeaded(file, off + c.value.totalSz, n - 1)
  }

  /** The first chunk at which unpacking fails has data past the end of the file, and hashing fails at none after it. */
  ghost predicate StopsAtMissingData(file: seq<byte>, off: nat, n: nat)
    decreases n
  {
    && n > 0 && ReadChunkHeader(file, off).Some?
    && var c := ReadChunkHeader(file, off).value;
    && !Malformed(c)
    && if PastEnd(file, off, c) then WellHeaded(file, off + c.totalSz, n - 1)
       else StopsAtMissingData(file, off + c.totalSz, n - 1)
  }

  /** Hashing looks at the headers only. */
  lemma {:induction false} HashedResult(file: seq<byte>, off: nat, n: nat, blkSz: uint32, mem: Memory, stale: Stale)
    ensures Hashed(file, off, n, blkSz, mem, stale).0 <==> WellHeaded(file, off, n)
    decreases n
  {
    hide ReadChunkHeader, NextMemory, Malformed;
    if n > 0 && ReadChunkHeader(file, off).Some? {
      var c := ReadChunkHeader(file, off).value;
      HashFails(file, off, c, blkSz, mem, stale);
      HashedResult(file, off + c.totalSz, n - 1, blkSz, NextMemory(file, off, c, blkSz, mem), stale);
    }
  }

  lemma {:induction false} HashFails(file: seq<byte>, off: nat, c: ChunkHeader, blkSz: uint32, mem: Memory,
                                     stale: Stale)
    ensures HashChunk(file, off, c, blkSz, mem, stale).None? <==> Malformed(c)
    ensures UnpackChunk(file, off, c, blkSz, mem).None? <==> Malformed(c) || PastEnd(file, off, c)
  {
    hide Repeat, FillWith, FillBytes, FillWord, CopiedBlocks, Malformed, PastEnd;
  }

  /**
   * The results of the two programs on the same image differ exactly when unpacking stops at missing data
   * while hashing, which does not notice it, meets no other failure: then it prints a digest.
   */
  lemma {:induction false} ResultsDiffer(
    file: seq<byte>, off: nat, n: nat, blkSz: uint32, mem: Memory, mem': Memory, stale: Stale)
    ensures Unpacked(file, off, n, blkSz, mem).0 != Hashed(file, off, n, blkSz, mem', stale).0
       <==> StopsAtMissingData(file, off, n)
    ensures Unpacked(file, off, n, blkSz, mem).0 ==> Hashed(file, off, n, blkSz, mem', stale).0
    decreases n
  {
    hide ReadChunkHeader, NextMemory, Malformed, PastEnd, UnpackChunk, HashChunk;
    HashedResult(file, off, n, blkSz, mem', stale);
    if n > 0 && ReadChunkHeader(file, off).Some? {
      var c := ReadChunkHeader(file, off).value;
      HashFails(file, off, c, blkSz, mem, stale);
      HashFails(file, off, c, blkSz, mem', stale);
      ResultsDiffer(file, off + c.totalSz, n - 1, blkSz, NextMemory(file, off, c, blkSz, mem),
                    NextMemory(file, off, c, blkSz, mem'), stale);
      HashedResult(file, off + c.totalSz, n - 1, blkSz, NextMemory(file, off, c, blkSz, mem'), stale);
    }
  }

  /** Such an image: one block of data is announced and the file ends behind the chunk's header. */
  function CutImage(): seq<byte> {
    HeaderBytes(Header(4096, 1, 1)) + ChunkHeaderBytes(ChunkHeader(RAW, 1, 4108))
  }

  /** Unpacking the cut image fails; hashing it gives the digest of nothing. */
  lemma {:induction false} CutImageDiffers(mem: Memory, mem': Memory, stale: Stale)
    ensures ReadHeader(CutImage()) == Some(Header(4096, 1, 1))
    ensures !Unpacked(CutImage(), HEADER_SIZE, 1, 4096, mem).0
    ensures Hashed(CutImage(), HEADER_SIZE, 1, 4096, mem', stale) == (true, [])
  {
    hide HeaderBytes, ChunkHeaderBytes, ReadHeader, ReadChunkHeader, NextMemory;
    var f, c := CutImage(), ChunkHeader(RAW, 1, 4108);
    HeaderRoundTrip(Header(4096, 1, 1), ChunkHeaderBytes(c));
    assert f[28..28 + 12] == ChunkHeaderBytes(c);
    ChunkHeaderRoundTrip(f, 28, c);
    NothingCopied(f, 40, 4096, stale);
    InterpretNothing(UnpackChunk, f, 28 + 4108, 4096, NextMemory(f, 28, c, 4096, mem));
    InterpretNothing(Hashing(stale), f, 28 + 4108, 4096, NextMemory(f, 28, c, 4096, mem'));
  }

  lemma {:induction false} NothingCopied(file: seq<byte>, pos: nat, size: nat, stale: Stale)
    requires pos >= |file|
    ensures CopiedBlocks(file, pos, size, 1, stale) == []
  {
    assert CopiedBlocks(file, pos, size, 0, stale) == [];
    assert Blocks(0, size) == 0;
    assert Available(file, pos, Piece(size)) == 0 || size == 0;
    assert Copied(file, pos, size, stale) == [];
  }

  // The two programs.

  /** One step of either interpreter, after `soFar` has been produced. */
  lemma {:induction false} InterpretStep(meaning: Meaning, file: seq<byte>, off: nat, n: nat, blkSz: uint32,
                                         mem: Memory, whole: (bool, seq<byte>), soFar: seq<byte>)
    requires n > 0
    requires var now := Interpret(meaning, file, off, n, blkSz, mem);
      whole == (now.0, soFar + now.1)
    ensures var c := ReadChunkHeader(file, off);
      if c.None? || meaning(file, off, c.value, blkSz, mem).None? then whole == (false, soFar)
      else
        var data := meaning(file, off, c.value, blkSz, mem).value;
        var next := NextMemory(file, off, c.value, blkSz, mem);
        var rest := Interpret(meaning, file, off + c.value.totalSz, n - 1, blkSz, next);
        whole == (rest.0, (soFar + data) + rest.1)
  {
    hide ReadChunkHeader, NextMemory;
    var c := ReadChunkHeader(file, off);
    if c.Some? && meaning(file, off, c.value, blkSz, mem).Some? {
      var data := meaning(file, off, c.value, blkSz, mem).value;
      var next := NextMemory(file, off, c.value, blkSz, mem);
      var rest := Interpret(meaning, file, off + c.value.totalSz, n - 1, blkSz, next);
      assert soFar + (data + rest.1) == (soFar + data) + rest.1;
    } else {
      assert soFar + [] == soFar;
    }
  }

  lemma {:induction false} InterpretNothing(meaning: Meaning, file: seq<byte>, off: nat, blkSz: uint32, mem: Memory)
    ensures Interpret(meaning, file, off, 0, blkSz, mem) == (true, [])
  {
  }

  /**
   * Unpacks an image. Without `fast` the output is exactly the chunks' contents;
   * with it, blocks that are not cared for are skipped, and only trailing zeros can be missing.
   */
  method Unpack(file: seq<byte>, h: Header, fast: bool, before: Memory) returns (ok: bool, out: seq<byte>)
    ensures var (good, full) := Unpacked(file, HEADER_SIZE, h.totalChunks, h.blkSz, before);
      ok == good && (ok && !fast ==> out == full) && (ok ==> UpToZeros(out, full))
  {
    hide Interpret, ReadChunkHeader, UnpackChunk, NextMemory;
    out := [];
    var offsetIn: nat, offsetOut: nat := HEADER_SIZE, 0;
    var mem := before;
    ghost var whole := Interpret(UnpackChunk, file, HEADER_SIZE, h.totalChunks, h.blkSz, before);
    ghost var full: seq<byte> := [];
    assert full + whole.1 == whole.1;
    for i := 0 to h.totalChunks
      invariant var now := Interpret(UnpackChunk, file, offsetIn, h.totalChunks - i, h.blkSz, mem);
        whole == (now.0, full + now.1)
      invariant offsetOut == |full| && UpToZeros(out, full) && (!fast ==> out == full)
    {
      InterpretStep(UnpackChunk, file, offsetIn, h.totalChunks - i, h.blkSz, mem, whole, full);
      var c := ReadChunkHeader(file, offsetIn);
      if c.None? {
        return false, out;
      }
      var good;
      ghost var data;
      good, out, offsetOut, data := UnpackOne(file, offsetIn, c.value, h.blkSz, fast, mem, out, offsetOut, full);
      if !good {
        return false, out;
      }
      full := full + data;
      mem := NextMemory(file, offsetIn, c.value, h.blkSz, mem);
      offsetIn := offsetIn + c.value.totalSz;
    }
    InterpretNothing(UnpackChunk, file, offsetIn, h.blkSz, mem);
    assert full + [] == full;
    ok := true;
  }

  /** The body of the unpack loop, by chunk type. */
  method UnpackOne(file: seq<byte>, offsetIn: nat, c: ChunkHeader, blkSz: uint32, fast: bool, mem: Memory,
                   out: seq<byte>, offsetOut: nat, ghost full: seq<byte>)
    returns (ok: bool, out': seq<byte>, offsetOut': nat, ghost data: seq<byte>)
    requires offsetOut == |full| && UpToZeros(out, full) && (!fast ==> out == full)
    ensures ok == UnpackChunk(file, offsetIn, c, blkSz, mem).Some?
    ensures ok ==> UnpackChunk(file, offsetIn, c, blkSz, mem) == Some(data)
    ensures ok ==> offsetOut' == |full + data| && UpToZeros(out', full + data) && (!fast ==> out' == full + data)
  {
    hide FillBytes, Field, FillWord;
    ok, out', offsetOut', data := true, out, offsetOut, [];
    WriteCompletes(out, full, []);
    if c.kind == RAW {
      var n := DataSize(c);
      if offsetIn + 12 + n > |file| {
        return false, out, offsetOut, [];
      }
      data := file[offsetIn + 12..offsetIn + 12 + n];
      WriteCompletes(out, full, data);
      out' := WriteAt(out, offsetOut, file[offsetIn + 12..offsetIn + 12 + n]);
      offsetOut' := offsetOut + n;
    } else if c.kind == DONT_CARE {
      var n := Mul32(c.chunkSz, blkSz);
      data := Zeros(n);
      WriteCompletes(out, full, data);
      if !fast {
        out' := WriteAt(out, offsetOut, Zeros(n));
      } else {
        assert full + data == out + Zeros(|full| + n - |out|);
      }
      offsetOut' := offsetOut + n;
    } else if c.kind == FILL {
      var n := Mul32(c.chunkSz, blkSz);
      if c.totalSz != 16 {
        return false, out, offsetOut, [];
      }
      var fill := FillBytes(FillWord(file, offsetIn + 12, mem.fill), n);
      data := fill;
      WriteCompletes(out, full, data);
      out' := WriteAt(out, offsetOut, fill);
      offsetOut' := offsetOut + n;
    } else if c.kind != CRC32 {
      ok := false;
    }
  }

  lemma {:induction false} HashedStep(file: seq<byte>, off: nat, n: nat, blkSz: uint32, mem: Memory, stale: Stale,
                                      whole: (bool, seq<byte>), soFar: seq<byte>)
    requires n > 0
    requires var now := Hashed(file, off, n, blkSz, mem, stale);
      whole == (now.0, soFar + now.1)
    ensures var c := ReadChunkHeader(file, off);
      if c.None? || HashChunk(file, off, c.value, blkSz, mem, stale).None? then whole == (false, soFar)
      else
        var data := HashChunk(file, off, c.value, blkSz, mem, stale).value;
        var next := NextMemory(file, off, c.value, blkSz, mem);
        var rest := Hashed(file, off + c.value.totalSz, n - 1, blkSz, next, stale);
        whole == (rest.0, (soFar + data) + rest.1)
  {
    hide Interpret, ReadChunkHeader, HashChunk, NextMemory;
    InterpretStep(Hashing(stale), file, off, n, blkSz, mem, whole, soFar);
  }

  lemma {:induction false} HashedNothing(file: seq<byte>, off: nat, blkSz: uint32, mem: Memory, stale: Stale)
    ensures Hashed(file, off, 0, blkSz, mem, stale) == (true, [])
  {
    hide Interpret;
    InterpretNothing(Hashing(stale), file, off, blkSz, mem);
  }

  /** Hashes the unpacked image without writing it: the digest is that of the bytes of the second interpretation. */
  method Sha1sum(file: seq<byte>, h: Header, compress: Compress<Sha.Words>, before: Memory, stale: Stale)
    returns (ok: bool, digest: seq<byte>)
    requires Sha.Sha1(compress).Valid()
    requires 8 * |Hashed(file, HEADER_SIZE, h.totalChunks, h.blkSz, before, stale).1| < 0x1_0000_0000_0000_0000
    ensures var (good, stream) := Hashed(file, HEADER_SIZE, h.totalChunks, h.blkSz, before, stale);
      ok == good && (ok ==> digest == Sha.Sha1(compress).Digest(stream))
  {
    hide Hashed, ReadChunkHeader, HashChunk, NextMemory;
    digest := [];
    var hash := new Sha.Context(Sha.Sha1(compress));
    var offset: nat := HEADER_SIZE;
    var mem := before;
    ghost var whole := Hashed(file, HEADER_SIZE, h.totalChunks, h.blkSz, before, stale);
    assert hash.message + whole.1 == whole.1;
    for i := 0 to h.totalChunks
      invariant fresh(hash) && fresh(hash.block) && Ready(hash, compress)
      invariant var now := Hashed(file, offset, h.totalChunks - i, h.blkSz, mem, stale);
        whole == (now.0, hash.message + now.1)
    {
      HashedStep(file, offset, h.totalChunks - i, h.blkSz, mem, stale, whole, hash.message);
      var c := ReadChunkHeader(file, offset);
      if c.None? {
        return false, digest;
      }
      ok := HashOne(file, offset, c.value, h.blkSz, mem, stale, hash, compress);
      if !ok {
        return false, digest;
      }
      mem := NextMemory(file, offset, c.value, h.blkSz, mem);
      offset := offset + c.value.totalSz;
    }
    HashedNothing(file, offset, h.blkSz, mem, stale);
    assert hash.message + [] == hash.message;
    var r;
    r, digest := hash.Result();
    ok := true;
  }

  /** A SHA-1 context that takes input. */
  ghost predicate Ready(hash: Sha.Context, compress: Compress<Sha.Words>)
    reads hash, hash.block
  {
    hash.Valid() && hash.variant == Sha.Sha1(compress) && hash.corrupted.Success? && !hash.computed
  }

  method Feed(hash: Sha.Context, compress: Compress<Sha.Words>, data: seq<byte>)
    requires Ready(hash, compress) && 8 * |hash.message + data| < 0x1_0000_0000_0000_0000
    modifies hash, hash.block
    ensures Ready(hash, compress) && hash.message == old(hash.message) + data
  {
    var r := hash.Input(data);
  }

  /** Feeds the same block `count` times. */
  method FeedBlocks(hash: Sha.Context, compress: Compress<Sha.Words>, block: seq<byte>, count: nat)
    requires Ready(hash, compress)
    requires 8 * |hash.message + Repeat(block, count)| < 0x1_0000_0000_0000_0000
    modifies hash, hash.block
    ensures Ready(hash, compress) && hash.message == old(hash.message) + Repeat(block, count)
  {
    hide Ready, Repeat;
    ghost var before := hash.message;
    RepeatStep(block, 0);
    for i := 0 to count
      invariant Ready(hash, compress) && hash.message == before + Repeat(block, i)
    {
      RepeatGrows(block, i + 1, count);
      RepeatStep(block, i);
      assert before + Repeat(block, i) + block == before + (Repeat(block, i) + block);
      Feed(hash, compress, block);
    }
  }

  lemma {:induction false} RepeatStep(block: seq<byte>, i: nat)
    ensures Repeat(block, 0) == [] && Repeat(block, i + 1) == Repeat(block, i) + block
  {
  }

  lemma {:induction false} RepeatGrows(block: seq<byte>, i: nat, count: nat)
    requires i <= count
    ensures |Repeat(block, i)| <= |Repeat(block, count)|
    decreases count
  {
    if i < count {
      RepeatGrows(block, i, count - 1);
    }
  }

  /** Feeds a range of the file, in pieces, until it is complete or nothing can be read. */
  method FeedCopy(hash: Sha.Context, compress: Compress<Sha.Words>, file: seq<byte>, start: nat, size: nat,
                  stale: Stale)
    requires Ready(hash, compress)
    requires 8 * |hash.message + Copied(file, start, size, stale)| < 0x1_0000_0000_0000_0000
    modifies hash, hash.block
    ensures Ready(hash, compress) && hash.message == old(hash.message) + Copied(file, start, size, stale)
  {
    hide Ready, Copied, Piece, Available, Handed;
    var pos, sz := start, size;
    ghost var all := hash.message + Copied(file, start, size, stale);
    while sz > 0
      invariant 0 <= pos && 0 <= sz && Ready(hash, compress)
      invariant all == hash.message + Copied(file, pos, sz, stale)
      decreases sz
    {
      CopiedStep(file, pos, sz, stale);
      var m := Piece(sz);
      var k := Available(file, pos, m);
      if k == 0 {
        break;
      }
      ghost var rest := Copied(file, pos + k, sz - k, stale);
      var piece := Handed(file, pos, m, stale);
      assert all == hash.message + (piece + rest);
      Regroup(hash.message, piece, rest);
      Feed(hash, compress, piece);
      pos, sz := pos + k, sz - k;
    }
    CopiedStep(file, pos, sz, stale);
    assert hash.message + [] == hash.message;
  }

  lemma {:induction false} CopiedStep(file: seq<byte>, pos: nat, size: nat, stale: Stale)
    ensures var m := Piece(size); var k := Available(file, pos, m);
      Copied(file, pos, size, stale)
        == if k == 0 then []
           else Handed(file, pos, m, stale) + Copied(file, pos + k, size - k, stale)
    ensures Copied(file, pos, 0, stale) == []
  {
    assert Available(file, pos, Piece(0)) == 0;
  }

  /** Feeds a number of blocks of the file. */
  method FeedFile(hash: Sha.Context, compress: Compress<Sha.Words>, file: seq<byte>, pos: nat, size: nat, count: nat,
                  stale: Stale)
    requires Ready(hash, compress)
    requires 8 * |hash.message + CopiedBlocks(file, pos, size, count, stale)| < 0x1_0000_0000_0000_0000
    modifies hash, hash.block
    ensures Ready(hash, compress) && hash.message == old(hash.message) + CopiedBlocks(file, pos, size, count, stale)
  {
    hide Ready, Copied, CopiedBlocks, Blocks;
    ghost var before := hash.message;
    CopiedBlocksStep(file, pos, size, 0, stale);
    for i := 0 to count
      invariant Ready(hash, compress) && hash.message == before + CopiedBlocks(file, pos, size, i, stale)
    {
      CopiedBlocksGrow(file, pos, size, i + 1, count, stale);
      CopiedBlocksStep(file, pos, size, i, stale);
      ghost var done, next := CopiedBlocks(file, pos, size, i, stale), Copied(file, pos + Blocks(i, size), size, stale);
      assert before + done + next == before + (done + next);
      FeedCopy(hash, compress, file, pos + Blocks(i, size), size, stale);
    }
  }

  lemma {:induction false} CopiedBlocksStep(file: seq<byte>, pos: nat, size: nat, i: nat, stale: Stale)
    ensures CopiedBlocks(file, pos, size, 0, stale) == []
    ensures CopiedBlocks(file, pos, size, i + 1, stale)
         == CopiedBlocks(file, pos, size, i, stale) + Copied(file, pos + Blocks(i, size), size, stale)
  {
    hide Copied;
  }

  lemma {:induction false} CopiedBlocksGrow(file: seq<byte>, pos: nat, size: nat, i: nat, count: nat, stale: Stale)
    requires i <= count
    ensures |CopiedBlocks(file, pos, size, i, stale)| <= |CopiedBlocks(file, pos, size, count, stale)|
    decreases count
  {
    hide Copied, Blocks;
    if i < count {
      CopiedBlocksGrow(file, pos, size, i, count - 1, stale);
    }
  }

  /** The body of the hash loop, by chunk type. */
  method HashOne(file: seq<byte>, offset: nat, c: ChunkHeader, blkSz: uint32, mem: Memory, stale: Stale,
                 hash: Sha.Context, compress: Compress<Sha.Words>)
    returns (ok: bool)
    requires Ready(hash, compress)
    requires HashChunk(file, offset, c, blkSz, mem, stale).Some? ==>
      8 * |hash.message + HashChunk(file, offset, c, blkSz, mem, stale).value| < 0x1_0000_0000_0000_0000
    modifies hash, hash.block
    ensures ok == HashChunk(file, offset, c, blkSz, mem, stale).Some?
    ensures ok ==> Ready(hash, compress)
    ensures ok ==> hash.message == old(hash.message) + HashChunk(file, offset, c, blkSz, mem, stale).value
  {
    hide FillWith, FillWord, Repeat, CopiedBlocks, Ready, TailOf;
    if c.kind == RAW {
      FeedFile(hash, compress, file, offset + 12, blkSz, c.chunkSz, stale);
    } else if c.kind == DONT_CARE {
      FeedBlocks(hash, compress, Zeros(blkSz), c.chunkSz);
    } else if c.kind == FILL {
      if c.totalSz != 16 {
        return false;
      }
      var block := FillWith(FillWord(file, offset + 12, mem.fill), blkSz, TailOf(mem, blkSz));
      FeedBlocks(hash, compress, block, c.chunkSz);
    } else if c.kind != CRC32 {
      return false;
    } else {
      assert hash.message + [] == hash.message;
    }
    return true;
  }

  /** For a complete image, the checksum is that of the unpacked file, whatever is in memory. */
  method Sha1sumOfUnpacked(file: seq<byte>, h: Header, compress: Compress<Sha.Words>, before: Memory, stale: Stale,
                           ghost mem: Memory)
    returns (ok: bool, digest: seq<byte>)
    requires Sha.Sha1(compress).Valid()
    requires Complete(file, HEADER_SIZE, h.totalChunks, h.blkSz) && h.blkSz % 4 == 0
    requires 8 * |Unpacked(file, HEADER_SIZE, h.totalChunks, h.blkSz, mem).1| < 0x1_0000_0000_0000_0000
    ensures var (good, full) := Unpacked(file, HEADER_SIZE, h.totalChunks, h.blkSz, mem);
      ok == good && (ok ==> digest == Sha.Sha1(compress).Digest(full))
  {
    hide Unpacked, Hashed, Complete;
    InterpretersAgree(file, HEADER_SIZE, h.totalChunks, h.blkSz, mem, before, stale);
    ok, digest := Sha1sum(file, h, compress, before, stale);
  }
}
