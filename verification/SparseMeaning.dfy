/** Sparse images byte by byte: what a list of parts looks like and what it stands for (android/android_sparse.c). */
module SparseMeaning {
  import opened Base
  import opened Bitmask
  import opened SparseFormat
  import opened SparseReader
  import opened SparseWriter
  import opened SparseRoundTrip

  /** Blocks with their data, blocks of a repeated word, blocks left out, and a checksum. */
  datatype Part =
    | Data(count: uint32, bytes: seq<byte>)
    | Filling(count: uint32, word: uint32)
    | Hole(count: uint32)
    | Check(word: uint32)

  function Le32(x: uint32): (b: seq<byte>)
    ensures |b| == 4
  {
    [x % 0x100, x / 0x100 % 0x100, x / 0x1_0000 % 0x100, x / 0x100_0000]
  }

  /** Kind, number of blocks, size with this header of 12 bytes, and contents. */
  function PartBytes(p: Part): seq<byte>
    requires p.Data? ==> 12 + |p.bytes| < 0x1_0000_0000
  {
    match p
    case Data(count, bytes) => [0xC1, 0xCA, 0, 0] + Le32(count) + Le32(12 + |bytes|) + bytes
    case Filling(count, word) => [0xC2, 0xCA, 0, 0] + Le32(count) + Le32(16) + Le32(word)
    case Hole(count) => [0xC3, 0xCA, 0, 0] + Le32(count) + Le32(12)
    case Check(word) => [0xC4, 0xCA, 0, 0] + Le32(0) + Le32(16) + Le32(word)
  }

  /** The blocks that a part stands for; in a filled one, byte `i` is byte `i` modulo 4 of the word. */
  function Contents(p: Part, blkSz: uint32): seq<byte> {
    match p
    case Data(_, bytes) => bytes
    case Filling(count, word) => seq(Blocks(count, blkSz), i requires 0 <= i => Le32(word)[i % 4])
    case Hole(count) => seq(Blocks(count, blkSz), _ => 0)
    case Check(_) => []
  }

  /** Parts whose sizes are those of their blocks and fit 32 bits. */
  ghost predicate Proper(p: Part, blkSz: uint32) {
    && (p.Data? ==> |p.bytes| == p.count * blkSz && 12 + |p.bytes| < 0x1_0000_0000)
    && (p.Filling? || p.Hole? ==> p.count * blkSz < 0x1_0000_0000)
  }

  ghost predicate AllProper(ps: seq<Part>, blkSz: uint32) {
    forall k :: 0 <= k < |ps| ==> Proper(ps[k], blkSz)
  }

  ghost function AllBytes(ps: seq<Part>, blkSz: uint32): seq<byte>
    requires AllProper(ps, blkSz)
  {
    if ps == [] then []
    else
      assert Proper(ps[0], blkSz);
      PartBytes(ps[0]) + AllBytes(ps[1..], blkSz)
  }

  function AllContents(ps: seq<Part>, blkSz: uint32): seq<byte> {
    if ps == [] then [] else Contents(ps[0], blkSz) + AllContents(ps[1..], blkSz)
  }

  /** Magic 0xed26ff3a, version 1.0, the sizes of both headers, block size, blocks, chunks, and no checksum. */
  ghost function ImageBytes(blkSz: uint32, total: uint32, ps: seq<Part>): seq<byte>
    requires AllProper(ps, blkSz) && |ps| < 0x1_0000_0000
  {
    [0x3A, 0xFF, 0x26, 0xED, 1, 0, 0, 0, 28, 0, 12, 0]
    + Le32(blkSz) + Le32(total) + Le32(|ps|) + Le32(0) + AllBytes(ps, blkSz)
  }

  lemma {:induction false} LeBytesIsLe32(x: uint32)
    ensures LeBytes(x, 4) == Le32(x)
  {
    hide LeBytes;
    LeBytesMean(x);
    assert x / 0x100_0000 % 0x100 == x / 0x100_0000;
  }

  lemma {:induction false} HeaderIsLiteral(h: Header)
    ensures HeaderBytes(h)
         == [0x3A, 0xFF, 0x26, 0xED, 1, 0, 0, 0, 28, 0, 12, 0]
            + Le32(h.blkSz) + Le32(h.totalBlks) + Le32(h.totalChunks) + Le32(0)
  {
    hide LeBytes, Le32;
    FixedBytes();
    LeBytesIsLe32(h.blkSz);
    LeBytesIsLe32(h.totalBlks);
    LeBytesIsLe32(h.totalChunks);
    LeBytesIsLe32(0);
  }

  lemma {:induction false} FixedBytes()
    ensures LeBytes(0xed26ff3a, 4) + LeBytes(1, 2) + LeBytes(0, 2) + LeBytes(28, 2) + LeBytes(12, 2)
         == [0x3A, 0xFF, 0x26, 0xED, 1, 0, 0, 0, 28, 0, 12, 0]
  {
    hide LeBytes;
    LeBytesMean(0xed26ff3a);
    LeBytesMean(1);
    LeBytesMean(0);
    LeBytesMean(28);
    LeBytesMean(12);
  }

  lemma {:induction false} ChunkHeaderIsLiteral(c: ChunkHeader)
    ensures ChunkHeaderBytes(c) == [c.kind % 0x100, c.kind / 0x100, 0, 0] + Le32(c.chunkSz) + Le32(c.totalSz)
  {
    hide LeBytes, Le32;
    LeBytesMean(c.kind);
    LeBytesMean(0);
    LeBytesIsLe32(c.chunkSz);
    LeBytesIsLe32(c.totalSz);
    assert c.kind / 0x100 % 0x100 == c.kind / 0x100;
  }

  // Reading.

  /** Byte `i` of a filled range, up to the last whole word. */
  lemma {:induction false} FillAt(word: uint32, n: nat, i: nat)
    requires i < n - n % 4
    ensures FillBytes(word, n)[i] == Le32(word)[i % 4]
    decreases n
  {
    hide LeBytes, Le32;
    LeBytesIsLe32(word);
    FillStep(word, n);
    if i >= 4 {
      FillAt(word, n - 4, i - 4);
    }
  }

  /** The same in a block whose last bytes are kept. */
  lemma {:induction false} FillWithAt(word: uint32, n: nat, tail: seq<byte>, i: nat)
    requires |tail| == n % 4 && i < n
    ensures FillWith(word, n, tail)[i] == if i < n - n % 4 then Le32(word)[i % 4] else tail[i - (n - n % 4)]
    decreases n
  {
    hide LeBytes, Le32;
    LeBytesIsLe32(word);
    if n >= 4 && i >= 4 {
      FillWithAt(word, n - 4, tail, i - 4);
    }
  }

  lemma {:induction false} FillIsContents(word: uint32, n: nat)
    requires n % 4 == 0
    ensures FillBytes(word, n) == seq(n, i requires 0 <= i => Le32(word)[i % 4])
  {
    hide FillBytes, Le32;
    forall i | 0 <= i < n
      ensures FillBytes(word, n)[i] == Le32(word)[i % 4]
    {
      FillAt(word, n, i);
    }
  }

  function HeaderOf(p: Part): ChunkHeader
    requires p.Data? ==> 12 + |p.bytes| < 0x1_0000_0000
  {
    match p
    case Data(count, bytes) => ChunkHeader(0xCAC1, count, 12 + |bytes|)
    case Filling(count, _) => ChunkHeader(0xCAC2, count, 16)
    case Hole(count) => ChunkHeader(0xCAC3, count, 12)
    case Check(_) => ChunkHeader(0xCAC4, 0, 16)
  }

  function PayloadOf(p: Part): seq<byte> {
    match p
    case Data(_, bytes) => bytes
    case Filling(_, word) => Le32(word)
    case Hole(_) => []
    case Check(word) => Le32(word)
  }

  lemma {:induction false} PartIsHeaderAndPayload(p: Part)
    requires p.Data? ==> 12 + |p.bytes| < 0x1_0000_0000
    ensures PartBytes(p) == ChunkHeaderBytes(HeaderOf(p)) + PayloadOf(p)
    ensures |PartBytes(p)| == HeaderOf(p).totalSz
  {
    hide ChunkHeaderBytes, Le32;
    ChunkHeaderIsLiteral(HeaderOf(p));
  }

  /** One part is read as what it stands for. */
  lemma {:induction false} ReadsPart(file: seq<byte>, off: nat, p: Part, blkSz: uint32, mem: Memory)
    requires Proper(p, blkSz) && blkSz % 4 == 0
    requires off + |PartBytes(p)| <= |file| && file[off..off + |PartBytes(p)|] == PartBytes(p)
    ensures ReadChunkHeader(file, off) == Some(HeaderOf(p))
    ensures UnpackChunk(file, off, HeaderOf(p), blkSz, mem) == Some(Contents(p, blkSz))
  {
    hide ChunkHeaderBytes, ReadChunkHeader, PartBytes, FillWord, FillBytes, Mul32, Le32, Field;
    var b := PartBytes(p);
    PartIsHeaderAndPayload(p);
    SubSlice(file, off, |b|, 0, 12);
    assert b[0..12] == ChunkHeaderBytes(HeaderOf(p)) && b[12..] == PayloadOf(p);
    ChunkHeaderRoundTrip(file, off, HeaderOf(p));
    SubSlice(file, off, |b|, 12, |b|);
    assert file[off + 12..off + |b|] == PayloadOf(p);
    match p
    case Data(_, bytes) =>
      ReadsData(file, off, HeaderOf(p), blkSz, mem, bytes);
    case Filling(count, word) =>
      assert file[off + 12..off + 16] == Le32(word);
      ReadsFilling(file, off, count, word, blkSz, mem);
    case Hole(count) =>
      SmallProduct(count, blkSz);
      assert Zeros(Blocks(count, blkSz)) == Contents(p, blkSz);
    case Check(_) =>
  }

  lemma {:induction false} ReadsData(file: seq<byte>, off: nat, c: ChunkHeader, blkSz: uint32, mem: Memory,
                                     bytes: seq<byte>)
    requires c.kind == 0xCAC1 && c.totalSz == 12 + |bytes|
    requires off + 12 + |bytes| <= |file| && file[off + 12..off + 12 + |bytes|] == bytes
    ensures UnpackChunk(file, off, c, blkSz, mem) == Some(bytes)
  {
    SmallRemainder(|bytes|);
  }

  lemma {:induction false} ReadsFilling(file: seq<byte>, off: nat, count: uint32, word: uint32, blkSz: uint32,
                                        mem: Memory)
    requires count * blkSz < 0x1_0000_0000 && blkSz % 4 == 0
    requires off + 16 <= |file| && file[off + 12..off + 16] == Le32(word)
    ensures UnpackChunk(file, off, ChunkHeader(0xCAC2, count, 16), blkSz, mem)
         == Some(Contents(Filling(count, word), blkSz))
  {
    hide FillWord, FillBytes, Mul32, Le32, Field, LeBytes;
    SmallProduct(count, blkSz);
    WholeWord(file, off + 12, mem.fill);
    LeBytesIsLe32(word);
    FieldOfBytes(file, off + 12, word, 4);
    MultipleOfFour(count, blkSz);
    FillIsContents(word, Blocks(count, blkSz));
  }

  lemma {:induction false} ProperRest(ps: seq<Part>, blkSz: uint32)
    requires AllProper(ps, blkSz) && ps != []
    ensures Proper(ps[0], blkSz) && AllProper(ps[1..], blkSz)
  {
    hide Proper;
  }

  lemma {:induction false} DataFits(p: Part, blkSz: uint32)
    requires Proper(p, blkSz)
    ensures p.Data? ==> 12 + |p.bytes| < 0x1_0000_0000
  {
  }

  /** The parts at `off`, whatever follows them and whatever is in memory. */
  lemma {:induction false} ReadsParts(file: seq<byte>, off: nat, ps: seq<Part>, blkSz: uint32, mem: Memory)
    requires AllProper(ps, blkSz) && blkSz % 4 == 0 && off + |AllBytes(ps, blkSz)| <= |file|
    requires file[off..off + |AllBytes(ps, blkSz)|] == AllBytes(ps, blkSz)
    ensures Unpacked(file, off, |ps|, blkSz, mem) == (true, AllContents(ps, blkSz))
    decreases |ps|
  {
    hide AllProper, Proper, PartBytes, ReadChunkHeader, UnpackChunk, NextMemory, HeaderOf, Contents;
    if ps == [] {
      InterpretNothing(UnpackChunk, file, off, blkSz, mem);
    } else {
      ProperRest(ps, blkSz);
      DataFits(ps[0], blkSz);
      var b, rest := PartBytes(ps[0]), AllBytes(ps[1..], blkSz);
      var n := |b + rest|;
      assert file[off..off + n] == b + rest;
      SubSlice(file, off, n, 0, |b|);
      SubSlice(file, off, n, |b|, n);
      PartSize(ps[0], blkSz);
      ReadsPart(file, off, ps[0], blkSz, mem);
      ReadsParts(file, off + |b|, ps[1..], blkSz, NextMemory(file, off, HeaderOf(ps[0]), blkSz, mem));
    }
  }

  lemma {:induction false} PartSize(p: Part, blkSz: uint32)
    requires Proper(p, blkSz)
    ensures |PartBytes(p)| == HeaderOf(p).totalSz
  {
    hide PartBytes, HeaderOf;
    PartIsHeaderAndPayload(p);
  }

  /** An image is detected and unpacked as what its parts stand for. */
  lemma {:induction false} ImageUnpacks(file: seq<byte>, blkSz: uint32, total: uint32, ps: seq<Part>, mem: Memory)
    requires AllProper(ps, blkSz) && |ps| < 0x1_0000_0000 && blkSz % 4 == 0
    requires file == ImageBytes(blkSz, total, ps)
    ensures ReadHeader(file) == Some(Header(blkSz, total, |ps|))
    ensures Unpacked(file, 28, |ps|, blkSz, mem) == (true, AllContents(ps, blkSz))
  {
    hide AllProper, HeaderBytes, ReadHeader, AllBytes, Unpacked, AllContents, Le32;
    var h := Header(blkSz, total, |ps|);
    HeaderIsLiteral(h);
    assert file == HeaderBytes(h) + AllBytes(ps, blkSz);
    HeaderRoundTrip(h, AllBytes(ps, blkSz));
    assert file[28..28 + |AllBytes(ps, blkSz)|] == AllBytes(ps, blkSz);
    ReadsParts(file, 28, ps, blkSz, mem);
  }

  /** Detecting and unpacking such a file. */
  method UnpackImage(file: seq<byte>, before: Memory, ghost blkSz: uint32, ghost total: uint32, ghost ps: seq<Part>)
    returns (ok: bool, out: seq<byte>)
    requires AllProper(ps, blkSz) && |ps| < 0x1_0000_0000 && blkSz % 4 == 0
    requires file == ImageBytes(blkSz, total, ps)
    ensures ok && out == AllContents(ps, blkSz)
  {
    hide AllProper, ImageBytes, ReadHeader, Unpacked, AllContents;
    ImageUnpacks(file, blkSz, total, ps, before);
    var h := ReadHeader(file);
    ok, out := Unpack(file, h.value, false, before);
  }

  // Writing.

  /** What the writer writes for its chunks. */
  function PartOf(c: Chunk, cb: WriteCb): Part
    requires c.count < 0x1_0000_0000
  {
    match c
    case DontCare(n) => Hole(n)
    case Raw(s, n) => Data(n, cb(s, n).1)
  }

  ghost predicate Small(chunks: seq<Chunk>, blkSz: uint32, cb: WriteCb) {
    forall k :: 0 <= k < |chunks| ==>
      chunks[k].count < 0x1_0000_0000 && Proper(PartOf(chunks[k], cb), blkSz)
  }

  ghost function PartsOf(chunks: seq<Chunk>, blkSz: uint32, cb: WriteCb): (ps: seq<Part>)
    requires Small(chunks, blkSz, cb)
    ensures |ps| == |chunks| && AllProper(ps, blkSz)
    ensures forall k :: 0 <= k < |chunks| ==> ps[k] == PartOf(chunks[k], cb)
  {
    seq(|chunks|, k requires 0 <= k < |chunks| => PartOf(chunks[k], cb))
  }

  lemma {:induction false} ChunkIsPart(c: Chunk, blkSz: uint32, cb: WriteCb)
    requires c.count < 0x1_0000_0000 && Proper(PartOf(c, cb), blkSz)
    ensures ChunkBytes(c, blkSz, cb) == PartBytes(PartOf(c, cb))
  {
    hide ChunkHeaderBytes, PartBytes, Filled;
    PartIsHeaderAndPayload(PartOf(c, cb));
    SmallRemainder(c.count);
    if c.Raw? {
      var data := cb(c.start, c.count).1;
      SmallRemainder(12 + |data|);
    } else {
      assert ChunkHeaderBytes(HeaderOf(PartOf(c, cb))) + [] == ChunkHeaderBytes(HeaderOf(PartOf(c, cb)));
    }
  }

  lemma {:induction false} BodyIsParts(chunks: seq<Chunk>, blkSz: uint32, cb: WriteCb)
    requires Small(chunks, blkSz, cb)
    ensures Body(chunks, blkSz, cb) == AllBytes(PartsOf(chunks, blkSz, cb), blkSz)
    decreases |chunks|
  {
    hide ChunkBytes, PartBytes, Proper, PartOf;
    if chunks != [] {
      var ps := PartsOf(chunks, blkSz, cb);
      ChunkIsPart(chunks[0], blkSz, cb);
      assert ps[1..] == PartsOf(chunks[1..], blkSz, cb);
      BodyIsParts(chunks[1..], blkSz, cb);
    }
  }

  /** The image of a bitmap, byte by byte, when all sizes fit their fields. */
  lemma {:induction false} ImageIsParts(bits: seq<bool>, blkSz: uint32, cb: WriteCb)
    requires |bits| < 0x1_0000_0000 && Small(ChunksFrom(bits, 0), blkSz, cb)
    ensures |ChunksFrom(bits, 0)| < 0x1_0000_0000
    ensures Image(bits, blkSz, cb) == ImageBytes(blkSz, |bits|, PartsOf(ChunksFrom(bits, 0), blkSz, cb))
  {
    hide ChunksFrom, Body, HeaderBytes, AllBytes, Le32, Small, PartsOf, ImageHeader;
    ChunksCoverBlocks(bits, 0);
    HeaderFits(bits, blkSz);
    HeaderIsLiteral(ImageHeader(bits, blkSz));
    BodyIsParts(ChunksFrom(bits, 0), blkSz, cb);
  }

  lemma {:induction false} HeaderFits(bits: seq<bool>, blkSz: uint32)
    requires |bits| < 0x1_0000_0000 && |ChunksFrom(bits, 0)| < 0x1_0000_0000
    ensures ImageHeader(bits, blkSz) == Header(blkSz, |bits|, |ChunksFrom(bits, 0)|)
  {
    hide ChunksFrom;
    SmallRemainder(blkSz);
    SmallRemainder(|bits|);
    SmallRemainder(|ChunksFrom(bits, 0)|);
  }

  /** The runs of data are the maximal runs of ones. */
  function RunsOf(chunks: seq<Chunk>): seq<Run> {
    if chunks == [] then []
    else (if chunks[0].Raw? then [Run(chunks[0].start, chunks[0].count)] else []) + RunsOf(chunks[1..])
  }

  lemma {:induction false} ChunksHoldRuns(bits: seq<bool>, blk: nat)
    requires blk <= |bits|
    ensures RunsOf(ChunksFrom(bits, blk)) == RunsFrom(bits, blk)
    decreases |bits| - blk
  {
    hide Find, ChunksFrom, RunsFrom, RunsOf;
    ChunksFromStep(bits, blk);
    RunsFromStep(bits, blk);
    var s := Find(bits, blk, true);
    if s == |bits| {
      NoRunInGap(s - blk, []);
      assert Gap(s - blk) + [] == Gap(s - blk);
    } else {
      var e := Find(bits, s + 1, false);
      ChunksHoldRuns(bits, e);
      NoRunInGap(s - blk, [Raw(s, e - s)] + ChunksFrom(bits, e));
      OneRun(Raw(s, e - s), ChunksFrom(bits, e));
    }
  }

  lemma {:induction false} NoRunInGap(n: nat, rest: seq<Chunk>)
    ensures RunsOf(Gap(n) + rest) == RunsOf(rest) && RunsOf([]) == []
  {
    var all := Gap(n) + rest;
    if n == 0 {
      assert all == rest;
    } else {
      assert all[1..] == rest && [] + RunsOf(rest) == RunsOf(rest);
    }
  }

  lemma {:induction false} OneRun(c: Chunk, rest: seq<Chunk>)
    requires c.Raw?
    ensures RunsOf([c] + rest) == [Run(c.start, c.count)] + RunsOf(rest)
  {
    assert ([c] + rest)[1..] == rest;
  }
}
