/** Reading back what the writer wrote (android/android_sparse.c). */
module SparseRoundTrip {
  import opened Base
  import opened Bitmask
  import opened SparseFormat
  import opened SparseReader
  import opened SparseWriter

  /** Blocks `s` to `s + n` of an image. */
  function Slice(source: seq<byte>, blkSz: nat, s: nat, n: nat): (r: seq<byte>)
    requires Blocks(s, blkSz) + Blocks(n, blkSz) <= |source|
    ensures |r| == Blocks(n, blkSz)
  {
    source[Blocks(s, blkSz)..Blocks(s, blkSz) + Blocks(n, blkSz)]
  }

  lemma {:induction false} BlocksAdd(a: nat, b: nat, c: nat, blkSz: nat)
    requires a + b <= c
    ensures Blocks(a, blkSz) + Blocks(b, blkSz) == Blocks(a + b, blkSz) <= Blocks(c, blkSz)
  {
    Distribute(a, b, blkSz);
    MulMonotone(a + b, c, blkSz);
  }

  /** The blocks of the source from `from` on, those that are not marked as zeros. */
  ghost function Masked(bits: seq<bool>, source: seq<byte>, blkSz: nat, from: nat): (r: seq<byte>)
    requires from <= |bits| && |source| == Blocks(|bits|, blkSz)
    ensures |r| == Blocks(|bits| - from, blkSz)
    decreases |bits| - from
  {
    if from == |bits| then []
    else
      BlocksAdd(from, 1, |bits|, blkSz);
      BlocksAdd(1, |bits| - from - 1, |bits| - from, blkSz);
      (if bits[from] then Slice(source, blkSz, from, 1) else Zeros(blkSz)) + Masked(bits, source, blkSz, from + 1)
  }

  /** Byte `j` of block `b` is the source's if the block is marked, and zero if not. */
  lemma {:induction false} MaskedAt(bits: seq<bool>, source: seq<byte>, blkSz: nat, from: nat, b: nat, j: nat)
    requires from <= b < |bits| && |source| == Blocks(|bits|, blkSz) && j < blkSz
    ensures Blocks(b - from, blkSz) + j < Blocks(|bits| - from, blkSz) && Blocks(b, blkSz) + j < |source|
    ensures Masked(bits, source, blkSz, from)[Blocks(b - from, blkSz) + j]
         == if bits[b] then source[Blocks(b, blkSz) + j] else 0
    decreases b - from
  {
    hide Blocks, Slice, Masked;
    BlocksAdd(b - from, 1, |bits| - from, blkSz);
    BlocksAdd(b, 1, |bits|, blkSz);
    BlocksOfOne(blkSz);
    MaskedStep(bits, source, blkSz, from);
    if b > from {
      MaskedAt(bits, source, blkSz, from + 1, b, j);
      BlocksAdd(1, b - from - 1, b - from, blkSz);
    } else {
      SliceAt(source, blkSz, b, j);
    }
  }

  lemma {:induction false} SliceAt(source: seq<byte>, blkSz: nat, b: nat, j: nat)
    requires Blocks(b, blkSz) + Blocks(1, blkSz) <= |source| && j < blkSz && Blocks(1, blkSz) == blkSz
    ensures Slice(source, blkSz, b, 1)[j] == source[Blocks(b, blkSz) + j]
  {
    hide Blocks;
  }

  lemma {:induction false} MaskedStep(bits: seq<bool>, source: seq<byte>, blkSz: nat, from: nat)
    requires from < |bits| && |source| == Blocks(|bits|, blkSz)
    ensures Blocks(1, blkSz) == blkSz && Blocks(from, blkSz) + Blocks(1, blkSz) <= |source|
    ensures Masked(bits, source, blkSz, from)
         == (if bits[from] then Slice(source, blkSz, from, 1) else Zeros(blkSz)) + Masked(bits, source, blkSz, from + 1)
  {
    hide Blocks, Slice;
    BlocksOfOne(blkSz);
    BlocksAdd(from, 1, |bits|, blkSz);
  }

  lemma {:induction false} BlocksOfOne(blkSz: nat)
    ensures Blocks(1, blkSz) == blkSz && Blocks(0, blkSz) == 0
  {
  }

  lemma {:induction false} MaskedZero(bits: seq<bool>, source: seq<byte>, blkSz: nat, from: nat)
    requires from < |bits| && |source| == Blocks(|bits|, blkSz) && !bits[from]
    ensures Masked(bits, source, blkSz, from) == Zeros(blkSz) + Masked(bits, source, blkSz, from + 1)
  {
  }

  lemma {:induction false} NoBlocks(blkSz: nat)
    ensures Zeros(Blocks(0, blkSz)) == []
  {
  }

  lemma {:induction false} MaskedGap(bits: seq<bool>, source: seq<byte>, blkSz: nat, from: nat, s: nat)
    requires from <= s <= |bits| && |source| == Blocks(|bits|, blkSz)
    requires forall i :: from <= i < s ==> !bits[i]
    ensures Masked(bits, source, blkSz, from) == Zeros(Blocks(s - from, blkSz)) + Masked(bits, source, blkSz, s)
    decreases s - from
  {
    hide Blocks, Masked, Zeros;
    var rest := Masked(bits, source, blkSz, s);
    if from < s {
      var n := s - from - 1;
      MaskedGap(bits, source, blkSz, from + 1, s);
      MaskedZero(bits, source, blkSz, from);
      BlocksOfOne(blkSz);
      BlocksAdd(1, n, s - from, blkSz);
      ZerosAdd(blkSz, Blocks(n, blkSz));
      Regroup(Zeros(blkSz), Zeros(Blocks(n, blkSz)), rest);
    } else {
      NoBlocks(blkSz);
      assert [] + rest == rest;
    }
  }

  lemma {:induction false} MaskedRun(bits: seq<bool>, source: seq<byte>, blkSz: nat, s: nat, e: nat)
    requires s <= e <= |bits| && |source| == Blocks(|bits|, blkSz)
    requires forall i :: s <= i < e ==> bits[i]
    ensures Blocks(s, blkSz) + Blocks(e - s, blkSz) <= |source|
    ensures Masked(bits, source, blkSz, s) == Slice(source, blkSz, s, e - s) + Masked(bits, source, blkSz, e)
    decreases e - s
  {
    hide Blocks, Slice;
    BlocksAdd(s, e - s, |bits|, blkSz);
    BlocksOfOne(blkSz);
    if s < e {
      BlocksAdd(s, 1, |bits|, blkSz);
      MaskedRun(bits, source, blkSz, s + 1, e);
      SliceSplit(source, blkSz, s, e - s);
    }
  }

  lemma {:induction false} SliceSplit(source: seq<byte>, blkSz: nat, s: nat, n: nat)
    requires n > 0 && Blocks(s, blkSz) + Blocks(n, blkSz) <= |source|
    ensures Blocks(s, blkSz) + Blocks(1, blkSz) <= |source|
    ensures Blocks(s + 1, blkSz) + Blocks(n - 1, blkSz) <= |source|
    ensures Slice(source, blkSz, s, n) == Slice(source, blkSz, s, 1) + Slice(source, blkSz, s + 1, n - 1)
  {
    hide Blocks;
    BlocksAdd(s, 1, s + n, blkSz);
    BlocksAdd(1, n - 1, n, blkSz);
    BlocksAdd(s + 1, n - 1, s + n, blkSz);
    var a, b, c := Blocks(s, blkSz), Blocks(s + 1, blkSz), Blocks(s, blkSz) + Blocks(n, blkSz);
    assert source[a..b] + source[b..c] == source[a..c];
  }

  /** What reading back the chunks gives. */
  function Shown(chunks: seq<Chunk>, blkSz: uint32, cb: WriteCb): seq<byte>
  {
    if chunks == [] then [] else ShownChunk(chunks[0], blkSz, cb) + Shown(chunks[1..], blkSz, cb)
  }

  /** As much of the data of a run as its size in 32 bits announces. */
  function Front(data: seq<byte>): seq<byte> {
    RawSize((12 + |data|) % 0x1_0000_0000, |data|);
    data[..|data| % 0x1_0000_0000]
  }

  function ShownChunk(c: Chunk, blkSz: uint32, cb: WriteCb): seq<byte>
  {
    if c.Raw? then Front(cb(c.start, c.count).1) else Zeros(Mul32(c.count % 0x1_0000_0000, blkSz))
  }

  /** A chunk whose count fits its field, with the data that belongs to it. */
  ghost predicate Describable(c: Chunk, blkSz: uint32, cb: WriteCb) {
    && c.count < 0x1_0000_0000
    && (c.Raw? ==> |cb(c.start, c.count).1| == Blocks(c.count, blkSz))
  }

  /** The size of the whole chunk fits its field, so that the next one can be found. */
  predicate Steps(c: Chunk, blkSz: uint32) {
    c.Raw? ==> 12 + Blocks(c.count, blkSz) < 0x1_0000_0000
  }

  lemma {:induction false} ReadsChunk(file: seq<byte>, off: nat, c: Chunk, blkSz: uint32, cb: WriteCb, mem: Memory)
    requires Describable(c, blkSz, cb)
    requires off + |ChunkBytes(c, blkSz, cb)| <= |file|
    requires file[off..off + |ChunkBytes(c, blkSz, cb)|] == ChunkBytes(c, blkSz, cb)
    ensures ReadChunkHeader(file, off).Some?
    ensures Steps(c, blkSz) ==> ReadChunkHeader(file, off).value.totalSz == |ChunkBytes(c, blkSz, cb)|
    ensures UnpackChunk(file, off, ReadChunkHeader(file, off).value, blkSz, mem) == Some(ShownChunk(c, blkSz, cb))
  {
    hide ChunkHeaderBytes, ReadChunkHeader, Field, Blocks, Mul32, UnpackChunk, Front;
    var b := ChunkBytes(c, blkSz, cb);
    var h := if c.Raw? then RawHeader(c.count, blkSz) else ChunkHeader(DONT_CARE, c.count % 0x1_0000_0000, 12);
    SubSlice(file, off, |b|, 0, 12);
    assert b[0..12] == ChunkHeaderBytes(h);
    ChunkHeaderRoundTrip(file, off, h);
    if c.Raw? {
      var data := cb(c.start, c.count).1;
      SubSlice(file, off, |b|, 12, 12 + |data|);
      assert b[12..12 + |data|] == data;
      UnpackRaw(file, off, h, blkSz, mem, data);
    } else {
      UnpackGap(file, off, h, blkSz, mem);
    }
  }

  lemma {:induction false} UnpackRaw(file: seq<byte>, off: nat, h: ChunkHeader, blkSz: uint32, mem: Memory,
                                     data: seq<byte>)
    requires h.kind == RAW && h.totalSz == (12 + |data|) % 0x1_0000_0000
    requires off + 12 + |data| <= |file| && file[off + 12..off + 12 + |data|] == data
    ensures UnpackChunk(file, off, h, blkSz, mem) == Some(Front(data))
  {
    RawSize(h.totalSz, |data|);
    var m := |data| % 0x1_0000_0000;
    assert file[off + 12..off + 12 + m] == file[off + 12..off + 12 + |data|][..m];
  }

  lemma {:induction false} UnpackGap(file: seq<byte>, off: nat, h: ChunkHeader, blkSz: uint32, mem: Memory)
    requires h.kind == DONT_CARE
    ensures UnpackChunk(file, off, h, blkSz, mem) == Some(Zeros(Mul32(h.chunkSz, blkSz)))
  {
    hide Mul32;
  }

  /** The reader gives what the chunks show. */
  lemma {:induction false} ReadsBack(
    file: seq<byte>, off: nat, chunks: seq<Chunk>, blkSz: uint32, cb: WriteCb, mem: Memory)
    requires off <= |file| && file[off..] == Body(chunks, blkSz, cb)
    requires forall k :: 0 <= k < |chunks| ==> Describable(chunks[k], blkSz, cb)
    requires forall k :: 0 <= k < |chunks| - 1 ==> Steps(chunks[k], blkSz)
    ensures Unpacked(file, off, |chunks|, blkSz, mem) == (true, Shown(chunks, blkSz, cb))
    decreases |chunks|
  {
    hide ChunkBytes, ReadChunkHeader, UnpackChunk, Blocks, ShownChunk, NextMemory, Describable, Steps;
    if chunks == [] {
      InterpretNothing(UnpackChunk, file, off, blkSz, mem);
    } else {
      var b := ChunkBytes(chunks[0], blkSz, cb);
      assert file[off..off + |b|] == file[off..][..|b|] == b;
      assert file[off + |b|..] == file[off..][|b|..] == Body(chunks[1..], blkSz, cb);
      ReadsChunk(file, off, chunks[0], blkSz, cb, mem);
      var c := ReadChunkHeader(file, off).value;
      var next := NextMemory(file, off, c, blkSz, mem);
      if |chunks| > 1 {
        ReadsBack(file, off + |b|, chunks[1..], blkSz, cb, next);
      } else {
        InterpretNothing(UnpackChunk, file, off + c.totalSz, blkSz, next);
        assert chunks[1..] == [] && ShownChunk(chunks[0], blkSz, cb) + [] == Shown(chunks, blkSz, cb);
      }
    }
  }

  /** Every gap and every run is shorter than 4 GiB. */
  ghost predicate AllFit(chunks: seq<Chunk>, blkSz: nat) {
    forall k :: 0 <= k < |chunks| ==> Blocks(chunks[k].count, blkSz) < 0x1_0000_0000
  }

  /** Every chunk in front of another one has a size that fits its field. */
  ghost predicate Findable(chunks: seq<Chunk>, blkSz: uint32) {
    forall k :: 0 <= k < |chunks| - 1 ==> Steps(chunks[k], blkSz)
  }

  /** The callback writes the blocks of `source`. */
  ghost predicate Copies(cb: WriteCb, source: seq<byte>, blkSz: nat, total: nat) {
    && |source| == Blocks(total, blkSz)
    && forall s: nat, n: nat :: s + n <= total ==>
         cb(s, n).0 >= 0 && Blocks(s, blkSz) + Blocks(n, blkSz) <= |source| && cb(s, n).1 == Slice(source, blkSz, s, n)
  }

  lemma {:induction false} CountsSmall(bits: seq<bool>, blk: nat)
    requires blk <= |bits|
    ensures forall k :: 0 <= k < |ChunksFrom(bits, blk)| ==> ChunksFrom(bits, blk)[k].count <= |bits|
    ensures forall k :: 0 <= k < |ChunksFrom(bits, blk)| && ChunksFrom(bits, blk)[k].Raw? ==>
      ChunksFrom(bits, blk)[k].start + ChunksFrom(bits, blk)[k].count <= |bits|
    decreases |bits| - blk
  {
    hide Find, ChunksFrom;
    ChunksFromStep(bits, blk);
    var s := Find(bits, blk, true);
    if s < |bits| {
      CountsSmall(bits, Find(bits, s + 1, false));
    }
  }

  lemma {:induction false} ShownStep(c: Chunk, rest: seq<Chunk>, blkSz: uint32, cb: WriteCb)
    ensures Shown([c] + rest, blkSz, cb) == ShownChunk(c, blkSz, cb) + Shown(rest, blkSz, cb)
  {
    assert ([c] + rest)[1..] == rest;
  }

  lemma {:induction false} FitsStep(c: Chunk, rest: seq<Chunk>, blkSz: nat)
    ensures AllFit([c] + rest, blkSz) <==> Blocks(c.count, blkSz) < 0x1_0000_0000 && AllFit(rest, blkSz)
    ensures AllFit([], blkSz)
  {
    hide Blocks;
    var all := [c] + rest;
    assert all[0] == c;
    assert forall k :: 1 <= k < |all| ==> all[k] == rest[k - 1];
    assert forall k :: 0 <= k < |rest| ==> rest[k] == all[k + 1];
  }

  lemma {:induction false} WrapLoses(a: uint32, b: uint32)
    ensures Mul32(a, b) <= Blocks(a, b)
    ensures Mul32(a, b) == Blocks(a, b) <==> Blocks(a, b) < 0x1_0000_0000
  {
    hide Blocks;
  }

  lemma {:induction false} FrontLoses(data: seq<byte>)
    ensures |Front(data)| <= |data|
    ensures |Front(data)| == |data| <==> |data| < 0x1_0000_0000
    ensures |Front(data)| == |data| ==> Front(data) == data
  {
    RawSize((12 + |data|) % 0x1_0000_0000, |data|);
  }

  /** The two ways in which a gap reads back. */
  lemma {:induction false} GapShown(n: nat, rest: seq<Chunk>, blkSz: uint32, cb: WriteCb)
    requires n < 0x1_0000_0000
    ensures var m := |Shown(Gap(n) + rest, blkSz, cb)| - |Shown(rest, blkSz, cb)|;
      && m <= Blocks(n, blkSz)
      && (AllFit(Gap(n) + rest, blkSz) <==> m == Blocks(n, blkSz) && AllFit(rest, blkSz))
      && (m == Blocks(n, blkSz) ==> Shown(Gap(n) + rest, blkSz, cb) == Zeros(Blocks(n, blkSz)) + Shown(rest, blkSz, cb))
  {
    hide Blocks, Mul32, Shown, AllFit;
    if n == 0 {
      BlocksOfOne(blkSz);
      assert Gap(n) + rest == rest && Zeros(0) + Shown(rest, blkSz, cb) == Shown(rest, blkSz, cb);
    } else {
      ShownStep(DontCare(n), rest, blkSz, cb);
      FitsStep(DontCare(n), rest, blkSz);
      WrapLoses(n, blkSz);
    }
  }

  /** The chunks show the masked source exactly when all sizes fit 32 bits; otherwise the output is shorter. */
  lemma {:induction false} ShownIsMasked(bits: seq<bool>, source: seq<byte>, blkSz: uint32, cb: WriteCb, blk: nat)
    requires blk <= |bits| < 0x1_0000_0000 && Copies(cb, source, blkSz, |bits|)
    ensures var chunks := ChunksFrom(bits, blk);
      && |Shown(chunks, blkSz, cb)| <= Blocks(|bits| - blk, blkSz)
      && (AllFit(chunks, blkSz) <==> |Shown(chunks, blkSz, cb)| == Blocks(|bits| - blk, blkSz))
      && (AllFit(chunks, blkSz) ==> Shown(chunks, blkSz, cb) == Masked(bits, source, blkSz, blk))
    decreases |bits| - blk
  {
    hide Find, ChunksFrom, Blocks, Shown, AllFit, Masked, Gap, Slice, Copies;
    ChunksFromStep(bits, blk);
    var s := Find(bits, blk, true);
    assert |source| == Blocks(|bits|, blkSz) by { CopyRun(bits, source, blkSz, cb, 0, 0); }
    MaskedGap(bits, source, blkSz, blk, s);
    if s == |bits| {
      LastShown(s - blk, blkSz, cb);
      MaskedNothing(bits, source, blkSz);
      assert Zeros(Blocks(s - blk, blkSz)) + [] == Zeros(Blocks(s - blk, blkSz));
    } else {
      var e := Find(bits, s + 1, false);
      ShownIsMasked(bits, source, blkSz, cb, e);
      ShownRun(bits, source, blkSz, cb, blk, s, e);
    }
  }

  lemma {:induction false} CopyRun(bits: seq<bool>, source: seq<byte>, blkSz: uint32, cb: WriteCb, s: nat, n: nat)
    requires Copies(cb, source, blkSz, |bits|) && s + n <= |bits|
    ensures |source| == Blocks(|bits|, blkSz) && Blocks(s, blkSz) + Blocks(n, blkSz) <= |source|
    ensures cb(s, n).1 == Slice(source, blkSz, s, n)
  {
    hide Blocks, Slice;
  }

  lemma {:induction false} ShownRun(bits: seq<bool>, source: seq<byte>, blkSz: uint32, cb: WriteCb, blk: nat,
                                    s: nat, e: nat)
    requires blk <= s < e <= |bits| < 0x1_0000_0000 && Copies(cb, source, blkSz, |bits|)
    requires |source| == Blocks(|bits|, blkSz)
    requires forall i :: s <= i < e ==> bits[i]
    requires var tail := ChunksFrom(bits, e);
      && |Shown(tail, blkSz, cb)| <= Blocks(|bits| - e, blkSz)
      && (AllFit(tail, blkSz) <==> |Shown(tail, blkSz, cb)| == Blocks(|bits| - e, blkSz))
      && (AllFit(tail, blkSz) ==> Shown(tail, blkSz, cb) == Masked(bits, source, blkSz, e))
    ensures var all := Gap(s - blk) + ([Raw(s, e - s)] + ChunksFrom(bits, e));
      && |Shown(all, blkSz, cb)| <= Blocks(|bits| - blk, blkSz)
      && (AllFit(all, blkSz) <==> |Shown(all, blkSz, cb)| == Blocks(|bits| - blk, blkSz))
      && (AllFit(all, blkSz) ==>
            Shown(all, blkSz, cb) == Zeros(Blocks(s - blk, blkSz)) + Masked(bits, source, blkSz, s))
  {
    hide Find, ChunksFrom, Blocks, Shown, AllFit, Masked, Gap, Slice, Copies;
    var run, tail := Raw(s, e - s), ChunksFrom(bits, e);
    MaskedRun(bits, source, blkSz, s, e);
    CopyRun(bits, source, blkSz, cb, s, e - s);
    FrontLoses(cb(s, e - s).1);
    ShownStep(run, tail, blkSz, cb);
    FitsStep(run, tail, blkSz);
    GapShown(s - blk, [run] + tail, blkSz, cb);
    BlocksAdd(s - blk, e - s, |bits| - blk, blkSz);
    BlocksAdd(e - blk, |bits| - e, |bits| - blk, blkSz);
  }

  lemma {:induction false} LastShown(n: nat, blkSz: uint32, cb: WriteCb)
    requires n < 0x1_0000_0000
    ensures |Shown(Gap(n), blkSz, cb)| <= Blocks(n, blkSz)
    ensures AllFit(Gap(n), blkSz) <==> |Shown(Gap(n), blkSz, cb)| == Blocks(n, blkSz)
    ensures AllFit(Gap(n), blkSz) ==> Shown(Gap(n), blkSz, cb) == Zeros(Blocks(n, blkSz))
  {
    hide Blocks, AllFit;
    FitsStep(DontCare(n), [], blkSz);
    GapShown(n, [], blkSz, cb);
    assert Gap(n) + [] == Gap(n);
    assert Zeros(Blocks(n, blkSz)) + [] == Zeros(Blocks(n, blkSz));
  }

  lemma {:induction false} MaskedNothing(bits: seq<bool>, source: seq<byte>, blkSz: nat)
    requires |source| == Blocks(|bits|, blkSz)
    ensures Masked(bits, source, blkSz, |bits|) == []
  {
  }

  /**
   * Unpacking a written image gives the source with every unmarked block zeroed, exactly when no gap and
   * no run reaches 4 GiB: their sizes are computed in 32 bits. This is for images in which every run in front
   * of another chunk fits together with its header; behind a longer one the next chunk is not found.
   */
  lemma {:induction false} RoundTrip(bits: seq<bool>, source: seq<byte>, blkSz: uint32, cb: WriteCb, mem: Memory)
    requires |bits| < 0x1_0000_0000 && Copies(cb, source, blkSz, |bits|)
    requires Findable(ChunksFrom(bits, 0), blkSz)
    ensures |ChunksFrom(bits, 0)| <= |bits|
    ensures ReadHeader(Image(bits, blkSz, cb)) == Some(Header(blkSz, |bits|, |ChunksFrom(bits, 0)|))
    ensures Unpacked(Image(bits, blkSz, cb), 28, |ChunksFrom(bits, 0)|, blkSz, mem).0
    ensures AllFit(ChunksFrom(bits, 0), blkSz) <==>
      Unpacked(Image(bits, blkSz, cb), 28, |ChunksFrom(bits, 0)|, blkSz, mem).1 == Masked(bits, source, blkSz, 0)
  {
    hide ChunksFrom, Body, Image, ReadHeader, Blocks, Shown, AllFit, Masked, Interpret, Findable, Copies, Describable;
    var chunks := ChunksFrom(bits, 0);
    ChunksCoverBlocks(bits, 0);
    ImageStarts(bits, blkSz, cb);
    ChunksDescribable(bits, source, blkSz, cb);
    ReadsBack(Image(bits, blkSz, cb), 28, chunks, blkSz, cb, mem);
    ShownIsMasked(bits, source, blkSz, cb, 0);
  }

  lemma {:induction false} ImageStarts(bits: seq<bool>, blkSz: uint32, cb: WriteCb)
    requires |bits| < 0x1_0000_0000 && |ChunksFrom(bits, 0)| <= |bits|
    ensures var image := Image(bits, blkSz, cb);
      && ReadHeader(image) == Some(Header(blkSz, |bits|, |ChunksFrom(bits, 0)|))
      && |image| >= 28 && image[28..] == Body(ChunksFrom(bits, 0), blkSz, cb)
  {
    hide ChunksFrom, Body, HeaderBytes, ReadHeader;
    HeaderRoundTrip(ImageHeader(bits, blkSz), Body(ChunksFrom(bits, 0), blkSz, cb));
  }

  lemma {:induction false} ChunksDescribable(bits: seq<bool>, source: seq<byte>, blkSz: uint32, cb: WriteCb)
    requires |bits| < 0x1_0000_0000 && Copies(cb, source, blkSz, |bits|)
    requires Findable(ChunksFrom(bits, 0), blkSz)
    ensures var chunks := ChunksFrom(bits, 0);
      && (forall k :: 0 <= k < |chunks| ==> Describable(chunks[k], blkSz, cb))
      && forall k :: 0 <= k < |chunks| - 1 ==> Steps(chunks[k], blkSz)
  {
    hide ChunksFrom, Blocks;
    CountsSmall(bits, 0);
  }

  /**
   * A longer run in front of another chunk: one block of 2^32 - 4 bytes and a gap. The size of the run's
   * chunk is stored as 8, so the reader takes that very field for the next header, and fails, whatever the data.
   */
  lemma {:induction false} LongRunFails(cb: WriteCb, mem: Memory)
    requires |cb(0, 1).1| == 0xFFFF_FFFC
    ensures ChunksFrom([true, false], 0) == [Raw(0, 1), DontCare(1)]
    ensures !Unpacked(Image([true, false], 0xFFFF_FFFC, cb), 28, 2, 0xFFFF_FFFC, mem).0
  {
    hide HeaderBytes, ChunkHeaderBytes, ReadChunkHeader, Field, LeBytes, UnpackChunk, NextMemory, ChunksFrom, Find;
    var bits, blkSz: uint32 := [true, false], 0xFFFF_FFFC;
    TwoBlocks();
    var c, raw := ChunkHeader(RAW, 1, 8), [Raw(0, 1), DontCare(1)];
    assert Blocks(1, blkSz) == blkSz;
    assert ChunkBytes(Raw(0, 1), blkSz, cb) == ChunkHeaderBytes(c) + cb(0, 1).1;
    var image := Image(bits, blkSz, cb);
    assert raw[1..] == [DontCare(1)];
    BodyStep(Raw(0, 1), [DontCare(1)], blkSz, cb);
    assert [Raw(0, 1)] + [DontCare(1)] == raw;
    assert image[28..28 + 12] == ChunkHeaderBytes(c);
    ChunkHeaderRoundTrip(image, 28, c);
    NextHeader(image, c);
    MalformedFails(image, 36, ReadChunkHeader(image, 36), 1, blkSz, NextMemory(image, 28, c, blkSz, mem));
    OneStep(image, 28, c, 2, blkSz, mem);
  }

  lemma {:induction false} TwoBlocks()
    ensures ChunksFrom([true, false], 0) == [Raw(0, 1), DontCare(1)]
  {
    var bits := [true, false];
    assert Find(bits, 0, true) == 0 && Find(bits, 1, false) == 1 && Find(bits, 1, true) == 2;
    ChunksFromStep(bits, 0);
    ChunksFromStep(bits, 1);
    assert Gap(0) + ([Raw(0, 1)] + [DontCare(1)]) == [Raw(0, 1), DontCare(1)];
  }

  /** The kind that is read at the place of a size of 8. */
  lemma {:induction false} NextHeader(image: seq<byte>, c: ChunkHeader)
    requires |image| >= 48 && image[28..28 + 12] == ChunkHeaderBytes(c) && c.totalSz == 8
    ensures ReadChunkHeader(image, 36).Some? && ReadChunkHeader(image, 36).value.kind == 8
  {
    hide LeBytes, LeValue, Field;
    SubSlice(image, 28, 12, 8, 10);
    assert ChunkHeaderBytes(c)[8..10] == LeBytes(8, 4)[0..2];
    EightInTwoBytes();
    FieldOfBytes(image, 36, 8, 2);
  }

  lemma {:induction false} EightInTwoBytes()
    ensures LeBytes(8, 4)[0..2] == LeBytes(8, 2)
  {
  }

  lemma {:induction false} MalformedFails(
    image: seq<byte>, off: nat, c: Option<ChunkHeader>, n: nat, blkSz: uint32, mem: Memory)
    requires n > 0 && c == ReadChunkHeader(image, off) && c.Some? && Malformed(c.value)
    ensures !Unpacked(image, off, n, blkSz, mem).0
  {
    hide ReadChunkHeader, Malformed, NextMemory;
    assert UnpackChunk(image, off, c.value, blkSz, mem).None?;
  }

  lemma {:induction false} OneStep(image: seq<byte>, off: nat, c: ChunkHeader, n: nat, blkSz: uint32, mem: Memory)
    requires n > 0 && ReadChunkHeader(image, off) == Some(c)
    requires !Unpacked(image, off + c.totalSz, n - 1, blkSz, NextMemory(image, off, c, blkSz, mem)).0
    ensures !Unpacked(image, off, n, blkSz, mem).0
  {
    hide ReadChunkHeader, UnpackChunk, NextMemory;
  }

  lemma {:induction false} CopiesSucceed(bits: seq<bool>, source: seq<byte>, blkSz: uint32, cb: WriteCb)
    requires Copies(cb, source, blkSz, |bits|)
    ensures NoneFails(ChunksFrom(bits, 0), cb)
  {
    hide ChunksFrom, Blocks, Slice;
    CountsSmall(bits, 0);
  }

  /**
   * Writing the marked blocks of an image and unpacking the result, for every bitmap whose chunks can all be
   * found: it is the masked source exactly when no gap and no run reaches 4 GiB.
   */
  method WriteThenUnpack(input: SparseInput, file: File, cb: WriteCb, before: Memory, ghost source: seq<byte>,
                         ghost bits: seq<bool>)
    returns (ret: int, ok: bool, out: seq<byte>)
    requires input.Valid() && input.error == 0 && input.chunkBitmasks != null && file.data == []
    requires bits == input.chunkBitmasks.Bits() && input.blksz < 0x1_0000_0000
    requires Copies(cb, source, input.blksz, |bits|) && Exact(cb, input.blksz)
    requires Findable(ChunksFrom(bits, 0), input.blksz)
    modifies input, file
    ensures ok && (out == Masked(bits, source, old(input.blksz), 0) <==> AllFit(ChunksFrom(bits, 0), old(input.blksz)))
    ensures ret >= 0 <==> true in bits
  {
    hide ChunksFrom, Outcome, Image, ReadHeader, Unpacked, Masked, Findable, AllFit, Copies, NoneFails, Blocks, BitsOf;
    CopiesSucceed(bits, source, input.blksz, cb);
    ReturnValue(bits, cb);
    RoundTrip(bits, source, input.blksz, cb, before);
    ret := input.Finish(file, cb);
    var h := ReadHeader(file.data);
    ok, out := Unpack(file.data, h.value, false, before);
  }
}
