/** Writing a sparse image from a bitmap of used blocks (android/android_sparse.c). */
module SparseWriter {
  import opened Base
  import opened Bitmask
  import opened SparseFormat

  datatype Chunk = DontCare(count: nat) | Raw(start: nat, count: nat)

  /** What the caller's callback returns and writes for a run of blocks; a negative result is a failure. */
  type WriteCb = (nat, nat) -> (int, seq<byte>)

  /** The chunks that describe the blocks from `blk` on. */
  function ChunksFrom(bits: seq<bool>, blk: nat): seq<Chunk>
    requires blk <= |bits|
    decreases |bits| - blk
  {
    var s := Find(bits, blk, true);
    if s == |bits| then Gap(s - blk)
    else
      var e := Find(bits, s + 1, false);
      Gap(s - blk) + ([Raw(s, e - s)] + ChunksFrom(bits, e))
  }

  function Gap(n: nat): seq<Chunk> {
    if n == 0 then [] else [DontCare(n)]
  }

  lemma {:induction false} ChunksFromStep(bits: seq<bool>, blk: nat)
    requires blk <= |bits|
    ensures var s := Find(bits, blk, true);
      if s == |bits| then ChunksFrom(bits, blk) == Gap(s - blk)
      else
        var e := Find(bits, s + 1, false);
        ChunksFrom(bits, blk) == Gap(s - blk) + ([Raw(s, e - s)] + ChunksFrom(bits, e))
  {
    hide Find, Gap;
  }

  function Total(chunks: seq<Chunk>): nat {
    if chunks == [] then 0 else chunks[0].count + Total(chunks[1..])
  }

  lemma {:induction false} TotalConcat(a: seq<Chunk>, b: seq<Chunk>)
    ensures Total(a + b) == Total(a) + Total(b)
    decreases |a|
  {
    if a == [] {
      assert a + b == b;
    } else {
      assert (a + b)[1..] == a[1..] + b;
      TotalConcat(a[1..], b);
    }
  }

  /** Every block is described once, and no chunk is empty. */
  lemma {:induction false} ChunksCoverBlocks(bits: seq<bool>, blk: nat)
    requires blk <= |bits|
    ensures Total(ChunksFrom(bits, blk)) == |bits| - blk
    ensures |ChunksFrom(bits, blk)| <= |bits| - blk
    decreases |bits| - blk
  {
    hide Find, ChunksFrom, Total;
    ChunksFromStep(bits, blk);
    var s := Find(bits, blk, true);
    TotalGap(s - blk);
    if s < |bits| {
      var e := Find(bits, s + 1, false);
      ChunksCoverBlocks(bits, e);
      TotalStep(Raw(s, e - s), ChunksFrom(bits, e));
      TotalConcat(Gap(s - blk), [Raw(s, e - s)] + ChunksFrom(bits, e));
    }
  }

  lemma {:induction false} TotalGap(n: nat)
    ensures Total(Gap(n)) == n && |Gap(n)| <= n
  {
  }

  lemma {:induction false} TotalStep(c: Chunk, rest: seq<Chunk>)
    ensures Total([c] + rest) == c.count + Total(rest)
  {
    assert ([c] + rest)[1..] == rest;
  }

  function ChunkBytes(c: Chunk, blkSz: nat, cb: WriteCb): seq<byte> {
    match c
    case DontCare(n) => ChunkHeaderBytes(ChunkHeader(DONT_CARE, n % 0x1_0000_0000, 12))
    case Raw(s, n) => ChunkHeaderBytes(RawHeader(n, blkSz)) + Filled(cb(s, n).1, Blocks(n, blkSz))
  }

  /** What a callback wrote; the part of its room that it left out reads as zeros. */
  function Filled(data: seq<byte>, n: nat): (r: seq<byte>)
    ensures |data| == n ==> r == data
    ensures |data| <= n ==> |r| == n
  {
    if |data| <= n then data + Zeros(n - |data|) else data
  }

  /** No callback writes past the blocks of its run. */
  ghost predicate Fits(cb: WriteCb, blkSz: nat) {
    forall s: nat, n: nat :: n > 0 && cb(s, n).0 >= 0 ==> |cb(s, n).1| <= n * blkSz
  }

  /** Every callback writes all the blocks of its run. */
  ghost predicate Exact(cb: WriteCb, blkSz: nat) {
    forall s: nat, n: nat :: n > 0 && cb(s, n).0 >= 0 ==> |cb(s, n).1| == n * blkSz
  }

  function RawHeader(n: nat, blkSz: nat): ChunkHeader {
    ChunkHeader(RAW, n % 0x1_0000_0000, (Blocks(n, blkSz) + 12) % 0x1_0000_0000)
  }

  function Body(chunks: seq<Chunk>, blkSz: nat, cb: WriteCb): seq<byte> {
    if chunks == [] then [] else ChunkBytes(chunks[0], blkSz, cb) + Body(chunks[1..], blkSz, cb)
  }

  lemma {:induction false} BodyConcat(a: seq<Chunk>, b: seq<Chunk>, blkSz: nat, cb: WriteCb)
    ensures Body(a + b, blkSz, cb) == Body(a, blkSz, cb) + Body(b, blkSz, cb)
    decreases |a|
  {
    if a == [] {
      assert a + b == b;
    } else {
      assert (a + b)[1..] == a[1..] + b;
      BodyConcat(a[1..], b, blkSz, cb);
    }
  }

  /** The whole file. */
  function Image(bits: seq<bool>, blkSz: nat, cb: WriteCb): seq<byte> {
    HeaderBytes(ImageHeader(bits, blkSz)) + Body(ChunksFrom(bits, 0), blkSz, cb)
  }

  function ImageHeader(bits: seq<bool>, blkSz: nat): Header {
    Header(blkSz % 0x1_0000_0000, |bits| % 0x1_0000_0000, |ChunksFrom(bits, 0)| % 0x1_0000_0000)
  }

  /** The result variable after the chunks: that of the last callback, or of the first one that fails. */
  function Outcome(chunks: seq<Chunk>, cb: WriteCb, ret: int): int {
    if chunks == [] then ret
    else if chunks[0].DontCare? then Outcome(chunks[1..], cb, ret)
    else
      var r := cb(chunks[0].start, chunks[0].count).0;
      if r < 0 then r else Outcome(chunks[1..], cb, r)
  }

  ghost predicate NoneFails(chunks: seq<Chunk>, cb: WriteCb) {
    forall k :: 0 <= k < |chunks| && chunks[k].Raw? ==> cb(chunks[k].start, chunks[k].count).0 >= 0
  }

  ghost predicate SomeRaw(chunks: seq<Chunk>) {
    exists k :: 0 <= k < |chunks| && chunks[k].Raw?
  }

  lemma {:induction false} OutcomeSign(chunks: seq<Chunk>, cb: WriteCb, ret: int)
    ensures Outcome(chunks, cb, ret) >= 0 <==> NoneFails(chunks, cb) && (ret >= 0 || SomeRaw(chunks))
    decreases |chunks|
  {
    if chunks != [] {
      var c, rest := chunks[0], chunks[1..];
      OutcomeSign(rest, cb, if c.Raw? then cb(c.start, c.count).0 else ret);
      assert forall k :: 1 <= k < |chunks| ==> chunks[k] == rest[k - 1];
      assert forall k :: 0 <= k < |rest| ==> rest[k] == chunks[k + 1];
      assert NoneFails(chunks, cb) == (NoneFails(rest, cb) && (c.Raw? ==> cb(c.start, c.count).0 >= 0)) by {
        if NoneFails(rest, cb) && (c.Raw? ==> cb(c.start, c.count).0 >= 0) {
          forall k | 0 <= k < |chunks| && chunks[k].Raw?
            ensures cb(chunks[k].start, chunks[k].count).0 >= 0
          {
            assert k > 0 ==> chunks[k] == rest[k - 1];
          }
        }
      }
      assert SomeRaw(chunks) == (c.Raw? || SomeRaw(rest)) by {
        if c.Raw? {
          assert chunks[0].Raw?;
        } else if SomeRaw(rest) {
          var k :| 0 <= k < |rest| && rest[k].Raw?;
          assert chunks[k + 1].Raw?;
        }
      }
    }
  }

  /** A chunk of data exists exactly when a bit is set. */
  lemma {:induction false} SomeRawIsSomeBit(bits: seq<bool>)
    ensures SomeRaw(ChunksFrom(bits, 0)) <==> true in bits
  {
    var s := Find(bits, 0, true);
    var chunks := ChunksFrom(bits, 0);
    if s < |bits| {
      assert bits[s];
      assert chunks[|Gap(s)|].Raw?;
    } else {
      assert forall k :: 0 <= k < |chunks| ==> chunks[k].DontCare?;
    }
  }

  /** The result is a success only when some block is marked, although the file is complete without that. */
  lemma {:induction false} ReturnValue(bits: seq<bool>, cb: WriteCb)
    ensures Outcome(ChunksFrom(bits, 0), cb, -1) >= 0 <==> NoneFails(ChunksFrom(bits, 0), cb) && true in bits
  {
    hide ChunksFrom, Outcome;
    OutcomeSign(ChunksFrom(bits, 0), cb, -1);
    SomeRawIsSomeBit(bits);
  }

  /** A file descriptor: contents and position. */
  class File {
    var data: seq<byte>
    var pos: nat

    method Seek(offset: nat)
      modifies this`pos
      ensures pos == offset
    {
      pos := offset;
    }

    method Write(bytes: seq<byte>)
      modifies this
      ensures data == WriteAt(old(data), old(pos), bytes) && pos == old(pos) + |bytes|
    {
      data := WriteAt(data, pos, bytes);
      pos := pos + |bytes|;
    }
  }

  /** The file holds `body` after room for the header, up to zeros at the end; before the first write it is empty. */
  ghost predicate Laid(data: seq<byte>, body: seq<byte>) {
    if body == [] then data == [] else |data| > 28 && UpToZeros(data, Zeros(28) + body)
  }

  ghost predicate LaidExactly(data: seq<byte>, body: seq<byte>) {
    data == if body == [] then [] else Zeros(28) + body
  }

  lemma {:induction false} LaidWrite(data: seq<byte>, body: seq<byte>, more: seq<byte>)
    requires Laid(data, body) && more != []
    ensures WriteAt(data, 28 + |body|, more) == Zeros(28) + (body + more)
    ensures body + more != []
    ensures Laid(WriteAt(data, 28 + |body|, more), body + more)
    ensures LaidExactly(WriteAt(data, 28 + |body|, more), body + more)
  {
    var full := Zeros(28) + body;
    if body == [] {
      assert full == data + Zeros(28);
    }
    WriteCompletes(data, full, more);
    var whole := Zeros(28) + (body + more);
    assert full + more == whole == whole + Zeros(0);
  }

  /** After a callback's write, the file position reaches the tracked offset exactly when its room is filled. */
  lemma {:induction false} LaidFill(data: seq<byte>, body: seq<byte>, got: seq<byte>, n: nat)
    requires LaidExactly(data, body) && body != [] && |got| <= n
    ensures Laid(WriteAt(data, 28 + |body|, got), body + Filled(got, n)) && body + Filled(got, n) != []
    ensures |got| == n ==> LaidExactly(WriteAt(data, 28 + |body|, got), body + Filled(got, n))
  {
    var r := WriteAt(data, 28 + |body|, got);
    var full := Zeros(28) + (body + Filled(got, n));
    assert r == Zeros(28) + body + got;
    assert full == r + Zeros(n - |got|);
  }

  lemma {:induction false} HeaderLast(data: seq<byte>, body: seq<byte>, header: seq<byte>)
    requires Laid(data, body) && |header| == 28
    ensures UpToZeros(WriteAt(data, 0, header), header + body)
    ensures LaidExactly(data, body) ==> WriteAt(data, 0, header) == header + body
  {
    var r := WriteAt(data, 0, header);
    if body == [] {
      assert r == header && header + body == r + Zeros(0);
    } else {
      var missing := 28 + |body| - |data|;
      assert data + Zeros(missing) == Zeros(28) + body;
      assert r == header + data[28..];
      assert data[28..] + Zeros(missing) == body by {
        assert (data + Zeros(missing))[28..] == data[28..] + Zeros(missing);
        assert (Zeros(28) + body)[28..] == body;
      }
      assert header + body == r + Zeros(missing);
    }
  }

  /** The state of the writing loop: what is still to be written from block `blk` on. */
  ghost predicate Progress(bits: seq<bool>, blkSz: nat, cb: WriteCb, body: seq<byte>, blk: nat, chunks: nat, ret: int) {
    var all := ChunksFrom(bits, 0);
    && blk <= |bits|
    && var rest := ChunksFrom(bits, blk);
    && Body(all, blkSz, cb) == body + Body(rest, blkSz, cb)
    && |all| == chunks + |rest|
    && Outcome(all, cb, -1) == Outcome(rest, cb, ret)
    && (NoneFails(all, cb) <==> NoneFails(rest, cb))
  }

  /** The bytes before the callback's: a gap, if there is one, and the header of the run. */
  function Lead(s: nat, e: nat, blk: nat, blkSz: nat): seq<byte>
    requires blk <= s < e
  {
    (if s == blk then [] else ChunkHeaderBytes(ChunkHeader(DONT_CARE, (s - blk) % 0x1_0000_0000, 12)))
    + ChunkHeaderBytes(RawHeader(e - s, blkSz))
  }

  lemma {:induction false} BodyStep(c: Chunk, rest: seq<Chunk>, blkSz: nat, cb: WriteCb)
    ensures Body([c] + rest, blkSz, cb) == ChunkBytes(c, blkSz, cb) + Body(rest, blkSz, cb)
    ensures Body([], blkSz, cb) == []
  {
    assert ([c] + rest)[1..] == rest;
  }

  lemma {:induction false} BodyOfRun(blk: nat, s: nat, e: nat, tail: seq<Chunk>, blkSz: nat, cb: WriteCb)
    requires blk <= s < e
    ensures Body(Gap(s - blk) + ([Raw(s, e - s)] + tail), blkSz, cb)
         == Lead(s, e, blk, blkSz) + Filled(cb(s, e - s).1, Blocks(e - s, blkSz)) + Body(tail, blkSz, cb)
  {
    hide ChunkHeaderBytes, RawHeader, Body, Filled;
    var raw := Raw(s, e - s);
    BodyConcat(Gap(s - blk), [raw] + tail, blkSz, cb);
    BodyStep(raw, tail, blkSz, cb);
    var head, data := ChunkHeaderBytes(RawHeader(e - s, blkSz)), Filled(cb(s, e - s).1, Blocks(e - s, blkSz));
    RegroupFour(Body(Gap(s - blk), blkSz, cb), head, data, Body(tail, blkSz, cb));
    if s == blk {
      BodyStep(raw, [], blkSz, cb);
    } else {
      BodyStep(DontCare(s - blk), [], blkSz, cb);
      assert [DontCare(s - blk)] + [] == [DontCare(s - blk)];
      assert ChunkBytes(DontCare(s - blk), blkSz, cb) + [] == ChunkBytes(DontCare(s - blk), blkSz, cb);
    }
  }

  lemma {:induction false} OutcomeOfRun(c: Chunk, tail: seq<Chunk>, cb: WriteCb, ret: int)
    requires c.Raw?
    ensures var r := cb(c.start, c.count).0;
      && (r < 0 ==> Outcome([c] + tail, cb, ret) == r && !NoneFails([c] + tail, cb))
      && (r >= 0 ==> Outcome([c] + tail, cb, ret) == Outcome(tail, cb, r))
      && (r >= 0 ==> NoneFails([c] + tail, cb) == NoneFails(tail, cb))
  {
    var all := [c] + tail;
    assert all[0] == c && all[1..] == tail;
    assert forall k :: 1 <= k < |all| ==> all[k] == tail[k - 1];
    assert forall k :: 0 <= k < |tail| ==> tail[k] == all[k + 1];
  }

  lemma {:induction false} ProgressRun(bits: seq<bool>, blkSz: nat, cb: WriteCb, body: seq<byte>, blk: nat,
                                       chunks: nat, ret: int)
    requires Progress(bits, blkSz, cb, body, blk, chunks, ret) && Find(bits, blk, true) < |bits|
    ensures var s := Find(bits, blk, true);
      var e := Find(bits, s + 1, false);
      var (r, data) := cb(s, e - s);
      && (r < 0 ==> !NoneFails(ChunksFrom(bits, 0), cb) && Outcome(ChunksFrom(bits, 0), cb, -1) == r)
      && (r >= 0 ==> Progress(bits, blkSz, cb,
                              (body + Lead(s, e, blk, blkSz)) + Filled(data, Blocks(e - s, blkSz)), e,
                              chunks + (if s == blk then 1 else 2), r))
  {
    hide Find, Lead, Body, Outcome, NoneFails, ChunksFrom, Filled;
    ChunksFromStep(bits, blk);
    var s := Find(bits, blk, true);
    var e := Find(bits, s + 1, false);
    var (r, data) := cb(s, e - s);
    var tail := ChunksFrom(bits, e);
    BodyOfRun(blk, s, e, tail, blkSz, cb);
    SkipGap(s - blk, [Raw(s, e - s)] + tail, cb, ret);
    OutcomeOfRun(Raw(s, e - s), tail, cb, ret);
    RegroupFour(body, Lead(s, e, blk, blkSz), Filled(data, Blocks(e - s, blkSz)), Body(tail, blkSz, cb));
  }

  lemma {:induction false} RegroupFour(a: seq<byte>, b: seq<byte>, c: seq<byte>, d: seq<byte>)
    ensures a + (b + c + d) == ((a + b) + c) + d
  {
  }

  lemma {:induction false} SkipGap(n: nat, chunks: seq<Chunk>, cb: WriteCb, ret: int)
    ensures Outcome(Gap(n) + chunks, cb, ret) == Outcome(chunks, cb, ret)
    ensures NoneFails(Gap(n) + chunks, cb) == NoneFails(chunks, cb)
  {
    var g := Gap(n) + chunks;
    if n == 0 {
      assert g == chunks;
    } else {
      assert g[1..] == chunks;
      assert forall k :: 1 <= k < |g| ==> g[k] == chunks[k - 1];
      assert forall k :: 0 <= k < |chunks| ==> chunks[k] == g[k + 1];
    }
  }

  lemma {:induction false} ProgressEnd(bits: seq<bool>, blkSz: nat, cb: WriteCb, body: seq<byte>, blk: nat,
                                       chunks: nat, ret: int)
    requires Progress(bits, blkSz, cb, body, blk, chunks, ret) && Find(bits, blk, true) == |bits|
    ensures var all := ChunksFrom(bits, 0);
      && NoneFails(all, cb) && Outcome(all, cb, -1) == ret
      && |all| == chunks + (if blk < |bits| then 1 else 0)
      && Body(all, blkSz, cb) == if blk < |bits|
           then body + ChunkHeaderBytes(ChunkHeader(DONT_CARE, (|bits| - blk) % 0x1_0000_0000, 12)) else body
  {
    hide Find, ChunkHeaderBytes, ChunksFrom, Body;
    ChunksFromStep(bits, blk);
    var gap := Gap(|bits| - blk);
    assert gap + [] == gap;
    SkipGap(|bits| - blk, [], cb, ret);
    BodyStep(DontCare(|bits| - blk), [], blkSz, cb);
    assert [DontCare(|bits| - blk)] + [] == [DontCare(|bits| - blk)];
    assert body + [] == body;
  }

  class SparseInput {
    var blksz: nat
    var totalBlks: nat
    var error: nat
    var chunkBitmasks: Bitmask?

    ghost predicate Valid()
      reads this
    {
      chunkBitmasks != null ==> chunkBitmasks.Valid() && chunkBitmasks.totalBits == totalBlks
    }

    constructor (blksz: nat, totalBlks: nat)
      requires totalBlks <= 0x7FFF_FFFF
      ensures Valid() && error == 0 && this.blksz == blksz && this.totalBlks == totalBlks
      ensures chunkBitmasks != null && fresh(chunkBitmasks) && fresh(chunkBitmasks.buffer)
      ensures chunkBitmasks.Bits() == seq(totalBlks, _ => false)
    {
      error := 0;
      this.blksz := blksz;
      this.totalBlks := totalBlks;
      chunkBitmasks := new Bitmask(totalBlks);
    }

    /**
     * Marks a range of blocks; a range past the end is remembered as an error, unless more than 2^31 of its
     * blocks lie there: the result is summed up in a signed integer and turns positive.
     */
    method AddChunk(blocknr: uint32, count: uint32) returns (ret: int)
      requires Valid()
      modifies this`error, if chunkBitmasks == null then {} else {chunkBitmasks.buffer}
      ensures Valid() && (chunkBitmasks == null ==> ret == -1 && error == old(error))
      ensures chunkBitmasks != null ==>
        && chunkBitmasks.Bits() == Painted(old(chunkBitmasks.Bits()), blocknr, count, true)
        && (ret == 0 <==> blocknr + count <= totalBlks || count == 0)
        && (ret < 0 <==> 0 < Outside(totalBlks, blocknr, count) <= 0x8000_0000)
        && error == old(error) + if 0 < Outside(totalBlks, blocknr, count) <= 0x8000_0000 then 1 else 0
    {
      if chunkBitmasks == null {
        return -1;
      }
      ret := chunkBitmasks.SetBits(blocknr, count);
      if ret < 0 {
        error := error + 1;
      }
    }

    method Free()
      modifies this
      ensures chunkBitmasks == null && error == 0 && blksz == old(blksz) && totalBlks == old(totalBlks)
    {
      chunkBitmasks := null;
      error := 0;
    }

    /**
     * Writes the image of the marked blocks and frees the bitmap. The header is written last, so
     * after a failure its place still holds zeros. The result stays -1 when no callback was made.
     */
    method Finish(file: File, cb: WriteCb) returns (ret: int)
      requires Valid() && file.data == [] && Fits(cb, blksz)
      modifies this, file
      ensures chunkBitmasks == null && error == 0
      ensures old(chunkBitmasks == null || error > 0) ==> ret == -1 && file.data == []
      ensures old(chunkBitmasks != null && error == 0) ==>
        Written(old(if chunkBitmasks == null then [] else chunkBitmasks.Bits()), old(blksz), cb, file.data, ret)
    {
      ret := -1;
      if chunkBitmasks != null && error == 0 {
        ret := WriteChunks(file, cb);
      }
      Free();
    }

    method WriteChunks(file: File, cb: WriteCb) returns (ret: int)
      requires Valid() && file.data == [] && chunkBitmasks != null && Fits(cb, blksz)
      modifies file
      ensures Written(chunkBitmasks.Bits(), blksz, cb, file.data, ret)
    {
      hide Find, RunsFrom, Written, State, BitsOf, FirstIndex, ContinueIterator.At;
      var blk: nat, totalChunks: nat, offset: nat := 0, 0, 28;
      ret := -1;
      var it := new ContinueIterator(chunkBitmasks);
      ghost var rest := RunsFrom(chunkBitmasks.Bits(), 0);
      ghost var body: seq<byte> := [];
      StateStart(chunkBitmasks.Bits(), blksz, cb, file.pos);
      while it.start >= 0
        invariant fresh(it) && it.b == chunkBitmasks && it.At(rest) && blk <= totalBlks
        invariant rest == RunsFrom(chunkBitmasks.Bits(), blk)
        invariant State(chunkBitmasks.Bits(), blksz, cb, file.data, file.pos, offset, body, blk, totalChunks, ret)
        decreases |rest|
      {
        AtRun(it, rest, blk);
        ret, offset, totalChunks, body := WriteRun(file, cb, it.start, it.bits, blk, offset, totalChunks, ret, body);
        if ret < 0 {
          return;
        }
        blk := it.start + it.bits;
        it.Next(rest);
        rest := rest[1..];
      }
      AtEnd(it, rest, blk);
      WriteTail(file, cb, offset, blk, totalChunks, ret, body);
    }

    /** One round of the loop: the chunks up to the end of the next run. */
    method WriteRun(file: File, cb: WriteCb, start: nat, count: nat, blk: nat, offset: nat, totalChunks: nat,
                    ghost ret: int, ghost body: seq<byte>)
      returns (ret': int, offset': nat, chunks': nat, ghost body': seq<byte>)
      requires Valid() && chunkBitmasks != null && Fits(cb, blksz)
      requires State(chunkBitmasks.Bits(), blksz, cb, file.data, file.pos, offset, body, blk, totalChunks, ret)
      requires blk <= start < totalBlks && start == Find(chunkBitmasks.Bits(), blk, true)
      requires start + count == Find(chunkBitmasks.Bits(), start + 1, false)
      modifies file
      ensures ret' < 0 ==> Written(chunkBitmasks.Bits(), blksz, cb, file.data, ret')
      ensures ret' >= 0 ==>
        State(chunkBitmasks.Bits(), blksz, cb, file.data, file.pos, offset', body', start + count, chunks', ret')
    {
      hide Find, ChunksFrom, Progress, Outcome, NoneFails, BitsOf, Lead, Filled, Laid, LaidExactly, Image;
      ProgressRun(chunkBitmasks.Bits(), blksz, cb, body, blk, totalChunks, ret);
      file.Seek(offset);
      var size: nat;
      ghost var lead;
      chunks', size, lead := WriteLead(file, start, count, blk, totalChunks, body);
      ret' := WriteData(file, cb, start, count, body + lead);
      offset' := offset + size + Blocks(count, blksz);
      body' := (body + lead) + Filled(cb(start, count).1, Blocks(count, blksz));
    }

    /** The gap before a run and the run's header. */
    method WriteLead(file: File, start: nat, count: nat, blk: nat, totalChunks: nat, ghost body: seq<byte>)
      returns (chunks: nat, size: nat, ghost lead: seq<byte>)
      requires blk <= start && count > 0
      requires Laid(file.data, body) && file.pos == 28 + |body|
      modifies file
      ensures lead == Lead(start, start + count, blk, blksz) && size == |lead| && body + lead != []
      ensures chunks == totalChunks + if start == blk then 1 else 2
      ensures LaidExactly(file.data, body + lead) && file.pos == 28 + |body + lead|
    {
      hide ChunkHeaderBytes, RawHeader, Laid, LaidExactly;
      ghost var before := body;
      lead := [];
      chunks, size := totalChunks, 0;
      if start != blk {
        var gap := ChunkHeaderBytes(ChunkHeader(DONT_CARE, (start - blk) % 0x1_0000_0000, 12));
        LaidWrite(file.data, body, gap);
        file.Write(gap);
        before, lead := body + gap, gap;
        chunks, size := chunks + 1, size + 12;
      }
      var raw := ChunkHeaderBytes(RawHeader(count, blksz));
      LaidWrite(file.data, before, raw);
      file.Write(raw);
      chunks, size := chunks + 1, size + 12;
      assert before + raw == body + (lead + raw);
      lead := lead + raw;
    }

    /** The callback's write; its result decides whether to go on. */
    method WriteData(file: File, cb: WriteCb, start: nat, count: nat, ghost body: seq<byte>) returns (ret: int)
      requires LaidExactly(file.data, body) && file.pos == 28 + |body| && body != [] && Fits(cb, blksz) && count > 0
      modifies file
      ensures ret == cb(start, count).0
      ensures |file.data| > 28 && file.data[..28] == Zeros(28)
      ensures ret >= 0 ==>
        var n := Blocks(count, blksz);
        var now := body + Filled(cb(start, count).1, n);
        && now != [] && |now| == |body| + n && Laid(file.data, now)
        && (Exact(cb, blksz) ==> LaidExactly(file.data, now) && file.pos == 28 + |now|)
    {
      var (r, data) := cb(start, count);
      file.Write(data);
      ret := r;
      if ret >= 0 {
        LaidFill(old(file.data), body, data, Blocks(count, blksz));
      }
    }

    /** The chunk for the blocks after the last run, and the header. */
    method WriteTail(file: File, cb: WriteCb, offset: nat, blk: nat, chunks: nat, ghost ret: int, ghost body: seq<byte>)
      requires Valid() && chunkBitmasks != null
      requires State(chunkBitmasks.Bits(), blksz, cb, file.data, file.pos, offset, body, blk, chunks, ret)
      requires Find(chunkBitmasks.Bits(), blk, true) == totalBlks
      modifies file
      ensures Written(chunkBitmasks.Bits(), blksz, cb, file.data, ret)
    {
      hide Find, ChunksFrom, ChunkHeaderBytes, HeaderBytes, Laid, LaidExactly, UpToZeros, Body, Outcome,
        NoneFails, BitsOf, Progress;
      ghost var bits := chunkBitmasks.Bits();
      ProgressEnd(bits, blksz, cb, body, blk, chunks, ret);
      var totalChunks := chunks;
      ghost var whole := body;
      if blk < totalBlks {
        file.Seek(offset);
        var last := ChunkHeaderBytes(ChunkHeader(DONT_CARE, (totalBlks - blk) % 0x1_0000_0000, 12));
        LaidWrite(file.data, body, last);
        file.Write(last);
        whole := body + last;
        totalChunks := totalChunks + 1;
      }
      var h := HeaderBytes(Header(blksz % 0x1_0000_0000, totalBlks % 0x1_0000_0000, totalChunks % 0x1_0000_0000));
      HeaderLast(file.data, whole, h);
      file.Seek(0);
      file.Write(h);
    }
  }

  /** The invariant of the writing loop. With exact callbacks the tracked offset is the file position. */
  ghost predicate State(bits: seq<bool>, blkSz: nat, cb: WriteCb, data: seq<byte>, pos: nat, offset: nat,
                        body: seq<byte>, blk: nat, chunks: nat, ret: int) {
    && Progress(bits, blkSz, cb, body, blk, chunks, ret)
    && Laid(data, body) && offset == 28 + |body|
    && (Exact(cb, blkSz) ==> LaidExactly(data, body) && (body != [] ==> pos == offset))
  }

  lemma {:induction false} StateStart(bits: seq<bool>, blkSz: nat, cb: WriteCb, pos: nat)
    ensures State(bits, blkSz, cb, [], pos, 28, [], 0, 0, -1)
  {
    hide Progress;
    ProgressStart(bits, blkSz, cb);
  }

  /** The run on which the iterator stands, when all before `blk` has been visited. */
  lemma {:induction false} AtRun(it: ContinueIterator, rest: seq<Run>, blk: nat)
    requires it.b.Valid() && it.At(rest) && it.start >= 0 && blk <= it.b.totalBits && rest == RunsFrom(it.b.Bits(), blk)
    ensures var bits := it.b.Bits();
      && rest != [] && blk <= it.start < |bits| && it.start == Find(bits, blk, true)
      && it.bits > 0 && it.start + it.bits == Find(bits, it.start + 1, false)
      && rest[1..] == RunsFrom(bits, it.start + it.bits)
  {
    hide Find, RunsFrom, BitsOf;
    RunsFromStep(it.b.Bits(), blk);
  }

  lemma {:induction false} AtEnd(it: ContinueIterator, rest: seq<Run>, blk: nat)
    requires it.b.Valid() && it.At(rest) && it.start < 0 && blk <= it.b.totalBits && rest == RunsFrom(it.b.Bits(), blk)
    ensures Find(it.b.Bits(), blk, true) == it.b.totalBits
  {
    hide Find, RunsFrom, BitsOf;
    RunsFromStep(it.b.Bits(), blk);
  }

  /** What finishing leaves in the file, and what it returns. */
  ghost predicate Written(bits: seq<bool>, blkSz: nat, cb: WriteCb, data: seq<byte>, ret: int) {
    var chunks := ChunksFrom(bits, 0);
    && ret == Outcome(chunks, cb, -1)
    && (NoneFails(chunks, cb) ==> UpToZeros(data, Image(bits, blkSz, cb)))
    && (NoneFails(chunks, cb) && Exact(cb, blkSz) ==> data == Image(bits, blkSz, cb))
    && (!NoneFails(chunks, cb) ==> |data| > 28 && data[..28] == Zeros(28))
  }

  lemma {:induction false} ProgressStart(bits: seq<bool>, blkSz: nat, cb: WriteCb)
    ensures Progress(bits, blkSz, cb, [], 0, 0, -1)
  {
    hide ChunksFrom, Body, Outcome, NoneFails;
    assert [] + Body(ChunksFrom(bits, 0), blkSz, cb) == Body(ChunksFrom(bits, 0), blkSz, cb);
  }
}
