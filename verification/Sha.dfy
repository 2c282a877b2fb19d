/** The SHA streams: SHA-1, SHA-224/256 and SHA-384/512 differ in parameters only (libs/hash/rfc6234). */
module Sha {
  import opened Base
  import opened BlockHash

  type Words = seq<nat>

  /** Codes returned and remembered by a context. */
  datatype Code = Success | InputTooLong | StateError

  /**
   * The parameters of a variant: words of 4 or 8 bytes, blocks of 16 words, a length field of two words,
   * the digest size, the initial value, and the compression function.
   */
  datatype Variant = Variant(wordBytes: nat, hashSize: nat, h0: Words, compress: Compress<Words>) {

    ghost predicate Valid() {
      && (wordBytes == 4 || wordBytes == 8)
      && hashSize <= Offset(|h0|)
      && forall h: Words, b: seq<byte> :: |compress(h, b)| == |h|
    }

    function BlockSize(): nat {
      16 * wordBytes
    }

    /** The modulus of each of the two length counters. */
    function Limb(): nat {
      if wordBytes == 4 then 0x1_0000_0000 else 0x1_0000_0000_0000_0000
    }

    function Padded(m: seq<byte>): seq<byte>
      requires wordBytes > 0
    {
      m + [0x80] + Zeros(PadZeros(BlockSize(), |m|, 2 * wordBytes)) + BeBytes(8 * |m|, 2 * wordBytes)
    }

    /** The specification: the padded message folded, and the leading bytes of the big-endian words. */
    function Digest(m: seq<byte>): seq<byte>
      requires wordBytes > 0
    {
      DigestBytes(Fold(compress, BlockSize(), h0, Padded(m)))
    }

    function DigestBytes(h: Words): (r: seq<byte>) {
      var all := WordsToBytes(h);
      if hashSize <= |all| then all[..hashSize] else all
    }

    /** The position of word `q` in a byte string of words. */
    function Offset(q: nat): nat {
      if wordBytes == 8 then 8 * q else 4 * q
    }

    function WordsToBytes(h: Words): (r: seq<byte>)
      ensures wordBytes == 4 || wordBytes == 8 ==> |r| == Offset(|h|)
    {
      if h == [] then [] else BeBytes(h[0], wordBytes) + WordsToBytes(h[1..])
    }

    /** Byte `r` of word `q`, counted from the most significant byte. */
    lemma {:induction false} WordsToBytesAt(h: Words, q: nat, r: nat)
      requires wordBytes == 4 || wordBytes == 8
      requires q < |h| && r < wordBytes
      ensures WordsToBytes(h)[Offset(q) + r] == DropBytes(h[q], wordBytes - 1 - r) % 0x100
    {
      if q == 0 {
        BeBytesAt(h[0], wordBytes, r);
      } else {
        WordsToBytesAt(h[1..], q - 1, r);
        assert WordsToBytes(h)[Offset(q) + r] == WordsToBytes(h[1..])[Offset(q - 1) + r];
      }
    }
  }

  function Sha1(compress: Compress<Words>): Variant {
    Variant(4, 20, [0x67452301, 0xEFCDAB89, 0x98BADCFE, 0x10325476, 0xC3D2E1F0], compress)
  }

  function Sha224(compress: Compress<Words>): Variant {
    Variant(4, 28, [0xC1059ED8, 0x367CD507, 0x3070DD17, 0xF70E5939,
                    0xFFC00B31, 0x68581511, 0x64F98FA7, 0xBEFA4FA4], compress)
  }

  function Sha256(compress: Compress<Words>): Variant {
    Variant(4, 32, [0x6A09E667, 0xBB67AE85, 0x3C6EF372, 0xA54FF53A,
                    0x510E527F, 0x9B05688C, 0x1F83D9AB, 0x5BE0CD19], compress)
  }

  function Sha384(compress: Compress<Words>): Variant {
    Variant(8, 48, [0xCBBB9D5DC1059ED8, 0x629A292A367CD507, 0x9159015A3070DD17, 0x152FECD8F70E5939,
                    0x67332667FFC00B31, 0x8EB44A8768581511, 0xDB0C2E0D64F98FA7, 0x47B5481DBEFA4FA4], compress)
  }

  function Sha512(compress: Compress<Words>): Variant {
    Variant(8, 64, [0x6A09E667F3BCC908, 0xBB67AE8584CAA73B, 0x3C6EF372FE94F82B, 0xA54FF53A5F1D36F1,
                    0x510E527FADE682D1, 0x9B05688C2B3E6C1F, 0x1F83D9ABFB41BD6B, 0x5BE0CD19137E2179], compress)
  }

  /** The five hashes are instances, for every compression function that keeps the number of words. */
  lemma {:induction false} InstancesValid(compress: Compress<Words>)
    requires forall h: Words, b: seq<byte> :: |compress(h, b)| == |h|
    ensures Sha1(compress).Valid() && Sha224(compress).Valid() && Sha256(compress).Valid()
    ensures Sha384(compress).Valid() && Sha512(compress).Valid()
  {
  }

  /** `h` holds the first `bits` bits behind the point of the square root of `p`, whose whole part is `whole`. */
  predicate RootBits(p: nat, whole: nat, h: nat, limb: nat) {
    var s := whole * limb + h;
    h < limb && s * s <= p * (limb * limb) < (s + 1) * (s + 1)
  }

  lemma {:induction false} FirstRoots32()
    ensures RootBits(2, 1, 0x6A09E667, 0x1_0000_0000)
    ensures RootBits(3, 1, 0xBB67AE85, 0x1_0000_0000)
    ensures RootBits(5, 2, 0x3C6EF372, 0x1_0000_0000)
    ensures RootBits(7, 2, 0xA54FF53A, 0x1_0000_0000)
    ensures RootBits(11, 3, 0x510E527F, 0x1_0000_0000)
    ensures RootBits(13, 3, 0x9B05688C, 0x1_0000_0000)
    ensures RootBits(17, 4, 0x1F83D9AB, 0x1_0000_0000)
    ensures RootBits(19, 4, 0x5BE0CD19, 0x1_0000_0000)
  {
  }

  lemma {:induction false} FirstRoots64()
    ensures RootBits(2, 1, 0x6A09E667F3BCC908, 0x1_0000_0000_0000_0000)
    ensures RootBits(3, 1, 0xBB67AE8584CAA73B, 0x1_0000_0000_0000_0000)
    ensures RootBits(5, 2, 0x3C6EF372FE94F82B, 0x1_0000_0000_0000_0000)
    ensures RootBits(7, 2, 0xA54FF53A5F1D36F1, 0x1_0000_0000_0000_0000)
    ensures RootBits(11, 3, 0x510E527FADE682D1, 0x1_0000_0000_0000_0000)
    ensures RootBits(13, 3, 0x9B05688C2B3E6C1F, 0x1_0000_0000_0000_0000)
    ensures RootBits(17, 4, 0x1F83D9ABFB41BD6B, 0x1_0000_0000_0000_0000)
    ensures RootBits(19, 4, 0x5BE0CD19137E2179, 0x1_0000_0000_0000_0000)
  {
  }

  lemma {:induction false} NextRoots64()
    ensures RootBits(23, 4, 0xCBBB9D5DC1059ED8, 0x1_0000_0000_0000_0000)
    ensures RootBits(29, 5, 0x629A292A367CD507, 0x1_0000_0000_0000_0000)
    ensures RootBits(31, 5, 0x9159015A3070DD17, 0x1_0000_0000_0000_0000)
    ensures RootBits(37, 6, 0x152FECD8F70E5939, 0x1_0000_0000_0000_0000)
    ensures RootBits(41, 6, 0x67332667FFC00B31, 0x1_0000_0000_0000_0000)
    ensures RootBits(43, 6, 0x8EB44A8768581511, 0x1_0000_0000_0000_0000)
    ensures RootBits(47, 6, 0xDB0C2E0D64F98FA7, 0x1_0000_0000_0000_0000)
    ensures RootBits(53, 7, 0x47B5481DBEFA4FA4, 0x1_0000_0000_0000_0000)
  {
  }

  /** The roots of the first eight primes, to 32 and to 64 bits: sections 5.3.3 and 5.3.5 of FIPS 180-3. */
  lemma {:induction false} FirstRoots(compress: Compress<Words>)
    ensures var h, limb := Sha256(compress).h0, 0x1_0000_0000;
      && |h| == 8
      && RootBits(2, 1, h[0], limb) && RootBits(3, 1, h[1], limb) && RootBits(5, 2, h[2], limb)
      && RootBits(7, 2, h[3], limb) && RootBits(11, 3, h[4], limb) && RootBits(13, 3, h[5], limb)
      && RootBits(17, 4, h[6], limb) && RootBits(19, 4, h[7], limb)
    ensures var h, limb := Sha512(compress).h0, 0x1_0000_0000_0000_0000;
      && |h| == 8
      && RootBits(2, 1, h[0], limb) && RootBits(3, 1, h[1], limb) && RootBits(5, 2, h[2], limb)
      && RootBits(7, 2, h[3], limb) && RootBits(11, 3, h[4], limb) && RootBits(13, 3, h[5], limb)
      && RootBits(17, 4, h[6], limb) && RootBits(19, 4, h[7], limb)
  {
    hide RootBits;
    FirstRoots32();
    FirstRoots64();
  }

  /** The roots of the next eight primes; SHA-224 starts with the low halves of their 64 bits. */
  lemma {:induction false} NextRoots(compress: Compress<Words>)
    ensures var h, limb := Sha384(compress).h0, 0x1_0000_0000_0000_0000;
      && |h| == 8
      && RootBits(23, 4, h[0], limb) && RootBits(29, 5, h[1], limb) && RootBits(31, 5, h[2], limb)
      && RootBits(37, 6, h[3], limb) && RootBits(41, 6, h[4], limb) && RootBits(43, 6, h[5], limb)
      && RootBits(47, 6, h[6], limb) && RootBits(53, 7, h[7], limb)
    ensures |Sha224(compress).h0| == 8
    ensures forall i :: 0 <= i < 8 ==> Sha224(compress).h0[i] == Sha384(compress).h0[i] % 0x1_0000_0000
  {
    hide RootBits;
    NextRoots64();
  }

  /** SHA-1 starts with the words whose bytes, least significant first, count up and down. */
  lemma {:induction false} CountingBytes(compress: Compress<Words>)
    ensures var h := Sha1(compress).h0;
      && |h| == 5
      && LeBytes(h[0], 4) == [0x01, 0x23, 0x45, 0x67] && LeBytes(h[1], 4) == [0x89, 0xab, 0xcd, 0xef]
      && LeBytes(h[2], 4) == [0xfe, 0xdc, 0xba, 0x98] && LeBytes(h[3], 4) == [0x76, 0x54, 0x32, 0x10]
      && LeBytes(h[4], 4) == [0xf0, 0xe1, 0xd2, 0xc3]
  {
    hide LeBytes;
    var h := Sha1(compress).h0;
    CountingUp();
    CountingDown();
    FourLeBytes(h[4]);
  }

  /** Word, block and digest sizes, in bytes. */
  lemma {:induction false} Sizes(compress: Compress<Words>, m: seq<byte>)
    requires forall h: Words, b: seq<byte> :: |compress(h, b)| == |h|
    ensures |Sha1(compress).Digest(m)| == 20 && |Sha224(compress).Digest(m)| == 28
    ensures |Sha256(compress).Digest(m)| == 32 && |Sha384(compress).Digest(m)| == 48
    ensures |Sha512(compress).Digest(m)| == 64
    ensures IsPadded(Sha1(compress).Padded(m), m, 64, 8, true)
    ensures IsPadded(Sha224(compress).Padded(m), m, 64, 8, true)
    ensures IsPadded(Sha256(compress).Padded(m), m, 64, 8, true)
    ensures IsPadded(Sha384(compress).Padded(m), m, 128, 16, true)
    ensures IsPadded(Sha512(compress).Padded(m), m, 128, 16, true)
  {
    hide Variant.Digest, Variant.Padded, IsPadded;
    InstancesValid(compress);
    DigestSize(Sha1(compress), m);
    DigestSize(Sha224(compress), m);
    DigestSize(Sha256(compress), m);
    DigestSize(Sha384(compress), m);
    DigestSize(Sha512(compress), m);
    PaddedMeans(Sha1(compress), m);
    PaddedMeans(Sha224(compress), m);
    PaddedMeans(Sha256(compress), m);
    PaddedMeans(Sha384(compress), m);
    PaddedMeans(Sha512(compress), m);
  }

  lemma {:induction false} PaddedMeans(v: Variant, m: seq<byte>)
    requires v.Valid()
    ensures IsPadded(v.Padded(m), m, 16 * v.wordBytes, 2 * v.wordBytes, true)
  {
    hide BeBytes, DropBytes, PadZeros;
    var p, n := v.Padded(m), 2 * v.wordBytes;
    var len := BeBytes(8 * |m|, n);
    PadZerosFit(v.BlockSize(), |m|, n);
    assert p == m + [0x80] + Zeros(PadZeros(v.BlockSize(), |m|, n)) + len;
    forall j | 0 <= j < n
      ensures p[|p| - 1 - j] == DropBytes(8 * |m|, j) % 0x100
    {
      BeBytesAt(8 * |m|, n, n - 1 - j);
      assert p[|p| - 1 - j] == len[n - 1 - j];
    }
  }

  lemma {:induction false} FoldKeepsLength(compress: Compress<Words>, size: nat, h: Words, data: seq<byte>)
    requires size > 0 && forall h: Words, b: seq<byte> :: |compress(h, b)| == |h|
    ensures |Fold(compress, size, h, data)| == |h|
    decreases |data|
  {
    if |data| >= size {
      FoldKeepsLength(compress, size, compress(h, data[..size]), data[size..]);
    }
  }

  /** A digest has the size of its hash: SHA-224 and SHA-384 drop words, the others keep all. */
  lemma {:induction false} DigestSize(v: Variant, m: seq<byte>)
    requires v.Valid()
    ensures |v.Digest(m)| == v.hashSize
  {
    FoldKeepsLength(v.compress, v.BlockSize(), v.h0, v.Padded(m));
  }

  /** What a context holds of the message fed so far. */
  ghost predicate Absorbed(v: Variant, m: seq<byte>, hash: Words, high: nat, low: nat, block: seq<byte>, index: nat)
    requires v.Valid()
  {
    && index < |block| == v.BlockSize()
    && hash == Fold(v.compress, v.BlockSize(), v.h0, m)
    && block[..index] == Tail(v.BlockSize(), m)
    && 8 * |m| == high * v.Limb() + low
  }

  /** A byte stored at the block index: a full block is compressed, a partial one is the new tail. */
  lemma {:induction false} AbsorbByte(v: Variant, m: seq<byte>, hash: Words, block: seq<byte>, index: nat, x: byte)
    requires v.Valid() && index < |block| == v.BlockSize()
    requires hash == Fold(v.compress, v.BlockSize(), v.h0, m) && block[..index] == Tail(v.BlockSize(), m)
    ensures index + 1 == v.BlockSize() ==>
      && v.compress(hash, block[index := x]) == Fold(v.compress, v.BlockSize(), v.h0, m + [x])
      && Tail(v.BlockSize(), m + [x]) == []
    ensures index + 1 < v.BlockSize() ==>
      && hash == Fold(v.compress, v.BlockSize(), v.h0, m + [x])
      && Tail(v.BlockSize(), m + [x]) == block[index := x][..index + 1]
  {
    var t := Tail(v.BlockSize(), m) + [x];
    FoldMore(v.compress, v.BlockSize(), v.h0, m, [x]);
    assert t == block[index := x][..index + 1];
    if index + 1 == v.BlockSize() {
      assert t == block[index := x];
      OneBlock(v.compress, v.BlockSize(), hash, t);
    } else {
      ShortTail(v.BlockSize(), t);
    }
  }

  /** The number of padding zeros, from the block index alone. */
  lemma {:induction false} PadZerosValue(v: Variant, n: nat, index: nat)
    requires v.Valid() && index == n % v.BlockSize()
    ensures PadZeros(v.BlockSize(), n, 2 * v.wordBytes)
         == if index < v.BlockSize() - 2 * v.wordBytes then v.BlockSize() - 2 * v.wordBytes - 1 - index
            else 2 * v.BlockSize() - 2 * v.wordBytes - 1 - index
  {
    var size, len := v.BlockSize(), 2 * v.wordBytes;
    PadZerosRemainder(size, len, n, n / size, index);
  }

  /** The block that holds the marker when the length no longer fits behind it, and the last block. */
  function MarkerBlock(v: Variant, tail: seq<byte>, pad: byte): seq<byte>
    requires |tail| < v.BlockSize()
  {
    tail + [pad] + Zeros(v.BlockSize() - |tail| - 1)
  }

  function LastBlock(v: Variant, tail: seq<byte>, pad: byte, len: seq<byte>): seq<byte>
    requires |len| == 2 * v.wordBytes && v.Valid()
  {
    if |tail| >= v.BlockSize() - |len| then Zeros(v.BlockSize() - |len|) + len
    else tail + [pad] + Zeros(v.BlockSize() - |len| - |tail| - 1) + len
  }

  /** Padding emits one block, or two when the tail leaves no room for the length. */
  lemma {:induction false} PadFold(v: Variant, m: seq<byte>, pad: byte, len: seq<byte>)
    requires v.Valid() && |len| == 2 * v.wordBytes
    ensures var hash, tail := Fold(v.compress, v.BlockSize(), v.h0, m), Tail(v.BlockSize(), m);
      Fold(v.compress, v.BlockSize(), v.h0, m + [pad] + Zeros(PadZeros(v.BlockSize(), |m|, 2 * v.wordBytes)) + len)
      == v.compress(if |tail| >= v.BlockSize() - |len| then v.compress(hash, MarkerBlock(v, tail, pad)) else hash,
                    LastBlock(v, tail, pad, len))
  {
    hide Fold, Tail, PadZeros;
    var size := v.BlockSize();
    var hash, tail := Fold(v.compress, size, v.h0, m), Tail(size, m);
    var zeros := Zeros(PadZeros(size, |m|, 2 * v.wordBytes));
    var suffix := [pad] + zeros + len;
    assert m + [pad] + zeros + len == m + suffix;
    FoldMore(v.compress, size, v.h0, m, suffix);
    PadZerosValue(v, |m|, |tail|);
    var last := LastBlock(v, tail, pad, len);
    if |tail| >= size - |len| {
      var first := MarkerBlock(v, tail, pad);
      assert tail + suffix == first + last;
      RemainderUnique(size, size, 1, 0);
      FoldConcat(v.compress, size, hash, first, last);
      OneBlock(v.compress, size, hash, first);
      OneBlock(v.compress, size, v.compress(hash, first), last);
    } else {
      assert tail + suffix == last;
      OneBlock(v.compress, size, hash, last);
    }
  }

  class Context {
    const variant: Variant
    const block: array<byte>
    var hash: Words
    var lengthHigh: nat
    var lengthLow: nat
    var index: nat
    var computed: bool
    var corrupted: Code

    /** The bytes fed since the context was reset. */
    ghost var message: seq<byte>

    ghost predicate Valid()
      reads this, block
    {
      && variant.Valid() && block.Length == variant.BlockSize()
      && lengthHigh < variant.Limb() && lengthLow < variant.Limb()
      && |hash| == |variant.h0|
      && (corrupted.Success? && !computed ==> Absorbed(variant, message, hash, lengthHigh, lengthLow, block[..], index))
      && (corrupted.Success? && computed ==>
            hash == Fold(variant.compress, variant.BlockSize(), variant.h0, variant.Padded(message)))
    }

    constructor (variant: Variant)
      requires variant.Valid()
      ensures Valid() && fresh(block) && this.variant == variant
      ensures message == [] && corrupted.Success? && !computed
    {
      this.variant := variant;
      block := new byte[variant.BlockSize()](_ => 0);
      hash := variant.h0;
      lengthHigh, lengthLow, index := 0, 0, 0;
      computed := false;
      corrupted := Success;
      message := [];
    }

    /** Adds to the split bit counter; only a carry out of both halves is an error. */
    method AddLength(n: nat) returns (r: Code)
      requires 0 < n < variant.Limb() && lengthHigh < variant.Limb() && lengthLow < variant.Limb()
      modifies `lengthHigh, `lengthLow, `corrupted
      ensures lengthHigh < variant.Limb() && lengthLow < variant.Limb()
      ensures var total := old(lengthHigh) * variant.Limb() + old(lengthLow) + n;
        var limit := variant.Limb() * variant.Limb();
        if total < limit then lengthHigh * variant.Limb() + lengthLow == total && r == old(corrupted)
        else lengthHigh * variant.Limb() + lengthLow == total - limit && r == InputTooLong
      ensures r == corrupted
    {
      var limb := variant.Limb();
      var addTemp := lengthLow;
      lengthLow := (lengthLow + n) % limb;
      if lengthLow < addTemp {
        lengthHigh := (lengthHigh + 1) % limb;
        if lengthHigh == 0 {
          corrupted := InputTooLong;
        }
      }
      r := corrupted;
    }

    method ProcessBlock()
      requires variant.Valid() && block.Length == variant.BlockSize()
      modifies `hash, `index
      ensures hash == variant.compress(old(hash), block[..]) && index == 0
    {
      hash := variant.compress(hash, block[..]);
      index := 0;
    }

    /** What a message of `n` bytes leaves: the counter overflows with the byte that completes its range. */
    function Status(n: nat): Code {
      if 8 * n == variant.Limb() * variant.Limb() then InputTooLong else Success
    }

    /** One turn of the input loop. */
    method InputByte(x: byte)
      requires Valid() && corrupted.Success? && !computed
      requires 8 * (|message| + 1) <= variant.Limb() * variant.Limb()
      modifies this, block
      ensures Valid() && corrupted == Status(|message|) && !computed
      ensures message == old(message) + [x]
    {
      AbsorbByte(variant, message, hash, block[..], index, x);
      block[index] := x;
      index := index + 1;
      message := message + [x];
      var r := AddLength(8);
      if r.Success? && index == variant.BlockSize() {
        ProcessBlock();
      }
    }

    /** A context that is not corrupted has not reached the end of its counter. */
    lemma {:induction false} NotFull()
      requires Valid() && corrupted.Success? && !computed
      ensures 8 * |message| < variant.Limb() * variant.Limb()
    {
      MulMonotone(lengthHigh, variant.Limb() - 1, variant.Limb());
      assert (variant.Limb() - 1) * variant.Limb() == variant.Limb() * variant.Limb() - variant.Limb();
    }

    /**
     * Feeds data. A context whose digest has been computed is corrupted by it; one that is corrupted stays so.
     * Otherwise a message is corrupted exactly when its bit length no longer fits the counter. The byte with which
     * that happens is the last one that the loop can take: it fills the block, which is then not processed.
     */
    method Input(data: seq<byte>) returns (r: Code)
      requires Valid()
      requires corrupted.Success? && !computed ==> 8 * (|message| + |data|) <= variant.Limb() * variant.Limb()
      modifies this, block
      ensures Valid() && computed == old(computed)
      ensures r == if data == [] then Success
                   else if old(computed) then StateError
                   else if !old(corrupted).Success? then old(corrupted) else Status(|message|)
      ensures corrupted == if data == [] then old(corrupted) else r
      ensures message == old(message) + if old(corrupted).Success? && !old(computed) then data else []
    {
      assert message + [] == message;
      if data == [] {
        return Success;
      }
      if computed {
        corrupted := StateError;
        return StateError;
      }
      if !corrupted.Success? {
        return corrupted;
      }
      NotFull();
      for i := 0 to |data|
        invariant Valid() && corrupted == Status(|message|) && !computed
        invariant message == old(message) + data[..i]
      {
        InputByte(data[i]);
        assert data[..i + 1] == data[..i] + [data[i]];
      }
      assert data[..|data|] == data;
      return corrupted;
    }

    /** Fills the block with zeros from the index up to `end`. */
    method ZeroTo(end: nat)
      requires index <= end <= block.Length
      modifies `index, block
      ensures index == end
      ensures block[..] == old(block[..])[..old(index)] + Zeros(end - old(index)) + old(block[..])[end..]
    {
      ghost var start := index;
      while index < end
        invariant start <= index <= end
        invariant forall i :: start <= i < index ==> block[i] == 0
        invariant forall i :: 0 <= i < block.Length && !(start <= i < index) ==> block[i] == old(block[i])
      {
        block[index] := 0;
        index := index + 1;
      }
    }

    /** Stores a length word, most significant byte first. */
    method StoreWord(x: nat, offset: nat)
      requires variant.Valid() && offset + variant.wordBytes <= block.Length
      modifies block
      ensures block[..] == old(block[..])[..offset] + BeBytes(x, variant.wordBytes)
                         + old(block[..])[offset + variant.wordBytes..]
    {
      hide DropBytes, BeBytes;
      for j := 0 to variant.wordBytes
        invariant forall i :: 0 <= i < block.Length ==>
          block[i] == if offset <= i < offset + j then BeBytes(x, variant.wordBytes)[i - offset] else old(block[i])
      {
        BeBytesAt(x, variant.wordBytes, j);
        block[offset + j] := DropBytes(x, variant.wordBytes - 1 - j) % 0x100;
      }
    }

    /** Appends the marker, and completes the block with zeros when the length no longer fits. */
    method AppendMarker(pad: byte)
      requires variant.Valid() && block.Length == variant.BlockSize() && index < block.Length
      modifies `hash, `index, block
      ensures var tail, room := old(block[..index]), variant.BlockSize() - 2 * variant.wordBytes;
        if |tail| >= room then hash == variant.compress(old(hash), MarkerBlock(variant, tail, pad)) && index == 0
        else hash == old(hash) && index == |tail| + 1 && block[..index] == tail + [pad]
    {
      hide BeBytes, DropBytes;
      var size, w := variant.BlockSize(), variant.wordBytes;
      ghost var tail := block[..index];
      block[index] := pad;
      index := index + 1;
      assert block[..index] == tail + [pad];
      if index - 1 >= size - 2 * w {
        ZeroTo(size);
        assert block[..] == MarkerBlock(variant, tail, pad);
        ProcessBlock();
      }
    }

    /** Fills up with zeros and stores the bit length in the last two words of the block. */
    method AppendLength()
      requires variant.Valid() && block.Length == variant.BlockSize()
      requires index <= block.Length - 2 * variant.wordBytes
      modifies `index, block
      ensures block[..] == old(block[..index]) + Zeros(block.Length - 2 * variant.wordBytes - old(index))
                         + (BeBytes(lengthHigh, variant.wordBytes) + BeBytes(lengthLow, variant.wordBytes))
    {
      var size, w := variant.BlockSize(), variant.wordBytes;
      ghost var head := block[..index] + Zeros(size - 2 * w - index);
      ZeroTo(size - 2 * w);
      assert block[..size - 2 * w] == head;
      StoreWord(lengthHigh, size - 2 * w);
      assert block[..size - w] == head + BeBytes(lengthHigh, w);
      StoreWord(lengthLow, size - w);
    }

    /** Pads the block, stores the length, and compresses the one or two blocks that result. */
    method PadMessage(pad: byte)
      requires Valid() && corrupted.Success? && !computed
      modifies `hash, `index, block
      ensures index == 0 && |hash| == |variant.h0|
      ensures var size, len := variant.BlockSize(), 2 * variant.wordBytes;
        hash == Fold(variant.compress, size, variant.h0,
                     message + [pad] + Zeros(PadZeros(size, |message|, len)) + BeBytes(8 * |message|, len))
    {
      hide Fold, Tail, PadZeros, BeBytes;
      ghost var tail := block[..index];
      ghost var len := BeBytes(8 * |message|, 2 * variant.wordBytes);
      PadFold(variant, message, pad, len);
      LengthBytes(variant, lengthHigh, lengthLow);
      AppendMarker(pad);
      AppendLength();
      assert block[..] == LastBlock(variant, tail, pad, len);
      ProcessBlock();
    }

    method Finalize()
      requires Valid() && corrupted.Success? && !computed
      modifies this, block
      ensures Valid() && corrupted.Success? && computed && message == old(message)
      ensures lengthHigh == lengthLow == 0 && block[..] == Zeros(block.Length)
    {
      hide Fold, Tail, PadZeros, BeBytes;
      PadMessage(0x80);
      for i := 0 to block.Length
        modifies block
        invariant forall j :: 0 <= j < i ==> block[j] == 0
      {
        block[i] := 0;
      }
      lengthHigh, lengthLow := 0, 0;
      computed := true;
    }

    /** The digest of everything fed; asking again gives it again. */
    method Result() returns (r: Code, digest: seq<byte>)
      requires Valid()
      modifies this, block
      ensures Valid() && message == old(message) && r == corrupted == old(corrupted)
      ensures r.Success? ==> computed && digest == variant.Digest(message)
    {
      hide Fold, Tail, PadZeros, BeBytes;
      if !corrupted.Success? {
        return corrupted, [];
      }
      if !computed {
        Finalize();
      }
      digest := ReadDigest(variant, hash);
      r := corrupted;
    }
  }

  /** The word and the byte in it that byte `i` of a digest comes from. */
  function WordIndex(v: Variant, i: nat): nat {
    if v.wordBytes == 4 then i / 4 else i / 8
  }

  function ByteIndex(v: Variant, i: nat): nat {
    if v.wordBytes == 4 then i % 4 else i % 8
  }

  lemma {:induction false} DigestByteAt(v: Variant, hash: Words, i: nat)
    requires v.Valid() && |hash| == |v.h0| && i < v.hashSize
    ensures WordIndex(v, i) < |hash| && ByteIndex(v, i) < v.wordBytes
    ensures i < |v.WordsToBytes(hash)| && v.WordsToBytes(hash)[i]
         == DropBytes(hash[WordIndex(v, i)], v.wordBytes - 1 - ByteIndex(v, i)) % 0x100
  {
    hide DropBytes;
    v.WordsToBytesAt(hash, WordIndex(v, i), ByteIndex(v, i));
    assert v.Offset(WordIndex(v, i)) + ByteIndex(v, i) == i;
  }

  /** Reads the digest out of the words byte by byte, most significant bytes first. */
  method ReadDigest(v: Variant, hash: Words) returns (digest: seq<byte>)
    requires v.Valid() && |hash| == |v.h0|
    ensures digest == v.DigestBytes(hash)
  {
    hide DropBytes, WordIndex, ByteIndex;
    digest := [];
    ghost var all := v.WordsToBytes(hash);
    for i := 0 to v.hashSize
      invariant i <= |all| && digest == all[..i]
    {
      DigestByteAt(v, hash, i);
      digest := digest + [DropBytes(hash[WordIndex(v, i)], v.wordBytes - 1 - ByteIndex(v, i)) % 0x100];
    }
  }

  /**
   * However a message is split into inputs, the digest is that of the whole message; a message that is just
   * too long for the counter is refused.
   */
  method HashPieces(v: Variant, pieces: seq<seq<byte>>) returns (r: Code, digest: seq<byte>)
    requires v.Valid() && 8 * |Flatten(pieces)| <= v.Limb() * v.Limb()
    ensures r == if 8 * |Flatten(pieces)| < v.Limb() * v.Limb() then Success else InputTooLong
    ensures r.Success? ==> digest == v.Digest(Flatten(pieces))
  {
    var c := new Context(v);
    c.NotFull();
    for i := 0 to |pieces|
      invariant c.Valid() && !c.computed && c.variant == v && fresh(c) && fresh(c.block)
      invariant c.message == Flatten(pieces[..i]) && c.corrupted == c.Status(|c.message|)
    {
      FlattenPrefix(pieces, i);
      var status := c.Input(pieces[i]);
    }
    assert pieces[..|pieces|] == pieces;
    r, digest := c.Result();
  }

  lemma {:induction false} FlattenPrefix(pieces: seq<seq<byte>>, i: nat)
    requires i < |pieces|
    ensures Flatten(pieces[..i + 1]) == Flatten(pieces[..i]) + pieces[i]
    ensures |Flatten(pieces[..i])| + |pieces[i]| <= |Flatten(pieces)|
  {
    assert pieces[..i + 1] == pieces[..i] + [pieces[i]];
    FlattenAppend(pieces[..i], pieces[i]);
    FlattenConcat(pieces[..i + 1], pieces[i + 1..]);
    assert pieces == pieces[..i + 1] + pieces[i + 1..];
  }

  lemma {:induction false} FlattenConcat(a: seq<seq<byte>>, b: seq<seq<byte>>)
    ensures Flatten(a + b) == Flatten(a) + Flatten(b)
    decreases |a|
  {
    if a == [] {
      assert a + b == b;
    } else {
      assert (a + b)[1..] == a[1..] + b;
      FlattenConcat(a[1..], b);
    }
  }

  /** The two counters side by side are the message length in bits. */
  lemma {:induction false} LengthBytes(v: Variant, high: nat, low: nat)
    requires v.Valid() && high < v.Limb() && low < v.Limb()
    ensures BeBytes(high * v.Limb() + low, 2 * v.wordBytes) == BeBytes(high, v.wordBytes) + BeBytes(low, v.wordBytes)
  {
    hide Base.LeBytes, BeBytes;
    Pow256Values();
    BeBytesOfPair(high, low, v.wordBytes);
  }
}
