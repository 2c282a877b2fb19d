/** The MD5 stream (libs/hash/rfc1321/md5c.c). */
module Md5 {
  import opened Base
  import opened BlockHash

  type Words = seq<nat>

  function InitialState(): Words {
    [0x67452301, 0xefcdab89, 0x98badcfe, 0x10325476]
  }

  /** Sections 3.1 and 3.2 of RFC 1321: a marker, zeros up to 56 modulo 64, and the bit length modulo 2^64. */
  function Padded(m: seq<byte>): seq<byte> {
    m + Padding(|m|) + LeBytes(8 * |m|, 8)
  }

  function Padding(n: nat): seq<byte> {
    [0x80] + Zeros(PadZeros(64, n, 8))
  }

  function Digest(compress: Compress<Words>, m: seq<byte>): seq<byte> {
    EncodeWords(Fold(compress, 64, InitialState(), Padded(m)))
  }

  lemma {:induction false} PaddedMeans(m: seq<byte>)
    ensures IsPadded(Padded(m), m, 64, 8, false)
  {
    hide LeBytes, DropBytes, PadZeros;
    var p, len := Padded(m), LeBytes(8 * |m|, 8);
    PadZerosFit(64, |m|, 8);
    assert p == m + ([0x80] + Zeros(PadZeros(64, |m|, 8))) + len;
    forall j | 0 <= j < 8
      ensures p[|p| - 8 + j] == DropBytes(8 * |m|, j) % 0x100
    {
      LeBytesAt(8 * |m|, 8, j);
      assert p[|p| - 8 + j] == len[j];
    }
  }

  /** Section 3.3 of RFC 1321 gives the initial value byte by byte. */
  lemma {:induction false} InitialBytes()
    ensures EncodeWords(InitialState())
         == [0x01, 0x23, 0x45, 0x67, 0x89, 0xab, 0xcd, 0xef, 0xfe, 0xdc, 0xba, 0x98, 0x76, 0x54, 0x32, 0x10]
  {
    hide LeBytes;
    var w := InitialState();
    CountingUp();
    CountingDown();
    EncodeStep(w);
    EncodeStep(w[1..]);
    EncodeStep(w[2..]);
    EncodeStep(w[3..]);
    assert w[1..][1..] == w[2..] && w[2..][1..] == w[3..] && w[3..][1..] == [];
  }

  lemma {:induction false} EncodeStep(w: Words)
    requires w != []
    ensures EncodeWords(w) == LeBytes(w[0], 4) + EncodeWords(w[1..])
    ensures EncodeWords([]) == []
  {
  }

  /** Words as bytes, least significant byte first. */
  function EncodeWords(w: Words): (r: seq<byte>)
    ensures |r| == 4 * |w|
  {
    if w == [] then [] else LeBytes(w[0], 4) + EncodeWords(w[1..])
  }

  lemma {:induction false} EncodeWordsAt(w: Words, i: nat, j: nat)
    requires i < |w| && j < 4
    ensures EncodeWords(w)[4 * i + j] == DropBytes(w[i], j) % 0x100
  {
    if i == 0 {
      LeBytesAt(w[0], 4, j);
    } else {
      EncodeWordsAt(w[1..], i - 1, j);
      assert EncodeWords(w)[4 * i + j] == EncodeWords(w[1..])[4 * (i - 1) + j];
    }
  }

  method Encode(input: Words) returns (output: seq<byte>)
    ensures output == EncodeWords(input)
  {
    hide DropBytes;
    output := [];
    for i := 0 to |input|
      invariant output == EncodeWords(input)[..4 * i]
    {
      for j := 0 to 4
        invariant output == EncodeWords(input)[..4 * i + j]
      {
        EncodeWordsAt(input, i, j);
        output := output + [DropBytes(input[i], j) % 0x100];
      }
    }
  }

  /** The counters hold the bit length modulo 2^64, low word first. */
  ghost predicate Counts(count0: nat, count1: nat, n: nat) {
    && count0 < 0x1_0000_0000 && count1 < 0x1_0000_0000
    && count1 * 0x1_0000_0000 + count0 == (8 * n) % 0x1_0000_0000_0000_0000
  }

  lemma {:induction false} CountsIndex(count0: nat, count1: nat, n: nat)
    requires Counts(count0, count1, n)
    ensures (count0 / 8) % 64 == n % 64
  {
    var k := (8 * n) / 0x1_0000_0000_0000_0000;
    assert 8 * n == k * 0x1_0000_0000_0000_0000 + count1 * 0x1_0000_0000 + count0;
    var x := (k * 0x1_0000_0000 + count1) * 0x80_0000;
    var a := n - 64 * x;
    assert count0 == 8 * a + 0;
    RemainderUnique(count0, 8, a, 0);
    assert n == (x + a / 64) * 64 + a % 64;
    RemainderUnique(n, 64, x + a / 64, a % 64);
  }

  /** The two-word addition with its carry test, for an input of fewer than 2^32 bytes. */
  function AddLow(count0: nat, len: nat): nat {
    (count0 + (len * 8) % 0x1_0000_0000) % 0x1_0000_0000
  }

  function AddHigh(count0: nat, count1: nat, len: nat): nat {
    (count1 + (if AddLow(count0, len) < (len * 8) % 0x1_0000_0000 then 1 else 0) + len / 0x2000_0000) % 0x1_0000_0000
  }

  lemma {:induction false} CountsAdd(count0: nat, count1: nat, n: nat, len: nat)
    requires Counts(count0, count1, n) && len < 0x1_0000_0000
    ensures Counts(AddLow(count0, len), AddHigh(count0, count1, len), n + len)
  {
    hide AddLow, AddHigh, Counts;
    var k := CountsSplit(count0, count1, n);
    AddedLow(count0, len);
    AddedHigh(count0, count1, len);
    LengthSplit(len);
    var low, high := (len * 8) % 0x1_0000_0000, len / 0x2000_0000;
    var carry := if count0 + low >= 0x1_0000_0000 then 1 else 0;
    var wrap := if count1 + carry + high >= 0x1_0000_0000 then 1 else 0;
    Carried(8 * n, 8 * len, k, count0, count1, low, high, carry, wrap);
    CountsOf(AddLow(count0, len), AddHigh(count0, count1, len), n + len, k + wrap);
  }

  lemma {:induction false} LengthSplit(len: uint32)
    ensures 8 * len == len / 0x2000_0000 * 0x1_0000_0000 + (len * 8) % 0x1_0000_0000
    ensures 0 <= len / 0x2000_0000 < 8
  {
  }

  lemma {:induction false} CountsSplit(count0: nat, count1: nat, n: nat) returns (k: nat)
    requires Counts(count0, count1, n)
    ensures 8 * n == k * 0x1_0000_0000_0000_0000 + count1 * 0x1_0000_0000 + count0
    ensures count0 < 0x1_0000_0000 && count1 < 0x1_0000_0000
  {
    k := (8 * n) / 0x1_0000_0000_0000_0000;
  }

  lemma {:induction false} CountsOf(count0: nat, count1: nat, n: nat, k: nat)
    requires count0 < 0x1_0000_0000 && count1 < 0x1_0000_0000
    requires 8 * n == k * 0x1_0000_0000_0000_0000 + count1 * 0x1_0000_0000 + count0
    ensures Counts(count0, count1, n)
  {
    RemainderUnique(8 * n, 0x1_0000_0000_0000_0000, k, count1 * 0x1_0000_0000 + count0);
  }

  /** Addition of two double words with their carries. */
  lemma {:induction false} Carried(
    a: nat, b: nat, k: nat, c0: nat, c1: nat, low: nat, high: nat, carry: nat, wrap: nat)
    requires a == k * 0x1_0000_0000_0000_0000 + c1 * 0x1_0000_0000 + c0 && b == high * 0x1_0000_0000 + low
    ensures a + b == (k + wrap) * 0x1_0000_0000_0000_0000
                     + (c1 + carry + high - wrap * 0x1_0000_0000) * 0x1_0000_0000 + (c0 + low - carry * 0x1_0000_0000)
  {
  }

  lemma {:induction false} AddedLow(count0: nat, len: nat)
    requires count0 < 0x1_0000_0000 && len < 0x1_0000_0000
    ensures var low := (len * 8) % 0x1_0000_0000;
      AddLow(count0, len) == count0 + low - if count0 + low >= 0x1_0000_0000 then 0x1_0000_0000 else 0
    ensures var low := (len * 8) % 0x1_0000_0000;
      AddLow(count0, len) < low <==> count0 + low >= 0x1_0000_0000
  {
    CarryOut(count0, (len * 8) % 0x1_0000_0000);
  }

  lemma {:induction false} AddedHigh(count0: nat, count1: nat, len: nat)
    requires count0 < 0x1_0000_0000 && count1 < 0x1_0000_0000 && len < 0x1_0000_0000
    ensures var carry := if count0 + (len * 8) % 0x1_0000_0000 >= 0x1_0000_0000 then 1 else 0;
      var top := count1 + carry + len / 0x2000_0000;
      AddHigh(count0, count1, len) == top - if top >= 0x1_0000_0000 then 0x1_0000_0000 else 0
  {
    hide AddLow;
    AddedLow(count0, len);
    var carry := if count0 + (len * 8) % 0x1_0000_0000 >= 0x1_0000_0000 then 1 else 0;
    CarryOut(count1, carry + len / 0x2000_0000);
  }

  lemma {:induction false} CarryOut(a: nat, b: nat)
    requires a < 0x1_0000_0000 && b < 0x1_0000_0000
    ensures (a + b) % 0x1_0000_0000 == if a + b >= 0x1_0000_0000 then a + b - 0x1_0000_0000 else a + b
    ensures (a + b) % 0x1_0000_0000 < b <==> a + b >= 0x1_0000_0000
  {
  }

  /**
   * The loop over the blocks of a piece of `len` bytes ends: its last index, which leaves the rest of all
   * `total` bytes for the buffer, does not wrap around in the 32-bit guard.
   */
  predicate NoWrap(len: nat, total: nat) {
    len - total % 64 + 63 < 0x1_0000_0000
  }

  /** At the last index the guard, which compares in 32 bits, is false exactly if it does not wrap around. */
  lemma {:induction false} LoopEnds(len: uint32, total: nat)
    requires total % 64 <= len
    ensures (len - total % 64 + 63) % 0x1_0000_0000 < len <==> !NoWrap(len, total)
  {
  }

  class Md5Context {
    const compress: Compress<Words>
    const buffer: array<byte>
    var state: Words
    var count0: nat
    var count1: nat

    /** The bytes fed since initialisation. */
    ghost var message: seq<byte>

    ghost predicate Valid()
      reads this, buffer
    {
      && buffer.Length == 64
      && Counts(count0, count1, |message|)
      && state == Fold(compress, 64, InitialState(), message)
      && buffer[..|message| % 64] == Tail(64, message)
    }

    constructor (compress: Compress<Words>)
      ensures Valid() && fresh(buffer) && this.compress == compress && message == []
    {
      this.compress := compress;
      buffer := new byte[64](_ => 0);
      state := InitialState();
      count0, count1 := 0, 0;
      message := [];
    }

    /** Copies bytes into the buffer from `index` on. */
    method CopyIn(index: nat, input: seq<byte>)
      requires index + |input| <= buffer.Length
      modifies buffer
      ensures buffer[..] == old(buffer[..index]) + input + old(buffer[index + |input|..])
    {
      for i := 0 to |input|
        invariant forall j :: 0 <= j < buffer.Length ==>
          buffer[j] == if index <= j < index + i then input[j - index] else old(buffer[j])
      {
        buffer[index + i] := input[i];
      }
    }

    /** Compresses the whole blocks of the input from `start` on, and returns where the rest begins. */
    method TransformBlocks(input: seq<byte>, start: nat) returns (i: nat)
      requires start <= |input| && NoWrap(|input|, |input| - start)
      modifies `state
      ensures start <= i <= |input| && |input| - i < 64
      ensures state == Fold(compress, 64, old(state), input[start..])
      ensures input[i..] == Tail(64, input[start..])
    {
      hide Fold, Tail;
      i := start;
      while i + 63 < |input|
        invariant start <= i <= |input| && i + 63 < 0x1_0000_0000
        invariant Fold(compress, 64, old(state), input[start..]) == Fold(compress, 64, state, input[i..])
        invariant Tail(64, input[start..]) == Tail(64, input[i..])
      {
        MiddleBlock(compress, state, input, i);
        state := compress(state, input[i..i + 64]);
        i := i + 64;
      }
      NoBlock(compress, state, input[i..]);
    }

    /** Feeds a piece of the message, of any size for which the loop over the blocks ends. */
    method Update(input: seq<byte>)
      requires Valid()
      requires NoWrap(|input|, |message| + |input|)
      modifies this, buffer
      ensures Valid() && message == old(message) + input
    {
      hide Fold, Tail, Counts, AddLow, AddHigh;
      ghost var m, h := message, state;
      var len := |input|;
      CountsIndex(count0, count1, |m|);
      CountsAdd(count0, count1, |m|, len);
      var index := (count0 / 8) % 64;
      count0, count1 := AddLow(count0, len), AddHigh(count0, count1, len);
      var partLen := 64 - index;
      ghost var tail := Tail(64, m);
      FoldMore(compress, 64, InitialState(), m, input);
      message := m + input;
      if len >= partLen {
        CopyIn(index, input[..partLen]);
        assert buffer[..] == tail + input[..partLen];
        FirstBlock(compress, h, tail, input, partLen);
        state := compress(state, buffer[..]);
        var i := TransformBlocks(input, partLen);
        CopyIn(0, input[i..]);
        assert buffer[..len - i] == input[i..];
      } else {
        NoBlock(compress, state, tail + input);
        CopyIn(index, input);
        assert buffer[..index + len] == tail + input;
      }
    }

    /** Pads, appends the bit count as it was before padding, and reads out the state; the context is wiped. */
    method Final() returns (digest: seq<byte>)
      requires Valid()
      modifies this, buffer
      ensures digest == Digest(compress, old(message))
    {
      hide Fold, Tail, Counts;
      ghost var m := message;
      var bits := Encode([count0, count1]);
      CountBytes(count0, count1, |m|);
      CountsIndex(count0, count1, |m|);
      var index := (count0 / 8) % 64;
      var padLen := if index < 56 then 56 - index else 120 - index;
      PaddingLength(|m|, index);
      assert ([0x80] + Zeros(63))[..padLen] == Padding(|m|);
      Update(([0x80] + Zeros(63))[..padLen]);
      Update(bits);
      assert message == Padded(m);
      digest := Encode(state);
      for i := 0 to 64
        modifies buffer
      {
        buffer[i] := 0;
      }
      state, count0, count1 := [0, 0, 0, 0], 0, 0;
    }
  }

  lemma {:induction false} PaddingLength(n: nat, index: nat)
    requires index == n % 64
    ensures |Padding(n)| == if index < 56 then 56 - index else 120 - index
  {
    PadZerosRemainder(64, 8, n, n / 64, index);
  }

  /** The encoded counters are the bit length modulo 2^64. */
  lemma {:induction false} CountBytes(count0: nat, count1: nat, n: nat)
    requires Counts(count0, count1, n)
    ensures EncodeWords([count0, count1]) == LeBytes(8 * n, 8)
  {
    hide LeBytes, Pow256;
    var k := (8 * n) / 0x1_0000_0000_0000_0000;
    var x := count1 * 0x1_0000_0000 + count0;
    Pow256Values();
    LeBytesLow(x, k, 8);
    LeBytesSplit(x, 4, 4);
    RemainderUnique(x, 0x1_0000_0000, count1, count0);
    LeBytesLow(count0, count1, 4);
    assert [count0, count1][1..] == [count1] && [count1][1..] == [];
    assert EncodeWords([count1]) == LeBytes(count1, 4);
  }

  /** However a message is split into updates, the digest is that of the whole message. */
  method HashPieces(compress: Compress<Words>, pieces: seq<seq<byte>>) returns (digest: seq<byte>)
    requires forall k :: 0 <= k < |pieces| ==> NoWrap(|pieces[k]|, |Flatten(pieces[..k + 1])|)
    ensures digest == Digest(compress, Flatten(pieces))
  {
    hide Digest, Flatten, NoWrap;
    var c := new Md5Context(compress);
    assert Flatten([]) == [] by {
      FlattenNothing();
    }
    for i := 0 to |pieces|
      invariant c.Valid() && c.compress == compress && fresh(c) && fresh(c.buffer)
      invariant c.message == Flatten(pieces[..i])
    {
      assert pieces[..i + 1] == pieces[..i] + [pieces[i]];
      FlattenAppend(pieces[..i], pieces[i]);
      assert |Flatten(pieces[..i + 1])| == |c.message| + |pieces[i]|;
      c.Update(pieces[i]);
    }
    assert pieces[..|pieces|] == pieces;
    digest := c.Final();
  }

  lemma {:induction false} MiddleBlock(compress: Compress<Words>, h: Words, input: seq<byte>, i: nat)
    requires i + 64 <= |input|
    ensures Fold(compress, 64, h, input[i..]) == Fold(compress, 64, compress(h, input[i..i + 64]), input[i + 64..])
    ensures Tail(64, input[i..]) == Tail(64, input[i + 64..])
  {
    FirstBlock(compress, h, [], input[i..], 64);
    assert [] + input[i..] == input[i..];
    assert [] + input[i..][..64] == input[i..i + 64];
    assert input[i..][64..] == input[i + 64..];
  }

  lemma {:induction false} FirstBlock(compress: Compress<Words>, h: Words, tail: seq<byte>, input: seq<byte>, k: nat)
    requires |tail| + k == 64 && k <= |input|
    ensures Fold(compress, 64, h, tail + input) == Fold(compress, 64, compress(h, tail + input[..k]), input[k..])
    ensures Tail(64, tail + input) == Tail(64, input[k..])
  {
    var first := tail + input[..k];
    assert tail + input == first + input[k..];
    OneBlock(compress, 64, h, first);
    FoldConcat(compress, 64, h, first, input[k..]);
    TailDropsBlocks(64, first, input[k..]);
  }

  lemma {:induction false} NoBlock(compress: Compress<Words>, h: Words, rest: seq<byte>)
    requires |rest| < 64
    ensures Fold(compress, 64, h, rest) == h
    ensures Tail(64, rest) == rest
  {
    ShortTail(64, rest);
  }
}
