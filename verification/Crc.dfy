/** The table-driven CRC library and its resumable wrapper (libs/crc/libcrc.c, crc32.c). */
module Crc {
  import opened Base
  import opened CrcWord
  import opened CrcDivision
  import opened CrcPolynomial

  datatype Algorithm = Algorithm(poly: Word, seed: Word, xorResult: Word, refin: bool, refout: bool) {

    function Width(): nat { |poly| }

    /** What every predefined algorithm satisfies. */
    predicate Valid() {
      && (Width() == 16 || Width() == 32)
      && |seed| == |xorResult| == Width()
      && poly[Width() - 1]
      && refin == refout
    }

    /** Registers of reflected algorithms are kept with their least significant coefficient first. */
    function Orient(w: Word): (r: Word)
      ensures |r| == |w|
    {
      if refout then Reversed(w) else w
    }

    /** A data byte as message bits, in the order the algorithm sends them. */
    function ByteBits(d: byte): (r: Word)
      ensures |r| == 8
    {
      if refin then Reversed(WordOf(d, 8)) else WordOf(d, 8)
    }
  }

  function MessageBits(alg: Algorithm, data: seq<byte>): (r: Word)
    ensures |r| == 8 * |data|
  {
    if data == [] then [] else alg.ByteBits(data[0]) + MessageBits(alg, data[1..])
  }

  /** The specification: the remainder of the message, after an initial value, with a final mask. */
  function Checksum(alg: Algorithm, seed: Word, data: seq<byte>): (r: Word)
    requires alg.Valid() && |seed| == alg.Width()
    ensures |r| == alg.Width()
  {
    var message := XorPrefix(MessageBits(alg, data) + Zero(alg.Width()), alg.Orient(seed));
    Xor(alg.Orient(Remainder(alg.poly, message)), alg.xorResult)
  }

  /** The contribution of a byte that is moved out of the register. */
  function TableEntry(alg: Algorithm, i: nat): (r: Word)
    requires alg.Valid() && i < 256
    ensures |r| == alg.Width()
  {
    alg.Orient(Steps(alg.poly, alg.ByteBits(i) + Zero(alg.Width() - 8), 8))
  }

  function Define(n: nat, poly: nat, seed: nat, xorResult: nat, reflected: bool): (alg: Algorithm)
    ensures (n == 16 || n == 32) && poly % 2 == 1 ==> alg.Valid()
  {
    Algorithm(WordOf(poly, n), WordOf(seed, n), WordOf(xorResult, n), reflected, reflected)
  }

  function Predefined32(): seq<Algorithm> {
    [ Define(32, 0x000000AF, 0x00000000, 0x00000000, false),
      Define(32, 0x04C11DB7, 0x00000000, 0xFFFFFFFF, false),
      Define(32, 0x04C11DB7, 0xFFFFFFFF, 0xFFFFFFFF, false),
      Define(32, 0x04C11DB7, 0xFFFFFFFF, 0x00000000, false),
      Crc32Algorithm(),
      Define(32, 0x04C11DB7, 0xFFFFFFFF, 0x00000000, true),
      Define(32, 0x1EDC6F41, 0xFFFFFFFF, 0xFFFFFFFF, true),
      Define(32, 0x814141AB, 0x00000000, 0x00000000, false),
      Define(32, 0xA833982B, 0xFFFFFFFF, 0xFFFFFFFF, true) ]
  }

  function Crc32Algorithm(): Algorithm {
    Define(32, 0x04C11DB7, 0xFFFFFFFF, 0xFFFFFFFF, true)
  }

  function Predefined16(): seq<Algorithm> {
    [ Define(16, 0x1021, 0x0000, 0x0000, true),
      Define(16, 0x1021, 0xffff, 0x0000, false),
      Define(16, 0x1021, 0x0000, 0x0000, false),
      Define(16, 0x1021, 0xffff, 0xffff, true),
      Define(16, 0x1021, 0x1d0f, 0x0000, false),
      Define(16, 0x8005, 0xffff, 0x0000, true),
      Define(16, 0x8005, 0x0000, 0x0000, true),
      Define(16, 0x8005, 0x0000, 0xffff, true),
      Define(16, 0x8005, 0xffff, 0xffff, true),
      Define(16, 0x3d65, 0x0000, 0xffff, true) ]
  }

  lemma {:induction false} PredefinedValid(alg: Algorithm)
    requires alg in Predefined32() || alg in Predefined16()
    ensures alg.Valid()
  {
    hide Define, Algorithm.Valid;
  }

  lemma {:induction false} MessageBitsConcat(alg: Algorithm, a: seq<byte>, b: seq<byte>)
    ensures MessageBits(alg, a + b) == MessageBits(alg, a) + MessageBits(alg, b)
    decreases |a|
  {
    if a == [] {
      assert a + b == b;
    } else {
      assert (a + b)[1..] == a[1..] + b;
      MessageBitsConcat(alg, a[1..], b);
    }
  }

  lemma {:induction false} WordOfInjective(x: nat, y: nat, n: nat)
    requires x < Pow2(n) && y < Pow2(n) && WordOf(x, n) == WordOf(y, n)
    ensures x == y
  {
    if n > 0 {
      var a, b := WordOf(x, n), WordOf(y, n);
      assert a[..n - 1] == WordOf(x / 2, n - 1) && b[..n - 1] == WordOf(y / 2, n - 1);
      WordOfInjective(x / 2, y / 2, n - 1);
    }
  }

  lemma {:induction false} Pow2Eight()
    ensures Pow2(8) == 256
  {
    assert Pow2(4) == 16;
  }

  /** Different byte strings are different messages. */
  lemma {:induction false} MessageBitsInjective(alg: Algorithm, a: seq<byte>, b: seq<byte>)
    requires |a| == |b| && MessageBits(alg, a) == MessageBits(alg, b)
    ensures a == b
    decreases |a|
  {
    if a != [] {
      var ma, mb := MessageBits(alg, a), MessageBits(alg, b);
      assert ma[..8] == alg.ByteBits(a[0]) && mb[..8] == alg.ByteBits(b[0]);
      assert ma[8..] == MessageBits(alg, a[1..]) && mb[8..] == MessageBits(alg, b[1..]);
      ReversedTwice(WordOf(a[0], 8));
      ReversedTwice(WordOf(b[0], 8));
      Pow2Eight();
      WordOfInjective(a[0], b[0], 8);
      MessageBitsInjective(alg, a[1..], b[1..]);
    }
  }

  /** The register as it is stored, after `data` has been fed to it. */
  function Fed(alg: Algorithm, next: Word, data: seq<byte>): (r: Word)
    requires alg.Valid() && |next| == alg.Width()
    ensures |r| == alg.Width()
  {
    alg.Orient(Register(alg.poly, alg.Orient(next), MessageBits(alg, data)))
  }

  /** Bit-serial division is what the register holds, whatever the seed. */
  lemma {:induction false} FedIsChecksum(alg: Algorithm, seed: Word, data: seq<byte>)
    requires alg.Valid() && |seed| == alg.Width()
    ensures Xor(Fed(alg, seed, data), alg.xorResult) == Checksum(alg, seed, data)
  {
    RegisterIsRemainder(alg.poly, alg.Orient(seed), MessageBits(alg, data));
  }

  /** Feeding two pieces one after the other is feeding them together. */
  lemma {:induction false} FedConcat(alg: Algorithm, next: Word, a: seq<byte>, b: seq<byte>)
    requires alg.Valid() && |next| == alg.Width()
    ensures Fed(alg, Fed(alg, next, a), b) == Fed(alg, next, a + b)
  {
    MessageBitsConcat(alg, a, b);
    RegisterConcat(alg.poly, alg.Orient(next), MessageBits(alg, a), MessageBits(alg, b));
    ReversedTwice(Register(alg.poly, alg.Orient(next), MessageBits(alg, a)));
  }

  lemma {:induction false} FedNothing(alg: Algorithm, next: Word)
    requires alg.Valid() && |next| == alg.Width()
    ensures Fed(alg, next, []) == next
  {
    ReversedTwice(next);
  }

  lemma {:induction false} XorTwice(a: Word, m: Word)
    requires |a| == |m|
    ensures Xor(Xor(a, m), m) == a
  {
  }

  /** Equal-length messages that differ only inside a window as wide as the checksum have different checksums. */
  lemma {:induction false} BurstChangesChecksum(
    alg: Algorithm, seed: Word, a: seq<byte>, u: seq<byte>, v: seq<byte>, c: seq<byte>)
    requires alg.Valid() && |seed| == alg.Width()
    requires |u| == |v| && 8 * |u| <= alg.Width() && u != v
    ensures Checksum(alg, seed, a + u + c) != Checksum(alg, seed, a + v + c)
  {
    var ba, bu, bv, bc := MessageBits(alg, a), MessageBits(alg, u), MessageBits(alg, v), MessageBits(alg, c);
    MessageBitsConcat(alg, a + u, c);
    MessageBitsConcat(alg, a, u);
    MessageBitsConcat(alg, a + v, c);
    MessageBitsConcat(alg, a, v);
    if bu == bv {
      MessageBitsInjective(alg, u, v);
    }
    var x := Register(alg.poly, alg.Orient(seed), ba + bu + bc);
    var y := Register(alg.poly, alg.Orient(seed), ba + bv + bc);
    BurstDetected(alg.poly, alg.Orient(seed), ba, bu, bv, bc);
    FedIsChecksum(alg, seed, a + u + c);
    FedIsChecksum(alg, seed, a + v + c);
    ReversedTwice(x);
    ReversedTwice(y);
    XorTwice(alg.Orient(x), alg.xorResult);
    XorTwice(alg.Orient(y), alg.xorResult);
  }

  /** A byte enters the register: the register moves by 8 bits and the byte that falls out selects a table entry. */
  lemma {:induction false} ByteStep(poly: Word, r: Word, b: Word)
    requires |r| == |poly| >= 8 && |b| == 8
    ensures Register(poly, r, b) == Xor(Shl(r, 8), Steps(poly, Xor(r[..8], b) + Zero(|r| - 8), 8))
  {
    hide Register, Steps;
    var head, tail := Xor(r[..8], b) + Zero(|r| - 8), Zero(8) + r[8..];
    RegisterBatch(poly, r, b);
    assert XorPrefix(r, b) == Xor(tail, head);
    StepsXor(poly, tail, head, 8);
    StepsShift(poly, tail, 8);
    assert Shl(tail, 8) == Shl(r, 8);
  }

  lemma {:induction false} LowByte(d: byte, n: nat)
    requires n >= 8
    ensures WordOf(d, n)[n - 8..] == WordOf(d, 8)
    ensures WordOf(d, n)[..n - 8] == Zero(n - 8)
  {
    Pow2Eight();
    WordOfSmall(d, 8, n);
  }

  lemma {:induction false} IndexBound(w: Word)
    requires |w| == 8
    ensures NatOf(w) < 256 && WordOf(NatOf(w), 8) == w
  {
    Pow2Eight();
    WordOfNatOf(w);
  }

  /** The value of the low 8 bits, `x & 0xff`. */
  function LowIndex(x: Word): (i: nat)
    requires |x| >= 8
    ensures i < 256
  {
    IndexBound(x[|x| - 8..]);
    NatOf(x[|x| - 8..])
  }

  lemma {:induction false} PlainByte(alg: Algorithm, r: Word, d: byte)
    requires alg.Valid() && !alg.refout && |r| == alg.Width()
    ensures Xor(Shl(r, 8), TableEntry(alg, LowIndex(Xor(Shr(r, |r| - 8), WordOf(d, |r|)))))
         == Fed(alg, r, [d])
  {
    hide Register, Steps, NatOf;
    var n := |r|;
    var x := Xor(Shr(r, n - 8), WordOf(d, n));
    var b := WordOf(d, 8);
    LowByte(d, n);
    assert x[n - 8..] == Xor(r[..8], b) by {
      assert forall i :: 0 <= i < 8 ==> WordOf(d, n)[n - 8..][i] == b[i];
    }
    IndexBound(x[n - 8..]);
    ByteStep(alg.poly, r, b);
    assert MessageBits(alg, [d]) == b;
  }

  lemma {:induction false} ReversedXor(r: Word, t: Word)
    requires |r| == |t| >= 8
    ensures Reversed(Xor(Shl(r, 8), t)) == Xor(Shr(Reversed(r), 8), Reversed(t))
  {
    hide Reversed, Xor, Shl, Shr;
    var n, a, b := |r|, Reversed(Xor(Shl(r, 8), t)), Xor(Shr(Reversed(r), 8), Reversed(t));
    forall i | 0 <= i < n
      ensures a[i] == b[i]
    {
      assert a[i] == Xor(Shl(r, 8), t)[n - 1 - i] == (Shl(r, 8)[n - 1 - i] != t[n - 1 - i]);
      assert b[i] == (Shr(Reversed(r), 8)[i] != Reversed(t)[i]);
      assert i >= 8 ==> Shr(Reversed(r), 8)[i] == Reversed(r)[i - 8] == r[n - 1 - i + 8];
    }
  }

  lemma {:induction false} ReversedLow(next: Word, w: Word)
    requires |next| == |w| >= 8
    ensures Reversed(Xor(next, w)[|w| - 8..]) == Xor(Reversed(next)[..8], Reversed(w[|w| - 8..]))
  {
    hide Reversed, Xor;
    var n := |w|;
    var low := Xor(next, w)[n - 8..];
    forall i | 0 <= i < 8
      ensures Reversed(low)[i] == (Reversed(next)[i] != Reversed(w[n - 8..])[i])
    {
      assert Reversed(low)[i] == low[7 - i] == Xor(next, w)[n - 1 - i];
    }
  }

  lemma {:induction false} ReflectedByte(alg: Algorithm, next: Word, d: byte)
    requires alg.Valid() && alg.refout && |next| == alg.Width()
    ensures Xor(Shr(next, 8), TableEntry(alg, LowIndex(Xor(next, WordOf(d, |next|)))))
         == Fed(alg, next, [d])
  {
    hide Register, Steps, WordOf, NatOf;
    var n := |next|;
    var r := Reversed(next);
    var low := Xor(next, WordOf(d, n))[n - 8..];
    var b := Reversed(WordOf(d, 8));
    LowByte(d, n);
    ReversedLow(next, WordOf(d, n));
    assert Reversed(low) == Xor(r[..8], b);
    IndexBound(low);
    ByteStep(alg.poly, r, b);
    ReversedXor(r, Steps(alg.poly, Xor(r[..8], b) + Zero(n - 8), 8));
    ReversedTwice(next);
    assert MessageBits(alg, [d]) == b;
  }

  /** Clocking a word n times, from the bottom of the register, gives the entry of its low byte. */
  lemma {:induction false} EntryByClocks(alg: Algorithm, i: nat, start: Word, end: Word)
    requires alg.Valid() && i < 256
    requires start == Zero(alg.Width() - 8) + alg.ByteBits(i)
    requires end == Steps(alg.poly, start, alg.Width())
    ensures TableEntry(alg, i) == alg.Orient(end)
  {
    hide Steps;
    var n := alg.Width();
    StepsAdd(alg.poly, start, n - 8, 8);
    StepsShift(alg.poly, start, n - 8);
    assert Shl(start, n - 8) == alg.ByteBits(i) + Zero(n - 8);
  }

  /** The word the generator starts from: the index, reflected when the input is. */
  function TableStart(alg: Algorithm, i: nat): (r: Word)
    requires alg.Valid() && i < 256
    ensures r == Zero(alg.Width() - 8) + alg.ByteBits(i)
  {
    var n := alg.Width();
    var w := WordOf(i, n);
    LowByte(i, n);
    assert w == Zero(n - 8) + WordOf(i, 8) by {
      assert w == w[..n - 8] + w[n - 8..];
    }
    if alg.refin then Shr(Reverse(w), n - 8) else w
  }

  class Libcrc {
    const alg: Algorithm
    const table: array<Word>
    var tableGenerated: bool
    var next: Word

    /** A table that is marked as generated is the table of this instance's own parameters. */
    ghost predicate Valid()
      reads this, table
    {
      && alg.Valid() && |next| == alg.Width() && table.Length == 256
      && (tableGenerated ==> forall i :: 0 <= i < 256 ==> table[i] == TableEntry(alg, i))
    }

    constructor (alg: Algorithm)
      requires alg.Valid()
      ensures Valid() && fresh(table) && !tableGenerated && this.alg == alg
    {
      this.alg := alg;
      table := new Word[256](_ => Zero(alg.Width()));
      tableGenerated := false;
      next := Zero(alg.Width());
    }

    /** One table word: the index is clocked through the register bit by bit. */
    method TableWord(i: nat) returns (cur: Word)
      requires alg.Valid() && i < 256
      ensures cur == TableEntry(alg, i)
    {
      hide TableEntry, TableStart, Steps, Xor, Shl;
      var n := alg.Width();
      cur := TableStart(alg, i);
      ghost var start := cur;
      ghost var end := Steps(alg.poly, start, n);
      for bit := 0 to n
        invariant |cur| == n && end == Steps(alg.poly, cur, n - bit)
      {
        StepsOne(alg.poly, cur, n - bit);
        if cur[0] {
          cur := Xor(Shl(cur, 1), alg.poly);
        } else {
          cur := Shl(cur, 1);
        }
      }
      StepsNone(alg.poly, cur);
      EntryByClocks(alg, i, start, cur);
      if alg.refout {
        cur := Reverse(cur);
      }
    }

    method GenerateTable()
      requires alg.Valid() && table.Length == 256
      modifies table
      ensures forall i :: 0 <= i < 256 ==> table[i] == TableEntry(alg, i)
    {
      hide TableEntry;
      for i := 0 to 256
        invariant forall j :: 0 <= j < i ==> table[j] == TableEntry(alg, j)
      {
        var word := TableWord(i);
        table[i] := word;
      }
    }

    method InitSeed(seed: Word)
      requires Valid() && |seed| == alg.Width()
      modifies this, table
      ensures Valid() && tableGenerated && next == seed
    {
      hide TableEntry;
      if !tableGenerated {
        tableGenerated := true;
        GenerateTable();
      }
      next := seed;
    }

    method Update(data: seq<byte>)
      requires Valid() && tableGenerated
      modifies `next
      ensures Valid() && next == Fed(alg, old(next), data)
    {
      hide Fed, LowIndex, TableEntry, Xor, Shl, Shr, WordOf;
      var n := alg.Width();
      FedNothing(alg, next);
      for i := 0 to |data|
        invariant Valid() && next == Fed(alg, old(next), data[..i])
      {
        if alg.refout {
          ReflectedByte(alg, next, data[i]);
          next := Xor(Shr(next, 8), table[LowIndex(Xor(next, WordOf(data[i], n)))]);
        } else {
          PlainByte(alg, next, data[i]);
          next := Xor(Shl(next, 8), table[LowIndex(Xor(Shr(next, n - 8), WordOf(data[i], n)))]);
        }
        assert data[..i + 1] == data[..i] + [data[i]];
        FedConcat(alg, old(next), data[..i], [data[i]]);
      }
      assert data[..|data|] == data;
    }

    /** However the register came about, the result is the checksum of what has been fed since it was seeded. */
    method Finish() returns (r: Word)
      requires Valid()
      ensures forall seed, data | |seed| == alg.Width() && next == Fed(alg, seed, data) ::
                r == Checksum(alg, seed, data)
    {
      hide Fed, Checksum;
      r := Xor(next, alg.xorResult);
      forall seed, data | |seed| == alg.Width() && next == Fed(alg, seed, data)
        ensures r == Checksum(alg, seed, data)
      {
        FedIsChecksum(alg, seed, data);
      }
    }

    /** Whatever the seed and however the data is split, init, updates and finish give the specified checksum. */
    method Compute(seed: Word, pieces: seq<seq<byte>>) returns (r: Word)
      requires Valid() && |seed| == alg.Width()
      modifies this, table
      ensures Valid() && tableGenerated
      ensures r == Checksum(alg, seed, Flatten(pieces))
    {
      hide Fed, TableEntry, Checksum;
      InitSeed(seed);
      FedNothing(alg, seed);
      for i := 0 to |pieces|
        invariant Valid() && tableGenerated
        invariant next == Fed(alg, seed, Flatten(pieces[..i]))
      {
        Update(pieces[i]);
        FedConcat(alg, seed, Flatten(pieces[..i]), pieces[i]);
        FlattenAppend(pieces[..i], pieces[i]);
        assert pieces[..i + 1] == pieces[..i] + [pieces[i]];
      }
      assert pieces[..|pieces|] == pieces;
      r := Finish();
    }
  }

  // The definitions above, written out: bytes as bits, parameters as exponents.

  lemma {:induction false} HalfThenQuotient(x: nat, m: nat)
    requires m > 0
    ensures (x / 2) / m == x / (2 * m)
  {
    var q, r := x / 2, x % 2;
    var k, l := q / m, q % m;
    assert x == k * (2 * m) + (2 * l + r) by {
      assert x == 2 * (k * m + l) + r;
    }
    RemainderUnique(x, 2 * m, k, 2 * l + r);
  }

  /** The bit of weight 2^k of a number. */
  lemma {:induction false} WordBit(x: nat, n: nat, k: nat)
    requires k < n
    ensures Pow2(k) > 0 && WordOf(x, n)[n - 1 - k] == ((x / Pow2(k)) % 2 == 1)
    decreases k
  {
    if k > 0 {
      WordBit(x / 2, n - 1, k - 1);
      HalfThenQuotient(x, Pow2(k - 1));
      assert WordOf(x, n)[n - 1 - k] == WordOf(x / 2, n - 1)[n - 1 - k];
    }
  }

  lemma {:induction false} SmallPowers(k: nat)
    requires k < 8
    ensures Pow2(k) == POWERS[k]
  {
    hide Pow2;
    Pow2Step(0);
    Pow2Step(1);
    Pow2Step(2);
    Pow2Step(3);
    Pow2Step(4);
    Pow2Step(5);
    Pow2Step(6);
  }

  lemma {:induction false} Pow2Step(k: nat)
    ensures Pow2(0) == 1 && Pow2(k + 1) == 2 * Pow2(k)
  {
  }

  lemma {:induction false} ByteBit(alg: Algorithm, d: byte, j: nat)
    requires j < 8
    ensures alg.ByteBits(d)[j] == ((d / POWERS[if alg.refin then j else 7 - j]) % 2 == 1)
  {
    var k := if alg.refin then j else 7 - j;
    WordBit(d, 8, k);
    SmallPowers(k);
  }

  lemma {:induction false} SentFirst(reflected: bool, data: seq<byte>, p: nat)
    requires p < 8 && data != []
    ensures Sent(reflected, data, p) == ((data[0] / POWERS[if reflected then p else 7 - p]) % 2 == 1)
  {
  }

  lemma {:induction false} SentRest(reflected: bool, data: seq<byte>, p: nat)
    requires 8 <= p < 8 * |data|
    ensures Sent(reflected, data, p) == Sent(reflected, data[1..], p - 8)
  {
    assert (p - 8) / 8 == p / 8 - 1 && (p - 8) % 8 == p % 8;
    assert data[1..][(p - 8) / 8] == data[p / 8];
  }

  lemma {:induction false} MessageBit(alg: Algorithm, data: seq<byte>, p: nat)
    requires p < 8 * |data|
    ensures MessageBits(alg, data)[p] == Sent(alg.refin, data, p)
    decreases |data|
  {
    hide Sent, Algorithm.ByteBits;
    assert MessageBits(alg, data) == alg.ByteBits(data[0]) + MessageBits(alg, data[1..]);
    if p < 8 {
      ByteBit(alg, data[0], p);
      SentFirst(alg.refin, data, p);
    } else {
      MessageBit(alg, data[1..], p - 8);
      SentRest(alg.refin, data, p);
    }
  }

  /** The specified checksum, in full. */
  lemma {:induction false} ChecksumMeans(alg: Algorithm, seed: Word, data: seq<byte>)
    requires alg.Valid() && |seed| == alg.Width()
    ensures IsChecksum(Checksum(alg, seed, data), alg.poly, alg.xorResult, alg.refin, seed, data)
  {
    hide MessageBits, Sent, Remainder;
    var message := XorPrefix(MessageBits(alg, data) + Zero(alg.Width()), alg.Orient(seed));
    var s := Dividend(alg.refin, seed, data);
    forall p | 0 <= p < |s|
      ensures s[p] == message[p]
    {
      if p < 8 * |data| {
        MessageBit(alg, data, p);
      } else {
        NothingSent(alg.refin, data, p);
      }
    }
    assert s == message;
  }

  lemma {:induction false} NothingSent(reflected: bool, data: seq<byte>, p: nat)
    requires p >= 8 * |data|
    ensures !Sent(reflected, data, p)
  {
  }

  /** The bits of weight 2^k and above are those of `e`. */
  ghost predicate BitsFrom(x: nat, n: nat, k: nat, e: set<nat>) {
    forall i :: 0 <= i < n ==> WordOf(x, n)[i] == (k + n - 1 - i in e)
  }

  /** The low byte's bits, one by one. */
  predicate LowBits(x: nat, k: nat, e: set<nat>) {
    && (k in e) == (x % 2 == 1)
    && (k + 1 in e) == (x / 2 % 2 == 1)
    && (k + 2 in e) == (x / 4 % 2 == 1)
    && (k + 3 in e) == (x / 8 % 2 == 1)
    && (k + 4 in e) == (x / 16 % 2 == 1)
    && (k + 5 in e) == (x / 32 % 2 == 1)
    && (k + 6 in e) == (x / 64 % 2 == 1)
    && (k + 7 in e) == (x / 128 % 2 == 1)
  }

  lemma {:induction false} OneBit(x: nat, n: nat, k: nat, e: set<nat>)
    requires n > 0 && (k in e) == (x % 2 == 1) && BitsFrom(x / 2, n - 1, k + 1, e)
    ensures BitsFrom(x, n, k, e)
  {
    forall i | 0 <= i < n
      ensures WordOf(x, n)[i] == (k + n - 1 - i in e)
    {
      if i < n - 1 {
        assert WordOf(x, n)[i] == WordOf(x / 2, n - 1)[i];
      }
    }
  }

  lemma {:induction false} EightBits(x: nat, n: nat, k: nat, e: set<nat>)
    requires n >= 8 && LowBits(x, k, e) && BitsFrom(x / 256, n - 8, k + 8, e)
    ensures BitsFrom(x, n, k, e)
  {
    hide BitsFrom;
    OneBit(x / 128, n - 7, k + 7, e);
    OneBit(x / 64, n - 6, k + 6, e);
    OneBit(x / 32, n - 5, k + 5, e);
    OneBit(x / 16, n - 4, k + 4, e);
    OneBit(x / 8, n - 3, k + 3, e);
    OneBit(x / 4, n - 2, k + 2, e);
    OneBit(x / 2, n - 1, k + 1, e);
    OneBit(x, n, k, e);
  }

  /** Bits of weight `m` are not changed by multiples of 256. */
  lemma {:induction false} BitOfLowByte(b: byte, y: nat, m: nat, c: nat)
    requires m > 0 && 2 * m * c == 256
    ensures (b + 256 * y) / m % 2 == b / m % 2
  {
    var q := b / m;
    assert b + 256 * y == (q + 2 * (c * y)) * m + b % m by {
      assert 256 * y == (2 * m * c) * y == 2 * (c * y) * m;
      Distribute(q, 2 * (c * y), m);
    }
    RemainderUnique(b + 256 * y, m, q + 2 * (c * y), b % m);
    QuotientNat(b, m);
    TwiceMore(q, c * y);
  }

  lemma {:induction false} TwiceMore(q: nat, z: nat)
    ensures (q + 2 * z) % 2 == q % 2
  {
  }

  lemma {:induction false} LowBitsOfByte(b: byte, y: nat, k: nat, e: set<nat>)
    requires LowBits(b, k, e)
    ensures LowBits(b + 256 * y, k, e) && (b + 256 * y) / 256 == y
  {
    BitOfLowByte(b, y, 1, 128);
    BitOfLowByte(b, y, 2, 64);
    BitOfLowByte(b, y, 4, 32);
    BitOfLowByte(b, y, 8, 16);
    BitOfLowByte(b, y, 16, 8);
    BitOfLowByte(b, y, 32, 4);
    BitOfLowByte(b, y, 64, 2);
    BitOfLowByte(b, y, 128, 1);
  }

  lemma {:induction false} SixteenBits(x: nat, b1: byte, b0: byte, e: set<nat>)
    requires x == b1 * 256 + b0 && LowBits(b0, 0, e) && LowBits(b1, 8, e)
    ensures WordOf(x, 16) == BitsAt(16, e)
  {
    hide LowBits, BitsFrom, WordOf, BitsAt;
    LowBitsOfByte(b0, b1, 0, e);
    LowBitsOfByte(b1, 0, 8, e);
    NoBits(16, e);
    EightBits(b1, 8, 8, e);
    EightBits(x, 16, 0, e);
    WordOfBits(x, 16, e);
  }

  lemma {:induction false} NoBits(k: nat, e: set<nat>)
    ensures BitsFrom(0, 0, k, e)
  {
  }

  lemma {:induction false} WordOfBits(x: nat, n: nat, e: set<nat>)
    requires BitsFrom(x, n, 0, e)
    ensures WordOf(x, n) == BitsAt(n, e)
  {
    hide WordOf;
  }

  lemma {:induction false} ThirtyTwoBits(x: nat, b3: byte, b2: byte, b1: byte, b0: byte, e: set<nat>)
    requires x == ((b3 * 256 + b2) * 256 + b1) * 256 + b0
    requires LowBits(b0, 0, e) && LowBits(b1, 8, e) && LowBits(b2, 16, e) && LowBits(b3, 24, e)
    ensures WordOf(x, 32) == BitsAt(32, e)
  {
    hide LowBits, BitsFrom, WordOf, BitsAt;
    var y2 := b3 * 256 + b2;
    var y1 := y2 * 256 + b1;
    LowBitsOfByte(b0, y1, 0, e);
    LowBitsOfByte(b1, y2, 8, e);
    LowBitsOfByte(b2, b3, 16, e);
    LowBitsOfByte(b3, 0, 24, e);
    NoBits(32, e);
    EightBits(b3, 8, 24, e);
    EightBits(y2, 16, 16, e);
    EightBits(y1, 24, 8, e);
    EightBits(x, 32, 0, e);
    WordOfBits(x, 32, e);
  }

  lemma {:induction false} OnesOf(n: nat)
    ensures Pow2(n) >= 1 && WordOf(Pow2(n) - 1, n) == Ones(n)
  {
    if n > 0 {
      OnesOf(n - 1);
      assert (Pow2(n) - 1) / 2 == Pow2(n - 1) - 1;
      assert Ones(n) == Ones(n - 1) + [true];
    }
  }

  lemma {:induction false} AllOnes()
    ensures WordOf(0xFFFFFFFF, 32) == Ones(32) && WordOf(0xffff, 16) == Ones(16)
  {
    hide WordOf, Ones, Pow2;
    Pow2Values();
    OnesOf(32);
    OnesOf(16);
  }

  lemma {:induction false} Pow2Values()
    ensures Pow2(16) == 0x1_0000 && Pow2(32) == 0x1_0000_0000
  {
    hide Pow2;
    Pow2Eight();
    Pow2Twice(8);
    Pow2Twice(16);
  }

  lemma {:induction false} Pow2Add(m: nat, n: nat)
    ensures Pow2(m + n) == Pow2(m) * Pow2(n)
    decreases m
  {
    hide Pow2;
    Pow2Step(n);
    if m > 0 {
      Pow2Add(m - 1, n);
      Pow2Step(m - 1);
      Pow2Step(m - 1 + n);
      assert 2 * (Pow2(m - 1) * Pow2(n)) == (2 * Pow2(m - 1)) * Pow2(n);
    }
  }

  lemma {:induction false} Pow2Twice(n: nat)
    ensures Pow2(2 * n) == Pow2(n) * Pow2(n)
  {
    Pow2Add(n, n);
  }

  // The generators by their exponents, with x^32 or x^16 in front of all of them.

  /** The generator of IEEE 802.3. */
  function Ieee(): set<nat> {
    {26, 23, 22, 16, 12, 11, 10, 8, 7, 5, 4, 2, 1, 0}
  }

  /** The generator of Castagnoli and others. */
  function Castagnoli(): set<nat> {
    {28, 27, 26, 25, 23, 22, 20, 19, 18, 14, 13, 11, 10, 9, 8, 6, 0}
  }

  /** The generator of aeronautical data. */
  function Aeronautical(): set<nat> {
    {31, 24, 22, 16, 14, 8, 7, 5, 3, 1, 0}
  }

  /** Generator D of Castagnoli and others. */
  function CastagnoliD(): set<nat> {
    {31, 29, 27, 21, 20, 17, 16, 15, 12, 11, 5, 3, 1, 0}
  }

  lemma {:induction false} IeeeBits()
    ensures WordOf(0x04C11DB7, 32) == BitsAt(32, Ieee())
  {
    ThirtyTwoBits(0x04C11DB7, 0x04, 0xC1, 0x1D, 0xB7, Ieee());
  }

  lemma {:induction false} XferBits()
    ensures WordOf(0x000000AF, 32) == BitsAt(32, {7, 5, 3, 2, 1, 0})
  {
    ThirtyTwoBits(0x000000AF, 0x00, 0x00, 0x00, 0xAF, {7, 5, 3, 2, 1, 0});
  }

  lemma {:induction false} CastagnoliBits()
    ensures WordOf(0x1EDC6F41, 32) == BitsAt(32, Castagnoli())
  {
    ThirtyTwoBits(0x1EDC6F41, 0x1E, 0xDC, 0x6F, 0x41, Castagnoli());
  }

  lemma {:induction false} AeronauticalBits()
    ensures WordOf(0x814141AB, 32) == BitsAt(32, Aeronautical())
  {
    ThirtyTwoBits(0x814141AB, 0x81, 0x41, 0x41, 0xAB, Aeronautical());
  }

  lemma {:induction false} CastagnoliDBits()
    ensures WordOf(0xA833982B, 32) == BitsAt(32, CastagnoliD())
  {
    ThirtyTwoBits(0xA833982B, 0xA8, 0x33, 0x98, 0x2B, CastagnoliD());
  }

  lemma {:induction false} CcittBits()
    ensures WordOf(0x1021, 16) == BitsAt(16, {12, 5, 0})
  {
    SixteenBits(0x1021, 0x10, 0x21, {12, 5, 0});
  }

  lemma {:induction false} IbmBits()
    ensures WordOf(0x8005, 16) == BitsAt(16, {15, 2, 0})
  {
    SixteenBits(0x8005, 0x80, 0x05, {15, 2, 0});
  }

  lemma {:induction false} DnpBits()
    ensures WordOf(0x3d65, 16) == BitsAt(16, {13, 12, 11, 10, 8, 6, 5, 2, 0})
  {
    SixteenBits(0x3d65, 0x3D, 0x65, {13, 12, 11, 10, 8, 6, 5, 2, 0});
  }

  lemma {:induction false} AugSeedBits()
    ensures WordOf(0x1d0f, 16) == BitsAt(16, {12, 11, 10, 8, 3, 2, 1, 0})
  {
    SixteenBits(0x1d0f, 0x1D, 0x0F, {12, 11, 10, 8, 3, 2, 1, 0});
  }

  /** The parameters of the 32-bit checksums: generator, initial value, final mask and bit order. */
  lemma {:induction false} Parameters32()
    ensures Predefined32() == [
      Algorithm(BitsAt(32, {7, 5, 3, 2, 1, 0}), Zero(32), Zero(32), false, false),
      Algorithm(BitsAt(32, Ieee()), Zero(32), Ones(32), false, false),
      Algorithm(BitsAt(32, Ieee()), Ones(32), Ones(32), false, false),
      Algorithm(BitsAt(32, Ieee()), Ones(32), Zero(32), false, false),
      Algorithm(BitsAt(32, Ieee()), Ones(32), Ones(32), true, true),
      Algorithm(BitsAt(32, Ieee()), Ones(32), Zero(32), true, true),
      Algorithm(BitsAt(32, Castagnoli()), Ones(32), Ones(32), true, true),
      Algorithm(BitsAt(32, Aeronautical()), Zero(32), Zero(32), false, false),
      Algorithm(BitsAt(32, CastagnoliD()), Ones(32), Ones(32), true, true) ]
  {
    hide WordOf, BitsAt, Ones, Zero, Ieee, Castagnoli, Aeronautical, CastagnoliD;
    AllOnes();
    WordOfZero(32);
    IeeeBits();
    XferBits();
    CastagnoliBits();
    AeronauticalBits();
    CastagnoliDBits();
  }

  /** The parameters of the 16-bit checksums: generator, initial value, final mask and bit order. */
  lemma {:induction false} Parameters16()
    ensures Predefined16() == [
      Algorithm(BitsAt(16, {12, 5, 0}), Zero(16), Zero(16), true, true),
      Algorithm(BitsAt(16, {12, 5, 0}), Ones(16), Zero(16), false, false),
      Algorithm(BitsAt(16, {12, 5, 0}), Zero(16), Zero(16), false, false),
      Algorithm(BitsAt(16, {12, 5, 0}), Ones(16), Ones(16), true, true),
      Algorithm(BitsAt(16, {12, 5, 0}), BitsAt(16, {12, 11, 10, 8, 3, 2, 1, 0}), Zero(16), false, false),
      Algorithm(BitsAt(16, {15, 2, 0}), Ones(16), Zero(16), true, true),
      Algorithm(BitsAt(16, {15, 2, 0}), Zero(16), Zero(16), true, true),
      Algorithm(BitsAt(16, {15, 2, 0}), Zero(16), Ones(16), true, true),
      Algorithm(BitsAt(16, {15, 2, 0}), Ones(16), Ones(16), true, true),
      Algorithm(BitsAt(16, {13, 12, 11, 10, 8, 6, 5, 2, 0}), Zero(16), Ones(16), true, true) ]
  {
    hide WordOf, BitsAt, Ones, Zero;
    AllOnes();
    WordOfZero(16);
    CcittBits();
    IbmBits();
    DnpBits();
    AugSeedBits();
  }

  function Ones32(): (w: Word)
    ensures |w| == 32
  {
    WordOf(0xFFFFFFFF, 32)
  }

  function Crc32Of(crc: Word, data: seq<byte>): (r: Word)
    requires |crc| == 32
    ensures |r| == 32
  {
    Checksum(Crc32Algorithm(), Xor(crc, Ones32()), data)
  }

  /** The wrapper on the shared CRC-32 instance, which is reseeded by every call. */
  method Crc32(algo: Libcrc, crc: Word, data: seq<byte>) returns (r: Word)
    requires algo.Valid() && algo.alg == Crc32Algorithm() && |crc| == 32
    modifies algo, algo.table
    ensures algo.Valid() && r == Crc32Of(crc, data)
    ensures IsChecksum(r, BitsAt(32, Ieee()), Ones(32), true, Xor(crc, Ones(32)), data)
  {
    hide IsChecksum, BitsAt, Ones, WordOf, Ieee;
    PredefinedValid(Crc32Algorithm());
    algo.InitSeed(Xor(crc, Ones32()));
    algo.Update(data);
    r := algo.Finish();
    Crc32Means(crc, data);
  }

  /** CRC-32 as IEEE 802.3 and ISO 3309 have it, started from the complement of the previous value. */
  lemma {:induction false} Crc32Means(crc: Word, data: seq<byte>)
    requires |crc| == 32
    ensures IsChecksum(Crc32Of(crc, data), BitsAt(32, Ieee()), Ones(32), true, Xor(crc, Ones(32)), data)
  {
    hide IsChecksum, BitsAt, Ones, WordOf, Ieee, Checksum;
    AllOnes();
    IeeeBits();
    PredefinedValid(Crc32Algorithm());
    ChecksumMeans(Crc32Algorithm(), Xor(crc, Ones32()), data);
  }

  /** A checksum can be resumed from the value of the previous call. */
  lemma {:induction false} Crc32Resumes(crc: Word, a: seq<byte>, b: seq<byte>)
    requires |crc| == 32
    ensures Crc32Of(Crc32Of(crc, a), b) == Crc32Of(crc, a + b)
  {
    var alg := Crc32Algorithm();
    var seed := Xor(crc, Ones32());
    FedIsChecksum(alg, seed, a);
    FedIsChecksum(alg, seed, a + b);
    XorTwice(Fed(alg, seed, a), Ones32());
    FedIsChecksum(alg, Fed(alg, seed, a), b);
    FedConcat(alg, seed, a, b);
  }
}
