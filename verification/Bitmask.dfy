/** A bitmap over a byte buffer and the iteration over its runs of ones (bitmask.c). */
module Bitmask {
  import opened Base

  /** 1 << j in a byte. */
  function Bit(j: nat): bv8
    requires j < 8
  {
    if j == 0 then 1 else if j == 1 then 2 else if j == 2 then 4 else if j == 3 then 8
    else if j == 4 then 16 else if j == 5 then 32 else if j == 6 then 64 else 128
  }

  /** Bits of a byte are numbered from the most significant one. */
  predicate ByteBit(x: bv8, k: nat)
    requires k < 8
  {
    x & Bit(7 - k) != 0
  }

  lemma {:induction false} BitOps(x: bv8, j: nat, k: nat)
    requires j < 8 && k < 8
    ensures ByteBit(x | Bit(7 - j), k) == (j == k || ByteBit(x, k))
    ensures ByteBit(x & !Bit(7 - j), k) == (j != k && ByteBit(x, k))
  {
  }

  lemma {:induction false} BitXor(x: bv8, k: nat)
    requires k < 8
    ensures ByteBit(x ^ 0xff, k) == !ByteBit(x, k)
    ensures ByteBit(x ^ 0, k) == ByteBit(x, k)
  {
  }

  lemma {:induction false} ZeroByte(k: nat)
    requires k < 8
    ensures !ByteBit(0, k)
  {
  }

  predicate BitAt(buf: seq<bv8>, i: nat)
    requires i < 8 * |buf|
  {
    ByteBit(buf[i / 8], i % 8)
  }

  const WEIGHTS: seq<bv8> := [0x80, 0x40, 0x20, 0x10, 0x08, 0x04, 0x02, 0x01]

  /** Bit 0 is the most significant one of byte 0. */
  lemma {:induction false} BitAtMeans(buf: seq<bv8>, i: nat)
    requires i < 8 * |buf|
    ensures BitAt(buf, i) <==> buf[i / 8] & WEIGHTS[i % 8] != 0
  {
    ByteBitMeans(buf[i / 8], i % 8);
  }

  lemma {:induction false} ByteBitMeans(x: bv8, k: nat)
    requires k < 8
    ensures ByteBit(x, k) <==> x & WEIGHTS[k] != 0
  {
  }

  function BitsOf(buf: seq<bv8>, total: nat): (r: seq<bool>)
    requires total <= 8 * |buf|
    ensures |r| == total && forall i :: 0 <= i < total ==> r[i] == BitAt(buf, i)
  {
    seq(total, i requires 0 <= i < total => BitAt(buf, i))
  }

  /** The buffer after `|= 1 << bit` or `&= ~(1 << bit)` on the byte of bit `i`. */
  function WithBit(buf: seq<bv8>, i: nat, v: bool): (r: seq<bv8>)
    requires i < 8 * |buf|
    ensures |r| == |buf|
  {
    var x := buf[i / 8];
    buf[i / 8 := if v then x | Bit(7 - i % 8) else x & !Bit(7 - i % 8)]
  }

  lemma {:induction false} WriteBit(buf: seq<bv8>, total: nat, i: nat, v: bool)
    requires i < total <= 8 * |buf|
    ensures BitsOf(WithBit(buf, i, v), total) == BitsOf(buf, total)[i := v]
  {
    hide BitAt, WithBit;
    forall k | 0 <= k < total
      ensures BitAt(WithBit(buf, i, v), k) == if k == i then v else BitAt(buf, k)
    {
      WithBitAt(buf, i, v, k);
    }
  }

  lemma {:induction false} WithBitAt(buf: seq<bv8>, i: nat, v: bool, k: nat)
    requires i < 8 * |buf| && k < 8 * |buf|
    ensures BitAt(WithBit(buf, i, v), k) == if k == i then v else BitAt(buf, k)
  {
    hide ByteBit, Bit;
    BitOps(buf[i / 8], i % 8, k % 8);
    assert k == k / 8 * 8 + k % 8 && i == i / 8 * 8 + i % 8;
  }

  /** The least index from `from` on whose bit is `v`, or the length. */
  function Find(bits: seq<bool>, from: nat, v: bool): (r: nat)
    requires from <= |bits|
    ensures from <= r <= |bits|
    ensures r < |bits| ==> bits[r] == v
    ensures forall i :: from <= i < r ==> bits[i] != v
    decreases |bits| - from
  {
    if from == |bits| || bits[from] == v then from else Find(bits, from + 1, v)
  }

  /** The index that the search functions report: -1 when there is none. */
  function FirstIndex(bits: seq<bool>, from: nat, v: bool): int {
    if from > |bits| || Find(bits, from, v) == |bits| then -1 else Find(bits, from, v)
  }

  lemma {:induction false} FirstIndexIs(bits: seq<bool>, from: nat, v: bool, k: nat)
    requires forall i :: from <= i < k && i < |bits| ==> bits[i] != v
    requires k < |bits| ==> from <= k && bits[k] == v
    ensures FirstIndex(bits, from, v) == if k < |bits| then k else -1
  {
  }

  datatype Run = Run(start: nat, count: nat)

  /** The runs of ones from index `from` on. */
  function RunsFrom(bits: seq<bool>, from: nat): seq<Run>
    requires from <= |bits|
    decreases |bits| - from
  {
    var s := Find(bits, from, true);
    if s == |bits| then []
    else
      var e := Find(bits, s + 1, false);
      [Run(s, e - s)] + RunsFrom(bits, e)
  }

  lemma {:induction false} RunsFromStep(bits: seq<bool>, from: nat)
    requires from <= |bits|
    ensures var s := Find(bits, from, true);
      if s == |bits| then RunsFrom(bits, from) == []
      else
        var e := Find(bits, s + 1, false);
        && RunsFrom(bits, from) == [Run(s, e - s)] + RunsFrom(bits, e)
        && RunsFrom(bits, from)[1..] == RunsFrom(bits, e)
        && (e == |bits| ==> RunsFrom(bits, from) == [Run(s, e - s)])
  {
    hide Find;
    var s := Find(bits, from, true);
    if s < |bits| {
      var e := Find(bits, s + 1, false);
      assert ([Run(s, e - s)] + RunsFrom(bits, e))[1..] == RunsFrom(bits, e);
      NoRunsAtEnd(bits);
      assert [Run(s, e - s)] + [] == [Run(s, e - s)];
    }
  }

  lemma {:induction false} NoRunsAtEnd(bits: seq<bool>)
    ensures RunsFrom(bits, |bits|) == []
  {
    hide Find;
  }

  ghost predicate InRun(r: Run, i: nat) {
    r.start <= i < r.start + r.count
  }

  /** A run of ones that cannot be extended on either side. */
  ghost predicate Maximal(bits: seq<bool>, r: Run) {
    && r.count > 0 && r.start + r.count <= |bits|
    && (forall i: nat :: InRun(r, i) ==> bits[i])
    && (r.start > 0 ==> !bits[r.start - 1])
    && (r.start + r.count < |bits| ==> !bits[r.start + r.count])
  }

  ghost predicate AllMaximal(bits: seq<bool>, from: nat, rs: seq<Run>) {
    forall k :: 0 <= k < |rs| ==> from <= rs[k].start && Maximal(bits, rs[k])
  }

  ghost predicate Separated(rs: seq<Run>) {
    forall k, l :: 0 <= k < l < |rs| ==> rs[k].start + rs[k].count < rs[l].start
  }

  ghost predicate Covers(bits: seq<bool>, from: nat, rs: seq<Run>) {
    forall i :: from <= i < |bits| && bits[i] ==> exists k :: 0 <= k < |rs| && InRun(rs[k], i)
  }

  /** The iteration yields exactly the maximal runs, in order, with a zero between neighbours, covering every one. */
  lemma {:induction false} RunsAreMaximal(bits: seq<bool>, from: nat)
    requires from <= |bits| && (0 < from < |bits| ==> !bits[from])
    ensures AllMaximal(bits, from, RunsFrom(bits, from))
    ensures Separated(RunsFrom(bits, from))
    ensures Covers(bits, from, RunsFrom(bits, from))
    decreases |bits| - from
  {
    hide Find, Separated, Covers, AllMaximal;
    var s := Find(bits, from, true);
    if s < |bits| {
      var e := Find(bits, s + 1, false);
      RunsAreMaximal(bits, e);
      PrependRun(bits, from, s, e, RunsFrom(bits, e));
    } else {
      NoRuns(bits, from);
    }
  }

  lemma {:induction false} NoRuns(bits: seq<bool>, from: nat)
    requires forall i :: from <= i < |bits| ==> !bits[i]
    ensures AllMaximal(bits, from, []) && Separated([]) && Covers(bits, from, [])
  {
  }

  lemma {:induction false} PrependRun(bits: seq<bool>, from: nat, s: nat, e: nat, rest: seq<Run>)
    requires from <= s < e <= |bits| && (from > 0 ==> from < s || !bits[from])
    requires forall i :: from <= i < s ==> !bits[i]
    requires forall i :: s <= i < e ==> bits[i]
    requires e < |bits| ==> !bits[e]
    requires AllMaximal(bits, e, rest) && Separated(rest) && Covers(bits, e, rest)
    ensures AllMaximal(bits, from, [Run(s, e - s)] + rest)
    ensures Separated([Run(s, e - s)] + rest)
    ensures Covers(bits, from, [Run(s, e - s)] + rest)
  {
    PrependSeparated(bits, s, e, rest);
    PrependCovers(bits, from, s, e, rest);
  }

  lemma {:induction false} PrependSeparated(bits: seq<bool>, s: nat, e: nat, rest: seq<Run>)
    requires s < e <= |bits| && (e < |bits| ==> !bits[e])
    requires AllMaximal(bits, e, rest) && Separated(rest)
    ensures Separated([Run(s, e - s)] + rest)
  {
    forall l | 0 <= l < |rest|
      ensures e < rest[l].start
    {
      assert InRun(rest[l], rest[l].start);
    }
  }

  lemma {:induction false} PrependCovers(bits: seq<bool>, from: nat, s: nat, e: nat, rest: seq<Run>)
    requires from <= s < e <= |bits| && Covers(bits, e, rest)
    requires forall i :: from <= i < s ==> !bits[i]
    ensures Covers(bits, from, [Run(s, e - s)] + rest)
  {
    var rs := [Run(s, e - s)] + rest;
    forall i | from <= i < |bits| && bits[i]
      ensures exists k :: 0 <= k < |rs| && InRun(rs[k], i)
    {
      if i < e {
        assert InRun(rs[0], i);
      } else {
        var k :| 0 <= k < |rest| && InRun(rest[k], i);
        assert InRun(rs[k + 1], i);
      }
    }
  }

  /** What the scan of byte `i` up to `end`, of its value xored with `mask`, says about the bits of the buffer. */
  lemma {:induction false} ScanByte(buf: seq<bv8>, i: nat, from: nat, end: nat, mask: bv8, x: bv8)
    requires i < |buf| && 8 * i <= end <= 8 * i + 8 && (mask == 0 || mask == 0xff) && x == buf[i] ^ mask
    requires forall k :: 0 <= k < 8 && from <= 8 * i + k && 8 * i + k < end ==> !ByteBit(x, k)
    ensures forall k :: 8 * i <= k < end && from <= k ==> BitAt(buf, k) != (mask == 0)
    ensures end < 8 * i + 8 && ByteBit(x, end - 8 * i) ==> BitAt(buf, end) == (mask == 0)
  {
    hide ByteBit;
    forall k | 8 * i <= k < 8 * i + 8
      ensures (BitAt(buf, k) == (mask == 0)) == ByteBit(x, k - 8 * i)
    {
      BitXor(buf[i], k - 8 * i);
      assert k / 8 == i && k % 8 == k - 8 * i;
    }
  }

  /** No bit of the bitmap between two positions has the value. */
  ghost predicate NoneFrom(buf: seq<bv8>, total: nat, from: nat, end: nat, v: bool)
    requires total <= 8 * |buf|
  {
    forall k :: from <= k < total && k < end ==> BitAt(buf, k) != v
  }

  lemma {:induction false} StartScan(buf: seq<bv8>, total: nat, from: nat, v: bool)
    requires total <= 8 * |buf|
    ensures NoneFrom(buf, total, from, 8 * (from / 8), v)
  {
  }

  lemma {:induction false} EndScan(buf: seq<bv8>, total: nat, from: nat, end: nat, v: bool)
    requires total <= 8 * |buf| && total <= end && NoneFrom(buf, total, from, end, v)
    ensures FirstIndex(BitsOf(buf, total), from, v) == -1
  {
    hide BitAt, FirstIndex;
    FirstIndexIs(BitsOf(buf, total), from, v, total);
  }

  /** The scan of one more byte ends the search or goes on to the next. */
  lemma {:induction false} ScanStep(buf: seq<bv8>, total: nat, i: nat, from: nat, mask: bv8, x: bv8, found: bool,
                                    bit: nat)
    requires i < |buf| && total <= 8 * |buf| && (mask == 0 || mask == 0xff) && x == buf[i] ^ mask
    requires NoneFrom(buf, total, from, 8 * i, mask == 0)
    requires found ==> 8 * i <= bit < 8 * i + 8 && from <= bit && ByteBit(x, bit - 8 * i)
    requires forall k :: 0 <= k < 8 && from <= 8 * i + k && (found ==> 8 * i + k < bit) ==> !ByteBit(x, k)
    ensures found ==> FirstIndex(BitsOf(buf, total), from, mask == 0) == if bit >= total then -1 else bit
    ensures !found ==> NoneFrom(buf, total, from, 8 * i + 8, mask == 0)
  {
    hide ByteBit, BitAt, FirstIndex;
    ScanByte(buf, i, from, if found then bit else 8 * i + 8, mask, x);
    if found {
      FirstIndexIs(BitsOf(buf, total), from, mask == 0, bit);
    }
  }

  class Bitmask {
    const totalBits: nat
    const buffer: array<bv8>

    ghost predicate Valid() {
      && totalBits <= 8 * buffer.Length < totalBits + 8
      && totalBits <= 0x7FFF_FFFF
    }

    ghost function Bits(): (r: seq<bool>)
      requires Valid()
      reads buffer
      ensures |r| == totalBits
    {
      BitsOf(buffer[..], totalBits)
    }

    constructor (totalBits: nat)
      requires totalBits <= 0x7FFF_FFFF
      ensures Valid() && fresh(buffer) && this.totalBits == totalBits
      ensures Bits() == seq(totalBits, _ => false)
    {
      this.totalBits := totalBits;
      buffer := new bv8[(totalBits + 7) / 8](_ => 0);
      new;
      forall i | 0 <= i < totalBits
        ensures !BitAt(buffer[..], i)
      {
        ZeroByte(i % 8);
      }
    }

    /** Sets or clears one bit; an index past the end is an error and changes nothing. */
    method Write(bitIdx: nat, v: bool) returns (ret: int)
      requires Valid()
      modifies buffer
      ensures ret == if bitIdx < totalBits then 0 else -1
      ensures Bits() == if bitIdx < totalBits then old(Bits())[bitIdx := v] else old(Bits())
    {
      if bitIdx >= totalBits {
        return -1;
      }
      hide Bit, ByteBit, BitAt, BitsOf;
      var byteIdx, bit := bitIdx / 8, 7 - bitIdx % 8;
      WriteBit(buffer[..], totalBits, bitIdx, v);
      ghost var before := buffer[..];
      buffer[byteIdx] := if v then buffer[byteIdx] | Bit(bit) else buffer[byteIdx] & !Bit(bit);
      assert buffer[..] == WithBit(before, bitIdx, v);
      ret := 0;
    }

    /** Writes a range of bits; the result counts, negatively and in 32 bits, those past the end. */
    method WriteBits(fromBit: nat, count: nat, v: bool) returns (ret: int)
      requires Valid()
      modifies buffer
      ensures Bits() == Painted(old(Bits()), fromBit, count, v)
      ensures ret == Int32(-Outside(totalBits, fromBit, count))
    {
      ret := 0;
      for i := 0 to count
        invariant Bits() == Painted(old(Bits()), fromBit, i, v)
        invariant ret == Int32(-Outside(totalBits, fromBit, i))
      {
        var r := Write(fromBit + i, v);
        Int32Add(-Outside(totalBits, fromBit, i), r);
        ret := Int32(ret + r);
      }
    }

    method SetBits(fromBit: nat, count: nat) returns (ret: int)
      requires Valid()
      modifies buffer
      ensures Bits() == Painted(old(Bits()), fromBit, count, true)
      ensures ret == Int32(-Outside(totalBits, fromBit, count))
    {
      ret := WriteBits(fromBit, count, true);
    }

    /** Named for clearing bits, this sets them: the value passed on is 1. */
    method UnsetBits(fromBit: nat, count: nat) returns (ret: int)
      requires Valid()
      modifies buffer
      ensures Bits() == Painted(old(Bits()), fromBit, count, true)
      ensures ret == Int32(-Outside(totalBits, fromBit, count))
    {
      ret := WriteBits(fromBit, count, true);
    }

    method Get(bitIdx: nat) returns (r: int)
      requires Valid()
      ensures r == if bitIdx >= totalBits then -1 else if Bits()[bitIdx] then 1 else 0
    {
      if bitIdx >= totalBits {
        return -1;
      }
      var byteIdx, bit := bitIdx / 8, 7 - bitIdx % 8;
      assert buffer[..][byteIdx] == buffer[byteIdx];
      r := if buffer[byteIdx] & Bit(bit) != 0 then 1 else 0;
    }

    /** Complements every byte, so the padding bits after the last bit become ones. */
    method Not()
      requires Valid()
      modifies buffer
      ensures forall i :: 0 <= i < totalBits ==> Bits()[i] == !old(Bits())[i]
    {
      ghost var before := buffer[..];
      for i := 0 to buffer.Length
        invariant forall j :: 0 <= j < i ==> buffer[j] == before[j] ^ 0xff
        invariant forall j :: i <= j < buffer.Length ==> buffer[j] == before[j]
      {
        buffer[i] := buffer[i] ^ 0xff;
      }
      forall i | 0 <= i < totalBits
        ensures Bits()[i] == !BitAt(before, i)
      {
        BitXor(before[i / 8], i % 8);
      }
    }

    /**
     * The first bit from `fromBit` on that is one after the buffer is xored with `mask`, or -1.
     * Whole bytes without such a bit are skipped; bits past the end are never reported.
     */
    method FirstOne(fromBit: nat, mask: bv8) returns (r: int)
      requires Valid() && (mask == 0 || mask == 0xff)
      ensures r == FirstIndex(Bits(), fromBit, mask == 0)
    {
      hide ByteBit, FirstIndex, BitsOf, NoneFrom;
      var i := fromBit / 8;
      StartScan(buffer[..], totalBits, fromBit, mask == 0);
      while i < buffer.Length
        invariant fromBit / 8 <= i && NoneFrom(buffer[..], totalBits, fromBit, 8 * i, mask == 0)
      {
        var x := buffer[i] ^ mask;
        var found, bit := FindInByte(i, fromBit, x);
        ScanStep(buffer[..], totalBits, i, fromBit, mask, x, found, bit);
        if found {
          return if bit >= totalBits then -1 else bit;
        }
        i := i + 1;
      }
      EndScan(buffer[..], totalBits, fromBit, 8 * i, mask == 0);
      return -1;
    }

    /** The scan of byte `i`: its first bit, from `fromBit` on, that is set in `mask`. */
    static method FindInByte(i: nat, fromBit: nat, mask: bv8) returns (found: bool, bit: nat)
      ensures found ==> 8 * i <= bit < 8 * i + 8 && fromBit <= bit && ByteBit(mask, bit - 8 * i)
      ensures !found ==> bit == 8 * i + 8 || mask == 0
      ensures forall k :: 0 <= k < 8 && fromBit <= 8 * i + k && (found ==> 8 * i + k < bit) ==> !ByteBit(mask, k)
    {
      found, bit := false, 8 * i;
      if mask == 0 {
        forall k | 0 <= k < 8 { ZeroByte(k); }
        return;
      }
      var j := 7;
      while j >= 0
        invariant -1 <= j <= 7 && bit == 8 * i + (7 - j) && !found
        invariant forall k :: 0 <= k < 7 - j && fromBit <= 8 * i + k ==> !ByteBit(mask, k)
      {
        found := bit >= fromBit && mask & Bit(j) != 0;
        assert ByteBit(mask, 7 - j) == (mask & Bit(j) != 0);
        if found {
          return;
        }
        bit := bit + 1;
        j := j - 1;
      }
    }
  }

  /** The bits with those in a range set to `v`, as far as the range lies inside. */
  function Painted(bits: seq<bool>, from: nat, count: nat, v: bool): (r: seq<bool>)
    ensures |r| == |bits|
    ensures forall i :: 0 <= i < |bits| ==> r[i] == if from <= i < from + count then v else bits[i]
  {
    seq(|bits|, i requires 0 <= i < |bits| => if from <= i < from + count then v else bits[i])
  }

  /** How many positions of a range lie past the end. */
  function Outside(total: nat, from: nat, count: nat): (n: int)
    ensures 0 <= n <= count
    ensures n == 0 <==> from + count <= total || count == 0
  {
    if from >= total then count else if from + count > total then from + count - total else 0
  }

  class ContinueIterator {
    var start: int
    var bits: int
    var end: int
    const b: Bitmask

    /** The iterator stands on the first of the runs left in `runs`, or has ended. */
    ghost predicate At(runs: seq<Run>)
      requires b.Valid()
      reads this, b.buffer
    {
      if runs == [] then start < 0
      else
        && start == runs[0].start && bits == runs[0].count
        && (end < 0 ==> runs == [runs[0]])
        && (end >= 0 ==> end <= b.totalBits && runs[1..] == RunsFrom(b.Bits(), end))
    }

    method Update()
      requires b.Valid() && 0 <= start <= b.totalBits
      modifies this
      ensures At(RunsFrom(b.Bits(), old(start)))
    {
      hide Find, RunsFrom, BitsOf;
      RunsFromStep(b.Bits(), start);
      start := b.FirstOne(start, 0);
      if start < 0 {
        return;
      }
      end := b.FirstOne(start + 1, 0xff);
      if end < 0 {
        bits := b.totalBits - start;
        return;
      }
      bits := end - start;
    }

    constructor (b: Bitmask)
      requires b.Valid()
      ensures this.b == b && At(RunsFrom(b.Bits(), 0))
    {
      this.b := b;
      start, bits, end := 0, 0, 0;
      new;
      Update();
    }

    method Next(ghost runs: seq<Run>)
      requires b.Valid() && runs != [] && At(runs)
      modifies this
      ensures At(runs[1..])
    {
      start := end;
      if start < 0 {
        return;
      }
      Update();
    }
  }

  /** Iterating over a bitmap, whatever its padding bits, visits its maximal runs of ones. */
  method CollectRuns(b: Bitmask) returns (runs: seq<Run>)
    requires b.Valid()
    ensures runs == RunsFrom(b.Bits(), 0)
  {
    hide RunsFrom;
    runs := [];
    var it := new ContinueIterator(b);
    ghost var rest := RunsFrom(b.Bits(), 0);
    while it.start >= 0
      invariant it.b == b && it.At(rest)
      invariant RunsFrom(b.Bits(), 0) == runs + rest
      decreases |rest|
    {
      runs := runs + [Run(it.start, it.bits)];
      it.Next(rest);
      rest := rest[1..];
    }
  }
}
