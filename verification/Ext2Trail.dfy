/** What a walk over the blocks of a file appends and marks, step by step (fs/ext2.c). */
module Ext2Trail {
  import opened Base
  import opened Bitmask

  datatype Range = Range(start: nat, count: nat)

  /** The items appended and the blocks marked, also when the walk fails on the way. */
  datatype Trail<T> = Trail(ok: bool, items: seq<T>, marks: seq<Range>)

  function Nothing<T>(): Trail<T> {
    Trail(true, [], [])
  }

  function Marking<T>(r: Range): Trail<T> {
    Trail(true, [], [r])
  }

  /** One walk after the other; after a failure nothing more happens. */
  function Then<T>(a: Trail<T>, b: Trail<T>): Trail<T> {
    if a.ok then Trail(b.ok, a.items + b.items, a.marks + b.marks) else a
  }

  lemma {:induction false} ThenAssociates<T>(a: Trail<T>, b: Trail<T>, c: Trail<T>)
    ensures Then(a, Then(b, c)) == Then(Then(a, b), c)
  {
  }

  lemma {:induction false} ThenNothing<T>(t: Trail<T>)
    ensures Then(Nothing(), t) == t
    ensures t.ok ==> Then(t, Nothing()) == t
  {
    assert [] + t.items == t.items && [] + t.marks == t.marks;
    assert t.items + [] == t.items && t.marks + [] == t.marks;
  }

  lemma {:induction false} FailsEarly<T>(a: Trail<T>, b: Trail<T>, c: Trail<T>)
    ensures !a.ok ==> Then(Then(a, b), c) == a
    ensures !Then(a, b).ok ==> Then(Then(a, b), c) == Then(a, b)
  {
  }

  ghost predicate Covered(rs: seq<Range>, i: nat) {
    exists k :: 0 <= k < |rs| && rs[k].start <= i < rs[k].start + rs[k].count
  }

  /** A bitmap with the listed ranges set, as far as they are inside. */
  ghost function Marked(bits: seq<bool>, rs: seq<Range>): (r: seq<bool>)
    ensures |r| == |bits| && forall i :: 0 <= i < |bits| ==> (r[i] <==> bits[i] || Covered(rs, i))
  {
    seq(|bits|, i requires 0 <= i < |bits| => bits[i] || Covered(rs, i))
  }

  lemma {:induction false} CoveredConcat(a: seq<Range>, b: seq<Range>, i: nat)
    ensures Covered(a + b, i) <==> Covered(a, i) || Covered(b, i)
  {
    if Covered(a, i) {
      var k :| 0 <= k < |a| && a[k].start <= i < a[k].start + a[k].count;
      assert (a + b)[k] == a[k];
    }
    if Covered(b, i) {
      var k :| 0 <= k < |b| && b[k].start <= i < b[k].start + b[k].count;
      assert (a + b)[|a| + k] == b[k];
    }
  }

  lemma {:induction false} MarkedTwice(bits: seq<bool>, a: seq<Range>, b: seq<Range>)
    ensures Marked(Marked(bits, a), b) == Marked(bits, a + b)
    ensures Marked(bits, []) == bits
  {
    hide Covered;
    forall i | 0 <= i < |bits|
      ensures Marked(Marked(bits, a), b)[i] == Marked(bits, a + b)[i]
    {
      CoveredConcat(a, b, i);
    }
    assert forall i: nat :: !Covered([], i) by { NothingCovered(); }
  }

  lemma {:induction false} NothingCovered()
    ensures forall i: nat :: !Covered([], i)
  {
  }

  lemma {:induction false} MarkedOne(bits: seq<bool>, r: Range)
    ensures Marked(bits, [r]) == Painted(bits, r.start, r.count, true)
  {
    forall i | 0 <= i < |bits|
      ensures Covered([r], i) <==> r.start <= i < r.start + r.count
    {
      assert [r][0] == r;
    }
  }

  /** Sets the bits of a range; those past the end are ignored. */
  method Mark(marks: Bitmask?, r: Range)
    requires marks != null ==> marks.Valid()
    modifies if marks == null then {} else {marks.buffer}
    ensures marks != null ==> marks.Bits() == Marked(old(marks.Bits()), [r])
  {
    if marks != null {
      MarkedOne(marks.Bits(), r);
      var ret := marks.SetBits(r.start, r.count);
    }
  }

  /** Sets the bit of one block; a block past the end is ignored. */
  method MarkBlock(marks: Bitmask?, b: uint32)
    requires marks != null ==> marks.Valid()
    modifies if marks == null then {} else {marks.buffer}
    ensures marks != null ==> marks.Bits() == Marked(old(marks.Bits()), [Range(b, 1)])
  {
    if marks != null {
      MarkedOne(marks.Bits(), Range(b, 1));
      assert Painted(marks.Bits(), b, 1, true) == if b < marks.totalBits then marks.Bits()[b := true] else marks.Bits();
      var ret := marks.Write(b, true);
    }
  }

  /** One more step, on top of what was there and of what the walk has done so far. */
  lemma {:induction false} ThenStep<T>(before: seq<T>, bits: seq<bool>, a: Trail<T>, b: Trail<T>)
    requires a.ok
    ensures Then(a, b).ok == b.ok
    ensures (before + a.items) + b.items == before + Then(a, b).items
    ensures Marked(Marked(bits, a.marks), b.marks) == Marked(bits, Then(a, b).marks)
  {
    hide Marked;
    MarkedTwice(bits, a.marks, b.marks);
  }

  lemma {:induction false} NoSteps<T>(before: seq<T>, bits: seq<bool>)
    ensures before + [] == before && Marked(bits, []) == bits
  {
    hide Marked;
    MarkedTwice(bits, [], []);
  }
}
