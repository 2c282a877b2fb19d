/**
 * Machine words of the CRC library as bit sequences, most significant bit first.
 * The width is the length, so the 16- and 32-bit halves of the library share one model (libs/crc/libcrc.h).
 */
module CrcWord {
  import opened Base

  type Word = seq<bool>

  function Zero(n: nat): (z: Word)
    ensures |z| == n && forall i :: 0 <= i < n ==> !z[i]
  {
    seq(n, _ => false)
  }

  function Xor(a: Word, b: Word): (r: Word)
    requires |a| == |b|
    ensures |r| == |a| && forall i :: 0 <= i < |a| ==> r[i] == (a[i] != b[i])
  {
    seq(|a|, i requires 0 <= i < |a| => a[i] != b[i])
  }

  function And(a: Word, b: Word): (r: Word)
    requires |a| == |b|
    ensures |r| == |a| && forall i :: 0 <= i < |a| ==> r[i] == (a[i] && b[i])
  {
    seq(|a|, i requires 0 <= i < |a| => a[i] && b[i])
  }

  function Or(a: Word, b: Word): (r: Word)
    requires |a| == |b|
    ensures |r| == |a| && forall i :: 0 <= i < |a| ==> r[i] == (a[i] || b[i])
  {
    seq(|a|, i requires 0 <= i < |a| => a[i] || b[i])
  }

  function Shl(a: Word, k: nat): (r: Word)
    requires k <= |a|
    ensures |r| == |a| && forall i :: 0 <= i < |a| ==> r[i] == (i + k < |a| && a[i + k])
  {
    a[k..] + Zero(k)
  }

  function Shr(a: Word, k: nat): (r: Word)
    requires k <= |a|
    ensures |r| == |a| && forall i :: 0 <= i < |a| ==> r[i] == (i >= k && a[i - k])
  {
    Zero(k) + a[..|a| - k]
  }

  /** The low `n` bits of a number. */
  function WordOf(x: nat, n: nat): (w: Word)
    ensures |w| == n
    ensures n > 0 ==> w[n - 1] == (x % 2 == 1)
  {
    if n == 0 then [] else WordOf(x / 2, n - 1) + [x % 2 == 1]
  }

  function NatOf(w: Word): nat {
    if w == [] then 0 else 2 * NatOf(w[..|w| - 1]) + (if w[|w| - 1] then 1 else 0)
  }

  function Pow2(n: nat): nat {
    if n == 0 then 1 else 2 * Pow2(n - 1)
  }

  lemma {:induction false} WordOfNatOf(w: Word)
    ensures WordOf(NatOf(w), |w|) == w
    ensures NatOf(w) < Pow2(|w|)
  {
    if w != [] {
      WordOfNatOf(w[..|w| - 1]);
    }
  }

  lemma {:induction false} WordOfZero(n: nat)
    ensures WordOf(0, n) == Zero(n)
  {
    if n > 0 {
      WordOfZero(n - 1);
    }
  }

  /** A number below 2^k leaves the bits above its low `k` bits clear. */
  lemma {:induction false} WordOfSmall(x: nat, k: nat, n: nat)
    requires x < Pow2(k) && k <= n
    ensures WordOf(x, n) == Zero(n - k) + WordOf(x, k)
  {
    if k == 0 {
      WordOfZero(n);
    } else {
      WordOfSmall(x / 2, k - 1, n - 1);
    }
  }

  /** A mask whose bit at index `i`, from the top, is set when `p(i)` holds. */
  function Mask(n: nat, p: nat -> bool): (m: Word)
    ensures |m| == n && forall i :: 0 <= i < n ==> m[i] == p(i)
  {
    seq(n, i requires 0 <= i < n => p(i))
  }

  /** Index `i` lies in the low half of its group of 2, 4 or 8 bits. */
  predicate LowHalf(i: nat, k: nat) {
    LowHalfOfByte(i % 8, k)
  }

  predicate LowHalfOfByte(r: nat, k: nat) {
    if k == 1 then r == 1 || r == 3 || r == 5 || r == 7
    else if k == 2 then r == 2 || r == 3 || r == 6 || r == 7
    else r >= 4
  }

  /** 0x55555555, 0x33333333 and 0x0F0F0F0F. */
  function LowMask(n: nat, k: nat): Word {
    Mask(n, (i: nat) => LowHalf(i, k))
  }

  /** 0xaaaa, 0xcccc and 0xf0f0. */
  function HighMask(n: nat, k: nat): Word {
    Mask(n, (i: nat) => !LowHalf(i, k))
  }

  function SwapBytes32(x: Word): (r: Word)
    requires |x| == 32
    ensures |r| == 32
  {
    Or(Or(Or(Shl(x, 24), Shl(And(x, Mask(32, i => 16 <= i < 24)), 8)),
          And(Shr(x, 8), Mask(32, i => 16 <= i < 24))), Shr(x, 24))
  }

  function SwapBytes16(x: Word): (r: Word)
    requires |x| == 16
    ensures |r| == 16
  {
    Or(Shr(And(x, Mask(16, i => i < 8)), 8), Shl(And(x, Mask(16, i => i >= 8)), 8))
  }

  function SwapGroups32(x: Word, k: nat): (r: Word)
    requires |x| == 32 && 0 < k <= 32
    ensures |r| == 32
  {
    Or(Shl(And(x, LowMask(32, k)), k), And(Shr(x, k), LowMask(32, k)))
  }

  function SwapGroups16(x: Word, k: nat): (r: Word)
    requires |x| == 16 && 0 < k <= 16
    ensures |r| == 16
  {
    Or(Shr(And(x, HighMask(16, k)), k), Shl(And(x, LowMask(16, k)), k))
  }

  /** The mask-and-shift bit reversal of 32-bit words. */
  function Reverse32(x: Word): (r: Word)
    requires |x| == 32
    ensures |r| == 32
  {
    SwapBytes32(SwapGroups32(SwapGroups32(SwapGroups32(x, 1), 2), 4))
  }

  /** The mask-and-shift bit reversal of 16-bit words. */
  function Reverse16(x: Word): (r: Word)
    requires |x| == 16
    ensures |r| == 16
  {
    SwapBytes16(SwapGroups16(SwapGroups16(SwapGroups16(x, 1), 2), 4))
  }

  function SwapGroups8(x: Word, k: nat): (r: Word)
    requires |x| == 8 && 0 < k <= 8
    ensures |r| == 8
  {
    Or(Shr(And(x, HighMask(8, k)), k), Shl(And(x, LowMask(8, k)), k))
  }

  /** The mask-and-shift bit reversal of bytes. */
  function Reverse8(x: Word): (r: Word)
    requires |x| == 8
    ensures |r| == 8
  {
    SwapGroups8(SwapGroups8(SwapGroups8(x, 1), 2), 4)
  }

  /** Where a swap of neighbouring groups of `k` bits takes bit `i` from. */
  function SwapIndex(i: nat, k: nat): int {
    if LowHalf(i, k) then i - k else i + k
  }

  /** Moving `d` bits within a byte, or into a neighbouring one. */
  lemma {:induction false} Shifted(i: int, d: int)
    requires -8 < d < 8
    ensures (i + d) % 8 == if i % 8 + d < 0 then i % 8 + d + 8 else if i % 8 + d >= 8 then i % 8 + d - 8 else i % 8 + d
  {
  }

  /** Moving by `k` bits changes the half of the group, and never leaves the byte. */
  lemma {:induction false} OtherHalf(n: nat, i: nat, k: nat)
    requires n % 8 == 0 && i < n && (k == 1 || k == 2 || k == 4)
    ensures LowHalf(i, k) ==> i >= k
    ensures !LowHalf(i, k) ==> i + k < n
    ensures i >= k ==> LowHalf(i - k, k) == !LowHalf(i, k)
    ensures LowHalf(i + k, k) == !LowHalf(i, k)
  {
    Shifted(i, k);
    Shifted(i, 0 - (k as int));
  }

  lemma {:induction false} Swap32At(x: Word, k: nat, i: nat)
    requires |x| == 32 && (k == 1 || k == 2 || k == 4) && i < 32
    ensures 0 <= SwapIndex(i, k) < 32 && SwapGroups32(x, k)[i] == x[SwapIndex(i, k)]
  {
    hide LowHalf;
    var low := LowMask(32, k);
    var a, b := Shl(And(x, low), k), And(Shr(x, k), low);
    OtherHalf(32, i, k);
    assert SwapGroups32(x, k)[i] == (a[i] || b[i]);
    assert a[i] == (i + k < 32 && LowHalf(i + k, k) && x[i + k]);
    assert b[i] == (i >= k && LowHalf(i, k) && x[i - k]);
  }

  lemma {:induction false} Swap16At(x: Word, k: nat, i: nat)
    requires |x| == 16 && (k == 1 || k == 2 || k == 4) && i < 16
    ensures 0 <= SwapIndex(i, k) < 16 && SwapGroups16(x, k)[i] == x[SwapIndex(i, k)]
  {
    hide LowHalf;
    var a, b := Shr(And(x, HighMask(16, k)), k), Shl(And(x, LowMask(16, k)), k);
    OtherHalf(16, i, k);
    assert SwapGroups16(x, k)[i] == (a[i] || b[i]);
    assert a[i] == (i >= k && !LowHalf(i - k, k) && x[i - k]);
    assert b[i] == (i + k < 16 && LowHalf(i + k, k) && x[i + k]);
  }

  lemma {:induction false} Swap8At(x: Word, k: nat, i: nat)
    requires |x| == 8 && (k == 1 || k == 2 || k == 4) && i < 8
    ensures 0 <= SwapIndex(i, k) < 8 && SwapGroups8(x, k)[i] == x[SwapIndex(i, k)]
  {
    hide LowHalf;
    var a, b := Shr(And(x, HighMask(8, k)), k), Shl(And(x, LowMask(8, k)), k);
    OtherHalf(8, i, k);
    assert SwapGroups8(x, k)[i] == (a[i] || b[i]);
    assert a[i] == (i >= k && !LowHalf(i - k, k) && x[i - k]);
    assert b[i] == (i + k < 8 && LowHalf(i + k, k) && x[i + k]);
  }

  lemma {:induction false} SwapBytes32At(x: Word, i: nat)
    requires |x| == 32 && i < 32
    ensures SwapBytes32(x)[i] == x[ByteSwapIndex(32, i)]
  {
    var m := Mask(32, i => 16 <= i < 24);
    var a, b, c, d := Shl(x, 24), Shl(And(x, m), 8), And(Shr(x, 8), m), Shr(x, 24);
    assert SwapBytes32(x)[i] == (a[i] || b[i] || c[i] || d[i]);
    assert a[i] == (i < 8 && x[i + 24]);
    assert b[i] == (8 <= i < 16 && x[i + 8]);
    assert c[i] == (16 <= i < 24 && x[i - 8]);
    assert d[i] == (i >= 24 && x[i - 24]);
  }

  function ByteSwapIndex(n: nat, i: nat): (j: nat)
    requires (n == 16 || n == 32) && i < n
    ensures j < n
  {
    if n == 16 then (if i < 8 then i + 8 else i - 8)
    else if i < 8 then i + 24 else if i < 16 then i + 8 else if i < 24 then i - 8 else i - 24
  }

  /** Within each byte the three group swaps reverse the bits. */
  lemma {:induction false} IndicesReverse(j: nat, k: nat, l: nat)
    requires j < 32 && k == SwapIndex(j, 4) && l == SwapIndex(k, 2)
    ensures SwapIndex(l, 1) == j - j % 8 + 7 - j % 8
  {
    Shifted(j, k - j);
    Shifted(k, l - k);
  }

  lemma {:induction false} ByteSwapMirrors(n: nat, i: nat, j: nat)
    requires (n == 16 || n == 32) && i < n && j == ByteSwapIndex(n, i)
    ensures j - j % 8 + 7 - j % 8 == n - 1 - i
  {
  }

  /** Three group swaps and a byte swap reverse a word, whichever masks and shifts compute them. */
  lemma {:induction false} SwapsReverse(x: Word, x1: Word, x2: Word, x3: Word, r: Word)
    requires |x| == |x1| == |x2| == |x3| == |r| && (|x| == 16 || |x| == 32)
    requires forall i :: 0 <= i < |x| ==> 0 <= SwapIndex(i, 1) < |x| && x1[i] == x[SwapIndex(i, 1)]
    requires forall i :: 0 <= i < |x| ==> 0 <= SwapIndex(i, 2) < |x| && x2[i] == x1[SwapIndex(i, 2)]
    requires forall i :: 0 <= i < |x| ==> 0 <= SwapIndex(i, 4) < |x| && x3[i] == x2[SwapIndex(i, 4)]
    requires forall i :: 0 <= i < |x| ==> r[i] == x3[ByteSwapIndex(|x|, i)]
    ensures r == Reversed(x)
  {
    hide SwapIndex, ByteSwapIndex;
    forall i | 0 <= i < |x|
      ensures r[i] == x[|x| - 1 - i]
    {
      var j := ByteSwapIndex(|x|, i);
      var k := SwapIndex(j, 4);
      assert x3[j] == x2[k];
      var l := SwapIndex(k, 2);
      assert x2[k] == x1[l];
      assert x1[l] == x[SwapIndex(l, 1)];
      IndicesReverse(j, k, l);
      ByteSwapMirrors(|x|, i, j);
    }
  }

  lemma {:induction false} Reverse8IsReversal(x: Word)
    requires |x| == 8
    ensures Reverse8(x) == Reversed(x)
  {
    hide SwapGroups8, SwapIndex;
    var x1 := SwapGroups8(x, 1);
    var x2 := SwapGroups8(x1, 2);
    forall i | 0 <= i < 8
      ensures Reverse8(x)[i] == x[7 - i]
    {
      var k := SwapIndex(i, 4);
      Swap8At(x2, 4, i);
      var l := SwapIndex(k, 2);
      Swap8At(x1, 2, k);
      Swap8At(x, 1, l);
      IndicesReverse(i, k, l);
    }
  }

  lemma {:induction false} Reverse32IsReversal(x: Word)
    requires |x| == 32
    ensures Reverse32(x) == Reversed(x)
  {
    var x1 := SwapGroups32(x, 1);
    var x2 := SwapGroups32(x1, 2);
    var x3 := SwapGroups32(x2, 4);
    forall i | 0 <= i < 32 { Swap32At(x, 1, i); }
    forall i | 0 <= i < 32 { Swap32At(x1, 2, i); }
    forall i | 0 <= i < 32 { Swap32At(x2, 4, i); }
    forall i | 0 <= i < 32 { SwapBytes32At(x3, i); }
    SwapsReverse(x, x1, x2, x3, SwapBytes32(x3));
  }

  lemma {:induction false} Reverse16IsReversal(x: Word)
    requires |x| == 16
    ensures Reverse16(x) == Reversed(x)
  {
    var x1 := SwapGroups16(x, 1);
    var x2 := SwapGroups16(x1, 2);
    var x3 := SwapGroups16(x2, 4);
    forall i | 0 <= i < 16 { Swap16At(x, 1, i); }
    forall i | 0 <= i < 16 { Swap16At(x1, 2, i); }
    forall i | 0 <= i < 16 { Swap16At(x2, 4, i); }
    assert forall i :: 0 <= i < 16 ==> SwapBytes16(x3)[i] == x3[ByteSwapIndex(16, i)];
    SwapsReverse(x, x1, x2, x3, SwapBytes16(x3));
  }

  /** The reversal the library uses at each of its two widths is bit reversal. */
  function Reverse(x: Word): (r: Word)
    requires |x| == 16 || |x| == 32
    ensures r == Reversed(x)
  {
    if |x| == 16 then
      Reverse16IsReversal(x);
      Reverse16(x)
    else
      Reverse32IsReversal(x);
      Reverse32(x)
  }
}
