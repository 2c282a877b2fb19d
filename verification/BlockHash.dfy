/** Folding a compression function over the blocks of a message, shared by the hashes. */
module BlockHash {
  import opened Base

  /** A compression function on chaining values of type `S`. */
  type Compress<!S> = (S, seq<byte>) -> S

  /** The chaining value after all complete blocks of `size` bytes; an incomplete last block is left out. */
  function Fold<S>(compress: Compress<S>, size: nat, h: S, data: seq<byte>): S
    requires size > 0
    decreases |data|
  {
    if |data| < size then h else Fold(compress, size, compress(h, data[..size]), data[size..])
  }

  /** The bytes of the last, incomplete block. */
  function Tail(size: nat, data: seq<byte>): (r: seq<byte>)
    requires size > 0
    ensures |r| == |data| % size
  {
    data[|data| - |data| % size..]
  }

  lemma {:induction false} FoldConcat<S>(compress: Compress<S>, size: nat, h: S, a: seq<byte>, b: seq<byte>)
    requires size > 0 && |a| % size == 0
    ensures Fold(compress, size, h, a + b) == Fold(compress, size, Fold(compress, size, h, a), b)
    decreases |a|
  {
    if a == [] {
      assert a + b == b;
    } else {
      WholeBlocks(|a|, size);
      assert (a + b)[..size] == a[..size] && (a + b)[size..] == a[size..] + b;
      FoldConcat(compress, size, compress(h, a[..size]), a[size..], b);
    }
  }

  lemma {:induction false} WholeBlocks(n: nat, size: nat)
    requires size > 0 && n > 0 && n % size == 0
    ensures n >= size && (n - size) % size == 0
  {
    assert n == n / size * size;
    if n / size == 0 {
      assert false;
    }
    MulMonotone(1, n / size, size);
    assert n - size == (n / size - 1) * size + 0;
    RemainderUnique(n - size, size, n / size - 1, 0);
  }

  /** What is left over after the complete blocks does not affect the chaining value. */
  lemma {:induction false} FoldSplit<S>(compress: Compress<S>, size: nat, h: S, m: seq<byte>)
    requires size > 0
    ensures Fold(compress, size, h, m) == Fold(compress, size, h, m[..|m| - |m| % size])
    ensures m == m[..|m| - |m| % size] + Tail(size, m)
    ensures (|m| - |m| % size) % size == 0
  {
    var k := |m| - |m| % size;
    assert k == |m| / size * size + 0;
    RemainderUnique(k, size, |m| / size, 0);
    assert m == m[..k] + m[k..];
    FoldConcat(compress, size, h, m[..k], m[k..]);
  }

  /** Feeding more data: the old tail and the new data are folded together. */
  lemma {:induction false} FoldMore<S>(compress: Compress<S>, size: nat, h: S, m: seq<byte>, data: seq<byte>)
    requires size > 0
    ensures Fold(compress, size, h, m + data)
         == Fold(compress, size, Fold(compress, size, h, m), Tail(size, m) + data)
    ensures Tail(size, m + data) == Tail(size, Tail(size, m) + data)
  {
    var k := |m| - |m| % size;
    FoldSplit(compress, size, h, m);
    assert m + data == m[..k] + (Tail(size, m) + data);
    FoldConcat(compress, size, h, m[..k], Tail(size, m) + data);
    TailDropsBlocks(size, m[..k], Tail(size, m) + data);
  }

  lemma {:induction false} TailDropsBlocks(size: nat, a: seq<byte>, b: seq<byte>)
    requires size > 0 && |a| % size == 0
    ensures Tail(size, a + b) == Tail(size, b)
  {
    hide Tail;
    TailLength(|a|, |b|, size);
    var k := |Tail(size, b)|;
    TailOf(size, b, k);
    TailOf(size, a + b, k);
    SkipPrefix(a, b, |b| - k);
  }

  lemma {:induction false} TailOf(size: nat, data: seq<byte>, k: nat)
    requires size > 0 && k == |data| % size
    ensures k <= |data| && Tail(size, data) == data[|data| - k..]
  {
    var q := |data| / size;
    QuotientNat(|data|, size);
    MulMonotone(0, q, size);
    assert |data| == q * size + k;
  }

  lemma {:induction false} SkipPrefix(a: seq<byte>, b: seq<byte>, i: nat)
    requires i <= |b|
    ensures (a + b)[|a| + i..] == b[i..]
  {
  }

  lemma {:induction false} TailLength(a: nat, b: nat, size: nat)
    requires size > 0 && a % size == 0
    ensures (a + b) % size == b % size
  {
    var n, q, r := a / size, b / size, b % size;
    assert a == n * size && b == q * size + r;
    Distribute(n, q, size);
    RemainderUnique(a + b, size, n + q, r);
  }

  lemma {:induction false} ShortTail(size: nat, data: seq<byte>)
    requires size > 0 && |data| < size
    ensures Tail(size, data) == data
  {
    RemainderUnique(|data|, size, 0, |data|);
  }

  lemma {:induction false} OneBlock<S>(compress: Compress<S>, size: nat, h: S, data: seq<byte>)
    requires |data| == size > 0
    ensures Fold(compress, size, h, data) == compress(h, data)
    ensures Tail(size, data) == []
  {
    RemainderUnique(size, size, 1, 0);
    assert data[..size] == data && data[size..] == [];
  }

  /** The bytes of a padded message have whole blocks: a marker byte, zeros, and the length in `lenBytes` bytes. */
  function PadZeros(size: nat, n: nat, lenBytes: nat): (k: nat)
    requires size > 0
    ensures k < size
  {
    (size - (n + 1 + lenBytes) % size) % size
  }

  lemma {:induction false} PadZerosFit(size: nat, n: nat, lenBytes: nat)
    requires size > 0
    ensures (n + 1 + PadZeros(size, n, lenBytes) + lenBytes) % size == 0
  {
    var t := n + 1 + lenBytes;
    var q, r := t / size, t % size;
    var k := PadZeros(size, n, lenBytes);
    assert t == q * size + r;
    if r == 0 {
      RemainderUnique(size, size, 1, 0);
      assert t + k == q * size + 0;
      RemainderUnique(t + k, size, q, 0);
    } else {
      RemainderUnique(size - r, size, 0, size - r);
      assert (q + 1) * size == q * size + size;
      assert t + k == (q + 1) * size + 0;
      RemainderUnique(t + k, size, q + 1, 0);
    }
  }

  /**
   * A message, a marker of one set bit, the fewest zeros that complete a block, and the bit length in `lenBytes`
   * bytes, the most significant one first or last.
   */
  ghost predicate IsPadded(p: seq<byte>, m: seq<byte>, size: nat, lenBytes: nat, bigEndian: bool)
    requires size > 0
  {
    var end := |p| - lenBytes;
    && |m| + 1 <= end < |m| + 1 + size && |p| % size == 0
    && p[..|m|] == m && p[|m|] == 0x80
    && (forall i :: |m| < i < end ==> p[i] == 0)
    && forall j :: 0 <= j < lenBytes ==>
         p[if bigEndian then |p| - 1 - j else end + j] == DropBytes(8 * |m|, j) % 0x100
  }

  /** The words with which MD5 and SHA-1 start. */
  lemma {:induction false} CountingUp()
    ensures LeBytes(0x67452301, 4) == [0x01, 0x23, 0x45, 0x67]
    ensures LeBytes(0xefcdab89, 4) == [0x89, 0xab, 0xcd, 0xef]
  {
    hide LeBytes;
    FourLeBytes(0x67452301);
    FourLeBytes(0xefcdab89);
  }

  lemma {:induction false} CountingDown()
    ensures LeBytes(0x98badcfe, 4) == [0xfe, 0xdc, 0xba, 0x98]
    ensures LeBytes(0x10325476, 4) == [0x76, 0x54, 0x32, 0x10]
  {
    hide LeBytes;
    FourLeBytes(0x98badcfe);
    FourLeBytes(0x10325476);
  }

  lemma {:induction false} PadZerosRemainder(size: nat, len: nat, n: nat, q: nat, index: nat)
    requires 0 < len < size && index < size && n == q * size + index
    ensures PadZeros(size, n, len) == if index < size - len then size - len - 1 - index else 2 * size - len - 1 - index
  {
    var t := n + 1 + len;
    if index < size - len - 1 {
      RemainderUnique(t, size, q, index + 1 + len);
      RemainderUnique(size - (index + 1 + len), size, 0, size - (index + 1 + len));
    } else {
      assert (q + 1) * size == q * size + size;
      RemainderUnique(t, size, q + 1, index + 1 + len - size);
      if index == size - len - 1 {
        RemainderUnique(size, size, 1, 0);
      } else {
        RemainderUnique(2 * size - (index + 1 + len), size, 0, 2 * size - (index + 1 + len));
      }
    }
  }
}
