/** Fixed-width unsigned values and their byte encodings, shared by every format below. */
module Base {

  type byte = x: int | 0 <= x < 0x100
  type uint16 = x: int | 0 <= x < 0x1_0000
  type uint32 = x: int | 0 <= x < 0x1_0000_0000
  type uint64 = x: int | 0 <= x < 0x1_0000_0000_0000_0000

  datatype Option<+T> = None | Some(value: T)

  function Zeros(n: nat): (z: seq<byte>)
    ensures |z| == n && forall i :: 0 <= i < n ==> z[i] == 0
  {
    seq(n, _ => 0)
  }

  /** A write of `data` at offset `pos` of a file; a gap before it reads as zeros. */
  function WriteAt(file: seq<byte>, pos: nat, data: seq<byte>): (r: seq<byte>)
    ensures |data| == 0 ==> r == file
    ensures |data| > 0 ==> |r| == if pos + |data| > |file| then pos + |data| else |file|
    ensures forall i :: 0 <= i < |r| ==>
      r[i] == if pos <= i < pos + |data| then data[i - pos] else if i < |file| then file[i] else 0
  {
    if |data| == 0 then file
    else if pos > |file| then file + Zeros(pos - |file|) + data
    else if pos + |data| >= |file| then file[..pos] + data
    else file[..pos] + data + file[pos + |data|..]
  }

  /** The `n`-byte little-endian encoding of `x`, keeping its low `8 * n` bits. */
  function LeBytes(x: nat, n: nat): (b: seq<byte>)
    ensures |b| == n
  {
    if n == 0 then [] else [x % 0x100] + LeBytes(x / 0x100, n - 1)
  }

  function LeValue(b: seq<byte>): nat
  {
    if b == [] then 0 else b[0] + 0x100 * LeValue(b[1..])
  }

  function Pow256(n: nat): (p: nat)
    ensures p > 0
  {
    if n == 0 then 1 else 0x100 * Pow256(n - 1)
  }

  /** Encoding then decoding keeps exactly the bytes that fit. */
  lemma {:induction false} LeValueOfLeBytes(x: nat, n: nat)
    ensures LeValue(LeBytes(x, n)) == x % Pow256(n)
  {
    if n != 0 {
      var b := LeBytes(x, n);
      assert b[1..] == LeBytes(x / 0x100, n - 1);
      LeValueOfLeBytes(x / 0x100, n - 1);
      ModSplit(x, Pow256(n - 1));
    }
  }

  lemma {:induction false} ModSplit(x: nat, m: nat)
    requires m > 0
    ensures x % (0x100 * m) == x % 0x100 + 0x100 * ((x / 0x100) % m)
  {
    var q, r := x / 0x100, x % 0x100;
    var k, s := q / m, q % m;
    assert x == 0x100 * (k * m + s) + r;
    assert x == k * (0x100 * m) + (0x100 * s + r);
    assert 0 <= 0x100 * s + r < 0x100 * m by {
      assert s <= m - 1;
    }
    RemainderUnique(x, 0x100 * m, k, 0x100 * s + r);
  }

  lemma {:induction false} MulMonotone(a: int, b: int, d: nat)
    requires a <= b
    ensures a * d <= b * d
  {
  }

  lemma {:induction false} Distribute(n: int, q: int, size: int)
    ensures (n + q) * size == n * size + q * size
  {
  }

  lemma {:induction false} RemainderUnique(x: int, d: nat, q: int, r: int)
    requires d > 0 && x == q * d + r && 0 <= r < d
    ensures x % d == r && x / d == q
  {
    var k := q - x / d;
    assert k * d == x % d - r by {
      assert x == (x / d) * d + x % d;
    }
    if k >= 1 {
      MulMonotone(1, k, d);
    } else if k <= -1 {
      MulMonotone(k, -1, d);
    }
  }

  lemma {:induction false} LeBytesOfLeValue(b: seq<byte>)
    ensures LeBytes(LeValue(b), |b|) == b
    ensures LeValue(b) < Pow256(|b|)
  {
    if b != [] {
      LeBytesOfLeValue(b[1..]);
    }
  }

  function Reversed<T>(s: seq<T>): (r: seq<T>)
    ensures |r| == |s|
    ensures forall i :: 0 <= i < |s| ==> r[i] == s[|s| - 1 - i]
  {
    if s == [] then [] else Reversed(s[1..]) + [s[0]]
  }

  lemma {:induction false} ReversedTwice<T>(s: seq<T>)
    ensures Reversed(Reversed(s)) == s
  {
  }

  /** The `n`-byte big-endian encoding of `x`. */
  function BeBytes(x: nat, n: nat): (b: seq<byte>)
    ensures |b| == n
  {
    Reversed(LeBytes(x, n))
  }

  function BeValue(b: seq<byte>): nat
  {
    LeValue(Reversed(b))
  }

  lemma {:induction false} BeValueOfBeBytes(x: nat, n: nat)
    ensures BeValue(BeBytes(x, n)) == x % Pow256(n)
  {
    ReversedTwice(LeBytes(x, n));
    LeValueOfLeBytes(x, n);
  }

  /** The value shifted right by `n` bytes. */
  function DropBytes(x: nat, n: nat): (r: nat)
    ensures r == x / Pow256(n)
  {
    QuotientNat(x, Pow256(n));
    x / Pow256(n)
  }

  lemma {:induction false} QuotientNat(x: nat, d: nat)
    requires d > 0
    ensures x / d >= 0
  {
    var q := x / d;
    assert x == q * d + x % d;
    if q <= -1 {
      MulMonotone(q, -1, d);
    }
  }

  lemma {:induction false} LeBytesSplit(x: nat, a: nat, b: nat)
    ensures LeBytes(x, a + b) == LeBytes(x, a) + LeBytes(DropBytes(x, a), b)
  {
    if a > 0 {
      LeBytesSplit(x / 0x100, a - 1, b);
      DivTwice(x, Pow256(a - 1));
      assert LeBytes(x, a + b)[1..] == LeBytes(x / 0x100, a - 1 + b);
    }
  }

  lemma {:induction false} DivTwice(x: nat, m: nat)
    requires m > 0
    ensures (x / 0x100) / m == x / (0x100 * m)
  {
    var q, r := x / 0x100, x % 0x100;
    var k, s := q / m, q % m;
    assert x == k * (0x100 * m) + (0x100 * s + r) by {
      assert x == 0x100 * (k * m + s) + r;
    }
    RemainderUnique(x, 0x100 * m, k, 0x100 * s + r);
  }

  lemma {:induction false} LeBytesLow(x: nat, hi: nat, n: nat)
    ensures LeBytes(hi * Pow256(n) + x, n) == LeBytes(x, n)
  {
    if n > 0 {
      var p := hi * Pow256(n - 1);
      assert hi * Pow256(n) + x == 0x100 * p + x by {
        assert hi * (0x100 * Pow256(n - 1)) == 0x100 * p;
      }
      assert (0x100 * p + x) / 0x100 == p + x / 0x100;
      LeBytesLow(x / 0x100, hi, n - 1);
    }
  }

  /** Two words side by side are the two halves of a double word, most significant first. */
  lemma {:induction false} BeBytesOfPair(hi: nat, lo: nat, n: nat)
    requires lo < Pow256(n)
    ensures BeBytes(hi * Pow256(n) + lo, n + n) == BeBytes(hi, n) + BeBytes(lo, n)
  {
    hide LeBytes, Pow256;
    var x := hi * Pow256(n) + lo;
    LeBytesSplit(x, n, n);
    LeBytesLow(lo, hi, n);
    RemainderUnique(x, Pow256(n), hi, lo);
  }

  lemma {:induction false} LeBytesAt(x: nat, n: nat, j: nat)
    requires j < n
    ensures LeBytes(x, n)[j] == DropBytes(x, j) % 0x100
  {
    if j > 0 {
      LeBytesAt(x / 0x100, n - 1, j - 1);
      DivTwice(x, Pow256(j - 1));
      assert LeBytes(x, n)[j] == LeBytes(x / 0x100, n - 1)[j - 1];
    }
  }

  /** Byte `j` of a big-endian word is the word shifted right by the bytes below it. */
  lemma {:induction false} BeBytesAt(x: nat, n: nat, j: nat)
    requires j < n
    ensures BeBytes(x, n)[j] == DropBytes(x, n - 1 - j) % 0x100
  {
    LeBytesAt(x, n, n - 1 - j);
  }

  /** Two, four and eight bytes, least significant first. */
  lemma {:induction false} LeBytesMean(x: nat)
    ensures LeBytes(x, 2) == [x % 0x100, x / 0x100 % 0x100]
    ensures LeBytes(x, 4) == [x % 0x100, x / 0x100 % 0x100, x / 0x1_0000 % 0x100, x / 0x100_0000 % 0x100]
    ensures LeBytes(x, 8)
         == LeBytes(x, 4) + [x / 0x1_0000_0000 % 0x100, x / 0x100_0000_0000 % 0x100,
                             x / 0x1_0000_0000_0000 % 0x100, x / 0x100_0000_0000_0000 % 0x100]
  {
    hide LeBytes;
    LeBytesStep(x, 0);
    FourLeBytes(x);
    LeBytesStep(x, 1);
    LeBytesStep(x / 0x100, 0);
    LeBytesSplit(x, 4, 4);
    Pow256Values();
    FourLeBytes(x / 0x1_0000_0000);
    FourQuotients(x);
  }

  lemma {:induction false} LeBytesStep(x: nat, n: nat)
    ensures LeBytes(x, 0) == [] && LeBytes(x, n + 1) == [x % 0x100] + LeBytes(x / 0x100, n)
  {
  }

  lemma {:induction false} FourLeBytes(x: nat)
    ensures LeBytes(x, 4) == [x % 0x100, x / 0x100 % 0x100, x / 0x1_0000 % 0x100, x / 0x100_0000 % 0x100]
  {
    hide LeBytes;
    LeBytesStep(x, 3);
    LeBytesStep(x / 0x100, 2);
    LeBytesStep(x / 0x1_0000, 1);
    LeBytesStep(x / 0x100_0000, 0);
    assert x / 0x100 / 0x100 == x / 0x1_0000 && x / 0x1_0000 / 0x100 == x / 0x100_0000;
  }

  lemma {:induction false} FourQuotients(x: nat)
    ensures x / 0x1_0000_0000 / 0x100 == x / 0x100_0000_0000
    ensures x / 0x1_0000_0000 / 0x1_0000 == x / 0x1_0000_0000_0000
    ensures x / 0x1_0000_0000 / 0x100_0000 == x / 0x100_0000_0000_0000
  {
  }

  lemma {:induction false} Pow256Values()
    ensures Pow256(2) == 0x1_0000 && Pow256(4) == 0x1_0000_0000 && Pow256(8) == 0x1_0000_0000_0000_0000
  {
    assert Pow256(2) == 0x1_0000;
    assert Pow256(4) == 0x100 * (0x100 * Pow256(2));
    assert Pow256(6) == 0x100 * (0x100 * Pow256(4));
    assert Pow256(8) == 0x100 * (0x100 * Pow256(6));
  }

  /** A number kept in a signed 32-bit integer. */
  function Int32(x: int): (r: int)
    ensures -0x8000_0000 <= r < 0x8000_0000 && (r - x) % 0x1_0000_0000 == 0
  {
    var low := x % 0x1_0000_0000;
    if low < 0x8000_0000 then low else low - 0x1_0000_0000
  }

  lemma {:induction false} Int32Add(x: int, y: int)
    ensures Int32(Int32(x) + y) == Int32(x + y)
  {
  }

  lemma {:induction false} Regroup<T>(a: seq<T>, b: seq<T>, c: seq<T>)
    ensures a + (b + c) == (a + b) + c
  {
  }

  lemma {:induction false} ZerosAdd(m: nat, n: nat)
    ensures Zeros(m + n) == Zeros(m) + Zeros(n)
  {
  }

  /** The pieces of a stream, one after the other. */
  function Flatten(pieces: seq<seq<byte>>): seq<byte> {
    if pieces == [] then [] else pieces[0] + Flatten(pieces[1..])
  }

  lemma {:induction false} FlattenAppend(pieces: seq<seq<byte>>, p: seq<byte>)
    ensures Flatten(pieces + [p]) == Flatten(pieces) + p
    decreases |pieces|
  {
    if pieces == [] {
      assert [p][1..] == [];
    } else {
      assert (pieces + [p])[1..] == pieces[1..] + [p];
      FlattenAppend(pieces[1..], p);
    }
  }

  lemma {:induction false} FlattenNothing()
    ensures Flatten([]) == []
  {
  }

  /** The little-endian field of `n` bytes at an offset. */
  function Field(file: seq<byte>, off: nat, n: nat): nat
    requires off + n <= |file|
  {
    LeValue(file[off..off + n])
  }

  lemma {:induction false} FieldBound(file: seq<byte>, off: nat, n: nat)
    requires off + n <= |file| && (n == 2 || n == 4)
    ensures Field(file, off, n) < if n == 2 then 0x1_0000 else 0x1_0000_0000
  {
    LeBytesOfLeValue(file[off..off + n]);
    Pow256Values();
  }

  /** A field that was written as `LeBytes(x, n)` reads as `x`. */
  lemma {:induction false} FieldOfBytes(file: seq<byte>, off: nat, x: nat, n: nat)
    requires (n == 2 && x < 0x1_0000) || (n == 4 && x < 0x1_0000_0000)
    requires off + n <= |file| && file[off..off + n] == LeBytes(x, n)
    ensures Field(file, off, n) == x
  {
    LeValueOfLeBytes(x, n);
    Pow256Values();
    RemainderUnique(x, Pow256(n), 0, x);
  }

  lemma {:induction false} SubSlice(file: seq<byte>, off: nat, n: nat, i: nat, j: nat)
    requires off + n <= |file| && i <= j <= n
    ensures file[off..off + n][i..j] == file[off + i..off + j]
  {
    var a, b := file[off..off + n][i..j], file[off + i..off + j];
    assert |a| == |b| && forall k :: 0 <= k < |a| ==> a[k] == b[k];
  }

  /** The big-endian word of four bytes at an offset. */
  function Be32(b: seq<byte>, off: nat): uint32
    requires off + 4 <= |b|
  {
    b[off] as int * 0x100_0000 + b[off + 1] as int * 0x1_0000 + b[off + 2] as int * 0x100 + b[off + 3] as int
  }

  lemma {:induction false} LeValueOfFour(b: seq<byte>)
    requires |b| == 4
    ensures LeValue(b) == b[0] as int + 0x100 * b[1] as int + 0x1_0000 * b[2] as int + 0x100_0000 * b[3] as int
  {
    assert LeValue(b[3..]) == b[3] by {
      assert b[3..][1..] == [];
    }
    assert b[2..][1..] == b[3..] && b[1..][1..] == b[2..];
    assert LeValue(b[2..]) == b[2] + 0x100 * LeValue(b[3..]);
    assert LeValue(b[1..]) == b[1] + 0x100 * LeValue(b[2..]);
  }

  /** A little-endian field of two, four or eight bytes. */
  lemma {:induction false} FieldMeans(b: seq<byte>, off: nat, n: nat)
    requires off + n <= |b| && (n == 2 || n == 4 || n == 8)
    ensures n == 2 ==> Field(b, off, n) == b[off] as int + 0x100 * b[off + 1] as int
    ensures n == 4 ==> Field(b, off, n) == b[off] as int + 0x100 * b[off + 1] as int + 0x1_0000 * b[off + 2] as int
                                           + 0x100_0000 * b[off + 3] as int
    ensures n == 8 ==> Field(b, off, n) == Field(b, off, 4) + 0x1_0000_0000 * Field(b, off + 4, 4)
  {
    hide LeValue;
    var d := b[off..off + n];
    if n == 2 {
      TwoBytes(d);
    } else if n == 4 {
      LeValueOfFour(d);
    } else {
      EightBytes(d);
      SubSlice(b, off, 8, 0, 4);
      SubSlice(b, off, 8, 4, 8);
    }
  }

  lemma {:induction false} TwoBytes(d: seq<byte>)
    requires |d| == 2
    ensures LeValue(d) == d[0] as int + 0x100 * d[1] as int
  {
    assert LeValue(d[1..]) == d[1] by {
      assert d[1..][1..] == [];
    }
  }

  lemma {:induction false} EightBytes(d: seq<byte>)
    requires |d| == 8
    ensures LeValue(d) == LeValue(d[0..4]) + 0x1_0000_0000 * LeValue(d[4..8])
  {
    var a, b := LeValue(d[0..4]), LeValue(d[4..8]);
    LeBytesOfLeValue(d[0..4]);
    LeBytesOfLeValue(d[4..8]);
    Pow256Values();
    LeBytesLow(a, b, 4);
    var x := b * 0x1_0000_0000 + a;
    LeBytesSplit(x, 4, 4);
    RemainderUnique(x, 0x1_0000_0000, b, a);
    assert LeBytes(x, 8) == d[0..4] + d[4..8] == d;
    LeValueOfLeBytes(x, 8);
    LeBytesOfLeValue(d);
    RemainderUnique(x, 0x1_0000_0000_0000_0000, 0, x);
  }

  lemma {:induction false} SmallRemainder(x: uint32)
    ensures x % 0x1_0000_0000 == x
  {
  }

  /** A 32-bit value that was stored in big-endian order is read back. */
  lemma {:induction false} Be32OfBytes(b: seq<byte>, off: nat, x: uint32)
    requires off + 4 <= |b| && b[off..off + 4] == BeBytes(x, 4)
    ensures Be32(b, off) == x
  {
    hide BeBytes, LeValue, Reversed, Pow256;
    var d := b[off..off + 4];
    BeValueOfBeBytes(x, 4);
    LeValueOfFour(Reversed(d));
    Pow256Values();
    SmallRemainder(x);
    assert b[off] == d[0] && b[off + 1] == d[1] && b[off + 2] == d[2] && b[off + 3] == d[3];
  }

  // Powers.

  function Pow(b: nat, k: nat): nat {
    if k == 0 then 1 else b * Pow(b, k - 1)
  }

  lemma {:induction false} PowStep(b: nat, k: nat)
    ensures Pow(b, k + 1) == Pow(b, k) * b
  {
  }

  lemma {:induction false} FirstPower(b: nat)
    ensures Pow(b, 1) == b && Pow(b, 0) == 1
  {
    assert Pow(b, 1) == b * Pow(b, 0);
  }

  lemma {:induction false} PowPositive(b: nat, k: nat)
    requires b >= 1
    ensures Pow(b, k) >= 1
    decreases k
  {
    if k > 0 {
      PowPositive(b, k - 1);
      MulMonotone(1, b, Pow(b, k - 1));
    }
  }

  lemma {:induction false} PowGrows(b: nat, i: nat, j: nat)
    requires b >= 2 && i <= j
    ensures 1 <= Pow(b, i) <= Pow(b, j)
    ensures i < j ==> Pow(b, i) < Pow(b, j)
    decreases j
  {
    if i < j {
      PowGrows(b, i, j - 1);
      MulMonotone(2, b, Pow(b, j - 1));
    } else if j > 0 {
      PowGrows(b, i - 1, j - 1);
      MulMonotone(2, b, Pow(b, j - 1));
    }
  }

  lemma {:induction false} PowAdd(b: nat, i: nat, j: nat)
    ensures Pow(b, i + j) == Pow(b, i) * Pow(b, j)
    decreases i
  {
    if i > 0 {
      PowAdd(b, i - 1, j);
      assert b * (Pow(b, i - 1) * Pow(b, j)) == (b * Pow(b, i - 1)) * Pow(b, j);
    }
  }
}
