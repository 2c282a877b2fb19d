/** Checksums written out: generators by their exponents, messages by the bits of their bytes. */
module CrcPolynomial {
  import opened Base
  import opened CrcWord
  import opened CrcDivision

  const POWERS := [1, 2, 4, 8, 16, 32, 64, 128]

  /** The word whose bits of weight 2^k are set for the given `k`. */
  function BitsAt(n: nat, exponents: set<nat>): (w: Word)
    ensures |w| == n
  {
    seq(n, i requires 0 <= i < n => n - 1 - i in exponents)
  }

  function Ones(n: nat): (w: Word)
    ensures |w| == n
  {
    seq(n, _ => true)
  }

  /** Bit `p` of a message: the bytes in order, each from its least significant bit when reflected. */
  predicate Sent(reflected: bool, data: seq<byte>, p: nat) {
    p < 8 * |data| && (data[p / 8] / POWERS[if reflected then p % 8 else 7 - p % 8]) % 2 == 1
  }

  /** What the register holds at first, added to the first bits of the message. */
  predicate Preset(reflected: bool, seed: Word, p: nat) {
    p < |seed| && seed[if reflected then |seed| - 1 - p else p]
  }

  /** The message with the initial value added, followed by as many zeros as the register is wide. */
  function Dividend(reflected: bool, seed: Word, data: seq<byte>): (s: Word)
    ensures |s| == 8 * |data| + |seed|
  {
    seq(8 * |data| + |seed|, p requires 0 <= p => Sent(reflected, data, p) != Preset(reflected, seed, p))
  }

  /** The checksum: the remainder by x^n and the generator's lower terms, reflected where asked for, with a mask. */
  ghost predicate IsChecksum(r: Word, poly: Word, mask: Word, reflected: bool, seed: Word, data: seq<byte>)
    requires |poly| == |mask| == |seed|
  {
    && |r| == |poly|
    && forall i :: 0 <= i < |r| ==>
         r[i] == (mask[i] != Remainder(poly, Dividend(reflected, seed, data))[if reflected then |r| - 1 - i else i])
  }

  // The remainder is what is left of a polynomial when a multiple of the generator is taken away.

  /** The product of `q` and x^n + poly. */
  function Multiple(poly: Word, q: Word): (m: Word)
    ensures |m| == |q| + |poly|
  {
    if q == [] then Zero(|poly|)
    else
      var m := [q[0]] + Multiple(poly, q[1..]);
      if q[0] then m[..1] + XorPrefix(m[1..], poly) else m
  }

  /** One step of the long division. */
  function Next(poly: Word, s: Word): (r: Word)
    requires |poly| < |s|
    ensures |r| == |s| - 1
    ensures forall i :: 0 <= i < |r| ==> r[i] == (s[i + 1] != (s[0] && i < |poly| && poly[i]))
  {
    if s[0] then XorPrefix(s[1..], poly) else s[1..]
  }

  function Quotient(poly: Word, s: Word): (q: Word)
    requires |poly| <= |s|
    ensures |q| == |s| - |poly|
    decreases |s|
  {
    if |s| == |poly| then []
    else [s[0]] + Quotient(poly, Next(poly, s))
  }

  lemma {:induction false} MultipleAt(poly: Word, q: Word, i: nat)
    requires q != [] && i < |q| + |poly|
    ensures Multiple(poly, q)[i]
         == if i == 0 then q[0] else Multiple(poly, q[1..])[i - 1] != (q[0] && i - 1 < |poly| && poly[i - 1])
  {
  }

  /** A remainder behind `k` zeros. */
  function Padded(k: nat, r: Word): (w: Word)
    ensures |w| == k + |r| && forall i :: 0 <= i < |w| ==> w[i] == (i >= k && r[i - k])
  {
    Zero(k) + r
  }

  /** Every polynomial is a multiple of the generator and a remainder of a lower degree. */
  lemma {:induction false} DivisionSplits(poly: Word, s: Word)
    requires |poly| <= |s|
    ensures s == Xor(Multiple(poly, Quotient(poly, s)), Padded(|s| - |poly|, Remainder(poly, s)))
    decreases |s|
  {
    hide Multiple, Padded, Next;
    var k := |s| - |poly|;
    if k == 0 {
      MultipleOfNothing(poly);
    } else {
      var next := Next(poly, s);
      DivisionSplits(poly, next);
      RemainderOfNext(poly, s);
      var q, r := Quotient(poly, next), Remainder(poly, next);
      assert ([s[0]] + q)[1..] == q;
      var whole := Xor(Multiple(poly, [s[0]] + q), Padded(k, r));
      forall i | 0 <= i < |s|
        ensures whole[i] == s[i]
      {
        MultipleAt(poly, [s[0]] + q, i);
        if i > 0 {
          assert next[i - 1] == (Multiple(poly, q)[i - 1] != Padded(k - 1, r)[i - 1]);
        }
      }
    }
  }

  lemma {:induction false} MultipleOfNothing(poly: Word)
    ensures Multiple(poly, []) == Zero(|poly|)
  {
  }

  /** Only the remainder can be left. */
  lemma {:induction false} RemainderIsUnique(poly: Word, s: Word, q: Word, r: Word)
    requires |poly| > 0 && |r| == |poly| && |s| == |q| + |poly|
    requires s == Xor(Multiple(poly, q), Padded(|q|, r))
    ensures r == Remainder(poly, s)
    decreases |q|
  {
    hide Multiple, Padded, Next;
    if q == [] {
      MultipleOfNothing(poly);
      assert s == r;
    } else {
      MultipleAt(poly, q, 0);
      assert s[0] == q[0];
      var next := Next(poly, s);
      var left := Xor(Multiple(poly, q[1..]), Padded(|q| - 1, r));
      forall i | 0 <= i < |next|
        ensures next[i] == left[i]
      {
        MultipleAt(poly, q, i + 1);
        assert s[i + 1] == (Multiple(poly, q)[i + 1] != Padded(|q|, r)[i + 1]);
      }
      assert next == left;
      RemainderIsUnique(poly, next, q[1..], r);
      RemainderOfNext(poly, s);
    }
  }

  lemma {:induction false} RemainderOfNext(poly: Word, s: Word)
    requires |poly| < |s|
    ensures Remainder(poly, s) == Remainder(poly, Next(poly, s))
  {
  }
}
