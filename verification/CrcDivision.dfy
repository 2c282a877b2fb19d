/** The mathematics of cyclic redundancy codes over bit sequences: long division, shift register, bursts. */
module CrcDivision {
  import opened Base
  import opened CrcWord

  /** Adds `w` to the leading |w| coefficients of `s`. */
  function XorPrefix(s: Word, w: Word): (r: Word)
    requires |w| <= |s|
    ensures |r| == |s|
    ensures forall i :: 0 <= i < |s| ==> r[i] == if i < |w| then s[i] != w[i] else s[i]
  {
    Xor(s[..|w|], w) + s[|w|..]
  }

  /** Remainder of the polynomial `s` by x^n + poly, with n = |poly|: schoolbook long division, one bit a step. */
  function Remainder(poly: Word, s: Word): (r: Word)
    requires |poly| <= |s|
    ensures |r| == |poly|
    decreases |s|
  {
    if |s| == |poly| then s
    else if s[0] then Remainder(poly, XorPrefix(s[1..], poly))
    else Remainder(poly, s[1..])
  }

  /** One clock of the shift register. */
  function Step(poly: Word, r: Word): (r': Word)
    requires |r| == |poly| > 0
    ensures |r'| == |r|
  {
    if r[0] then Xor(Shl(r, 1), poly) else Shl(r, 1)
  }

  function Steps(poly: Word, r: Word, k: nat): (r': Word)
    requires |r| == |poly| > 0
    ensures |r'| == |r|
    decreases k
  {
    if k == 0 then r else Steps(poly, Step(poly, r), k - 1)
  }

  lemma {:induction false} StepsNone(poly: Word, r: Word)
    requires |r| == |poly| > 0
    ensures Steps(poly, r, 0) == r
  {
  }

  lemma {:induction false} StepsOne(poly: Word, r: Word, k: nat)
    requires |r| == |poly| > 0 && k > 0
    ensures Steps(poly, r, k) == Steps(poly, Step(poly, r), k - 1)
  {
  }

  /** The register after the message bits have been added to its top bit, one a clock. */
  function Register(poly: Word, r: Word, bits: Word): (r': Word)
    requires |r| == |poly| > 0
    ensures |r'| == |r|
    decreases |bits|
  {
    if bits == [] then r
    else Register(poly, Step(poly, XorPrefix(r, bits[..1])), bits[1..])
  }

  /** The bit-serial register computes the remainder of message * x^n, with the initial value added in front. */
  lemma {:induction false} RegisterIsRemainder(poly: Word, r: Word, bits: Word)
    requires |r| == |poly| > 0
    ensures Register(poly, r, bits) == Remainder(poly, XorPrefix(bits + Zero(|poly|), r))
    decreases |bits|
  {
    var n := |poly|;
    var s := XorPrefix(bits + Zero(n), r);
    if bits == [] {
      assert s == r;
    } else {
      var t := XorPrefix(r, bits[..1]);
      assert s[0] == t[0];
      var next := XorPrefix(bits[1..] + Zero(n), Step(poly, t));
      if s[0] {
        assert XorPrefix(s[1..], poly) == next;
      } else {
        assert s[1..] == next;
      }
      RegisterIsRemainder(poly, Step(poly, t), bits[1..]);
    }
  }

  lemma {:induction false} RegisterConcat(poly: Word, r: Word, a: Word, b: Word)
    requires |r| == |poly| > 0
    ensures Register(poly, r, a + b) == Register(poly, Register(poly, r, a), b)
    decreases |a|
  {
    if a == [] {
      assert a + b == b;
    } else {
      assert (a + b)[1..] == a[1..] + b && (a + b)[..1] == a[..1];
      RegisterConcat(poly, Step(poly, XorPrefix(r, a[..1])), a[1..], b);
    }
  }

  lemma {:induction false} StepPrefix(poly: Word, r: Word, bits: Word)
    requires |r| == |poly| > 0 && 0 < |bits| <= |poly|
    ensures XorPrefix(Step(poly, XorPrefix(r, bits[..1])), bits[1..]) == Step(poly, XorPrefix(r, bits))
  {
    var x, y := XorPrefix(r, bits[..1]), XorPrefix(r, bits);
    var a, b := XorPrefix(Step(poly, x), bits[1..]), Step(poly, y);
    assert x[0] == y[0];
    forall i | 0 <= i < |r|
      ensures a[i] == b[i]
    {
      assert i + 1 < |r| ==> y[i + 1] == (if i + 1 < |bits| then x[i + 1] != bits[i + 1] else x[i + 1]);
    }
  }

  /** Feeding up to n bits one a clock is adding them all at once and then clocking. */
  lemma {:induction false} RegisterBatch(poly: Word, r: Word, bits: Word)
    requires |r| == |poly| > 0 && |bits| <= |poly|
    ensures Register(poly, r, bits) == Steps(poly, XorPrefix(r, bits), |bits|)
    decreases |bits|
  {
    if bits == [] {
      assert XorPrefix(r, bits) == r;
    } else {
      var t := Step(poly, XorPrefix(r, bits[..1]));
      RegisterBatch(poly, t, bits[1..]);
      StepPrefix(poly, r, bits);
    }
  }

  lemma {:induction false} StepsAdd(poly: Word, r: Word, j: nat, k: nat)
    requires |r| == |poly| > 0
    ensures Steps(poly, r, j + k) == Steps(poly, Steps(poly, r, j), k)
    decreases j
  {
    hide Step;
    if j > 0 {
      assert (j + k) - 1 == (j - 1) + k;
      StepsAdd(poly, Step(poly, r), j - 1, k);
    }
  }

  lemma {:induction false} StepXor(poly: Word, a: Word, b: Word)
    requires |a| == |b| == |poly| > 0
    ensures Step(poly, Xor(a, b)) == Xor(Step(poly, a), Step(poly, b))
  {
  }

  lemma {:induction false} StepsXor(poly: Word, a: Word, b: Word, k: nat)
    requires |a| == |b| == |poly| > 0
    ensures Steps(poly, Xor(a, b), k) == Xor(Steps(poly, a, k), Steps(poly, b, k))
    decreases k
  {
    hide Step, Xor;
    if k > 0 {
      StepXor(poly, a, b);
      StepsXor(poly, Step(poly, a), Step(poly, b), k - 1);
    }
  }

  /** A register whose top `k` bits are clear is only shifted by `k` clocks. */
  lemma {:induction false} StepsShift(poly: Word, r: Word, k: nat)
    requires |r| == |poly| > 0 && k <= |r|
    requires forall i :: 0 <= i < k ==> !r[i]
    ensures Steps(poly, r, k) == Shl(r, k)
    decreases k
  {
    if k == 0 {
      assert Shl(r, 0) == r;
    } else {
      StepsShift(poly, Shl(r, 1), k - 1);
      assert Shl(Shl(r, 1), k - 1) == Shl(r, k);
    }
  }

  /** With an odd polynomial the last bit of the new register tells whether it was added, so a clock loses nothing. */
  lemma {:induction false} StepInjective(poly: Word, a: Word, b: Word)
    requires |a| == |b| == |poly| > 0 && poly[|poly| - 1]
    requires Step(poly, a) == Step(poly, b)
    ensures a == b
  {
    var n := |poly|;
    var sa, sb := Step(poly, a), Step(poly, b);
    assert sa[n - 1] == a[0] && sb[n - 1] == b[0];
    forall i | 1 <= i < n
      ensures a[i] == b[i]
    {
      assert sa[i - 1] == (a[i] != (a[0] && poly[i - 1]));
      assert sb[i - 1] == (b[i] != (b[0] && poly[i - 1]));
    }
  }

  lemma {:induction false} StepsInjective(poly: Word, a: Word, b: Word, k: nat)
    requires |a| == |b| == |poly| > 0 && poly[|poly| - 1]
    requires Steps(poly, a, k) == Steps(poly, b, k)
    ensures a == b
    decreases k
  {
    hide Step;
    if k > 0 {
      StepsInjective(poly, Step(poly, a), Step(poly, b), k - 1);
      StepInjective(poly, a, b);
    }
  }

  /** For a fixed message the final register determines the initial one. */
  lemma {:induction false} RegisterInjective(poly: Word, a: Word, b: Word, bits: Word)
    requires |a| == |b| == |poly| > 0 && poly[|poly| - 1]
    requires Register(poly, a, bits) == Register(poly, b, bits)
    ensures a == b
    decreases |bits|
  {
    if bits != [] {
      var ta, tb := XorPrefix(a, bits[..1]), XorPrefix(b, bits[..1]);
      RegisterInjective(poly, Step(poly, ta), Step(poly, tb), bits[1..]);
      StepInjective(poly, ta, tb);
      forall i | 0 <= i < |a|
        ensures a[i] == b[i]
      {
        assert ta[i] == tb[i];
      }
    }
  }

  /** For a fixed initial register, at most n bits are determined by the register they leave. */
  lemma {:induction false} WindowInjective(poly: Word, r: Word, u: Word, v: Word)
    requires |r| == |poly| > 0 && poly[|poly| - 1]
    requires |u| == |v| <= |poly| && Register(poly, r, u) == Register(poly, r, v)
    ensures u == v
  {
    var a, b := XorPrefix(r, u), XorPrefix(r, v);
    RegisterBatch(poly, r, u);
    RegisterBatch(poly, r, v);
    StepsInjective(poly, a, b, |u|);
    forall i | 0 <= i < |u|
      ensures u[i] == v[i]
    {
      assert a[i] == (r[i] != u[i]) && b[i] == (r[i] != v[i]);
    }
  }

  lemma {:induction false} RegisterConcat3(poly: Word, r: Word, a: Word, u: Word, c: Word)
    requires |r| == |poly| > 0
    ensures Register(poly, r, a + u + c) == Register(poly, Register(poly, Register(poly, r, a), u), c)
  {
    RegisterConcat(poly, r, a + u, c);
    RegisterConcat(poly, r, a, u);
  }

  /** Messages that differ only within a window of at most n bits leave different registers. */
  lemma {:induction false} BurstDetected(poly: Word, r: Word, a: Word, u: Word, v: Word, c: Word)
    requires |r| == |poly| > 0 && poly[|poly| - 1]
    requires |u| == |v| <= |poly| && u != v
    ensures Register(poly, r, a + u + c) != Register(poly, r, a + v + c)
  {
    var s := Register(poly, r, a);
    var x, y := Register(poly, s, u), Register(poly, s, v);
    RegisterConcat3(poly, r, a, u, c);
    RegisterConcat3(poly, r, a, v, c);
    if Register(poly, x, c) == Register(poly, y, c) {
      RegisterInjective(poly, x, y, c);
      WindowInjective(poly, s, u, v);
    }
  }
}
