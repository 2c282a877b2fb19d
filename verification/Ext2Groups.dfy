/** Which block groups hold a backup superblock, in two independent ways (fs/ext2.c). */
module Ext2Groups {
  import opened Base

  /** A first or higher power. */
  ghost predicate IsPower(a: int, b: nat) {
    exists k: nat :: k >= 1 && a == Pow(b, k)
  }

  /** A number above the base is a power when it is a multiple and the quotient is a power. */
  lemma {:induction false} PowerOfQuotient(a: nat, b: nat)
    requires b >= 2 && a > b
    ensures IsPower(a, b) <==> a % b == 0 && IsPower(a / b, b)
  {
    if IsPower(a, b) {
      var k :| k >= 1 && a == Pow(b, k);
      FirstPower(b);
      assert k > 1;
      RemainderUnique(a, b, Pow(b, k - 1), 0);
      assert a / b == Pow(b, k - 1);
    }
    if a % b == 0 && IsPower(a / b, b) {
      var k :| k >= 1 && a / b == Pow(b, k);
      assert a == b * (a / b);
      assert a == Pow(b, k + 1);
    }
  }

  lemma {:induction false} SmallPower(a: int, b: nat)
    requires b >= 2 && a <= b
    ensures IsPower(a, b) <==> a == b
  {
    FirstPower(b);
    if IsPower(a, b) {
      var k :| k >= 1 && a == Pow(b, k);
      PowGrows(b, 1, k);
    }
  }

  /** Division until the rest is no longer above the base. */
  method IsPowerOf(n: int, b: nat) returns (r: bool)
    requires b >= 2
    ensures r <==> IsPower(n, b)
  {
    hide IsPower;
    var a := n;
    while a > b
      invariant IsPower(a, b) <==> IsPower(n, b)
      decreases a
    {
      PowerOfQuotient(a, b);
      if a % b != 0 {
        return false;
      }
      Smaller(a, b);
      a := a / b;
    }
    SmallPower(a, b);
    r := a == b;
  }

  lemma {:induction false} Smaller(a: nat, b: nat)
    requires b >= 2 && a > b
    ensures 0 <= a / b < a
  {
    QuotientNat(a, b);
    var q := a / b;
    assert a == q * b + a % b;
    MulMonotone(2, b, q);
  }

  /** On a sparse-superblock filesystem: group 1 and the powers of 3, 5 and 7. */
  ghost predicate HasBackup(group: int) {
    group == 1 || IsPower(group, 3) || IsPower(group, 5) || IsPower(group, 7)
  }

  lemma {:induction false} NoNegativePower(a: int, b: nat)
    requires b >= 2 && IsPower(a, b)
    ensures a >= b
  {
    var k: nat :| k >= 1 && a == Pow(b, k);
    PowGrows(b, 1, k);
    FirstPower(b);
  }

  /**
   * The test used when the layout is built; without the feature every group has a backup. The group
   * number is tested as a signed one, so the answer is right exactly below 2^31.
   */
  method HasBackupSb(sparse: bool, group: uint32) returns (r: bool)
    ensures r <==> !sparse || (HasBackup(group) && group < 0x8000_0000)
  {
    hide IsPower;
    if !sparse {
      return true;
    }
    if group == 1 {
      return true;
    }
    var p7 := IsPowerOf(Int32(group), 7);
    var p5 := IsPowerOf(Int32(group), 5);
    var p3 := IsPowerOf(Int32(group), 3);
    r := p7 || p5 || p3;
    if group >= 0x8000_0000 && r {
      NoNegativePower(Int32(group), if p7 then 7 else if p5 then 5 else 3);
    }
  }

  /** A group that has a backup but is not recognised: 3 to the power of 20. */
  lemma {:induction false} MissedGroup()
    ensures HasBackup(3486784401) && 0x8000_0000 <= 3486784401 < 0x1_0000_0000
  {
    PowAdd(3, 5, 5);
    PowAdd(3, 10, 10);
    assert Pow(3, 5) == 243 by {
      assert Pow(3, 2) == 9;
      PowAdd(3, 2, 2);
      PowStep(3, 4);
    }
    assert Pow(3, 10) == 59049;
    assert Pow(3, 20) == 3486784401;
  }

  /** `t` is a power of `b`, and no higher than the first one above `n`. */
  ghost predicate Approaches(t: nat, b: nat, n: nat) {
    exists k: nat :: k >= 1 && t == Pow(b, k) && (k > 1 ==> Pow(b, k - 1) <= n)
  }

  lemma {:induction false} ApproachStep(t: nat, b: nat, n: nat)
    requires b >= 2 && Approaches(t, b, n) && t <= n
    ensures Approaches(t * b, b, n) && t < t * b
  {
    hide Pow;
    var k :| k >= 1 && t == Pow(b, k) && (k > 1 ==> Pow(b, k - 1) <= n);
    PowStep(b, k);
    PowGrows(b, k, k + 1);
    assert t * b == Pow(b, k + 1) && Pow(b, k + 1 - 1) <= n;
  }

  lemma {:induction false} ApproachStart(b: nat, n: nat)
    ensures Approaches(b, b, n)
  {
    FirstPower(b);
  }

  /** Once above `n`, it is the least power above `n`. */
  lemma {:induction false} ApproachEnd(t: nat, b: nat, n: nat, m: int)
    requires b >= 2 && Approaches(t, b, n) && t > n
    ensures IsPower(t, b)
    ensures m > n && IsPower(m, b) ==> t <= m
  {
    var k :| k >= 1 && t == Pow(b, k) && (k > 1 ==> Pow(b, k - 1) <= n);
    if m > n && IsPower(m, b) {
      var l :| l >= 1 && m == Pow(b, l);
      if l < k {
        PowGrows(b, l, k - 1);
      } else {
        PowGrows(b, k, l);
      }
    }
  }

  /** The least group above `n` with a backup. */
  ghost predicate IsNext(n: nat, m: nat) {
    m > n && HasBackup(m) && forall g :: n < g < m ==> !HasBackup(g)
  }

  /**
   * Three running powers are multiplied until all of them are above `n`. The result is the next backup
   * group exactly when `n` is not zero: after group 0 it skips group 1.
   */
  method NextSparseSuperBlockNumber(n: uint32) returns (min: nat)
    ensures IsNext(n, min) <==> n >= 1
    ensures n == 0 ==> min == 3
  {
    hide IsPower, Approaches, Pow, HasBackup, IsNext;
    if n == 1 {
      OneTwoThree();
      return 3;
    }
    var t3: nat, t5: nat, t7: nat := 3, 5, 7;
    ApproachStart(3, n);
    ApproachStart(5, n);
    ApproachStart(7, n);
    var ready := false;
    while !ready
      invariant Approaches(t3, 3, n) && Approaches(t5, 5, n) && Approaches(t7, 7, n)
      invariant ready ==> t3 > n && t5 > n && t7 > n
      invariant n == 0 ==> t3 == 3 && t5 == 5 && t7 == 7
      decreases Left(t3, n) + Left(t5, n) + Left(t7, n), !ready
    {
      ready := true;
      if t3 <= n {
        ApproachStep(t3, 3, n);
        t3 := t3 * 3;
        ready := false;
      }
      if t5 <= n {
        ApproachStep(t5, 5, n);
        t5 := t5 * 5;
        ready := false;
      }
      if t7 <= n {
        ApproachStep(t7, 7, n);
        t7 := t7 * 7;
        ready := false;
      }
    }
    min := t3;
    if t5 < min {
      min := t5;
    }
    if t7 < min {
      min := t7;
    }
    LeastOfThree(t3, t5, t7, n, min);
  }

  lemma {:induction false} LeastOfThree(t3: nat, t5: nat, t7: nat, n: nat, min: nat)
    requires n != 1 && Approaches(t3, 3, n) && Approaches(t5, 5, n) && Approaches(t7, 7, n)
    requires t3 > n && t5 > n && t7 > n
    requires min <= t3 && min <= t5 && min <= t7 && (min == t3 || min == t5 || min == t7)
    requires n == 0 ==> min == 3
    ensures IsNext(n, min) <==> n >= 1
  {
    hide IsPower, Approaches;
    forall m | m > n
      ensures (IsPower(m, 3) ==> t3 <= m) && (IsPower(m, 5) ==> t5 <= m) && (IsPower(m, 7) ==> t7 <= m)
    {
      ApproachEnd(t3, 3, n, m);
      ApproachEnd(t5, 5, n, m);
      ApproachEnd(t7, 7, n, m);
    }
    ApproachEnd(t3, 3, n, 0);
    ApproachEnd(t5, 5, n, 0);
    ApproachEnd(t7, 7, n, 0);
    assert n == 0 ==> HasBackup(1);
  }

  function Left(t: nat, n: nat): nat {
    if t <= n then n + 1 - t else 0
  }

  lemma {:induction false} OneTwoThree()
    ensures IsNext(1, 3)
  {
    SmallPower(2, 3);
    SmallPower(2, 5);
    SmallPower(2, 7);
    SmallPower(3, 3);
  }

  /** Walking from group 1 meets exactly the backup groups below `count`, in order. */
  method BackupGroups(count: uint32) returns (groups: seq<nat>)
    ensures forall g :: g in groups <==> 1 <= g < count && HasBackup(g)
    ensures forall i, j :: 0 <= i < j < |groups| ==> groups[i] < groups[j]
  {
    hide HasBackup;
    groups := [];
    var group: nat := 1;
    GroupOne();
    while group < count
      invariant group >= 1 && HasBackup(group)
      invariant forall g :: g in groups <==> 1 <= g < group && g < count && HasBackup(g)
      invariant forall i, j :: 0 <= i < j < |groups| ==> groups[i] < groups[j]
      decreases count - group
    {
      assert forall i :: 0 <= i < |groups| ==> groups[i] in groups;
      groups := groups + [group];
      var next := NextSparseSuperBlockNumber(group);
      group := next;
    }
  }

  lemma {:induction false} GroupOne()
    ensures HasBackup(1)
  {
  }
}
