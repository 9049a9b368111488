/**
 Magnitude arithmetic of the PacketCrypt difficulty rules: the constant 2^256 and
 the conversion between a target and its "work", both with truncating division.
 All values are unbounded integers, as with Go's `big.Int`.
 */
module Magnitude {
  import opened Arith

  /** 2^256: the value `bn256()` builds by setting bit 256 of zero. */
  const BN256: nat := 0x1_0000_0000_0000_0000_0000_0000_0000_0000_0000_0000_0000_0000_0000_0000_0000_0000

  /** `BN256` is 2^256, and also 256^32, the bound of a 32-byte value; computed by repeated squaring. */
  lemma PowersOfTwo()
    ensures Pow(2, 256) == BN256
    ensures Pow(256, 32) == BN256
  {
    var p8 := Pow(2, 8);
    assert p8 == 256 by {
      assert Pow(2, 4) == 16;
      PowAdd(2, 4, 4);
    }
    PowAdd(2, 8, 8);
    var p16 := Pow(2, 16);
    assert p16 == 0x1_0000;
    PowAdd(2, 16, 16);
    var p32 := Pow(2, 32);
    assert p32 == 0x1_0000_0000;
    PowAdd(2, 32, 32);
    var p64 := Pow(2, 64);
    assert p64 == 0x1_0000_0000_0000_0000;
    PowAdd(2, 64, 64);
    var p128 := Pow(2, 128);
    assert p128 == 0x1_0000_0000_0000_0000_0000_0000_0000_0000;
    PowAdd(2, 128, 128);
    PowMul(2, 8, 32);
  }

  /** Work implied by a target: 2^256 divided by (target + 1), truncated.
      The only target the division cannot take is -1 (divisor zero). */
  function WorkForTarget(target: int): (work: int)
    requires target != -1
    ensures 0 <= target ==> 0 <= work && work * (target + 1) <= BN256 < (work + 1) * (target + 1)
    ensures target < -1 ==> work <= 0
  {
    if 0 <= target then
      DivIsFloor(BN256, target + 1);
      BN256 / (target + 1)
    else
      BN256 / (target + 1)
  }

  /** Target implied by a work: zero work gives 2^256 (minimum difficulty),
      otherwise (2^256 - work) divided by work, truncated. */
  function TargetForWork(work: int): (target: int)
    ensures work == 0 ==> target == BN256
    ensures 0 < work ==> (target + 1) * work <= BN256 < (target + 2) * work
    ensures 0 < work <= BN256 ==> 0 <= target < BN256
    ensures BN256 < work ==> target == -1
    ensures work < 0 ==> target < 0
  {
    if work == 0 then
      BN256
    else
      var target := (BN256 - work) / work;
      if 0 < work then
        TargetForPositiveWork(work);
        target
      else
        DivByNegative(BN256 - work, work);
        target
  }

  lemma TargetForPositiveWork(work: int)
    requires 0 < work
    ensures var target := (BN256 - work) / work;
            (target + 1) * work <= BN256 < (target + 2) * work &&
            (work <= BN256 ==> 0 <= target < BN256) &&
            (BN256 < work ==> target == -1)
  {
    DivShift(BN256, work);
    DivIsFloor(BN256, work);
    if work <= BN256 {
      BelowFloor(BN256, work, 1);
      DivAntitone(BN256, 1, work);
    } else {
      DivUnique(BN256, work, 0);
    }
  }

  /** A target in [0, 2^256) has work in [1, 2^256]; the work is 2^256 only for target 0,
      and zero for any target at or above 2^256. */
  lemma WorkRange(target: int)
    requires 0 <= target
    ensures target < BN256 ==> 1 <= WorkForTarget(target) <= BN256
    ensures WorkForTarget(target) == BN256 <==> target == 0
    ensures WorkForTarget(target) == 0 <==> BN256 <= target
  {
    var w := WorkForTarget(target);
    if 1 <= target {
      MulLeMono(2, target + 1, w);
    }
    if w == 0 {
      assert BN256 < target + 1;
    }
  }

  /** A harder (smaller) target never implies less work. */
  lemma WorkAntitone(t1: int, t2: int)
    requires 0 <= t1 <= t2
    ensures WorkForTarget(t2) <= WorkForTarget(t1)
  {
    DivAntitone(BN256, t1 + 1, t2 + 1);
  }

  /** More work never gives a larger target. */
  lemma TargetAntitone(w1: int, w2: int)
    requires 0 <= w1 <= w2
    ensures TargetForWork(w2) <= TargetForWork(w1)
  {
    if 0 < w1 {
      var q1, q2 := TargetForWork(w1) + 1, TargetForWork(w2) + 1;
      assert q2 == BN256 / w2 by { DivUnique(BN256, w2, q2); }
      assert q1 == BN256 / w1 by { DivUnique(BN256, w1, q1); }
      DivAntitone(BN256, w1, w2);
    }
  }

  /** The two conversions form a Galois connection: a work `w >= 1` is within the work of
      target `t` exactly when `t` is within the target of `w`. */
  lemma {:induction false} WorkTargetGalois(target: int, work: int)
    requires 0 <= target && 1 <= work
    ensures work <= WorkForTarget(target) <==> target <= TargetForWork(work)
  {
    var q := TargetForWork(work) + 1;
    assert q == BN256 / work by { DivUnique(BN256, work, q); }
    assert WorkForTarget(target) == BN256 / (target + 1);
    BelowFloor(BN256, target + 1, work);
    BelowFloor(BN256, work, target + 1);
    assert work * (target + 1) == (target + 1) * work;
  }

  /** Converting a target to work and back never makes it harder. */
  lemma TargetRoundTrip(target: int)
    requires 0 <= target < BN256
    ensures target <= TargetForWork(WorkForTarget(target))
    ensures target == 0 ==> TargetForWork(WorkForTarget(target)) == 0
  {
    WorkRange(target);
    WorkTargetGalois(target, WorkForTarget(target));
  }

  /** Converting a work to a target and back never loses work. */
  lemma WorkRoundTrip(work: int)
    requires 1 <= work <= BN256
    ensures work <= WorkForTarget(TargetForWork(work))
  {
    WorkTargetGalois(TargetForWork(work), work);
  }

  /** Re-normalising a work through its target changes nothing: the work of
      the round-tripped target is the work we started from. */
  lemma WorkOfRoundTrip(target: int)
    requires 0 <= target < BN256
    ensures WorkForTarget(TargetForWork(WorkForTarget(target))) == WorkForTarget(target)
  {
    var w := WorkForTarget(target);
    WorkRange(target);
    TargetRoundTrip(target);
    WorkAntitone(target, TargetForWork(w));
    WorkRoundTrip(w);
  }

  /** Work lies strictly between 0 and 2^256 exactly when the target does. */
  lemma WorkStrictlyInside(target: int)
    requires target != -1
    ensures 0 < WorkForTarget(target) < BN256 <==> 0 < target < BN256
  {
    if 0 <= target {
      WorkRange(target);
    }
  }
}
