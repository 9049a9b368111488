/**
 The PacketCrypt difficulty rules: the effective target a block hash must meet given
 its announcements, the hash check itself, the aging of an announcement's target,
 and the sanity check on a miner's minimum announcement target.
 Compact targets cross the boundary through a `Codec`; everything in between is
 exact arithmetic on unbounded integers.
 */
module Difficulty {
  import opened Types
  import opened Arith
  import opened Bytes
  import opened Magnitude

  /** Largest compact target the rules hand out (protocol minimum difficulty). */
  const MIN_DIFF_CEILING: uint32 := 0x207fffff

  /** Largest compact value the announcement sanity check lets through. */
  const SANITY_CEILING: uint32 := 0x20ffffff

  /** Returned by the aging rule for an announcement that may not be used. */
  const NOT_USABLE: uint32 := 0xffffffff

  // ---------------------------------------------------------------------------
  // Effective target

  /** Work a block must represent: the header work cubed, divided by the minimum
      announcement work and then by the number of announcements; with no
      announcement work at all, the largest work below 2^256. */
  function EffectiveWorkRequirement(headerWork: int, minAnnWork: int, annCount: uint64): (work: int)
    ensures minAnnWork == 0 || annCount == 0 ==> work == BN256 - 1
    ensures 0 < minAnnWork && 0 < annCount ==>
              work * (minAnnWork * annCount) <= headerWork * headerWork * headerWork
                < (work + 1) * (minAnnWork * annCount)
    ensures 0 <= headerWork && 0 < minAnnWork && 0 < annCount ==> 0 <= work
  {
    if minAnnWork == 0 || annCount == 0 then
      BN256 - 1
    else
      var cube := headerWork * headerWork * headerWork;
      var work := cube / minAnnWork / annCount;
      if 0 < minAnnWork then
        NestedDiv(cube, minAnnWork, annCount);
        DivIsFloor(cube, minAnnWork * annCount);
        work
      else
        work
  }

  /** The order of the two divisions does not matter for positive divisors. */
  lemma EffectiveWorkDivisionOrder(headerWork: int, minAnnWork: int, annCount: uint64)
    requires 0 < minAnnWork && 0 < annCount
    ensures EffectiveWorkRequirement(headerWork, minAnnWork, annCount)
              == headerWork * headerWork * headerWork / annCount / minAnnWork
  {
    var cube := headerWork * headerWork * headerWork;
    NestedDiv(cube, minAnnWork, annCount);
    NestedDiv(cube, annCount, minAnnWork);
    assert minAnnWork * annCount == annCount * minAnnWork;
  }

  /** More announcements never raise the work requirement. */
  lemma EffectiveWorkAntitoneInCount(headerWork: int, minAnnWork: int, c1: uint64, c2: uint64)
    requires 0 <= headerWork && 0 < minAnnWork && 0 < c1 <= c2
    ensures EffectiveWorkRequirement(headerWork, minAnnWork, c2)
              <= EffectiveWorkRequirement(headerWork, minAnnWork, c1)
  {
    var cube := headerWork * headerWork * headerWork;
    assert 0 <= headerWork * headerWork;
    MulLeMono(0, headerWork * headerWork, headerWork);
    DivAntitone(cube / minAnnWork, c1, c2);
  }

  /** The effective target as a magnitude, before compact encoding. */
  function EffectiveTargetMagnitude(codec: Codec, blockHeaderTarget: uint32, minAnnTarget: uint32,
                                    annCount: uint64): (target: int)
    requires codec.compactToBig(blockHeaderTarget) != -1
    requires codec.compactToBig(minAnnTarget) != -1
    ensures 0 <= codec.compactToBig(blockHeaderTarget) && 0 <= codec.compactToBig(minAnnTarget) ==>
              -1 <= target <= BN256
  {
    var headerWork := WorkForTarget(codec.compactToBig(blockHeaderTarget));
    var minAnnWork := WorkForTarget(codec.compactToBig(minAnnTarget));
    TargetForWork(EffectiveWorkRequirement(headerWork, minAnnWork, annCount))
  }

  /** The compact effective target: the encoded magnitude, capped at the minimum-difficulty
      ceiling. */
  function GetEffectiveTarget(codec: Codec, blockHeaderTarget: uint32, minAnnTarget: uint32,
                              annCount: uint64): (r: uint32)
    requires codec.compactToBig(blockHeaderTarget) != -1
    requires codec.compactToBig(minAnnTarget) != -1
    ensures r <= MIN_DIFF_CEILING
    ensures var e := codec.bigToCompact(EffectiveTargetMagnitude(codec, blockHeaderTarget, minAnnTarget, annCount));
            (e <= MIN_DIFF_CEILING ==> r == e) && (MIN_DIFF_CEILING < e ==> r == MIN_DIFF_CEILING)
  {
    var effectiveTarget :=
      codec.bigToCompact(EffectiveTargetMagnitude(codec, blockHeaderTarget, minAnnTarget, annCount));
    if effectiveTarget > MIN_DIFF_CEILING then MIN_DIFF_CEILING else effectiveTarget
  }

  /** With no announcements, or with a minimum announcement target that carries no work,
      the effective target is 0 (only the zero hash can pass), whatever the header says. */
  lemma NoAnnouncements(codec: Codec, blockHeaderTarget: uint32, minAnnTarget: uint32, annCount: uint64)
    requires codec.compactToBig(blockHeaderTarget) != -1
    requires codec.compactToBig(minAnnTarget) != -1
    requires annCount == 0 || WorkForTarget(codec.compactToBig(minAnnTarget)) == 0
    ensures EffectiveTargetMagnitude(codec, blockHeaderTarget, minAnnTarget, annCount) == 0
    ensures GetEffectiveTarget(codec, blockHeaderTarget, minAnnTarget, annCount)
              == (if codec.bigToCompact(0) > MIN_DIFF_CEILING then MIN_DIFF_CEILING else codec.bigToCompact(0))
  {
    var w := BN256 - 1;
    assert TargetForWork(w) + 1 == 1 by {
      DivUnique(BN256, w, 1);
    }
  }

  /** The two degenerate inputs (zero announcements, zero announcement work) agree. */
  lemma NoAnnouncementsAgree(codec: Codec, blockHeaderTarget: uint32, noWorkTarget: uint32,
                             minAnnTarget: uint32, annCount: uint64)
    requires codec.compactToBig(blockHeaderTarget) != -1
    requires codec.compactToBig(noWorkTarget) != -1 && codec.compactToBig(minAnnTarget) != -1
    requires WorkForTarget(codec.compactToBig(noWorkTarget)) == 0
    ensures GetEffectiveTarget(codec, blockHeaderTarget, noWorkTarget, annCount)
              == GetEffectiveTarget(codec, blockHeaderTarget, minAnnTarget, 0)
  {
    NoAnnouncements(codec, blockHeaderTarget, noWorkTarget, annCount);
    NoAnnouncements(codec, blockHeaderTarget, minAnnTarget, 0);
  }

  /** More announcements never make the effective target harder. */
  lemma EffectiveTargetMonotoneInCount(codec: Codec, blockHeaderTarget: uint32, minAnnTarget: uint32,
                                       c1: uint64, c2: uint64)
    requires 0 <= codec.compactToBig(blockHeaderTarget) && 0 <= codec.compactToBig(minAnnTarget)
    requires 0 < c1 <= c2
    ensures EffectiveTargetMagnitude(codec, blockHeaderTarget, minAnnTarget, c1)
              <= EffectiveTargetMagnitude(codec, blockHeaderTarget, minAnnTarget, c2)
  {
    var headerWork := WorkForTarget(codec.compactToBig(blockHeaderTarget));
    var minAnnWork := WorkForTarget(codec.compactToBig(minAnnTarget));
    if minAnnWork != 0 {
      EffectiveWorkAntitoneInCount(headerWork, minAnnWork, c1, c2);
      TargetAntitone(EffectiveWorkRequirement(headerWork, minAnnWork, c2),
                     EffectiveWorkRequirement(headerWork, minAnnWork, c1));
    }
  }

  /** Monotonicity in the count starts at one announcement: going from none to one can
      make the effective target harder. With header and minimum announcement targets
      both decoding to 0, no announcements give target 0 but one announcement gives
      work (2^256)^2, beyond 2^256, hence target -1. */
  lemma FirstAnnouncementCanLowerTarget(codec: Codec, blockHeaderTarget: uint32, minAnnTarget: uint32)
    requires codec.compactToBig(blockHeaderTarget) == 0 && codec.compactToBig(minAnnTarget) == 0
    ensures EffectiveTargetMagnitude(codec, blockHeaderTarget, minAnnTarget, 0) == 0
    ensures EffectiveTargetMagnitude(codec, blockHeaderTarget, minAnnTarget, 1) == -1
  {
    NoAnnouncements(codec, blockHeaderTarget, minAnnTarget, 0);
    assert WorkForTarget(0) == BN256;
    var work := EffectiveWorkRequirement(BN256, BN256, 1);
    assert work == BN256 * BN256 by {
      DivUnique(BN256 * BN256 * BN256, BN256, BN256 * BN256);
    }
  }

  /** The effective target magnitude is -1 (nothing passes) exactly when the work
      requirement exceeds 2^256; otherwise a hash meets it only if its target's work
      is at least the requirement. */
  lemma EffectiveTargetMeetsWork(codec: Codec, blockHeaderTarget: uint32, minAnnTarget: uint32,
                                 annCount: uint64, hashValue: int)
    requires 0 <= codec.compactToBig(blockHeaderTarget) && 0 <= codec.compactToBig(minAnnTarget)
    requires 0 <= hashValue
    ensures var headerWork := WorkForTarget(codec.compactToBig(blockHeaderTarget));
            var minAnnWork := WorkForTarget(codec.compactToBig(minAnnTarget));
            var work := EffectiveWorkRequirement(headerWork, minAnnWork, annCount);
            var target := EffectiveTargetMagnitude(codec, blockHeaderTarget, minAnnTarget, annCount);
            (target == -1 <==> BN256 < work) &&
            (1 <= work ==> (hashValue <= target <==> work <= WorkForTarget(hashValue)))
  {
    var headerWork := WorkForTarget(codec.compactToBig(blockHeaderTarget));
    var minAnnWork := WorkForTarget(codec.compactToBig(minAnnTarget));
    var work := EffectiveWorkRequirement(headerWork, minAnnWork, annCount);
    if 1 <= work {
      WorkTargetGalois(hashValue, work);
    }
  }

  // ---------------------------------------------------------------------------
  // Hash check

  /** A hash passes when its first 32 bytes, reversed and read big-endian, do not
      exceed the decoded target. */
  function IsOk(codec: Codec, hash: seq<byte>, target: uint32): (ok: bool)
    requires 32 <= |hash|
    ensures ok <==> LittleEndian(hash[..32]) <= codec.compactToBig(target)
  {
    BigEndianOfReverse(hash[..32]);
    BigEndian(Reverse(hash[..32])) <= codec.compactToBig(target)
  }

  /** A hash equal to the target passes, and the next larger one fails. */
  lemma IsOkBoundary(codec: Codec, target: uint32)
    requires 0 <= codec.compactToBig(target) < BN256 - 1
    ensures var v := codec.compactToBig(target);
            v + 1 < Pow(256, 32) &&
            IsOk(codec, ToLittleEndian(v, 32), target) &&
            !IsOk(codec, ToLittleEndian(v + 1, 32), target)
  {
    var v := codec.compactToBig(target);
    PowersOfTwo();
    LittleEndianRoundTrip(v, 32);
    LittleEndianRoundTrip(v + 1, 32);
    var s, s' := ToLittleEndian(v, 32), ToLittleEndian(v + 1, 32);
    assert s[..32] == s && s'[..32] == s';
  }

  /** A negative target rejects every hash; a target of at least 2^256 - 1 accepts every hash. */
  lemma IsOkExtremes(codec: Codec, hash: seq<byte>, target: uint32)
    requires 32 <= |hash|
    ensures codec.compactToBig(target) < 0 ==> !IsOk(codec, hash, target)
    ensures BN256 - 1 <= codec.compactToBig(target) ==> IsOk(codec, hash, target)
  {
    LittleEndianBound(hash[..32]);
    PowersOfTwo();
  }

  // ---------------------------------------------------------------------------
  // Announcement aging

  /** Target an announcement is valued at `age` blocks past its wait period: its work
      divided by the age, converted back to a target. */
  function AgedAnnTargetMagnitude(annTarget: int, age: int): (target: int)
    requires annTarget != -1 && 1 <= age
    ensures 0 <= annTarget ==> 0 <= target <= BN256
  {
    var work := WorkForTarget(annTarget);
    if 0 <= annTarget then
      DivAntitone(work, 1, age);
      TargetForWork(work / age)
    else
      TargetForWork(work / age)
  }

  /** Compact target used to value an announcement `annAgeBlocks` blocks old, or
      `NOT_USABLE` before the wait period or when aging pushes it past the ceiling. */
  function GetAgedAnnTarget(codec: Codec, waitPeriod: uint32, target: uint32, annAgeBlocks: uint32): (r: uint32)
    requires waitPeriod < annAgeBlocks ==> codec.compactToBig(target) != -1
    ensures annAgeBlocks < waitPeriod ==> r == NOT_USABLE
    ensures annAgeBlocks == waitPeriod ==> r == codec.bigToCompact(codec.compactToBig(target))
    ensures waitPeriod < annAgeBlocks ==>
              var e := codec.bigToCompact(AgedAnnTargetMagnitude(codec.compactToBig(target), annAgeBlocks - waitPeriod));
              (r == NOT_USABLE <==> MIN_DIFF_CEILING < e) &&
              (r != NOT_USABLE ==> r == e && r <= MIN_DIFF_CEILING)
  {
    if annAgeBlocks < waitPeriod then
      NOT_USABLE
    else
      var annTarget := codec.compactToBig(target);
      if annAgeBlocks == waitPeriod then
        codec.bigToCompact(annTarget)
      else
        var out := codec.bigToCompact(AgedAnnTargetMagnitude(annTarget, annAgeBlocks - waitPeriod));
        if out > MIN_DIFF_CEILING then NOT_USABLE else out
  }

  /** An announcement's aged work never grows, and its aged target never shrinks, with age. */
  lemma AgingMonotone(annTarget: int, a1: int, a2: int)
    requires 0 <= annTarget && 1 <= a1 <= a2
    ensures WorkForTarget(annTarget) / a2 <= WorkForTarget(annTarget) / a1
    ensures AgedAnnTargetMagnitude(annTarget, a1) <= AgedAnnTargetMagnitude(annTarget, a2)
  {
    var work := WorkForTarget(annTarget);
    DivAntitone(work, a1, a2);
    DivAntitone(work, 1, a2);
    TargetAntitone(work / a2, work / a1);
  }

  /** One block past the wait period the work is undivided: the target is the
      announcement's target re-normalised, never harder and with the same work. */
  lemma FirstAgedBlock(annTarget: int)
    requires 0 <= annTarget < BN256
    ensures AgedAnnTargetMagnitude(annTarget, 1) == TargetForWork(WorkForTarget(annTarget))
    ensures annTarget <= AgedAnnTargetMagnitude(annTarget, 1)
    ensures WorkForTarget(AgedAnnTargetMagnitude(annTarget, 1)) == WorkForTarget(annTarget)
  {
    TargetRoundTrip(annTarget);
    WorkOfRoundTrip(annTarget);
  }

  /** Once the age exceeds the announcement's work, the aged work is zero and the aged
      target is 2^256, the minimum-difficulty magnitude. */
  lemma AgedOut(annTarget: int, age: int)
    requires 0 <= annTarget && 1 <= age
    requires WorkForTarget(annTarget) < age
    ensures AgedAnnTargetMagnitude(annTarget, age) == BN256
  {
  }

  // ---------------------------------------------------------------------------
  // Minimum announcement target sanity check

  /** A miner's minimum announcement target is sane when its compact form is non-zero and
      at most `SANITY_CEILING`, and its work lies strictly between 0 and 2^256. */
  function IsAnnMinDiffOk(codec: Codec, target: uint32): (ok: bool)
    requires 0 < target <= SANITY_CEILING ==> codec.compactToBig(target) != -1
    ensures ok <==> 0 < target <= SANITY_CEILING && 0 < codec.compactToBig(target) < BN256
  {
    if target == 0 || target > SANITY_CEILING then
      false
    else
      var work := WorkForTarget(codec.compactToBig(target));
      WorkStrictlyInside(codec.compactToBig(target));
      work > 0 && work < BN256
  }

  /** A sane minimum announcement target carries work, so the effective target falls back to
      the degenerate case only when there are no announcements. */
  lemma SaneMinAnnTargetHasWork(codec: Codec, minAnnTarget: uint32)
    requires 0 < minAnnTarget <= SANITY_CEILING ==> codec.compactToBig(minAnnTarget) != -1
    requires IsAnnMinDiffOk(codec, minAnnTarget)
    ensures 1 <= WorkForTarget(codec.compactToBig(minAnnTarget)) < BN256
  {
    WorkStrictlyInside(codec.compactToBig(minAnnTarget));
  }
}
