# PacketCrypt difficulty rules, modelled in Dafny

This project models the consensus difficulty rules of PacketCrypt, from
`blockchain/packetcrypt/difficulty/diff.go`. Every node must compute them bit for bit
the same. They cover five things:

- converting between a target magnitude and its work, `2^256 / (target + 1)`, with
  truncating big-integer division (`workForTarget`, `targetForWork`);
- the effective target that a block hash must meet. The header work is cubed, then
  divided by the minimum announcement work, then by the number of announcements.
  The result is turned back into a target and capped at the compact value
  `0x207fffff` (`getEffectiveWorkRequirement`, `GetEffectiveTarget`);
- the hash check. The first 32 hash bytes are reversed, read big-endian and compared
  with the decoded target (`IsOk`);
- the aging of an announcement's target. An announcement is not usable before the
  wait period and is used as is at the wait period. After that, its work is divided
  by its age past the wait period. Anything out of range becomes the "not usable"
  value `0xffffffff` (`GetAgedAnnTarget`);
- the sanity check on a miner's minimum announcement target (`IsAnnMinDiffOk`).

Values are Dafny's unbounded `int`. Dafny's `/` is Euclidean division, which is what
Go's `big.Int.Div` does, including for negative numerators.

The compact ("nBits") codec, `CompactToBig` and `BigToCompact`, is not part of this
model. It is the `Codec` parameter (`Types.Codec`), a pair of total functions, so
every contract holds whatever the codec computes. The announcement wait period
`Conf_PacketCrypt_ANN_WAIT_PERIOD` is the `waitPeriod` parameter.

Modules:

- `Types`: the `uint32`, `uint64` and `byte` ranges and the `Codec`.
- `Arith`: facts about truncating division.
- `Bytes`: byte reversal, and big- and little-endian readings of a byte sequence.
- `Magnitude`: `bn256`, `workForTarget`, `targetForWork`.
- `Difficulty`: the four exported rules and their properties.

The source can panic in two ways, and the model turns each into a `requires`:

- `workForTarget` divides by `target + 1`, so it divides by zero when the codec decodes
  a compact value to -1. It is called at diff.go:68-69, 107 and 123. Each rule
  requires that the target it decodes there is not -1, and only on the path that
  reaches the division.
- `IsOk` slices `hash[:32]` at diff.go:85, which panics when the slice has fewer than
  32 bytes of capacity. `IsOk` requires `32 <= |hash|`.

## Model

| member | source | states |
|---|---|---|
| Magnitude.PowersOfTwo | blockchain/packetcrypt/difficulty/diff.go:15-19 | the constant `BN256` used for `bn256()` is 2^256, which is also 256^32 (the range of a 32-byte hash) |
| Magnitude.WorkForTarget | blockchain/packetcrypt/difficulty/diff.go:23-28 | for a target t >= 0 the work w is the floor of 2^256/(t+1): w*(t+1) <= 2^256 < (w+1)*(t+1); a target below -1 gives work <= 0; only t = -1 (zero divisor, a Go panic) is excluded |
| Magnitude.TargetForWork | blockchain/packetcrypt/difficulty/diff.go:30-39 | work 0 gives exactly 2^256; positive work w gives t with (t+1)*w <= 2^256 < (t+2)*w; 0 < w <= 2^256 gives 0 <= t < 2^256; w > 2^256 gives -1; negative work gives a negative target |
| Magnitude.WorkRange | blockchain/packetcrypt/difficulty/diff.go:23-28 | for 0 <= t < 2^256 the work lies in [1, 2^256]; it is 2^256 iff t = 0 and 0 iff t >= 2^256 |
| Magnitude.WorkAntitone | blockchain/packetcrypt/difficulty/diff.go:23-28 | a smaller (harder) non-negative target never has less work |
| Magnitude.TargetAntitone | blockchain/packetcrypt/difficulty/diff.go:30-39 | more (non-negative) work never gives a larger target |
| Magnitude.WorkTargetGalois | blockchain/packetcrypt/difficulty/diff.go:23-39 | for t >= 0 and w >= 1: w <= workForTarget(t) iff t <= targetForWork(w) |
| Magnitude.TargetRoundTrip | blockchain/packetcrypt/difficulty/diff.go:23-39 | target to work and back never gives a smaller target, and is exact for target 0 |
| Magnitude.WorkRoundTrip | blockchain/packetcrypt/difficulty/diff.go:23-39 | work in [1, 2^256] to target and back never gives less work |
| Magnitude.WorkOfRoundTrip | blockchain/packetcrypt/difficulty/diff.go:23-39 | the round-tripped target has exactly the work of the original target |
| Magnitude.WorkStrictlyInside | blockchain/packetcrypt/difficulty/diff.go:23-28 | 0 < workForTarget(t) < 2^256 iff 0 < t < 2^256, for every t except -1 |
| Difficulty.EffectiveWorkRequirement | blockchain/packetcrypt/difficulty/diff.go:41-59 | zero minimum announcement work or zero announcements gives exactly 2^256 - 1; with both divisors positive, the result is the floor of hw^3 / (minAnnWork * annCount), and it is non-negative for non-negative header work |
| Difficulty.EffectiveWorkDivisionOrder | blockchain/packetcrypt/difficulty/diff.go:53-56 | for positive divisors, dividing by annCount first gives the same result |
| Difficulty.EffectiveWorkAntitoneInCount | blockchain/packetcrypt/difficulty/diff.go:41-59 | for counts 1 <= c1 <= c2 and positive minimum announcement work (and non-negative header work), the work requirement at c2 is at most that at c1; from 0 to 1 announcements it can grow |
| Difficulty.EffectiveTargetMagnitude | blockchain/packetcrypt/difficulty/diff.go:64-73 | for non-negative decoded targets the uncapped effective target lies in [-1, 2^256] |
| Difficulty.GetEffectiveTarget | blockchain/packetcrypt/difficulty/diff.go:64-80 | the result never exceeds 0x207fffff; it is the encoded effective target when that is within 0x207fffff, and 0x207fffff otherwise |
| Difficulty.NoAnnouncements | blockchain/packetcrypt/difficulty/diff.go:41-80 | with zero announcements or zero minimum announcement work, the effective target magnitude is 0 and the result is the encoding of 0, capped |
| Difficulty.NoAnnouncementsAgree | blockchain/packetcrypt/difficulty/diff.go:41-45 | "no announcement work" and "no announcements" give the same compact effective target |
| Difficulty.EffectiveTargetMonotoneInCount | blockchain/packetcrypt/difficulty/diff.go:41-80 | for one or more announcements, more announcements never make the effective target magnitude smaller |
| Difficulty.FirstAnnouncementCanLowerTarget | blockchain/packetcrypt/difficulty/diff.go:41-73 | with header and minimum announcement targets both decoding to 0, no announcements give effective target 0 but one announcement gives -1, so monotonicity in the count holds only from one announcement on |
| Difficulty.EffectiveTargetMeetsWork | blockchain/packetcrypt/difficulty/diff.go:68-74 | the effective target is -1 iff the work requirement exceeds 2^256; for a requirement >= 1, a value h >= 0 is within the effective target iff workForTarget(h) meets the requirement |
| Difficulty.IsOk | blockchain/packetcrypt/difficulty/diff.go:83-90 | needs at least 32 bytes; true iff the little-endian value of the first 32 bytes is at most the decoded target; bytes after index 31 do not matter |
| Difficulty.IsOkBoundary | blockchain/packetcrypt/difficulty/diff.go:83-90 | a hash encoding the target itself passes, and one encoding target + 1 fails |
| Difficulty.IsOkExtremes | blockchain/packetcrypt/difficulty/diff.go:83-90 | a negative decoded target rejects every hash; a target of at least 2^256 - 1 accepts every hash |
| Bytes.Reverse | blockchain/packetcrypt/difficulty/diff.go:86 | the result has the same length, and byte i is input byte len-1-i |
| Bytes.BigEndian | blockchain/packetcrypt/difficulty/diff.go:87 | `SetBytes` reads the bytes most significant first; an n-byte value is below 256^n |
| Bytes.BigEndianOfReverse | blockchain/packetcrypt/difficulty/diff.go:86-87 | reading the reversed bytes big-endian equals reading the original bytes little-endian |
| Bytes.LittleEndianBound | blockchain/packetcrypt/difficulty/diff.go:84-87 | an n-byte value is below 256^n, so a 32-byte hash is below 2^256 |
| Difficulty.AgedAnnTargetMagnitude | blockchain/packetcrypt/difficulty/diff.go:106-109 | for a non-negative announcement target, the aged target lies in [0, 2^256] and is never -1 |
| Difficulty.GetAgedAnnTarget | blockchain/packetcrypt/difficulty/diff.go:96-115 | before the wait period: 0xffffffff; at the wait period: the re-encoded decoded target with no cap; after it: 0xffffffff iff the encoded aged target exceeds 0x207fffff, otherwise that encoding, which is at most 0x207fffff |
| Difficulty.AgingMonotone | blockchain/packetcrypt/difficulty/diff.go:106-109 | as the age grows, the aged work never grows and the aged target never shrinks |
| Difficulty.FirstAgedBlock | blockchain/packetcrypt/difficulty/diff.go:106-109 | one block past the wait period the work is divided by 1, so the target is re-normalised: never smaller, with the same work |
| Difficulty.AgedOut | blockchain/packetcrypt/difficulty/diff.go:107-109 | once the age exceeds the announcement's work, the aged target is 2^256 |
| Difficulty.IsAnnMinDiffOk | blockchain/packetcrypt/difficulty/diff.go:119-125 | true iff the compact value is in (0, 0x20ffffff] and decodes to a magnitude strictly between 0 and 2^256 |
| Difficulty.SaneMinAnnTargetHasWork | blockchain/packetcrypt/difficulty/diff.go:119-125 | a minimum announcement target that passes has work in [1, 2^256), so the effective work requirement takes its "no announcements" path only when the count is 0 |

## Left out

- `CompactToBig` and `BigToCompact` are not part of this model. Their source is in another file, so they are the fields of the `Codec` parameter.
- The codec's sign bit is not modelled. A decoded value may be any integer. Only -1 is excluded, because dividing by `target + 1` at diff.go:25-26 would then divide by zero (a Go panic). A codec that decodes some compact value in (0, 0x20ffffff] to -1 would make `IsAnnMinDiffOk` panic. Its `requires` excludes exactly that.
- The value of `Conf_PacketCrypt_ANN_WAIT_PERIOD` comes from configuration and is the `waitPeriod` parameter.
- `pcutil.Reverse` reverses a slice in place. The model reverses a sequence instead.
- Go `big.Int` allocation and in-place aliasing (`out.Mul(out, out)`) are not modelled; only the values are. The `uint32`-to-`int64` conversion at diff.go:108 cannot change an age below 2^32, so it is not modelled.
- `IsOk` on a slice shorter than 32 bytes: Go's `hash[:32]` can reach past the length into the slice's spare capacity, or panic. The model requires at least 32 bytes.
- GetEffectiveTarget: its contract and the monotonicity lemmas say nothing about the ordering of compact values, because the codec is a parameter. Monotonicity in the announcement count is stated for the magnitude, `EffectiveTargetMagnitude`.
- EffectiveWorkRequirement: for a negative minimum announcement work, which only a codec that decodes negative targets can produce, the contract states nothing beyond the result existing.
- The wire-message tests in `msgalert_test.go` exercise an unrelated protocol message, so they are not modelled.

## Notes on the code

- diff.go:42 takes the "no announcements" path only when the minimum announcement
  *work* is 0 or the count is 0. For a non-negative decoded target, the work is 0 exactly
  when the target is at least 2^256 (`WorkRange`). A small compact value does not take
  this path, since it decodes (under the usual nBits codec) to a small target with
  large work.
- That path returns `BigToCompact(0)`, capped at `0x207fffff`, whatever the header
  target is (`NoAnnouncements`).
- For positive divisors, the order of the two divisions at diff.go:53-56 does not change
  the result: both orders equal one truncating division by the product
  (`EffectiveWorkDivisionOrder`).
- The effective target is not monotone in the count from 0 to 1 announcements: the
  "no announcements" path gives 0, and one announcement can give -1
  (`FirstAnnouncementCanLowerTarget`). From one announcement on it never shrinks
  (`EffectiveTargetMonotoneInCount`).
