# Keccak sponge of the Sha3 class

This project models the `Sha3` class of `src/digests/sha3.ts`. The class is a Keccak
sponge over 50 32-bit words. Word pairs `(s[2k], s[2k + 1])` hold the low and high halves
of the 64-bit lane k. The model covers:

- the constructor's derived constants;
- `reset`, `update`, `finalize` and `digest`;
- `keccakPermutation`;
- the `KECCAK_PADDING`, `SHIFT` and `ROUND_CONSTANTS` tables.

It proves the class against a reference written from FIPS 202 (module `KeccakSpec`):

- Keccak-f[1600] on 25 lanes (sections 3.2 and 3.3);
- pad10*1 with a domain byte (section 5.1 and Appendix B.2);
- sponge absorption and squeezing (section 4).

Modules:

- `Words`: 32/64-bit lane halves, little-endian byte packing and the `SHIFT` table.
- `Arith`: small integer division facts.
- `KeccakSpec`: the FIPS 202 reference.
- `KeccakWords`: the class's 32-bit split permutation, with `ROUND_CONSTANTS` held as
  word halves.
- `KeccakLanes`: the proof that the split permutation is Keccak-f[1600] on lanes.
- `Sha3`: the object's fields as an immutable `Hasher` value, and its methods as
  functions from old to new value. `update`'s loop and `digest`'s copy loops are also
  given as methods with loop invariants.
- `Sponge`: the invariant `Tracks(h, m)`. It says hasher `h` has absorbed the byte
  string `m`: its lanes are the reference sponge's state after the whole blocks of `m`,
  and its staging block holds the rest of `m`, packed little-endian. `update` keeps the
  invariant, an object after `reset` or `digest` has absorbed exactly the next non-empty
  input, and `finalize` and `digest` turn the invariant into the reference hash.

The written `digest` copies output words without permuting between blocks of output.
The squeezing phase of FIPS 202 (section 4, Algorithm 8, steps 7 to 10) applies
Keccak-f between output blocks. The model follows the code: the main digest results
assume at most one block of output (`outputBits >> 3` no more than byteCount), and the difference is listed under Findings.

## Model

| member | source | states |
|---|---|---|
| Sha3.KeccakPaddingDomain | src/digests/sha3.ts:9 | KECCAK_PADDING is the Keccak domain byte 0x01 shifted to each of the four byte positions of a word, in the same way update shifts message bytes |
| Words.Shift | src/digests/sha3.ts:11 | SHIFT: the left shifts that put a byte at byte position 0 .. 3 of a word; Words.PackOrByte states that they give the little-endian packing |
| Words.PackOrByte | src/digests/sha3.ts:92-94 | OR-ing byte x into staged byte i ORs `x << SHIFT[i & 3]` into word `i >> 2` of the little-endian packing and leaves every other word alone |
| KeccakWords.RoundConstantHalves | src/digests/sha3.ts:13-17 | ROUND_CONSTANTS entries 2i and 2i + 1 are the low and high halves of round constant RC[i], as Algorithm 6 of FIPS 202 builds it from the bits rc(t) of the shift register of Algorithm 5 |
| KeccakWords.RoundConstantWord | src/digests/sha3.ts:13-17 | the 48-entry table as the permutation loop reads it; its meaning is stated by KeccakWords.RoundConstantHalves |
| Sha3.RateWordsRange | src/digests/sha3.ts:53 | for bits in -2^30 .. 2^30 - 1, the constructor's `(1600 - (bits << 1)) >> 5` is between 1 and 50 words exactly for bits -15 .. 784, more than the 50-word state holds for -1073741023 .. -16, 0 for bits 785 .. 800 and -1 for 801 .. 816; it makes the staging array length negative from 817 on, and from -1073741024 down, where the subtraction wraps |
| Sha3.NewChecked | src/digests/sha3.ts:50-59 | the corrected constructor accepts only bits -15 .. 784: within -2^30 .. 2^30 - 1 these are exactly the sizes whose rate is between one and 50 whole words, and it refuses every size that wraps; the object it builds is the valid one New builds |
| Sha3.RateWords | src/digests/sha3.ts:53 | `(1600 - (bits << 1)) >> 5` for every integer bits, with ToInt32 applied to `bits << 1` and to the difference, rounded down by the arithmetic shift; its ranges are Sha3.RateWordsRange |
| Sha3.RateWordsExact | src/digests/sha3.ts:53 | for bits -1073741023 .. 2^30 - 1 nothing wraps, and blockCount is 1600 - 2·bits rounded down to whole 32-bit words, negative values included |
| Sha3.RateWordsWrapped | src/digests/sha3.ts:53 | for bits -2^30 .. -1073741024 the difference 1600 - (bits << 1) passes 2^31 - 1 and wraps, so blockCount + 1, the staging array length, is negative |
| Sha3.RateWordsPeriodic | src/digests/sha3.ts:53 | `bits << 1` keeps the low 32 bits of 2·bits, so the block count repeats with period 2^31 in bits |
| Sha3.RateWordsWrapExamples | src/digests/sha3.ts:53 | bits 2^31 + 392 gives the 25 words of bits 392, -2^31 the 50 words of bits 0, and -2^30 the block count -67108814 |
| Sha3.New | src/digests/sha3.ts:50-59 | blockCount is `(1600 - (bits << 1)) >> 5`, for bits -15 .. 784 the number of whole 32-bit words in 1600 - 2·bits bits; byteCount is four times it, outputBlocks and extraBytes are the whole words and leftover whole bytes of outputBits; the new object is cleared and has no byte index |
| Sha3.Reset | src/digests/sha3.ts:64-70 | reset leaves a zero 50-word state, a zero staging block of blockCount + 1 words, block 0, start 0 and the reset flag set; the configuration and lastByteIndex are unchanged |
| Sha3.ResetIdempotent | src/digests/sha3.ts:64-70 | resetting twice is the same as resetting once |
| Sha3.Begin | src/digests/sha3.ts:86-92 | the head of a pass restarts the staging block from the carry word only when the reset flag is set, and otherwise changes nothing |
| Sha3.PutByte | src/digests/sha3.ts:93-95 | one step of the byte loop ORs the byte into word `i >> 2` at `SHIFT[i & 3]` and keeps the block length; its packing meaning is Sponge.PutBytePacks |
| Sha3.EndPass | src/digests/sha3.ts:96-107 | the tail of a pass records lastByteIndex; at a full block it keeps the carry word, XORs the rate words into the state, permutes and sets the reset flag with the cursor at 0; otherwise it only moves the cursor |
| Sha3.AbsorbByte | src/digests/sha3.ts:84-108 | update on a single byte: a pass of one byte; its effect is stated by Sha3.AbsorbByteValid and Sponge.AbsorbByteTracks |
| Sha3.AbsorbByteValid | src/digests/sha3.ts:84-108 | one byte of update keeps the carry word and `_block` at 0 and the cursor in 0 .. byteCount - 1; the reset flag is set exactly at a block boundary; lastByteIndex becomes the old cursor + 1; the cursor advances and wraps to 0 when a block completes; the configuration does not change |
| Sha3.UpdateBytes | src/digests/sha3.ts:76-109 | update on a byte string as the byte-at-a-time fold; Sha3.Update proves the source's pass loop computes it, Sha3.UpdateAppend that it streams, and Sponge.UpdateTracks what it absorbs |
| Sha3.UpdateRangeValid | src/digests/sha3.ts:76-109 | update on any byte string keeps those invariants and the configuration |
| Sha3.UpdateAppend | src/digests/sha3.ts:84-108 | update(a) followed by update(b) leaves the same object as update(a ++ b) |
| Sha3.Update | src/digests/sha3.ts:85-108 | the nested loop of update (restart the block if flagged, OR in bytes until the block is full or the input ends, end the pass) leaves the same object as absorbing the message one byte at a time, and keeps the object valid |
| Sha3.PassBytes | src/digests/sha3.ts:93-95 | the inner byte loop stops at the end of the input or at a full block, whichever comes first, having ORed in exactly the bytes it passed |
| Sha3.PassIsUpdate | src/digests/sha3.ts:85-107 | one whole pass over the bytes that fit in the block leaves the object that absorbing them one at a time leaves |
| Sha3.PassAbsorbs | src/digests/sha3.ts:93-107 | bytes that continue a pass: ORing them all in and ending the pass once is the same as ending the pass after each byte |
| Sha3.PassContinue | src/digests/sha3.ts:92-107 | ending the pass after a byte that leaves the block incomplete, then taking the next byte, gives the same object as taking that byte inside the same pass |
| Sha3.AbsorbByteIgnoresIndex | src/digests/sha3.ts:96 | a byte of update overwrites lastByteIndex, so its previous value has no effect on the result |
| Sha3.UpdateIgnoresIndex | src/digests/sha3.ts:84-108 | after update with a non-empty input, the object does not depend on the lastByteIndex it started with |
| Sha3.DomainBlock | src/digests/sha3.ts:144-151 | finalize's first padding step keeps the staging block length; its meaning is stated by Sponge.DomainBlockPacks |
| Sha3.FinalBlock | src/digests/sha3.ts:152 | finalize's staging block after the final bit; Sponge.FinalBlockBit and Sponge.FinalBlockPacks state what it holds |
| Sha3.XorWords | src/digests/sha3.ts:100-102 | as many state words as there are staged words are XORed with them, and the other state words are unchanged; the same loop is lines 153-155; Sponge.XorPackedBlock states it is S xor (P ‖ 0^c) |
| Sha3.Finalize | src/digests/sha3.ts:143-157 | finalize puts the padded block in the staging block, XORs only its blockCount rate words into the state and permutes once; the cursor, flags and configuration are unchanged |
| Sha3.OutputBytesCount | src/digests/sha3.ts:120-126 | `outputBits >> 3` is 4·outputBlocks + extraBytes and fits in the output words |
| Sha3.CopiedPasses | src/digests/sha3.ts:128-131 | a pass of the copy loop appends the first i state words and leaves i where that pass stopped |
| Sha3.CopyOutput | src/digests/sha3.ts:127-135 | the copy loops produce exactly the output words: repeated passes over the rate words, then the extra word at the index the last pass stopped at |
| Sha3.CopyPass | src/digests/sha3.ts:129-131 | one pass of the inner copy loop appends state words until blockCount of them are copied or outputBlocks are written, leaving j at the next pass start or at the end, and i at Sha3.LastPass |
| Sha3.OutputWords | src/digests/sha3.ts:127-135 | the words digest writes: exactly OutputWordCount of them, computed by Sha3.CopyOutput's loops |
| Sha3.Digest | src/digests/sha3.ts:115-140 | digest returns `outputBits >> 3` bytes and leaves the object cleared, with the configuration and lastByteIndex unchanged |
| Sha3.DigestShortOutput | src/digests/sha3.ts:115-140 | when the output is at most one block (`outputBits >> 3` <= byteCount), the result is the little-endian bytes of the first output words of the finalized state, truncated to `outputBits >> 3` |
| KeccakWords.ThetaWords | src/digests/sha3.ts:167-237 | the column-parity part of the loop body on the 50 words; its meaning on lanes is KeccakLanes.ThetaRefines |
| KeccakWords.RhoPiWords | src/digests/sha3.ts:239-288 | the rotate-and-move part on the 50 words; its meaning on lanes is KeccakLanes.RhoPiRefines |
| KeccakWords.ChiWords | src/digests/sha3.ts:290-339 | the row part on the 50 words; its meaning on lanes is KeccakLanes.ChiRefines |
| KeccakWords.IotaWords | src/digests/sha3.ts:341-342 | the round-constant XOR into words 0 and 1; its meaning on lanes is KeccakLanes.IotaRefines |
| KeccakWords.RoundWords | src/digests/sha3.ts:166-343 | one pass of the permutation loop body, θ, ρ∘π, χ and ι in the source's order; KeccakLanes.RoundRefines states that it is one round Rnd of FIPS 202 |
| KeccakWords.KeccakPermutation | src/digests/sha3.ts:160-344 | keccakPermutation as the 24 passes of the loop; KeccakLanes.KeccakPermutationRefines states that it is Keccak-f[1600] |
| KeccakLanes.ThetaRefines | src/digests/sha3.ts:167-237 | the column-parity part of a pass is θ of FIPS 202 section 3.2.1 on the lanes |
| KeccakLanes.RhoPiRefines | src/digests/sha3.ts:239-288 | the rotate-and-move part of a pass is π after ρ (sections 3.2.2 and 3.2.3) on the lanes |
| KeccakLanes.ChiRefines | src/digests/sha3.ts:290-339 | the row part of a pass is χ (section 3.2.4) on the lanes |
| KeccakLanes.IotaRefines | src/digests/sha3.ts:341-342 | XORing the two round-constant halves into words 0 and 1 is ι (section 3.2.5) on lane 0 |
| KeccakLanes.RoundRefines | src/digests/sha3.ts:166-343 | one pass of the loop body is one Keccak round on the lanes |
| KeccakLanes.KeccakPermutationRefines | src/digests/sha3.ts:160-344 | keccakPermutation is Keccak-f[1600] (24 rounds, section 3.3) on the lanes the 50 words hold |
| Sponge.XorPackedBlock | src/digests/sha3.ts:100-102 | XORing the packed staging words into the first blockCount state words XORs the block's bytes into the rate lanes, and leaves the capacity lanes alone |
| Sponge.PutBytePacks | src/digests/sha3.ts:92-94 | writing a byte at the cursor keeps the staging block equal to the little-endian packing of the pending bytes, and leaves the carry word alone |
| Sponge.NewTracks | src/digests/sha3.ts:50-59 | a new object has absorbed nothing |
| Sponge.AbsorbByteTracks | src/digests/sha3.ts:84-108 | if h has absorbed m, then h after one more byte x has absorbed m ++ [x]: the pending bytes grow inside a block, and a full block is absorbed into the state and permuted |
| Sponge.UpdateTracks | src/digests/sha3.ts:76-109 | if h has absorbed m, then h after update(x) has absorbed m ++ x |
| Sponge.PadSplit | src/digests/sha3.ts:143-152 | pad10*1 of m is the whole blocks of m followed by one last block: the pending bytes, with the domain byte OR-ed in at the cursor and 0x80 OR-ed into the last byte |
| Sponge.DomainBlockPacks | src/digests/sha3.ts:144-151 | OR-ing `padding[lastByteIndex & 3]` into word `lastByteIndex >> 2`, and moving the carry word down after a full block, packs the pending bytes with the domain byte at the cursor, in all three cases: inside a block, just after a full block, and before any byte |
| Sponge.FinalBlockPacks | src/digests/sha3.ts:143-152 | after OR-ing 0x80000000 into the last rate word, the staging block is the packed last block of pad10*1 |
| Sponge.FinalizeAbsorbs | src/digests/sha3.ts:143-157 | after finalize, the lanes are the reference sponge's state after absorbing pad10*1 of everything given to update |
| Sponge.StateBytesWords | src/digests/sha3.ts:127-130 | the little-endian bytes of the 50 state words are the bytes of the 25 lanes in FIPS 202 order |
| Sponge.UpdateAfterClearTracks | src/digests/sha3.ts:64-109 | a cleared object, whatever lastByteIndex it kept, has absorbed exactly x after update(x) for any non-empty x |
| Sponge.UpdateAfterDigestTracks | src/digests/sha3.ts:115-140 | the object digest leaves, given a non-empty x, has absorbed exactly x |
| Sponge.UpdateAfterResetTracks | src/digests/sha3.ts:64-70 | the object reset leaves, given a non-empty x, has absorbed exactly x |
| Sponge.DigestAfterDigest | src/digests/sha3.ts:115-140 | reusing an object after digest: the next digest of a non-empty x (output of at most a block) is the hash of x alone |
| Sponge.DigestIsHash | src/digests/sha3.ts:115-140 | when the output is at most one block (`outputBits >> 3` <= byteCount), digest returns Keccak of everything absorbed, with rate byteCount and the domain byte of the padding table |
| Sponge.DigestOfMessage | src/digests/sha3.ts:50-140 | a new object with KECCAK_PADDING, given msg and asked for at most a block of output, returns Keccak of msg with domain byte 0x01 |
| Sponge.DigestOfParts | src/digests/sha3.ts:76-140 | giving a message in two updates yields the hash of their concatenation |
| Sha3.CopiedWordsCyclic | src/digests/sha3.ts:128-132 | as written, output word w is state word w mod blockCount: the state is never permuted between passes |
| Sha3.ExtraWordMisplaced | src/digests/sha3.ts:133-135 | as written, when outputBlocks > blockCount and the output has a partial word, that word is stored at an index inside the whole words, and the last output word stays 0 |
| Sha3.ExtraWordCapacity | src/digests/sha3.ts:133-134 | as written, when outputBlocks == blockCount and the output has a partial word, that word is state word blockCount, the first capacity word, taken without a permutation |
| Sha3.PassStep | src/digests/sha3.ts:93-107 | one pass of update's outer loop on the cursor and input index, for any byteCount: the index never passes the input length |
| Sha3.StalledPasses | src/digests/sha3.ts:93-107 | with byteCount at most 0 the byte loop never runs, so no number of passes moves the input index |
| Sha3.UpdateNeverEnds | src/digests/sha3.ts:53-54 | as written, for bits 785 .. 816 update on a non-empty input never leaves its outer loop: after any number of passes the index is still 0 |
| Sha3.DigestNeverEnds | src/digests/sha3.ts:128-131 | as written, for bits 785 .. 816 (block count 0 or -1) and outputBits of at least 32, a pass of digest's copy loop copies nothing, so the loop condition stays true |
| Sha3.PassStepAdvances | src/digests/sha3.ts:93-107 | for every valid object, which the corrected constructor guarantees, each pass takes at least one byte and ends where the modelled byte loop ends |
| Sha3.StaleIndexAfterDigest | src/digests/sha3.ts:64-70 | as written, after update with one byte and digest, the next finalize puts the domain byte at byte 1 of an empty block; the intended digest puts it at byte 0 |
| Sha3.ResetFixed | src/digests/sha3.ts:64-70 | reset as intended also forgets lastByteIndex, so the object is cleared with no byte index |
| Sha3.ResetFixedIsNew | src/digests/sha3.ts:64-70 | after the intended reset, the object equals a new one with the same parameters |
| Sha3.DigestSqueeze | src/digests/sha3.ts:115-140 | the intended digest returns outputBits >> 3 bytes and leaves a valid object of the same configuration, cleared as the constructor leaves it, byte index included; its sponge meaning is Sponge.DigestSqueezeIsHash |
| Sponge.DigestSqueezeIsHash | src/digests/sha3.ts:115-140 | the intended digest returns Keccak of everything absorbed for every output length, and leaves an object that has absorbed nothing |
| Sponge.DigestSqueezeAgrees | src/digests/sha3.ts:115-140 | when the output is at most one block, the written and the intended digest return the same bytes |

## Left out

- The `ArrayBuffer` type check and the `CryptoError` it throws in `update` (lines 77-79): they test the dynamic type through an external helper. The model takes a byte sequence.
- Sha3.New: its precondition limits `bits` to the sizes with block counts 1 .. 50 (bits -15 .. 784, and those plus any multiple of 2^31, by Sha3.RateWordsPeriodic), `outputBits` to 0 .. 2^31 - 1, and the padding table to exactly four words. For bits 785 .. 816 the block count is 0 or -1, the allocation succeeds, and update on any non-empty input never returns; digest also never returns once outputBits is at least 32, because finalize's writes outside the staging array are dropped and the copy loop copies nothing. This is a finding, modelled by Sha3.UpdateNeverEnds and Sha3.DigestNeverEnds and corrected by Sha3.NewChecked. Within -2^30 .. 2^30 - 1, the staging array length is negative and the allocation throws from bits 817 on and from -1073741024 down, where the subtraction wraps. For bits -1073741023 .. -16 the block count exceeds 50, and the XOR loops at lines 100-102 and 153-155 run past the 50-word state; this is not modelled. A `bits` that is not an integer, which ToInt32 truncates, is not modelled either. A negative or too large outputBits gives negative counts through the 32-bit shifts of lines 55-56, which is not modelled either. The constructor accepts a padding table of any length, and line 145 reads only `padding[i & 3]`. A shorter table gives undefined there, which ORs in as 0, and a longer one is read only at entries 0 .. 3. The model takes the four entries that are read.
- Sha3.Update: requires a valid object, which every object the corrected constructor builds is, and which update itself keeps. Objects with no whole word of rate are covered only by the pass model of the findings (Sha3.PassStep).
- The class's typed arrays and in-place mutation are modelled as an immutable value. Each method becomes a function from the old object to the new one. `update`'s byte loop and `digest`'s copy loops are also modelled as methods with loop invariants.
- The platform's byte order: the output buffer is read through a `Uint32Array` view, and the model assumes a little-endian platform.
- Sponge.DigestIsHash: holds only when the output is at most one block (`outputBits >> 3` no more than byteCount, that is, OutputWordCount at most blockCount). For longer outputs the written digest does not squeeze (see Findings). Sponge.DigestAfterDigest, Sponge.DigestOfMessage and Sponge.DigestOfParts carry the same bound.
- The ISS module, the sponge factory and their tests (`test/hash/iss.spec.ts`, `test/factories/spongeFactory.spec.ts`): their implementations are not part of this model. The trit/byte conversions their fixtures need are missing as well.
- The concrete test vectors: checking them would mean evaluating many permutation rounds inside the verifier.
- `dist/digests/sha3.d.ts`: a generated declaration file with no logic.
- Security properties of Keccak: only functional equivalence, shape and frame properties are stated.

## Findings

| source | as written | input that shows it | evidently intended | confidence | as-written member | corrected member |
|---|---|---|---|---|---|---|
| src/digests/sha3.ts:64-70 | `reset` (and so `digest`) leaves `_lastByteIndex` as it was, and `finalize` (line 144) pads at that stale index | `new Sha3(512, KECCAK_PADDING, 256)`, `update([0x41])`, `digest()`, `digest()`: the second finalize ORs 0x100 into word 0, not 1, although nothing was absorbed | reset forgets the byte index, so the second digest is the hash of the empty message | high; not executed | Sha3.StaleIndexAfterDigest | Sponge.DigestSqueezeIsHash |
| src/digests/sha3.ts:128-132 | the copy loop takes words 0 .. blockCount - 1 again for each further pass, without permuting the state | any `outputBits` with outputBits / 32 > blockCount (and, through the next rows, outputBits / 32 == blockCount with a partial word), e.g. `new Sha3(784, KECCAK_PADDING, 64)`: blockCount is 1, and output word 1 repeats word 0 | squeeze (FIPS 202 section 4): permute between blocks of output | medium; not executed | Sha3.CopiedWordsCyclic | Sponge.DigestSqueezeIsHash |
| src/digests/sha3.ts:133-135 | the trailing partial word is written at `array[i]`, where i is where the last pass stopped | `new Sha3(736, KECCAK_PADDING, 168)`: blockCount 4, outputBlocks 5, extraBytes 1; i is 1, so the last output byte is always 0 | the partial word goes at index outputBlocks | medium; not executed | Sha3.ExtraWordMisplaced | Sponge.DigestSqueezeIsHash |
| src/digests/sha3.ts:133-134 | when outputBlocks == blockCount and the output has a partial word, that word is read from `state[blockCount]`, the first capacity word, without a permutation | `new Sha3(512, KECCAK_PADDING, 584)`: blockCount 18, outputBlocks 18, extraBytes 1; the last output byte is the low byte of capacity word 18 | the partial word is the first word of the next squeezed block: permute, then take word 0 | medium; not executed | Sha3.ExtraWordCapacity | Sponge.DigestSqueezeIsHash |
| src/digests/sha3.ts:53-54 | the block count `(1600 - (bits << 1)) >> 5` is not checked; for bits 785 .. 816 it is 0 or -1, the byte loop at line 93 never runs, and update's outer loop never advances its index | `new Sha3(800, KECCAK_PADDING, 256)` and then `update` with one byte: the loop at lines 85-108 never returns (`digest` also spins at lines 128-131 for block count 0 or -1) | the constructor refuses a bit size that leaves no whole word of rate | medium; not executed | Sha3.UpdateNeverEnds | Sha3.NewChecked |
