# Verified model of a cryptography course library

This project models, in Dafny, the core of a Java teaching library for symmetric and
asymmetric cryptography, and proves properties of that model:

- **Bit permutation and DES**: the general bit permutation with its indexing and bit-order
  options, the DES key schedule, cipher function and S-box lookup, and DES itself.
- **Feistel and DEAL**: the generic Feistel network with its key-schedule and round-function
  collaborators, the simple key schedule, and DEAL (a Feistel network whose round function is
  a whole DES encryption, through an adapter) with its key schedule.
- **Modes, padding and the cipher context**: the cipher modes ECB, CBC, PCBC, CFB, OFB, CTR
  and RANDOM_DELTA over any block cipher; the paddings ZEROS, ANSI X9.23, PKCS#7 and
  ISO 10126; and the cipher context that pads, splits, runs a mode and merges.
- **Finite fields and Rijndael**: both GF(2⁸) services (field arithmetic modulo x⁸ + modulus,
  the irreducibility tests, the listing of irreducible moduli, inverses and factorisation) and
  Rijndael for 128/192/256-bit blocks and keys over any modulus. Rijndael covers its S-box
  construction, key expansion and the cipher and inverse cipher on a 4 × Nb state.
- **Number theory and RSA**: Legendre and Jacobi symbols, gcd, extended gcd and modular
  exponentiation; the Fermat, Solovay–Strassen and Miller–Rabin tests; RSA encryption and key
  generation; Wiener's continued-fraction attack; and the generator of Wiener-vulnerable keys.

Java exceptions are `Result` errors carrying the source's messages. Byte arrays are
sequences of `bv8` in the symmetric part. Field elements are bytes held as naturals below
256, and polynomials over GF(2) are naturals read as bit vectors. Objects whose fields the
code updates (the Feistel cipher, DES, DEAL, the toy cipher, Rijndael) are classes. Everything
the code computes without mutation is a function. Each loop of the source is a method proved
against such a function.

Main results:
- Decryption undoes encryption for DES, DEAL, the Feistel network and Rijndael (any block
  and key size, any modulus).
- Each chaining mode and each unpad undoes its counterpart, and so does the whole cipher
  context.
- The MixColumns matrices are inverse to each other for every modulus.
- The gcd loops return the greatest common divisor, and extended gcd satisfies Bézout's
  identity. `modPow` computes bᵉ mod m.
- The Jacobi symbol is 0 exactly for non-coprime arguments.
- A witness sharing a factor with n fails every primality round.
- Continued-fraction convergents are in lowest terms and end on e/n.
- The Wiener attack breaks the example key (17993, 90581) with d = 5.

## Model

The Feistel rows cite the lines of `lab1/task3-feistel/test/FeistelCipherTest.java` that exercise each member. The lines of `FeistelCipher.java` in `lab1/cipher-framework (2-nd task)/src` that the member models are given at the end of its states cell.

| member | source | states |
|---|---|---|
| BitPermutation.MinBytes | lab1/bit-permutation/src/BitPermutation.java:81-83 | the byte count r is the least with 8·r ≥ bits (8·r < bits + 8) |
| BitPermutation.MinBytesOfWholeBytes | lab1/bit-permutation/src/BitPermutation.java:81-83 | a whole number of bytes needs exactly that many bytes |
| BitPermutation.BitPos | lab1/bit-permutation/src/BitPermutation.java:89-94 | the bit position is i mod 8 under NORMAL and 7 − i mod 8 under INVERTED |
| BitPermutation.GetBit | lab1/bit-permutation/src/BitPermutation.java:88-97 | the value read is always 0 or 1 |
| BitPermutation.DistinctPositions | lab1/bit-permutation/src/BitPermutation.java:89-94 | two different bit indices in the same byte address different bit positions |
| BitPermutation.BitsDetermineBytes | lab1/bit-permutation/src/BitPermutation.java:88-97 | two equal-length buffers that agree on every bit are equal |
| BitPermutation.SetBit | lab1/bit-permutation/src/BitPermutation.java:102-115 | setting a bit keeps the buffer length |
| BitPermutation.SetBitEffect | lab1/bit-permutation/src/BitPermutation.java:102-115 | afterwards the addressed bit reads 1 exactly when value is 1, and every other bit is unchanged |
| BitPermutation.SetBitAt | lab1/bit-permutation/src/BitPermutation.java:102-115 | pointwise form: getBit after setBit returns the written value at the index and the old bit elsewhere |
| BitPermutation.SetBitInPlace | lab1/bit-permutation/src/BitPermutation.java:102-115 | the in-place `|=`/`&=` update leaves the array equal to SetBit of its old contents |
| BitPermutation.IsZeroIndexed | lab1/bit-permutation/src/BitPermutation.java:69-76 | the scan returns true exactly when the table contains 0 |
| BitPermutation.Scatter | lab1/bit-permutation/src/BitPermutation.java:41-61 | the zero-initialised result always has ceil(|pBlock|/8) bytes |
| BitPermutation.ScatterBits | lab1/bit-permutation/src/BitPermutation.java:45-61 | after n iterations output bit k < n is input bit pBlock[k]+offset, and every bit from n up to the end of the last byte is 0 |
| BitPermutation.ScatterSelected | lab1/bit-permutation/src/BitPermutation.java:56-60 | a bit written at iteration k survives every later iteration |
| BitPermutation.ScatterLast | lab1/bit-permutation/src/BitPermutation.java:56-60 | the bit written by the last iteration holds the selected input bit |
| BitPermutation.ScatterKeeps | lab1/bit-permutation/src/BitPermutation.java:60 | an iteration changes no output bit other than its own index |
| BitPermutation.ScatterPadding | lab1/bit-permutation/src/BitPermutation.java:41-61 | bits not yet written, including the unused tail of the last byte, stay 0 |
| BitPermutation.Permute | lab1/bit-permutation/src/BitPermutation.java:18-64 | succeeds exactly when data and P-block are non-empty and every resolved position lies in [0, 8·|data|); the result has ceil(|pBlock|/8) bytes; empty data, then an empty P-block, fail with the source's two messages; otherwise the failure is the out-of-range message naming the first failing idx and its entry pBlock[idx], after an in-range prefix |
| BitPermutation.FirstOutside | lab1/bit-permutation/src/BitPermutation.java:45-54 | the loop's first entry (from a start index) whose resolved position is outside the data, every entry before it being in range |
| BitPermutation.FirstOutsideIs | lab1/bit-permutation/src/BitPermutation.java:45-54 | an out-of-range entry after an in-range prefix is the one the loop reports |
| BitPermutation.PermuteBits | lab1/bit-permutation/src/BitPermutation.java:45-61 | output bit k is input bit pBlock[k]+offset under the chosen addressing, and tail bits past |pBlock| are 0 |
| BitPermutation.PermuteBitAt | lab1/bit-permutation/src/BitPermutation.java:56-60 | pointwise form of the selection property for one index k |
| BitPermutation.PermutePaddingAt | lab1/bit-permutation/src/BitPermutation.java:41-61 | pointwise form: a tail bit of the last output byte is 0 |
| BitPermutation.PermutateBits | lab1/bit-permutation/src/BitPermutation.java:18-64 | the loop over a zeroed array, with the null/empty checks, the −1 offset rule and the range check, returns exactly Permute, error messages included |
| BitPermutation.FillResult | lab1/bit-permutation/src/BitPermutation.java:41-61 | the filling loop either returns the scattered bits, or, when some resolved position is outside the data, the out-of-range error formatted with the first such idx and pBlock[idx] |
| BitPermutation.IdentityTable | lab1/task1-bit-permutation/test/BitPermutationStressTest.java:137-151 | the table has n entries with entry k equal to k + base |
| BitPermutation.PermuteIdentity | lab1/task1-bit-permutation/test/BitPermutationStressTest.java:137-151 | the 0-based or 1-based identity table of length 8·|data| returns data unchanged, in both addressing modes |
| BitPermutation.PermuteInverse | lab1/task1-bit-permutation/test/BitPermutationStressTest.java:370-388 | permuting by T and then by a table that undoes T restores the input |
| BitPermutation.OneBasedIsShiftedZeroBased | lab1/task1-bit-permutation/test/BitPermutationStressTest.java:457-495 | a table without 0 read as 1-based succeeds exactly when the table shifted down by one, read as 0-based, does, with the same bytes; on the out-of-range error both report the same idx, each with its own entry as written |
| BitPermutation.ShiftedDown | lab1/task1-bit-permutation/test/BitPermutationStressTest.java:457-495 | every entry of the shifted table is one less than the original entry |
| BitPermutation.SameSelectionSameBytes | lab1/task1-bit-permutation/test/BitPermutationStressTest.java:457-495 | two successful permutations that select the same input bits produce the same bytes |
| Bytes.Xor | lab1/task4-des/src/DESRoundFunction.java:40-46 | the result has |a| bytes and byte i is a[i] ⊕ b[i] |
| Bytes.XorCancel | lab1/task2-interfaces/src/DummyCipher.java:22-26 | xoring twice with the same bytes restores the input |
| Bytes.XorCommutes | lab1/task4-des/src/DESRoundFunction.java:40-46 | xor of two equal-length buffers does not depend on their order |
| Bytes.XorLoop | lab1/task4-des/src/DESRoundFunction.java:40-46 | the filling loop returns exactly Xor(a, b) |
| DesBitPermutation.PermutateBits | lab1/task4-des/src/BitPermutation.java:5-83 | the DES copy returns the same result as the other copy on every input, so it succeeds exactly on non-empty, in-range inputs, yields ceil(|pBlock|/8) bytes and fails with the same messages as lines 12-35 |
| DesTables.OneBasedAccepted | lab1/task4-des/src/DESRoundFunction.java:14-32 | a 1-based DES table naming bits of the data is auto-detected with offset −1, is accepted, and yields ceil(|t|/8) bytes |
| DesRoundFunction.GroupBit | lab1/task4-des/src/DESRoundFunction.java:52-59 | bit k of S-box group i (input bit 6i+k, MSB-first) is 0 or 1 |
| DesRoundFunction.Row | lab1/task4-des/src/DESRoundFunction.java:61 | the row (b1<<1)|b6 lies in [0, 4) |
| DesRoundFunction.Column | lab1/task4-des/src/DESRoundFunction.java:62 | the column b2b3b4b5 lies in [0, 16) |
| DesRoundFunction.SBoxValue | lab1/task4-des/src/DESRoundFunction.java:64 | the S-box entry selected by row and column is a 4-bit value |
| DesRoundFunction.NibbleBit | lab1/task4-des/src/DESRoundFunction.java:67-70 | the j-th bit, MSB-first, of the 4-bit value is 0 or 1 |
| DesRoundFunction.NibbleWrites | lab1/task4-des/src/DESRoundFunction.java:66-70 | writing group i's bits keeps the 4-byte output length |
| DesRoundFunction.SBoxValues | lab1/task4-des/src/DESRoundFunction.java:51-64 | there are 8 values, the i-th being S_i at group i's row and column |
| DesRoundFunction.WriteNibbles | lab1/task4-des/src/DESRoundFunction.java:49-71 | the output buffer stays 4 bytes while groups are written |
| DesRoundFunction.ApplySBoxes | lab1/task4-des/src/DESRoundFunction.java:48-74 | applySBoxes always returns 4 bytes |
| DesRoundFunction.NibbleWritesStep | lab1/task4-des/src/DESRoundFunction.java:67-70 | each setBit call writes the next nibble bit at 4i+k |
| DesRoundFunction.NibbleWritesFour | lab1/task4-des/src/DESRoundFunction.java:67-70 | the four straight-line setBit calls equal writing the whole nibble |
| DesRoundFunction.NibbleWriteSets | lab1/task4-des/src/DESRoundFunction.java:82-91 | the bit written reads back as the nibble bit |
| DesRoundFunction.NibbleWriteKeeps | lab1/task4-des/src/DESRoundFunction.java:82-91 | a setBit leaves every other output bit unchanged |
| DesRoundFunction.NibbleWritesKeep | lab1/task4-des/src/DESRoundFunction.java:66-70 | writing group i changes no bit outside 4i..4i+3 |
| DesRoundFunction.NibbleWritesSet | lab1/task4-des/src/DESRoundFunction.java:66-70 | after the nibble is written, bit 4i+j is the j-th bit of S_i's value |
| DesRoundFunction.WriteNibblesIn | lab1/task4-des/src/DESRoundFunction.java:51-71 | after n groups, bit 4g+j of every written group g holds bit j of its S-box value |
| DesRoundFunction.WriteNibblesLast | lab1/task4-des/src/DESRoundFunction.java:66-70 | the group written last holds its S-box value bits |
| DesRoundFunction.WriteNibblesLater | lab1/task4-des/src/DESRoundFunction.java:51-71 | later groups do not disturb the bits of an earlier group |
| DesRoundFunction.SBoxOutputBits | lab1/task4-des/src/DESRoundFunction.java:64-73 | output bits 4i..4i+3 hold S_i's 4-bit value MSB-first |
| DesRoundFunction.SBoxOutputLocal | lab1/task4-des/src/DESRoundFunction.java:52-70 | output bits 4i..4i+3 depend only on input bits 6i..6i+5 |
| DesRoundFunction.Expanded | lab1/task4-des/src/DESRoundFunction.java:14-19 | the E expansion of a 4-byte half is 6 bytes |
| DesRoundFunction.ExpandedBit | lab1/task4-des/src/DESRoundFunction.java:14-19 | expanded bit m is block bit E[m]−1, MSB-first |
| DesRoundFunction.Substituted | lab1/task4-des/src/DESRoundFunction.java:21-23 | S(E(R) ⊕ K) is 4 bytes |
| DesRoundFunction.F | lab1/task4-des/src/DESRoundFunction.java:6-33 | succeeds exactly on a 4-byte block with a 6-byte round key, with the two source error messages in that order, and returns 4 bytes |
| DesRoundFunction.FBit | lab1/task4-des/src/DESRoundFunction.java:25-30 | result bit k is bit P[k]−1 of S(E(R) ⊕ K), so the result is P(S(E(R) ⊕ K)) |
| DesRoundFunction.ApplySBoxesLoop | lab1/task4-des/src/DESRoundFunction.java:48-74 | the 8-iteration loop over a zeroed 4-byte array returns ApplySBoxes |
| DesRoundFunction.WriteNibbleInPlace | lab1/task4-des/src/DESRoundFunction.java:66-70 | the four in-place setBit calls leave the array equal to the nibble write of its old contents |
| DesRoundFunction.EncryptBlock | lab1/task4-des/src/DESRoundFunction.java:6-33 | the straight-line composition returns F(block, roundKey) |
| DesRoundFunction.DecryptBlock | lab1/task4-des/src/DESRoundFunction.java:36-38 | decryptBlock returns the same result as encryptBlock |
| DesKeySchedule.BitAt | lab1/task5-file-encryption-demo/lib-src/DESKeySchedule.java:64-66 | an MSB-first bit read is 0 or 1 |
| DesKeySchedule.GetBit | lab1/task5-file-encryption-demo/lib-src/DESKeySchedule.java:60-67 | getBit returns 0 for an index ≥ totalBits and the addressed MSB-first bit otherwise |
| DesKeySchedule.SetBit | lab1/task5-file-encryption-demo/lib-src/DESKeySchedule.java:69-81 | setBit keeps the buffer length |
| DesKeySchedule.SetBitEffect | lab1/task5-file-encryption-demo/lib-src/DESKeySchedule.java:69-81 | only bit i changes, to the written value, and only when i < totalBits; at or past totalBits it is a no-op |
| DesKeySchedule.ShiftDown | lab1/task5-file-encryption-demo/lib-src/DESKeySchedule.java:49-52 | moving bits down one place keeps the buffer length |
| DesKeySchedule.RotateOnce | lab1/task5-file-encryption-demo/lib-src/DESKeySchedule.java:47-54 | one rotation step keeps the buffer length |
| DesKeySchedule.LeftShift | lab1/task5-file-encryption-demo/lib-src/DESKeySchedule.java:43-58 | leftShift returns a buffer of the input length |
| DesKeySchedule.ShiftDownCopies | lab1/task5-file-encryption-demo/lib-src/DESKeySchedule.java:49-52 | the inner-loop step at q copies bit q+1 into bit q |
| DesKeySchedule.ShiftDownKeeps | lab1/task5-file-encryption-demo/lib-src/DESKeySchedule.java:49-52 | an inner-loop step changes only its own bit |
| DesKeySchedule.ShiftDownBit | lab1/task5-file-encryption-demo/lib-src/DESKeySchedule.java:49-52 | after n inner steps bits below n hold their upper neighbour and the rest are untouched |
| DesKeySchedule.ShiftDownBelow | lab1/task5-file-encryption-demo/lib-src/DESKeySchedule.java:49-52 | a bit below n holds the old bit above it |
| DesKeySchedule.ShiftDownLater | lab1/task5-file-encryption-demo/lib-src/DESKeySchedule.java:49-52 | later inner steps do not change a bit already shifted |
| DesKeySchedule.ShiftDownAbove | lab1/task5-file-encryption-demo/lib-src/DESKeySchedule.java:49-52 | bits at or above n are still the original ones |
| DesKeySchedule.RotateOnceBit | lab1/task5-file-encryption-demo/lib-src/DESKeySchedule.java:47-54 | one rotation moves bit q+1 to q, wraps bit 0 to totalBits−1, and leaves bits ≥ totalBits alone |
| DesKeySchedule.NextBitMod | lab1/task5-file-encryption-demo/lib-src/DESKeySchedule.java:46-55 | one step followed by s−1 more rotates a 28-bit index by s |
| DesKeySchedule.LeftShiftBitLow | lab1/task5-file-encryption-demo/lib-src/DESKeySchedule.java:43-58 | leftShift(data, s, 28) cyclically rotates the first 28 bits left by s |
| DesKeySchedule.LeftShiftBitHigh | lab1/task5-file-encryption-demo/lib-src/DESKeySchedule.java:43-58 | leftShift leaves bits ≥ 28 untouched |
| DesKeySchedule.LeftShiftAdd | lab1/task5-file-encryption-demo/lib-src/DESKeySchedule.java:26-29 | shifting by a and then by b equals shifting by a+b |
| DesKeySchedule.WholeTurns | lab1/task5-file-encryption-demo/lib-src/DESKeySchedule.java:43-58 | a multiple of 28 does not move a 28-bit index |
| DesKeySchedule.FullTurnBit | lab1/task5-file-encryption-demo/lib-src/DESKeySchedule.java:43-58 | a rotation by a multiple of 28 leaves every bit in place |
| DesKeySchedule.LeftShiftFullTurn | lab1/task5-file-encryption-demo/lib-src/DESKeySchedule.java:43-58 | rotating a half by a total of 28 (or any multiple) returns it unchanged |
| DesKeySchedule.CopyBits | lab1/task5-file-encryption-demo/lib-src/DESKeySchedule.java:88-96 | the copy loops keep the result length |
| DesKeySchedule.Concatenate | lab1/task5-file-encryption-demo/lib-src/DESKeySchedule.java:83-99 | concatenate returns ceil(2h/8) bytes, 7 for h = 28 |
| DesKeySchedule.CopyBitsStep | lab1/task5-file-encryption-demo/lib-src/DESKeySchedule.java:88-96 | one copy iteration writes only destination bit offset+n−1 |
| DesKeySchedule.CopyBitsBit | lab1/task5-file-encryption-demo/lib-src/DESKeySchedule.java:88-96 | after n iterations bits offset..offset+n−1 hold source bits 0..n−1 and the others are unchanged |
| DesKeySchedule.ConcatenateBit | lab1/task5-file-encryption-demo/lib-src/DESKeySchedule.java:83-99 | bits 0..h−1 are C's first h bits and bits h..2h−1 are D's first h bits |
| DesKeySchedule.Rotated | lab1/task5-file-encryption-demo/lib-src/DESKeySchedule.java:26-28 | a half rotated round by round stays 4 bytes |
| DesKeySchedule.RotatedByTotal | lab1/task5-file-encryption-demo/lib-src/DESKeySchedule.java:26-29 | after n rounds a half equals one rotation by SHIFTS[0]+…+SHIFTS[n−1] |
| DesKeySchedule.PermutedKey | lab1/task5-file-encryption-demo/lib-src/DESKeySchedule.java:11-16 | PC-1 of an 8-byte key is 7 bytes |
| DesKeySchedule.InitialC | lab1/task5-file-encryption-demo/lib-src/DESKeySchedule.java:18-21 | C is a 4-byte buffer |
| DesKeySchedule.InitialD | lab1/task5-file-encryption-demo/lib-src/DESKeySchedule.java:18-22 | D is a 4-byte buffer |
| DesKeySchedule.RoundKey | lab1/task5-file-encryption-demo/lib-src/DESKeySchedule.java:27-37 | each round key is 6 bytes |
| DesKeySchedule.ExpandKey | lab1/task5-file-encryption-demo/lib-src/DESKeySchedule.java:6-41 | succeeds exactly for an 8-byte key, failing with "DES key must be 8 bytes" otherwise, and returns 16 round keys of 6 bytes |
| DesKeySchedule.PermutedKeyBit | lab1/task5-file-encryption-demo/lib-src/DESKeySchedule.java:11-16 | bit m of the permuted key is key bit PC1[m]−1 |
| DesKeySchedule.InitialHalvesBits | lab1/task5-file-encryption-demo/lib-src/DESKeySchedule.java:18-22 | C holds PC-1 bits 0–23 with bits 24–27 zero; D holds PC-1 bits 24–51 |
| DesKeySchedule.RoundKeyBits | lab1/task5-file-encryption-demo/lib-src/DESKeySchedule.java:26-37 | bit k of round key i is bit PC2[k]−1 of C‖D, each half rotated by SHIFTS[0]+…+SHIFTS[i] |
| DesKeySchedule.HalvesBit | lab1/task5-file-encryption-demo/lib-src/DESKeySchedule.java:26-30 | bit q of C‖D after n rounds is the original half's bit rotated by the running total |
| DesKeySchedule.RoundKeyPc2 | lab1/task5-file-encryption-demo/lib-src/DESKeySchedule.java:30-37 | each round key is PC-2 of the 56-bit C‖D of that round |
| DesKeySchedule.RotatedBit | lab1/task5-file-encryption-demo/lib-src/DESKeySchedule.java:26-29 | bit q of a half after n rounds is its original bit (q + total) mod 28 |
| DesKeySchedule.RoundKeyBit | lab1/task5-file-encryption-demo/lib-src/DESKeySchedule.java:6-41 | in terms of the key: bit k of round key i is the initial C or D bit PC2[k]−1 rotated by the running shift total |
| DesKeySchedule.SetBitInPlace | lab1/task5-file-encryption-demo/lib-src/DESKeySchedule.java:69-81 | the in-place update leaves the array equal to SetBit of its old contents |
| DesKeySchedule.LeftShiftLoop | lab1/task5-file-encryption-demo/lib-src/DESKeySchedule.java:43-58 | the nested loops on a copy return LeftShift |
| DesKeySchedule.RotateInPlace | lab1/task5-file-encryption-demo/lib-src/DESKeySchedule.java:47-54 | one outer-loop iteration in place performs RotateOnce |
| DesKeySchedule.ConcatenateLoop | lab1/task5-file-encryption-demo/lib-src/DESKeySchedule.java:83-99 | the two copy loops return Concatenate |
| DesKeySchedule.CopyLoop | lab1/task5-file-encryption-demo/lib-src/DESKeySchedule.java:88-96 | one copy loop in place performs CopyBits |
| DesKeySchedule.ExpandKeyLoop | lab1/task5-file-encryption-demo/lib-src/DESKeySchedule.java:6-41 | the method with its 16-iteration loop returns ExpandKey |
| DesKeySchedule.RoundLoop | lab1/task5-file-encryption-demo/lib-src/DESKeySchedule.java:24-40 | the loop yields 16 keys, key i being RoundKey(i) |
| DesKeySchedule.Round | lab1/task5-file-encryption-demo/lib-src/DESKeySchedule.java:27-37 | one loop iteration advances both halves by one round and emits that round's key |
| Feistel.XorBytes | lab1/task3-feistel/test/FeistelCipherTest.java:39-72 | succeeds exactly for equal lengths, with byte i equal to a[i] ⊕ b[i]; otherwise fails with "Arrays must have equal length" (FeistelCipher.java of the cipher framework, lines 110-119) |
| Feistel.Forward | lab1/task3-feistel/test/FeistelCipherTest.java:74-107 | the rounds, when they succeed, keep both halves at the half-block length (FeistelCipher.java of the cipher framework, lines 56-63) |
| Feistel.Backward | lab1/task3-feistel/test/FeistelCipherTest.java:74-107 | the rounds replayed with the keys in reverse order keep both halves at the half-block length (FeistelCipher.java of the cipher framework, lines 56-63) |
| Feistel.FeistelEncrypt | lab1/task3-feistel/test/FeistelCipherTest.java:189-251 | fails with IllegalState when no key is set and with the even-size error on an odd block; a result has the block's length (FeistelCipher.java of the cipher framework, lines 36-70) |
| Feistel.FeistelDecrypt | lab1/task3-feistel/test/FeistelCipherTest.java:39-72 | the intended decryption: the same guards and messages as decrypt, and a result of the block's length (FeistelCipher.java of the cipher framework, lines 72-108) |
| Feistel.BackwardLastRound | lab1/task3-feistel/test/FeistelCipherTest.java:74-107 | running the keys backwards is the backward run over the later keys followed by the round with the first key (FeistelCipher.java of the cipher framework, lines 92-101) |
| Feistel.RoundUndone | lab1/task3-feistel/test/FeistelCipherTest.java:74-107 | one round applied to the swapped output, with the same key, gives back the swapped input (FeistelCipher.java of the cipher framework, lines 57-62) |
| Feistel.BackwardUndoesForward | lab1/task3-feistel/test/FeistelCipherTest.java:74-107 | the backward rounds on the swapped output of the forward rounds give back the swapped input (FeistelCipher.java of the cipher framework, lines 56-63) |
| Feistel.RoundTrip | lab1/task3-feistel/test/FeistelCipherTest.java:82-134 | whenever encryption succeeds, the intended decryption under the same key returns the original block |
| Feistel.FrameworkBackward | lab1/task3-feistel/test/FeistelCipherTest.java:74-107 | the loop as written keeps both halves at the half-block length (FeistelCipher.java of the cipher framework, lines 92-101) |
| Feistel.FrameworkDecrypt | lab1/task3-feistel/test/FeistelCipherTest.java:39-72 | decrypt as written: IllegalState without a key, and a result of the block's length (FeistelCipher.java of the cipher framework, lines 72-108) |
| Feistel.FrameworkDecryptBreaksRoundTrip | lab1/task3-feistel/test/FeistelCipherTest.java:50-57 | one round whose function echoes its half: encrypt maps [1,0] to [1,0], but decrypt as written maps it to [1,1], not back to [1,0] (FeistelCipher.java of the cipher framework, lines 92-105) |
| Feistel.FeistelCipher.constructor | lab1/task3-feistel/test/FeistelCipherTest.java:42-44 | the cipher keeps its key schedule and round function and starts with neither key set (FeistelCipher.java of the cipher framework, lines 9-18) |
| Feistel.FeistelCipher.SetEncryptionKey | lab1/task3-feistel/test/FeistelCipherTest.java:46-47 | stores the key and leaves the decryption key as it was (FeistelCipher.java of the cipher framework, lines 20-26) |
| Feistel.FeistelCipher.SetDecryptionKey | lab1/task3-feistel/test/FeistelCipherTest.java:46-48 | stores the key and leaves the encryption key as it was (FeistelCipher.java of the cipher framework, lines 28-34) |
| Feistel.FeistelCipher.Encrypt | lab1/task3-feistel/test/FeistelCipherTest.java:50-51 | the loop over the round keys computes FeistelEncrypt under the stored encryption key (FeistelCipher.java of the cipher framework, lines 36-70) |
| Feistel.FeistelCipher.Decrypt | lab1/task3-feistel/test/FeistelCipherTest.java:50-57 | the loop over the round keys in reverse computes the intended FeistelDecrypt under the stored decryption key (FeistelCipher.java of the cipher framework, lines 72-108) |
| Des.Ip | lab1/task4-des/src/DES.java:34-39 | IP of an 8-byte block is 8 bytes |
| Des.IpInv | lab1/task4-des/src/DES.java:43-48 | IP⁻¹ of an 8-byte block is 8 bytes |
| Des.IpInverse | lab1/task4-des/test/DESTest.java:42-61 | when the IP and IP⁻¹ tables undo each other, IP⁻¹∘IP and IP∘IP⁻¹ are the identity on 8-byte blocks |
| Des.DesEncrypt | lab1/task4-des/src/DES.java:28-51 | a block that is not 8 bytes fails with the block error, a missing key with IllegalState, and a result is 8 bytes |
| Des.DesDecrypt | lab1/task4-des/src/DES.java:53-76 | the same guards as encrypt, and a result is 8 bytes |
| Des.ForwardDefined | lab1/task4-des/src/DES.java:41 | the Feistel rounds with DES's round function never fail on 4-byte halves and 6-byte keys |
| Des.BackwardDefined | lab1/task4-des/src/DES.java:66 | the reversed rounds never fail on 4-byte halves and 6-byte keys |
| Des.ScheduleDefined | lab1/task5-file-encryption-demo/lib-src/DESKeySchedule.java:6-41 | an 8-byte key always yields 6-byte round keys |
| Des.EncryptDefined | lab1/task4-des/src/DES.java:28-51 | encryption of an 8-byte block under an 8-byte key always succeeds |
| Des.DecryptDefined | lab1/task4-des/src/DES.java:53-76 | decryption of an 8-byte block under an 8-byte key always succeeds |
| Des.RoundTrip | lab1/task4-des/test/DESTest.java:42-61 | with IP⁻¹ inverse to IP, decrypt(encrypt(b)) = b for every 8-byte block and key |
| Des.Des.constructor | lab1/task4-des/src/DES.java:6-10 | a new DES owns a fresh Feistel cipher over the DES key schedule and round function, with no key set |
| Des.Des.SetEncryptionKey | lab1/task4-des/src/DES.java:12-18 | an 8-byte key is stored as the encryption key; any other length fails with the 8-byte message and changes nothing; the decryption key is never touched |
| Des.Des.SetDecryptionKey | lab1/task4-des/src/DES.java:20-26 | an 8-byte key is stored as the decryption key; any other length fails and changes nothing; the encryption key is never touched |
| Des.Des.Encrypt | lab1/task4-des/src/DES.java:28-51 | returns IP⁻¹(Feistel encrypt(IP(b))), which succeeds once a key is set and the block is 8 bytes |
| Des.Des.Decrypt | lab1/task4-des/src/DES.java:53-76 | returns IP⁻¹(Feistel decrypt(IP(b))), which succeeds once a key is set and the block is 8 bytes |
| SimpleKeySchedule.Create | lab1/task3-feistel/src/SimpleKeySchedule.java:6-11 | succeeds exactly for a positive round count, which it keeps; otherwise fails with "Number of rounds must be positive" |
| SimpleKeySchedule.RoundKey | lab1/task3-feistel/src/SimpleKeySchedule.java:22-25 | round key i has the master key's length |
| SimpleKeySchedule.ExpandKey | lab1/task3-feistel/src/SimpleKeySchedule.java:14-29 | succeeds exactly for a non-empty key (else "Key cannot be null or empty") and returns `rounds` keys, each |key| bytes long |
| SimpleKeySchedule.RoundKeyBytes | lab1/task3-feistel/src/SimpleKeySchedule.java:24 | roundKeys[i][j] = key[j] ⊕ ((i+1) mod 256) |
| SimpleKeySchedule.RoundKeyUndone | lab1/task3-feistel/src/SimpleKeySchedule.java:24 | xoring round key i with its constant gives back the master key, so the key itself is recoverable and unchanged |
| SimpleKeySchedule.RoundKeysDiffer | lab1/task3-feistel/src/SimpleKeySchedule.java:24 | rounds with different constants get different keys |
| SimpleKeySchedule.XorInjective | lab1/task3-feistel/src/SimpleKeySchedule.java:24 | xor with a fixed byte is injective |
| SimpleKeySchedule.ExpandKeyLoop | lab1/task3-feistel/src/SimpleKeySchedule.java:14-29 | the nested loops return ExpandKey |
| DealKeySchedule.Create | lab1/task6-deal/src/DEALKeySchedule.java:26-31 | succeeds exactly for a positive round count; otherwise fails with "Number of rounds must be positive" |
| DealKeySchedule.CreateDefault | lab1/task6-deal/src/DEALKeySchedule.java:17-19 | the no-argument constructor gives 6 rounds |
| DealKeySchedule.DesKey | lab1/task6-deal/src/DEALKeySchedule.java:55-57 | each of K1, K2, K3 is 8 bytes |
| DealKeySchedule.ExpandKey | lab1/task6-deal/src/DEALKeySchedule.java:43-76 | succeeds exactly for a key of at least 24 bytes (else the message quoting the length) and returns numberOfRounds keys of 8 bytes |
| DealKeySchedule.Cycle | lab1/task6-deal/src/DEALKeySchedule.java:55-73 | keys 0–2 are bytes 0–7, 8–15, 16–23 of the master key and key i repeats key i−3: K1, K2, K3, K1, … |
| DealKeySchedule.OnlyFirst24Bytes | lab1/task6-deal/src/DEALKeySchedule.java:36-37 | keys agreeing on their first 24 bytes give equal schedules |
| DealKeyScheduleCopy.Create | lab1/task7-deal-file-demo/lib-src/DEALKeySchedule.java:6-15 | the second copy's constructors behave exactly as the first copy's |
| DealKeyScheduleCopy.ExpandKey | lab1/task7-deal-file-demo/lib-src/DEALKeySchedule.java:17-49 | the second copy's loop-and-switch is extensionally equal to the first copy |
| DesAdapter.AdapterEncrypt | lab1/task7-deal-file-demo/lib-src/DESAdapter.java:23-41 | succeeds exactly for an 8-byte block and 8-byte key, with the block check first, and then equals DES encryption of the block under that key |
| DesAdapter.AdapterDecrypt | lab1/task7-deal-file-demo/lib-src/DESAdapter.java:52-70 | the same checks, and then DES decryption (not encryption) of the block under that key |
| DesAdapter.RoundTrip | lab1/task6-deal/test/DEALTest.java:268-276 | decryptBlock(encryptBlock(b, k), k) = b |
| DesAdapter.DesAdapter.constructor | lab1/task7-deal-file-demo/lib-src/DESAdapter.java:11-13 | the adapter owns a fresh DES object |
| DesAdapter.DesAdapter.EncryptBlock | lab1/task7-deal-file-demo/lib-src/DESAdapter.java:23-41 | overwriting the wrapped key and encrypting yields AdapterEncrypt(block, roundKey), which depends on no earlier call |
| DesAdapter.DesAdapter.DecryptBlock | lab1/task7-deal-file-demo/lib-src/DESAdapter.java:52-70 | overwriting the wrapped key and decrypting yields AdapterDecrypt(block, roundKey) |
| Deal.DealEncrypt | lab1/task7-deal-file-demo/lib-src/DEAL.java:95-107 | a block that is not 16 bytes fails with the message quoting its length, a missing key with IllegalState, and a result is 16 bytes |
| Deal.DealDecrypt | lab1/task7-deal-file-demo/lib-src/DEAL.java:115-127 | the same guards as encrypt, and a result is 16 bytes |
| Deal.ForwardDefined | lab1/task7-deal-file-demo/lib-src/DEAL.java:106 | the Feistel rounds with the DES adapter never fail on 8-byte halves and 8-byte round keys |
| Deal.EncryptDefined | lab1/task7-deal-file-demo/lib-src/DEAL.java:95-107 | encryption of a 16-byte block under a key of at least 24 bytes always succeeds |
| Deal.BackwardDefined | lab1/task7-deal-file-demo/lib-src/DEAL.java:126 | the reversed rounds never fail on 8-byte halves and 8-byte round keys |
| Deal.DecryptDefined | lab1/task7-deal-file-demo/lib-src/DEAL.java:115-127 | decryption of a 16-byte block under a key of at least 24 bytes always succeeds |
| Deal.RoundTrip | lab1/task6-deal/test/DEALTest.java:164-178 | for every round count, decrypt(encrypt(b)) = b under equal keys of at least 24 bytes |
| Deal.Deal.Build | lab1/task7-deal-file-demo/lib-src/DEAL.java:33-49 | the cipher owns a fresh Feistel cipher over the DEAL key schedule and the DES adapter, with no key set |
| Deal.Deal.Create | lab1/task7-deal-file-demo/lib-src/DEAL.java:33-36 | succeeds exactly for a positive round count; otherwise fails with "Number of rounds must be positive" |
| Deal.Deal.CreateDefault | lab1/task7-deal-file-demo/lib-src/DEAL.java:24-26 | the default constructor uses 6 rounds |
| Deal.Deal.SetEncryptionKey | lab1/task7-deal-file-demo/lib-src/DEAL.java:57-68 | a key of at least 24 bytes is stored; a shorter one fails with the length message and changes nothing; the decryption key is untouched |
| Deal.Deal.SetDecryptionKey | lab1/task7-deal-file-demo/lib-src/DEAL.java:76-87 | a key of at least 24 bytes is stored; a shorter one fails and changes nothing; the encryption key is untouched |
| Deal.Deal.Encrypt | lab1/task7-deal-file-demo/lib-src/DEAL.java:95-107 | Feistel encryption with the DEAL key schedule and the DES adapter, succeeding once a key is set and the block is 16 bytes |
| Deal.Deal.Decrypt | lab1/task7-deal-file-demo/lib-src/DEAL.java:115-127 | Feistel decryption with the same pieces, succeeding once a key is set and the block is 16 bytes |
| Deal.Deal.GetBlockSize | lab1/task7-deal-file-demo/lib-src/DEAL.java:134-136 | the block size is always 16 |
| DummyCipher.XorWithKey | lab1/task2-interfaces/src/DummyCipher.java:22-26 | the result has the block's length; it fails (Java's `%` by zero) exactly when the key is empty and the block is not |
| DummyCipher.XorWithKeyAt | lab1/task2-interfaces/src/DummyCipher.java:24 | out[i] = block[i] ⊕ key[i mod |key|] |
| DummyCipher.XorWithKeyTwice | lab1/task2-interfaces/src/DummyCipher.java:22-26 | xoring twice with the same key restores the block |
| DummyCipher.DummyEncrypt | lab1/task2-interfaces/src/DummyCipher.java:17-27 | without an encryption key it fails with IllegalState; otherwise it is the key-xor of the block |
| DummyCipher.DummyDecrypt | lab1/task2-interfaces/src/DummyCipher.java:29-39 | without a decryption key it fails with IllegalState; otherwise it is the key-xor of the block |
| DummyCipher.RoundTrip | lab1/task2-interfaces/src/DummyCipher.java:22-26 | decrypt(encrypt(b)) = b when both keys are equal |
| DummyCipher.EncryptInvolution | lab1/task2-interfaces/src/DummyCipher.java:22-26 | encrypt is an involution under a fixed key |
| DummyCipher.DummyCipher.constructor | lab1/task2-interfaces/src/DummyCipher.java:3-5 | a new cipher has neither key set |
| DummyCipher.DummyCipher.SetEncryptionKey | lab1/task2-interfaces/src/DummyCipher.java:7-10 | stores the key value and leaves the decryption key unchanged |
| DummyCipher.DummyCipher.SetDecryptionKey | lab1/task2-interfaces/src/DummyCipher.java:12-15 | stores the key value and leaves the encryption key unchanged |
| DummyCipher.DummyCipher.Encrypt | lab1/task2-interfaces/src/DummyCipher.java:17-27 | returns DummyEncrypt under the stored key |
| DummyCipher.DummyCipher.Decrypt | lab1/task2-interfaces/src/DummyCipher.java:29-39 | returns DummyDecrypt under the stored key |
| DummyCipher.XorLoop | lab1/task2-interfaces/src/DummyCipher.java:22-26 | the filling loop returns XorWithKey |
| CipherMode.RequiresIV | lab1/task2-interfaces/src/CipherMode.java:24-27 | requiresIV is false exactly for ECB and RANDOM_DELTA |
| CipherMode.XorBytes | lab1/task2-interfaces/src/CipherMode.java:246-252 | succeeds exactly when \|b\| ≥ \|a\| (else the out-of-bounds error) and returns \|a\| bytes with out[i] = a[i] ⊕ b[i] |
| CipherMode.XorBytesLoop | lab1/task2-interfaces/src/CipherMode.java:246-252 | the filling loop returns XorBytes, failing on the first index past the end of b |
| CipherMode.Pow256 | lab1/task2-interfaces/src/CipherMode.java:183-190 | 256ⁿ is positive |
| CipherMode.BigEndianBound | lab1/task2-interfaces/src/CipherMode.java:183-190 | a counter of n bytes read big-endian is below 256ⁿ |
| CipherMode.Increment | lab1/task2-interfaces/src/CipherMode.java:183-190 | incrementing keeps the counter length |
| CipherMode.IncrementValue | lab1/task2-interfaces/src/CipherMode.java:183-190 | incrementCounter adds 1 to the big-endian value modulo 256ⁿ |
| CipherMode.IncrementTail | lab1/task2-interfaces/src/CipherMode.java:183-190 | the carry stops at the last byte that is not 255; the bytes after it become 0 |
| CipherMode.IncrementWraps | lab1/task2-interfaces/src/CipherMode.java:183-190 | an all-255 counter wraps to all zeros |
| CipherMode.IncrementCounter | lab1/task2-interfaces/src/CipherMode.java:183-190 | the in-place carry loop leaves the array equal to Increment of its old contents |
| CipherMode.IncrementLast | lab1/task2-interfaces/src/CipherMode.java:184-188 | incrementing a prefix either carries out of a 255 byte or bumps the last byte and stops |
| CipherMode.Run | lab1/task2-interfaces/src/CipherMode.java:8-181 | a successful chained pass yields one output per input block |
| CipherMode.Chained | lab1/task2-interfaces/src/CipherMode.java:30-181 | a mode other than ECB with no IV fails (Java's NullPointerException on the IV copy); a result has one block per input block |
| CipherMode.RunPrefix | lab1/task2-interfaces/src/CipherMode.java:36-41 | the outputs for a prefix of the blocks are the prefix of the outputs |
| CipherMode.RunErr | lab1/task2-interfaces/src/CipherMode.java:36-41 | once a prefix fails, the whole pass fails with the same error |
| CipherMode.RunNext | lab1/task2-interfaces/src/CipherMode.java:36-41 | one more loop iteration either fails the pass or appends the step's output and moves to its state |
| CipherMode.RunAt | lab1/task2-interfaces/src/CipherMode.java:36-41 | output i is the step applied to block i in the state left by blocks 0..i−1 |
| CipherMode.StepUndone | lab1/task2-interfaces/src/CipherMode.java:46-55 | for each chained mode, the decrypting step undoes the encrypting step in the same state and ends in the same next state, given D∘E = id (CFB, OFB, CTR need no D) |
| CipherMode.RunRoundTrip | lab1/task2-interfaces/src/CipherMode.java:30-181 | decrypting the encrypted blocks from the same start gives the blocks back, for ECB, CBC, PCBC with D∘E = id and for CFB, OFB, CTR with any E |
| CipherMode.EncryptOnly | lab1/task2-interfaces/src/CipherMode.java:98-181 | CFB, OFB and CTR give the same result for any two ciphers with the same encrypt: decrypt is never called |
| CipherMode.StepEncryptOnly | lab1/task2-interfaces/src/CipherMode.java:98-181 | one CFB, OFB or CTR step depends only on the cipher's encrypt |
| CipherMode.SameBothWays | lab1/task2-interfaces/src/CipherMode.java:131-181 | OFB and CTR run the same function in both directions |
| CipherMode.EcbBlockwise | lab1/task2-interfaces/src/CipherMode.java:5-13 | ECB output i is E(block i), and the IV is ignored |
| CipherMode.EcbIgnoresState | lab1/task2-interfaces/src/CipherMode.java:5-22 | ECB's result does not depend on any chaining state |
| CipherMode.CbcState | lab1/task2-interfaces/src/CipherMode.java:34-41 | CBC's running prev is the IV before block 0 and Cᵢ₋₁ before block i |
| CipherMode.CbcChaining | lab1/task2-interfaces/src/CipherMode.java:32-43 | C₀ = E(P₀ ⊕ IV) and Cᵢ = E(Pᵢ ⊕ Cᵢ₋₁) |
| CipherMode.Counter | lab1/task2-interfaces/src/CipherMode.java:173-178 | the i-th counter value has the IV's length |
| CipherMode.CtrNext | lab1/task2-interfaces/src/CipherMode.java:176-178 | each CTR step moves to the incremented counter |
| CipherMode.CtrCounter | lab1/task2-interfaces/src/CipherMode.java:171-181 | block i is processed under the IV incremented i times |
| CipherMode.MapBlocks | lab1/task2-interfaces/src/CipherMode.java:204-233 | a successful per-block pass yields one output per block |
| CipherMode.MapErr | lab1/task2-interfaces/src/CipherMode.java:204-233 | a failing prefix makes the whole per-block pass fail with the same error |
| CipherMode.MapNext | lab1/task2-interfaces/src/CipherMode.java:204-233 | one more iteration either fails or appends its output |
| CipherMode.Delta | lab1/task2-interfaces/src/CipherMode.java:205-206 | each δ has the block's length |
| CipherMode.DeltaEncrypt | lab1/task2-interfaces/src/CipherMode.java:200-217 | a successful pass yields one output per block |
| CipherMode.CopyOfRange | lab1/task2-interfaces/src/CipherMode.java:225-226 | Arrays.copyOfRange fails when from > to or from > length and otherwise pads with zeros past the end |
| CipherMode.DeltaDecrypt | lab1/task2-interfaces/src/CipherMode.java:220-234 | decrypting an empty array fails (blocks[0]); a result has one block per input |
| CipherMode.DeltaBlockUndone | lab1/task2-interfaces/src/CipherMode.java:208-231 | D(first half) ⊕ D(second half) of E(P ⊕ δ)‖E(δ) is P, for any δ, when D∘E = id and E keeps lengths |
| CipherMode.DeltaRoundTripAll | lab1/task2-interfaces/src/CipherMode.java:200-234 | decrypting every doubled block with the half size of the first restores all blocks of a uniform-length input |
| CipherMode.LastSplit | lab1/task2-interfaces/src/CipherMode.java:204-215 | a non-empty list is its prefix plus its last element |
| CipherMode.DeltaFirstLength | lab1/task2-interfaces/src/CipherMode.java:212-214 | RANDOM_DELTA emits blocks of double width |
| CipherMode.DeltaRoundTrip | lab1/task2-interfaces/src/CipherMode.java:198-234 | RANDOM_DELTA round-trips for any δ draws when D∘E = id and the blocks share a length |
| CipherMode.Encrypt | lab1/task2-interfaces/src/CipherMode.java:7-217 | a mode that requires an IV fails when none is given; a result has one block per input block |
| CipherMode.Decrypt | lab1/task2-interfaces/src/CipherMode.java:16-234 | the same IV rule, RANDOM_DELTA fails on an empty array, and a result has one block per input block |
| CipherMode.RoundTrip | lab1/task2-interfaces/src/CipherMode.java:4-253 | for every mode, decrypt(encrypt(blocks)) = blocks when the cipher is undoable for that mode (RANDOM_DELTA also needing non-empty, uniform blocks) |
| CipherMode.Involution | lab1/task2-interfaces/src/CipherMode.java:131-181 | applying OFB or CTR twice returns the input |
| CipherMode.StepKeepsLength | lab1/task2-interfaces/src/CipherMode.java:36-181 | with a length-preserving cipher each encrypting step keeps the block length |
| CipherMode.RunKeepsLengths | lab1/task2-interfaces/src/CipherMode.java:36-181 | with a length-preserving cipher every output block has its input block's length |
| CipherMode.CbcDefined | lab1/task2-interfaces/src/CipherMode.java:32-43 | CBC never fails when the cipher is total on blocks of size n, all blocks have size n and the IV is long enough |
| CipherMode.CbcEncryptDefined | lab1/task2-interfaces/src/CipherMode.java:32-43 | CBC encryption of uniform blocks succeeds under a total cipher and a long-enough IV |
| CipherMode.EcbEncrypt | lab1/task2-interfaces/src/CipherMode.java:7-13 | the loop computes Chained(ECB, Encrypting) |
| CipherMode.EcbDecrypt | lab1/task2-interfaces/src/CipherMode.java:16-22 | the loop computes Chained(ECB, Decrypting) |
| CipherMode.CbcEncrypt | lab1/task2-interfaces/src/CipherMode.java:32-43 | the loop threading prev computes Chained(CBC, Encrypting) |
| CipherMode.CbcDecrypt | lab1/task2-interfaces/src/CipherMode.java:46-56 | the loop threading prev computes Chained(CBC, Decrypting) |
| CipherMode.PcbcEncrypt | lab1/task2-interfaces/src/CipherMode.java:66-77 | the loop threading prev = Pᵢ ⊕ Cᵢ computes Chained(PCBC, Encrypting) |
| CipherMode.PcbcDecrypt | lab1/task2-interfaces/src/CipherMode.java:80-90 | the loop threading prev computes Chained(PCBC, Decrypting) |
| CipherMode.CbcEncryptBlock | lab1/task2-interfaces/src/CipherMode.java:37-40 | one iteration's body equals the CBC encrypting step |
| CipherMode.CbcDecryptBlock | lab1/task2-interfaces/src/CipherMode.java:51-53 | one iteration's body equals the CBC decrypting step |
| CipherMode.PcbcEncryptBlock | lab1/task2-interfaces/src/CipherMode.java:71-74 | one iteration's body equals the PCBC encrypting step |
| CipherMode.PcbcDecryptBlock | lab1/task2-interfaces/src/CipherMode.java:85-87 | one iteration's body equals the PCBC decrypting step |
| CipherMode.CfbEncrypt | lab1/task2-interfaces/src/CipherMode.java:100-110 | the feedback loop computes Chained(CFB, Encrypting) |
| CipherMode.CfbDecrypt | lab1/task2-interfaces/src/CipherMode.java:113-123 | the feedback loop computes Chained(CFB, Decrypting) |
| CipherMode.CfbEncryptBlock | lab1/task2-interfaces/src/CipherMode.java:105-107 | one iteration's body equals the CFB encrypting step |
| CipherMode.CfbDecryptBlock | lab1/task2-interfaces/src/CipherMode.java:118-120 | one iteration's body equals the CFB decrypting step |
| CipherMode.OfbProcess | lab1/task2-interfaces/src/CipherMode.java:133-152 | process serves both directions and equals Chained(OFB, ·) for each |
| CipherMode.OfbRun | lab1/task2-interfaces/src/CipherMode.java:142-152 | the loop threading the feedback computes Chained(OFB) with the given IV |
| CipherMode.OfbBlock | lab1/task2-interfaces/src/CipherMode.java:147-149 | one iteration's body equals the OFB step |
| CipherMode.CtrProcess | lab1/task2-interfaces/src/CipherMode.java:162-181 | process serves both directions and equals Chained(CTR, ·) for each |
| CipherMode.CtrRun | lab1/task2-interfaces/src/CipherMode.java:171-181 | the loop over a copied counter computes Chained(CTR) with the given IV, which it never changes |
| CipherMode.CtrTurn | lab1/task2-interfaces/src/CipherMode.java:175-179 | one iteration extends the run by one block, or makes the whole run fail with its error |
| CipherMode.CtrBlock | lab1/task2-interfaces/src/CipherMode.java:176-178 | encrypting the counter, xoring, and incrementing in place equals the CTR step |
| CipherMode.RandomDeltaEncrypt | lab1/task2-interfaces/src/CipherMode.java:200-217 | the loop computes DeltaEncrypt with the given δ source |
| CipherMode.RandomDeltaDecrypt | lab1/task2-interfaces/src/CipherMode.java:220-234 | the loop computes DeltaDecrypt |
| CipherMode.EncryptBlocks | lab1/task2-interfaces/src/CipherMode.java:242 | dispatching on the mode computes Encrypt |
| CipherMode.DecryptBlocks | lab1/task2-interfaces/src/CipherMode.java:243 | dispatching on the mode computes Decrypt |
| PaddingMode.PaddingSize | lab1/task2-interfaces/src/PaddingMode.java:7-10 | the pad count aligns the length to bs; it is below bs for ZEROS and in [1, bs] for the other three |
| PaddingMode.BelowBlock | lab1/task2-interfaces/src/PaddingMode.java:7 | the only multiple of bs in [0, bs) is 0 |
| PaddingMode.MultipleMod | lab1/task2-interfaces/src/PaddingMode.java:7 | a multiple of bs leaves remainder 0 |
| PaddingMode.AlignUp | lab1/task2-interfaces/src/PaddingMode.java:32 | adding bs − len mod bs reaches a multiple of bs |
| PaddingMode.CountByteSmall | lab1/task2-interfaces/src/PaddingMode.java:39 | the (byte) cast of a count below 256 reads back as that count |
| PaddingMode.SmallCast | lab1/task2-interfaces/src/PaddingMode.java:48 | `& 0xFF` of a byte cast from [0, 256) is the original value |
| PaddingMode.CountByteOf | lab1/task2-interfaces/src/PaddingMode.java:48 | reading a byte unsigned and casting back gives the byte |
| PaddingMode.PaddingBytes | lab1/task2-interfaces/src/PaddingMode.java:37-39 | the tail has exactly n bytes |
| PaddingMode.Pad | lab1/task2-interfaces/src/PaddingMode.java:6-121 | pad fails (division by zero) exactly when bs = 0; otherwise it keeps data as a prefix and reaches a multiple of bs, adding fewer than bs bytes for ZEROS and 1..bs bytes for the others |
| PaddingMode.StripZeros | lab1/task2-interfaces/src/PaddingMode.java:18-26 | the result is the longest prefix of data not ending in 0x00, all removed bytes being 0x00 |
| PaddingMode.Unpad | lab1/task2-interfaces/src/PaddingMode.java:18-137 | ZEROS never fails; the others fail on empty data and on a count byte above the length or bs, and on success drop exactly count bytes |
| PaddingMode.PaddedShape | lab1/task2-interfaces/src/PaddingMode.java:31-121 | for the three counted paddings the padded data is data followed by n tail bytes whose last byte is n |
| PaddingMode.RoundTrip | lab1/task2-interfaces/src/PaddingMode.java:31-137 | unpad(pad(d, bs), bs) = d for ANSI X.923, PKCS7 and ISO 10126 whenever 1 ≤ bs ≤ 255, whatever the ISO filler bytes |
| PaddingMode.AnsiFiller | lab1/task2-interfaces/src/PaddingMode.java:37-39 | ANSI X.923 writes zeros before its count byte |
| PaddingMode.Pkcs7Filler | lab1/task2-interfaces/src/PaddingMode.java:75-77 | PKCS7 fills all n padding bytes with n |
| PaddingMode.AnsiRejectsFiller | lab1/task2-interfaces/src/PaddingMode.java:53-57 | ANSI unpad rejects any non-zero byte in the filler run |
| PaddingMode.Pkcs7RejectsPadding | lab1/task2-interfaces/src/PaddingMode.java:91-95 | PKCS7 unpad rejects any padding byte that differs from the count |
| PaddingMode.ZeroCountAccepted | lab1/task2-interfaces/src/PaddingMode.java:44-137 | a trailing count byte of 0 is accepted by the three counted paddings, which then return the data unchanged |
| PaddingMode.StripAppendedZeros | lab1/task2-interfaces/src/PaddingMode.java:18-26 | stripping ignores any number of appended zero bytes |
| PaddingMode.ZerosRoundTrip | lab1/task2-interfaces/src/PaddingMode.java:6-26 | the ZEROS round trip holds exactly when the data is empty or does not end in 0x00 |
| PaddingMode.Allocate | lab1/task2-interfaces/src/PaddingMode.java:12-13 | the zero-initialised array with data copied in is data followed by n zeros |
| PaddingMode.ZerosPad | lab1/task2-interfaces/src/PaddingMode.java:6-15 | the method computes Pad(ZEROS) |
| PaddingMode.AnsiPad | lab1/task2-interfaces/src/PaddingMode.java:31-41 | the method computes Pad(ANSI_X923) |
| PaddingMode.Pkcs7Pad | lab1/task2-interfaces/src/PaddingMode.java:67-79 | the method with its fill loop computes Pad(PKCS7) |
| PaddingMode.IsoPad | lab1/task2-interfaces/src/PaddingMode.java:105-122 | the method computes Pad(ISO_10126) with the given random filler |
| PaddingMode.WriteIsoTail | lab1/task2-interfaces/src/PaddingMode.java:114-120 | the random filler and the count byte fill the tail |
| PaddingMode.CopyFiller | lab1/task2-interfaces/src/PaddingMode.java:117 | the arraycopy writes the filler bytes and nothing else |
| PaddingMode.ZerosUnpad | lab1/task2-interfaces/src/PaddingMode.java:18-26 | the backward scan computes Unpad(ZEROS) |
| PaddingMode.ReadCount | lab1/task2-interfaces/src/PaddingMode.java:45-51 | the shared guard: fails on empty data and on a count above length or bs, else returns the count byte read unsigned |
| PaddingMode.AnsiUnpad | lab1/task2-interfaces/src/PaddingMode.java:44-62 | the method with its filler check loop computes Unpad(ANSI_X923) |
| PaddingMode.Pkcs7Unpad | lab1/task2-interfaces/src/PaddingMode.java:82-100 | the method with its check loop computes Unpad(PKCS7) |
| PaddingMode.IsoUnpad | lab1/task2-interfaces/src/PaddingMode.java:125-137 | the method computes Unpad(ISO_10126) |
| PaddingMode.PadData | lab1/task2-interfaces/src/PaddingMode.java:140 | dispatching on the padding computes Pad |
| PaddingMode.UnpadData | lab1/task2-interfaces/src/PaddingMode.java:141 | dispatching on the padding computes Unpad |
| CipherContext.Create | lab1/task2-interfaces/src/CipherContext.java:28-69 | the guards fire in the source order with its messages (key, cipher, mode, padding, block size, IV when the mode requires one); success also needs both key setters to accept the key, and the context keeps exactly the given arguments |
| CipherContext.BlockInBounds | lab1/task2-interfaces/src/CipherContext.java:164-166 | every block index below len / bs addresses a slice inside the data |
| CipherContext.Split | lab1/task2-interfaces/src/CipherContext.java:156-169 | no blocks when bs ≤ 0 or the data is empty; otherwise ⌊len / bs⌋ blocks |
| CipherContext.SplitBlocks | lab1/task2-interfaces/src/CipherContext.java:161-166 | block i is exactly data[i·bs .. (i+1)·bs], so all blocks have bs bytes and a trailing partial block is dropped |
| CipherContext.MergeLength | lab1/task2-interfaces/src/CipherContext.java:171-175 | merging k blocks of n bytes yields k·n bytes |
| CipherContext.MergePrefix | lab1/task2-interfaces/src/CipherContext.java:178-183 | merging a prefix of the blocks yields a prefix of the merge |
| CipherContext.MergeAt | lab1/task2-interfaces/src/CipherContext.java:180-183 | block i sits at bytes i·bs .. (i+1)·bs of the merge, in order |
| CipherContext.MergeSplit | lab1/task2-interfaces/src/CipherContext.java:156-186 | split(merge(blocks)) = blocks for blocks of a common positive size |
| CipherContext.SplitMergePrefix | lab1/task2-interfaces/src/CipherContext.java:156-186 | merging the first k split blocks gives the first k·bs bytes |
| CipherContext.SplitMerge | lab1/task2-interfaces/src/CipherContext.java:156-186 | merge(split(d)) is d cut to a multiple of bs, and equals d when \|d\| is a multiple of bs |
| CipherContext.SplitIntoBlocks | lab1/task2-interfaces/src/CipherContext.java:156-169 | the loop returns Split |
| CipherContext.MergeBlocks | lab1/task2-interfaces/src/CipherContext.java:171-186 | the two loops return Merge |
| CipherContext.EncryptData | lab1/task2-interfaces/src/CipherContext.java:91-98 | the synchronous body computes merge(mode.encrypt(split(pad(data)))) |
| CipherContext.DecryptData | lab1/task2-interfaces/src/CipherContext.java:107-114 | the synchronous body computes unpad(merge(mode.decrypt(split(data)))) |
| CipherContext.PaddedBlocks | lab1/task2-interfaces/src/CipherContext.java:93-94 | the padded data splits into whole blocks that merge back to it |
| CipherContext.CiphertextBlocks | lab1/task2-interfaces/src/CipherContext.java:95 | a length-preserving cipher in a chained mode yields as many blocks as it was given, all of bs bytes |
| CipherContext.EncryptedLength | lab1/task2-interfaces/src/CipherContext.java:93-96 | the ciphertext has the padded length and splits back into the mode's output blocks |
| CipherContext.RoundTrip | lab1/task2-interfaces/src/CipherContext.java:91-114 | decrypt(encrypt(m)) = m for every chained mode and counted padding (ZEROS when m does not end in 0x00), given an undoable, length-preserving cipher and 1 ≤ bs ≤ 255 |
| CipherContext.DesKeyed | lab1/task4-des/src/DES.java:28-76 | DES keyed through the context inverts itself and keeps lengths on 8-byte blocks |
| CipherContext.DesTotal | lab1/task4-des/src/DES.java:28-76 | DES keyed through the context never fails on 8-byte blocks |
| CipherContext.DesCbcEncryptsBlocks | lab1/task4-des/test/DESTest.java:151-179 | DES in CBC encrypts any sequence of 8-byte blocks under an 8-byte key and IV |
| CipherContext.DesCbcPkcs7Encrypts | lab1/task4-des/test/DESTest.java:151-179 | the DES/CBC/PKCS7 context encrypts any data |
| CipherContext.DesCbcPkcs7RoundTrip | lab1/task4-des/test/DESTest.java:151-179 | the DES/CBC/PKCS7 context is created successfully, and decrypt(encrypt(m)) = m for every m |
| Gf2Poly.Degree | lab3/task1-galois-field/src/GF256Service.java:172-180 | the degree of a GF(2) polynomial held as bits: −1 for zero, otherwise the index of its highest set bit |
| Gf2Poly.ClMulComm | lab3/task1-galois-field/src/GF256Service.java:182-192 | carry-less multiplication is commutative |
| Gf2Poly.ClMulAssoc | lab3/task1-galois-field/src/GF256Service.java:182-192 | carry-less multiplication is associative |
| Gf2Poly.ClMulDistLeft | lab3/task1-galois-field/src/GF256Service.java:182-192 | carry-less multiplication distributes over XOR |
| Gf2Poly.ClMulDegree | lab3/task1-galois-field/src/GF256Service.java:182-192 | the degree of a product of non-zero polynomials is the sum of their degrees |
| Gf2Poly.DivMod | lab3/task1-galois-field/src/GF256Service.java:194-224 | polynomial division: a = q·b ⊕ r with deg r < deg b |
| Gf2Poly.DivModUnique | lab3/task1-galois-field/src/GF256Service.java:194-224 | quotient and remainder are the only pair satisfying the division law |
| Gf2Poly.MulModComm | lab3/task1-galois-field/src/GF256Service.java:17-43 | multiplication modulo a polynomial is commutative |
| Gf2Poly.MulModAssoc | lab3/task1-galois-field/src/GF256Service.java:17-43 | multiplication modulo a polynomial is associative |
| Gf2Poly.MulModDist | lab3/task1-galois-field/src/GF256Service.java:17-43 | multiplication modulo a polynomial distributes over XOR |
| Gf2Poly.GcdDivides | lab3/task1-galois-field/src/GF256Service.java:243-250 | the Euclidean gcd divides both arguments |
| Gf256Service.FieldPoly | lab3/task1-galois-field/src/GF256Service.java:25 | the modulus byte with the x⁸ bit set is a polynomial of degree exactly 8 |
| Gf256Service.ByteDegree | lab3/task1-galois-field/src/GF256Service.java:79-88 | a value is a byte exactly when its degree is below 8 |
| Gf256Service.Add | lab3/task1-galois-field/src/GF256Service.java:6-8 | field addition is XOR: adding b to the sum gives back a, and vice versa |
| Gf256Service.AddSelfInverse | lab3/task1-galois-field/src/GF256Service.java:6-8 | every element is its own additive inverse |
| Gf256Service.FieldMul | lab3/task1-galois-field/src/GF256Service.java:17-43 | the field product is the carry-less product reduced modulo the field polynomial |
| Gf256Service.FieldMulIdentity | lab3/task1-galois-field/src/GF256Service.java:17-43 | 1 is the multiplicative identity and 0 annihilates |
| Gf256Service.FieldMulComm | lab3/task1-galois-field/src/GF256Service.java:17-43 | field multiplication is commutative |
| Gf256Service.FieldMulAssoc | lab3/task1-galois-field/src/GF256Service.java:17-43 | field multiplication is associative |
| Gf256Service.FieldMulDist | lab3/task1-galois-field/src/GF256Service.java:17-43 | field multiplication distributes over field addition |
| Gf256Service.DegreeOf | lab3/task1-galois-field/src/GF256Service.java:172-180 | the shifting loop returns the degree (−1 for zero) |
| Gf256Service.MultiplyPoly | lab3/task1-galois-field/src/GF256Service.java:182-192 | the shift-and-XOR loop returns the carry-less product |
| Gf256Service.ModPoly | lab3/task1-galois-field/src/GF256Service.java:211-224 | the reduction loop returns the remainder of polynomial division |
| Gf256Service.Divide | lab3/task1-galois-field/src/GF256Service.java:194-209 | the long-division loop returns the quotient |
| Gf256Service.DividePoly | lab3/task1-galois-field/src/GF256Service.java:226-241 | the second long-division loop returns the same quotient |
| Gf256Service.DivisionLaw | lab3/task1-galois-field/src/GF256Service.java:194-224 | quotient and remainder satisfy a = q·b ⊕ r with deg r < deg b |
| Gf256Service.QuotDegree | lab3/task1-galois-field/src/GF256Service.java:194-209 | when deg a ≥ deg b the quotient is non-zero of degree deg a − deg b |
| Gf256Service.ModBelow | lab3/task1-galois-field/src/GF256Service.java:211-224 | the remainder is numerically below the divisor |
| Gf256Service.GcdPoly | lab3/task1-galois-field/src/GF256Service.java:243-250 | the Euclidean loop returns the polynomial gcd |
| Gf256Service.GcdGreatest | lab3/task1-galois-field/src/GF256Service.java:243-250 | every common divisor of a and b divides their gcd |
| Gf256Service.CommonDivisor | lab3/task1-galois-field/src/GF256Service.java:243-250 | a common divisor of both arguments divides the gcd |
| Gf256Service.DegreeCheckRedundant | lab3/task1-galois-field/src/GF256Service.java:81-88 | after the p ≥ 0x100 check the degree-8 check can never fail |
| Gf256Service.NoLinearFactor | lab3/task1-galois-field/src/GF256Service.java:78-120 | a polynomial passing the test has neither x nor x+1 as a factor |
| Gf256Service.PowerStep | lab3/task1-galois-field/src/GF256Service.java:100-102 | one squaring-loop step turns x^(2^i) mod p into x^(2^(i+1)) mod p |
| Gf256Service.PowerOfX | lab3/task1-galois-field/src/GF256Service.java:97-102 | the repeated multiply-by-x loop returns x^count mod p |
| Gf256Service.RabinRound | lab3/task1-galois-field/src/GF256Service.java:96-107 | one divisor round decides gcd(x^(2^d) − x, p) = 1 |
| Gf256Service.RabinTest | lab3/task1-galois-field/src/GF256Service.java:94-117 | the three divisor rounds and the final x^256 = x check decide Rabin's condition |
| Gf256Service.IsIrreducible | lab3/task1-galois-field/src/GF256Service.java:78-120 | the method decides exactly the irreducibility test: degree 8 in the low nine bits, constant term, Rabin's gcd conditions, x^256 = x |
| Gf256Service.FieldCheckedIsTest | lab3/task1-galois-field/src/GF256Service.java:78-120 | the depth-wrapped fact is equivalent to the irreducibility test |
| Gf256Service.IrreducibleBytesBelowSpec | lab3/task1-galois-field/src/GF256Service.java:122-132 | the listing of moduli below n is strictly increasing and holds exactly the bytes below n that pass the test |
| Gf256Service.BytesBelowMembers | lab3/task1-galois-field/src/GF256Service.java:122-132 | the filtered listing holds exactly the passing bytes below n |
| Gf256Service.BytesBelowSorted | lab3/task1-galois-field/src/GF256Service.java:122-132 | the filtered listing is strictly increasing |
| Gf256Service.BytesBelowGrows | lab3/task1-galois-field/src/GF256Service.java:122-132 | the listing only grows as n grows |
| Gf256Service.ListingStep | lab3/task1-galois-field/src/GF256Service.java:125-129 | one loop step appends the modulus byte exactly when it passes |
| Gf256Service.PassesAt | lab3/task1-galois-field/src/GF256Service.java:126 | testing i in [0x100, 0x200) is testing the modulus byte i − 0x100 |
| Gf256Service.GetAllIrreduciblePolynomials | lab3/task1-galois-field/src/GF256Service.java:122-132 | returns the modulus bytes in increasing order, each present exactly when its polynomial passes the test |
| Gf256Service.MultiplyMod | lab3/task1-galois-field/src/GF256Service.java:17-43 | fails with "Modulus must be irreducible" exactly when the test fails; otherwise the product modulo x⁸ + modulus |
| Gf256Service.MultiplyStep | lab3/task1-galois-field/src/GF256Service.java:27-40 | one loop step keeps result ⊕ a·b mod m unchanged and both registers bytes |
| Gf256Service.Multiply | lab3/task1-galois-field/src/GF256Service.java:10-15 | fails exactly when the modulus is not irreducible; otherwise the square of a |
| Gf256Service.EuclidStart | lab3/task1-galois-field/src/GF256Service.java:54-57 | the extended-Euclid invariant holds for the initial (t, newT, r, newR) |
| Gf256Service.EuclidStep | lab3/task1-galois-field/src/GF256Service.java:59-69 | one extended-Euclid step keeps t·a ≡ r (mod m) for both pairs and reduces r |
| Gf256Service.Inverse | lab3/task1-galois-field/src/GF256Service.java:45-76 | the three error cases in order; succeeds exactly when the modulus passes, a ≠ 0 and gcd(m, a) = 1, and then a·result = 1 in the field |
| Gf256Service.InverseFound | lab3/task1-galois-field/src/GF256Service.java:71-75 | when the loop stops with r ≤ 1, t is a byte with a·t = 1 mod m |
| Gf256Service.InverseNeedsCoprime | lab3/task1-galois-field/src/GF256Service.java:71-73 | an element with an inverse is coprime to the field polynomial, so "not invertible" is exactly a common factor |
| Gf256Service.DividesOne | lab3/task1-galois-field/src/GF256Service.java:243-250 | only 1 divides the polynomial 1 |
| Gf256Service.InverseUnique | lab3/task1-galois-field/src/GF256Service.java:45-76 | two elements sharing an inverse are equal, so the inverse is unique |
| Gf256Service.Factorize | lab3/task1-galois-field/src/GF256Service.java:134-170 | 0 and 1 have no factors; every factor except possibly the trailing leftover passes the irreducibility test |
| Gf256Service.QuotSmaller | lab3/task1-galois-field/src/GF256Service.java:148-156 | dividing by a polynomial of degree ≥ 1 strictly decreases a non-zero value, so the factor loop ends |
| GaloisFieldService.Add | lab3/task1-galois-field/src/GaloisFieldService.java:3-5 | field addition is XOR: adding b to the sum gives back a, and vice versa |
| GaloisFieldService.DegreeOf | lab3/task1-galois-field/src/GaloisFieldService.java:144-151 | the shifting loop returns the degree (−1 for zero) |
| GaloisFieldService.MultiplyPolynomials | lab3/task1-galois-field/src/GaloisFieldService.java:153-170 | with modulus 0, as the factor loop calls it, the loop returns the carry-less product |
| GaloisFieldService.ModOf | lab3/task1-galois-field/src/GaloisFieldService.java:181-192 | returns the remainder of polynomial division (the dividend itself for divisor 0), of degree below a non-zero divisor |
| GaloisFieldService.Divide | lab3/task1-galois-field/src/GaloisFieldService.java:194-208 | division by zero is the arithmetic error; otherwise the quotient of polynomial division |
| GaloisFieldService.SmallDegrees | lab3/task1-galois-field/src/GaloisFieldService.java:81-84 | the trial divisors reached before the degree > 4 break are exactly 2 ≤ d < 32 |
| GaloisFieldService.ModTwo | lab3/task1-galois-field/src/GaloisFieldService.java:77-79 | reducing modulo x is reading the constant bit |
| GaloisFieldService.IsIrreducible | lab3/task1-galois-field/src/GaloisFieldService.java:73-93 | true exactly when x⁸ + modulus has a constant term and no divisor of degree 1 to 4 |
| GaloisFieldService.SmallFactorFreeBelowSpec | lab3/task1-galois-field/src/GaloisFieldService.java:99-104 | the accepted moduli below n are listed in increasing order, exactly those that pass |
| GaloisFieldService.BelowStepAt | lab3/task1-galois-field/src/GaloisFieldService.java:99-104 | one loop step appends the modulus byte exactly when it passes |
| GaloisFieldService.ListedAll | lab3/task1-galois-field/src/GaloisFieldService.java:95-107 | with at most 30 accepted moduli the result is the 30-slot array holding them in order, zero-padded |
| GaloisFieldService.ListedTooMany | lab3/task1-galois-field/src/GaloisFieldService.java:102 | with more than 30 accepted moduli the store past the array end fails |
| GaloisFieldService.GetAllIrreduciblePolynomials | lab3/task1-galois-field/src/GaloisFieldService.java:95-107 | returns the zero-padded 30-slot listing of accepted moduli, or the out-of-bounds error if more than 30 pass |
| GaloisFieldService.Examine | lab3/task1-galois-field/src/GaloisFieldService.java:100-103 | one iteration writes the next accepted modulus into the array, or reports the overflow |
| GaloisFieldService.Record | lab3/task1-galois-field/src/GaloisFieldService.java:102 | storing at count extends the recorded prefix by one and keeps the zero padding |
| GaloisFieldService.Padded | lab3/task1-galois-field/src/GaloisFieldService.java:96 | the array holds the found moduli first, then zeros |
| GaloisFieldService.DoubleLowByte | lab3/task1-galois-field/src/GaloisFieldService.java:22-27 | reducing by the modulus byte without its x⁸ bit gives the right low byte, so the (byte) cast recovers the field step |
| GaloisFieldService.Multiply | lab3/task1-galois-field/src/GaloisFieldService.java:7-33 | fails exactly when IsIrreducible rejects the modulus; otherwise the product in GF(2⁸) modulo x⁸ + modulus |
| GaloisFieldService.InverseGuards | lab3/task1-galois-field/src/GaloisFieldService.java:35-43 | "Modulus must be irreducible" first, then "Zero has no inverse", otherwise no guard fires |
| GaloisFieldService.Factorize | lab3/task1-galois-field/src/GaloisFieldService.java:109-142 | nothing below 2; otherwise factors whose product is the input, each irreducible, in non-decreasing order, and an irreducible input is its own single factor |
| GaloisFieldService.ProductDegree | lab3/task1-galois-field/src/GaloisFieldService.java:132-134 | a product of factors ≥ 2 is positive and of degree ≥ 1 when non-empty |
| GaloisFieldService.IrreducibleAlone | lab3/task1-galois-field/src/GaloisFieldService.java:132-134 | an irreducible product of irreducibles is a single factor, so the empty-list fallback adds the input itself |
| GaloisFieldService.FactorStep | lab3/task1-galois-field/src/GaloisFieldService.java:119-126 | dividing out the smallest divisor keeps the product equal to the input, the factors irreducible and sorted |
| GaloisFieldService.NextDivisor | lab3/task1-galois-field/src/GaloisFieldService.java:118 | moving to divisor + 1 keeps "no smaller divisor divides current" and stays within the loop bound |
| RijndaelMix.ScaleDot | lab3/task3-rijndael-files/lib-src/Rijndael.java:266-298 | scaling a row vector commutes with the dot product over GF(2)[x] |
| RijndaelMix.DotOfDots | lab3/task3-rijndael-files/lib-src/Rijndael.java:266-347 | a row applied to the four mixed rows is one dot product with the combined row (matrix product) |
| RijndaelMix.MixRowsProduct | lab3/task3-rijndael-files/lib-src/Rijndael.java:266-347 | multiplying a row by the MixColumns matrix gives the stated combination of its entries |
| RijndaelMix.InverseRow | lab3/task3-rijndael-files/lib-src/Rijndael.java:315-347 | each row of the InvMixColumns matrix times the MixColumns matrix is the matching unit row, before reduction |
| RijndaelMix.DotUnit | lab3/task3-rijndael-files/lib-src/Rijndael.java:315-347 | the dot product with the unit row r picks entry r |
| RijndaelSpec.FromToBits | lab3/task3-rijndael-files/lib-src/Rijndael.java:46-63 | the byte-to-bit-vector conversion round-trips |
| RijndaelSpec.ToFromBits | lab3/task3-rijndael-files/lib-src/Rijndael.java:46-63 | the bit-vector-to-byte conversion round-trips |
| RijndaelSpec.AffineBitsInverse | lab3/task3-rijndael-files/lib-src/Rijndael.java:46-63 | the bitwise affine map and its inverse undo each other |
| RijndaelSpec.AffineInverse | lab3/task3-rijndael-files/lib-src/Rijndael.java:35-63 | Affine is a bijection on bytes with inverse InvAffine, and sends 0 to 0x63 |
| RijndaelSpec.SBoxInjective | lab3/task3-rijndael-files/lib-src/Rijndael.java:31-44 | an S-box built from field inverses and the affine map never maps two bytes to one value |
| RijndaelSpec.SubBytesInverse | lab3/task3-rijndael-files/lib-src/Rijndael.java:215-229 | substituting with a table and then with its inverse table restores the state |
| RijndaelSpec.RotateBack | lab3/task3-rijndael-files/lib-src/Rijndael.java:231-249 | the right rotation by row undoes the left rotation by row, for Nb ≥ 4 |
| RijndaelSpec.ShiftRowsInverse | lab3/task3-rijndael-files/lib-src/Rijndael.java:231-249 | InvShiftRows undoes ShiftRows on every state |
| RijndaelSpec.AddRoundKeyInvolution | lab3/task3-rijndael-files/lib-src/Rijndael.java:349-355 | adding the same round key twice restores the state |
| RijndaelSpec.TermMod | lab3/task1-galois-field/src/GF256Service.java:17-43 | one multiplyMod term is the carry-less product reduced modulo x⁸ + modulus |
| RijndaelSpec.RowTimesMod | lab3/task3-rijndael-files/lib-src/Rijndael.java:266-298 | a row of mixColumn is the dot product of coefficients and column reduced modulo the field polynomial |
| RijndaelSpec.DotModRight | lab3/task3-rijndael-files/lib-src/Rijndael.java:266-347 | reducing the column entries first does not change the reduced dot product |
| RijndaelSpec.MixColumnRows | lab3/task3-rijndael-files/lib-src/Rijndael.java:266-298 | mixColumn computes rows (2 3 1 1), (1 2 3 1), (1 1 2 3), (3 1 1 2) |
| RijndaelSpec.InvMixColumnRows | lab3/task3-rijndael-files/lib-src/Rijndael.java:315-347 | invMixColumn computes rows (e b d 9), (9 e b d), (d 9 e b), (b d 9 e) |
| RijndaelSpec.MixedExact | lab3/task3-rijndael-files/lib-src/Rijndael.java:266-298 | each mixed byte is its row's dot product reduced modulo the field polynomial |
| RijndaelSpec.RowOfMixed | lab3/task3-rijndael-files/lib-src/Rijndael.java:266-347 | applying a row to a mixed column is the product row applied to the original column |
| RijndaelSpec.InvRowOfMix | lab3/task3-rijndael-files/lib-src/Rijndael.java:315-347 | each row of invMixColumn applied to a mixed column gives back that column entry |
| RijndaelSpec.MixColumnInverse | lab3/task3-rijndael-files/lib-src/Rijndael.java:266-347 | invMixColumn undoes mixColumn on every column, for every modulus |
| RijndaelSpec.ColumnOfMixColumns | lab3/task3-rijndael-files/lib-src/Rijndael.java:251-264 | column j of the mixed state is mixColumn of column j |
| RijndaelSpec.MixColumnsEntry | lab3/task3-rijndael-files/lib-src/Rijndael.java:251-264 | one entry of InvMixColumns after MixColumns is the original entry |
| RijndaelSpec.MixColumnsInverse | lab3/task3-rijndael-files/lib-src/Rijndael.java:251-264 | invMixColumns undoes mixColumns on every state |
| RijndaelCipher.ToState | lab3/task3-rijndael-files/lib-src/Rijndael.java:149-154 | the state holds block byte c·4 + r in row r, column c |
| RijndaelCipher.StateRoundTrip | lab3/task3-rijndael-files/lib-src/Rijndael.java:149-174 | loading a block into the state and storing it back are mutual inverses |
| RijndaelCipher.RoundsStep | lab3/task3-rijndael-files/lib-src/Rijndael.java:158-163 | n encryption rounds are n − 1 rounds followed by one more |
| RijndaelCipher.DecDownStep | lab3/task3-rijndael-files/lib-src/Rijndael.java:194-199 | n decryption rounds are one round followed by n − 1 more |
| RijndaelCipher.DecAboveDown | lab3/task3-rijndael-files/lib-src/Rijndael.java:194-199 | counting the decryption rounds up from n equals counting them down to n |
| RijndaelCipher.DecAboveAll | lab3/task3-rijndael-files/lib-src/Rijndael.java:194-199 | the loop from Nr − 1 down to 1 is the whole decryption round sequence |
| RijndaelCipher.UndoSubShift | lab3/task3-rijndael-files/lib-src/Rijndael.java:215-249 | inverse shift and inverse substitution undo substitution and shift |
| RijndaelCipher.UndoRound | lab3/task3-rijndael-files/lib-src/Rijndael.java:158-163 | one decryption round undoes one encryption round |
| RijndaelCipher.UndoRounds | lab3/task3-rijndael-files/lib-src/Rijndael.java:158-163 | n decryption rounds undo n encryption rounds |
| RijndaelCipher.CipherStateInverse | lab3/task3-rijndael-files/lib-src/Rijndael.java:143-213 | the decryption state sequence undoes the encryption state sequence with the same round keys |
| RijndaelCipher.DecryptEncrypt | lab3/task3-rijndael-files/lib-src/Rijndael.java:143-213 | decrypting the encryption of a block with the same round keys gives the block back |
| RijndaelCipher.RotWord | lab3/task3-rijndael-files/lib-src/Rijndael.java:117-124 | rotWord moves each byte one place to the left, cyclically |
| RijndaelCipher.RconPower | lab3/task3-rijndael-files/lib-src/Rijndael.java:134-141 | rcon(i) is x^(i−1) reduced modulo x⁸ + modulus |
| RijndaelCipher.Words | lab3/task3-rijndael-files/lib-src/Rijndael.java:85-104 | the expanded word list holds word k of the key schedule at index k |
| RijndaelCipher.WordsExpand | lab3/task3-rijndael-files/lib-src/Rijndael.java:85-104 | the first Nk words copy the key and every later word follows the expansion rule |
| RijndaelCipher.Layout | lab3/task3-rijndael-files/lib-src/Rijndael.java:106-112 | the round keys are Nr + 1 keys of 4·Nb bytes |
| RijndaelCipher.RoundKeys | lab3/task3-rijndael-files/lib-src/Rijndael.java:79-115 | expandKey yields Nr + 1 round keys of 4·Nb bytes |
| RijndaelCipher.LayoutByPositions | lab3/task3-rijndael-files/lib-src/Rijndael.java:106-112 | round keys that agree with the word array at every (round, row, col) position are the layout |
| RijndaelCipher.LayoutEntry | lab3/task3-rijndael-files/lib-src/Rijndael.java:109 | the layout puts word round·Nb + col, byte row, at index row·Nb + col of round key round |
| RijndaelCipher.RoundKeyLayout | lab3/task3-rijndael-files/lib-src/Rijndael.java:109 | round key byte row·Nb + col is byte row of word round·Nb + col |
| RijndaelCipher.AddRoundKeyTransposed | lab3/task3-rijndael-files/lib-src/Rijndael.java:349-355 | with the expandKey layout of lines 105-111 and Nb = 4, addRoundKey adds word round·4 + i byte j to state entry (i, j), the transpose of the standard layout |
| RijndaelCipher.AddRoundKeyEntry | lab3/task3-rijndael-files/lib-src/Rijndael.java:349-355 | addRoundKey XORs state entry (i, j) with key byte j·4 + i |
| Rijndael.Grid | lab3/task3-rijndael-files/lib-src/Rijndael.java:149 | the array state viewed as a 4 × Nb state value |
| Rijndael.GridIs | lab3/task3-rijndael-files/lib-src/Rijndael.java:149 | an array that agrees entrywise with a state value is that value |
| Rijndael.AffineBitIsSum | lab3/task3-rijndael-files/lib-src/Rijndael.java:51-57 | the five-tap XOR with the constant bit is bit i of the affine map |
| Rijndael.AffineLowAll | lab3/task3-rijndael-files/lib-src/Rijndael.java:50-60 | after eight iterations the accumulated bits are the affine map |
| Rijndael.AffineTransform | lab3/task3-rijndael-files/lib-src/Rijndael.java:46-63 | the bit loop computes the Rijndael affine map |
| Rijndael.EntryUnique | lab3/task3-rijndael-files/lib-src/Rijndael.java:38-43 | two S-box inputs with the same output are equal |
| Rijndael.EntryNotZeros | lab3/task3-rijndael-files/lib-src/Rijndael.java:35-43 | no non-zero input is mapped to 0x63, which input 0 holds |
| Rijndael.CoprimeStep | lab3/task3-rijndael-files/lib-src/Rijndael.java:38-39 | one more element coprime to the field polynomial extends the checked prefix |
| Rijndael.ExtendBoxes | lab3/task3-rijndael-files/lib-src/Rijndael.java:39-42 | entry i written from the inverse of i keeps both tables consistent on the prefix |
| Rijndael.InverseFailed | lab3/task3-rijndael-files/lib-src/Rijndael.java:39 | a failing inverse call means not every non-zero byte is invertible, with the error that call raised |
| Rijndael.BoxesDone | lab3/task3-rijndael-files/lib-src/Rijndael.java:31-44 | the completed tables are the Rijndael S-box for the modulus and its inverse |
| Rijndael.BuildSBoxes | lab3/task3-rijndael-files/lib-src/Rijndael.java:31-44 | succeeds exactly when every non-zero byte is invertible modulo x⁸ + modulus, with the error inverse raises otherwise; the tables are then the S-box and its inverse |
| Rijndael.FillEntry | lab3/task3-rijndael-files/lib-src/Rijndael.java:38-43 | one iteration fills entry i of both tables or reports the inverse error |
| Rijndael.RecordEntry | lab3/task3-rijndael-files/lib-src/Rijndael.java:41-42 | sBox[i] := t and invSBox[t] := i, nothing else |
| Rijndael.WordCount | lab3/task3-rijndael-files/lib-src/Rijndael.java:80-91 | the key words fit inside the expanded word array |
| Rijndael.Rijndael.Init | lab3/task3-rijndael-files/lib-src/Rijndael.java:21-28 | the fields take the checked sizes and the built tables, and no round keys are set |
| Rijndael.Rijndael.New | lab3/task3-rijndael-files/lib-src/Rijndael.java:13-29 | block size checked first, then key size, then S-box construction; on success blockSize, keySize, Nb, Nk, Nr = max(Nb, Nk) + 6 and the modulus as given |
| Rijndael.Rijndael.SetEncryptionKey | lab3/task3-rijndael-files/lib-src/Rijndael.java:65-71 | a key of the wrong length is rejected and changes nothing; otherwise the round keys are the key expansion |
| Rijndael.Rijndael.SetDecryptionKey | lab3/task3-rijndael-files/lib-src/Rijndael.java:73-76 | the same as setEncryptionKey |
| Rijndael.Rijndael.SubWord | lab3/task3-rijndael-files/lib-src/Rijndael.java:126-132 | each byte of the word goes through the S-box |
| Rijndael.Rijndael.Rcon | lab3/task3-rijndael-files/lib-src/Rijndael.java:134-141 | the multiply loop computes the round constant x^(i−1) |
| Rijndael.Rijndael.ExpandKey | lab3/task3-rijndael-files/lib-src/Rijndael.java:79-115 | a key shorter than keySize is the out-of-bounds error; otherwise the round keys of the key schedule |
| Rijndael.Rijndael.ExpandCopied | lab3/task3-rijndael-files/lib-src/Rijndael.java:91-115 | expanding the copied key words and laying them out gives the round keys |
| Rijndael.Rijndael.CopyKey | lab3/task3-rijndael-files/lib-src/Rijndael.java:85-89 | the first Nk words are copied from the key, failing exactly when the key is too short |
| Rijndael.Rijndael.ExpandWords | lab3/task3-rijndael-files/lib-src/Rijndael.java:91-104 | the expansion loop fills every word with the key-schedule word |
| Rijndael.Rijndael.AddWord | lab3/task3-rijndael-files/lib-src/Rijndael.java:101-103 | word i becomes word i − Nk XOR temp |
| Rijndael.Rijndael.NextTemp | lab3/task3-rijndael-files/lib-src/Rijndael.java:92-99 | temp is RotWord/SubWord/Rcon or SubWord (Nk > 6, i mod Nk = 4) or the previous word |
| Rijndael.Rijndael.SpreadWords | lab3/task3-rijndael-files/lib-src/Rijndael.java:106-112 | the layout loop produces the round keys from the words |
| Rijndael.Rijndael.SpreadRound | lab3/task3-rijndael-files/lib-src/Rijndael.java:107-111 | one round of the layout loop fills that round key |
| Rijndael.Rijndael.Encrypt | lab3/task3-rijndael-files/lib-src/Rijndael.java:143-177 | a block of the wrong size is rejected, no key is the null dereference, otherwise the cipher of the block |
| Rijndael.Rijndael.Decrypt | lab3/task3-rijndael-files/lib-src/Rijndael.java:179-213 | a block of the wrong size is rejected, no key is the null dereference, otherwise the inverse cipher |
| Rijndael.Rijndael.DecryptUndoesEncrypt | lab3/task3-rijndael-files/lib-src/Rijndael.java:143-213 | with a key set, decrypt(encrypt(block)) = block for every block of blockSize bytes |
| Rijndael.Rijndael.EncryptState | lab3/task3-rijndael-files/lib-src/Rijndael.java:156-167 | the state after encryption is the cipher's state function of the loaded block |
| Rijndael.Rijndael.EncryptRounds | lab3/task3-rijndael-files/lib-src/Rijndael.java:158-163 | the round loop applies rounds 1 … Nr − 1 |
| Rijndael.Rijndael.EncryptStep | lab3/task3-rijndael-files/lib-src/Rijndael.java:158-163 | one loop iteration applies round number round |
| Rijndael.Rijndael.EncryptRound | lab3/task3-rijndael-files/lib-src/Rijndael.java:159-162 | subBytes, shiftRows, mixColumns, addRoundKey on the array state |
| Rijndael.Rijndael.DecryptState | lab3/task3-rijndael-files/lib-src/Rijndael.java:192-203 | the state after decryption is the inverse cipher's state function |
| Rijndael.Rijndael.DecryptRounds | lab3/task3-rijndael-files/lib-src/Rijndael.java:194-199 | the loop from Nr − 1 down to 1 applies those decryption rounds |
| Rijndael.Rijndael.DecryptStep | lab3/task3-rijndael-files/lib-src/Rijndael.java:194-199 | one loop iteration applies decryption round number round |
| Rijndael.Rijndael.DecryptRound | lab3/task3-rijndael-files/lib-src/Rijndael.java:195-198 | invShiftRows, invSubBytes, addRoundKey, invMixColumns on the array state |
| Rijndael.Rijndael.LoadState | lab3/task3-rijndael-files/lib-src/Rijndael.java:149-154 | the fresh 4 × Nb array holds the block in column-major order |
| Rijndael.Rijndael.StoreState | lab3/task3-rijndael-files/lib-src/Rijndael.java:169-174 | the output block reads the state in column-major order |
| Rijndael.Rijndael.SubBytes | lab3/task3-rijndael-files/lib-src/Rijndael.java:215-221 | every state byte goes through the S-box |
| Rijndael.Rijndael.InvSubBytes | lab3/task3-rijndael-files/lib-src/Rijndael.java:223-229 | every state byte goes through the inverse S-box |
| Rijndael.Rijndael.Substitute | lab3/task3-rijndael-files/lib-src/Rijndael.java:215-229 | the table-lookup loop substitutes every byte |
| Rijndael.Rijndael.ShiftRows | lab3/task3-rijndael-files/lib-src/Rijndael.java:231-239 | row r is rotated left by r |
| Rijndael.Rijndael.InvShiftRows | lab3/task3-rijndael-files/lib-src/Rijndael.java:241-249 | row r is rotated right by r |
| Rijndael.Rijndael.ReplaceRow | lab3/task3-rijndael-files/lib-src/Rijndael.java:236-247 | one row of the state is replaced by temp, the others unchanged |
| Rijndael.Rijndael.AddRoundKey | lab3/task3-rijndael-files/lib-src/Rijndael.java:349-355 | state (row, col) is XORed with key byte col·4 + row |
| Rijndael.Rijndael.MixColumns | lab3/task3-rijndael-files/lib-src/Rijndael.java:251-264 | every column is replaced by mixColumn of it |
| Rijndael.Rijndael.InvMixColumns | lab3/task3-rijndael-files/lib-src/Rijndael.java:300-313 | every column is replaced by invMixColumn of it |
| Rijndael.Rijndael.ReadColumn | lab3/task3-rijndael-files/lib-src/Rijndael.java:253-256 | the copied column is column col of the state |
| Rijndael.Rijndael.WriteColumn | lab3/task3-rijndael-files/lib-src/Rijndael.java:260-262 | column col is replaced, the others unchanged |
| Rijndael.Rijndael.MixColumn | lab3/task3-rijndael-files/lib-src/Rijndael.java:266-298 | the four XORs of multiplyMod terms compute the MixColumns row products |
| Rijndael.Rijndael.InvMixColumn | lab3/task3-rijndael-files/lib-src/Rijndael.java:315-347 | the four XORs of multiplyMod terms compute the InvMixColumns row products |
| Rijndael.Rijndael.ColumnOf | lab3/task3-rijndael-files/lib-src/Rijndael.java:267 | the fresh column holds the four bytes in order |
| Rijndael.Rijndael.RowProduct | lab3/task3-rijndael-files/lib-src/Rijndael.java:269-274 | one output byte is the row's sum of field products |
| Rijndael.Rijndael.Times | lab3/task3-rijndael-files/lib-src/Rijndael.java:270 | a multiplyMod call under an irreducible modulus is the field product |
| RijndaelSpec.SubBytes | lab3/task3-rijndael-files/lib-src/Rijndael.java:215-221 | keeps the shape of the state; SubBytesInverse is its round trip |
| RijndaelSpec.ShiftRows | lab3/task3-rijndael-files/lib-src/Rijndael.java:231-239 | keeps the 4 × Nb shape; ShiftRowsInverse is its round trip |
| RijndaelSpec.InvShiftRows | lab3/task3-rijndael-files/lib-src/Rijndael.java:241-249 | keeps the 4 × Nb shape; ShiftRowsInverse is its round trip |
| RijndaelSpec.AddRoundKey | lab3/task3-rijndael-files/lib-src/Rijndael.java:349-355 | keeps the 4 × Nb shape; AddRoundKeyInvolution is its round trip |
| RijndaelSpec.MixColumn | lab3/task3-rijndael-files/lib-src/Rijndael.java:266-298 | a column of four bytes; MixColumnInverse is its round trip |
| RijndaelSpec.InvMixColumn | lab3/task3-rijndael-files/lib-src/Rijndael.java:315-347 | a column of four bytes; MixColumnInverse is its round trip |
| RijndaelSpec.MixColumns | lab3/task3-rijndael-files/lib-src/Rijndael.java:251-264 | keeps the 4 × Nb shape; MixColumnsInverse is its round trip |
| RijndaelSpec.InvMixColumns | lab3/task3-rijndael-files/lib-src/Rijndael.java:300-313 | keeps the 4 × Nb shape; MixColumnsInverse is its round trip |
| RijndaelCipher.FromState | lab3/task3-rijndael-files/lib-src/Rijndael.java:169-174 | a block of 4·Nb bytes; StateRoundTrip is its round trip |
| RijndaelCipher.EncryptBlock | lab3/task3-rijndael-files/lib-src/Rijndael.java:143-177 | a block of 4·Nb bytes; DecryptEncrypt is its round trip |
| RijndaelCipher.DecryptBlock | lab3/task3-rijndael-files/lib-src/Rijndael.java:179-213 | a block of 4·Nb bytes; DecryptEncrypt is its round trip |
| Integers.Abs | lab2/task3-rsa/lib-src/NumberTheoryService.java:65-66 | the absolute value is x or −x and never negative |
| Integers.EuclidDivides | lab2/task3-rsa/lib-src/NumberTheoryService.java:64-75 | the Euclidean remainder loop's result divides both arguments |
| Integers.EuclidGreatest | lab2/task3-rsa/lib-src/NumberTheoryService.java:64-75 | every common divisor divides the Euclidean result |
| Integers.EuclidIsGcd | lab2/task3-rsa/lib-src/NumberTheoryService.java:64-75 | Euclid on the absolute values is the greatest common divisor of a and b, signs included |
| Integers.GcdUnique | lab2/task3-rsa/lib-src/NumberTheoryService.java:64-75 | the non-negative greatest common divisor is unique |
| Integers.EuclidSymmetric | lab2/task3-rsa/lib-src/NumberTheoryService.java:64-75 | the gcd does not depend on the argument order |
| Integers.EuclidZero | lab2/task3-rsa/lib-src/NumberTheoryService.java:64-75 | gcd(0, b) = gcd(b, 0) = b |
| Integers.EuclidHalf | lab2/task3-rsa/lib-src/NumberTheoryService.java:36-43 | halving an even argument does not change its gcd with an odd n |
| Integers.OddDivisorOfDouble | lab2/task3-rsa/lib-src/NumberTheoryService.java:36-43 | a divisor of an odd n that divides 2a divides a |
| Integers.PowAdd | lab2/task3-rsa/lib-src/NumberTheoryService.java:137-159 | b^(e1+e2) = b^e1 · b^e2 |
| Integers.PowSquare | lab2/task3-rsa/lib-src/NumberTheoryService.java:154-155 | (b²)^k = b^(2k), the squaring step of modPow |
| Integers.PowModNext | lab2/task3-rsa/lib-src/NumberTheoryService.java:150-152 | multiplying the residue by b gives the residue of the next power |
| Integers.PowModBase | lab2/task3-rsa/lib-src/NumberTheoryService.java:147 | reducing the base first does not change b^e mod m |
| NumberTheoryService.Gcd | lab2/task3-rsa/lib-src/NumberTheoryService.java:64-75 | returns the non-negative greatest common divisor of a and b, whatever their signs |
| NumberTheoryService.GcdWithZero | lab2/task3-rsa/lib-src/NumberTheoryService.java:64-75 | gcd(0, b) = \|b\| |
| NumberTheoryService.BezoutStep | lab2/task3-rsa/lib-src/NumberTheoryService.java:108-121 | one loop step keeps each remainder a combination x·a + y·b |
| NumberTheoryService.ExtendedGcd | lab2/task3-rsa/lib-src/NumberTheoryService.java:89-135 | b = 0 returns (a, 1, 0); otherwise the gcd of a and b; always a·x + b·y = gcd, after the sign corrections |
| NumberTheoryService.ExtendedLoop | lab2/task3-rsa/lib-src/NumberTheoryService.java:100-125 | on magnitudes the loop returns the gcd with Bézout coefficients |
| NumberTheoryService.SquareMultiplyStep | lab2/task3-rsa/lib-src/NumberTheoryService.java:149-156 | one square-and-multiply step keeps result · base^exponent mod m unchanged |
| NumberTheoryService.ModPow | lab2/task3-rsa/lib-src/NumberTheoryService.java:137-159 | modulus 1 gives 0 first; a negative exponent is rejected; a non-positive modulus is the arithmetic error; otherwise base^exponent mod modulus |
| NumberTheoryService.ModPowExample | lab2/task1-number-theory/test/NumberTheoryServiceTest.java:104 | 2^10 mod 1000 = 24 |
| NumberTheoryService.Legendre | lab2/task3-rsa/lib-src/NumberTheoryService.java:5-26 | −1, 0 or 1: 0 when p divides a, 1 exactly when a^((p−1)/2) ≡ 1, −1 exactly when it is ≡ p − 1 |
| NumberTheoryService.LegendreSymbol | lab2/task3-rsa/lib-src/NumberTheoryService.java:5-26 | an even p is rejected, a negative odd p is the arithmetic error of mod, otherwise Euler's criterion value |
| NumberTheoryService.LegendreExamples | lab2/task1-number-theory/test/NumberTheoryServiceTest.java:31-32 | (2/7) = 1 and (3/7) = −1 |
| NumberTheoryService.Jacobi | lab2/task3-rsa/lib-src/NumberTheoryService.java:28-62 | the Jacobi symbol is −1, 0 or 1 |
| NumberTheoryService.JacobiZero | lab2/task3-rsa/lib-src/NumberTheoryService.java:57-61 | the symbol is 0 exactly when a and n share a factor |
| NumberTheoryService.RemainderAsCombination | lab2/task3-rsa/lib-src/NumberTheoryService.java:33 | a mod n differs from a by a multiple of n |
| NumberTheoryService.GcdOfRemainder | lab2/task3-rsa/lib-src/NumberTheoryService.java:33 | reducing a modulo n does not change gcd(a, n) |
| NumberTheoryService.JacobiCoprime | lab2/task3-rsa/lib-src/NumberTheoryService.java:28-62 | the result is 0 exactly when gcd(a, n) ≠ 1, for every integer a |
| NumberTheoryService.JacobiExample | lab2/task1-number-theory/test/NumberTheoryServiceTest.java:50 | (1001/9907) = −1 |
| NumberTheoryService.JacobiSymbol | lab2/task3-rsa/lib-src/NumberTheoryService.java:28-62 | n ≤ 1 or even is rejected; otherwise the loop returns the Jacobi symbol of a mod n |
| NumberTheoryService.JacobiHalving | lab2/task3-rsa/lib-src/NumberTheoryService.java:37-43 | removing a factor 2 flips the sign exactly when n ≡ 3, 5 (mod 8) |
| NumberTheoryService.JacobiReciprocity | lab2/task3-rsa/lib-src/NumberTheoryService.java:45-54 | swapping flips the sign exactly when both are ≡ 3 (mod 4) |
| NumberTheoryService.StripTwos | lab2/task3-rsa/lib-src/NumberTheoryService.java:37-43 | the inner loop leaves an odd a and keeps sign · (a/n) unchanged |
| RsaService.NewKeyGenerator | lab2/task3-rsa/src/RSAService.java:51-63 | minProbability outside [0.5, 1) is rejected first, then a bit length below 8; otherwise the generator keeps its three settings |
| RsaService.Encrypt | lab2/task3-rsa/src/RSAService.java:199-204 | a message outside [0, n) is rejected; otherwise message^e mod n, with n = 1 giving 0 and, for n > 1, a negative e the modPow error "Negative exponent not supported" |
| RsaService.Decrypt | lab2/task3-rsa/src/RSAService.java:206-211 | a ciphertext outside [0, n) is rejected; otherwise ciphertext^d mod n, with n = 1 giving 0 and, for n > 1, a negative d the modPow error "Negative exponent not supported" |
| RsaService.ResultInRange | lab2/task3-rsa/src/RSAService.java:199-211 | every result of encrypt and decrypt lies in [0, n) |
| RsaService.Sqrt | lab2/task3-rsa/src/RSAService.java:151-179 | a negative argument is rejected; otherwise the binary search returns the floor square root |
| Integers.SqrtFrom | lab2/task3-rsa/src/RSAService.java:151-179 | the upward search from a root below n ends at the floor square root |
| Integers.FloorSqrt | lab2/task3-rsa/src/RSAService.java:151-179 | r² ≤ n < (r + 1)² |
| Integers.FloorSqrtUnique | lab2/task3-rsa/src/RSAService.java:151-179 | the floor square root is unique, so any correct search returns it |
| RsaService.CoprimeAboveDouble | lab2/task3-rsa/src/RSAService.java:125-128 | 2k + 1 is coprime to k, so the odd search stops by 2\|phi\| + 1 |
| RsaService.LeastOddCoprime | lab2/task3-rsa/src/RSAService.java:125-128 | the search from 3 in steps of 2 returns the least odd e ≥ 3 coprime to phi, at most 2\|phi\| + 1 |
| RsaService.OddSearchStep | lab2/task3-rsa/src/RSAService.java:126-127 | one step past a non-coprime e keeps "no smaller odd candidate is coprime" |
| RsaService.NextOdd | lab2/task3-rsa/src/RSAService.java:127 | no odd number lies strictly between e and e + 2 |
| RsaService.SelectPublicExponent | lab2/task3-rsa/src/RSAService.java:121-132 | 65537 when it is below phi and coprime to it, otherwise the least odd coprime e ≥ 3 |
| RsaService.InverseOfBezout | lab2/task3-rsa/src/RSAService.java:134-141 | the Bézout coefficient reduced modulo phi is an inverse of e |
| RsaService.ComputePrivateExponent | lab2/task3-rsa/src/RSAService.java:134-141 | a non-positive phi is the arithmetic error of mod; otherwise d in [0, phi), and e·d ≡ 1 (mod phi) when e is coprime to phi |
| RsaService.FermatSecureIff | lab2/task3-rsa/src/RSAService.java:114-119 | the check passes exactly when p + q < 3·\|p − q\|, for p + q ≥ 0 |
| RsaService.IsSecureAgainstWienerAttack | lab2/task3-rsa/src/RSAService.java:143-149 | a negative n is the square-root error; otherwise true exactly when d exceeds ⌊√⌊√n⌋⌋ |
| RsaService.WienerThresholdBound | lab2/task3-rsa/src/RSAService.java:143-149 | the threshold to the fourth power is at most n |
| RsaService.PrimeCandidate | lab2/task3-rsa/src/RSAService.java:103-109 | draws below 2 are skipped; an even draw is bumped to the next odd number |
| RsaService.GeneratePrime | lab2/task3-rsa/src/RSAService.java:100-112 | the do-while loop returns the first candidate that passes the primality test, if any |
| RsaService.GeneratedPrimeIsOdd | lab2/task3-rsa/src/RSAService.java:100-112 | a generated prime is an odd candidate ≥ 3 that passes the test and comes from one of the draws |
| RsaService.FirstSecure | lab2/task3-rsa/src/RSAService.java:82-84 | the first q that passes the Fermat check, all earlier ones failing; none exactly when every q fails |
| RsaService.KeyPairFromPrimes | lab2/task3-rsa/src/RSAService.java:86-97 | n = pq, phi = (p−1)(q−1), the selected e coprime to phi, d its inverse in [0, phi); a key pair exactly when d passes the Wiener check, else the retry loop that never ends |
| RsaService.GenerateKeyPair | lab2/task3-rsa/src/RSAService.java:78-98 | no key pair exactly when no drawn q passes the Fermat check; otherwise key generation from p and the first q that does |
| WienerAttackService.Quotients | lab2/task4-wiener-attack/src/WienerAttackService.java:101-108 | the expansion stops after at most the given number of terms |
| WienerAttackService.ContinuedFraction | lab2/task4-wiener-attack/src/WienerAttackService.java:96-111 | at most 1000 partial quotients |
| WienerAttackService.ComputeContinuedFraction | lab2/task4-wiener-attack/src/WienerAttackService.java:96-111 | a negative n is the arithmetic error of mod; otherwise the Euclidean partial quotients of e/n, at most 1000 |
| WienerAttackService.QuotientsPositive | lab2/task4-wiener-attack/src/WienerAttackService.java:101-108 | every partial quotient of a/b with a > b is at least 1 |
| WienerAttackService.QuotientsArePairs | lab2/task4-wiener-attack/src/WienerAttackService.java:101-108 | term i is the quotient of the i-th Euclidean remainder pair, and a short expansion ends on a zero remainder |
| WienerAttackService.PairStep | lab2/task4-wiener-attack/src/WienerAttackService.java:105-107 | one loop step moves the remainder pair (a, b) to (b, a mod b) |
| WienerAttackService.Convergents | lab2/task4-wiener-attack/src/WienerAttackService.java:59-94 | one convergent per term, the i-th being h_i / k_i of the standard recurrence |
| WienerAttackService.ComputeConvergents | lab2/task4-wiener-attack/src/WienerAttackService.java:59-94 | a negative n is the arithmetic error; otherwise the convergents of e/n's expansion |
| WienerAttackService.ExtendConvergents | lab2/task4-wiener-attack/src/WienerAttackService.java:80-91 | the loop from index 2 completes the convergent list |
| WienerAttackService.DenominatorsFrom | lab2/task4-wiener-attack/src/WienerAttackService.java:80-91 | with positive quotients after the first, every denominator is at least 1 |
| WienerAttackService.DenominatorsPositive | lab2/task4-wiener-attack/src/WienerAttackService.java:59-94 | every convergent of e/n has a positive denominator |
| WienerAttackService.Determinant | lab2/task4-wiener-attack/src/WienerAttackService.java:80-91 | h_i k_{i−1} − h_{i−1} k_i = ±1, alternating |
| WienerAttackService.DeterminantStep | lab2/task4-wiener-attack/src/WienerAttackService.java:82-83 | one recurrence step flips the sign of the determinant |
| WienerAttackService.UnitCombinationCoprime | lab2/task4-wiener-attack/src/WienerAttackService.java:80-91 | numbers with a ±1 integer combination are coprime |
| WienerAttackService.LowestTerms | lab2/task4-wiener-attack/src/WienerAttackService.java:59-94 | every convergent is in lowest terms |
| WienerAttackService.PairsThroughConvergents | lab2/task4-wiener-attack/src/WienerAttackService.java:59-111 | a and b are recovered from the current remainder pair through the last two convergents |
| WienerAttackService.LastConvergent | lab2/task4-wiener-attack/src/WienerAttackService.java:59-111 | when the expansion ends before 1000 terms the last convergent equals e/n exactly |
| WienerAttackService.CandidatePhiExact | lab2/task4-wiener-attack/src/WienerAttackService.java:47 | when e·d − 1 = k·phi, the truncating division recovers phi exactly |
| WienerAttackService.VerifyDecryptionExponent | lab2/task4-wiener-attack/src/WienerAttackService.java:125-142 | false unless e·d ≡ 1 (mod phi); then whether 42 (or 2 when n ≤ 42) survives encryption and decryption; a negative e is the modPow error |
| WienerAttackService.FirstBreaking | lab2/task4-wiener-attack/src/WienerAttackService.java:39-54 | the index of a convergent that breaks the key, from the given start |
| WienerAttackService.FirstBreakingSpec | lab2/task4-wiener-attack/src/WienerAttackService.java:39-54 | none exactly when no convergent breaks the key; otherwise every earlier one fails |
| WienerAttackService.Attack | lab2/task4-wiener-attack/src/WienerAttackService.java:36-57 | negative n is the arithmetic error; the convergents of e/n are returned; success exactly when some convergent breaks the key, with d and phi from the first one, a valid phi and e·d ≡ 1 (mod phi); otherwise neither is set |
| WienerAttackService.TryConvergent | lab2/task4-wiener-attack/src/WienerAttackService.java:40-53 | a convergent yields phi exactly when k ≠ 0, phi is in (0, n) and the exponent verifies |
| WienerAttackService.ExampleKeyExpansion | lab2/task4-wiener-attack/test/WienerAttackTest.java:142-145 | 17993/90581 expands to [0, 5, 29, 4, 1, 3, 2, 4, 3] |
| WienerAttackService.ExampleKeyConvergents | lab2/task4-wiener-attack/test/WienerAttackTest.java:142-145 | the first convergents are 0/1 and 1/5 |
| WienerAttackService.ExampleKeyCandidate | lab2/task4-wiener-attack/test/WienerAttackTest.java:142-154 | the convergent 1/5 gives phi = 89964, valid for n, with 17993·5 ≡ 1 |
| WienerAttackService.SquareMultiplyIsPow | lab2/task4-wiener-attack/src/WienerAttackService.java:138-139 | square-and-multiply computes b^e mod m |
| WienerAttackService.ExampleKeyEncrypts | lab2/task4-wiener-attack/test/WienerAttackTest.java:156-157 | 42^17993 mod 90581 = 82677 |
| WienerAttackService.ExampleKeyDecrypts | lab2/task4-wiener-attack/test/WienerAttackTest.java:158-159 | 82677^5 mod 90581 = 42 |
| WienerAttackService.ExampleKeyBroken | lab2/task4-wiener-attack/test/WienerAttackTest.java:142-147 | the first convergent that breaks the example key is 1/5 |
| WienerAttackService.AttackExampleKey | lab2/task4-wiener-attack/test/WienerAttackTest.java:142-159 | the attack on (17993, 90581) succeeds with d = 5 and phi = 89964 |
| VulnerableRsaGenerator.DrawLoop | lab2/task4-wiener-attack/src/VulnerableRSAGenerator.java:52-58 | the do-while loop as written keeps a draw from the given ones: the first coprime draw ≥ 2, a draw of 1, or the 10000th counted draw |
| VulnerableRsaGenerator.DrawLoopGivesUp | lab2/task4-wiener-attack/src/VulnerableRSAGenerator.java:57-58 | after 10000 counted non-coprime draws the loop stops on the last of them |
| VulnerableRsaGenerator.GenerateSmallD | lab2/task4-wiener-attack/src/VulnerableRSAGenerator.java:49-68 | the loop's draw when it is coprime to phi, otherwise the least odd coprime d ≥ 3; the result is always coprime to phi |
| VulnerableRsaGenerator.DrawLoopKeepsOne | lab2/task4-wiener-attack/src/VulnerableRSAGenerator.java:54-58 | a first draw of 1 ends the loop with d = 1, because continue jumps to the coprimality condition |
| VulnerableRsaGenerator.OneIsCoprime | lab2/task4-wiener-attack/src/VulnerableRSAGenerator.java:58 | 1 is coprime to every phi, so the loop condition lets it through |
| VulnerableRsaGenerator.UnitInverseIsOne | lab2/task4-wiener-attack/src/VulnerableRSAGenerator.java:70-77 | the inverse of d = 1 modulo phi > 1 is e = 1 |
| VulnerableRsaGenerator.UnitExponentIsIdentity | lab2/task4-wiener-attack/src/VulnerableRSAGenerator.java:70-77 | with e = 1 encryption leaves every message unchanged |
| VulnerableRsaGenerator.DrawLoopSkipping | lab2/task4-wiener-attack/src/VulnerableRSAGenerator.java:52-58 | the intended loop: draws ≤ 1 are skipped, the kept draw is at least 2 |
| VulnerableRsaGenerator.DrawLoopSkipsOne | lab2/task4-wiener-attack/src/VulnerableRSAGenerator.java:54-56 | the intended loop ignores a draw of 1 |
| VulnerableRsaGenerator.GenerateSmallDSkipping | lab2/task4-wiener-attack/src/VulnerableRSAGenerator.java:49-68 | the intended generateSmallD returns a d ≥ 2 coprime to phi |
| VulnerableRsaGenerator.GenerateVulnerableKeyPair | lab2/task4-wiener-attack/src/VulnerableRSAGenerator.java:30-43 | a negative n is the square-root error; otherwise n = pq, phi = (p−1)(q−1), d from GenerateSmallD coprime to phi, e its inverse in [0, phi); a first draw of 1 gives e = d = 1 |
| PrimalityTests.SingleTestErrorProbability | lab2/task2-primality-tests/src/MillerRabinTest.java:38-41 | 0.5 for Fermat and Solovay–Strassen, 0.25 only for Miller–Rabin |
| PrimalityTests.JacobiReduced | lab2/task3-rsa/lib-src/SolovayStrassenTest.java:18-21 | ±1 reduced modulo n ≥ 3 is 1 or n − 1 |
| PrimalityTests.TwoAdic | lab2/task2-primality-tests/src/MillerRabinTest.java:9-14 | n − 1 = 2^s · d with d odd |
| PrimalityTests.SquaringsArePowers | lab2/task2-primality-tests/src/MillerRabinTest.java:23-24 | i squarings of a^d mod n give a^(d·2^i) mod n |
| PrimalityTests.OneStaysOne | lab2/task2-primality-tests/src/MillerRabinTest.java:30-32 | once the sequence reaches 1 it stays 1, so returning false there is safe |
| PrimalityTests.Decompose | lab2/task2-primality-tests/src/MillerRabinTest.java:9-14 | the halving loop computes s and d of n − 1 = 2^s · d |
| PrimalityTests.MillerRabinRoundUnfold | lab2/task2-primality-tests/src/MillerRabinTest.java:16-35 | the round passes exactly when x = 1 or a later square hits n − 1 |
| PrimalityTests.MillerRabinSingleTest | lab2/task2-primality-tests/src/MillerRabinTest.java:6-36 | the single test decides the Miller–Rabin round for the witness |
| PrimalityTests.PerformSingleTest | lab2/task2-primality-tests/src/FermatTest.java:6-10 | each kind's single test decides its round: Fermat a^(n−1) ≡ 1, Solovay–Strassen a^((n−1)/2) ≡ (a/n) ≠ 0, Miller–Rabin |
| PrimalityTests.CommonFactorOfPower | lab2/task2-primality-tests/src/FermatTest.java:8 | a common factor of a and n divides a^e mod n |
| PrimalityTests.FactorOfNeighbour | lab2/task2-primality-tests/src/FermatTest.java:9 | a factor of n larger than 1 divides neither 1 nor n − 1 |
| PrimalityTests.FermatSharedFactorFails | lab2/task2-primality-tests/src/FermatTest.java:6-10 | a witness sharing a factor with n fails the Fermat round |
| PrimalityTests.SolovayStrassenSharedFactorFails | lab2/task3-rsa/lib-src/SolovayStrassenTest.java:6-24 | a witness sharing a factor with n fails the Solovay–Strassen round |
| PrimalityTests.MillerRabinSharedFactorFails | lab2/task2-primality-tests/src/MillerRabinTest.java:6-36 | a witness sharing a factor with n fails the Miller–Rabin round |
| PrimalityTests.SharedFactorFails | lab2/task2-primality-tests/src/AbstractPrimalityTest.java:32-36 | no kind passes a witness sharing a factor with n |
| PrimalityTests.IsProbablyPrime | lab2/task2-primality-tests/src/AbstractPrimalityTest.java:13-39 | minProbability outside [0.5, 1) rejected; n < 2 false; 2 and 3 true; other even n false; otherwise true exactly when all k rounds pass, stopping at the first failure |
| PrimalityTests.GenerateRandomWitness | lab2/task2-primality-tests/src/AbstractPrimalityTest.java:51-57 | the first draw in [2, n), if any |
| PrimalityTests.FermatCatchesFifteen | lab2/task2-primality-tests/test/PrimalityTestsTest.java:39 | witness 2 shows 15 composite under Fermat |
| PrimalityTests.FermatPassesSeventeen | lab2/task2-primality-tests/test/PrimalityTestsTest.java:35 | witnesses 2 and 3 pass the Fermat round for 17 |
| PrimalityTests.SolovayStrassenPassesSeventeen | lab2/task2-primality-tests/test/PrimalityTestsTest.java:51 | witnesses 2 and 3 pass the Solovay–Strassen round for 17 |
| PrimalityTests.MillerRabinPassesSeventeen | lab2/task2-primality-tests/test/PrimalityTestsTest.java:68 | witness 3 passes the Miller–Rabin round for 17 |
| PrimalityTests.MillerRabinCatches561 | lab2/task2-primality-tests/test/PrimalityTestsTest.java:74 | witness 2 shows the Carmichael number 561 composite under Miller–Rabin |
| PrimalityTests.MillerRabinCatches1105 | lab2/task2-primality-tests/test/PrimalityTestsTest.java:134-136 | witness 2 shows the Carmichael number 1105 composite |
| PrimalityTests.MillerRabinCatches1729 | lab2/task2-primality-tests/test/PrimalityTestsTest.java:134-136 | witness 2 shows the Carmichael number 1729 composite |

## Left out

- Null references: a Java `null` array argument is modelled as an empty or wrong-length sequence and gets the same error as one. The exceptions are the IV of the cipher modes, a missing key in the cipher classes and the cipher context's arguments, where `NullPointer` or the null-specific message is modelled. Messages such as "Block cannot be null" are therefore not told apart from the length errors.
- Randomness: every `SecureRandom` draw is a parameter. This covers the RANDOM_DELTA deltas, the ISO 10126 filler bytes, the primes and exponent draws of RSA key generation, the primality witnesses and the small-d draws. Nothing is claimed about their distribution.
- PrimalityTests.IsProbablyPrime: `minProbability` is a `real`, so a Java NaN (which passes both range comparisons) is not represented. `calculateIterations` uses floating-point logarithms; the round count `k` is a parameter, not computed.
- RsaService.NewKeyGenerator: `minProbability` is a `real`, so NaN is not represented.
- CipherMode.BlockCipher: the cipher interface object is a value holding its encrypt and decrypt functions (the key already set). The key-setting state of a cipher used through the interface is not modelled.
- Gf256Service.Inverse: success is stated as "the modulus passes the test, a ≠ 0 and gcd(x⁸ + modulus, a) = 1". That every non-zero a is coprime to an irreducible modulus is not proved from the test.
- Rijndael.Rijndael.New: success is stated as `AllInvertible(modulus)` (every non-zero byte has an inverse), not derived from the irreducibility test.
- Gf256Service.GetAllIrreduciblePolynomials and GaloisFieldService.GetAllIrreduciblePolynomials: the listing is characterised, but its length is not computed. That exactly 30 moduli pass, and so fit the 30-slot array, is not proved.
- PaddingMode: the block size is a `nat`. Negative Java block sizes are not represented.
- RsaService.LeastOddCoprime and RsaService.SelectPublicExponent: both require phi ≠ 0. For phi = 0 the Java search loops forever, because no e ≥ 3 has gcd(e, 0) = 1.
- VulnerableRsaGenerator.GenerateSmallD: the search for a coprime d needs the same phi ≠ 0.
- RSA byte-array entry points: `encrypt(byte[])` and `decrypt(byte[])` are not modelled. They convert between `BigInteger` and byte arrays and strip a leading zero.
- RsaService.Sqrt: the binary search is modelled by its result, the floor square root (`Integers.FloorSqrt`). `BigInteger.sqrt` is taken to be that same floor square root.
- RsaService state: `currentKeyPair`, `regenerateKeyPair`, the getters and the key-pair-less overloads are not modelled. The two steps of key generation are modelled with the primes given.
- RsaService.GenerateKeyPair: when the first exponent fails the Wiener check, the Java retry loop recomputes the same e and d forever, because `selectPublicExponent` is deterministic. The model reports this as `RetriesForever(e, d)` and proposes no corrected retry, because the source gives no other exponent to try.
- CipherContext.RoundTrip: RANDOM_DELTA is excluded. Its ciphertext blocks are twice the block size, but `decryptAsync` splits at the block size, so the context round trip does not hold for it. RANDOM_DELTA's own round trip at the mode level is proved (`CipherMode.DeltaRoundTrip`).
- VulnerableRsaGenerator.DrawLoop: the draws are not bounded by `threshold.bitLength() − 1` bits. `generateVulnerableKeyPair` computes the threshold ⌊√⌊√n⌋⌋, but the model does not use it to limit d.
- PrimalityTests: the test suite claims 17 and 97 pass every round. The model proves this only for 17 with witnesses 2 and 3 (and Miller–Rabin with witness 3); 97 is not covered. Fermat's little theorem and Euler's criterion are not proved, so no statement covers every witness of a prime.
- NumberTheoryService.Legendre: the symbol is characterised by Euler's criterion as the code computes it. That it equals the quadratic-residue character for prime p is not proved.
- GaloisFieldService.InverseGuards: only the guards of `GaloisFieldService.inverse` are modelled. Its binary extended-Euclid loop is not, and the loop's termination is not evident for every input.
- GaloisFieldService: the private `gcd` helper is never called and is not modelled.
- Gf256Service.Factorize: only the empty cases and the irreducibility of the factors found are stated. That the factors multiply back to the input is not proved.
- DES and Rijndael known-answer vectors: no published test vector is checked. The DES permutation and S-box tables are parameters with well-formedness conditions; DESConstants is not part of this model.
- Rijndael round keys: `expandKey` lays word `round·Nb + col` out at index `row·Nb + col`, while `addRoundKey` reads index `col·4 + row`. With 4-word blocks the key is added transposed (`RijndaelCipher.AddRoundKeyTransposed`), so ciphertexts differ from FIPS PUB 197. The decryption round trip is unaffected and is proved.
- Asynchronous execution and files: the executor, `CompletableFuture`, the file wrappers and `shutdown` of the cipher context are left out. Encryption and decryption are modelled as the computations those tasks run.
- Demo programs and printing: the `Demo` classes, `toString` and console output are not modelled.
- Integer widths: Java `int` and `long` values are modelled as unbounded integers. Overflow of Java `int` arithmetic on inputs near 2³¹, for instance in the polynomial shifts of GaloisFieldService, is not modelled. `(byte)` casts and `& 0xFF` masks are written out.

## Findings

| source | as written | input that shows it | evidently intended | confidence | as-written member | corrected member |
|---|---|---|---|---|---|---|
| lab1/cipher-framework (2-nd task)/src/FeistelCipher.java:92-105 | each decryption round feeds the left half to the round function and XORs the result into the right half. This does not undo the encryption round. | one round whose function returns its input half. Encrypt maps [1, 0] to [1, 0], but decrypt maps [1, 0] to [1, 1]. | decryption runs the encryption rounds backwards, so that decrypt(encrypt(b)) = b | not executed | Feistel.FrameworkDecrypt, Feistel.FrameworkDecryptBreaksRoundTrip | Feistel.FeistelDecrypt, Feistel.RoundTrip |
| lab2/task4-wiener-attack/src/VulnerableRSAGenerator.java:52-58 | a draw of 1 reaches `continue`, which jumps to the loop condition. gcd(1, phi) = 1 ends the loop, so d = 1 and then e = 1. | phi > 1 and a first draw of 1. The key is (e, d) = (1, 1), and encryption is the identity. | draws ≤ 1 are skipped and a d ≥ 2 coprime to phi is kept | not executed | VulnerableRsaGenerator.DrawLoopKeepsOne, VulnerableRsaGenerator.GenerateSmallD | VulnerableRsaGenerator.DrawLoopSkipping, VulnerableRsaGenerator.GenerateSmallDSkipping |
