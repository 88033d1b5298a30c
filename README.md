# Triple DES engine (TDES.c) in Dafny

This project models `TDES.c`, a DES / Triple-DES engine written from scratch in C, and proves what it computes. It is layered as the C file is:

- `bits.dfy` (module `Bits`): `getBit` and `putBit`. Bits are 1-based and most significant bit first. The module also defines `Pack`, which turns a bit string back into bytes and is used to specify bit-level code.
- `permutation.dfy` (module `Permutation`): `permute`. It copies the bits a table names and zero-fills up to the next byte boundary.
- `tables.dfy` (module `Tables`): the constant tables of FIPS PUB 46-3:
  - PC-1 as its C and D halves, and PC-2;
  - E, S1..S8 and P;
  - IP as its two halves, and IP⁻¹;
  - the shift schedule.
  Each fact the proofs rely on is proved as a lemma of its own: lengths, S-box shape, shifts in {1, 2}, and IP⁻¹ inverting IP in both directions.
- `key_schedule.dfy` (module `KeySchedule`): `generateSubkeys`.
  - The halves C0 and D0 come from PC-1. Ci and Di are C0 and D0 rotated by the running sum of the shifts. Subkey i is PC-2 of Ci ‖ Di.
  - The method is proved against these closed forms.
  - The schedule is proved to turn the halves through one full rotation.
- `round_function.dfy` (module `RoundFunction`): `sBox` and `fFunction`, specified as f(R, K) = P(S(E(R) ⊕ K)).
- `block_cipher.dfy` (module `BlockCipher`): `encryptBlock` and `decryptBlock`.
  - Both are 16 Feistel rounds between IP and IP⁻¹. Decryption takes the subkeys in reverse order.
  - Proved: decryption inverts encryption and encryption inverts decryption, for every subkey array.
- `triple_des.dfy` (module `TripleDes`): `encryptTDES` and `decryptTDES`.
  - Padding to whole blocks follows the rule of RFC 5652 section 6.3, with block size 8.
  - Each block goes through E-D-E (NIST SP 800-67, keying option 1), one block at a time with no chaining, as in ECB mode (NIST SP 800-38A section 6.1).
  - Decryption runs D-E-D and strips the padding.
  - Proved: decrypting an encryption gives back the message, for every message and every 24-byte key.

The imperative functions of the C file are methods over arrays. Each is proved against a specification function:

- `PutBit`, `Permute`, `GenerateSubkeys`, `SBox`, `FFunction`, `EncryptBlock`, `DecryptBlock`, `EncryptTDES` and `DecryptTDES`.
- Where a C function has a loop, that loop sits in a method of its own with its invariant.

The pure parts are Dafny functions:

- `getBit` and the row/column arithmetic of `sBox`;
- the specifications (`Permuted`, `Subkey`, `F`, `Cipher`, `Pad`, `Unpad`, `Ecb`).

## Model

| member | source | states |
|---|---|---|
| Bits.GetBitPack | TDES.c:25-32 | getBit reads back the bit string a buffer was packed from: bit j of `Pack(bits)` is `bits[j-1]`, and the padding bits are 0 |
| Bits.BytesEqualByBits | TDES.c:25-32 | two equal-length buffers that agree on every bit getBit can read are equal |
| Bits.PutBit | TDES.c:41-53 | after putBit, bit i reads 1 when v is 1 and 0 for any other v; every other bit keeps its value; only byte (i-1)/8 changes |
| Bits.BitWrittenSpec | TDES.c:47-52 | writing the set or cleared byte at position (i-1)/8 changes bit i to the requested value and no other bit |
| Bits.XorCancel | TDES.c:185-188 | XOR with the same bytes twice gives back the original bytes: the step that lets one Feistel round undo another |
| Permutation.Permute | TDES.c:62-73 | for distinct buffers: output bit j is input bit perm[j-1] for j ≤ n; bits n+1 up to the byte boundary are 0; bytes past ⌈n/8⌉ are unchanged; the first ⌈n/8⌉ bytes equal `Permuted(input, perm, n)` |
| Permutation.PermutedBit | TDES.c:64-72 | bit j of the specification `Permuted` is input bit perm[j-1] for j ≤ n and 0 up to the byte boundary |
| Permutation.ByteCount | TDES.c:68-71 | ⌈n/8⌉ bytes hold n bits plus the 8 - n mod 8 padding bits the second loop clears (none when n mod 8 = 0) |
| Tables.TableLengths | TDES.c:85-86 | every table has the length the source reads: PC-1 halves 28, PC-2 48, E 48, P 32, IP halves 32, IP⁻¹ 64, shift schedule 17 |
| Tables.SBoxShape | TDES.c:132 | the S-box table is 8 boxes of 4 rows of 16 columns, so every sBox lookup is in range |
| Tables.ShiftsAreOneOrTwo | TDES.c:90 | each shift the schedule reads at rounds 1..16 is 1 or 2 |
| Tables.FinalPermInvertsInitial | TDES.c:179-180 | IP⁻¹ undoes IP: position IP[k] of IP⁻¹ names bit k+1 |
| Tables.InitialPermInvertsFinal | TDES.c:201 | IP undoes IP⁻¹: position IP⁻¹[k] of IP names bit k+1 |
| KeySchedule.RotateTwice | TDES.c:90-104 | rotating by a and then by b is rotating by a + b, modulo the length |
| KeySchedule.HalvesStep | TDES.c:88-104 | round i turns C(i-1) and D(i-1) left by the shift of round i, which is 1 or 2 |
| KeySchedule.FullTurn | TDES.c:90 | the sixteen shifts add up to 28, one full turn of a key half |
| KeySchedule.HalvesReturn | TDES.c:88-104 | after round 16 the halves are back to C0 and D0 |
| KeySchedule.FirstHalves | TDES.c:85-86 | C0 and D0 are the two halves of PC-1 applied to the key |
| KeySchedule.GenerateSubkeys | TDES.c:80-112 | K[0] is never written; for i = 1..16, K[i] is PC-2 of Ci ‖ Di; equal keys therefore give equal schedules |
| KeySchedule.InitialHalves | TDES.c:85-86 | c[0] and d[0] hold C0 and D0 |
| KeySchedule.NextRound | TDES.c:89-110 | one round takes the previous halves to their rotation by s, and the subkey to PC-2 of the rotated halves joined |
| KeySchedule.RotateHalves | TDES.c:90-104 | bits 1..28 of c[i] and d[i] are bits 1..28 of c[i-1] and d[i-1] rotated left by the shift (1 or 2) |
| KeySchedule.JoinHalves | TDES.c:106-108 | bits 29..56 of c[i] become the bits of d[i]; bits 1..28 are kept |
| KeySchedule.SubkeyFromBuffer | TDES.c:110 | permuting c[i] with PC-2 gives PC-2 of Ci ‖ Di |
| RoundFunction.Row | TDES.c:122-129 | the S-box row b1 b6 is in 0..3 |
| RoundFunction.Column | TDES.c:122-130 | the S-box column b2 b3 b4 b5 is in 0..15 |
| RoundFunction.SBox | TDES.c:120-133 | output[0] holds S-box idx+1 at (row, column) of input bits 6·idx+1..6·idx+6 in its high nibble; the low nibble is 0 |
| RoundFunction.NibblesPacked | TDES.c:154-164 | byte k of the S output is value 2k in the high nibble and value 2k+1 in the low nibble |
| RoundFunction.MixKey | TDES.c:148-150 | B is the expanded half-block XOR the subkey, byte by byte |
| RoundFunction.Substitute | TDES.c:152-164 | the S-box loop leaves the eight S-box values packed two to a byte, S1 first |
| RoundFunction.FFunction | TDES.c:141-167 | result is f(R, K) = P(S(E(R) ⊕ K)); it depends only on R's 4 bytes and K's 6 bytes |
| BlockCipher.RoundUndo | TDES.c:182-188 | a Feistel round applied to the swapped output with the same subkey gives back the swapped input |
| BlockCipher.FeistelInverse | TDES.c:182-189 | running the rounds in reverse subkey order on the swapped result gives back the swapped start |
| BlockCipher.FinalOfInitial | TDES.c:179-201 | IP⁻¹ of the swapped IP halves is the original block |
| BlockCipher.InitialOfFinal | TDES.c:179-201 | IP of IP⁻¹ splits back into the two halves that went in |
| BlockCipher.CipherInverse | TDES.c:174-237 | the cipher with reversed subkeys undoes the cipher |
| BlockCipher.DecryptEncrypt | TDES.c:174-237 | decryptBlock(encryptBlock(b, K), K) = b for every subkey array K |
| BlockCipher.EncryptDecrypt | TDES.c:174-237 | encryptBlock(decryptBlock(b, K), K) = b for every subkey array K |
| BlockCipher.SplitBlock | TDES.c:179-180 | L0 and R0 are the two halves of IP applied to the block |
| BlockCipher.FeistelRound | TDES.c:183-188 | L(i) = R(i-1) and R(i) = L(i-1) ⊕ f(R(i-1), k) |
| BlockCipher.RunRounds | TDES.c:182-189 | the round loop leaves the halves after all the rounds, with subkeys taken in order |
| BlockCipher.JoinBlock | TDES.c:191-201 | block becomes IP⁻¹ of R16 ‖ L16 |
| BlockCipher.EncryptBlock | TDES.c:174-202 | block becomes the DES encryption of its old value under K[1..16] |
| BlockCipher.DecryptBlock | TDES.c:209-237 | block becomes the DES cipher of its old value under K[16], K[15], …, K[1] |
| TripleDes.DecryptEde | TDES.c:262-264 | D-E-D with the three keys undoes E-D-E on one block |
| TripleDes.EncryptDed | TDES.c:296-298 | E-D-E undoes D-E-D on one block |
| TripleDes.PadLength | TDES.c:241 | add is 1..8, len + add is a multiple of 8, and add is a full block when len already is one |
| TripleDes.Pad | TDES.c:241-245 | the padded message starts with the input, is a positive multiple of 8, and every added byte holds the pad length |
| TripleDes.PadInput | TDES.c:241-245 | padded_input holds Pad(input) and add is the pad length |
| TripleDes.EcbAppend | TDES.c:259-267 | ECB on a message plus one block is ECB on the message followed by that block's image |
| TripleDes.EcbBlock | TDES.c:259-267 | output block j is the image of input block j alone |
| TripleDes.EcbInverse | TDES.c:259-301 | ECB under a block operation's inverse undoes ECB under that operation |
| TripleDes.EcbRoundTrip | TDES.c:259-301 | decrypting block by block with D-E-D undoes encrypting block by block with E-D-E |
| TripleDes.EncryptTdesSpec | TDES.c:239-271 | the ciphertext is exactly as long as the padded message |
| TripleDes.EncryptTdesBlock | TDES.c:259-267 | ciphertext block j is E_K3(D_K2(E_K1(padded block j))) and depends on no other block |
| TripleDes.ScheduleKeys | TDES.c:247-253 | K1, K2 and K3 are the schedules of key bytes 0..7, 8..15 and 16..23 |
| TripleDes.EncryptTDES | TDES.c:239-271 | result is the ECB E-D-E encryption of the padded input; *n = len + add is its length |
| TripleDes.EncryptBlocks | TDES.c:255-268 | the block loop fills result with the image of each padded block |
| TripleDes.EdeBlock | TDES.c:260-264 | one block goes through encryptBlock(K1), decryptBlock(K2), encryptBlock(K3) |
| TripleDes.UnpadPad | TDES.c:241-245 | removing the padding of a padded message gives back the message |
| TripleDes.DecryptTdesSpec | TDES.c:276-279 | decryption refuses with InvalidLength exactly when the length is not a positive multiple of 8 |
| TripleDes.TdesRoundTrip | TDES.c:239-309 | decryptTDES(encryptTDES(P, key), key) = P for every message P, the empty one included |
| TripleDes.DecryptTDES | TDES.c:273-309 | refuses bad lengths before any block work; otherwise result is the D-E-D plaintext with the padding stripped and *n its length |
| TripleDes.DecryptBlocks | TDES.c:289-301 | the block loop fills result with D_K1(E_K2(D_K3(block))) of each block |
| TripleDes.DedBlock | TDES.c:294-298 | one block goes through decryptBlock(K3), encryptBlock(K2), decryptBlock(K1) |
| TripleDes.StripPadding | TDES.c:303-307 | the decrypted buffer is cut to len - last byte, or refused when that is negative |

## Left out

- IO.c (reading and writing files) and tcrypt.c (argument parsing, usage, exit codes) are not part of this model. Their 24-byte key check appears as the precondition `|key| >= 24` of `EncryptTDES` and `DecryptTDES`. `keyLen` is unused by the C code and is dropped.
- magic.h and TDESinternal.h are not part of this model. The tables and sizes are those of FIPS PUB 46-3:
  - 17 subkey rows, row 0 unused;
  - 28-bit key halves, 48-bit subkeys, 32-bit half-blocks, 64-bit blocks, 8 S-boxes.
- DecryptTDES: the invalid-length exit (message on stderr, then `exit`) becomes the result `Fail(InvalidLength)`.
- DecryptTDES: a last byte larger than the input length makes the C code pass a negative size to `realloc`. The model returns `Fail(MalformedPadding)` instead. Padding bytes of 0, or of 9 up to the length, are accepted without a check, as in the source. No other validation is added.
- EncryptTDES, DecryptTDES: the variable-length stack array, `malloc` and `realloc` become freshly allocated arrays. A zero-length `realloc` gives an empty array.
- FFunction: `R_new` and `B` are 48 bytes in the source, and the XOR loop reads 48 bytes of the 6-byte subkey, past its end. Only bytes 0..5 ever reach the S-boxes. The model uses 6-byte buffers and a 6-byte XOR and does not reproduce the overread.
- The const inputs (`input`, `key`, subkey rows) are passed as sequence values and the subkey array as `array<seq<bv8>>`. Aliasing between `permute`'s output and input is therefore not modelled. The source never aliases them.
- The two-dimensional `L`/`R` and `c`/`d` histories are kept as the previous and current rows only. Each round reads only the row before it.
- No known-answer test vectors are evaluated in the proofs. Security properties of DES are out of scope.
