# nighthawk_tcm cipher core in Dafny

This project models the cryptographic core of the `nighthawk_tcm` C repository:

- **AES** (FIPS-197), from `aes/aes.c`. The model covers the S-box, inverse S-box and round-constant tables. It covers `g_mult` multiplication in GF(2^8), the key expansion with its `key_schedule` and `rotate_word` helpers, and the four round transformations. It also covers `aes_round`, `aes_main` and the single-block entry point `aes`.
- **CBC mode** (NIST SP 800-38A section 6.2), also from `aes/aes.c`: `aes_cbc_encrypt`, `aes_cbc_decrypt` and `aes_cbc_decrypt_no_pad`.
- **PKCS#7 padding** (RFC 5652 section 6.3), from `utils/pkcs7.c`. The padding context is modelled as a class with its init, pad and unpad operations.
- **SHA-256** (FIPS 180-4), from `sha256/sha256.c`. The model covers the round constants and the word functions, `sha256_padding`, `sha256_compression` and `sha256`.

## How the model is built

Each C function that works on buffers in place is modelled as a Dafny `method` on arrays. It keeps the C loops, temporaries and `memcpy`/`memset` calls. Each method is proved to compute a reference function on sequences:

- the AES methods in module `Aes` against the functions of `AesSpec`;
- the CBC methods in module `Cbc` against the functions of `CbcSpec`;
- the SHA-256 methods in module `Sha256` against the functions of `Sha256Spec`.

The properties the C code relies on are then proved as lemmas about those reference functions:

- each AES step has an inverse;
- decryption undoes encryption, for a single block and for CBC;
- unpadding undoes padding;
- the SHA-256 padded-message layout;
- the message schedule recurrence;
- the chaining of the compression function;
- the derivation of the SHA-256 constants from prime roots.

Bytes are `bv8` and SHA-256 words are `bv32`, so the wrap-around of the C `uint8_t` and `uint32_t` arithmetic is built into the types. A C pointer `buffer + offset` becomes an array together with an offset.

Where the C checks less than the standards it implements ask, or calls functions by signatures other than those it defines, the model follows the C:

- `pkcs7_unpad` does not check the padding bytes. It removes as many bytes as the last byte says, so `Pkcs7.Unpadded` performs no validation either.
- `aes_cbc_decrypt` does not check that the ciphertext length is a positive multiple of 16. The model states this as a precondition.
- `aes/aes.c` calls `pkcs7_pad` and `pkcs7_unpad` with output-pointer signatures that `utils/pkcs7.c` does not provide. The model connects CBC to the padding operations that `utils/pkcs7.c` does define: `Pkcs7.Context.Init`, then `Pad`, for encryption, and `Pkcs7.Context.Unpad`, whose data is the `Unpadded` prefix, for decryption.

## Model

| member | source | states |
|---|---|---|
| GaloisField.GMult | aes/aes.c:163-178 | the eight-iteration shift-and-add loop returns the field product `GMul(polyA, polyB)` |
| GaloisField.GMulZero | aes/aes.c:163-178 | {00} is absorbing on either side |
| GaloisField.GMulOne | aes/aes.c:163-178 | {01} is the identity on either side |
| GaloisField.GMulTwo | aes/aes.c:170-174 | multiplying by {02} is a left shift reduced by 0x1B when the top bit was set |
| GaloisField.GMulExamples | aes/aes.c:163-178 | the worked products {57}•{83} = {c1} and {57}•{13} = {fe} of FIPS-197 section 4.2 |
| AesTables.SBoxInverse | aes/aes.c:10-46 | `inverse_s_box[s_box[x]] == x` for every byte |
| AesTables.InvSBoxInverse | aes/aes.c:10-46 | `s_box[inverse_s_box[x]] == x` for every byte |
| AesTables.RconPowersOfX | aes/aes.c:48-50 | each of the first 15 `rcon` entries after index 0 is the previous one times x in GF(2^8) |
| AesTables.RconFirstTen | aes/aes.c:48-49 | `rcon[1..10]` are {01} to {36}, the constants AES-128 uses |
| AesMix.MixByteProducts | aes/aes.c:189-192 | the XOR of the four `g_mult` products the encrypting `mix_column` writes is the byte of FIPS-197 equation (5.6) |
| AesMix.InvMixByteProducts | aes/aes.c:184-187 | the XOR of the four `g_mult` products the decrypting `mix_column` writes is the byte of FIPS-197 equation (5.10) |
| AesMix.MixByteInverse | aes/aes.c:180-194 | unmixing a mixed column gives back its bytes |
| AesMix.InvMixByteInverse | aes/aes.c:180-194 | mixing an unmixed column gives back its bytes |
| AesSpec.RowColMapEntry | aes/aes.c:67-73 | byte `i + 4j` of the result is byte `4i + j` of the source |
| AesSpec.RowColMapInvolution | aes/aes.c:67-73 | transposing twice gives back the block, so the input and output transposes of `aes` cancel |
| AesSpec.SubBytesInverse | aes/aes.c:132-140 | substituting with one table and then the other gives back the state, in both orders |
| AesSpec.RotateInverse | aes/aes.c:142-155 | rotating a row right by n undoes rotating it left by n, and the other way round |
| AesSpec.ShiftRowsRow | aes/aes.c:142-155 | row r of the shifted state is row r rotated by r places, left when encrypting and right when decrypting; row 0 is unchanged |
| AesSpec.ShiftRowsIndex | aes/aes.c:142-155 | byte (r, c) becomes byte (r, c + r mod 4), or byte (r, c − r mod 4) when decrypting, as in FIPS-197 (5.3) and (5.9) |
| AesSpec.ShiftRowsInverse | aes/aes.c:142-155 | the decrypting shift undoes the encrypting one, and the other way round |
| AesSpec.AddRoundKeyInverse | aes/aes.c:157-161 | adding the same round key twice gives back the state |
| AesSpec.MixColumnInverse | aes/aes.c:180-194 | the decrypting column mix undoes the encrypting one, and the other way round |
| AesSpec.MixColumnsByColumn | aes/aes.c:196-207 | column c of the result is the mix of column c of the input, and of nothing else |
| AesSpec.MixColumnsInverse | aes/aes.c:196-207 | the decrypting `mix_columns` undoes the encrypting one on the whole state, and the other way round |
| AesSpec.Rounds | aes/aes.c:259-272 | the round count is Nk + 6: 10, 12 or 14 for 16-, 24- and 32-byte keys |
| AesSpec.ExpandedKeySize | aes/aes.c:273 | `16 * (Nr + 1)` is longer than the key, at most 240 bytes, and a whole number of blocks |
| AesSpec.ExpandKeyPrefix | aes/aes.c:104-130 | expanding further never changes bytes already produced |
| AesSpec.ExpandKeyStartsWithKey | aes/aes.c:108-111 | the expanded key begins with the key |
| AesSpec.ExpandKeyRecurrence | aes/aes.c:112-129 | every later byte is the byte `keySize` places earlier XOR the temp word built from everything before its word |
| AesSpec.RconIndexInRange | aes/aes.c:116-119 | the key schedule runs exactly at multiples of the key size, with `rcon` index `p / keySize` between 1 and 10 |
| AesSpec.RoundInverse | aes/aes.c:209-221 | the decrypting round undoes the encrypting round under the same round key |
| AesSpec.RoundsInverse | aes/aes.c:227-252 | the decrypting middle rounds, run in descending key order, undo the encrypting ones run in ascending order |
| AesSpec.CipherRoundTrip | aes/aes.c:227-252 | `aes_main` decrypting undoes `aes_main` encrypting with the same expanded key |
| AesSpec.AesBlockRoundTrip | aes/aes.c:254-281 | `aes` decrypting undoes `aes` encrypting for every valid key |
| Aes.RowColMap | aes/aes.c:67-73 | the 16 destination bytes are the transpose of the 16 source bytes, and the rest of the destination is unchanged |
| Aes.RotateWord | aes/aes.c:87-94 | the word is rotated one byte to the left |
| Aes.KeySchedule | aes/aes.c:96-102 | the word is rotated, substituted, and its first byte is XORed with `rcon[iteration]` |
| Aes.KeyExpansion | aes/aes.c:104-130 | the buffer holds the reference key expansion of the key |
| Aes.TempWord | aes/aes.c:113-124 | the temp word is the reference temp word, and the `rcon` counter advances exactly at multiples of the key size |
| Aes.AppendWord | aes/aes.c:125-128 | four bytes are appended, each the byte `keySize` places earlier XOR the temp word |
| Aes.SubBytes | aes/aes.c:132-140 | the state is `SubBytes` of the old state |
| Aes.ShiftRows | aes/aes.c:142-155 | the state is `ShiftRows` of the old state |
| Aes.ShiftRow | aes/aes.c:144-154 | the three `memcpy` calls replace row i with its rotation and leave the other rows alone |
| Aes.AddRoundKey | aes/aes.c:157-161 | the state is XORed with the round key |
| Aes.MixColumnByte | aes/aes.c:184-192 | one line of `mix_column` computes the FIPS-197 mix byte, or the inverse mix byte when decrypting |
| Aes.MixColumn | aes/aes.c:180-194 | the column is `MixColumn` of the old column |
| Aes.MixColumns | aes/aes.c:196-207 | the state is `MixColumns` of the old state |
| Aes.AesRound | aes/aes.c:209-221 | one cipher round, or one inverse cipher round in the decrypting order |
| Aes.GenerateRoundKey | aes/aes.c:223-225 | the round key is the transpose of 16 bytes of the expanded key |
| Aes.AesMain | aes/aes.c:227-252 | the state is the reference encryption, or decryption, under the expanded key |
| Aes.Cipher | aes/aes.c:240-251 | the encrypting branch uses round keys 0 to Nr in ascending order |
| Aes.InvCipher | aes/aes.c:229-239 | the decrypting branch uses round keys Nr to 0 in descending order |
| Aes.InvMiddleRounds | aes/aes.c:232-235 | the loop applies inverse rounds with round keys Nr − 1 down to 1 |
| Aes.Aes | aes/aes.c:254-281 | an invalid key size returns 255 and writes nothing; otherwise it returns 0, and the output block is `AesBlock` of the input, the rest of the output being unchanged, even when input and output are the same buffer |
| Pkcs7.PaddingByte | utils/pkcs7.c:12 | the padding byte is between 1 and the block size |
| Pkcs7.PaddingByteCompletesBlock | utils/pkcs7.c:12-13 | the padded length is a multiple of the block size, and the padding is a whole block exactly when the data already is |
| Pkcs7.PaddedLengthLeast | utils/pkcs7.c:12-13 | no smaller multiple of the block size lies strictly above the data length |
| Pkcs7.Padded | utils/pkcs7.c:26-30 | the data followed by `PaddingByte` copies of the padding byte |
| Pkcs7.Unpadded | utils/pkcs7.c:32-37 | the prefix left after dropping as many bytes as the last byte says |
| Pkcs7.UnpaddedPadded | utils/pkcs7.c:26-37 | unpadding padded data gives back the data, for both block sizes |
| Pkcs7.Context.constructor | utils/pkcs7.c:9-22 | the fields satisfy the context invariant; `data` is a copy of the input and `paddedData` the input followed by zeros |
| Pkcs7.Context.Init | utils/pkcs7.c:3-24 | returns no context exactly when the block size is neither 16 nor 32; otherwise a fresh valid context on the input |
| Pkcs7.Context.Pad | utils/pkcs7.c:26-30 | the padding bytes are written after the data, the data is untouched, and, when the prefix still holds the data as `Init` leaves it, the buffer becomes `Padded(data)` |
| Pkcs7.Context.Unpad | utils/pkcs7.c:32-37 | none for an invalid block size; otherwise a fresh valid context of the given block size whose data is `Unpadded(padded)` and whose padded buffer is that prefix followed by zeros |
| CbcSpec.XorTwice | aes/aes.c:292-294 | XORing the same block twice gives the block back |
| CbcSpec.EncryptBlock | aes/aes.c:291-298 | ciphertext block i is the encryption of plaintext block i XOR the previous ciphertext block, or XOR the IV for block 0 |
| CbcSpec.DecryptBlock | aes/aes.c:308-317 | plaintext block i is the decryption of ciphertext block i XOR the previous ciphertext block, or XOR the IV for block 0 |
| CbcSpec.DecryptLocal | aes/aes.c:308-317 | a decrypted block depends only on its own ciphertext block and the one before it |
| CbcSpec.DecryptEncrypt | aes/aes.c:283-320 | CBC decryption undoes CBC encryption under the same IV, for any block cipher and its inverse |
| CbcSpec.CipherLength | aes/aes.c:288-289 | the ciphertext is a whole number of blocks, longer than the plaintext by 1 to 16 bytes |
| CbcSpec.AesBlockFns | aes/aes.c:254-281 | AES under a fixed key maps blocks to blocks, and decryption inverts encryption |
| CbcSpec.RoundTrip | aes/aes.c:283-320 | pad, CBC-encrypt, CBC-decrypt and unpad gives back the message, for any block cipher and its inverse |
| CbcSpec.AesCbcDecryptEncrypt | aes/aes.c:283-343 | AES-CBC decryption undoes AES-CBC encryption under the same IV and key |
| CbcSpec.AesCbcRoundTrip | aes/aes.c:283-320 | `aes_cbc_decrypt` applied to the output of `aes_cbc_encrypt` gives back the message |
| Cbc.XorBlock | aes/aes.c:292-294 | one block of the buffer is XORed with the mask, and the rest is unchanged |
| Cbc.EncryptStep | aes/aes.c:292-297 | one more block is encrypted, and the running IV becomes that ciphertext block |
| Cbc.EncryptChain | aes/aes.c:285-298 | the cipher buffer holds the CBC encryption of the padded plaintext |
| Cbc.AesCbcEncrypt | aes/aes.c:283-300 | a fresh ciphertext the length of the PKCS#7-padded plaintext, equal to the AES-CBC encryption of that padded plaintext |
| Cbc.DecryptStep | aes/aes.c:310-315 | one more block is decrypted in place, and the running IV becomes the saved ciphertext block |
| Cbc.DecryptInPlace | aes/aes.c:305-317 | the buffer holds the CBC decryption of its old contents |
| Cbc.DecryptCopy | aes/aes.c:303-317 | a fresh buffer holding the AES-CBC decryption of the ciphertext |
| Cbc.AesCbcDecrypt | aes/aes.c:302-320 | a fresh plaintext equal to the unpadded AES-CBC decryption |
| Cbc.UnpadDecrypted | aes/aes.c:318 | the plaintext is `Unpadded` of the whole decrypted buffer |
| Cbc.AesCbcDecryptNoPad | aes/aes.c:322-343 | a fresh plaintext the length of the ciphertext, equal to its AES-CBC decryption with the padding kept |
| Memory.Copy | aes/aes.c:304 | `memcpy`: n bytes copied, and the rest of the destination is unchanged |
| Memory.Set | sha256/sha256.c:64 | `memset`: n bytes set, and the rest of the destination is unchanged |
| Sha256Spec.RoundConstantsFromCubeRoots | sha256/sha256.c:6-17 | each of the 64 round constants is the first 32 fractional bits of the cube root of the matching prime, as section 4.2.2 of FIPS 180-4 requires |
| Sha256Spec.InitialHashFromSquareRoots | sha256/sha256.c:119-122 | the eight initial hash words are the first 32 fractional bits of the square roots of the first eight primes (FIPS 180-4 section 5.3.3) |
| Sha256Spec.RightRotateRotates | sha256/sha256.c:19-21 | for every amount from 1 to 31, `right_rotate` is the rotation ROTR of FIPS 180-4 section 3.2 |
| Sha256Spec.RightRotateInverse | sha256/sha256.c:19-47 | rotating by k and then by 32 − k gives the word back, for every amount the word functions use |
| Sha256Spec.ChoiceSelects | sha256/sha256.c:23-26 | `choice` takes the bits of y where x is set and the bits of z where it is clear |
| Sha256Spec.MajorityVotes | sha256/sha256.c:28-31 | a bit of `majority` is set exactly when at least two of the three inputs have it set |
| Sha256Spec.PaddedLength | sha256/sha256.c:53-57 | the two branches give a multiple of 64 between len + 9 and len + 72 |
| Sha256Spec.PaddedLengthSmallest | sha256/sha256.c:53-57 | no smaller multiple of 64 holds the message, the 0x80 byte and the 8-byte length |
| Sha256Spec.BigEndian64Bytes | sha256/sha256.c:66-69 | the eight shifted bytes, read back big-endian, give the 64-bit word |
| Sha256Spec.LengthFieldBigEndian | sha256/sha256.c:66-69 | the last eight bytes are the bit length `len * 8` as a big-endian 64-bit integer (FIPS 180-4 section 5.1.1) |
| Sha256Spec.PaddedLayout | sha256/sha256.c:53-69 | the padded message is the message, then 0x80, then zeros, then the length field, in a whole number of blocks |
| Sha256Spec.BigEndianWordBytes | sha256/sha256.c:84-87 | reading four bytes as a big-endian word loses none of them |
| Sha256Spec.WordBytesBigEndian | sha256/sha256.c:84-87 | every word is the big-endian reading of its own four bytes |
| Sha256Spec.SchedulePrefix | sha256/sha256.c:84-91 | computing more schedule words never changes the earlier ones |
| Sha256Spec.ScheduleRecurrence | sha256/sha256.c:84-91 | W[t] is block word t read big-endian for t < 16, and σ1(W[t−2]) + W[t−7] + σ0(W[t−15]) + W[t−16] from 16 on |
| Sha256Spec.ChainPrefix | sha256/sha256.c:128-130 | hashing n blocks reads only those n blocks |
| Sha256Spec.ChainAppend | sha256/sha256.c:128-130 | hashing p and then q, split at a block boundary, is hashing q starting from the hash of p |
| Sha256.Padding | sha256/sha256.c:49-70 | a fresh buffer of the padded length holding `Padded(data)` |
| Sha256.PutBitLength | sha256/sha256.c:66-69 | the last eight bytes become the big-endian bit length, and the bytes before them are unchanged |
| Sha256.ReadWords | sha256/sha256.c:84-87 | the first 16 schedule words are the block read big-endian |
| Sha256.MessageSchedule | sha256/sha256.c:82-91 | the 64-word schedule array is `Schedule(block)` |
| Sha256.AddInto | sha256/sha256.c:106-113 | each hash word is increased, modulo 2^32, by its working variable |
| Sha256.Compression | sha256/sha256.c:72-114 | the hash array becomes `Compress(old hash, block)`, and only the hash array changes |
| Sha256.CompressBlocks | sha256/sha256.c:128-130 | the blocks are compressed in order, and the hash becomes their chain from the old hash |
| Sha256.CopyWords | sha256/sha256.c:131-133 | the digest array is a copy of the hash array |
| Sha256.Sha256 | sha256/sha256.c:116-135 | a fresh 8-word digest equal to `Digest(data)`: the padded message compressed block by block from the initial hash |

## Left out

- Heap management is not modelled. `safe_malloc` becomes `new`, and `free` and `pkcs7_context_destroy` (utils/pkcs7.c:39-43) have no counterpart, because Dafny arrays are garbage-collected.
- `size_t` overflow is not modelled. Lengths are unbounded `nat`, so `data_len + 9` in `sha256_padding` and `data_length + padding_byte` in `pkcs7_context_init` never wrap.
- Signed-integer promotion in `sha256_compression` is not modelled. In `block[j] << 24` the byte is promoted to `int`, and a byte of 0x80 or more then shifts into the sign bit. The model reads the four bytes as an unsigned big-endian word, which is the value the C produces on common platforms.
- Sha256Spec.Sigma0, Sigma1, Delta0, Delta1: the rotation amounts and shifts are those of FIPS 180-4 section 4.1.2. Their agreement with ROTR follows from `RightRotateRotates`, but it is not stated as a separate lemma for each function. The solver cannot cancel the XOR of the two sides within its resource limit.
- Sha256Spec.RightRotateInverse: covers only the ten rotation amounts the word functions use, not every k.
- Sha256Spec.RoundConstantsFromCubeRoots: `Primes` is the list of the first 64 primes as written, but that these numbers are prime, and the first 64 of them, is not proved.
- The helper methods (`Sha256.AddInto`, `ReadWords`, `PutBitLength`, `CopyWords`, `CompressBlocks`, `MessageSchedule`, `Aes.ExpandAndCipher`, and the AES and CBC loop-body methods) split the C functions at their loops. The statements are the same, grouped differently. `AddInto` performs the eight `hash[k] += x` updates as one simultaneous assignment, which is equivalent because the eight words are independent.
- Cbc.AesCbcEncrypt, AesCbcDecrypt and AesCbcDecryptNoPad: the C ignores the status returned by `aes`. These methods require a valid key size, so that status is always 0.
- Cbc.AesCbcDecrypt: requires a non-empty, whole-block ciphertext whose decryption ends in a byte no larger than its length. The C checks none of this and reads or sizes out of bounds otherwise.
- Cbc.AesCbcDecryptNoPad and Cbc.DecryptCopy: require a whole-block ciphertext (`cipherLength % 16 == 0`). `aes_cbc_decrypt_no_pad` (aes/aes.c:322-343) never checks this; for any other length the C reads past the end of the buffer.
- Pkcs7.Context.Unpad: requires the last byte to be no larger than the length. The C computes `padded_data_length - padding_byte` in `size_t`, which would wrap.
- `aes_cbc_test` (aes/aes.c:345-425) and `sha256_testing` are left out: they read NIST test-vector files and print results. No block-level known-answer vectors are stated in the model; the only worked examples are the FIPS-197 field products in `GaloisField.GMulExamples`.
- The declarations in `aes/aes.h`, `aes.h`, `utils/pkcs7.h` and `sha256/sha256.h` describe context-returning APIs that the `.c` files do not implement. The model follows the `.c` files.
- `chaos/*`, `rsa/*`, `utils/general.c` and the driver programs are not part of this model.
