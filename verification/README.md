# Vigenère cipher over upper-case letters — Dafny model

This project models a classical Vigenère cipher over the letters 'A'..'Z'.
Each letter of a text is mapped to its position ('A' = 0 … 'Z' = 25). It is
then rotated by the position of the key letter for that index, and the
result is mapped back to a letter. The key is cycled: text position `i`
uses `key[i % |key|]`. Encryption rotates forward modulo 26. Decryption
rotates backward with a floor-based modulo, so its result is never
negative.

Modules:

- `Alphabet` (`alphabet.dfy`): the 8-bit `Byte` width, the upper-case
  predicates, and the letter/position mapping `ToAlphaIndex` / `ToChar`.
- `Rotation` (`rotation.dfy`): `RotateIndex` and `ReverseRotateIndex`, and
  the proofs that each undoes the other.
- `Cipher` (`cipher.dfy`): the cycled key character (defined by starting
  the key over, and proved equal to the remainder indexing), the per-letter
  transforms, and whole-text encryption and decryption. `Enc` and `Dec` are
  recursive functions that append one letter per position, as the original
  loops push characters. `EncLoop` and `DecLoop` are those loops, proved equal
  to the functions. The file also holds the round-trip, length, cycling and
  prefix lemmas.
- `CipherVectors` (`vectors.dfy`): the concrete cases from the unit tests of
  the original program, plus one added backward wrap-around case.

Text is `seq<char>`. "Key is non-empty" and "every character is an
upper-case letter" are the preconditions `ValidKey` and `IsUpperText`. The
original has no error path for either. With an empty key, the loop panics
on the remainder `i % key_length` at the first text position; with an
empty text the loop never runs, so the original returns the empty string
even for an empty key. The loop reads only the key positions below the
text length, so a non-letter key character beyond them is never touched.
A character below 'A' that is read makes the 8-bit subtraction underflow.
The model follows the code but states these as preconditions, so it also
excludes the two inputs the original accepts: an empty key with an empty
text, and unused non-letter key characters.

## Model

| member | source | states |
|---|---|---|
| Alphabet.ToAlphaIndex | src/lib.rs:7-10 | an upper-case letter maps to a position below 26, and `ToChar` maps that position back to the same letter |
| Alphabet.ToChar | src/lib.rs:12-15 | for any offset whose 8-bit sum with 65 does not overflow, the character is an upper-case letter exactly when the offset is below 26 |
| Alphabet.ToCharToAlphaIndex | src/lib.rs:7-15 | every position 0..25 maps to a letter that maps back to the same position, so the two mappings are inverse bijections |
| Rotation.RotateIndex | src/lib.rs:17-22 | the result is a position congruent to `i + amt` modulo 26; it is `i + amt` without wrap and `i + amt - 26` after one wrap |
| Rotation.ReverseRotateIndex | src/lib.rs:24-34 | the result is a position in 0..25 congruent to `i - amt` even when `i < amt` (floor modulo); it is `i - amt + 26` when the difference is negative |
| Rotation.ReverseUndoesRotate | src/lib.rs:24-25 | backward rotation by `amt` returns every position rotated forward by `amt` to where it started |
| Rotation.RotateUndoesReverse | src/lib.rs:17-34 | forward rotation by `amt` undoes backward rotation by `amt` on every position |
| Cipher.KeyChar | src/lib.rs:49-52 | the key character used at text position `j` is always an upper-case letter, and it is `key[j]` while `j` is within the key; past the end the key starts over |
| Cipher.KeyCharIsRemainder | src/lib.rs:52 | the cycled key character at position `j` is `key[j % \|key\|]`, the remainder indexing the original uses |
| Cipher.KeyPeriod | src/lib.rs:49-52 | the key character repeats with period `\|key\|`: positions `j` and `j + q * \|key\|` use the same key letter |
| Cipher.EncryptLetter | src/lib.rs:55-61 | an encrypted letter is upper-case, and its position is congruent to plaintext position plus key position |
| Cipher.DecryptLetter | src/lib.rs:76-79 | a decrypted letter is upper-case, and its position is congruent to ciphertext position minus key position |
| Cipher.DecryptEncryptLetter | src/lib.rs:24-34 | decrypting a letter under the key letter it was encrypted with restores it |
| Cipher.EncryptDecryptLetter | src/lib.rs:17-34 | encrypting a letter under the key letter it was decrypted with restores it |
| Cipher.Enc | src/lib.rs:36-66 | the ciphertext has the text's length and is upper-case; position `j` is the text letter at `j` rotated forward by key letter `key[j % \|key\|]` |
| Cipher.Dec | src/lib.rs:68-85 | the plaintext has the text's length and is upper-case; position `j` is the text letter at `j` rotated backward by key letter `key[j % \|key\|]` |
| Cipher.EncLoop | src/lib.rs:36-66 | the enumerate-and-push loop of the encryption routine computes exactly `Enc` |
| Cipher.DecLoop | src/lib.rs:68-85 | the enumerate-and-push loop of the decryption routine computes exactly `Dec` |
| Cipher.EmptyText | src/lib.rs:45-48 | the empty text encrypts and decrypts to the empty text under any valid key |
| Cipher.DecEncRoundTrip | src/lib.rs:24-85 | for a non-empty upper-case key and an upper-case text, decrypting the encryption gives the text back |
| Cipher.EncDecRoundTrip | src/lib.rs:36-85 | encrypting the decryption gives the text back |
| Cipher.KeyCycling | src/lib.rs:49-52 | positions `j` and `j + \|key\|` holding the same letter encrypt, and decrypt, to the same letter, because the key is reused |
| Cipher.PrefixStable | src/lib.rs:44-64 | output is produced position by position in order: the first `n` letters of a text encrypt and decrypt to the first `n` letters of the whole output |
| Cipher.NullKeyIsIdentity | src/lib.rs:54-58 | a key made only of 'A' (shift 0) leaves every text unchanged under both encryption and decryption |
| CipherVectors.AlphabetVectors | src/lib.rs:91-99 | 'A' has position 0 and position 0 is 'A' |
| CipherVectors.RotationVectors | src/lib.rs:101-104 | `RotateIndex(25, 1) == 0`: 'Z' rotated by one wraps to 'A' |
| CipherVectors.ReverseRotationWrap | src/lib.rs:24-34 | added case, not among the original tests: `ReverseRotateIndex(0, 1) == 25`, so 'A' rotated back by one wraps to 'Z' |
| CipherVectors.EncVectorShort | src/lib.rs:107-110 | under key "DUH", "CRYPTO" encrypts to "FLFSNV" |
| CipherVectors.EncVectorLong | src/lib.rs:112-114 | under key "DUH", "THEYDRINKTHETEA" encrypts to "WBLBXYLHRWBLWYH" |
| CipherVectors.DecVectorShort | src/lib.rs:118-121 | under key "DUH", "FLFSNV" decrypts to "CRYPTO" |
| CipherVectors.DecVectorLong | src/lib.rs:123-125 | under key "DUH", "WBLBXYLHRWBLWYH" decrypts to "THEYDRINKTHETEA" |

## Left out

- The single-precision floating-point computation in `reverse_rotate_index` (src/lib.rs:26-33) is not modelled. `ReverseRotateIndex` uses Dafny's integer `%`, which is Euclidean for a positive divisor. The float quotient is rounded, for example -1/26. But the difference of two 8-bit values is at most 255 in magnitude, so the rounding error is far smaller than 1/26. The floor of the rounded quotient is therefore the integer floor, `a - 26 * floor` is computed exactly, and the value is the same.
- Alphabet.ToAlphaIndex: requires an upper-case letter. For other characters the original truncates the character code to 8 bits and subtracts 65, which yields an unrelated value or an underflow. That garbage path is excluded, not modelled.
- Cipher.Enc and Cipher.Dec: require a non-empty key made only of upper-case letters. With an empty key the original panics at the first text position (the remainder by zero). The precondition also excludes two inputs the original accepts: an empty key with an empty text, which returns the empty string, and non-letter key characters at positions the text never reaches.
- Rotation.RotateIndex and Alphabet.ToChar: require that the 8-bit sum does not overflow. In the original that sum panics in debug builds and wraps in release builds. The cipher never reaches it, because both operands are positions below 26.
- Rust `String`, `Vec` and iterator plumbing (`chars().collect()`, `map`, `enumerate`, `push`) is replaced by Dafny sequences.
- The unit-test harness is not modelled. Only its concrete cases appear, as lemmas in `CipherVectors`.
