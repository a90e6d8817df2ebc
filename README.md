# Caesar shift cipher, modelled in Dafny

This project models the Caesar-shift engine of the `caesar` command-line
tool (`caesar/src/caesar.rs`). A `Caesar` value holds two 26-entry rotation
tables, both fixed at construction:
- `with_key` builds the encryption table from `key` and the decryption
  table from `-key`;
- `precalc_rotated` normalises an `i32` key into an offset in `[0, 25]`
  and lists the upper-case alphabet starting at that offset.

`encrypt` and `decrypt` pass a text through one of the tables with
`rotate_str`. It rotates every ASCII letter and keeps its case; every other
character, non-ASCII letters included, passes through unchanged.

The engine is pure, so the model is pure too:
- `Caesar` is a datatype with `Encrypt` and `Decrypt` member functions;
- `PrecalcRotated`, `RotateStr` and `WithKey` are functions;
- the properties are lemmas.

Text is a sequence of Unicode scalar values, as `str::chars` yields it. Keys
are `i32` values (the subset type `I32`), and Rust's truncating remainder is
written out (`RustRem26`).

The proofs have two layers:
- The table layer shows that the table of key `k` sends position `i` to the
  letter at `(i + k) mod 26` (`ShiftsBy`), and that the decryption table
  inverts the encryption table (`Inverts`).
- The text layer compares the table-driven rotation with an independent
  per-character definition, `Shift`, which adds the key to each letter's
  position modulo 26.

From these follow:
- the round trips in both directions;
- periodicity in the key;
- preservation of case and of non-letters;
- every unit test of the source file as a concrete lemma.

Files:
- `ascii.dfy` (module `Ascii`) holds the ASCII character tests and the
  letters by position.
- `caesar.dfy` (module `CaesarCipher`) holds the engine and its properties.
- `caesar_tests.dfy` (module `CaesarTests`) holds the unit tests.

## Model

| member | source | states |
|---|---|---|
| Ascii.IsAsciiUppercase | caesar/src/caesar.rs:31 | `char::is_ascii_uppercase`: the characters 'A' through 'Z' |
| Ascii.IsAsciiLowercase | caesar/src/caesar.rs:31-34 | the characters 'a' through 'z', the letters that take the `false` arm of the case test |
| Ascii.IsAsciiAlphabetic | caesar/src/caesar.rs:29 | `char::is_ascii_alphabetic`: an upper-case or a lower-case ASCII letter |
| Ascii.AsciiLetterClasses | caesar/src/caesar.rs:29-31 | the upper-case (lower-case) ASCII characters are exactly the 26 letters `'A' + n` (`'a' + n`), and all alphabetic characters are below 128, so no non-ASCII character is alphabetic |
| Ascii.ToAsciiLowercase | caesar/src/caesar.rs:33-34 | an upper-case ASCII letter becomes the lower-case letter at the same alphabet position; any other character is returned unchanged |
| Ascii.Letter | caesar/src/caesar.rs:47 | `'A' + n` is an upper-case ASCII letter whose alphabet position is `n`, for every `n` in 0..25 |
| Ascii.AlphabetIndex | caesar/src/caesar.rs:32-33 | `c - 'A'` for an upper-case letter, or `c - 'a'` for a lower-case one, is a valid table index in 0..25 |
| Ascii.LetterAtIndex | caesar/src/caesar.rs:32-33 | a letter is recovered from its alphabet position and its case |
| CaesarCipher.RustRem26 | caesar/src/caesar.rs:41 | Rust's `key % 26`: the result lies strictly between -26 and 26, has the sign of the key, and differs from the key by a multiple of 26 |
| CaesarCipher.Offset | caesar/src/caesar.rs:41-44 | the normalised offset lies in [0, 25] for every `i32` key, negative keys included, and equals the key's Euclidean remainder modulo 26 |
| CaesarCipher.AlphabetRun | caesar/src/caesar.rs:45-47 | the range `lo..hi` mapped to `'A' + a` has `hi - lo` entries, and entry `i` is the letter at position `lo + i` |
| CaesarCipher.PrecalcRotated | caesar/src/caesar.rs:40-49 | the table has exactly 26 entries (its type), and entry `i` is the letter at position `(i + key) mod 26` |
| CaesarCipher.RunsShift | caesar/src/caesar.rs:45-48 | the runs `offset..26` and `0..offset`, joined, give exactly the rotation by the key |
| CaesarCipher.RunsHeadEntry | caesar/src/caesar.rs:45 | positions before `26 - offset` come from the first run and do not wrap |
| CaesarCipher.RunsTailEntry | caesar/src/caesar.rs:46 | positions from `26 - offset` on come from the second run and wrap to the start of the alphabet |
| CaesarCipher.PrecalcRotatedIsUpper | caesar/src/caesar.rs:45-48 | every table entry is an upper-case ASCII letter, and entry 0 is the letter at the key's offset |
| CaesarCipher.PrecalcRotatedIsPermutation | caesar/src/caesar.rs:45-48 | every letter of the alphabet occurs in the table, and no two entries are equal |
| CaesarCipher.PrecalcRotatedPeriodic | caesar/src/caesar.rs:41-44 | keys that differ by a multiple of 26 build the same table |
| CaesarCipher.PrecalcRotatedShifts | caesar/src/caesar.rs:40-49 | the table of a key also shifts by any integer congruent to the key modulo 26, beyond the `i32` range as well |
| CaesarCipher.PrecalcRotatedInverts | caesar/src/caesar.rs:9-10 | when two keys sum to a multiple of 26, the table of one undoes the table of the other at every position |
| CaesarCipher.RotateChar | caesar/src/caesar.rs:29-35 | the closure of `rotate_str`: a non-letter is returned unchanged; an upper-case letter becomes the table entry at its alphabet position; a lower-case letter, given an upper-case table entry, becomes the lower-case letter at that entry's position |
| CaesarCipher.RotateStr | caesar/src/caesar.rs:27-38 | the output has as many characters as the input, and output character `i` is the image of input character `i` alone |
| CaesarCipher.RotateCharKeepsCase | caesar/src/caesar.rs:29-35 | with an upper-case table: a non-letter is unchanged, an upper-case letter stays upper-case and a lower-case letter stays lower-case (both directions), and the new position is that of the table entry at the old position |
| CaesarCipher.RotateStrKeepsCase | caesar/src/caesar.rs:27-38 | over a text: the length is kept, every non-letter is kept at its position, and every letter keeps its case |
| CaesarCipher.RotateStrAppend | caesar/src/caesar.rs:28-37 | rotating a concatenation is concatenating the rotations, so no character's image depends on its neighbours |
| CaesarCipher.RotateCharRoundTrip | caesar/src/caesar.rs:29-35 | rotating a character through a table and then through a table that inverts it gives the character back |
| CaesarCipher.RotateStrRoundTrip | caesar/src/caesar.rs:27-38 | the same for a whole text |
| CaesarCipher.ShiftWholeTurn | caesar/src/caesar.rs:41-44 | shifting by a multiple of 26 leaves every text unchanged |
| CaesarCipher.ShiftRoundTrip | caesar/src/caesar.rs:9-10 | shifting by `k` and then by `-k` gives the text back (the pangram decryption is derived from its encryption this way) |
| CaesarCipher.ShiftAppend | caesar/src/caesar.rs:28-37 | the per-character shift distributes over concatenation |
| CaesarCipher.RotateCharIsShift | caesar/src/caesar.rs:29-35 | the table-driven rotation of a character is the reference shift by the table's distance |
| CaesarCipher.RotateStrIsShift | caesar/src/caesar.rs:27-38 | the table-driven rotation of a text is the reference shift by the table's distance |
| CaesarCipher.Caesar.Encrypt | caesar/src/caesar.rs:18-20 | encryption keeps the length and every non-letter at its position |
| CaesarCipher.Caesar.Decrypt | caesar/src/caesar.rs:23-25 | decryption keeps the length and every non-letter at its position |
| CaesarCipher.WithKey | caesar/src/caesar.rs:7-12 | the encryption table shifts by `key` and the decryption table by `-key`, for every `i32` key |
| CaesarCipher.DecryptTableInverts | caesar/src/caesar.rs:9-10 | the decryption table undoes the encryption table |
| CaesarCipher.EncryptTableInverts | caesar/src/caesar.rs:9-10 | the encryption table undoes the decryption table |
| CaesarCipher.DecryptEncrypt | caesar/src/caesar.rs:7-25 | for every key and every text, decrypting the encryption gives back the text |
| CaesarCipher.EncryptDecrypt | caesar/src/caesar.rs:7-25 | for every key and every text, encrypting the decryption gives back the text |
| CaesarCipher.EncryptIsShift | caesar/src/caesar.rs:18-20 | encryption is the reference shift by the key |
| CaesarCipher.DecryptIsShift | caesar/src/caesar.rs:23-25 | decryption is the reference shift by the negated key |
| CaesarCipher.CipherKeepsCase | caesar/src/caesar.rs:29-35 | encryption and decryption keep every letter's case, in both directions of the equivalence |
| CaesarCipher.WithKeyPeriodic | caesar/src/caesar.rs:7-12 | keys that differ by a multiple of 26 make the same cipher |
| CaesarCipher.WholeTurnIsIdentity | caesar/src/caesar.rs:41-44 | a key that is a multiple of 26 (0 and 26 among them) leaves every text unchanged under both encryption and decryption |
| CaesarCipher.WrappingNeg | caesar/src/caesar.rs:10 | `-key` with `i32` wrap-around: the result is an `i32` whose sum with the key is 0 modulo 2^32 (two's-complement negation); it is the negation for every key but `i32::MIN`, which it maps to itself |
| CaesarCipher.WrappingNegUnique | caesar/src/caesar.rs:10 | any `i32` whose sum with the key is 0 modulo 2^32 is `WrappingNeg(key)`, so the case split follows from the two's-complement definition |
| CaesarCipher.WithKeyAsWritten | caesar/src/caesar.rs:7-12 | the constructor as written: the encryption table shifts by the key; for every key but `i32::MIN` the decryption table shifts by `-key` and inverts the encryption table; for `i32::MIN` it shifts by the key itself |
| CaesarCipher.WithKeyAgreesAsWritten | caesar/src/caesar.rs:10 | for every key but `i32::MIN`, the constructor as written and `WithKey` build the same cipher |
| CaesarCipher.MinKeyBreaksRoundTrip | caesar/src/caesar.rs:10 | for key `i32::MIN` the constructor as written builds two equal tables, and decrypting the encryption of "A" gives "E" |
| CaesarTests.EncryptsBasicString | caesar/src/caesar.rs:56-61 | key 1 encrypts "ABC" to "BCD" |
| CaesarTests.DecryptsBasicString | caesar/src/caesar.rs:63-68 | key 1 decrypts "BCD" to "ABC" |
| CaesarTests.KeepsNonAlphabetCharacters | caesar/src/caesar.rs:70-75 | key 1 encrypts "(ABC)D" to "(BCD)E" |
| CaesarTests.RespectsSpaces | caesar/src/caesar.rs:77-82 | key 1 encrypts "A B C" to "B C D" |
| CaesarTests.RespectsMultiline | caesar/src/caesar.rs:84-89 | key 1 encrypts "A \n B \n C" to "B \n C \n D" |
| CaesarTests.EncryptsLowerCaseString | caesar/src/caesar.rs:96-97 | key 1 encrypts "abc" to "bcd" |
| CaesarTests.RespectsCapitalization | caesar/src/caesar.rs:91-98 | key 1 encrypts "ABC" to "BCD" and "abc" to "bcd" |
| CaesarTests.KeepsUtf8Characters | caesar/src/caesar.rs:100-105 | key 1 encrypts "ЗaЗ" to "ЗbЗ" |
| CaesarTests.LastAlphaPosEncrypt | caesar/src/caesar.rs:107-112 | key 26 encrypts "ABC" to "ABC" |
| CaesarTests.LastAlphaPosDecrypt | caesar/src/caesar.rs:114-119 | key 26 decrypts "ABC" to "ABC" |
| CaesarTests.RelativeUpperOverflow | caesar/src/caesar.rs:121-127 | key 3 encrypts "XY" to "AB" |
| CaesarTests.RelativeLowerOverflow | caesar/src/caesar.rs:129-135 | key 3 decrypts "BC" to "YZ" |
| CaesarTests.UpperBoundOverflow | caesar/src/caesar.rs:137-143 | key 54 encrypts "ABC" to "CDE" |
| CaesarTests.LowerBoundOverflow | caesar/src/caesar.rs:145-151 | key 55 decrypts "ABC" to "XYZ" |
| CaesarTests.KeysBeyondAlphabetReduce | caesar/src/caesar.rs:137-151 | keys 54 and 55 make the same ciphers as keys 2 and 3 |
| CaesarTests.SameOnNoKey | caesar/src/caesar.rs:153-158 | key 0 encrypts "ABC" to "ABC" |
| CaesarTests.PlaintextShift | caesar/src/caesar.rs:161-163 | the reference shift by -3 takes the pangram to the expected cipher text |
| CaesarTests.CiphertextShift | caesar/src/caesar.rs:161-163 | the reference shift by 3 takes the cipher text back to the pangram, derived from the shift by -3 and the round trip of the reference shift |
| CaesarTests.WikipediaEncrypt | caesar/src/caesar.rs:160-166 | key -3 encrypts "THE QUICK BROWN FOX JUMPS OVER THE LAZY DOG" to "QEB NRFZH YOLTK CLU GRJMP LSBO QEB IXWV ALD" |
| CaesarTests.WikipediaDecrypt | caesar/src/caesar.rs:160-168 | key -3 decrypts that cipher text back to the pangram |
| CaesarTests.WikipediaExample | caesar/src/caesar.rs:160-169 | both halves of the pangram example |

## Left out

- `caesar/src/main.rs` is not part of this model. It collects the program
  arguments, locks standard input and output, prints an error and exits
  with status 1. That is process I/O.
- The `cli` module that `main.rs` calls is not part of this model. Its
  source is not available, and it does argument parsing and stream I/O.
- UTF-8 byte encoding: text is a sequence of Unicode scalar values, as
  `str::chars` yields it, not a byte buffer.
- `#[inline]` and the `Vec`/`String` allocations: they affect performance,
  not behaviour.
- CaesarCipher.RotateStr: it takes a `Table` of exactly 26 entries, not any
  slice. In the source a shorter slice would panic on indexing, but
  `rotate_str` is private and only ever receives `precalc_rotated` tables.
- CaesarCipher.WithKey: for `i32::MIN` it does not reproduce the source's
  `-key`. A debug build panics there and a release build wraps around.
  `WithKey` builds the decryption table from `-RustRem26(key)` (Rust's
  `-(key % 26)`) instead. For every other key it builds the same tables
  (`WithKeyAgreesAsWritten`), and the wrap-around behaviour is modelled
  separately by `WithKeyAsWritten`.

## Findings

| source | as written | input that shows it | evidently intended | confidence | as-written member | corrected member |
|---|---|---|---|---|---|---|
| caesar/src/caesar.rs:10 | the decryption table is built from `-key`, which overflows for `i32::MIN`: a debug build panics, and a release build wraps to `i32::MIN`, so the decryption table equals the encryption table (offset 2) | key = -2147483648: `decrypt(encrypt("A"))` gives "E" instead of "A" | the decryption table inverts the encryption table for every `i32` key, so `decrypt(encrypt(s)) == s` | medium, not executed | CaesarCipher.MinKeyBreaksRoundTrip | CaesarCipher.WithKey (round trip proved in CaesarCipher.DecryptEncrypt) |
