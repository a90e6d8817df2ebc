/**
 * The Caesar-shift engine: the rotation table builder (`precalc_rotated`),
 * the text transformer (`rotate_str`) and the cipher instance that holds an
 * encryption table and its inverse decryption table (`Caesar::with_key`,
 * `encrypt`, `decrypt`).
 *
 * Text is a sequence of Unicode scalar values, as Rust's `str::chars` yields
 * it. Keys are Rust `i32` values; the arithmetic on them is written out with
 * Rust's truncating remainder.
 */
module CaesarCipher {
  import opened Ascii

  const I32Min: int := -0x8000_0000
  const I32Max: int := 0x7FFF_FFFF

  /** A Rust `i32`. */
  type I32 = k: int | I32Min <= k <= I32Max

  /** The alphabet in order: the table of key 0. */
  const Alphabet: string := "ABCDEFGHIJKLMNOPQRSTUVWXYZ"

  /** A rotation table: one entry per letter position 0..25. */
  type Table = t: string | |t| == 26 witness Alphabet

  // ---------------------------------------------------------------------
  // Key normalisation
  // ---------------------------------------------------------------------

  /**
   * Rust's `a % 26`: the remainder of division truncated toward zero. It has
   * the sign of `a` and differs from `a` by a multiple of 26, which fixes it
   * uniquely.
   */
  function RustRem26(a: int): (r: int)
    ensures -26 < r < 26
    ensures a >= 0 ==> r >= 0
    ensures a <= 0 ==> r <= 0
    ensures (a - r) % 26 == 0
  {
    if a >= 0 then a % 26 else -((-a) % 26)
  }

  /**
   * The normalised offset of `precalc_rotated`: Rust's `key % 26`, plus 26
   * when that is negative. It is the Euclidean remainder of the key.
   */
  function Offset(key: I32): (offset: int)
    ensures 0 <= offset < 26
    ensures offset == key % 26
  {
    var r := RustRem26(key);
    if r < 0 then r + 26 else r
  }

  /** Reducing one summand first does not change the sum's remainder. */
  lemma AddMod(a: int, b: int)
    ensures ((a % 26) + b) % 26 == (a + b) % 26
  {
    var q := a / 26;
    assert a == 26 * q + a % 26;
    assert (a % 26) + b == (a + b) - 26 * q;
  }

  /** Values that differ by a multiple of 26 have the same remainder. */
  lemma CongruentMod(a: int, b: int)
    requires (b - a) % 26 == 0
    ensures a % 26 == b % 26
  {
    var q := (b - a) / 26;
    assert b == a + 26 * q;
  }

  /** Values with the same remainder differ by a multiple of 26. */
  lemma SameModDiff(a: int, b: int)
    requires a % 26 == b % 26
    ensures (b - a) % 26 == 0
  {
    var qa, qb := a / 26, b / 26;
    assert a == 26 * qa + a % 26;
    assert b == 26 * qb + b % 26;
    assert b - a == 26 * (qb - qa);
  }

  // ---------------------------------------------------------------------
  // Rotation table builder
  // ---------------------------------------------------------------------

  /** The letters at positions lo, lo+1, ..., hi-1: `(lo..hi).map(|a| 'A' + a)`. */
  function AlphabetRun(lo: int, hi: int): (run: string)
    requires 0 <= lo <= hi <= 26
    ensures |run| == hi - lo
    ensures forall i :: 0 <= i < |run| ==> run[i] == Letter(lo + i)
    decreases hi - lo
  {
    if lo == hi then [] else [Letter(lo)] + AlphabetRun(lo + 1, hi)
  }

  /**
   * `precalc_rotated`: the run from the offset to the end of the alphabet
   * followed by the run from its start up to the offset. Entry i is the
   * letter (i + key) mod 26 positions into the alphabet.
   */
  function PrecalcRotated(key: I32): (table: Table)
    ensures ShiftsBy(table, key)
  {
    var offset := Offset(key);
    RunsShift(key, offset);
    AlphabetRun(offset, 26) + AlphabetRun(0, offset)
  }

  /** The two runs of `precalc_rotated`, joined, shift every position by the key. */
  lemma RunsShift(key: int, offset: int)
    requires 0 <= offset < 26 && offset == key % 26
    ensures ShiftsBy(AlphabetRun(offset, 26) + AlphabetRun(0, offset), key)
  {
    var q := key / 26;
    assert key == 26 * q + offset;
    forall i | 0 <= i < 26
      ensures (AlphabetRun(offset, 26) + AlphabetRun(0, offset))[i] == Letter((i + key) % 26)
    {
      if i < 26 - offset {
        RunsHeadEntry(key, offset, q, i);
      } else {
        RunsTailEntry(key, offset, q, i);
      }
    }
  }

  /** The positions before `26 - offset` read the first run: no wrap-around. */
  lemma RunsHeadEntry(key: int, offset: int, q: int, i: int)
    requires 0 <= offset < 26 && key == 26 * q + offset && 0 <= i < 26 - offset
    ensures (AlphabetRun(offset, 26) + AlphabetRun(0, offset))[i] == Letter((i + key) % 26)
  {
    var head, tail := AlphabetRun(offset, 26), AlphabetRun(0, offset);
    CongruentMod(i + offset, i + key);
    assert (head + tail)[i] == head[i] == Letter(i + offset);
  }

  /** The positions from `26 - offset` on read the second run: the letters wrap around. */
  lemma RunsTailEntry(key: int, offset: int, q: int, i: int)
    requires 0 <= offset < 26 && key == 26 * q + offset && 26 - offset <= i < 26
    ensures (AlphabetRun(offset, 26) + AlphabetRun(0, offset))[i] == Letter((i + key) % 26)
  {
    var head, tail := AlphabetRun(offset, 26), AlphabetRun(0, offset);
    assert i + key == (i + offset - 26) + 26 * (q + 1);
    CongruentMod(i + offset - 26, i + key);
    assert (head + tail)[i] == tail[i - (26 - offset)] == Letter(i + offset - 26);
  }

  /** The table sends every position p to the letter at (p + d) mod 26. */
  predicate ShiftsBy(t: Table, d: int) {
    forall i :: 0 <= i < 26 ==> t[i] == Letter((i + d) % 26)
  }

  /** Every entry of the table is an upper-case letter. */
  predicate IsUpperTable(t: Table) {
    forall i :: 0 <= i < 26 ==> IsAsciiUppercase(t[i])
  }

  /**
   * `dec` undoes `enc`: looking up the position of the letter that `enc`
   * gives for position i, `dec` gives back the letter at position i.
   */
  predicate Inverts(dec: Table, enc: Table) {
    forall i {:trigger enc[i]} :: 0 <= i < 26 ==>
      IsAsciiUppercase(enc[i]) && dec[AlphabetIndex(enc[i])] == Letter(i)
  }

  /** The table holds only upper-case letters, and entry 0 is where 'A' goes. */
  lemma PrecalcRotatedIsUpper(key: I32)
    ensures IsUpperTable(PrecalcRotated(key))
    ensures PrecalcRotated(key)[0] == Letter(key % 26)
  {
  }

  /** The table is a permutation of the alphabet: every letter occurs in it exactly once. */
  lemma {:induction false} PrecalcRotatedIsPermutation(key: I32)
    ensures forall n :: 0 <= n < 26 ==> Letter(n) in PrecalcRotated(key)
    ensures forall i, j :: 0 <= i < j < 26 ==> PrecalcRotated(key)[i] != PrecalcRotated(key)[j]
  {
    var t := PrecalcRotated(key);
    forall n | 0 <= n < 26
      ensures Letter(n) in t
    {
      var i := (n - key) % 26;
      AddMod(n - key, key);
      assert (i + key) % 26 == n;
      assert t[i] == Letter(n);
    }
    forall i, j | 0 <= i < j < 26
      ensures t[i] != t[j]
    {
      assert AlphabetIndex(t[i]) == (i + key) % 26;
      assert AlphabetIndex(t[j]) == (j + key) % 26;
      if (i + key) % 26 == (j + key) % 26 {
        SameModDiff(i + key, j + key);
      }
    }
  }

  /** Keys that differ by a multiple of 26 build the same table. */
  lemma PrecalcRotatedPeriodic(k1: I32, k2: I32)
    requires (k2 - k1) % 26 == 0
    ensures PrecalcRotated(k1) == PrecalcRotated(k2)
  {
    CongruentMod(k1, k2);
    assert Offset(k1) == Offset(k2);
  }

  /**
   * The table of a key shifts every position by any whole number congruent
   * to the key modulo 26, however large (such as the negation of i32::MIN).
   */
  lemma PrecalcRotatedShifts(key: I32, d: int)
    requires (key - d) % 26 == 0
    ensures ShiftsBy(PrecalcRotated(key), d)
  {
    forall i | 0 <= i < 26
      ensures PrecalcRotated(key)[i] == Letter((i + d) % 26)
    {
      CongruentMod(i + d, i + key);
    }
  }

  /** The table of a key whose sum with another is a multiple of 26 undoes the other's table. */
  lemma {:induction false} PrecalcRotatedInverts(k1: I32, k2: I32)
    requires (k1 + k2) % 26 == 0
    ensures Inverts(PrecalcRotated(k2), PrecalcRotated(k1))
  {
    var enc, dec := PrecalcRotated(k1), PrecalcRotated(k2);
    forall i | 0 <= i < 26
      ensures IsAsciiUppercase(enc[i]) && dec[AlphabetIndex(enc[i])] == Letter(i)
    {
      var p := (i + k1) % 26;
      assert enc[i] == Letter(p);
      AddMod(i + k1, k2);
      CongruentMod(i, i + k1 + k2);
      assert (p + k2) % 26 == i;
      assert dec[p] == Letter(i);
    }
  }

  // ---------------------------------------------------------------------
  // Text transformer
  // ---------------------------------------------------------------------

  /**
   * The closure of `rotate_str`: a character that is not an ASCII letter is
   * kept; an upper-case letter is replaced by the table entry at its
   * position; a lower-case letter by that entry in lower case.
   */
  function RotateChar(c: char, table: Table): (r: char)
    ensures !IsAsciiAlphabetic(c) ==> r == c
    ensures IsAsciiUppercase(c) ==> r == table[AlphabetIndex(c)]
    ensures IsAsciiLowercase(c) && IsAsciiUppercase(table[AlphabetIndex(c)]) ==>
      IsAsciiLowercase(r) && AlphabetIndex(r) == AlphabetIndex(table[AlphabetIndex(c)])
  {
    if !IsAsciiAlphabetic(c) then c
    else if IsAsciiUppercase(c) then table[AlphabetIndex(c)]
    else ToAsciiLowercase(table[AlphabetIndex(c)])
  }

  /** `rotate_str`: the table applied to each character of `s` in turn. */
  function RotateStr(s: string, table: Table): (r: string)
    ensures |r| == |s|
    ensures forall i :: 0 <= i < |s| ==> r[i] == RotateChar(s[i], table)
  {
    if s == [] then [] else [RotateChar(s[0], table)] + RotateStr(s[1..], table)
  }

  /**
   * With a table of upper-case letters, rotating a character keeps it a
   * non-letter, an upper-case or a lower-case letter as it was; a
   * non-letter comes out unchanged, and a letter's new position is that of
   * the table entry at its old position, whatever its case.
   */
  lemma RotateCharKeepsCase(c: char, table: Table)
    requires IsUpperTable(table)
    ensures IsAsciiUppercase(RotateChar(c, table)) <==> IsAsciiUppercase(c)
    ensures IsAsciiLowercase(RotateChar(c, table)) <==> IsAsciiLowercase(c)
    ensures !IsAsciiAlphabetic(c) ==> RotateChar(c, table) == c
    ensures IsAsciiAlphabetic(c) ==>
      AlphabetIndex(RotateChar(c, table)) == AlphabetIndex(table[AlphabetIndex(c)])
  {
  }

  /**
   * Over a whole text: the length is kept, every character that is not an
   * ASCII letter is kept at its position, and every letter keeps its case.
   */
  lemma RotateStrKeepsCase(s: string, table: Table)
    requires IsUpperTable(table)
    ensures |RotateStr(s, table)| == |s|
    ensures forall i :: 0 <= i < |s| && !IsAsciiAlphabetic(s[i]) ==> RotateStr(s, table)[i] == s[i]
    ensures forall i :: 0 <= i < |s| ==>
      (IsAsciiUppercase(RotateStr(s, table)[i]) <==> IsAsciiUppercase(s[i])) &&
      (IsAsciiLowercase(RotateStr(s, table)[i]) <==> IsAsciiLowercase(s[i]))
  {
    var r := RotateStr(s, table);
    forall i | 0 <= i < |s|
      ensures !IsAsciiAlphabetic(s[i]) ==> r[i] == s[i]
      ensures IsAsciiUppercase(r[i]) <==> IsAsciiUppercase(s[i])
      ensures IsAsciiLowercase(r[i]) <==> IsAsciiLowercase(s[i])
    {
      RotateCharKeepsCase(s[i], table);
    }
  }

  /**
   * Rotation works character by character: the rotation of a concatenation
   * is the concatenation of the rotations, so no character's image depends
   * on its neighbours.
   */
  lemma {:induction false} RotateStrAppend(a: string, b: string, table: Table)
    ensures RotateStr(a + b, table) == RotateStr(a, table) + RotateStr(b, table)
  {
    if a != [] {
      assert (a + b)[1..] == a[1..] + b;
      RotateStrAppend(a[1..], b, table);
    }
  }

  /** Rotating with `enc` and then with a table that inverts it gives back the character. */
  lemma RotateCharRoundTrip(c: char, enc: Table, dec: Table)
    requires Inverts(dec, enc)
    ensures RotateChar(RotateChar(c, enc), dec) == c
  {
    if IsAsciiAlphabetic(c) {
      var p := AlphabetIndex(c);
      assert IsAsciiUppercase(enc[p]) && dec[AlphabetIndex(enc[p])] == Letter(p);
      if !IsAsciiUppercase(c) {
        assert RotateChar(c, enc) == ToAsciiLowercase(enc[p]);
        assert ToAsciiLowercase(dec[AlphabetIndex(enc[p])]) == LowerLetter(p);
      }
    }
  }

  /** Rotating a text with `enc` and then with a table that inverts it gives back the text. */
  lemma {:induction false} RotateStrRoundTrip(s: string, enc: Table, dec: Table)
    requires Inverts(dec, enc)
    ensures RotateStr(RotateStr(s, enc), dec) == s
  {
    if s != [] {
      RotateCharRoundTrip(s[0], enc, dec);
      RotateStrRoundTrip(s[1..], enc, dec);
      assert RotateStr(s, enc) == [RotateChar(s[0], enc)] + RotateStr(s[1..], enc);
      assert RotateStr(s, enc)[1..] == RotateStr(s[1..], enc);
    }
  }

  // ---------------------------------------------------------------------
  // Reference: per-character modular arithmetic
  // ---------------------------------------------------------------------

  /** A letter moved `k` places along the alphabet (mod 26), in its own case; anything else kept. */
  function ShiftChar(c: char, k: int): char {
    if IsAsciiUppercase(c) then Letter((AlphabetIndex(c) + k) % 26)
    else if IsAsciiLowercase(c) then LowerLetter((AlphabetIndex(c) + k) % 26)
    else c
  }

  /** Every character of `s` shifted by `k`. */
  function Shift(s: string, k: int): (r: string)
    ensures |r| == |s|
  {
    seq(|s|, i requires 0 <= i < |s| => ShiftChar(s[i], k))
  }

  /** Every character of `s` shifted by 0 is itself, and so is a shift by any multiple of 26. */
  lemma ShiftWholeTurn(s: string, k: int)
    requires k % 26 == 0
    ensures Shift(s, k) == s
  {
    forall i | 0 <= i < |s|
      ensures Shift(s, k)[i] == s[i]
    {
      if IsAsciiAlphabetic(s[i]) {
        CongruentMod(AlphabetIndex(s[i]), AlphabetIndex(s[i]) + k);
      }
    }
  }

  /** Shifting by `k` and then by `-k` gives back the text. */
  lemma {:induction false} ShiftRoundTrip(s: string, k: int)
    ensures Shift(Shift(s, k), -k) == s
  {
    forall i | 0 <= i < |s|
      ensures Shift(Shift(s, k), -k)[i] == s[i]
    {
      var c := s[i];
      if IsAsciiAlphabetic(c) {
        var p := AlphabetIndex(c);
        var q := (p + k) % 26;
        AddMod(p + k, -k);
        assert (q - k) % 26 == p;
        if IsAsciiUppercase(c) {
          assert ShiftChar(c, k) == Letter(q);
          assert ShiftChar(Letter(q), -k) == Letter(p);
          LetterAtIndex(c);
        } else {
          assert ShiftChar(c, k) == LowerLetter(q);
          assert ShiftChar(LowerLetter(q), -k) == LowerLetter(p);
          LetterAtIndex(c);
        }
      }
    }
  }

  /** Shifting works character by character: it distributes over concatenation. */
  lemma ShiftAppend(a: string, b: string, k: int)
    ensures Shift(a + b, k) == Shift(a, k) + Shift(b, k)
  {
  }

  /**
   * The table-driven rotation agrees with the per-character arithmetic, for
   * any table that shifts every position by `d`.
   */
  lemma RotateCharIsShift(c: char, table: Table, d: int)
    requires ShiftsBy(table, d)
    ensures RotateChar(c, table) == ShiftChar(c, d)
  {
    if IsAsciiAlphabetic(c) {
      assert table[AlphabetIndex(c)] == Letter((AlphabetIndex(c) + d) % 26);
    }
  }

  lemma RotateStrIsShift(s: string, table: Table, d: int)
    requires ShiftsBy(table, d)
    ensures RotateStr(s, table) == Shift(s, d)
  {
    forall i | 0 <= i < |s|
      ensures RotateStr(s, table)[i] == Shift(s, d)[i]
    {
      RotateCharIsShift(s[i], table, d);
    }
  }

  // ---------------------------------------------------------------------
  // Cipher instance
  // ---------------------------------------------------------------------

  /** `Caesar`: the encryption table and the decryption table, fixed at construction. */
  datatype Caesar = Caesar(rotatedEncrypt: Table, rotatedDecrypt: Table) {

    /** `encrypt`: the text rotated through the encryption table. */
    function Encrypt(s: string): (r: string)
      ensures |r| == |s|
      ensures forall i :: 0 <= i < |s| && !IsAsciiAlphabetic(s[i]) ==> r[i] == s[i]
    {
      RotateStr(s, rotatedEncrypt)
    }

    /** `decrypt`: the text rotated through the decryption table. */
    function Decrypt(s: string): (r: string)
      ensures |r| == |s|
      ensures forall i :: 0 <= i < |s| && !IsAsciiAlphabetic(s[i]) ==> r[i] == s[i]
    {
      RotateStr(s, rotatedDecrypt)
    }
  }

  /**
   * `Caesar::with_key`, with the negation made safe for every `i32`: the
   * decryption table is built from `-RustRem26(key)` (Rust's `-(key % 26)`),
   * which always fits in an `i32` and gives the same table as `-key` for
   * every key whose negation fits (see `WithKeyAgreesAsWritten`).
   * The encryption table shifts by `key`, the decryption table by `-key`.
   */
  function WithKey(key: I32): (c: Caesar)
    ensures ShiftsBy(c.rotatedEncrypt, key)
    ensures ShiftsBy(c.rotatedDecrypt, -(key as int))
  {
    var negated := -RustRem26(key);
    PrecalcRotatedShifts(negated, -(key as int));
    Caesar(PrecalcRotated(key), PrecalcRotated(negated))
  }

  /** The decryption table undoes the encryption table. */
  lemma DecryptTableInverts(key: I32)
    ensures Inverts(WithKey(key).rotatedDecrypt, WithKey(key).rotatedEncrypt)
  {
    PrecalcRotatedInverts(key, -RustRem26(key));
  }

  /** The encryption table undoes the decryption table. */
  lemma EncryptTableInverts(key: I32)
    ensures Inverts(WithKey(key).rotatedEncrypt, WithKey(key).rotatedDecrypt)
  {
    PrecalcRotatedInverts(-RustRem26(key), key);
  }

  /** Decrypting what was encrypted gives back the text, for every key and every text. */
  lemma DecryptEncrypt(key: I32, s: string)
    ensures WithKey(key).Decrypt(WithKey(key).Encrypt(s)) == s
  {
    DecryptTableInverts(key);
    RotateStrRoundTrip(s, WithKey(key).rotatedEncrypt, WithKey(key).rotatedDecrypt);
  }

  /** Encrypting what was decrypted gives back the text, for every key and every text. */
  lemma EncryptDecrypt(key: I32, s: string)
    ensures WithKey(key).Encrypt(WithKey(key).Decrypt(s)) == s
  {
    EncryptTableInverts(key);
    RotateStrRoundTrip(s, WithKey(key).rotatedDecrypt, WithKey(key).rotatedEncrypt);
  }

  /** Encryption is the shift by the key and decryption the shift by its negation. */
  lemma EncryptIsShift(key: I32, s: string)
    ensures WithKey(key).Encrypt(s) == Shift(s, key)
  {
    RotateStrIsShift(s, WithKey(key).rotatedEncrypt, key);
  }

  /** Decryption is the reference shift by the negated key. */
  lemma DecryptIsShift(key: I32, s: string)
    ensures WithKey(key).Decrypt(s) == Shift(s, -(key as int))
  {
    RotateStrIsShift(s, WithKey(key).rotatedDecrypt, -(key as int));
  }

  /** Encryption and decryption keep case and keep every non-letter at its place. */
  lemma CipherKeepsCase(key: I32, s: string)
    ensures forall i :: 0 <= i < |s| ==>
      (IsAsciiUppercase(WithKey(key).Encrypt(s)[i]) <==> IsAsciiUppercase(s[i])) &&
      (IsAsciiLowercase(WithKey(key).Encrypt(s)[i]) <==> IsAsciiLowercase(s[i]))
    ensures forall i :: 0 <= i < |s| ==>
      (IsAsciiUppercase(WithKey(key).Decrypt(s)[i]) <==> IsAsciiUppercase(s[i])) &&
      (IsAsciiLowercase(WithKey(key).Decrypt(s)[i]) <==> IsAsciiLowercase(s[i]))
  {
    var c := WithKey(key);
    assert IsUpperTable(c.rotatedEncrypt);
    assert IsUpperTable(c.rotatedDecrypt);
    RotateStrKeepsCase(s, c.rotatedEncrypt);
    RotateStrKeepsCase(s, c.rotatedDecrypt);
  }

  /** Keys that differ by a multiple of 26 make the same cipher. */
  lemma WithKeyPeriodic(k1: I32, k2: I32)
    requires (k2 - k1) % 26 == 0
    ensures WithKey(k1) == WithKey(k2)
  {
    var r1, r2 := RustRem26(k1), RustRem26(k2);
    CongruentMod(k1, k2);
    CongruentMod(r1, k1);
    CongruentMod(r2, k2);
    SameModDiff(r2, r1);
    PrecalcRotatedPeriodic(k1, k2);
    PrecalcRotatedPeriodic(-r1, -r2);
  }

  /** A key that is a multiple of 26 (0 and 26 among them) leaves every text unchanged. */
  lemma WholeTurnIsIdentity(key: I32, s: string)
    requires key % 26 == 0
    ensures WithKey(key).Encrypt(s) == s
    ensures WithKey(key).Decrypt(s) == s
  {
    EncryptIsShift(key, s);
    ShiftWholeTurn(s, key);
    DecryptIsShift(key, s);
    ShiftWholeTurn(s, -(key as int));
  }

  // ---------------------------------------------------------------------
  // The constructor as written: `-key` wraps for i32::MIN
  // ---------------------------------------------------------------------

  /** Rust's `-key` on an `i32` with wrap-around (release builds): i32::MIN stays i32::MIN. */
  function WrappingNeg(key: I32): (r: I32)
    ensures (r as int + key as int) % 0x1_0000_0000 == 0
    ensures key != I32Min ==> r == -key
    ensures key == I32Min ==> r == key
  {
    if key == I32Min then key else -key
  }

  /**
   * Two's-complement negation is determined by its defining property: the
   * only `i32` whose sum with `key` is 0 modulo 2^32 is `WrappingNeg(key)`.
   */
  lemma WrappingNegUnique(key: I32, r: I32)
    requires (r as int + key as int) % 0x1_0000_0000 == 0
    ensures r == WrappingNeg(key)
  {
    var q := (r as int + key as int) / 0x1_0000_0000;
    assert r as int + key as int == 0x1_0000_0000 * q;
    if q < -1 || q > 0 {
      assert false;
    }
  }

  /** `Caesar::with_key` as written: the decryption table is built from `-key`. */
  function WithKeyAsWritten(key: I32): (c: Caesar)
    ensures ShiftsBy(c.rotatedEncrypt, key)
    ensures key != I32Min ==> ShiftsBy(c.rotatedDecrypt, -(key as int))
    ensures key == I32Min ==> ShiftsBy(c.rotatedDecrypt, key)
    ensures key != I32Min ==> Inverts(c.rotatedDecrypt, c.rotatedEncrypt)
  {
    var c := Caesar(PrecalcRotated(key), PrecalcRotated(WrappingNeg(key)));
    assert key != I32Min ==> Inverts(c.rotatedDecrypt, c.rotatedEncrypt) by {
      if key != I32Min {
        PrecalcRotatedInverts(key, -key);
      }
    }
    c
  }

  /** For every key but i32::MIN, the constructor as written and the corrected one agree. */
  lemma WithKeyAgreesAsWritten(key: I32)
    requires key != I32Min
    ensures WithKeyAsWritten(key) == WithKey(key)
  {
    PrecalcRotatedPeriodic(-key, -RustRem26(key));
  }

  /**
   * For key i32::MIN the constructor as written builds two equal tables
   * (both of offset 2), so decrypting the encryption of "A" gives "E".
   */
  lemma MinKeyBreaksRoundTrip()
    ensures WithKeyAsWritten(I32Min).rotatedDecrypt == WithKeyAsWritten(I32Min).rotatedEncrypt
    ensures WithKeyAsWritten(I32Min).Decrypt(WithKeyAsWritten(I32Min).Encrypt("A")) == "E"
  {
    var c := WithKeyAsWritten(I32Min);
    assert Offset(I32Min) == 2;
    assert c.rotatedEncrypt[0] == 'C';
    assert c.rotatedDecrypt[2] == 'E';
    assert c.Encrypt("A") == "C";
  }
}
