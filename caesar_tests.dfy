/**
 * The unit tests of `caesar.rs`, stated as lemmas about the model: each
 * fixes a key and a text and proves the output the test expects. Most
 * expected outputs are first computed with the reference shift, then
 * carried over to the cipher by `EncryptIsShift` or `DecryptIsShift`; the
 * whole-turn keys 0 and 26 go through `WholeTurnIsIdentity`, and the
 * reduction of keys 54 and 55 through `WithKeyPeriodic`.
 */
module CaesarTests {
  import opened CaesarCipher

  /** Key 1 moves every letter one place forward. */
  lemma EncryptsBasicString()
    ensures WithKey(1).Encrypt("ABC") == "BCD"
  {
    assert Shift("ABC", 1) == "BCD";
    EncryptIsShift(1, "ABC");
  }

  /** Decryption with key 1 moves every letter one place back. */
  lemma DecryptsBasicString()
    ensures WithKey(1).Decrypt("BCD") == "ABC"
  {
    assert Shift("BCD", -1) == "ABC";
    DecryptIsShift(1, "BCD");
  }

  /** Punctuation stays where it is. */
  lemma KeepsNonAlphabetCharacters()
    ensures WithKey(1).Encrypt("(ABC)D") == "(BCD)E"
  {
    assert Shift("(ABC)D", 1) == "(BCD)E";
    EncryptIsShift(1, "(ABC)D");
  }

  /** Spaces stay where they are. */
  lemma RespectsSpaces()
    ensures WithKey(1).Encrypt("A B C") == "B C D"
  {
    assert Shift("A B C", 1) == "B C D";
    EncryptIsShift(1, "A B C");
  }

  /** Line breaks stay where they are. */
  lemma RespectsMultiline()
    ensures WithKey(1).Encrypt("A \n B \n C") == "B \n C \n D"
  {
    assert Shift("A \n B \n C", 1) == "B \n C \n D";
    EncryptIsShift(1, "A \n B \n C");
  }

  /** Lower-case letters move like upper-case ones and stay lower-case. */
  lemma EncryptsLowerCaseString()
    ensures WithKey(1).Encrypt("abc") == "bcd"
  {
    assert Shift("abc", 1) == "bcd";
    EncryptIsShift(1, "abc");
  }

  /** Both cases with the same key: upper-case stays upper, lower-case stays lower. */
  lemma RespectsCapitalization()
    ensures WithKey(1).Encrypt("ABC") == "BCD"
    ensures WithKey(1).Encrypt("abc") == "bcd"
  {
    EncryptsBasicString();
    EncryptsLowerCaseString();
  }

  /** A Cyrillic letter is not an ASCII letter and passes through unchanged. */
  lemma KeepsUtf8Characters()
    ensures WithKey(1).Encrypt("ЗaЗ") == "ЗbЗ"
  {
    assert Shift("ЗaЗ", 1) == "ЗbЗ";
    EncryptIsShift(1, "ЗaЗ");
  }

  /** Key 26 is a whole turn: encryption changes nothing. */
  lemma LastAlphaPosEncrypt()
    ensures WithKey(26).Encrypt("ABC") == "ABC"
  {
    WholeTurnIsIdentity(26, "ABC");
  }

  /** Key 26 is a whole turn: decryption changes nothing. */
  lemma LastAlphaPosDecrypt()
    ensures WithKey(26).Decrypt("ABC") == "ABC"
  {
    WholeTurnIsIdentity(26, "ABC");
  }

  /** Letters near the end of the alphabet wrap around to its start. */
  lemma RelativeUpperOverflow()
    ensures WithKey(3).Encrypt("XY") == "AB"
  {
    assert Shift("XY", 3) == "AB";
    EncryptIsShift(3, "XY");
  }

  /** Letters near the start of the alphabet wrap back around to its end. */
  lemma RelativeLowerOverflow()
    ensures WithKey(3).Decrypt("BC") == "YZ"
  {
    assert Shift("BC", -3) == "YZ";
    DecryptIsShift(3, "BC");
  }

  /** Key 54 is two whole turns and 2 places forward. */
  lemma UpperBoundOverflow()
    ensures WithKey(54).Encrypt("ABC") == "CDE"
  {
    assert Shift("ABC", 54) == "CDE";
    EncryptIsShift(54, "ABC");
  }

  /** Decrypting with key 55 is two whole turns and 3 places back. */
  lemma LowerBoundOverflow()
    ensures WithKey(55).Decrypt("ABC") == "XYZ"
  {
    assert Shift("ABC", -55) == "XYZ";
    DecryptIsShift(55, "ABC");
  }

  /** Keys 54 and 55 make the same ciphers as keys 2 and 3. */
  lemma KeysBeyondAlphabetReduce()
    ensures WithKey(54) == WithKey(2)
    ensures WithKey(55) == WithKey(3)
  {
    WithKeyPeriodic(2, 54);
    WithKeyPeriodic(3, 55);
  }

  /** Key 0 changes nothing. */
  lemma SameOnNoKey()
    ensures WithKey(0).Encrypt("ABC") == "ABC"
  {
    WholeTurnIsIdentity(0, "ABC");
  }

  /*
   * The pangram example with key -3. The texts are written as concatenations
   * of their words, so that the shift can be computed word by word.
   */

  const PlainHead: string := "THE " + "QUICK " + "BROWN " + "FOX "
  const PlainTail: string := "JUMPS " + "OVER " + "THE " + "LAZY " + "DOG"
  const Plaintext: string := PlainHead + PlainTail
  const CipherHead: string := "QEB " + "NRFZH " + "YOLTK " + "CLU "
  const CipherTail: string := "GRJMP " + "LSBO " + "QEB " + "IXWV " + "ALD"
  const Ciphertext: string := CipherHead + CipherTail

  lemma PlainHeadShift()
    ensures Shift(PlainHead, -3) == CipherHead
  {
    assert Shift("THE ", -3) == "QEB ";
    assert Shift("QUICK ", -3) == "NRFZH ";
    assert Shift("BROWN ", -3) == "YOLTK ";
    assert Shift("FOX ", -3) == "CLU ";
    ShiftAppend("THE ", "QUICK ", -3);
    ShiftAppend("THE " + "QUICK ", "BROWN ", -3);
    ShiftAppend("THE " + "QUICK " + "BROWN ", "FOX ", -3);
  }

  lemma PlainTailShift()
    ensures Shift(PlainTail, -3) == CipherTail
  {
    assert Shift("JUMPS ", -3) == "GRJMP ";
    assert Shift("OVER ", -3) == "LSBO ";
    assert Shift("THE ", -3) == "QEB ";
    assert Shift("LAZY ", -3) == "IXWV ";
    assert Shift("DOG", -3) == "ALD";
    ShiftAppend("JUMPS ", "OVER ", -3);
    ShiftAppend("JUMPS " + "OVER ", "THE ", -3);
    ShiftAppend("JUMPS " + "OVER " + "THE ", "LAZY ", -3);
    ShiftAppend("JUMPS " + "OVER " + "THE " + "LAZY ", "DOG", -3);
  }

  /** Shifting the plain text back by 3 gives the cipher text. */
  lemma PlaintextShift()
    ensures Shift(Plaintext, -3) == Ciphertext
  {
    PlainHeadShift();
    PlainTailShift();
    ShiftAppend(PlainHead, PlainTail, -3);
  }

  /**
   * Shifting the cipher text forward by 3 gives the plain text back: it is
   * the shift of the plain text by -3, and shifting by -3 and then by 3 is
   * the identity.
   */
  lemma CiphertextShift()
    ensures Shift(Ciphertext, 3) == Plaintext
  {
    PlaintextShift();
    ShiftRoundTrip(Plaintext, -3);
  }

  /** Key -3 encrypts the pangram into the cipher text. */
  lemma WikipediaEncrypt()
    ensures WithKey(-3).Encrypt(Plaintext) == Ciphertext
  {
    PlaintextShift();
    EncryptIsShift(-3, Plaintext);
  }

  /** Key -3 decrypts the cipher text back into the pangram. */
  lemma WikipediaDecrypt()
    ensures WithKey(-3).Decrypt(Ciphertext) == Plaintext
  {
    CiphertextShift();
    DecryptIsShift(-3, Ciphertext);
  }

  /** The whole pangram example: encryption, then decryption of the cipher text. */
  lemma WikipediaExample()
    ensures WithKey(-3).Encrypt(Plaintext) == Ciphertext
    ensures WithKey(-3).Decrypt(Ciphertext) == Plaintext
  {
    WikipediaEncrypt();
    WikipediaDecrypt();
  }
}
