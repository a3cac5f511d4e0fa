/**
 The concrete cases exercised by the original program's unit tests, stated
 as lemmas about the model, plus the backward wrap-around case that the
 tests leave out.
 */
module CipherVectors {
  import opened Alphabet
  import opened Rotation
  import opened Cipher

  /** 'A' is position 0 and position 0 is 'A'. */
  lemma AlphabetVectors()
    ensures ToAlphaIndex('A') == 0
    ensures ToChar(0) == 'A'
  {
  }

  /** Forward rotation wraps from 'Z' to 'A'. */
  lemma RotationVectors()
    ensures RotateIndex(25, 1) == 0
  {
  }

  /** Backward rotation wraps from 'A' to 'Z' (an added case, not one of
      the original tests). */
  lemma ReverseRotationWrap()
    ensures ReverseRotateIndex(0, 1) == 25
  {
  }

  /** Encryption of "CRYPTO" under the key "DUH". */
  lemma EncVectorShort()
    ensures ValidKey("DUH") && IsUpperText("CRYPTO")
    ensures Enc("DUH", "CRYPTO") == "FLFSNV"
  {
    var r := Enc("DUH", "CRYPTO");
    assert r[0] == EncryptLetter('C', 'D') == 'F';
    assert r[1] == EncryptLetter('R', 'U') == 'L';
    assert r[2] == EncryptLetter('Y', 'H') == 'F';
    assert r[3] == EncryptLetter('P', 'D') == 'S';
    assert r[4] == EncryptLetter('T', 'U') == 'N';
    assert r[5] == EncryptLetter('O', 'H') == 'V';
  }

  /** The letter encryptions that the longer vector needs. */
  lemma EncLetterTable()
    ensures EncryptLetter('A', 'H') == 'H'
    ensures EncryptLetter('D', 'U') == 'X'
    ensures EncryptLetter('E', 'H') == 'L'
    ensures EncryptLetter('E', 'U') == 'Y'
    ensures EncryptLetter('H', 'U') == 'B'
    ensures EncryptLetter('I', 'D') == 'L'
    ensures EncryptLetter('K', 'H') == 'R'
    ensures EncryptLetter('N', 'U') == 'H'
    ensures EncryptLetter('R', 'H') == 'Y'
    ensures EncryptLetter('T', 'D') == 'W'
    ensures EncryptLetter('Y', 'D') == 'B'
  {
  }

  /** Encryption of "THEYDRINKTHETEA" under the key "DUH". */
  lemma EncVectorLong()
    ensures ValidKey("DUH") && IsUpperText("THEYDRINKTHETEA")
    ensures Enc("DUH", "THEYDRINKTHETEA") == "WBLBXYLHRWBLWYH"
  {
    EncLetterTable();
    var r := Enc("DUH", "THEYDRINKTHETEA");
    assert r[0] == EncryptLetter('T', 'D');
    assert r[1] == EncryptLetter('H', 'U');
    assert r[2] == EncryptLetter('E', 'H');
    assert r[3] == EncryptLetter('Y', 'D');
    assert r[4] == EncryptLetter('D', 'U');
    assert r[5] == EncryptLetter('R', 'H');
    assert r[6] == EncryptLetter('I', 'D');
    assert r[7] == EncryptLetter('N', 'U');
    assert r[8] == EncryptLetter('K', 'H');
    assert r[9] == EncryptLetter('T', 'D');
    assert r[10] == EncryptLetter('H', 'U');
    assert r[11] == EncryptLetter('E', 'H');
    assert r[12] == EncryptLetter('T', 'D');
    assert r[13] == EncryptLetter('E', 'U');
    assert r[14] == EncryptLetter('A', 'H');
  }

  /** Decryption of "FLFSNV" under the key "DUH". */
  lemma DecVectorShort()
    ensures ValidKey("DUH") && IsUpperText("FLFSNV")
    ensures Dec("DUH", "FLFSNV") == "CRYPTO"
  {
    var r := Dec("DUH", "FLFSNV");
    assert r[0] == DecryptLetter('F', 'D') == 'C';
    assert r[1] == DecryptLetter('L', 'U') == 'R';
    assert r[2] == DecryptLetter('F', 'H') == 'Y';
    assert r[3] == DecryptLetter('S', 'D') == 'P';
    assert r[4] == DecryptLetter('N', 'U') == 'T';
    assert r[5] == DecryptLetter('V', 'H') == 'O';
  }

  /** The letter decryptions that the longer vector needs. */
  lemma DecLetterTable()
    ensures DecryptLetter('B', 'D') == 'Y'
    ensures DecryptLetter('B', 'U') == 'H'
    ensures DecryptLetter('H', 'H') == 'A'
    ensures DecryptLetter('H', 'U') == 'N'
    ensures DecryptLetter('L', 'D') == 'I'
    ensures DecryptLetter('L', 'H') == 'E'
    ensures DecryptLetter('R', 'H') == 'K'
    ensures DecryptLetter('W', 'D') == 'T'
    ensures DecryptLetter('X', 'U') == 'D'
    ensures DecryptLetter('Y', 'H') == 'R'
    ensures DecryptLetter('Y', 'U') == 'E'
  {
  }

  /** Decryption of "WBLBXYLHRWBLWYH" under the key "DUH". */
  lemma DecVectorLong()
    ensures ValidKey("DUH") && IsUpperText("WBLBXYLHRWBLWYH")
    ensures Dec("DUH", "WBLBXYLHRWBLWYH") == "THEYDRINKTHETEA"
  {
    DecLetterTable();
    var r := Dec("DUH", "WBLBXYLHRWBLWYH");
    assert r[0] == DecryptLetter('W', 'D');
    assert r[1] == DecryptLetter('B', 'U');
    assert r[2] == DecryptLetter('L', 'H');
    assert r[3] == DecryptLetter('B', 'D');
    assert r[4] == DecryptLetter('X', 'U');
    assert r[5] == DecryptLetter('Y', 'H');
    assert r[6] == DecryptLetter('L', 'D');
    assert r[7] == DecryptLetter('H', 'U');
    assert r[8] == DecryptLetter('R', 'H');
    assert r[9] == DecryptLetter('W', 'D');
    assert r[10] == DecryptLetter('B', 'U');
    assert r[11] == DecryptLetter('L', 'H');
    assert r[12] == DecryptLetter('W', 'D');
    assert r[13] == DecryptLetter('Y', 'U');
    assert r[14] == DecryptLetter('H', 'H');
  }
}
