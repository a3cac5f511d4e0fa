/**
 The alphabet mapping of the cipher: an upper-case Latin letter 'A'..'Z' is
 identified with its zero-based position 0..25 ('A' = 0, 'B' = 1, ...).
 Positions are unsigned 8-bit values in the original program; `Byte` keeps
 that width visible.
 */
module Alphabet {

  /** An unsigned 8-bit value. */
  type Byte = b: int | 0 <= b < 256

  /** Number of letters in the alphabet. */
  const Letters: int := 26

  /** True for the upper-case Latin letters 'A'..'Z'. */
  predicate IsUpper(c: char) {
    'A' <= c <= 'Z'
  }

  /** True when every character of `s` is an upper-case Latin letter. */
  predicate IsUpperText(s: seq<char>) {
    forall i :: 0 <= i < |s| ==> IsUpper(s[i])
  }

  /** The alphabetic position of an upper-case letter. Characters below 'A'
      would underflow the 8-bit subtraction, so only letters are admitted. */
  function ToAlphaIndex(c: char): (r: Byte)
    requires IsUpper(c)
    ensures r < Letters
    ensures ToChar(r) == c
  {
    c as int - 'A' as int
  }

  /** The character at offset `i` from 'A'. The 8-bit addition `i + 65` must
      not overflow; the result is a letter exactly when `i` is a position. */
  function ToChar(i: Byte): (r: char)
    requires i + 'A' as int < 256
    ensures i < Letters <==> IsUpper(r)
    ensures 'A' <= r
  {
    (i + 'A' as int) as char
  }

  /** Positions and letters are in one-to-one correspondence. */
  lemma ToCharToAlphaIndex(i: Byte)
    requires i < Letters
    ensures IsUpper(ToChar(i)) && ToAlphaIndex(ToChar(i)) == i
  {
  }
}
