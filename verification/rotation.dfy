/**
 Rotation of alphabet positions: forward for encryption, backward for
 decryption, both wrapping around modulo the alphabet size.
 */
module Rotation {
  import opened Alphabet

  /** Two integers that differ by a multiple of the alphabet size. */
  predicate Congruent(a: int, b: int) {
    (a - b) % Letters == 0
  }

  /** Forward rotation of position `i` by `amt`. The 8-bit sum must not
      overflow. The result is the one position congruent to `i + amt`. */
  function RotateIndex(i: Byte, amt: Byte): (r: Byte)
    requires i + amt < 256
    ensures r < Letters && Congruent(r, i + amt)
    ensures i + amt < Letters ==> r == i + amt
    ensures Letters <= i + amt < 2 * Letters ==> r == i + amt - Letters
  {
    (i + amt) % Letters
  }

  /** Backward rotation of position `i` by `amt`, using the floor-based
      modulo, so the result is a position even when `i < amt`. The
      original computes it in single-precision floating point; the rounded
      quotient of a difference of at most 255 by 26 is off by far less than
      1/26, so its floor is the integer floor and the value is the same. */
  function ReverseRotateIndex(i: Byte, amt: Byte): (r: Byte)
    ensures r < Letters && Congruent(r, i - amt)
    ensures amt <= i < amt + Letters ==> r == i - amt
    ensures i < amt <= i + Letters ==> r == i - amt + Letters
  {
    (i - amt) % Letters
  }

  /** Only one position is congruent to a given integer. */
  lemma CongruentPositionsEqual(a: int, b: int)
    requires 0 <= a < Letters && 0 <= b < Letters
    requires Congruent(a, b)
    ensures a == b
  {
  }

  /** Backward rotation undoes forward rotation on every position. */
  lemma ReverseUndoesRotate(i: Byte, amt: Byte)
    requires i < Letters && i + amt < 256
    ensures ReverseRotateIndex(RotateIndex(i, amt), amt) == i
  {
    var r := RotateIndex(i, amt);
    var back := ReverseRotateIndex(r, amt);
    // back == r - amt == i + amt - amt == i, all modulo the alphabet size
    assert Congruent(back, i) by {
      assert (back - (r - amt)) % Letters == 0;
      assert (r - (i + amt)) % Letters == 0;
      assert back - i == (back - (r - amt)) + (r - (i + amt));
    }
    CongruentPositionsEqual(back, i);
  }

  /** Forward rotation undoes backward rotation on every position. */
  lemma RotateUndoesReverse(i: Byte, amt: Byte)
    requires i < Letters && amt < Letters
    ensures RotateIndex(ReverseRotateIndex(i, amt), amt) == i
  {
    var r := ReverseRotateIndex(i, amt);
    var fwd := RotateIndex(r, amt);
    assert Congruent(fwd, i) by {
      assert (fwd - (r + amt)) % Letters == 0;
      assert (r - (i - amt)) % Letters == 0;
      assert fwd - i == (fwd - (r + amt)) + (r - (i - amt));
    }
    CongruentPositionsEqual(fwd, i);
  }
}
