/**
 The Vigenère cipher over upper-case text: position `j` of the text is
 rotated by the alphabetic position of key character `key[j % |key|]`,
 forward to encrypt and backward to decrypt.
 */
module Cipher {
  import opened Alphabet
  import opened Rotation

  /** A usable key: non-empty (the key index is taken modulo its length)
      and made of upper-case letters only. */
  predicate ValidKey(key: seq<char>) {
    |key| > 0 && IsUpperText(key)
  }

  /** The key character that shifts text position `j`: the key is cycled,
      starting again from its first character after its last one. */
  function KeyChar(key: seq<char>, j: nat): (k: char)
    requires ValidKey(key)
    ensures IsUpper(k)
    ensures j < |key| ==> k == key[j]
    decreases j
  {
    if j < |key| then key[j] else KeyChar(key, j - |key|)
  }

  /** The cycled key character is the one the original indexes with the
      remainder `j % |key|`. */
  lemma {:induction false} KeyCharIsRemainder(key: seq<char>, j: nat)
    requires ValidKey(key)
    ensures KeyChar(key, j) == key[j % |key|]
    decreases j
  {
    var n := |key|;
    if j < n {
      ModUnique(j, n, 0, j);
    } else {
      KeyCharIsRemainder(key, j - n);
      ModAddMultiple(j - n, 1, n);
    }
  }

  /** One plaintext letter encrypted under one key letter. */
  function EncryptLetter(p: char, k: char): (c: char)
    requires IsUpper(p) && IsUpper(k)
    ensures IsUpper(c)
    ensures Congruent(ToAlphaIndex(c), ToAlphaIndex(p) + ToAlphaIndex(k))
  {
    ToChar(RotateIndex(ToAlphaIndex(p), ToAlphaIndex(k)))
  }

  /** One ciphertext letter decrypted under one key letter. */
  function DecryptLetter(c: char, k: char): (p: char)
    requires IsUpper(c) && IsUpper(k)
    ensures IsUpper(p)
    ensures Congruent(ToAlphaIndex(p), ToAlphaIndex(c) - ToAlphaIndex(k))
  {
    ToChar(ReverseRotateIndex(ToAlphaIndex(c), ToAlphaIndex(k)))
  }

  /** Decrypting a letter under the key letter it was encrypted with gives it back. */
  lemma DecryptEncryptLetter(p: char, k: char)
    requires IsUpper(p) && IsUpper(k)
    ensures DecryptLetter(EncryptLetter(p, k), k) == p
  {
    var i, amt := ToAlphaIndex(p), ToAlphaIndex(k);
    ToCharToAlphaIndex(RotateIndex(i, amt));
    ReverseUndoesRotate(i, amt);
  }

  /** Encrypting a letter under the key letter it was decrypted with gives it back. */
  lemma EncryptDecryptLetter(c: char, k: char)
    requires IsUpper(c) && IsUpper(k)
    ensures EncryptLetter(DecryptLetter(c, k), k) == c
  {
    var i, amt := ToAlphaIndex(c), ToAlphaIndex(k);
    ToCharToAlphaIndex(ReverseRotateIndex(i, amt));
    RotateUndoesReverse(i, amt);
  }

  /** Encryption of a whole text: the output is built by appending one
      encrypted letter per text position, in order. */
  function Enc(key: seq<char>, val: seq<char>): (r: seq<char>)
    requires ValidKey(key) && IsUpperText(val)
    ensures |r| == |val| && IsUpperText(r)
    ensures forall j :: 0 <= j < |val| ==> r[j] == EncryptLetter(val[j], KeyChar(key, j))
    decreases |val|
  {
    if |val| == 0 then []
    else
      var j := |val| - 1;
      Enc(key, val[..j]) + [EncryptLetter(val[j], KeyChar(key, j))]
  }

  /** Decryption of a whole text, structured like `Enc`. */
  function Dec(key: seq<char>, val: seq<char>): (r: seq<char>)
    requires ValidKey(key) && IsUpperText(val)
    ensures |r| == |val| && IsUpperText(r)
    ensures forall j :: 0 <= j < |val| ==> r[j] == DecryptLetter(val[j], KeyChar(key, j))
    decreases |val|
  {
    if |val| == 0 then []
    else
      var j := |val| - 1;
      Dec(key, val[..j]) + [DecryptLetter(val[j], KeyChar(key, j))]
  }

  /** The loop of the original encryption routine: enumerate the text,
      look up the cycled key character, rotate forward and append. */
  method EncLoop(key: seq<char>, val: seq<char>) returns (out: seq<char>)
    requires ValidKey(key) && IsUpperText(val)
    ensures out == Enc(key, val)
  {
    out := [];
    var i := 0;
    while i < |val|
      invariant 0 <= i <= |val|
      invariant out == Enc(key, val[..i])
    {
      var keyChar := key[i % |key|];
      KeyCharIsRemainder(key, i);
      var shiftAmt := ToAlphaIndex(keyChar);
      var index := RotateIndex(ToAlphaIndex(val[i]), shiftAmt);
      out := out + [ToChar(index)];
      assert val[..i + 1][..i] == val[..i];
      i := i + 1;
    }
    assert val[..i] == val;
  }

  /** The loop of the original decryption routine, rotating backward. */
  method DecLoop(key: seq<char>, val: seq<char>) returns (out: seq<char>)
    requires ValidKey(key) && IsUpperText(val)
    ensures out == Dec(key, val)
  {
    out := [];
    var i := 0;
    while i < |val|
      invariant 0 <= i <= |val|
      invariant out == Dec(key, val[..i])
    {
      var keyChar := key[i % |key|];
      KeyCharIsRemainder(key, i);
      var shiftAmt := ToAlphaIndex(keyChar);
      var index := ReverseRotateIndex(ToAlphaIndex(val[i]), shiftAmt);
      out := out + [ToChar(index)];
      assert val[..i + 1][..i] == val[..i];
      i := i + 1;
    }
    assert val[..i] == val;
  }

  /** Empty text encrypts and decrypts to empty text, whatever the key. */
  lemma EmptyText(key: seq<char>)
    requires ValidKey(key)
    ensures Enc(key, []) == [] && Dec(key, []) == []
  {
  }

  /** Decryption undoes encryption under the same key. */
  lemma {:induction false} DecEncRoundTrip(key: seq<char>, val: seq<char>)
    requires ValidKey(key) && IsUpperText(val)
    ensures Dec(key, Enc(key, val)) == val
  {
    var c := Enc(key, val);
    var p := Dec(key, c);
    forall j | 0 <= j < |val|
      ensures p[j] == val[j]
    {
      DecryptEncryptLetter(val[j], KeyChar(key, j));
    }
  }

  /** Encryption undoes decryption under the same key. */
  lemma {:induction false} EncDecRoundTrip(key: seq<char>, val: seq<char>)
    requires ValidKey(key) && IsUpperText(val)
    ensures Enc(key, Dec(key, val)) == val
  {
    var p := Dec(key, val);
    var c := Enc(key, p);
    forall j | 0 <= j < |val|
      ensures c[j] == val[j]
    {
      EncryptDecryptLetter(val[j], KeyChar(key, j));
    }
  }

  /** Key cycling: positions `j` and `j + |key|` are shifted by the same key
      character, so equal letters there encrypt (and decrypt) equally. */
  lemma KeyCycling(key: seq<char>, val: seq<char>, j: nat)
    requires ValidKey(key) && IsUpperText(val)
    requires j + |key| < |val| && val[j] == val[j + |key|]
    ensures Enc(key, val)[j] == Enc(key, val)[j + |key|]
    ensures Dec(key, val)[j] == Dec(key, val)[j + |key|]
  {
    var e, d, n := Enc(key, val), Dec(key, val), |key|;
    KeyPeriod(key, j, 1);
    assert e[j] == EncryptLetter(val[j], KeyChar(key, j));
    assert e[j + n] == EncryptLetter(val[j + n], KeyChar(key, j + n));
    assert d[j] == DecryptLetter(val[j], KeyChar(key, j));
    assert d[j + n] == DecryptLetter(val[j + n], KeyChar(key, j + n));
  }

  /** The key character repeats with the key's length as period. */
  lemma {:induction false} KeyPeriod(key: seq<char>, j: nat, q: nat)
    requires ValidKey(key)
    ensures KeyChar(key, j + q * |key|) == KeyChar(key, j)
    decreases q
  {
    if q > 0 {
      var n := |key|;
      assert j + q * n - n == j + (q - 1) * n;
      KeyPeriod(key, j, q - 1);
    }
  }

  /** The output is produced in order: a prefix of the text encrypts (and
      decrypts) to the same-length prefix of the output. */
  lemma {:induction false} PrefixStable(key: seq<char>, val: seq<char>, n: nat)
    requires ValidKey(key) && IsUpperText(val) && n <= |val|
    ensures IsUpperText(val[..n])
    ensures Enc(key, val[..n]) == Enc(key, val)[..n]
    ensures Dec(key, val[..n]) == Dec(key, val)[..n]
  {
    var p := val[..n];
    assert IsUpperText(p) by {
      forall j | 0 <= j < n ensures IsUpper(p[j]) {
        assert p[j] == val[j];
      }
    }
    var e, e', d, d' := Enc(key, p), Enc(key, val)[..n], Dec(key, p), Dec(key, val)[..n];
    forall j | 0 <= j < n
      ensures e[j] == e'[j] && d[j] == d'[j]
    {
      assert p[j] == val[j];
    }
  }

  /** A product of a positive factor and a positive modulus is at least the modulus. */
  lemma {:induction false} MulAtLeast(a: int, n: int)
    requires a >= 1 && n > 0
    ensures a * n >= n
    decreases a
  {
    if a > 1 {
      MulAtLeast(a - 1, n);
      assert a * n == (a - 1) * n + n;
    }
  }

  /** Quotient and remainder are unique: whenever `x == q * n + r` with
      `0 <= r < n`, they are `x / n` and `x % n`. */
  lemma ModUnique(x: int, n: int, q: int, r: int)
    requires n > 0 && 0 <= r < n && x == q * n + r
    ensures x % n == r && x / n == q
  {
    var q', r' := x / n, x % n;
    assert x == q' * n + r';
    if q' < q {
      MulAtLeast(q - q', n);
    } else if q < q' {
      MulAtLeast(q' - q, n);
    }
  }

  /** Adding a multiple of the modulus leaves the remainder unchanged. */
  lemma ModAddMultiple(k: int, q: int, n: int)
    requires n > 0
    ensures (k + q * n) % n == k % n
  {
    assert k == (k / n) * n + k % n;
    assert k + q * n == (k / n + q) * n + k % n;
    ModUnique(k + q * n, n, k / n + q, k % n);
  }

  /** A key made of 'A' only shifts nothing: encryption is the identity. */
  lemma NullKeyIsIdentity(key: seq<char>, val: seq<char>)
    requires ValidKey(key) && IsUpperText(val)
    requires forall i :: 0 <= i < |key| ==> key[i] == 'A'
    ensures Enc(key, val) == val && Dec(key, val) == val
  {
    var e, d := Enc(key, val), Dec(key, val);
    forall j | 0 <= j < |val|
      ensures e[j] == val[j] && d[j] == val[j]
    {
      KeyCharIsRemainder(key, j);
      assert KeyChar(key, j) == 'A';
      ToCharToAlphaIndex(ToAlphaIndex(val[j]));
    }
  }
}
