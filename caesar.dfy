/**
 * The shift cipher the harness checks: the harness's own decryption step
 * (main.c's testResult, character by character) and a reference forward
 * shift that states what a correct cipher under test produces.
 */
module Caesar {
  import opened CStrings

  const AlphabetSize: nat := 26

  predicate IsLower(c: char) { 'a' <= c <= 'z' }
  predicate IsUpper(c: char) { 'A' <= c <= 'Z' }

  /**
   * A key the decryption's wrap-once arithmetic handles. The firmware does not
   * check its key; above 25 the result depends on how `char` arithmetic wraps.
   */
  predicate ValidKey(key: nat) { key < AlphabetSize }

  /**
   * Decryption of one ciphertext character: a letter moves back by `key`,
   * and 26 is added once if that leaves its alphabet; any other character
   * is copied unchanged.
   */
  function DecryptChar(c: char, key: nat): (r: char)
    requires ValidKey(key)
    ensures IsLower(c) ==> IsLower(r)
    ensures IsUpper(c) ==> IsUpper(r)
    ensures !IsLower(c) && !IsUpper(c) ==> r == c
  {
    if IsLower(c) then
      var d := c as int - key;
      (if d < 'a' as int then d + 26 else d) as char
    else if IsUpper(c) then
      var d := c as int - key;
      (if d < 'A' as int then d + 26 else d) as char
    else
      c
  }

  /**
   * Reference forward shift: a letter moves forward by `key` positions,
   * modulo 26, within its own case; any other character is unchanged.
   */
  function ShiftChar(c: char, key: nat): (r: char)
    ensures IsLower(c) ==> IsLower(r)
    ensures IsUpper(c) ==> IsUpper(r)
    ensures !IsLower(c) && !IsUpper(c) ==> r == c
  {
    if IsLower(c) then
      ('a' as int + (c as int - 'a' as int + key) % AlphabetSize) as char
    else if IsUpper(c) then
      ('A' as int + (c as int - 'A' as int + key) % AlphabetSize) as char
    else
      c
  }

  /** The harness's decryption of a whole ciphertext. */
  function Decrypt(s: seq<char>, key: nat): (r: seq<char>)
    requires ValidKey(key)
    ensures |r| == |s|
  {
    if s == [] then [] else [DecryptChar(s[0], key)] + Decrypt(s[1..], key)
  }

  /** What a correct cipher under test returns for plaintext `s`. */
  function Encrypt(s: seq<char>, key: nat): (r: seq<char>)
    ensures |r| == |s|
  {
    if s == [] then [] else [ShiftChar(s[0], key)] + Encrypt(s[1..], key)
  }

  /** Decryption works position by position: output i depends only on input i. */
  lemma {:induction false} DecryptAt(s: seq<char>, key: nat)
    requires ValidKey(key)
    ensures forall i :: 0 <= i < |s| ==> Decrypt(s, key)[i] == DecryptChar(s[i], key)
  {
    if s != [] {
      DecryptAt(s[1..], key);
      forall i | 1 <= i < |s|
        ensures Decrypt(s, key)[i] == DecryptChar(s[i], key)
      {
        assert Decrypt(s, key)[i] == Decrypt(s[1..], key)[i - 1];
      }
    }
  }

  /** The reference shift works position by position as well. */
  lemma {:induction false} EncryptAt(s: seq<char>, key: nat)
    ensures forall i :: 0 <= i < |s| ==> Encrypt(s, key)[i] == ShiftChar(s[i], key)
  {
    if s != [] {
      EncryptAt(s[1..], key);
      forall i | 1 <= i < |s|
        ensures Encrypt(s, key)[i] == ShiftChar(s[i], key)
      {
        assert Encrypt(s, key)[i] == Encrypt(s[1..], key)[i - 1];
      }
    }
  }

  /**
   * The wrap-once step is the modular backward shift: for a key in [0, 25]
   * a letter at alphabet position p decrypts to position (p - key) mod 26.
   */
  lemma DecryptCharIsBackwardShift(c: char, key: nat)
    requires ValidKey(key)
    ensures IsLower(c) ==>
      DecryptChar(c, key) as int == 'a' as int + (c as int - 'a' as int - key) % AlphabetSize
    ensures IsUpper(c) ==>
      DecryptChar(c, key) as int == 'A' as int + (c as int - 'A' as int - key) % AlphabetSize
  {
  }

  /**
   * On alphabet positions 0..25, moving back by `key` with one wrap undoes
   * moving forward modulo 26, and the other way round.
   */
  lemma OffsetRoundTrip(p: int, key: nat)
    requires 0 <= p < AlphabetSize && ValidKey(key)
    ensures var f := (p + key) % AlphabetSize; (if f - key < 0 then f - key + 26 else f - key) == p
    ensures var b := if p - key < 0 then p - key + 26 else p - key; (b + key) % AlphabetSize == p
  {
    if p + key < AlphabetSize {
      assert (p + key) % AlphabetSize == p + key;
    } else {
      assert (p + key) % AlphabetSize == p + key - 26;
    }
  }

  /** Per character, decryption undoes the forward shift and the forward shift undoes decryption. */
  lemma CharRoundTrip(c: char, key: nat)
    requires ValidKey(key)
    ensures DecryptChar(ShiftChar(c, key), key) == c
    ensures ShiftChar(DecryptChar(c, key), key) == c
  {
    if IsLower(c) {
      OffsetRoundTrip(c as int - 'a' as int, key);
    } else if IsUpper(c) {
      OffsetRoundTrip(c as int - 'A' as int, key);
    }
  }

  /** The round-trip law: decrypting the forward shift of P gives back P. */
  lemma {:induction false} DecryptEncrypt(p: seq<char>, key: nat)
    requires ValidKey(key)
    ensures Decrypt(Encrypt(p, key), key) == p
  {
    if p != [] {
      CharRoundTrip(p[0], key);
      DecryptEncrypt(p[1..], key);
    }
  }

  /** The converse: every ciphertext is the forward shift of its decryption. */
  lemma {:induction false} EncryptDecrypt(c: seq<char>, key: nat)
    requires ValidKey(key)
    ensures Encrypt(Decrypt(c, key), key) == c
  {
    if c != [] {
      CharRoundTrip(c[0], key);
      EncryptDecrypt(c[1..], key);
    }
  }

  /**
   * The decryption step is an exact oracle: a ciphertext decrypts to P
   * if and only if it is the forward shift of P.
   */
  lemma {:induction false} DecryptsToIff(c: seq<char>, p: seq<char>, key: nat)
    requires ValidKey(key)
    ensures Decrypt(c, key) == p <==> c == Encrypt(p, key)
  {
    DecryptEncrypt(p, key);
    EncryptDecrypt(c, key);
  }

  /** Decryption maps a C string to a C string, so `strcmp` on it compares whole sequences. */
  lemma {:induction false} DecryptKeepsCString(s: seq<char>, key: nat)
    requires ValidKey(key)
    requires IsCString(s)
    ensures IsCString(Decrypt(s, key))
  {
    DecryptAt(s, key);
  }

  /** The forward shift also maps a C string to a C string. */
  lemma {:induction false} EncryptKeepsCString(s: seq<char>, key: nat)
    requires IsCString(s)
    ensures IsCString(Encrypt(s, key))
  {
    EncryptAt(s, key);
  }
}
