/**
 * Concrete runs of the harness: the lab's own inputs against a correct
 * cipher, and a faulty cipher that the harness must catch.
 */
module Scenarios {
  import opened CStrings
  import opened Caesar
  import opened RoundTripTest

  /** Key 1 moves each letter of "abcxyz" one place on, wrapping z to a, and the harness passes it. */
  lemma ShiftByOne()
    ensures Encrypt("abcxyz", 1) == "bcdyza"
    ensures Outcome("abcxyz", "bcdyza", 1) == 0
  {
    OutcomeMeaning("abcxyz", "bcdyza", 1);
  }

  /** Two alphabet positions in 0..50 whose offsets differ modulo 26 stay different modulo 26. */
  lemma ModDistinct(a: nat, b: nat)
    requires a < 51 && b < 51 && a != b && -26 < a - b < 26
    ensures a % AlphabetSize != b % AlphabetSize
  {
    assert a % AlphabetSize == if a < 26 then a else a - 26;
    assert b % AlphabetSize == if b < 26 then b else b - 26;
  }

  /** Adding whole turns of 26 to a position does not change it modulo 26. */
  lemma {:induction false} ModTurns(p: nat, q: nat)
    ensures (p + AlphabetSize * q) % AlphabetSize == p % AlphabetSize
  {
    if q > 0 {
      ModTurns(p, q - 1);
      assert p + AlphabetSize * q == (p + AlphabetSize * (q - 1)) + AlphabetSize;
    }
  }

  /** The forward shift only depends on the key modulo 26. */
  lemma ShiftCharKeyMod(c: char, key: nat)
    ensures ShiftChar(c, key) == ShiftChar(c, key % AlphabetSize)
  {
    var q := key / AlphabetSize;
    assert key == key % AlphabetSize + AlphabetSize * q;
    if IsLower(c) {
      ModTurns(c as int - 'a' as int + key % AlphabetSize, q);
    } else if IsUpper(c) {
      ModTurns(c as int - 'A' as int + key % AlphabetSize, q);
    }
  }

  /** Keys that differ modulo 26 move a letter to different letters. */
  lemma ShiftCharInjectiveInKey(c: char, k1: nat, k2: nat)
    requires IsLower(c) || IsUpper(c)
    requires k1 % AlphabetSize != k2 % AlphabetSize
    ensures ShiftChar(c, k1) != ShiftChar(c, k2)
  {
    ShiftCharKeyMod(c, k1);
    ShiftCharKeyMod(c, k2);
    var p := if IsLower(c) then c as int - 'a' as int else c as int - 'A' as int;
    ModDistinct(p + k1 % AlphabetSize, p + k2 % AlphabetSize);
  }

  /** Key + 1 is a different shift from key, also for key 25, where it wraps to 0. */
  lemma NextKeyDiffers(key: nat)
    requires ValidKey(key)
    ensures key % AlphabetSize != (key + 1) % AlphabetSize
  {
    assert (key + 1) % AlphabetSize == if key < 25 then key + 1 else 0;
  }

  /**
   * A faulty cipher that shifts by key + 1 instead of key keeps the length
   * but is caught by the content check: a plaintext with a letter fails with
   * count 1 for every key, including 25, where key + 1 wraps to a shift of 0.
   */
  lemma OffByOneKeyIsCaught(p: seq<char>, key: nat, i: nat)
    requires ValidKey(key)
    requires i < |p| && (IsLower(p[i]) || IsUpper(p[i]))
    ensures Outcome(p, Encrypt(p, key + 1), key) == 1
  {
    NextKeyDiffers(key);
    EncryptAt(p, key);
    EncryptAt(p, key + 1);
    ShiftCharInjectiveInKey(p[i], key, key + 1);
    assert Encrypt(p, key + 1)[i] != Encrypt(p, key)[i];
    OutcomeMeaning(p, Encrypt(p, key + 1), key);
  }

  /** The lab's matrix run against a correct cipher: 12 tests, no failure. */
  method LabWithCorrectCipher() returns (testCount: nat, totalFailCount: int)
    ensures testCount == 12 && totalFailCount == 0
  {
    var correct := (s: seq<char>, k: nat) => Encrypt(s, k);
    forall k, t | k in KeyArray && t in InpTextArray
      ensures CStr(correct(t, k)) == Encrypt(t, k)
    {
      EncryptKeepsCString(t, k);
      CStrOfCString(Encrypt(t, k));
    }
    testCount, totalFailCount := RunLab(correct);
  }
}
