/**
 * The round-trip test harness of main.c: the verification step `testResult`
 * (length check, decryption into the static buffer, comparison, failure
 * count, report) and the key-by-string test-matrix driver of `main`.
 */
module RoundTripTest {
  import opened CStrings
  import opened Caesar

  /** Size of the report buffer and of the decryption buffer. */
  const MaxPrintLen: nat := 400

  /** Largest value of the driver's `int32_t totalFailCount`. */
  const Int32Max: nat := 0x7FFF_FFFF

  /** The "pass"/"fail" labels a report prints for its two checks. */
  datatype Verdict = Pass | Fail

  /**
   * One report block sent to the serial line: test number, key, input,
   * ciphertext, the text the decryption buffer holds, and the labels of the
   * length check and of the content check.
   */
  datatype Report = Report(
    testNum: int,
    key: nat,
    input: seq<char>,
    encrypted: seq<char>,
    decrypted: seq<char>,
    lengthCheck: Verdict,
    contentCheck: Verdict)

  /** One (key, string) pair of the test matrix. */
  datatype TestCase = TestCase(key: nat, text: seq<char>)

  /** The failure count `testResult` returns for a plaintext and a ciphertext. */
  function Outcome(orig: seq<char>, cipher: seq<char>, key: nat): (n: nat)
    requires ValidKey(key)
    ensures n <= 2
    ensures n == 2 <==> |orig| != |cipher|
  {
    if |orig| != |cipher| then 2
    else if Decrypt(cipher, key) != orig then 1
    else 0
  }

  /**
   * The failure count means: 0 exactly when the cipher under test returned the
   * forward shift of the plaintext, 1 when it returned text of the right
   * length that is not that shift, 2 when the lengths differ.
   */
  lemma OutcomeMeaning(orig: seq<char>, cipher: seq<char>, key: nat)
    requires ValidKey(key)
    ensures Outcome(orig, cipher, key) in {0, 1, 2}
    ensures Outcome(orig, cipher, key) == 0 <==> cipher == Encrypt(orig, key)
    ensures Outcome(orig, cipher, key) == 1 <==> |orig| == |cipher| && cipher != Encrypt(orig, key)
    ensures Outcome(orig, cipher, key) == 2 <==> |orig| != |cipher|
  {
    DecryptsToIff(cipher, orig, key);
  }

  /** The cases of one key, in the order of the strings. */
  function Row(key: nat, texts: seq<seq<char>>): (row: seq<TestCase>)
    ensures |row| == |texts|
    ensures forall j :: 0 <= j < |texts| ==> row[j] == TestCase(key, texts[j])
  {
    seq(|texts|, j requires 0 <= j < |texts| => TestCase(key, texts[j]))
  }

  /** The whole test matrix in the order the driver runs it: keys outer, strings inner. */
  function Cases(keys: seq<nat>, texts: seq<seq<char>>): (cs: seq<TestCase>)
    ensures |cs| == |keys| * |texts|
    ensures forall c :: c in cs ==> c.key in keys && c.text in texts
  {
    if keys == [] then []
    else
      var rest := Cases(keys[1..], texts);
      assert |keys| * |texts| == |texts| + |keys[1..]| * |texts|;
      Row(keys[0], texts) + rest
  }

  /** The matrix of two runs of keys, one after the other, is the two matrices one after the other. */
  lemma {:induction false} CasesAppend(keys1: seq<nat>, keys2: seq<nat>, texts: seq<seq<char>>)
    ensures Cases(keys1 + keys2, texts) == Cases(keys1, texts) + Cases(keys2, texts)
  {
    if keys1 != [] {
      assert (keys1 + keys2)[1..] == keys1[1..] + keys2;
      CasesAppend(keys1[1..], keys2, texts);
    } else {
      assert keys1 + keys2 == keys2;
    }
  }

  /**
   * The driver's progress through the matrix: the first i + 1 keys give the
   * cases of the first i keys followed by the row of key i, and these are
   * a prefix of the whole matrix.
   */
  lemma CasesNext(keys: seq<nat>, texts: seq<seq<char>>, i: nat)
    requires i < |keys|
    ensures Cases(keys[..i + 1], texts) == Cases(keys[..i], texts) + Row(keys[i], texts)
    ensures Cases(keys[..i + 1], texts) <= Cases(keys, texts)
  {
    assert keys[..i + 1] == keys[..i] + [keys[i]];
    CasesAppend(keys[..i], [keys[i]], texts);
    assert keys == keys[..i + 1] + keys[i + 1..];
    CasesAppend(keys[..i + 1], keys[i + 1..], texts);
  }

  /** Case number i * |texts| + j of the matrix pairs key i with string j. */
  lemma CasesAt(keys: seq<nat>, texts: seq<seq<char>>, i: nat, j: nat)
    requires i < |keys| && j < |texts|
    ensures i * |texts| + j < |Cases(keys, texts)|
    ensures Cases(keys, texts)[i * |texts| + j] == TestCase(keys[i], texts[j])
  {
    CasesNext(keys, texts, i);
    var before := Cases(keys[..i], texts);
    assert |before| == i * |texts|;
    assert Cases(keys[..i + 1], texts)[|before| + j] == Row(keys[i], texts)[j];
  }

  /** Every (key, string) pair of the configuration is one of the matrix's cases. */
  lemma CasesCover(keys: seq<nat>, texts: seq<seq<char>>, k: nat, t: seq<char>)
    requires k in keys && t in texts
    ensures TestCase(k, t) in Cases(keys, texts)
  {
    var i :| 0 <= i < |keys| && keys[i] == k;
    var j :| 0 <= j < |texts| && texts[j] == t;
    CasesAt(keys, texts, i, j);
  }

  /** Every case has a key the decryption handles. */
  predicate ValidCases(cs: seq<TestCase>)
  {
    forall i :: 0 <= i < |cs| ==> ValidKey(cs[i].key)
  }

  /** The ciphertext the driver hands to `testResult`: what `strlen` sees of the returned text. */
  function Cipher(c: TestCase, encrypt: (seq<char>, nat) -> seq<char>): (cipher: seq<char>)
    ensures IsCString(cipher)
    ensures cipher <= encrypt(c.text, c.key)
    ensures IsCString(encrypt(c.text, c.key)) ==> cipher == encrypt(c.text, c.key)
  {
    CStr(encrypt(c.text, c.key))
  }

  /** The failure count of one case against the cipher under test. */
  function CaseOutcome(c: TestCase, encrypt: (seq<char>, nat) -> seq<char>): nat
    requires ValidKey(c.key)
  {
    Outcome(c.text, Cipher(c, encrypt), c.key)
  }

  /** Sum of the failure counts of a run of cases; at most 2 per case. */
  function TotalFails(cs: seq<TestCase>, encrypt: (seq<char>, nat) -> seq<char>): (n: nat)
    requires ValidCases(cs)
    ensures n <= 2 * |cs|
  {
    if cs == [] then 0
    else TotalFails(cs[..|cs| - 1], encrypt) + CaseOutcome(cs[|cs| - 1], encrypt)
  }

  /** A run has no failure points exactly when every one of its cases passes. */
  lemma {:induction false} TotalFailsZeroIff(cs: seq<TestCase>, encrypt: (seq<char>, nat) -> seq<char>)
    requires ValidCases(cs)
    ensures TotalFails(cs, encrypt) == 0 <==>
      forall i :: 0 <= i < |cs| ==> CaseOutcome(cs[i], encrypt) == 0
  {
    if cs != [] {
      var init := cs[..|cs| - 1];
      TotalFailsZeroIff(init, encrypt);
      assert forall i :: 0 <= i < |init| ==> init[i] == cs[i];
    }
  }

  /** A matrix built from valid keys has only valid keys. */
  lemma CasesValid(keys: seq<nat>, texts: seq<seq<char>>)
    requires forall k :: k in keys ==> ValidKey(k)
    ensures ValidCases(Cases(keys, texts))
  {
    var cs := Cases(keys, texts);
    forall i | 0 <= i < |cs| ensures ValidKey(cs[i].key) {
      assert cs[i] in cs;
    }
  }

  /**
   * The harness's verdict on a matrix is exact: it counts no failure if and
   * only if the cipher under test returns the forward shift for every
   * configured key and string.
   */
  lemma AllPassIff(keys: seq<nat>, texts: seq<seq<char>>, encrypt: (seq<char>, nat) -> seq<char>)
    requires forall k :: k in keys ==> ValidKey(k)
    ensures ValidCases(Cases(keys, texts))
    ensures TotalFails(Cases(keys, texts), encrypt) == 0 <==>
      forall k, t :: k in keys && t in texts ==> CStr(encrypt(t, k)) == Encrypt(t, k)
  {
    var cs := Cases(keys, texts);
    CasesValid(keys, texts);
    TotalFailsZeroIff(cs, encrypt);
    forall i | 0 <= i < |cs|
      ensures CaseOutcome(cs[i], encrypt) == 0 <==> Cipher(cs[i], encrypt) == Encrypt(cs[i].text, cs[i].key)
    {
      OutcomeMeaning(cs[i].text, Cipher(cs[i], encrypt), cs[i].key);
    }
    if TotalFails(cs, encrypt) == 0 {
      forall k, t | k in keys && t in texts
        ensures CStr(encrypt(t, k)) == Encrypt(t, k)
      {
        CasesCover(keys, texts, k, t);
        var i :| 0 <= i < |cs| && cs[i] == TestCase(k, t);
      }
    } else {
      var i :| 0 <= i < |cs| && CaseOutcome(cs[i], encrypt) != 0;
      assert cs[i] in cs;
    }
  }

  /**
   * Report block number `testNum` shows case `c` run against the cipher under
   * test; when the lengths match, its decrypted text is the decryption of the
   * ciphertext (on a mismatch it is whatever the buffer held before).
   */
  ghost predicate Records(r: Report, testNum: int, c: TestCase, encrypt: (seq<char>, nat) -> seq<char>)
  {
    var cipher := Cipher(c, encrypt);
    ValidKey(c.key) &&
    r.testNum == testNum && r.key == c.key &&
    r.input == c.text && r.encrypted == cipher &&
    (|c.text| == |cipher| ==> r.decrypted == Decrypt(cipher, c.key)) &&
    r.lengthCheck == (if |c.text| == |cipher| then Pass else Fail) &&
    r.contentCheck == (if Outcome(c.text, cipher, c.key) == 0 then Pass else Fail)
  }

  /**
   * Report block i of `rs` shows case i of `cs` as test number count0 + i:
   * one block per case, in the order the cases ran.
   */
  ghost predicate AllRecorded(rs: seq<Report>, count0: int, cs: seq<TestCase>,
                              encrypt: (seq<char>, nat) -> seq<char>)
    decreases |cs|
  {
    |rs| == |cs| &&
    (cs == [] ||
     (AllRecorded(rs[..|rs| - 1], count0, cs[..|cs| - 1], encrypt) &&
      Records(rs[|rs| - 1], count0 + |cs| - 1, cs[|cs| - 1], encrypt)))
  }

  /** The report log read position by position. */
  lemma {:induction false} AllRecordedAt(rs: seq<Report>, count0: int, cs: seq<TestCase>,
                                         encrypt: (seq<char>, nat) -> seq<char>)
    requires AllRecorded(rs, count0, cs, encrypt)
    ensures |rs| == |cs|
    ensures forall i :: 0 <= i < |cs| ==> Records(rs[i], count0 + i, cs[i], encrypt)
    decreases |cs|
  {
    if cs != [] {
      AllRecordedAt(rs[..|rs| - 1], count0, cs[..|cs| - 1], encrypt);
    }
  }

  /**
   * After the cases `cs` have run, in order, starting from counters `count0`,
   * `fails0` and report log `reports0`, the counters are `testCount` and
   * `totalFailCount` and the log is `reports`: one more test per case, the
   * failure counts summed, and one report block per case appended.
   */
  ghost predicate Ran(testCount: nat, totalFailCount: int, reports: seq<Report>,
                      count0: nat, fails0: int, reports0: seq<Report>,
                      cs: seq<TestCase>, encrypt: (seq<char>, nat) -> seq<char>)
  {
    ValidCases(cs) &&
    testCount == count0 + |cs| &&
    totalFailCount == fails0 + TotalFails(cs, encrypt) &&
    |reports0| <= |reports| && reports[..|reports0|] == reports0 &&
    AllRecorded(reports[|reports0|..], count0, cs, encrypt)
  }

  /** Running one more case extends a run by that case. */
  lemma RanStep(testCount: nat, totalFailCount: int, reports: seq<Report>, r: Report,
                count0: nat, fails0: int, reports0: seq<Report>,
                cs: seq<TestCase>, c: TestCase, encrypt: (seq<char>, nat) -> seq<char>)
    requires Ran(testCount, totalFailCount, reports, count0, fails0, reports0, cs, encrypt)
    requires Records(r, testCount, c, encrypt)
    ensures Ran(testCount + 1, totalFailCount + CaseOutcome(c, encrypt), reports + [r],
                count0, fails0, reports0, cs + [c], encrypt)
  {
    var cs' := cs + [c];
    assert cs'[..|cs|] == cs;
    var rs := (reports + [r])[|reports0|..];
    assert rs[..|rs| - 1] == reports[|reports0|..];
    assert (reports + [r])[..|reports0|] == reports0;
  }

  /**
   * The harness state: the static decryption buffer, the driver's two
   * counters, and the report blocks sent so far.
   */
  class Harness {
    var decryptBuffer: array<char>
    var testCount: nat
    var totalFailCount: int
    var reports: seq<Report>

    /** Each case contributes at most 2 failure points. */
    ghost predicate Valid()
      reads this
    {
      decryptBuffer.Length == MaxPrintLen &&
      0 <= totalFailCount <= 2 * testCount
    }

    /** Start-up state: a zero-filled buffer, both counters 0, nothing reported. */
    constructor ()
      ensures Valid() && fresh(decryptBuffer)
      ensures forall i :: 0 <= i < decryptBuffer.Length ==> decryptBuffer[i] == '\0'
      ensures testCount == 0 && totalFailCount == 0 && reports == []
    {
      decryptBuffer := new char[MaxPrintLen](_ => '\0');
      testCount := 0;
      totalFailCount := 0;
      reports := [];
    }

    /**
     * testResult: check the length, decrypt into the buffer when the lengths
     * match, compare with the original, send a report and return the
     * failure count.
     */
    method TestResult(testNum: int, origText: seq<char>, cipherText: seq<char>, key: nat)
      returns (failCount: nat)
      requires Valid()
      requires IsCString(origText) && IsCString(cipherText)
      requires ValidKey(key)
      requires |origText| == |cipherText| ==> |cipherText| < MaxPrintLen
      modifies this`reports, decryptBuffer
      ensures Valid()
      ensures failCount == Outcome(origText, cipherText, key)
      ensures failCount == 2 <==> |origText| != |cipherText|
      ensures failCount == 1 <==> |origText| == |cipherText| && Decrypt(cipherText, key) != origText
      ensures failCount == 0 <==> |origText| == |cipherText| && Decrypt(cipherText, key) == origText
      ensures |origText| != |cipherText| ==> decryptBuffer[..] == old(decryptBuffer[..])
      ensures |origText| == |cipherText| ==>
        decryptBuffer[..|cipherText|] == Decrypt(cipherText, key) &&
        decryptBuffer[|cipherText|] == '\0' &&
        decryptBuffer[|cipherText| + 1..] == old(decryptBuffer[|cipherText| + 1..]) &&
        CStr(decryptBuffer[..]) == Decrypt(cipherText, key)
      ensures reports == old(reports) + [Report(
        testNum, key, origText, cipherText, CStr(decryptBuffer[..]),
        if |origText| == |cipherText| then Pass else Fail,
        if failCount == 0 then Pass else Fail)]
    {
      failCount := 0;
      var s1, s2 := Pass, Pass;
      var origLen := |origText|;
      var encryptedLen := |cipherText|;
      if origLen != encryptedLen {
        // unequal lengths cannot be compared: two failures, no decryption
        failCount := 2;
        s1 := Fail;
        s2 := Fail;
      }
      if failCount == 0 {
        // d is both the read offset in cipherText and the write offset in decryptBuffer
        var d := 0;
        while d < |cipherText|
          modifies decryptBuffer
          invariant 0 <= d <= |cipherText|
          invariant forall j :: 0 <= j < d ==> decryptBuffer[j] == DecryptChar(cipherText[j], key)
          invariant forall j :: d <= j < decryptBuffer.Length ==> decryptBuffer[j] == old(decryptBuffer[j])
        {
          var inpChar := cipherText[d];
          if 'a' <= inpChar <= 'z' {
            inpChar := (inpChar as int - key) as char;
            if inpChar < 'a' {
              inpChar := (inpChar as int + 26) as char;
            }
          } else if 'A' <= inpChar <= 'Z' {
            inpChar := (inpChar as int - key) as char;
            if inpChar < 'A' {
              inpChar := (inpChar as int + 26) as char;
            }
          }
          decryptBuffer[d] := inpChar;
          d := d + 1;
        }
        decryptBuffer[d] := '\0';
        assert d == |cipherText|;
        DecryptAt(cipherText, key);
        DecryptKeepsCString(cipherText, key);
        assert decryptBuffer[..d] == Decrypt(cipherText, key);
        CStrOfTerminated(decryptBuffer[..], Decrypt(cipherText, key));
        // strcmp of two C strings
        if CStr(decryptBuffer[..]) != origText {
          s2 := Fail;
          failCount := failCount + 1;
        }
      }
      reports := reports + [Report(testNum, key, origText, cipherText, CStr(decryptBuffer[..]), s1, s2)];
    }

    /**
     * One pass of the driver's inner loop: encrypt string `inpText` with key
     * `k` through the cipher under test, verify it as test number
     * `testCount`, and add its failure count to the total; a run that has
     * covered the cases `ran` then covers one case more. The buffer then holds
     * the decryption and its NUL, or, after a length mismatch, what it held
     * before, which is also what the report shows as decrypted text.
     */
    method RunCase(k: nat, inpText: seq<char>, encrypt: (seq<char>, nat) -> seq<char>,
                   ghost count0: nat, ghost fails0: int, ghost reports0: seq<Report>, ghost ran: seq<TestCase>)
      requires Valid()
      requires ValidKey(k) && IsCString(inpText) && |inpText| < MaxPrintLen
      requires 2 * (testCount + 1) <= Int32Max
      requires Ran(testCount, totalFailCount, reports, count0, fails0, reports0, ran, encrypt)
      modifies this, decryptBuffer
      ensures Ran(testCount, totalFailCount, reports, count0, fails0, reports0, ran + [TestCase(k, inpText)], encrypt)
      ensures Valid() && decryptBuffer == old(decryptBuffer)
      ensures testCount == old(testCount) + 1
      ensures totalFailCount == old(totalFailCount) + CaseOutcome(TestCase(k, inpText), encrypt)
      ensures |reports| == |old(reports)| + 1
      ensures reports == old(reports) + [reports[|old(reports)|]]
      ensures Records(reports[|old(reports)|], old(testCount), TestCase(k, inpText), encrypt)
      ensures var cipher := Cipher(TestCase(k, inpText), encrypt);
        |inpText| == |cipher| ==>
          decryptBuffer[..|cipher|] == Decrypt(cipher, k) &&
          decryptBuffer[|cipher|] == '\0' &&
          decryptBuffer[|cipher| + 1..] == old(decryptBuffer[|cipher| + 1..])
      ensures var cipher := Cipher(TestCase(k, inpText), encrypt);
        |inpText| != |cipher| ==>
          decryptBuffer[..] == old(decryptBuffer[..]) &&
          reports[|old(reports)|].decrypted == CStr(old(decryptBuffer[..]))
    {
      var encryptedText := CStr(encrypt(inpText, k));
      var numFails := TestResult(testCount, inpText, encryptedText, k);
      totalFailCount := totalFailCount + numFails;
      testCount := testCount + 1;
      RanStep(old(testCount), old(totalFailCount), old(reports), reports[|old(reports)|],
              count0, fails0, reports0, ran, TestCase(k, inpText), encrypt);
    }

    /**
     * The inner loop of the driver: run key `k` against every string, in
     * order, continuing the run that has already covered `ran`.
     */
    method RunRow(k: nat, texts: seq<seq<char>>, encrypt: (seq<char>, nat) -> seq<char>,
                  ghost count0: nat, ghost fails0: int, ghost reports0: seq<Report>, ghost ran: seq<TestCase>)
      requires Valid()
      requires ValidKey(k)
      requires forall t :: t in texts ==> IsCString(t) && |t| < MaxPrintLen
      requires 2 * (testCount + |texts|) <= Int32Max
      requires Ran(testCount, totalFailCount, reports, count0, fails0, reports0, ran, encrypt)
      modifies this, decryptBuffer
      ensures Valid() && decryptBuffer == old(decryptBuffer)
      ensures Ran(testCount, totalFailCount, reports, count0, fails0, reports0, ran + Row(k, texts), encrypt)
    {
      ghost var row := Row(k, texts);
      var numStrings := |texts|;
      var numString := 0;
      assert ran + row[..numString] == ran;
      while numString < numStrings
        invariant 0 <= numString <= numStrings
        invariant Valid() && decryptBuffer == old(decryptBuffer)
        invariant testCount == old(testCount) + numString
        invariant Ran(testCount, totalFailCount, reports, count0, fails0, reports0, ran + row[..numString], encrypt)
      {
        assert texts[numString] in texts;
        RunCase(k, texts[numString], encrypt, count0, fails0, reports0, ran + row[..numString]);
        assert row[..numString + 1] == row[..numString] + [row[numString]];
        assert ran + row[..numString] + [row[numString]] == ran + row[..numString + 1];
        numString := numString + 1;
      }
      assert row[..numString] == row;
    }

    /**
     * The driver loop of `main`: for each key in order, for each string in
     * order, encrypt with the cipher under test, verify, and add the failure
     * count; no case stops the run.
     */
    method RunMatrix(keys: seq<nat>, texts: seq<seq<char>>, encrypt: (seq<char>, nat) -> seq<char>)
      requires Valid()
      requires forall k :: k in keys ==> ValidKey(k)
      requires forall t :: t in texts ==> IsCString(t) && |t| < MaxPrintLen
      requires 2 * (testCount + |keys| * |texts|) <= Int32Max
      modifies this, decryptBuffer
      ensures Valid() && decryptBuffer == old(decryptBuffer)
      ensures testCount == old(testCount) + |keys| * |texts|
      ensures Ran(testCount, totalFailCount, reports,
                  old(testCount), old(totalFailCount), old(reports), Cases(keys, texts), encrypt)
    {
      CasesValid(keys, texts);
      ghost var count0, fails0, reports0 := testCount, totalFailCount, reports;
      var numKeys, numStrings := |keys|, |texts|;
      var keyIndex := 0;
      while keyIndex < numKeys
        invariant 0 <= keyIndex <= numKeys
        invariant Cases(keys[..keyIndex], texts) <= Cases(keys, texts)
        invariant Valid() && decryptBuffer == old(decryptBuffer)
        invariant Ran(testCount, totalFailCount, reports,
                      count0, fails0, reports0, Cases(keys[..keyIndex], texts), encrypt)
      {
        CasesNext(keys, texts, keyIndex);
        assert keys[keyIndex] in keys;
        RunRow(keys[keyIndex], texts, encrypt, count0, fails0, reports0, Cases(keys[..keyIndex], texts));
        keyIndex := keyIndex + 1;
      }
      assert keys[..keyIndex] == keys;
    }
  }

  /** The keys of the lab's test matrix. */
  const KeyArray: seq<nat> := [0, 1, 13, 25]

  /** The plaintexts of the lab's test matrix. */
  const InpTextArray: seq<seq<char>> := ["ABCXYZ", "abcxyz", "\"Whoa, really?\", he said."]

  /**
   * The test phase of `main` on the lab's matrix: 4 keys by 3 strings is 12
   * cases, the failure total stays within 2 per case, and it is 0 exactly
   * when the cipher under test is a correct forward shift on every case.
   */
  method RunLab(encrypt: (seq<char>, nat) -> seq<char>) returns (testCount: nat, totalFailCount: int)
    ensures testCount == 12
    ensures 0 <= totalFailCount <= 2 * testCount
    ensures totalFailCount == 0 <==>
      forall k, t :: k in KeyArray && t in InpTextArray ==> CStr(encrypt(t, k)) == Encrypt(t, k)
  {
    var h := new Harness();
    h.RunMatrix(KeyArray, InpTextArray, encrypt);
    AllPassIff(KeyArray, InpTextArray, encrypt);
    testCount, totalFailCount := h.testCount, h.totalFailCount;
  }
}
