# Caesar-cipher round-trip test harness, modelled in Dafny

The firmware of this lab (`Lab-10-encrypt/firmware/src/main.c`) tests an
externally supplied shift cipher, `asmEncrypt`, written in assembly. For every
key of a fixed key list and every string of a fixed string list it encrypts
the string, then checks the result in `testResult`:

- the length check: a ciphertext whose length differs from the plaintext's
  scores 2 failure points, and nothing is decrypted;
- otherwise the harness decrypts the ciphertext itself, character by
  character, into the static `decryptBuffer` (a letter moves back by the key,
  with 26 added once if it leaves its alphabet; anything else is copied), and
  compares the result with the plaintext using `strcmp` (1 point on mismatch);
- a report block is formatted and sent over the serial line.

`main` visits keys in the outer loop and strings in the inner loop, numbers
the tests from 0, and sums the failure points.

The model has four modules:

- `CStrings` (cstrings.dfy): text as the C code sees it. A C string is a
  `seq<char>` with no NUL; `CStr` is what `strlen`, `strcmp` and `%s` read
  from a buffer (everything before the first NUL).
- `Caesar` (caesar.dfy): the harness's per-character decryption `DecryptChar`
  and whole-text `Decrypt`, and a reference forward shift `ShiftChar` /
  `Encrypt` stating what a correct cipher under test returns. The round-trip
  law is proved in both directions, so decryption is an exact oracle: a
  ciphertext decrypts to P if and only if it is the forward shift of P.
- `RoundTripTest` (harness.dfy): the class `Harness` owns `decryptBuffer` (an
  `array<char>` of 400 cells), the counters `testCount` and `totalFailCount`,
  and `reports`, the sequence of report blocks sent so far. `TestResult` is
  `testResult` with its decryption loop; `RunMatrix`, `RunRow` and `RunCase`
  are the driver's outer loop, inner loop and loop body. `Cases` lists the
  test matrix in visiting order. `Ran` states what a run has done: one test
  per case, the failure points summed (`TotalFails`), one report per case,
  numbered consecutively. `RunLab` runs the lab's own 4 keys × 3 strings.
- `Scenarios` (scenarios.dfy): concrete consequences. The lab's matrix
  against a correct cipher gives 12 tests and no failure. A cipher that
  shifts by key + 1 is caught with failure count 1.

`asmEncrypt` is a function parameter `(seq<char>, nat) -> seq<char>`. The
harness reads its result as a C string, so the model applies `CStr` to it.
Nothing is assumed about the text it returns. Two assumptions about how it
behaves are listed under "## Left out".

Two points where the code is narrower than a first reading suggests; the
model follows the code:

- Decryption reads like "subtract the key modulo 26", but the code
  subtracts and adds 26 at most once. `DecryptCharIsBackwardShift` proves the
  two agree for keys 0..25, the range the model requires.
- The report for a length mismatch prints the decryption buffer as it is.
  That is the previous test's decrypted text, or empty for the first test.
  `TestResult`'s contract keeps the buffer unchanged in that case and records
  `CStr` of it in the report.

## Model

| member | source | states |
|---|---|---|
| `CStrings.CStr` | Lab-10-encrypt/firmware/src/main.c:109-110 | the string `strlen` sees is a NUL-free prefix of the buffer, ended by a NUL when shorter than the buffer |
| `CStrings.CStrOfCString` | Lab-10-encrypt/firmware/src/main.c:109-110 | a NUL-free text reads back whole |
| `CStrings.CStrOfTerminated` | Lab-10-encrypt/firmware/src/main.c:147-151 | a buffer holding a C string followed by the trailing NUL reads back as exactly that string |
| `Caesar.DecryptChar` | Lab-10-encrypt/firmware/src/main.c:130-147 | for a key in 0..25 a lowercase character decrypts to a lowercase one, an uppercase to an uppercase one, and any other character is copied unchanged |
| `Caesar.ShiftChar` | Lab-10-encrypt/firmware/src/main.c:70 | the reference forward shift keeps each letter in its own case and leaves other characters unchanged |
| `Caesar.Decrypt` | Lab-10-encrypt/firmware/src/main.c:128-148 | decryption writes exactly as many characters as the ciphertext has |
| `Caesar.Encrypt` | Lab-10-encrypt/firmware/src/main.c:70 | a correct cipher preserves the length of its input |
| `Caesar.DecryptAt` | Lab-10-encrypt/firmware/src/main.c:128-148 | output position i is the decryption of ciphertext position i alone |
| `Caesar.EncryptAt` | Lab-10-encrypt/firmware/src/main.c:70 | the reference shift works position by position |
| `Caesar.DecryptCharIsBackwardShift` | Lab-10-encrypt/firmware/src/main.c:130-145 | subtracting the key and adding 26 once is the backward shift modulo 26 within the letter's alphabet |
| `Caesar.OffsetRoundTrip` | Lab-10-encrypt/firmware/src/main.c:132-136 | on alphabet positions, the wrap-once backward step and the modular forward step undo each other |
| `Caesar.CharRoundTrip` | Lab-10-encrypt/firmware/src/main.c:130-147 | per character, decryption undoes the forward shift and the forward shift undoes decryption |
| `Caesar.DecryptEncrypt` | Lab-10-encrypt/firmware/src/main.c:128-155 | round-trip law: decrypting the forward shift of P with the same key in 0..25 gives back P |
| `Caesar.EncryptDecrypt` | Lab-10-encrypt/firmware/src/main.c:128-155 | every ciphertext is the forward shift of its decryption |
| `Caesar.DecryptsToIff` | Lab-10-encrypt/firmware/src/main.c:128-155 | a ciphertext decrypts to P if and only if it equals the forward shift of P |
| `Caesar.DecryptKeepsCString` | Lab-10-encrypt/firmware/src/main.c:146-151 | decrypting a C string gives a C string, so `strcmp` compares the whole decrypted text |
| `Caesar.EncryptKeepsCString` | Lab-10-encrypt/firmware/src/main.c:70 | the forward shift of a C string is a C string |
| `RoundTripTest.Outcome` | Lab-10-encrypt/firmware/src/main.c:106-155 | the failure count `testResult` returns is at most 2, and it is 2 exactly when the lengths differ |
| `RoundTripTest.Cipher` | Lab-10-encrypt/firmware/src/main.c:242-245 | the ciphertext the driver hands on is what `strlen` and `%s` see of `asmEncrypt`'s result: a NUL-free prefix of it, the whole of it when it holds no NUL |
| `RoundTripTest.OutcomeMeaning` | Lab-10-encrypt/firmware/src/main.c:106-176 | the failure count is in {0,1,2}: 0 exactly when the ciphertext is the forward shift of the plaintext, 1 exactly when the lengths match and it is not, 2 exactly when the lengths differ |
| `RoundTripTest.Row` | Lab-10-encrypt/firmware/src/main.c:223-239 | one key's cases are that key paired with each string, in string order |
| `RoundTripTest.Cases` | Lab-10-encrypt/firmware/src/main.c:211-257 | the matrix has numKeys × numStrings cases, each pairing a configured key with a configured string |
| `RoundTripTest.CasesAppend` | Lab-10-encrypt/firmware/src/main.c:220-257 | running two key lists one after the other runs their matrices one after the other |
| `RoundTripTest.CasesNext` | Lab-10-encrypt/firmware/src/main.c:220-257 | after key i the cases run are those of the keys before it followed by key i's row, a prefix of the whole matrix |
| `RoundTripTest.CasesAt` | Lab-10-encrypt/firmware/src/main.c:220-239 | keys outer, strings inner: case number i × numStrings + j pairs key i with string j |
| `RoundTripTest.CasesCover` | Lab-10-encrypt/firmware/src/main.c:220-239 | every configured (key, string) pair is among the cases run |
| `RoundTripTest.CasesValid` | Lab-10-encrypt/firmware/src/main.c:233 | when every configured key is in 0..25, so is the key of every case of the matrix |
| `RoundTripTest.TotalFails` | Lab-10-encrypt/firmware/src/main.c:245-247 | the summed failure points of a run are at most 2 per case |
| `RoundTripTest.TotalFailsZeroIff` | Lab-10-encrypt/firmware/src/main.c:245-247 | a run has no failure points exactly when every case passes |
| `RoundTripTest.AllPassIff` | Lab-10-encrypt/firmware/src/main.c:211-259 | the matrix scores no failure exactly when the cipher under test returns the forward shift for every configured key and string |
| `RoundTripTest.AllRecordedAt` | Lab-10-encrypt/firmware/src/main.c:246 | report block i shows case i with test number count0 + i, the number of cases run before it, its texts, its labels, and, when the lengths match, its decrypted text |
| `RoundTripTest.RanStep` | Lab-10-encrypt/firmware/src/main.c:241-248 | one more case adds 1 test, its failure count and one report block to a run |
| `RoundTripTest.Harness.constructor` | Lab-10-encrypt/firmware/src/main.c:57 | start-up state: zero-filled 400-cell buffer, both counters 0, no report |
| `RoundTripTest.Harness.TestResult` | Lab-10-encrypt/firmware/src/main.c:101-178 | returns 2 iff the lengths differ, leaving the buffer untouched; otherwise writes the decryption of the ciphertext and a NUL into the buffer and returns 0 iff it equals the plaintext, else 1; appends a report with the length and content labels |
| `RoundTripTest.Harness.RunCase` | Lab-10-encrypt/firmware/src/main.c:225-248 | one case: encrypt, verify as test number testCount, add the failure count, advance testCount by 1, append one report; when the lengths match the buffer holds the decryption, a NUL and its old tail, and the report shows that decryption; otherwise the buffer is unchanged and the report shows its old text |
| `RoundTripTest.Harness.RunRow` | Lab-10-encrypt/firmware/src/main.c:223-256 | one key against every string, in order, extends the run by that key's row |
| `RoundTripTest.Harness.RunMatrix` | Lab-10-encrypt/firmware/src/main.c:211-259 | every case of the matrix runs once, keys outer and strings inner, with no early stop; testCount grows by numKeys × numStrings and totalFailCount by the summed failure counts, and the 0 ≤ totalFailCount ≤ 2 × testCount invariant holds |
| `RoundTripTest.RunLab` | Lab-10-encrypt/firmware/src/main.c:74-78 | on the lab's 4 keys × 3 strings: 12 tests, 0 ≤ failures ≤ 24, and 0 failures exactly when the cipher under test is correct on every case |
| `Scenarios.ShiftByOne` | Lab-10-encrypt/firmware/src/main.c:75 | key 1 turns "abcxyz" into "bcdyza" (z wraps to a) and that ciphertext passes |
| `Scenarios.ShiftCharInjectiveInKey` | Lab-10-encrypt/firmware/src/main.c:78 | two keys that differ modulo 26, such as two different keys of the lab, move a letter to different letters |
| `Scenarios.OffByOneKeyIsCaught` | Lab-10-encrypt/firmware/src/main.c:150-155 | for every key in 0..25, 25 included, a cipher that shifts by key + 1 keeps the length but fails the content check (count 1) on any text with a letter |
| `Scenarios.LabWithCorrectCipher` | Lab-10-encrypt/firmware/src/main.c:211-259 | the lab's matrix against a correct cipher: testCount 12, totalFailCount 0 |

## Left out

- `asmEncrypt`'s body lives in an assembly file that is not part of this model. It is a function parameter.
- `asmEncrypt` is assumed deterministic: the model gives the same ciphertext for the same string and key every time, which a pure function parameter cannot avoid.
- `asmEncrypt` receives a non-`const` `char *` (main.c:70, 242). The model assumes it does not write through that pointer, so the plaintext `testResult` compares against is the configured string, unchanged.
- RoundTripTest.Harness.RunRow: like RunMatrix, states the counters and the report log of the run but not what the decryption buffer holds afterwards, so at this level a length-mismatch report's decrypted text (the stale buffer) is left open; RunCase and TestResult state it for one case.
- RoundTripTest.Harness.RunMatrix: see RunRow; the buffer's contents after the run are not stated.
- Keys above 25 are excluded (`ValidKey`). The code does not check its key, and past 25 the result depends on how `char` arithmetic wraps and whether `char` is signed.
- Characters are Dafny `char`s, not 8-bit bytes. For keys 0..25 the decryption never leaves the letter ranges, and other characters are copied, so the width does not matter.
- RoundTripTest.Harness.TestResult: requires a ciphertext shorter than 400 characters when the lengths match. The code would otherwise write past the end of `decryptBuffer`.
- RoundTripTest.Harness.RunMatrix: requires 2 × (testCount + numKeys × numStrings) ≤ 2^31 − 1, so that `int32_t totalFailCount` and `uint32_t testCount` cannot overflow. The lab's 12 cases are far below this.
- Report formatting (`snprintf`) and its 400-character cap are not modelled. Sending through DMA to the UART is not modelled either. Each report is an abstract `Report` value appended to `reports`.
- The RTC and DMA interrupt handlers, the `volatile` completion flags and the busy-wait loops are hardware pacing. `SYS_Initialize`, the timer setup and `LED0_Toggle` are board bring-up.
- The `while (true) { … break; }` around the nested loops runs exactly once. It is modelled as the nested loops alone.
- For proof cost, the inner loop is split into `RunRow` and its body into `RunCase`. Their statements run in the same order as in `main`.
- The endless idle-reporting loop after the matrix is not modelled. It prints `testCount - totalFailCount` as "Total Passing Tests". Because a length mismatch adds 2 failure points, that figure is not a count of passing tests.
