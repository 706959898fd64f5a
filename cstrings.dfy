/** How the firmware's C code sees text: a NUL-terminated run of characters. */
module CStrings {

  /** A C string, taken as the characters before its terminator: it holds no NUL. */
  predicate IsCString(s: seq<char>)
  {
    forall i :: 0 <= i < |s| ==> s[i] != '\0'
  }

  /**
   * The string that `strlen`, `strcmp` and `%s` see when handed a character
   * buffer: the characters before the first NUL, or the whole buffer if it
   * holds none.
   */
  function CStr(buf: seq<char>): (s: seq<char>)
    ensures IsCString(s)
    ensures s <= buf
    ensures |s| < |buf| ==> buf[|s|] == '\0'
  {
    if buf == [] || buf[0] == '\0' then [] else [buf[0]] + CStr(buf[1..])
  }

  /** A buffer that already is a C string reads back whole. */
  lemma CStrOfCString(s: seq<char>)
    requires IsCString(s)
    ensures CStr(s) == s
  {
  }

  /** A buffer that holds a C string followed by its terminator reads back as that string. */
  lemma CStrOfTerminated(buf: seq<char>, s: seq<char>)
    requires IsCString(s) && |s| < |buf|
    requires buf[..|s|] == s && buf[|s|] == '\0'
    ensures CStr(buf) == s
  {
  }
}
