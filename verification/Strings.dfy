/** C strings and white space. */
module Strings {

  /** isspace in the C locale. */
  predicate IsSpace(c: char) {
    c == ' ' || '\t' <= c <= '\r'
  }

  /** Space, and the codes 9 to 13: tab, newline, vertical tab, form feed, carriage return. */
  lemma SpaceRule(c: char)
    ensures IsSpace(c) <==> c as int == 32 || c as int == 9 || c as int == 10 || c as int == 11 || c as int == 12 || c as int == 13
  {
  }

  /** What is read at a pointer into a buffer: everything before the first NUL. */
  function CString(buf: seq<char>): string {
    if buf == [] || buf[0] == '\0' then [] else [buf[0]] + CString(buf[1..])
  }

  lemma {:induction false} CStringRule(buf: seq<char>, n: nat)
    requires n <= |buf| && (forall i :: 0 <= i < n ==> buf[i] != '\0') && (n < |buf| ==> buf[n] == '\0')
    ensures CString(buf) == buf[..n]
    decreases n
  {
    if n > 0 {
      CStringRule(buf[1..], n - 1);
      assert [buf[0]] + buf[1..][..n - 1] == buf[..n];
    }
  }
}
