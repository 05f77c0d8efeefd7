/** NUL-terminated strings. A character stands for one byte of the program. */
module CStrings {
  import opened Options

  const NUL := '\0'

  predicate NulFree(s: string) { NUL !in s }

  /** Position of the first occurrence of a character at i or later (strchr), or the length. */
  function IndexFrom(s: string, c: char, i: nat): (r: nat)
    requires i <= |s|
    ensures i <= r <= |s| && (r < |s| ==> s[r] == c)
    ensures forall k :: i <= k < r ==> s[k] != c
    decreases |s| - i
  {
    if i == |s| || s[i] == c then i else IndexFrom(s, c, i + 1)
  }

  function IndexOf(s: string, c: char): (r: nat)
    ensures r <= |s| && (r < |s| ==> s[r] == c)
    ensures forall k :: 0 <= k < r ==> s[k] != c
  {
    IndexFrom(s, c, 0)
  }

  /** The string that starts at the front of a buffer: the part before the first NUL. */
  function CStr(buf: string): (s: string)
    ensures NulFree(s) && s <= buf
    ensures |s| < |buf| ==> buf[|s|] == NUL
  {
    buf[..IndexOf(buf, '\0')]
  }

  /** A NUL-free prefix that ends at a NUL, or at the end, is that string. */
  lemma CStrIs(buf: string, s: string)
    requires NulFree(s) && s <= buf && (|s| < |buf| ==> buf[|s|] == NUL)
    ensures CStr(buf) == s
  {
    assert forall k :: 0 <= k < |s| ==> s[k] in s && s[k] == buf[k];
  }

  /** A C string that ends where a segment of the buffer does. */
  lemma SegmentString(buf: string, a: nat, b: nat, segment: string)
    requires a <= b < |buf| && buf[a..b] == segment && buf[b] == NUL
    ensures CStr(buf[a..]) == CStr(segment)
  {
    var c := CStr(segment);
    assert c <= buf[a..];
    if |c| < |segment| { assert buf[a..][|c|] == segment[|c|]; }
    CStrIs(buf[a..], c);
  }

  /** The string behind a pointer into a buffer; a negative index is NULL. */
  function StringAt(buf: string, p: int): Option<string>
    requires p <= |buf|
  {
    if p < 0 then None else Some(CStr(buf[p..]))
  }
}
