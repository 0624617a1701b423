/** C strings and the small search functions of the C library that the store uses on them. */
module CString {

  const NUL: char := '\0'

  datatype Option<+T> = None | Some(value: T)

  /** A value that can be held in a C string. */
  ghost predicate NulFree(s: string) {
    NUL !in s
  }

  /** The C string that starts at offset `off` of a buffer: everything before the next NUL. */
  function CStr(buf: seq<char>, off: nat): (s: string)
    requires off <= |buf|
    ensures NulFree(s)
    ensures off + |s| <= |buf| && buf[off..off + |s|] == s
    ensures off + |s| < |buf| ==> buf[off + |s|] == NUL
    decreases |buf| - off
  {
    if off == |buf| || buf[off] == NUL then "" else [buf[off]] + CStr(buf, off + 1)
  }

  /** The first position of `c` in `s`, or the length of `s` (strcspn with one character). */
  function IndexOf(s: string, c: char): (i: nat)
    ensures i <= |s|
    ensures c !in s[..i]
    ensures i < |s| ==> s[i] == c
  {
    if s == "" || s[0] == c then 0 else
      assert s[1..][..IndexOf(s[1..], c)] == s[1..1 + IndexOf(s[1..], c)];
      1 + IndexOf(s[1..], c)
  }

  /** A terminated NUL-free run of a buffer is the C string that starts there. */
  lemma {:induction false} CStrIs(buf: seq<char>, off: nat, s: string)
    requires NulFree(s) && off + |s| < |buf|
    requires buf[off..off + |s|] == s && buf[off + |s|] == NUL
    ensures CStr(buf, off) == s
    decreases |s|
  {
    if s != "" {
      assert buf[off] == buf[off..off + |s|][0] == s[0];
      assert buf[off + 1..off + 1 + |s[1..]|] == s[1..];
      CStrIs(buf, off + 1, s[1..]);
    }
  }

  /** IndexOf finds the end of a prefix that does not hold the character. */
  lemma {:induction false} IndexOfSplit(p: string, c: char, rest: string)
    requires c !in p
    ensures IndexOf(p + [c] + rest, c) == |p|
    ensures IndexOf(p, c) == |p|
  {
    if p != "" {
      IndexOfSplit(p[1..], c, rest);
      assert (p + [c] + rest)[1..] == p[1..] + [c] + rest;
    }
  }
}
