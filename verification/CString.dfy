/** C strings: the text in a buffer up to its first NUL. */
module CStrings {

  predicate NulFree(s: seq<char>) { forall i :: 0 <= i < |s| ==> s[i] != '\0' }

  function CString(buf: seq<char>): (s: string)
    ensures s <= buf && NulFree(s)
    ensures |s| < |buf| ==> buf[|s|] == '\0'
  {
    if buf == [] || buf[0] == '\0' then "" else [buf[0]] + CString(buf[1..])
  }

  lemma {:induction false} CStringOf(s: string, rest: seq<char>)
    requires NulFree(s)
    ensures CString(s + rest) == s + CString(rest)
  {
    if s == "" {
      assert s + rest == rest;
    } else {
      assert (s + rest)[1..] == s[1..] + rest;
      CStringOf(s[1..], rest);
    }
  }

  /** The string that starts at `src`; its terminator has to lie inside the block. */
  method StrLen(buf: array<char>, src: nat) returns (n: nat)
    requires src <= buf.Length && !NulFree(buf[src..])
    ensures src + n < buf.Length && buf[src + n] == '\0'
    ensures CString(buf[src..]) == buf[src..src + n]
  {
    hide CString;
    ghost var s := CString(buf[src..]);
    assert forall i :: 0 <= i < |buf[src..]| ==> buf[src..][i] == buf[src + i];
    n := 0;
    while buf[src + n] != '\0'
      invariant n <= |s|
      decreases |s| - n
    {
      n := n + 1;
    }
    assert buf[src..][..n] == buf[src..src + n];
  }
}
