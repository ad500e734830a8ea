/** NUL-terminated strings in byte buffers. */
module CStrings {
  import opened Words

  ghost predicate Terminated(s: seq<byte>) {
    0 in s
  }

  /** The position of the first NUL. */
  function StrLen(s: seq<byte>): (n: nat)
    requires Terminated(s)
    ensures n < |s| && s[n] == 0
    ensures forall i :: 0 <= i < n ==> s[i] != 0
  {
    if s[0] == 0 then 0 else 1 + StrLen(s[1..])
  }

  /** The string a buffer holds: its bytes before the first NUL. */
  function CString(s: seq<byte>): (t: seq<byte>)
    requires Terminated(s)
    ensures |t| == StrLen(s) && forall i :: 0 <= i < |t| ==> t[i] == s[i] && t[i] != 0
  {
    s[..StrLen(s)]
  }

  lemma StrLenIs(s: seq<byte>, n: nat)
    requires n < |s| && s[n] == 0 && forall i :: 0 <= i < n ==> s[i] != 0
    ensures Terminated(s) && StrLen(s) == n && CString(s) == s[..n]
  {
  }
}
