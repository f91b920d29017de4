/** NUL-terminated strings held in character arrays. */
module CString {

  predicate Terminated(a: seq<char>) {
    a != [] && (a[0] == '\0' || Terminated(a[1..]))
  }

  /** The characters before the first NUL. */
  function Str(a: seq<char>): string
    requires Terminated(a)
  {
    if a[0] == '\0' then "" else [a[0]] + Str(a[1..])
  }

  lemma {:induction false} StrSpec(a: seq<char>)
    requires Terminated(a)
    ensures var s := Str(a); |s| < |a| && a[|s|] == '\0' && s == a[..|s|] && '\0' !in s
  {
    if a[0] != '\0' {
      StrSpec(a[1..]);
    }
  }

  lemma {:induction false} StrIs(a: seq<char>, n: nat)
    requires n < |a| && a[n] == '\0' && '\0' !in a[..n]
    ensures Terminated(a) && Str(a) == a[..n]
  {
    if n > 0 {
      assert a[0] in a[..n];
      assert a[..n] == [a[0]] + a[1..][..n - 1];
      StrIs(a[1..], n - 1);
    }
  }

  method StrLen(s: array<char>) returns (len: nat)
    requires Terminated(s[..])
    ensures len == |Str(s[..])| && len < s.Length && s[len] == '\0' && Str(s[..]) == s[..len] && '\0' !in s[..len]
  {
    len := 0;
    StrSpec(s[..]);
    while s[len] != '\0'
      invariant len <= |Str(s[..])|
      decreases |Str(s[..])| - len
    {
      len := len + 1;
    }
  }

  method StrCpy(dst: array<char>, src: string)
    requires |src| < dst.Length && '\0' !in src
    modifies dst
    ensures Terminated(dst[..]) && Str(dst[..]) == src
    ensures forall i | |src| < i < dst.Length :: dst[i] == old(dst[i])
  {
    for i := 0 to |src|
      invariant dst[..i] == src[..i]
      invariant forall k | i <= k < dst.Length :: dst[k] == old(dst[k])
    {
      dst[i] := src[i];
    }
    dst[|src|] := '\0';
    assert dst[..][..|src|] == src;
    StrIs(dst[..], |src|);
  }
}
