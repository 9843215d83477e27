/** NUL-terminated strings in byte buffers: strlen, strncmp and strncpy of student-distrib/lib.c. */
module Strings {
  import opened Machine

  predicate NulFree(s: seq<Byte>) {
    forall i :: 0 <= i < |s| ==> s[i] != NUL
  }

  lemma NulFreePart(s: seq<Byte>, a: nat, b: nat)
    requires a <= b <= |s| && NulFree(s)
    ensures NulFree(s[a..b])
  {
    forall i | 0 <= i < b - a ensures s[a..b][i] != NUL {
      assert s[a..b][i] == s[a + i];
    }
  }

  /** The bytes before the first NUL, or all of them. */
  function Prefix(s: seq<Byte>): (r: seq<Byte>)
    ensures |r| <= |s| && r == s[..|r|] && NulFree(r)
    ensures |r| < |s| ==> s[|r|] == NUL
  {
    if s == [] || s[0] == NUL then [] else [s[0]] + Prefix(s[1..])
  }

  lemma {:induction false} PrefixIs(s: seq<Byte>, n: nat)
    requires n <= |s| && NulFree(s[..n]) && (n < |s| ==> s[n] == NUL)
    ensures Prefix(s) == s[..n]
  {
    var p := Prefix(s);
    assert forall i :: 0 <= i < n ==> s[..n][i] == s[i];
    assert forall i :: 0 <= i < |p| ==> p[i] == s[i];
  }

  /** The string held in an `n`-byte field of `s` at `at`: up to a NUL or the end of the field. */
  function Field(s: seq<Byte>, at: nat, n: nat): seq<Byte>
    requires at + n <= |s|
  {
    Prefix(s[at..at + n])
  }

  method Strlen(s: seq<Byte>, at: nat) returns (len: nat)
    requires at <= |s| && NUL in s[at..]
    ensures len == |Prefix(s[at..])| < |s| - at
  {
    ghost var k :| 0 <= k < |s[at..]| && s[at..][k] == NUL;
    len := 0;
    while s[at + len] != NUL
      invariant len <= k
      invariant forall i :: 0 <= i < len ==> s[at..][i] != NUL
      decreases k - len
    {
      assert s[at + len] == s[at..][len];
      len := len + 1;
    }
    PrefixIs(s[at..], len);
  }

  /** The string that strncmp sees in `s`: at most `n` bytes, up to a NUL. */
  function Bounded(s: seq<Byte>, n: nat): seq<Byte> {
    Prefix(s[..Min(n, |s|)])
  }

  /** strncmp stops inside `s`: it has `n` bytes or ends in a NUL before. */
  predicate Ends(s: seq<Byte>, n: nat) {
    |s| >= n || NUL in s
  }

  /** The strings first differ at `i`, before either has ended. */
  predicate DiffersAt(s1: seq<Byte>, s2: seq<Byte>, n: nat, i: nat) {
    i < n && i < |s1| && i < |s2| && s1[..i] == s2[..i] && NulFree(s1[..i]) && s1[i] != s2[i]
  }

  method Strncmp(s1: seq<Byte>, s2: seq<Byte>, n: nat) returns (r: int)
    requires Ends(s1, n) && Ends(s2, n)
    ensures r == 0 <==> Bounded(s1, n) == Bounded(s2, n)
    ensures r != 0 ==> exists i: nat :: DiffersAt(s1, s2, n, i) && r == SignedByte(s1[i]) - SignedByte(s2[i])
  {
    var i := 0;
    while i < n
      invariant 0 <= i <= n && i <= |s1| && i <= |s2|
      invariant s1[..i] == s2[..i] && NulFree(s1[..i])
    {
      NotOver(s1, n, i);
      NotOver(s2, n, i);
      if s1[i] != s2[i] || s1[i] == NUL {
        DecidedHere(s1, s2, n, i);
        assert s1[i] != s2[i] ==> DiffersAt(s1, s2, n, i);
        return SignedByte(s1[i]) - SignedByte(s2[i]);
      }
      i := i + 1;
    }
    return 0;
  }

  lemma NotOver(s: seq<Byte>, n: nat, i: nat)
    requires Ends(s, n) && i < n && i <= |s| && NulFree(s[..i])
    ensures i < |s|
  {
    assert forall k :: 0 <= k < i ==> s[..i][k] == s[k];
  }

  lemma DecidedHere(s1: seq<Byte>, s2: seq<Byte>, n: nat, i: nat)
    requires i < n && i < |s1| && i < |s2| && s1[..i] == s2[..i] && NulFree(s1[..i])
    requires s1[i] != s2[i] || s1[i] == NUL
    ensures Bounded(s1, n) == Bounded(s2, n) <==> s1[i] == s2[i]
  {
    var a, b := s1[..Min(n, |s1|)], s2[..Min(n, |s2|)];
    assert a[..i] == s1[..i] && b[..i] == s2[..i];
    if s1[i] == NUL {
      PrefixIs(a, i);
    } else {
      LongerThan(a, i);
    }
    if s2[i] == NUL {
      PrefixIs(b, i);
    } else {
      LongerThan(b, i);
    }
  }

  lemma LongerThan(s: seq<Byte>, i: nat)
    requires i < |s| && NulFree(s[..i]) && s[i] != NUL
    ensures |Prefix(s)| > i && Prefix(s)[i] == s[i]
  {
    assert forall k :: 0 <= k < i ==> s[..i][k] == s[k];
  }

  /** What strncpy leaves in an `n`-byte field: the string and NULs behind it. */
  function Padding(src: seq<Byte>, from: nat, n: nat): (s: seq<Byte>)
    requires from + n <= |src|
    ensures |s| == n
  {
    Field(src, from, n) + Repeat(NUL, n - |Field(src, from, n)|)
  }

  lemma PaddingIs(src: seq<Byte>, from: nat, n: nat, len: nat, s: seq<Byte>)
    requires from + n <= |src| && len <= n && |s| == n && (len < n ==> src[from + len] == NUL)
    requires forall k :: 0 <= k < n ==> s[k] == if k < len then src[from + k] else NUL
    requires NulFree(s[..len])
    ensures s == Padding(src, from, n)
  {
    var f := src[from..from + n];
    assert f[..len] == s[..len];
    PrefixIs(f, len);
  }

  method Strncpy(dest: array<Byte>, at: nat, src: seq<Byte>, from: nat, n: nat)
    requires at + n <= dest.Length && from + n < |src|
    modifies dest
    ensures dest[at..at + n] == Padding(src, from, n)
    ensures forall k :: 0 <= k < dest.Length && !(at <= k < at + n) ==> dest[k] == old(dest[k])
  {
    var i := 0;
    while src[from + i] != NUL && i < n
      invariant 0 <= i <= n
      invariant forall k :: at <= k < at + i ==> dest[k] == src[from + (k - at)] && dest[k] != NUL
      invariant forall k :: 0 <= k < dest.Length && !(at <= k < at + n) ==> dest[k] == old(dest[k])
      decreases n - i
    {
      dest[at + i] := src[from + i];
      i := i + 1;
    }
    ghost var len := i;
    while i < n
      invariant len <= i <= n
      invariant forall k :: at <= k < at + len ==> dest[k] == src[from + (k - at)] && dest[k] != NUL
      invariant forall k :: at + len <= k < at + i ==> dest[k] == NUL
      invariant forall k :: 0 <= k < dest.Length && !(at <= k < at + n) ==> dest[k] == old(dest[k])
    {
      dest[at + i] := NUL;
      i := i + 1;
    }
    PaddingIs(src, from, n, len, dest[at..at + n]);
  }
}
