/** Zero-terminated strings in fixed buffers, and the library calls on them that the
    transcript and the call-state line use. A read-only string is passed as its bytes. */
module CStrings {
  import opened Bytes

  const NEWLINE: Byte := 10

  /** The bytes of `a` from `at` on are the string `s` and its terminating zero. */
  ghost predicate HoldsAt(a: array<Byte>, at: nat, s: Bytes)
    reads a
  {
    && at + |s| < a.Length && a[at + |s|] == 0
    && (forall i :: 0 <= i < |s| ==> a[at + i] == s[i] && s[i] != 0)
  }

  ghost predicate Holds(a: array<Byte>, s: Bytes)
    reads a
  {
    HoldsAt(a, 0, s)
  }

  /** The buffer holds a string of length `n`. */
  ghost predicate Terminated(a: array<Byte>, n: nat)
    reads a
  {
    n < a.Length && Holds(a, a[..n])
  }

  function Min(a: nat, b: nat): nat {
    if a < b then a else b
  }

  /** The first `n` bytes, or all of them. */
  function Cut(s: Bytes, n: nat): (r: Bytes)
    ensures r <= s && |r| == Min(|s|, n)
  {
    s[..Min(|s|, n)]
  }

  method Strlen(a: array<Byte>, ghost s: Bytes) returns (n: nat)
    requires Holds(a, s)
    ensures n == |s|
  {
    n := 0;
    while a[n] != 0
      invariant 0 <= n <= |s| && (n < |s| ==> a[n] == s[n])
      decreases |s| - n
    {
      n := n + 1;
    }
  }

  /** `strncat`: appends at most `n` bytes of `src` and a zero. */
  method Strncat(a: array<Byte>, ghost s: Bytes, src: Bytes, n: nat)
    requires Holds(a, s) && 0 !in src
    requires |s| + Min(|src|, n) < a.Length
    modifies a
    ensures Holds(a, s + Cut(src, n))
  {
    var at := Strlen(a, s);
    var i := 0;
    while i < n && i < |src|
      invariant 0 <= i <= Min(|src|, n)
      invariant forall k :: 0 <= k < |s| ==> a[k] == s[k]
      invariant forall k :: 0 <= k < i ==> a[at + k] == src[k]
    {
      a[at + i] := src[i];
      i := i + 1;
    }
    a[at + i] := 0;
    ghost var r := s + Cut(src, n);
    assert forall k :: |s| <= k < |r| ==> r[k] == src[k - |s|] == a[at + (k - |s|)];
    assert forall k :: 0 <= k < |src| ==> src[k] in src;
  }

  /** `strncpy(a, src, n)` followed by a zero at `n`, or `strcpy` when `src` fits. */
  method CopyCut(a: array<Byte>, src: Bytes, n: nat)
    requires 0 !in src && n < a.Length
    modifies a
    ensures Holds(a, Cut(src, n))
  {
    var i := 0;
    while i < n && i < |src|
      invariant 0 <= i <= Min(|src|, n)
      invariant forall k :: 0 <= k < i ==> a[k] == src[k]
    {
      a[i] := src[i];
      i := i + 1;
    }
    a[i] := 0;
    assert forall k :: 0 <= k < |src| ==> src[k] in src;
  }

  method Contents(a: array<Byte>, ghost s: Bytes) returns (r: Bytes)
    requires Holds(a, s)
    ensures r == s && 0 !in r
  {
    var n := Strlen(a, s);
    r := a[..n];
  }
}
