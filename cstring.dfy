/** Byte strings as C's <string.h> sees them, as far as ex17.c uses them:
    the length of a C string and the bounded copy strncpy
    (section 7.24.2.4 of ISO/IEC 9899:2011). */
module CString {

  newtype byte = x: int | 0 <= x < 256

  const NUL: byte := 0

  function Min(a: nat, b: nat): nat { if a <= b then a else b }

  /** The number of bytes before the first NUL of s, or |s| when s holds no
      NUL. For a string argument the end of the sequence stands for its
      terminator; for a fixed field without a NUL, C would read on past the
      field, which this length does not follow. */
  function Length(s: seq<byte>): (n: nat)
    ensures n <= |s|
    ensures forall i :: 0 <= i < n ==> s[i] != NUL
    ensures n < |s| ==> s[n] == NUL
  {
    if s == [] || s[0] == NUL then 0 else 1 + Length(s[1..])
  }

  /** The C string is terminated inside the sequence: some byte is NUL. */
  predicate Terminated(s: seq<byte>) { NUL in s }

  /** The n bytes that strncpy(dst, src, n) leaves in dst: the bytes of the C
      string src, at most n of them, and NULs in the rest of the n. */
  function StrncpyImage(src: seq<byte>, n: nat): (dst: seq<byte>)
    ensures |dst| == n
  {
    seq(n, i requires 0 <= i < n => if i < Length(src) then src[i] else NUL)
  }

  /** What strncpy promises: the destination holds the first min(len, n)
      bytes of the source and NULs after them; its bytes before the first NUL
      (all n when it has none) are the source truncated to n bytes; and it
      holds a NUL exactly when the source is shorter than n. */
  lemma StrncpyContents(src: seq<byte>, n: nat)
    ensures var dst, k := StrncpyImage(src, n), Min(Length(src), n);
      && dst[..k] == src[..k]
      && (forall i :: k <= i < n ==> dst[i] == NUL)
      && Length(dst) == k
      && (Terminated(dst) <==> Length(src) < n)
  {
    var dst, k := StrncpyImage(src, n), Min(Length(src), n);
    if Length(src) < n {
      assert dst[Length(src)] == NUL;
    } else {
      assert forall i :: 0 <= i < n ==> dst[i] != NUL;
    }
  }

  /** strncpy(dst, src, n) as the byte loop the standard describes: copy bytes
      of src until its NUL or until n are copied, then write NULs until n are
      written. Returns the n bytes of the destination. */
  method Strncpy(src: seq<byte>, n: nat) returns (dst: seq<byte>)
    ensures dst == StrncpyImage(src, n)
  {
    dst := [];
    var i := 0;
    while i < n && i < |src| && src[i] != NUL
      invariant i <= n && i <= Length(src)
      invariant dst == src[..i]
    {
      dst := dst + [src[i]];
      i := i + 1;
    }
    while i < n
      invariant i <= n && |dst| == i
      invariant forall j :: 0 <= j < i ==> dst[j] == StrncpyImage(src, n)[j]
    {
      dst := dst + [NUL];
      i := i + 1;
    }
  }
}
