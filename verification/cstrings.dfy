/** C character buffers as sequences of one-byte characters: the bytes
    `strncpy` writes and the string a NUL-terminated buffer denotes. */
module CStrings {

  /** A C `char`: one byte, written as a character whose code is below 256,
      so that the program's string literals read as they do in the source. */
  type CChar = c: char | c as int < 256

  const NUL: CChar := '\0'

  /** A C string's contents: no byte of it is the terminator. */
  predicate NoNul(s: seq<CChar>) {
    forall k :: 0 <= k < |s| ==> s[k] != NUL
  }

  function Zeros(n: nat): (z: seq<CChar>)
    ensures |z| == n && forall k :: 0 <= k < n ==> z[k] == NUL
  {
    seq(n, _ => NUL)
  }

  function Min(a: int, b: int): int {
    if a <= b then a else b
  }

  /** The first `n` bytes `strncpy(dst, src, n)` leaves in `dst`: the first
      `n` bytes of `src`, or all of `src` followed by NUL padding up to `n`. */
  function Padded(src: seq<CChar>, n: nat): (p: seq<CChar>)
    ensures |p| == n
    ensures p[..Min(|src|, n)] == src[..Min(|src|, n)]
    ensures forall k :: Min(|src|, n) <= k < n ==> p[k] == NUL
  {
    if |src| >= n then src[..n] else src + Zeros(n - |src|)
  }

  /** The string a buffer denotes: its bytes up to the first NUL (all of
      them when there is none). */
  function CString(buf: seq<CChar>): (s: seq<CChar>)
    ensures |s| <= |buf| && s == buf[..|s|] && NoNul(s)
    ensures |s| < |buf| ==> buf[|s|] == NUL
  {
    if buf == [] || buf[0] == NUL then [] else [buf[0]] + CString(buf[1..])
  }

  /** A C string followed by a terminator denotes exactly that string,
      whatever follows the terminator. */
  lemma {:induction false} CStringOfTerminated(s: seq<CChar>, rest: seq<CChar>)
    requires NoNul(s)
    ensures CString(s + [NUL] + rest) == s
  {
    if s != [] {
      assert (s + [NUL] + rest)[1..] == s[1..] + [NUL] + rest;
      CStringOfTerminated(s[1..], rest);
    }
  }

  /** `buf` holds the C string `s`: the bytes of `s`, then a terminator. */
  predicate Holds(buf: seq<CChar>, s: seq<CChar>) {
    NoNul(s) && |s| < |buf| && buf[..|s|] == s && buf[|s|] == NUL
  }

  /** A buffer holds exactly the string it denotes, provided a terminator
      occurs in it. */
  lemma HoldsIffDenotes(buf: seq<CChar>, s: seq<CChar>)
    ensures Holds(buf, s) <==> CString(buf) == s && |s| < |buf|
  {
    if Holds(buf, s) {
      HeldIsDenoted(buf, s);
    }
  }

  lemma HeldIsDenoted(buf: seq<CChar>, s: seq<CChar>)
    requires Holds(buf, s)
    ensures CString(buf) == s
  {
    var rest := buf[|s| + 1..];
    assert buf == s + [NUL] + rest;
    CStringOfTerminated(s, rest);
  }

  /** The bytes `strncpy(dst, src, n)` writes: `dst[..n]` becomes
      `Padded(src, n)`, the rest of `dst` is untouched. `src` is the
      contents of a C string, so the copy never meets a NUL in it. */
  method StrNCopy(dst: array<CChar>, src: seq<CChar>, n: nat)
    requires n <= dst.Length && NoNul(src)
    modifies dst
    ensures dst[..n] == Padded(src, n)
    ensures dst[n..] == old(dst[n..])
  {
    var i := 0;
    while i < n && i < |src|
      invariant 0 <= i <= Min(|src|, n)
      invariant dst[..i] == src[..i]
      invariant dst[n..] == old(dst[n..])
    {
      dst[i] := src[i];
      i := i + 1;
    }
    while i < n
      invariant Min(|src|, n) <= i <= n
      invariant dst[..Min(|src|, n)] == src[..Min(|src|, n)]
      invariant forall k :: Min(|src|, n) <= k < i ==> dst[k] == NUL
      invariant dst[n..] == old(dst[n..])
    {
      dst[i] := NUL;
      i := i + 1;
    }
    assert dst[..n] == Padded(src, n);
  }
}
