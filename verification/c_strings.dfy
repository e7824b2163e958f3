/**
 * NUL-terminated character buffers, as the catalog update builds them with
 * malloc, strcpy and strcat.
 */
module CStrings {

  const Nul: char := '\0'

  /** buf holds the C string s: its characters, then a terminating NUL. */
  ghost predicate Holds(buf: array<char>, s: string)
    reads buf
  {
    Nul !in s && |s| < buf.Length && buf[..|s|] == s && buf[|s|] == Nul
  }

  /** strlen: the number of characters before the first NUL. */
  method StrLen(buf: array<char>, ghost s: string) returns (n: nat)
    requires Holds(buf, s)
    ensures n == |s|
  {
    n := 0;
    while buf[n] != Nul
      invariant n <= |s|
      decreases |s| - n
    {
      n := n + 1;
    }
  }

  /** strcpy(dst, src): dst must have room for src and its NUL. */
  method StrCpy(dst: array<char>, src: string)
    requires Nul !in src && |src| < dst.Length
    modifies dst
    ensures Holds(dst, src)
  {
    var i := 0;
    while i < |src|
      invariant i <= |src|
      invariant dst[..i] == src[..i]
    {
      dst[i] := src[i];
      i := i + 1;
    }
    dst[|src|] := Nul;
    assert dst[..|src|] == src[..|src|];
  }

  /** strcat(dst, src): finds the NUL of dst and copies src and a new NUL there. */
  method StrCat(dst: array<char>, ghost cur: string, src: string)
    requires Holds(dst, cur) && Nul !in src && |cur| + |src| < dst.Length
    modifies dst
    ensures Holds(dst, cur + src)
  {
    var n := StrLen(dst, cur);
    var i := 0;
    while i < |src|
      invariant i <= |src|
      invariant dst[..n + i] == cur + src[..i]
    {
      dst[n + i] := src[i];
      i := i + 1;
      assert dst[..n + i] == dst[..n + i - 1] + [src[i - 1]];
    }
    dst[n + |src|] := Nul;
    assert dst[..n + |src|] == cur + src[..|src|];
  }
}
