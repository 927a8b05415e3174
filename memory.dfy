/** Byte copies into heap buffers, as `memcpy` and `strcpy` do them. */
module Memory {
  import opened Bytes

  /** `memcpy(dst + off, src, |src|)`: the bytes of `src` replace those at `off`, nothing else changes. */
  method MemCpy(dst: array<byte>, off: nat, src: seq<byte>)
    requires off + |src| <= dst.Length
    modifies dst
    ensures dst[..] == old(dst[..off]) + src + old(dst[off + |src|..])
  {
    ghost var before := dst[..];
    var j := 0;
    while j < |src|
      invariant j <= |src|
      invariant dst[..] == before[..off] + src[..j] + before[off + j..]
    {
      dst[off + j] := src[j];
      j := j + 1;
      assert src[..j] == src[..j - 1] + [src[j - 1]];
    }
    assert src[..j] == src;
  }

  /** After a copy at `off`, the buffer up to the copy's end is the old prefix followed by `src`. */
  lemma CopiedPrefix(before: seq<byte>, after: seq<byte>, off: nat, src: seq<byte>)
    requires off + |src| <= |before|
    requires after == before[..off] + src + before[off + |src|..]
    ensures after[..off + |src|] == before[..off] + src
    ensures |after| == |before|
  {
    assert after[..off + |src|] == (before[..off] + src + before[off + |src|..])[..off + |src|];
  }

  /** After a copy at `off`, every prefix reaching into the copy is the old prefix and the start of `src`. */
  lemma PrefixAfterCopy(before: seq<byte>, after: seq<byte>, off: nat, src: seq<byte>, k: nat)
    requires off + |src| <= |before| && off <= k <= off + |src|
    requires after == before[..off] + src + before[off + |src|..]
    ensures after[..k] == before[..off] + src[..k - off]
  {
    assert after[..k] == (before[..off] + src + before[off + |src|..])[..k];
  }

  /**
   * `strcat(dst + at, src)`: finds the NUL that ends the C string at `at`
   * (of length `n`, see `StrlenAt`) and copies `src` and a new NUL over
   * it; nothing else changes.
   */
  method StrCat(dst: array<byte>, at: nat, src: seq<byte>, ghost n: nat)
    requires at + n + |src| + 1 <= dst.Length
    requires NoNul(dst[at..at + n]) && dst[at + n] == NUL
    modifies dst
    ensures dst[..] == old(dst[..at + n]) + (src + [NUL]) + old(dst[at + n + |src| + 1..])
  {
    forall j | at <= j < at + n
      ensures dst[j] != NUL
    {
      assert dst[j] == dst[at..at + n][j - at];
    }
    var e := at;
    while dst[e] != NUL
      invariant at <= e <= at + n
      decreases at + n - e
    {
      e := e + 1;
    }
    MemCpy(dst, e, src + [NUL]);
  }

  /** The C string at `off` has length `n` exactly when its first `n` bytes are not NUL and a NUL follows. */
  lemma StrlenAt(b: seq<byte>, off: nat, n: nat)
    requires off + n < |b| && NoNul(b[off..off + n]) && b[off + n] == NUL
    ensures NUL in b[off..] && Strlen(b[off..]) == n
  {
    CStrAt(b, off, b[off..off + n]);
  }

  /** A C string `s` stored at `off` (followed by its NUL) is what `strlen(dst + off)` measures. */
  lemma CStrAt(b: seq<byte>, off: nat, s: seq<byte>)
    requires off + |s| < |b| && NoNul(s) && b[off..off + |s| + 1] == s + [NUL]
    ensures NUL in b[off..] && Strlen(b[off..]) == |s|
  {
    assert b[off..] == s + [NUL] + b[off + |s| + 1..];
    CStrOfTerminated(s, b[off + |s| + 1..]);
  }
}
