/**
 * The helpers every backend shares: the path-set accessors, the bounded
 * string copy, the UTF-8 code-point counter, the filter delimiter test and
 * the process-wide error message.
 */
module Common {
  import opened Bytes
  import opened Wrappers
  import opened Nfd

  /** The capacity of the library's fixed string buffers. */
  const NFD_MAX_STRLEN: nat := 256

  /** The UTF-8 byte-order mark EF BB BF. */
  const NFD_UTF8_BOM: seq<byte> := "\U{EF}\U{BB}\U{BF}"

  // ----- path-set accessors -----

  /** `NFD_PathSet_GetCount`. */
  function GetCount(ps: PathSet): nat
  {
    ps.count
  }

  /** When `NFD_PathSet_GetPath(ps, num)` may be called: its assertion and a readable, terminated slot. */
  predicate CanGetPath(ps: PathSet, num: nat)
  {
    && ps.buf.Some? && ps.indices.Some?
    && num < ps.count
    && num < |ps.indices.value|
    && ps.indices.value[num] <= |ps.buf.value|
    && NUL in ps.buf.value[ps.indices.value[num]..]
  }

  /** `NFD_PathSet_GetPath`: the string that starts at `buf + indices[num]`. */
  function GetPath(ps: PathSet, num: nat): (path: seq<byte>)
    requires CanGetPath(ps, num)
    ensures NoNul(path)
    ensures path + [NUL] <= ps.buf.value[ps.indices.value[num]..]
  {
    CStr(ps.buf.value[ps.indices.value[num]..])
  }

  /**
   * A packed path set gives back its inputs: the count is the number of
   * paths and path `i` is the `i`-th input, for every `i`.
   */
  lemma PackRecovers(paths: seq<seq<byte>>)
    requires AllNoNul(paths)
    ensures GetCount(Pack(paths)) == |paths|
    ensures forall i :: 0 <= i < |paths| ==> CanGetPath(Pack(paths), i) && GetPath(Pack(paths), i) == paths[i]
  {
    forall i | 0 <= i < |paths|
      ensures CanGetPath(Pack(paths), i) && GetPath(Pack(paths), i) == paths[i]
    {
      JoinedAt(paths, i);
    }
  }

  /**
   * `NFD_PathSet_Free`: both pointers are released by the one call (each
   * must be non-null, as `NFDi_Free` asserts); no path can be read after.
   */
  function PathSetFree(ps: PathSet): (r: PathSet)
    requires ps.buf.Some? && ps.indices.Some?
    ensures r.buf.None? && r.indices.None? && r.count == ps.count
    ensures forall num :: !CanGetPath(r, num)
  {
    ps.(buf := None, indices := None)
  }

  // ----- NFDi_SafeStrncpy -----

  function Min(a: nat, b: nat): nat { if a < b then a else b }

  /** What `NFDi_SafeStrncpy(dst, src, maxCopy)` leaves in a destination that held `d0`. */
  function SafeCopied(d0: seq<byte>, src: seq<byte>, maxCopy: nat): seq<byte>
    requires NUL in src && 0 < maxCopy && Min(Strlen(src) + 1, maxCopy) <= |d0|
  {
    var n := Strlen(src);
    if n < maxCopy then src[..n + 1] + d0[n + 1..]
    else src[..maxCopy - 1] + [NUL] + d0[maxCopy..]
  }

  /** A source shorter than `maxCopy` is copied exactly, NUL included; nothing past it changes. */
  lemma SafeCopiedFits(d0: seq<byte>, src: seq<byte>, maxCopy: nat)
    requires NUL in src && 0 < maxCopy && Strlen(src) < maxCopy && Strlen(src) + 1 <= |d0|
    ensures var r := SafeCopied(d0, src, maxCopy);
      && |r| == |d0|
      && NUL in r && CStr(r) == CStr(src)
      && r[Strlen(src) + 1..] == d0[Strlen(src) + 1..]
  {
    var n := Strlen(src);
    var r := SafeCopied(d0, src, maxCopy);
    assert src[..n + 1] == CStr(src) + [NUL];
    assert r == CStr(src) + [NUL] + d0[n + 1..];
    CStrOfTerminated(CStr(src), d0[n + 1..]);
  }

  /**
   * A source of `maxCopy` bytes or more keeps its first `maxCopy - 1`
   * bytes, then one NUL at `maxCopy - 1`; no byte from `maxCopy` on is written.
   */
  lemma SafeCopiedTruncates(d0: seq<byte>, src: seq<byte>, maxCopy: nat)
    requires NUL in src && 0 < maxCopy && Strlen(src) >= maxCopy && maxCopy <= |d0|
    ensures var r := SafeCopied(d0, src, maxCopy);
      && |r| == |d0|
      && NUL in r && Strlen(r) == maxCopy - 1
      && CStr(r) == CStr(src)[..maxCopy - 1]
      && r[maxCopy..] == d0[maxCopy..]
  {
    var r := SafeCopied(d0, src, maxCopy);
    var kept := src[..maxCopy - 1];
    assert kept == CStr(src)[..maxCopy - 1];
    assert NoNul(kept);
    assert r == kept + [NUL] + d0[maxCopy..];
    CStrOfTerminated(kept, d0[maxCopy..]);
  }

  /**
   * `NFDi_SafeStrncpy(dst + at, src, maxCopy)`: copies `src` to position
   * `at` of `dst` for at most `maxCopy` bytes and reports truncation.
   * `maxCopy` must be positive (the truncation branch writes
   * `dst[at + maxCopy - 1]`) and `dst` must hold the bytes that are written.
   */
  method SafeStrncpy(dst: array<byte>, at: nat, src: seq<byte>, maxCopy: nat) returns (truncated: bool)
    requires NUL in src
    requires 0 < maxCopy
    requires at + Min(Strlen(src) + 1, maxCopy) <= dst.Length
    modifies dst
    ensures truncated <==> Strlen(src) >= maxCopy
    ensures dst[..] == old(dst[..at]) + SafeCopied(old(dst[at..]), src, maxCopy)
  {
    ghost var d0 := dst[..];
    var k := CopyBounded(dst, at, src, maxCopy);
    ghost var w: seq<byte>;
    if k == maxCopy {
      PlacedDropLast(d0, dst[..], at, src[..k]);
      assert src[..k][..k - 1] == src[..k - 1];
      dst[at + maxCopy - 1] := NUL;
      w := src[..maxCopy - 1] + [NUL];
      truncated := true;
    } else {
      dst[at + k] := NUL;
      TakeSnoc(src, k);
      w := src[..k + 1];
      truncated := false;
    }
    PlacedIsSafeCopied(d0, dst[..], at, src, maxCopy, w);
  }

  /** The bytes the copy placed are what `SafeCopied` says of the window at `at`. */
  lemma PlacedIsSafeCopied(d0: seq<byte>, d1: seq<byte>, at: nat, src: seq<byte>, maxCopy: nat, w: seq<byte>)
    requires NUL in src && 0 < maxCopy && at + Min(Strlen(src) + 1, maxCopy) <= |d0|
    requires w == if Strlen(src) < maxCopy then src[..Strlen(src) + 1] else src[..maxCopy - 1] + [NUL]
    requires Placed(d0, d1, at, w)
    ensures d1 == d0[..at] + SafeCopied(d0[at..], src, maxCopy)
  {
    PlacedSlices(d0, d1, at, w);
    var tail := d0[at..];
    assert SafeCopied(tail, src, maxCopy) == w + tail[|w|..];
    assert tail[|w|..] == d0[at + |w|..];
  }

  /** The copy loop: bytes of `src` up to its NUL or until `maxCopy` of them are copied. */
  method CopyBounded(dst: array<byte>, at: nat, src: seq<byte>, maxCopy: nat) returns (k: nat)
    requires NUL in src
    requires at + Min(Strlen(src) + 1, maxCopy) <= dst.Length
    modifies dst
    ensures k <= Strlen(src) && k <= maxCopy
    ensures k == maxCopy || k == Strlen(src)
    ensures Placed(old(dst[..]), dst[..], at, src[..k])
  {
    ghost var d0 := dst[..];
    ghost var len := Strlen(src);
    var n := maxCopy;
    k := 0;
    while n > 0 && src[k] != NUL
      invariant 0 <= k <= len && n == maxCopy - k
      invariant Placed(d0, dst[..], at, src[..k])
    {
      assert k != len by {
        assert src[len] == NUL;
      }
      dst[at + k] := src[k];
      TakeSnoc(src, k);
      k := k + 1;
      n := n - 1;
    }
  }

  /** `d1` is `d0` with `w` written at `at`, and nothing else changed. */
  ghost predicate Placed(d0: seq<byte>, d1: seq<byte>, at: nat, w: seq<byte>)
  {
    && |d1| == |d0| && at + |w| <= |d0|
    && (forall j | 0 <= j < |d0| && !(at <= j < at + |w|) :: d1[j] == d0[j])
    && (forall j | 0 <= j < |w| :: d1[at + j] == w[j])
  }

  /** A placed write, read as slices. */
  lemma PlacedSlices(d0: seq<byte>, d1: seq<byte>, at: nat, w: seq<byte>)
    requires Placed(d0, d1, at, w)
    ensures d1 == d0[..at] + w + d0[at + |w|..]
  {
    var r := d0[..at] + w + d0[at + |w|..];
    forall j | 0 <= j < |d1|
      ensures d1[j] == r[j]
    {
      if at <= j < at + |w| {
        assert d1[at + (j - at)] == w[j - at];
      }
    }
  }

  /** Overwriting the last byte of a placed write drops it from the write. */
  lemma PlacedDropLast(d0: seq<byte>, d1: seq<byte>, at: nat, w: seq<byte>)
    requires Placed(d0, d1, at, w) && w != []
    ensures Placed(d0, d1[at + |w| - 1 := d0[at + |w| - 1]], at, w[..|w| - 1])
  {
  }

  // ----- NFDi_UTF8_Strlen -----

  /** A byte of the form 10xxxxxx continues a multi-byte UTF-8 sequence. */
  predicate IsContinuation(c: byte) { Code(c) / 64 == 2 }

  /** The number of bytes of `s` that are not continuation bytes. */
  function CountLeadBytes(s: seq<byte>): (n: nat)
    ensures n <= |s|
  {
    if s == [] then 0
    else (if IsContinuation(s[0]) then 0 else 1) + CountLeadBytes(s[1..])
  }

  /** Where `NFDi_UTF8_Strlen` starts counting: after a BOM, looked for only when `strlen(str) > 2`. */
  function BomSkip(str: seq<byte>): (k: nat)
    requires NUL in str
    ensures k <= Strlen(str)
  {
    if Strlen(str) > 2 && str[..3] == NFD_UTF8_BOM then 3 else 0
  }

  /** The code points `NFDi_UTF8_Strlen` reports for the C string at the start of `str`. */
  function Utf8Length(str: seq<byte>): nat
    requires NUL in str
  {
    CountLeadBytes(CStr(str)[BomSkip(str)..])
  }

  /** The three classes `NFDi_UTF8_Strlen` tests for cover every byte value. */
  lemma ByteClasses(b: byte)
    ensures Code(b) / 128 == 0 || Code(b) / 64 == 3 || Code(b) / 64 == 2
    ensures Code(b) / 128 == 0 ==> !IsContinuation(b)
    ensures Code(b) / 64 == 3 ==> !IsContinuation(b)
  {
  }

  lemma SliceSnoc(s: seq<byte>, a: nat, i: nat)
    requires a <= i < |s|
    ensures s[a..i + 1] == s[a..i] + [s[i]]
  {
  }

  lemma {:induction false} CountLeadBytesAppend(s: seq<byte>, c: byte)
    ensures CountLeadBytes(s + [c]) == CountLeadBytes(s) + (if IsContinuation(c) then 0 else 1)
  {
    if s != [] {
      assert (s + [c])[1..] == s[1..] + [c];
      CountLeadBytesAppend(s[1..], c);
    }
  }

  /**
   * `NFDi_UTF8_Strlen`: counts the bytes that are ASCII (0xxxxxxx) or
   * start a sequence (11xxxxxx), skipping a leading BOM. The source's
   * `return -1` for any other byte is unreachable: the three tests cover
   * every byte value.
   */
  method UTF8Strlen(str: seq<byte>) returns (characterCount: int)
    requires NUL in str
    ensures characterCount == Utf8Length(str)
  {
    characterCount := 0;
    var i := 0;
    if Strlen(str) > 2 {
      if str[..3] == NFD_UTF8_BOM {
        i := i + 3;
      }
    }
    var start := i;
    ghost var len := Strlen(str);
    ghost var cs := CStr(str);
    assert |cs| == len;
    while str[i] != NUL
      invariant start <= i <= len
      invariant characterCount == CountLeadBytes(cs[start..i])
      decreases len - i
    {
      var c := Code(str[i]);
      ByteClasses(str[i]);
      assert i < len;
      assert cs[i] == str[i];
      SliceSnoc(cs, start, i);
      CountLeadBytesAppend(cs[start..i], cs[i]);
      if c / 128 == 0 {
        characterCount := characterCount + 1;
      } else if c / 64 == 3 {
        characterCount := characterCount + 1;
      } else if c / 64 == 2 {
      } else {
        assert false;
      }
      i := i + 1;
    }
    assert i == len;
    assert cs[start..i] == cs[start..];
  }

  /** The counter never yields -1, never exceeds the byte length, and equals `strlen` for ASCII text. */
  lemma {:induction false} Utf8LengthBounds(str: seq<byte>)
    requires NUL in str
    ensures 0 <= Utf8Length(str) <= Strlen(str)
    ensures (forall i :: 0 <= i < Strlen(str) ==> Code(str[i]) < 128) ==> Utf8Length(str) == Strlen(str)
  {
    if forall i :: 0 <= i < Strlen(str) ==> Code(str[i]) < 128 {
      if Strlen(str) > 2 {
        assert Code(str[0]) < 128;
        assert str[..3] != NFD_UTF8_BOM;
      }
      AsciiCountsAll(CStr(str));
    }
  }

  lemma {:induction false} AsciiCountsAll(s: seq<byte>)
    requires forall i :: 0 <= i < |s| ==> Code(s[i]) < 128
    ensures CountLeadBytes(s) == |s|
  {
    if s != [] {
      AsciiCountsAll(s[1..]);
    }
  }

  // ----- NFDi_IsFilterSegmentChar -----

  /** The bytes that end one extension of a filter list. */
  const SEGMENT_CHARS: set<byte> := {',', ';', NUL}

  /** `NFDi_IsFilterSegmentChar`: true exactly of ',', ';' and NUL. */
  predicate IsFilterSegmentChar(ch: byte)
    ensures IsFilterSegmentChar(ch) <==> ch in SEGMENT_CHARS
  {
    ch == ',' || ch == ';' || ch == NUL
  }

  // ----- the error slot -----

  /** The process-wide `g_errorstr` buffer, zero-filled at start. */
  class ErrorContext {
    var errorstr: array<byte>

    ghost predicate Valid()
      reads this, errorstr
    {
      errorstr.Length == NFD_MAX_STRLEN && NUL in errorstr[..]
    }

    constructor ()
      ensures Valid() && fresh(errorstr)
      ensures GetError() == []
    {
      var zeroed := new byte[NFD_MAX_STRLEN](_ => NUL);
      assert zeroed[..][0] == NUL;
      errorstr := zeroed;
    }

    /** `NFD_GetError`: the message currently stored. */
    function GetError(): (msg: seq<byte>)
      reads this, errorstr
      requires Valid()
      ensures NoNul(msg) && |msg| < NFD_MAX_STRLEN
    {
      CStr(errorstr[..])
    }

    /**
     * `NFDi_SetError`: the stored message becomes `msg`, cut to
     * `NFD_MAX_STRLEN - 1` bytes. `truncated` is the value the source's
     * assertion requires to be false.
     */
    method SetError(msg: seq<byte>) returns (truncated: bool)
      requires Valid() && NUL in msg
      modifies errorstr
      ensures Valid() && errorstr == old(errorstr)
      ensures truncated <==> Strlen(msg) >= NFD_MAX_STRLEN
      ensures GetError() == if truncated then CStr(msg)[..NFD_MAX_STRLEN - 1] else CStr(msg)
    {
      ghost var d0 := errorstr[..];
      truncated := SafeStrncpy(errorstr, 0, msg, NFD_MAX_STRLEN);
      assert errorstr[..] == SafeCopied(d0, msg, NFD_MAX_STRLEN) by {
        assert d0[..0] == [] && d0[0..] == d0;
      }
      if truncated {
        SafeCopiedTruncates(d0, msg, NFD_MAX_STRLEN);
      } else {
        SafeCopiedFits(d0, msg, NFD_MAX_STRLEN);
      }
    }
  }
}
