/**
 * C byte strings as the library stores them: `nfdchar_t` is a plain
 * `char`, strings end at the first NUL, and several strings are often
 * packed back-to-back, each with its own NUL.
 */
module Bytes {

  /** One C `char`, read as an unsigned byte. */
  type byte = c: char | c as int < 256

  const NUL: byte := '\0'

  /** The value of a byte as an unsigned number (`(unsigned char)c`). */
  function Code(c: byte): nat { c as int }

  /** The byte whose unsigned value is `n`. */
  function FromCode(n: nat): (c: byte)
    requires n < 256
    ensures Code(c) == n
  {
    n as char
  }

  /** True of the contents of a C string: it holds no terminator. */
  predicate NoNul(s: seq<byte>) { NUL !in s }

  predicate AllNoNul(parts: seq<seq<byte>>) {
    forall i :: 0 <= i < |parts| ==> NoNul(parts[i])
  }

  /** `strlen`: the index of the first NUL. */
  function Strlen(s: seq<byte>): (n: nat)
    requires NUL in s
    ensures n < |s| && s[n] == NUL
    ensures forall i :: 0 <= i < n ==> s[i] != NUL
  {
    if s[0] == NUL then 0 else 1 + Strlen(s[1..])
  }

  /** The contents of the C string stored at the start of `s`. */
  function CStr(s: seq<byte>): (r: seq<byte>)
    requires NUL in s
    ensures NoNul(r) && r + [NUL] <= s
  {
    s[..Strlen(s)]
  }

  /** A string's contents followed by its terminator determine that string. */
  lemma {:induction false} CStrOfTerminated(p: seq<byte>, rest: seq<byte>)
    requires NoNul(p)
    ensures NUL in p + [NUL] + rest
    ensures Strlen(p + [NUL] + rest) == |p|
    ensures CStr(p + [NUL] + rest) == p
  {
    var s := p + [NUL] + rest;
    assert s[|p|] == NUL;
    if p != [] {
      assert s[1..] == p[1..] + [NUL] + rest;
      CStrOfTerminated(p[1..], rest);
    }
  }

  /** One more byte of a prefix. */
  lemma TakeSnoc(s: seq<byte>, k: nat)
    requires k < |s|
    ensures s[..k + 1] == s[..k] + [s[k]]
  {
  }

  /** `strcspn(s, set)` on the contents `s`: the length of the longest prefix free of `stops`. */
  function Span(s: seq<byte>, stops: set<byte>): (n: nat)
    ensures n <= |s|
  {
    if s == [] || s[0] in stops then 0 else 1 + Span(s[1..], stops)
  }

  /** Strings packed back-to-back, each followed by one NUL. */
  function Joined(parts: seq<seq<byte>>): (s: seq<byte>)
    ensures |s| == TotalSize(parts)
  {
    if parts == [] then [] else Joined(parts[..|parts| - 1]) + parts[|parts| - 1] + [NUL]
  }

  /** The sum of `|parts[j]| + 1` over all `j`: the bytes `Joined` occupies. */
  function TotalSize(parts: seq<seq<byte>>): nat
  {
    if parts == [] then 0 else TotalSize(parts[..|parts| - 1]) + |parts[|parts| - 1]| + 1
  }

  /** The offset at which part `i` starts: the sum of `|parts[j]| + 1` over `j < i`. */
  function Offset(parts: seq<seq<byte>>, i: nat): nat
    requires i <= |parts|
  {
    TotalSize(parts[..i])
  }

  lemma {:induction false} JoinedAppend(parts: seq<seq<byte>>, p: seq<byte>)
    ensures Joined(parts + [p]) == Joined(parts) + p + [NUL]
    ensures TotalSize(parts + [p]) == TotalSize(parts) + |p| + 1
  {
    assert (parts + [p])[..|parts|] == parts;
  }

  /** Joining distributes over concatenation of the part lists. */
  lemma {:induction false} JoinedConcat(a: seq<seq<byte>>, b: seq<seq<byte>>)
    ensures Joined(a + b) == Joined(a) + Joined(b)
    decreases |b|
  {
    if b == [] {
      assert a + b == a;
    } else {
      var b' := b[..|b| - 1];
      var last := b[|b| - 1];
      assert a + b == (a + b') + [last];
      assert b == b' + [last];
      JoinedAppend(a + b', last);
      JoinedAppend(b', last);
      JoinedConcat(a, b');
    }
  }

  /**
   * The layout every path-set builder produces: part `i` starts at
   * `Offset(parts, i)` and is followed by its NUL, so the C string found
   * there is exactly `parts[i]`.
   */
  lemma {:induction false} JoinedAt(parts: seq<seq<byte>>, i: nat)
    requires i < |parts| && AllNoNul(parts)
    ensures Offset(parts, i) + |parts[i]| < TotalSize(parts)
    ensures Offset(parts, i + 1) == Offset(parts, i) + |parts[i]| + 1
    ensures NUL in Joined(parts)[Offset(parts, i)..]
    ensures CStr(Joined(parts)[Offset(parts, i)..]) == parts[i]
  {
    var pre, rest := parts[..i], parts[i + 1..];
    var head := pre + [parts[i]];
    assert parts == head + rest;
    assert parts[..i + 1] == head;
    JoinedConcat(head, rest);
    JoinedAppend(pre, parts[i]);
    var off := Offset(parts, i);
    assert |Joined(pre)| == off;
    assert Joined(parts) == (Joined(pre) + parts[i] + [NUL]) + Joined(rest);
    assert Joined(parts)[off..] == parts[i] + [NUL] + Joined(rest);
    CStrOfTerminated(parts[i], Joined(rest));
  }

  /** `Offset` grows by `|parts[i]| + 1` from one part to the next. */
  lemma OffsetStep(parts: seq<seq<byte>>, i: nat)
    requires i < |parts|
    ensures Offset(parts, i + 1) == Offset(parts, i) + |parts[i]| + 1
  {
    assert parts[..i + 1] == parts[..i] + [parts[i]];
    JoinedAppend(parts[..i], parts[i]);
  }

  // ----- machine words (size_t) -----

  /** `size_t` is taken as 64 bits wide, stored in 8 bytes. */
  const WORD_BYTES: nat := 8
  const WORD_MODULUS: nat := 0x1_0000_0000_0000_0000

  /** The `n` little-endian bytes of `v`, as `memcpy` of a native word puts them on the wire. */
  function LittleEndian(v: nat, n: nat): (bs: seq<byte>)
    ensures |bs| == n
  {
    if n == 0 then [] else [FromCode(v % 256)] + LittleEndian(v / 256, n - 1)
  }

  /** The number whose little-endian bytes are `bs`. */
  function LittleEndianValue(bs: seq<byte>): nat
  {
    if bs == [] then 0 else Code(bs[0]) + 256 * LittleEndianValue(bs[1..])
  }

  function Pow256(n: nat): (p: nat)
    ensures p >= 1
  {
    if n == 0 then 1 else 256 * Pow256(n - 1)
  }

  lemma {:induction false} LittleEndianRoundTrip(v: nat, n: nat)
    requires v < Pow256(n)
    ensures LittleEndianValue(LittleEndian(v, n)) == v
  {
    if n > 0 {
      LittleEndianRoundTrip(v / 256, n - 1);
    }
  }

  lemma {:induction false} LittleEndianValueBound(bs: seq<byte>)
    ensures LittleEndianValue(bs) < Pow256(|bs|)
  {
    if bs != [] {
      LittleEndianValueBound(bs[1..]);
    }
  }

  lemma {:induction false} LittleEndianOfValue(bs: seq<byte>)
    ensures LittleEndian(LittleEndianValue(bs), |bs|) == bs
  {
    if bs != [] {
      var rest := LittleEndianValue(bs[1..]);
      DigitSplit(Code(bs[0]), rest);
      LittleEndianOfValue(bs[1..]);
      assert FromCode(Code(bs[0])) == bs[0];
      assert bs == [bs[0]] + bs[1..];
    }
  }

  /** The low base-256 digit and the rest of `d + 256 * r`. */
  lemma DigitSplit(d: nat, r: nat)
    requires d < 256
    ensures (d + 256 * r) % 256 == d && (d + 256 * r) / 256 == r
  {
  }

  lemma WordModulusIsPow()
    ensures Pow256(WORD_BYTES) == WORD_MODULUS
  {
  }

  /** The wire image of one native `size_t`. */
  function Word(v: nat): (bs: seq<byte>)
    requires v < WORD_MODULUS
    ensures |bs| == WORD_BYTES
  {
    LittleEndian(v, WORD_BYTES)
  }

  /** The `size_t` read back from its 8-byte image. */
  function WordValue(bs: seq<byte>): (v: nat)
    requires |bs| == WORD_BYTES
    ensures v < WORD_MODULUS
  {
    LittleEndianValueBound(bs);
    LittleEndianValue(bs)
  }

  lemma WordRoundTrip(v: nat)
    requires v < WORD_MODULUS
    ensures WordValue(Word(v)) == v
  {
    LittleEndianRoundTrip(v, WORD_BYTES);
  }

  lemma WordOfValue(bs: seq<byte>)
    requires |bs| == WORD_BYTES
    ensures Word(WordValue(bs)) == bs
  {
    LittleEndianOfValue(bs);
  }
}
