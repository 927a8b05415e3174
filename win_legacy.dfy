/**
 * The legacy Win32 backend (`nfd_win_legacy.c`): the length of a
 * double-NUL-terminated list, the filter text the dialog receives
 * (`filter_compose`), the shared `legacy_function` driver and the
 * multiple-selection path set. Wide and UTF-8 text are the same
 * sequence of characters here: the conversions only allocate.
 */
module WinLegacy {
  import opened Bytes
  import opened Wrappers
  import opened Nfd
  import opened FilterList
  import opened Win32
  import opened Memory
  import opened Common

  // ----- double-NUL-terminated lists -----

  /**
   * `str` starts with the list `parts`: each string non-empty and free of
   * NUL, each followed by its NUL, then one more NUL.
   */
  predicate ListAt(parts: seq<seq<byte>>, str: seq<byte>)
  {
    && AllNoNul(parts) && (forall i :: 0 <= i < |parts| ==> parts[i] != [])
    && TotalSize(parts) < |str| && str[..TotalSize(parts) + 1] == Joined(parts) + [NUL]
  }

  /** At the start of string `k` stands its first byte, or the closing NUL after the last string. */
  lemma StringAt(parts: seq<seq<byte>>, str: seq<byte>, k: nat)
    requires ListAt(parts, str) && k <= |parts|
    ensures Offset(parts, k) < |str|
    ensures k == |parts| <==> str[Offset(parts, k)] == NUL
    ensures k < |parts| ==>
      && NUL in str[Offset(parts, k)..] && Strlen(str[Offset(parts, k)..]) == |parts[k]|
      && Offset(parts, k + 1) == Offset(parts, k) + |parts[k]| + 1
      && str[Offset(parts, k)..Offset(parts, k) + |parts[k]|] == parts[k]
  {
    var J := Joined(parts);
    assert str[..|J| + 1] == J + [NUL];
    if k == |parts| {
      assert parts[..k] == parts;
      assert str[|J|] == (J + [NUL])[|J|];
    } else {
      StringInside(parts, str, k, J, Offset(parts, k), parts[k]);
    }
  }

  /** String `k` of the list, with its NUL, is what `str` holds at its offset. */
  lemma StringInside(parts: seq<seq<byte>>, str: seq<byte>, k: nat, J: seq<byte>, off: nat, p: seq<byte>)
    requires k < |parts| && AllNoNul(parts) && J == Joined(parts) && |J| < |str| && str[..|J| + 1] == J + [NUL]
    requires off == Offset(parts, k) && p == parts[k] && p != []
    ensures off + |p| < |J| && off + |p| + 1 <= |str|
    ensures NUL in str[off..] && Strlen(str[off..]) == |p|
    ensures Offset(parts, k + 1) == off + |p| + 1
    ensures str[off..off + |p|] == p && str[off] != NUL
  {
    JoinedAt(parts, k);
    TerminatedAt(str, J, off, p);
  }

  /** A NUL-free, non-empty string and its NUL inside `J`, which `str` starts with, are found at the same place in `str`. */
  lemma TerminatedAt(str: seq<byte>, J: seq<byte>, off: nat, p: seq<byte>)
    requires |J| < |str| && str[..|J| + 1] == J + [NUL] && off <= |J| && p + [NUL] <= J[off..] && NoNul(p) && p != []
    ensures off + |p| + 1 <= |str| && NUL in str[off..] && Strlen(str[off..]) == |p|
    ensures str[off..off + |p|] == p && str[off] != NUL
  {
    var w := str[off..off + |p| + 1];
    forall j | 0 <= j < |p| + 1
      ensures w[j] == (p + [NUL])[j]
    {
      assert str[off + j] == str[..|J| + 1][off + j] == J[off + j];
      assert J[off + j] == J[off..][j];
    }
    assert w == p + [NUL];
    SliceSplit(str, off, off + |p| + 1);
    CStrOfTerminated(p, str[off + |p| + 1..]);
    assert str[off..off + |p|] == w[..|p|];
    assert str[off] == p[0] && p[0] in p;
  }

  /** A suffix is its first `j - i` bytes followed by the rest. */
  lemma SliceSplit(s: seq<byte>, i: nat, j: nat)
    requires i <= j <= |s|
    ensures s[i..] == s[i..j] + s[j..]
  {
  }

  /**
   * `wchar_len_multi`: the characters of the list at the start of `str`,
   * its closing NUL included; 1 for an empty list.
   */
  method WcharLenMulti(str: seq<byte>, ghost parts: seq<seq<byte>>) returns (n: nat)
    requires ListAt(parts, str)
    ensures n == TotalSize(parts) + 1
    ensures n <= |str| && str[..n] == Joined(parts) + [NUL]
  {
    var s := 0;
    ghost var k := 0;
    assert parts[..0] == [];
    StringAt(parts, str, 0);
    while str[s] != NUL
      invariant k <= |parts| && s == Offset(parts, k) < |str|
      decreases |parts| - k
    {
      StringAt(parts, str, k);
      s := s + Strlen(str[s..]) + 1;
      k := k + 1;
      StringAt(parts, str, k);
    }
    StringAt(parts, str, k);
    assert parts[..k] == parts;
    n := s + 1;
  }

  // ----- filter_compose -----

  const NEXT_TYPE: seq<byte> := ";*."

  /** `n` zero bytes, as `calloc` leaves them. */
  function Zeros(n: nat): (z: seq<byte>)
    ensures |z| == n && forall i :: 0 <= i < n ==> z[i] == NUL
  {
    seq(n, _ => NUL)
  }

  /** The text of a group as the scan copies it: each ',' written as `";*."`. */
  function Expand(g: seq<byte>): (r: seq<byte>)
    ensures |r| <= 3 * |g|
    decreases |g|
  {
    if g == [] then []
    else Expand(g[..|g| - 1]) + (if g[|g| - 1] == EXT_SEP then NEXT_TYPE else [g[|g| - 1]])
  }

  /** The pattern of one group: `"*."` and the group's text. */
  function GroupPattern(g: seq<byte>): seq<byte>
  {
    STAR_DOT + Expand(g)
  }

  /** The strings written for the groups: each group's pattern twice, as display name and as pattern. */
  function Pairs(groups: seq<seq<byte>>): (r: seq<seq<byte>>)
    ensures |r| == 2 * |groups|
  {
    if groups == [] then []
    else Pairs(groups[..|groups| - 1]) + [GroupPattern(groups[|groups| - 1]), GroupPattern(groups[|groups| - 1])]
  }

  /** The text `filter_compose` writes for the list `s`: its pairs, each string with its NUL. */
  function Composed(s: seq<byte>): seq<byte>
  {
    Joined(Pairs(Groups(s)))
  }

  /**
   * A group's pattern is each of its extensions after `"*."`, joined with
   * `';'`: the scan's character rewriting agrees with splitting at ','.
   */
  lemma {:induction false} ExpandIsJoin(g: seq<byte>)
    ensures Expand(g) == JoinWith(Extensions(g), NEXT_TYPE)
    decreases |g|
  {
    if g != [] {
      var init := g[..|g| - 1];
      var c := g[|g| - 1];
      ExpandIsJoin(init);
      SplitSnoc(init, c, EXT_SEP);
      assert init + [c] == g;
      var p := Split(init, EXT_SEP);
      if c == EXT_SEP {
        assert (p + [[]])[..|p|] == p;
        assert JoinWith(p + [[]], NEXT_TYPE) == JoinWith(p, NEXT_TYPE) + NEXT_TYPE + [];
      } else {
        JoinWithGrowLast(p, NEXT_TYPE, c);
      }
    }
  }

  /** One more group adds its pattern twice, each with its NUL. */
  lemma PairsSnoc(groups: seq<seq<byte>>, g: seq<byte>)
    ensures Pairs(groups + [g]) == Pairs(groups) + [GroupPattern(g), GroupPattern(g)]
    ensures Joined(Pairs(groups + [g])) == Joined(Pairs(groups)) + (GroupPattern(g) + [NUL]) + (GroupPattern(g) + [NUL])
    ensures TotalSize(Pairs(groups + [g])) == TotalSize(Pairs(groups)) + 2 * (|GroupPattern(g)| + 1)
  {
    assert (groups + [g])[..|groups|] == groups;
    var q := Pairs(groups);
    JoinedAppend(q, GroupPattern(g));
    JoinedAppend(q + [GroupPattern(g)], GroupPattern(g));
    assert q + [GroupPattern(g)] + [GroupPattern(g)] == q + [GroupPattern(g), GroupPattern(g)];
  }

  /** One more byte of a group: a ',' adds `";*."`, any other byte itself. */
  lemma ExpandSnoc(g: seq<byte>, c: byte)
    ensures Expand(g + [c]) == Expand(g) + (if c == EXT_SEP then NEXT_TYPE else [c])
  {
    assert (g + [c])[..|g|] == g;
  }

  /** A pattern holds a NUL only where its group does. */
  lemma {:induction false} ExpandNoNul(g: seq<byte>)
    requires NoNul(g)
    ensures NoNul(GroupPattern(g))
    decreases |g|
  {
    if g != [] {
      var init := g[..|g| - 1];
      assert g == init + [g[|g| - 1]];
      assert NoNul(init);
      ExpandNoNul(init);
    }
  }

  /** The bytes still to be written once `u` is scanned: the pairs of its groups, the open one included. */
  function Pending(u: seq<byte>): nat
  {
    TotalSize(Pairs(Groups(u)))
  }

  /** Each byte scanned adds six bytes to the text when it is a separator, two otherwise. */
  lemma PendingStep(u: seq<byte>, c: byte)
    ensures Pending(u + [c]) == Pending(u) + (if c == GROUP_SEP || c == EXT_SEP then 6 else 2)
  {
    var gs := Groups(u);
    var closed, cur := gs[..|gs| - 1], gs[|gs| - 1];
    assert gs == closed + [cur];
    SplitSnoc(u, c, GROUP_SEP);
    PairsSnoc(closed, cur);
    if c == GROUP_SEP {
      PairsSnoc(gs, []);
    } else {
      assert Groups(u + [c]) == closed + [cur + [c]];
      PairsSnoc(closed, cur + [c]);
      ExpandSnoc(cur, c);
    }
  }

  /** The text for a list of `n` bytes takes at most `6 * n + 6` bytes. */
  lemma {:induction false} PendingBound(u: seq<byte>)
    ensures Pending(u) <= 6 * |u| + 6
    decreases |u|
  {
    if u == [] {
      PairsSnoc([], []);
      assert [] + [[]] == Groups(u);
    } else {
      var init := u[..|u| - 1];
      assert u == init + [u[|u| - 1]];
      PendingBound(init);
      PendingStep(init, u[|u| - 1]);
    }
  }

  /** The text for a prefix of the list is no longer than the text for the whole list. */
  lemma {:induction false} PendingMono(s: seq<byte>, t: nat)
    requires t <= |s|
    ensures Pending(s[..t]) <= Pending(s)
    decreases |s| - t
  {
    if t < |s| {
      assert s[..t + 1] == s[..t] + [s[t]];
      PendingStep(s[..t], s[t]);
      PendingMono(s, t + 1);
    } else {
      assert s[..t] == s;
    }
  }

  /** The corrected allocation, `len * 6 + 1` bytes, holds the text and the zero written after it, for every list. */
  lemma ComposedFits(s: seq<byte>)
    ensures |Composed(s)| < 6 * (|s| + 1) + 1
  {
    PendingBound(s);
  }

  /**
   * The allocation as written, `len * 4` bytes, is too small for the
   * one-byte list `"a"`: its text `"*.a\0*.a\0"` takes all eight bytes
   * and the closing zero is written at offset 8.
   */
  lemma FilterComposeOverflows()
    ensures |Composed("a")| == 4 * (|"a"| + 1)
    ensures !(|Composed("a")| < 4 * (|"a"| + 1))
  {
    var a: seq<byte> := ['a'];
    var none: seq<byte> := [];
    SplitSnoc(none, 'a', GROUP_SEP);
    assert none + ['a'] == a;
    assert Groups(a) == [a];
    ExpandSnoc(none, 'a');
    assert Expand(a) == a;
    assert |GroupPattern(a)| == 3;
    PairsSnoc([], a);
    assert [] + [a] == [a];
    assert |Composed(a)| == 8;
  }

  /**
   * The filter the dialog receives (the text and the zero after it) is a
   * double-NUL-terminated list of display-name/pattern pairs, as the
   * `lpstrFilter` field requires.
   */
  lemma FilterIsList(s: seq<byte>)
    requires NoNul(s)
    ensures ListAt(Pairs(Groups(s)), Composed(s) + [NUL])
    ensures |Pairs(Groups(s))| == 2 * |Groups(s)|
    ensures forall i :: 0 <= i < |Pairs(Groups(s))| ==> Pairs(Groups(s))[i] == GroupPattern(Groups(s)[i / 2])
  {
    var gs := Groups(s);
    SplitAvoids(s, GROUP_SEP, NUL);
    PairsAt(gs);
    forall i | 0 <= i < |Pairs(gs)|
      ensures NoNul(Pairs(gs)[i]) && Pairs(gs)[i] != []
    {
      ExpandNoNul(gs[i / 2]);
    }
  }

  /** Entries `2k` and `2k + 1` of the pairs are both the pattern of group `k`. */
  lemma {:induction false} PairsAt(groups: seq<seq<byte>>)
    ensures forall i :: 0 <= i < |Pairs(groups)| ==> Pairs(groups)[i] == GroupPattern(groups[i / 2])
    decreases |groups|
  {
    if groups != [] {
      var init := groups[..|groups| - 1];
      PairsAt(init);
      forall i | 0 <= i < |Pairs(groups)|
        ensures Pairs(groups)[i] == GroupPattern(groups[i / 2])
      {
        if i < 2 * |init| {
          assert Pairs(groups)[i] == Pairs(init)[i];
          assert groups[i / 2] == init[i / 2];
        }
      }
    }
  }

  /**
   * The scan's state: `dst` holds the pairs of the closed groups and zeros
   * after them, `p` is where the next pair goes, and `buf[..b]` is the
   * pattern of the open group.
   */
  ghost predicate Composing(closed: seq<seq<byte>>, cur: seq<byte>, d: seq<byte>, p: nat, bf: seq<byte>, b: nat)
  {
    && p == TotalSize(Pairs(closed)) && p <= |d| && d == Joined(Pairs(closed)) + Zeros(|d| - p)
    && b <= |bf| && bf[..b] == GroupPattern(cur)
  }

  /** Copying `w` over the zeros after `j` leaves `j + w` and fewer zeros. */
  lemma OverZeros(j: seq<byte>, w: seq<byte>, n: nat, d0: seq<byte>, d1: seq<byte>)
    requires |w| <= n && d0 == j + Zeros(n) && d1 == d0[..|j|] + w + d0[|j| + |w|..]
    ensures d1 == (j + w) + Zeros(n - |w|)
  {
    assert d0[..|j|] == j;
    assert d0[|j| + |w|..] == Zeros(n - |w|);
  }

  /**
   * One step of the scan (lines 103-118): a ',' appends `";*."` to the
   * open pattern; a ';' or the terminator closes the group; any other
   * byte is appended.
   */
  method ComposeChar(c: byte, dst: array<byte>, buf: array<byte>, p: nat, b: nat,
                     ghost closed: seq<seq<byte>>, ghost cur: seq<byte>)
    returns (p': nat, b': nat)
    requires dst != buf && Composing(closed, cur, dst[..], p, buf[..], b)
    requires b < buf.Length && (c == EXT_SEP ==> b + 3 <= buf.Length)
    requires (c == GROUP_SEP || c == NUL) ==> TotalSize(Pairs(closed + [cur])) < dst.Length
    modifies dst, buf
    ensures b' <= b + 3
    ensures c == GROUP_SEP || c == NUL ==> Composing(closed + [cur], [], dst[..], p', buf[..], b')
    ensures c != GROUP_SEP && c != NUL ==> Composing(closed, cur + [c], dst[..], p', buf[..], b')
  {
    if c == GROUP_SEP || c == NUL {
      p', b' := CloseGroup(dst, buf, p, b, closed, cur);
    } else {
      ExpandSnoc(cur, c);
      ghost var b0 := buf[..];
      if c == EXT_SEP {
        MemCpy(buf, b, NEXT_TYPE);
        CopiedPrefix(b0, buf[..], b, NEXT_TYPE);
        b' := b + 3;
      } else {
        buf[b] := c;
        assert buf[..b + 1] == b0[..b] + [c];
        b' := b + 1;
      }
      p' := p;
    }
  }

  /**
   * A ';' or the terminator: the open pattern gets its NUL, is copied
   * twice after the closed pairs (it holds no other NUL, so each `strcpy`
   * copies exactly it and its NUL), a zero follows, and a new pattern
   * starts after `"*."`.
   */
  method CloseGroup(dst: array<byte>, buf: array<byte>, p: nat, b: nat,
                    ghost closed: seq<seq<byte>>, ghost cur: seq<byte>)
    returns (p': nat, b': nat)
    requires dst != buf && Composing(closed, cur, dst[..], p, buf[..], b)
    requires b < buf.Length && TotalSize(Pairs(closed + [cur])) < dst.Length
    modifies dst, buf
    ensures b' <= b + 3
    ensures Composing(closed + [cur], [], dst[..], p', buf[..], b')
  {
    assert buf[..2] == STAR_DOT by { assert buf[..b][..2] == buf[..2]; }
    buf[b] := NUL;
    var w := buf[..b + 1];
    assert w == GroupPattern(cur) + [NUL] by { assert w[..b] == buf[..b]; }
    assert buf[..2] == GroupPattern([]);
    PairsSnoc(closed, cur);
    PushPair(dst, p, w, Joined(Pairs(closed)));
    p', b' := p + 2 * (b + 1), 2;
  }

  /** Both `strcpy` calls and the zero after them: the pattern `w` (with its NUL) twice at `p`. */
  method PushPair(dst: array<byte>, p: nat, w: seq<byte>, ghost j: seq<byte>)
    requires |j| == p && p + 2 * |w| < dst.Length && dst[..] == j + Zeros(dst.Length - p)
    modifies dst
    ensures dst[..] == (j + w + w) + Zeros(dst.Length - (p + 2 * |w|))
  {
    ghost var d0 := dst[..];
    MemCpy(dst, p, w);
    ghost var d1 := dst[..];
    MemCpy(dst, p + |w|, w);
    TwiceOverZeros(j, w, p, d0, d1, dst[..]);
    dst[p + 2 * |w|] := NUL;
  }

  /** The pattern copied twice over the zeros after `j`: `j`, the two copies, and fewer zeros (the first of them already the zero written next). */
  lemma TwiceOverZeros(j: seq<byte>, w: seq<byte>, p: nat, d0: seq<byte>, d1: seq<byte>, d2: seq<byte>)
    requires |j| == p && p + 2 * |w| < |d0| && d0 == j + Zeros(|d0| - p)
    requires d1 == d0[..p] + w + d0[p + |w|..]
    requires d2 == d1[..p + |w|] + w + d1[p + |w| + |w|..]
    ensures d2 == (j + w + w) + Zeros(|d0| - (p + 2 * |w|))
    ensures d2[p + 2 * |w| := NUL] == d2
  {
    OverZeros(j, w, |d0| - p, d0, d1);
    OverZeros(j + w, w, |d0| - p - |w|, d1, d2);
  }

  /** One round of the scan: byte `t` of `s` and its terminator, with the groups of the text scanned so far. */
  method ComposeStep(s: seq<byte>, t: nat, c: byte, dst: array<byte>, buf: array<byte>, p: nat, b: nat,
                     ghost closed: seq<seq<byte>>, ghost cur: seq<byte>)
    returns (p': nat, b': nat, ghost closed': seq<seq<byte>>, ghost cur': seq<byte>)
    requires NoNul(s) && dst != buf && buf.Length == 3 * (|s| + 1) && |Composed(s)| < dst.Length
    requires t <= |s| && c == (s + [NUL])[t]
    requires Groups((s + [GROUP_SEP])[..t]) == closed + [cur] && b <= 2 + 3 * t
    requires Composing(closed, cur, dst[..], p, buf[..], b)
    modifies dst, buf
    ensures Groups((s + [GROUP_SEP])[..t + 1]) == closed' + [cur'] && b' <= 2 + 3 * (t + 1)
    ensures Composing(closed', cur', dst[..], p', buf[..], b')
  {
    ScanPrefix(s, t);
    PendingMono(s, t);
    p', b' := ComposeChar(c, dst, buf, p, b, closed, cur);
    GroupsSnoc(s[..t], (s + [GROUP_SEP])[t], closed, cur);
    var closes := c == GROUP_SEP || c == NUL;
    closed' := if closes then closed + [cur] else closed;
    cur' := if closes then [] else cur + [c];
  }

  /** The scan reads `s` and then its terminator, which counts as a ';'. */
  lemma ScanPrefix(s: seq<byte>, t: nat)
    requires t <= |s|
    ensures (s + [GROUP_SEP])[..t] == s[..t]
    ensures (s + [GROUP_SEP])[..t + 1] == (s + [GROUP_SEP])[..t] + [(s + [GROUP_SEP])[t]]
    ensures (s + [NUL])[t] == if t < |s| then s[t] else NUL
    ensures (s + [GROUP_SEP])[t] == if t < |s| then s[t] else GROUP_SEP
  {
  }

  /** Groups grow as the split says: a ';' opens a new group, any other byte extends the open one. */
  lemma GroupsSnoc(u: seq<byte>, c: byte, closed: seq<seq<byte>>, cur: seq<byte>)
    requires Groups(u) == closed + [cur]
    ensures Groups(u + [c]) == if c == GROUP_SEP then closed + [cur] + [[]] else closed + [cur + [c]]
  {
    SplitSnoc(u, c, GROUP_SEP);
    assert (closed + [cur])[..|closed|] == closed;
  }

  /**
   * The loop of `filter_compose` over `s` and its terminator, into the
   * zero-filled allocations `dst` (large enough for the text and the zero
   * after it) and `buf` (`len * 3` bytes): afterwards `dst` holds
   * `Composed(s)`, and `total` is its length.
   */
  method ComposeScan(s: seq<byte>, dst: array<byte>, buf: array<byte>) returns (total: nat)
    requires NoNul(s) && dst != buf && buf.Length == 3 * (|s| + 1) && |Composed(s)| < dst.Length
    requires dst[..] == Zeros(dst.Length)
    modifies dst, buf
    ensures total == |Composed(s)| && dst[..] == Composed(s) + Zeros(dst.Length - total)
  {
    var len := |s| + 1;
    var src := s + [NUL];
    MemCpy(buf, 0, STAR_DOT);
    var b: nat := 2;
    var p: nat := 0;
    assert buf[..2] == GroupPattern([]);
    assert dst[..] == Joined(Pairs([])) + Zeros(dst.Length - p);
    assert (s + [GROUP_SEP])[..0] == [];
    ghost var closed: seq<seq<byte>> := [];
    ghost var cur: seq<byte> := [];
    var t := 0;
    while t < len
      invariant t <= len && Groups((s + [GROUP_SEP])[..t]) == closed + [cur] && b <= 2 + 3 * t
      invariant Composing(closed, cur, dst[..], p, buf[..], b)
    {
      p, b, closed, cur := ComposeStep(s, t, src[t], dst, buf, p, b, closed, cur);
      t := t + 1;
    }
    ScanEnd(s, closed, cur);
    total := p;
  }

  /** Once the terminator is scanned, the closed groups are the groups of `s`. */
  lemma ScanEnd(s: seq<byte>, closed: seq<seq<byte>>, cur: seq<byte>)
    requires Groups((s + [GROUP_SEP])[..|s| + 1]) == closed + [cur]
    ensures closed == Groups(s)
  {
    assert (s + [GROUP_SEP])[..|s| + 1] == s + [GROUP_SEP];
    SplitSnoc(s, GROUP_SEP, GROUP_SEP);
    assert (Groups(s) + [[]])[..|Groups(s)|] == Groups(s);
    assert (closed + [cur])[..|closed|] == closed;
  }

  /**
   * `filter_compose` with a destination of `size` bytes: nothing for a
   * null list; nothing (and a null destination) when either allocation
   * fails; otherwise the text for the list, zeros after it, and its length.
   */
  method ComposeInto(src: Option<seq<byte>>, size: nat, dstAllocOk: bool, bufAllocOk: bool)
    returns (total: nat, dst: Option<seq<byte>>)
    requires src.Some? ==> NoNul(src.value) && |Composed(src.value)| < size
    ensures src.None? || !dstAllocOk || !bufAllocOk ==> total == 0 && dst.None?
    ensures src.Some? && dstAllocOk && bufAllocOk ==>
      && total == |Composed(src.value)| && dst.Some? && |dst.value| == size
      && total < |dst.value| && dst.value == Composed(src.value) + Zeros(|dst.value| - total)
  {
    total, dst := 0, None;
    if src.None? {
      return;
    }
    var s := src.value;
    if !dstAllocOk {
      return;
    }
    var out := new byte[size](_ => NUL);
    if !bufAllocOk {
      return;
    }
    var buf := new byte[3 * (|s| + 1)](_ => NUL);
    assert out[..] == Zeros(size);
    total := ComposeScan(s, out, buf);
    dst := Some(out[..]);
  }

  /**
   * `filter_compose` as written: the destination is `len * 4` bytes, which
   * holds the text only when it fits (`FilterComposeOverflows` shows a list
   * for which it does not).
   */
  method FilterComposeAsWritten(src: Option<seq<byte>>, dstAllocOk: bool, bufAllocOk: bool)
    returns (total: nat, dst: Option<seq<byte>>)
    requires src.Some? ==> NoNul(src.value) && |Composed(src.value)| < 4 * (|src.value| + 1)
    ensures src.None? || !dstAllocOk || !bufAllocOk ==> total == 0 && dst.None?
    ensures src.Some? && dstAllocOk && bufAllocOk ==>
      && total == |Composed(src.value)| && dst.Some? && |dst.value| == 4 * (|src.value| + 1)
      && total < |dst.value| && dst.value == Composed(src.value) + Zeros(|dst.value| - total)
  {
    var size := if src.Some? then 4 * (|src.value| + 1) else 0;
    total, dst := ComposeInto(src, size, dstAllocOk, bufAllocOk);
  }

  /** `filter_compose` with the destination sized `len * 6 + 1`, which holds the text for every list. */
  method FilterCompose(src: Option<seq<byte>>, dstAllocOk: bool, bufAllocOk: bool)
    returns (total: nat, dst: Option<seq<byte>>)
    requires src.Some? ==> NoNul(src.value)
    ensures src.None? || !dstAllocOk || !bufAllocOk ==> total == 0 && dst.None?
    ensures src.Some? && dstAllocOk && bufAllocOk ==>
      && total == |Composed(src.value)| && dst.Some? && |dst.value| == 6 * (|src.value| + 1) + 1
      && total < |dst.value| && dst.value == Composed(src.value) + Zeros(|dst.value| - total)
  {
    var size := 0;
    if src.Some? {
      ComposedFits(src.value);
      size := 6 * (|src.value| + 1) + 1;
    }
    total, dst := ComposeInto(src, size, dstAllocOk, bufAllocOk);
  }

  /** The text written for a list is never empty: at least one pair of `"*."` patterns. */
  lemma ComposedNonEmpty(s: seq<byte>)
    ensures 6 <= |Composed(s)|
  {
    var gs := Groups(s);
    assert gs == gs[..|gs| - 1] + [gs[|gs| - 1]];
    PairsSnoc(gs[..|gs| - 1], gs[|gs| - 1]);
  }

  // ----- legacy_function -----

  const ALLOCATION_ERROR: seq<byte> := " allocation error"
  const COMPOSE_ERROR: seq<byte> := "filter_compose() memory" + ALLOCATION_ERROR
  const WIDE_FILTER_ERROR: seq<byte> := "nfd_to_wchar(filter) memory" + ALLOCATION_ERROR
  const WIDE_DIR_ERROR: seq<byte> := "nfd_to_wchar(defaultPath)" + ALLOCATION_ERROR
  const NARROW_RESULT_ERROR: seq<byte> := "wchar_to_nfd(ofn.lpstrFile)" + ALLOCATION_ERROR

  /**
   * What the allocations of one call do, each succeeding or failing as its
   * flag says: the two buffers of `filter_compose`, the wide copies of the
   * filter and of the default path, and the copy of the dialog's result.
   */
  datatype Allocs = Allocs(composeDst: bool, composeBuf: bool, wideFilter: bool, wideDir: bool, narrowResult: bool)

  /**
   * `nfd_to_wchar(str, len)`: the first `len` characters and the one after
   * them, or a null pointer when `len` is 0 or the allocation fails.
   */
  function NfdToWchar(str: seq<byte>, len: nat, allocOk: bool): (w: Option<seq<byte>>)
    requires len < |str|
    ensures w.Some? <==> len != 0 && allocOk
    ensures w.Some? ==> w.value <= str && |w.value| == len + 1
  {
    if len == 0 || !allocOk then None else Some(str[..len + 1])
  }

  /** `wchar_to_nfd(src, count)`: the first `count` characters, or a null pointer when the allocation fails. */
  function WcharToNfd(src: seq<byte>, count: nat, allocOk: bool): (r: Option<seq<byte>>)
    requires count <= |src|
    ensures r.Some? <==> allocOk
    ensures r.Some? ==> r.value <= src && |r.value| == count
  {
    if allocOk then Some(src[..count]) else None
  }

  /** The filter the dialog receives: the composed pairs and the zero that ends the list, or a null pointer when no list is given. */
  function LegacyFilter(filterList: Option<seq<byte>>): Option<seq<byte>>
  {
    if Given(filterList) then Some(Composed(filterList.value) + [NUL]) else None
  }

  /** Every allocation before the dialog succeeds, so the dialog is shown. */
  predicate LegacyPrepared(filterList: Option<seq<byte>>, defaultPath: Option<seq<byte>>, allocs: Allocs)
  {
    && (Given(filterList) ==> allocs.composeDst && allocs.composeBuf && allocs.wideFilter)
    && (Given(defaultPath) ==> allocs.wideDir)
  }

  /** The message of the first allocation before the dialog that fails, if one does. */
  function PrepareError(filterList: Option<seq<byte>>, defaultPath: Option<seq<byte>>, allocs: Allocs): (m: Option<seq<byte>>)
    ensures m.None? <==> LegacyPrepared(filterList, defaultPath, allocs)
  {
    if Given(filterList) && !(allocs.composeDst && allocs.composeBuf) then Some(COMPOSE_ERROR)
    else if Given(filterList) && !allocs.wideFilter then Some(WIDE_FILTER_ERROR)
    else if Given(defaultPath) && !allocs.wideDir then Some(WIDE_DIR_ERROR)
    else None
  }

  /**
   * `legacy_function`. `dialog` is what `GetOpenFileName` or
   * `GetSaveFileName` leaves in its buffer (`None`: it returned zero), a
   * list of strings `parts` ending in a double NUL; `request` is the dialog
   * asked for (`None`: not shown) and `message` what goes to
   * `NFDi_SetError`. The result handed back is everything up to and
   * including the double NUL.
   */
  method LegacyFunction(filterList: Option<seq<byte>>, defaultPath: Option<seq<byte>>, mode: Mode, allocs: Allocs,
                        dialog: Option<seq<byte>>, ghost parts: seq<seq<byte>>)
    returns (result: NfdResult, outPath: Option<seq<byte>>, request: Option<DialogRequest>, message: Option<seq<byte>>)
    requires filterList.Some? ==> NoNul(filterList.value)
    requires dialog.Some? ==> |parts| >= 1 && ListAt(parts, dialog.value)
    ensures request.Some? <==> LegacyPrepared(filterList, defaultPath, allocs)
    ensures request.Some? ==> request.value == Request(mode, LegacyFilter(filterList), DialogDir(defaultPath))
    ensures request.None? ==> result == Error && outPath.None? && message == PrepareError(filterList, defaultPath, allocs)
    ensures request.Some? && dialog.None? ==> result == Cancel && outPath.None? && message.None?
    ensures request.Some? && dialog.Some? ==>
      if allocs.narrowResult then result == Okay && outPath == Some(Joined(parts) + [NUL]) && message.None?
      else result == Error && outPath.None? && message == Some(NARROW_RESULT_ERROR)
  {
    result, outPath, request, message := Error, None, None, None;
    var wfilter: Option<seq<byte>> := None;
    if filterList.Some? && filterList.value != [] {
      var total, filter := FilterCompose(filterList, allocs.composeDst, allocs.composeBuf);
      if filter.None? {
        message := Some(COMPOSE_ERROR);
        return;
      }
      ComposedNonEmpty(filterList.value);
      wfilter := NfdToWchar(filter.value, total, allocs.wideFilter);
      if wfilter.None? {
        message := Some(WIDE_FILTER_ERROR);
        return;
      }
      assert wfilter.value == Composed(filterList.value) + [NUL] by {
        assert filter.value[..total + 1] == wfilter.value;
      }
    }
    var wdefault: Option<seq<byte>> := None;
    if defaultPath.Some? && defaultPath.value != [] {
      var path := defaultPath.value;
      var w := NfdToWchar(path + [NUL], |path|, allocs.wideDir);
      if w.None? {
        message := Some(WIDE_DIR_ERROR);
        return;
      }
      // the wide copy holds the path and its terminator
      wdefault := Some(w.value[..|path|]);
      assert wdefault.value == path by { assert w.value == path + [NUL]; }
    }
    request := Some(Request(mode, wfilter, wdefault));
    if dialog.None? {
      result := Cancel;
      return;
    }
    var n := WcharLenMulti(dialog.value, parts);
    outPath := WcharToNfd(dialog.value, n, allocs.narrowResult);
    if outPath.None? {
      message := Some(NARROW_RESULT_ERROR);
      return;
    }
    result := Okay;
  }

  /** For `Open` and `Save` the result read as a C string is the first string the dialog wrote: the chosen path. */
  lemma SinglePath(parts: seq<seq<byte>>, buffer: seq<byte>)
    requires |parts| >= 1 && ListAt(parts, buffer)
    ensures NUL in Joined(parts) + [NUL] && CStr(Joined(parts) + [NUL]) == parts[0]
  {
    var str := Joined(parts) + [NUL];
    assert ListAt(parts, str);
    assert parts[..0] == [];
    StringInside(parts, str, 0, Joined(parts), 0, parts[0]);
    assert str[0..] == str;
  }

  // ----- NFD_PickFolder -----

  const BROWSE_ERROR: seq<byte> := "SHGetPathFromIDList error"
  const FOLDER_COPY_ERROR: seq<byte> := "wchar_to_nfd(wbuf)" + ALLOCATION_ERROR

  /**
   * `NFD_PickFolder`. `chosen` is whether `SHBrowseForFolder` returns an
   * item, `folder` the path `SHGetPathFromIDList` gives for it (`None`: it
   * fails), `allocOk` whether the copy of the path is allocated. The
   * default path is not used. `outPath` is `None` when nothing is stored.
   */
  method PickFolder(defaultPath: Option<seq<byte>>, chosen: bool, folder: Option<seq<byte>>, allocOk: bool)
    returns (result: NfdResult, outPath: Option<seq<byte>>, message: Option<seq<byte>>)
    requires folder.Some? ==> NoNul(folder.value)
    ensures !chosen ==> result == Cancel && outPath.None? && message.None?
    ensures chosen && folder.None? ==> result == Error && outPath.None? && message == Some(BROWSE_ERROR)
    ensures chosen && folder.Some? && !allocOk ==> result == Error && outPath.None? && message == Some(FOLDER_COPY_ERROR)
    ensures chosen && folder.Some? && allocOk ==>
      result == Okay && message.None? && outPath.Some? && NUL in outPath.value && CStr(outPath.value) == folder.value
  {
    outPath, message := None, None;
    if !chosen {
      return Cancel, outPath, message;
    }
    if folder.None? {
      return Error, outPath, Some(BROWSE_ERROR);
    }
    var wbuf := folder.value + [NUL];
    CStrOfTerminated(folder.value, []);
    assert folder.value + [NUL] + [] == wbuf;
    outPath := WcharToNfd(wbuf, Strlen(wbuf) + 1, allocOk);
    if outPath.None? {
      return Error, outPath, Some(FOLDER_COPY_ERROR);
    }
    assert outPath.value == wbuf;
    return Okay, outPath, message;
  }

  // ----- NFD_OpenDialogMultiple -----

  /**
   * The first loop of `NFD_OpenDialogMultiple` over the dialog's list
   * `parts` (the directory, then the file names): the number of files and
   * the bytes their joined paths take.
   */
  method CountFiles(t: seq<byte>, ghost parts: seq<seq<byte>>) returns (count: nat, sz: nat)
    requires |parts| >= 1 && ListAt(parts, t)
    ensures count == |parts| - 1
    ensures sz == TotalSize(DirFiles(parts[0], parts[1..]))
  {
    ghost var paths := DirFiles(parts[0], parts[1..]);
    CountStart(parts, t);
    var dirSz := Strlen(t);
    var p := dirSz + 1;
    count, sz := 0, 0;
    while t[p] != NUL
      invariant count < |parts| && p == Offset(parts, count + 1) < |t|
      invariant sz == TotalSize(paths[..count])
      decreases |parts| - count
    {
      CountStep(parts, t, count, p, dirSz);
      var len := Strlen(t[p..]);
      sz := sz + dirSz + len + 1 + 1;
      p := p + len + 1;
      count := count + 1;
    }
    CountEnd(parts, t, count, p, paths);
  }

  /** The list starts with the directory, and the first file (or the closing NUL) follows its NUL. */
  lemma CountStart(parts: seq<seq<byte>>, t: seq<byte>)
    requires |parts| >= 1 && ListAt(parts, t)
    ensures NUL in t && Strlen(t) == |parts[0]| && Offset(parts, 1) == Strlen(t) + 1 < |t|
  {
    assert parts[..0] == [];
    StringAt(parts, t, 0);
    assert t[0..] == t;
    StringAt(parts, t, 1);
  }

  /** A NUL where a file would start ends the list: every file is counted. */
  lemma CountEnd(parts: seq<seq<byte>>, t: seq<byte>, count: nat, p: nat, paths: seq<seq<byte>>)
    requires |parts| >= 1 && ListAt(parts, t) && count < |parts| && p == Offset(parts, count + 1) < |t| && t[p] == NUL
    requires paths == DirFiles(parts[0], parts[1..])
    ensures count == |parts| - 1 && paths[..count] == paths
  {
    StringAt(parts, t, count + 1);
  }

  /** A further string in the list is file `count`: its length, where the next string starts, and the bytes its joined path adds. */
  lemma CountStep(parts: seq<seq<byte>>, t: seq<byte>, count: nat, p: nat, dirSz: nat)
    requires |parts| >= 1 && ListAt(parts, t) && count < |parts| && p == Offset(parts, count + 1) < |t|
    requires t[p] != NUL && dirSz == |parts[0]|
    ensures count + 2 <= |parts| && NUL in t[p..]
    ensures Offset(parts, count + 2) == p + Strlen(t[p..]) + 1 < |t|
    ensures TotalSize(DirFiles(parts[0], parts[1..])[..count + 1])
      == TotalSize(DirFiles(parts[0], parts[1..])[..count]) + dirSz + Strlen(t[p..]) + 2
  {
    StringAt(parts, t, count + 1);
    StringAt(parts, t, count + 2);
    DirFilesStep(parts[0], parts[1..], count);
  }

  /**
   * One path of the set (lines 243-249): the directory, a backslash, the
   * file name and a NUL, written at `k` (the source's two copies and two
   * byte stores, as one copy); nothing else changes.
   */
  method PutPath(buf: array<byte>, k: nat, dir: seq<byte>, file: seq<byte>, ghost path: seq<byte>)
    requires path == dir + [BACKSLASH] + file && k + |path| + 1 <= buf.Length
    modifies buf
    ensures buf[..] == old(buf[..k]) + (path + [NUL]) + old(buf[k + |path| + 1..])
  {
    MemCpy(buf, k, dir + [BACKSLASH] + file + [NUL]);
  }

  /**
   * The second loop of `NFD_OpenDialogMultiple`: each file's path is joined
   * to the directory and packed into `buf`, and its offset recorded. The
   * early exit on a second NUL is never taken, since `indices` has one
   * slot per file.
   */
  method FillPaths(t: seq<byte>, ghost parts: seq<seq<byte>>, buf: array<byte>, indices: array<nat>)
    requires |parts| >= 2 && ListAt(parts, t)
    requires buf.Length == TotalSize(DirFiles(parts[0], parts[1..])) && indices.Length == |parts| - 1
    modifies buf, indices
    ensures buf[..] == Joined(DirFiles(parts[0], parts[1..])) && indices[..] == Offsets(DirFiles(parts[0], parts[1..]))
  {
    ghost var paths := DirFiles(parts[0], parts[1..]);
    assert parts[..0] == [];
    StringAt(parts, t, 0);
    assert t[0..] == t;
    var dirSz := Strlen(t);
    assert t[..dirSz] == parts[0] by { assert t[0..0 + |parts[0]|] == t[..dirSz]; }
    var i := 0;
    var k := 0;
    var p := 0;
    assert parts[..0] == [];
    while i < indices.Length
      invariant i <= indices.Length && p == Offset(parts, i) && k == TotalSize(paths[..i]) <= buf.Length
      invariant buf[..k] == Joined(paths[..i])
      invariant indices[..i] == Offsets(paths)[..i]
    {
      p, k := FillStep(t, parts, buf, indices, i, p, k, dirSz, paths);
      i := i + 1;
    }
    assert paths[..i] == paths;
    assert buf[..] == buf[..k];
    assert indices[..] == indices[..i];
  }

  /**
   * One round of the second loop: skip to the next string, which is a
   * file name since file `i` exists, and write path `i` and its offset.
   */
  method FillStep(t: seq<byte>, ghost parts: seq<seq<byte>>, buf: array<byte>, indices: array<nat>,
                  i: nat, p: nat, k: nat, dirSz: nat, ghost paths: seq<seq<byte>>)
    returns (p': nat, k': nat)
    requires ListAt(parts, t) && |parts| >= 2 && paths == DirFiles(parts[0], parts[1..])
    requires dirSz <= |t| && t[..dirSz] == parts[0]
    requires buf.Length == TotalSize(paths) && indices.Length == |parts| - 1
    requires i < indices.Length && p == Offset(parts, i) && k == TotalSize(paths[..i]) <= buf.Length
    requires buf[..k] == Joined(paths[..i]) && indices[..i] == Offsets(paths)[..i]
    modifies buf, indices
    ensures p' == Offset(parts, i + 1) && k' == TotalSize(paths[..i + 1]) <= buf.Length
    ensures buf[..k'] == Joined(paths[..i + 1]) && indices[..i + 1] == Offsets(paths)[..i + 1]
  {
    NextString(parts, t, i, p);
    p' := p + Strlen(t[p..]) + 1;
    FileAt(parts, t, i, p', dirSz, paths);
    if t[p'] == NUL {
      assert false;
      return;
    }
    var len := Strlen(t[p'..]);
    var dir, file := t[..dirSz], t[p'..p' + len];
    k' := PutSlot(buf, indices, i, k, dir, file, paths);
  }

  /** Path `i` goes into `buf` after the first `i`, and its offset into `indices[i]`. */
  method PutSlot(buf: array<byte>, indices: array<nat>, i: nat, k: nat, dir: seq<byte>, file: seq<byte>, ghost paths: seq<seq<byte>>)
    returns (k': nat)
    requires buf != indices as object
    requires i < |paths| == indices.Length && buf.Length == TotalSize(paths) && paths[i] == dir + [BACKSLASH] + file
    requires k == TotalSize(paths[..i]) <= buf.Length && buf[..k] == Joined(paths[..i]) && indices[..i] == Offsets(paths)[..i]
    modifies buf, indices
    ensures k' == TotalSize(paths[..i + 1]) <= buf.Length
    ensures buf[..k'] == Joined(paths[..i + 1]) && indices[..i + 1] == Offsets(paths)[..i + 1]
  {
    indices[i] := k;
    PackNext(paths, i);
    ghost var before := buf[..];
    PutPath(buf, k, dir, file, paths[i]);
    CopiedPrefix(before, buf[..], k, paths[i] + [NUL]);
    OffsetsSnoc(paths, i);
    assert indices[..i + 1] == indices[..i] + [k];
    k' := k + |dir| + 1 + |file| + 1;
  }

  /** String `i` of the list is measured, and the next one starts after its NUL. */
  lemma NextString(parts: seq<seq<byte>>, t: seq<byte>, i: nat, p: nat)
    requires ListAt(parts, t) && i < |parts| && p == Offset(parts, i)
    ensures p < |t| && NUL in t[p..] && Offset(parts, i + 1) == p + Strlen(t[p..]) + 1
  {
    StringAt(parts, t, i);
  }

  /** The string at the offset of file `i` is that file's name. */
  lemma FileAt(parts: seq<seq<byte>>, t: seq<byte>, i: nat, p: nat, dirSz: nat, paths: seq<seq<byte>>)
    requires ListAt(parts, t) && i < |parts| - 1 && p == Offset(parts, i + 1)
    requires dirSz <= |t| && t[..dirSz] == parts[0] && paths == DirFiles(parts[0], parts[1..])
    ensures p < |t| && t[p] != NUL && NUL in t[p..] && Strlen(t[p..]) == |parts[i + 1]|
    ensures p + Strlen(t[p..]) <= |t| && paths[i] == t[..dirSz] + [BACKSLASH] + t[p..p + Strlen(t[p..])]
  {
    StringInside(parts, t, i + 1, Joined(parts), p, parts[i + 1]);
    SlotPath(parts, t, i, p, Strlen(t[p..]), dirSz, paths);
  }

  /** The directory and the name read from the list make path `i`. */
  lemma SlotPath(parts: seq<seq<byte>>, t: seq<byte>, i: nat, p: nat, len: nat, dirSz: nat, paths: seq<seq<byte>>)
    requires i < |parts| - 1 && paths == DirFiles(parts[0], parts[1..])
    requires dirSz <= |t| && t[..dirSz] == parts[0]
    requires p + len <= |t| && len == |parts[i + 1]| && t[p..p + len] == parts[i + 1]
    ensures paths[i] == t[..dirSz] + [BACKSLASH] + t[p..p + len]
  {
    DirFilesAt(parts, i, paths);
  }

  /** Path `i` of a multiple selection is the directory, a backslash and file `i + 1` of the list. */
  lemma DirFilesAt(parts: seq<seq<byte>>, i: nat, paths: seq<seq<byte>>)
    requires i < |parts| - 1 && paths == DirFiles(parts[0], parts[1..])
    ensures paths[i] == parts[0] + [BACKSLASH] + parts[i + 1]
  {
    assert parts[1..][i] == parts[i + 1];
  }

  /**
   * `NFD_OpenDialogMultiple`. When the dialog returns a single string, it
   * is the full path of the one file chosen and becomes the set's buffer;
   * otherwise the first string is the directory and each further string a
   * file in it. `ps0` is the caller's path set, untouched unless the result
   * is `Okay`.
   */
  method OpenDialogMultiple(filterList: Option<seq<byte>>, defaultPath: Option<seq<byte>>, allocs: Allocs,
                            dialog: Option<seq<byte>>, ghost parts: seq<seq<byte>>, ps0: PathSet)
    returns (result: NfdResult, ps: PathSet, request: Option<DialogRequest>, message: Option<seq<byte>>)
    requires filterList.Some? ==> NoNul(filterList.value)
    requires dialog.Some? ==> |parts| >= 1 && ListAt(parts, dialog.value)
    ensures request.Some? <==> LegacyPrepared(filterList, defaultPath, allocs)
    ensures request.Some? ==> request.value == Request(Multi, LegacyFilter(filterList), DialogDir(defaultPath))
    ensures result == Okay <==> request.Some? && dialog.Some? && allocs.narrowResult
    ensures result != Okay ==> ps == ps0
    ensures result == Okay && |parts| == 1 ==> ps == PathSet(Some(Joined(parts) + [NUL]), Some([0]), 1)
    ensures result == Okay && |parts| > 1 ==> ps == Pack(DirFiles(parts[0], parts[1..]))
  {
    var t;
    result, t, request, message := LegacyFunction(filterList, defaultPath, Multi, allocs, dialog, parts);
    ps := ps0;
    if result != Okay {
      return;
    }
    var list := t.value;
    assert ListAt(parts, list);
    var count, sz := CountFiles(list, parts);
    if count == 0 {
      ps := PathSet(Some(list), Some([0]), 1);
      return;
    }
    var buf := new byte[sz](_ => NUL);
    var indices := new nat[count](_ => 0);
    FillPaths(list, parts, buf, indices);
    ps := PathSet(Some(buf[..]), Some(indices[..]), count);
  }

  /** A single chosen file reads back as its full path. */
  lemma SingleSelectionRecovered(parts: seq<seq<byte>>, buffer: seq<byte>)
    requires |parts| == 1 && ListAt(parts, buffer)
    ensures CanGetPath(PathSet(Some(Joined(parts) + [NUL]), Some([0]), 1), 0)
    ensures GetPath(PathSet(Some(Joined(parts) + [NUL]), Some([0]), 1), 0) == parts[0]
  {
    SinglePath(parts, buffer);
    assert (Joined(parts) + [NUL])[0..] == Joined(parts) + [NUL];
  }
}
