/**
 * The GTK backend's filter translation: `AddTypeToFilterName` and the
 * character scan of `AddFiltersToDialog`. Each ';'-group becomes one
 * `GtkFileFilter` with a pattern `*.ext` per extension and a ", "-joined
 * name; a wildcard filter always comes last.
 */
module GtkFilter {
  import opened Bytes
  import opened Wrappers
  import opened FilterList
  import Common

  /** `size_t` subtraction, which wraps modulo 2^64. */
  function SizeSub(a: nat, b: nat): (r: nat)
    ensures r < WORD_MODULUS
    ensures b <= a < WORD_MODULUS ==> r == a - b
  {
    (a - b) % WORD_MODULUS
  }

  /** `strncat` of two C strings' contents: at most `n` bytes of `src` are appended. */
  function StrnCat(dst: seq<byte>, src: seq<byte>, n: nat): (r: seq<byte>)
    ensures r == dst + src[..Common.Min(|src|, n)]
  {
    dst + src[..Common.Min(|src|, n)]
  }

  const SEP: seq<byte> := ", "

  /** The name the source means to build: the old name, ", " and the new type. */
  function Appended(name: seq<byte>, typebuf: seq<byte>): seq<byte>
  {
    if name == [] then typebuf else name + SEP + typebuf
  }

  /**
   * `AddTypeToFilterName` as written: after a truncated `", "` the count
   * `len` is still advanced by the full 2, so `bufsize - len - 1` can wrap
   * around and the last `strncat` is then unbounded.
   */
  function AddTypeToFilterNameAsWritten(typebuf: seq<byte>, name: seq<byte>, bufsize: nat): (r: seq<byte>)
    requires |name| < bufsize < WORD_MODULUS
    ensures |Appended(name, typebuf)| < bufsize ==> r == Appended(name, typebuf)
  {
    var len := |name|;
    var name1 := if len != 0 then StrnCat(name, SEP, SizeSub(bufsize, len + 1)) else name;
    var len1 := if len != 0 then len + |SEP| else len;
    StrnCat(name1, typebuf, SizeSub(bufsize, len1 + 1))
  }

  /** A name of 254 bytes followed by one more type overruns a 256-byte buffer. */
  lemma AddTypeToFilterNameOverflows()
    ensures var name: seq<byte> := seq(254, _ => 'a');
      |AddTypeToFilterNameAsWritten("b", name, Common.NFD_MAX_STRLEN)| + 1 > Common.NFD_MAX_STRLEN
  {
    var name: seq<byte> := seq(254, _ => 'a');
    var name1 := StrnCat(name, SEP, SizeSub(256, 255));
    assert |name1| == 255;
    assert SizeSub(256, 257) == WORD_MODULUS - 1;
    assert AddTypeToFilterNameAsWritten("b", name, 256) == name1 + "b";
  }

  /**
   * `AddTypeToFilterName` with `len` taken from the name as it stands after
   * the separator: the name is the intended one, cut to fit the buffer.
   */
  function AddTypeToFilterName(typebuf: seq<byte>, name: seq<byte>, bufsize: nat): (r: seq<byte>)
    requires |name| < bufsize
    ensures |r| < bufsize
    ensures r <= Appended(name, typebuf)
    ensures |Appended(name, typebuf)| < bufsize ==> r == Appended(name, typebuf)
    ensures name <= r
  {
    var name1 := if |name| != 0 then StrnCat(name, SEP, bufsize - |name| - 1) else name;
    assert name1 <= Appended(name, typebuf);
    StrnCat(name1, typebuf, bufsize - |name1| - 1)
  }

  /** A filter as handed to GTK: its display name and its glob patterns. */
  datatype Filter = Filter(name: seq<byte>, patterns: seq<seq<byte>>)

  /** The filter appended after all groups. */
  const WILDCARD: Filter := Filter("*.*", ["*"])

  /** `snprintf(typebufWildcard, NFD_MAX_STRLEN, "*.%s", typebuf)`. */
  function Pattern(ext: seq<byte>): (p: seq<byte>)
    ensures |p| < Common.NFD_MAX_STRLEN
    ensures |ext| < Common.NFD_MAX_STRLEN - 2 ==> p == "*." + ext
    ensures p <= "*." + ext
  {
    var full := "*." + ext;
    full[..Common.Min(|full|, Common.NFD_MAX_STRLEN - 1)]
  }

  /** The patterns of a group with extensions `es`, in order. */
  function Patterns(es: seq<seq<byte>>): (ps: seq<seq<byte>>)
    ensures |ps| == |es|
    decreases |es|
  {
    if es == [] then [] else Patterns(es[..|es| - 1]) + [Pattern(es[|es| - 1])]
  }

  /** The name of a group with extensions `es`, built one type at a time. */
  function FilterName(es: seq<seq<byte>>): (name: seq<byte>)
    ensures |name| < Common.NFD_MAX_STRLEN
    decreases |es|
  {
    if es == [] then []
    else AddTypeToFilterName(es[|es| - 1], FilterName(es[..|es| - 1]), Common.NFD_MAX_STRLEN)
  }

  /** The filter of one group. */
  function GroupFilter(g: seq<byte>): Filter
  {
    Filter(FilterName(Extensions(g)), Patterns(Extensions(g)))
  }

  /** The filters of the groups `gs`, in order. */
  function GroupFilters(gs: seq<seq<byte>>): (fs: seq<Filter>)
    ensures |fs| == |gs|
    decreases |gs|
  {
    if gs == [] then [] else GroupFilters(gs[..|gs| - 1]) + [GroupFilter(gs[|gs| - 1])]
  }

  /** What `AddFiltersToDialog` adds for the C string `filterList` (`None` is NULL). */
  function Translation(filterList: Option<seq<byte>>): seq<Filter>
    requires filterList.Some? ==> NUL in filterList.value
  {
    if filterList.None? || CStr(filterList.value) == [] then []
    else GroupFilters(Groups(CStr(filterList.value))) + [WILDCARD]
  }

  /** The i-th pattern is the pattern of the i-th extension. */
  lemma {:induction false} PatternsAt(es: seq<seq<byte>>, j: nat)
    requires j < |es|
    ensures Patterns(es)[j] == Pattern(es[j])
    decreases |es|
  {
    if j < |es| - 1 {
      PatternsAt(es[..|es| - 1], j);
    }
  }

  /** The i-th filter is the filter of the i-th group. */
  lemma {:induction false} GroupFiltersAt(gs: seq<seq<byte>>, i: nat)
    requires i < |gs|
    ensures GroupFilters(gs)[i] == GroupFilter(gs[i])
    decreases |gs|
  {
    if i < |gs| - 1 {
      GroupFiltersAt(gs[..|gs| - 1], i);
    }
  }

  /**
   * A name that fits is the extensions joined by ", ", in order, when no
   * extension is empty.
   */
  lemma {:induction false} FilterNameJoins(es: seq<seq<byte>>)
    requires |es| >= 1 && forall j :: 0 <= j < |es| ==> es[j] != []
    requires |JoinWith(es, SEP)| < Common.NFD_MAX_STRLEN
    ensures FilterName(es) == JoinWith(es, SEP)
    decreases |es|
  {
    var init := es[..|es| - 1];
    if |es| == 1 {
      assert init == [];
      assert Appended([], es[0]) == es[0];
    } else {
      assert init[0] == es[0];
      FilterNameJoins(init);
      var j := JoinWith(init, SEP);
      assert |j| >= |init[0]| > 0 by {
        JoinWithPrefix(init, SEP);
      }
      assert Appended(j, es[|es| - 1]) == JoinWith(es, SEP);
    }
  }

  /** The first part starts the joined text. */
  lemma {:induction false} JoinWithPrefix(parts: seq<seq<byte>>, sep: seq<byte>)
    requires |parts| >= 1
    ensures parts[0] <= JoinWith(parts, sep)
    decreases |parts|
  {
    if |parts| > 1 {
      var init := parts[..|parts| - 1];
      assert init[0] == parts[0];
      JoinWithPrefix(init, sep);
    }
  }

  /**
   * The filters for a non-empty list: one per ';'-group, in order, each
   * with a pattern per extension, then the wildcard.
   */
  lemma TranslationShape(list: seq<byte>, i: nat, j: nat)
    requires NUL in list && CStr(list) != []
    ensures var gs := Groups(CStr(list));
      var fs := Translation(Some(list));
      && |fs| == |gs| + 1
      && fs[|gs|] == WILDCARD
      && (i < |gs| ==> fs[i] == GroupFilter(gs[i]))
      && (i < |gs| && j < |Extensions(gs[i])| ==> fs[i].patterns[j] == Pattern(Extensions(gs[i])[j]))
  {
    var gs := Groups(CStr(list));
    if i < |gs| {
      GroupFiltersAt(gs, i);
      if j < |Extensions(gs[i])| {
        PatternsAt(Extensions(gs[i]), j);
      }
    }
  }

  /** `typebuf` after scanning `t`: the bytes since the last ',' or ';'. */
  function TypeBuf(t: seq<byte>): (r: seq<byte>)
    ensures |r| <= |t|
    decreases |t|
  {
    if t == [] then []
    else if t[|t| - 1] == EXT_SEP || t[|t| - 1] == GROUP_SEP then []
    else TypeBuf(t[..|t| - 1]) + [t[|t| - 1]]
  }

  /**
   * The scan's assertions: at every ',', ';' and at the end, the extension
   * just read is non-empty and shorter than `NFD_MAX_STRLEN - 1`.
   */
  predicate ExtensionsFit(s: seq<byte>)
  {
    forall i {:trigger SegmentEnd(s, i)} :: 0 <= i <= |s| && SegmentEnd(s, i) ==> 0 < |TypeBuf(s[..i])| < Common.NFD_MAX_STRLEN - 1
  }

  /** `i` is where an extension of `s` ends: at a ',', a ';' or the end. */
  predicate SegmentEnd(s: seq<byte>, i: int)
  {
    0 <= i <= |s| && (i == |s| || s[i] == EXT_SEP || s[i] == GROUP_SEP)
  }

  /** Trailing and doubled separators leave an empty extension. */
  lemma EmptyExtensionsRejected()
    ensures !ExtensionsFit("txt;")
    ensures !ExtensionsFit("a,,b")
  {
    var t: seq<byte> := "txt;";
    assert t[..4] == t && TypeBuf(t) == [] && SegmentEnd(t, 4);
    var u: seq<byte> := "a,,b";
    assert u[2] == EXT_SEP && TypeBuf(u[..2]) == [] && SegmentEnd(u, 2);
  }

  /**
   * The scan state after the prefix `t`: `filters` holds the closed groups,
   * `patterns` and `name` the closed extensions of the open group, and
   * `typebuf` the extension being read.
   */
  ghost predicate Scanned(t: seq<byte>, filters: seq<Filter>, patterns: seq<seq<byte>>, name: seq<byte>, typebuf: seq<byte>)
  {
    var gs := Groups(t);
    var es := Extensions(gs[|gs| - 1]);
    && filters == GroupFilters(gs[..|gs| - 1])
    && patterns == Patterns(es[..|es| - 1])
    && name == FilterName(es[..|es| - 1])
    && typebuf == es[|es| - 1]
    && typebuf == TypeBuf(t)
  }

  /** Closing the extension being read, at a ',' or ';' or at the end. */
  lemma CloseExtension(es: seq<seq<byte>>, patterns: seq<seq<byte>>, name: seq<byte>)
    requires |es| >= 1 && patterns == Patterns(es[..|es| - 1]) && name == FilterName(es[..|es| - 1])
    ensures patterns + [Pattern(es[|es| - 1])] == Patterns(es)
    ensures AddTypeToFilterName(es[|es| - 1], name, Common.NFD_MAX_STRLEN) == FilterName(es)
  {
  }

  /** `Scanned`, from the groups and extensions of `t` named. */
  lemma ScannedFrom(t: seq<byte>, gs: seq<seq<byte>>, es: seq<seq<byte>>,
                    filters: seq<Filter>, patterns: seq<seq<byte>>, name: seq<byte>, typebuf: seq<byte>)
    requires gs == Groups(t) && es == Extensions(gs[|gs| - 1])
    requires filters == GroupFilters(gs[..|gs| - 1])
    requires patterns == Patterns(es[..|es| - 1]) && name == FilterName(es[..|es| - 1])
    requires typebuf == es[|es| - 1] && typebuf == TypeBuf(t)
    ensures Scanned(t, filters, patterns, name, typebuf)
  {
  }

  /** A byte other than ';' extends the last group. */
  lemma GroupsGrow(t: seq<byte>, c: byte, gs: seq<seq<byte>>, gs': seq<seq<byte>>)
    requires c != GROUP_SEP && gs == Groups(t) && gs' == gs[..|gs| - 1] + [gs[|gs| - 1] + [c]]
    ensures Groups(t + [c]) == gs'
    ensures gs'[..|gs'| - 1] == gs[..|gs| - 1] && gs'[|gs'| - 1] == gs[|gs| - 1] + [c]
  {
    SplitSnoc(t, c, GROUP_SEP);
  }

  /** A ',' starts a new, empty extension. */
  lemma ExtensionsOpen(g: seq<byte>, es: seq<seq<byte>>, es': seq<seq<byte>>)
    requires es == Extensions(g) && es' == es + [[]]
    ensures Extensions(g + [EXT_SEP]) == es'
    ensures es'[..|es'| - 1] == es && es'[|es'| - 1] == []
  {
    SplitSnoc(g, EXT_SEP, EXT_SEP);
  }

  /** Scanning a ',': the extension read is closed. */
  lemma ScanExtSep(t: seq<byte>, filters: seq<Filter>, patterns: seq<seq<byte>>, name: seq<byte>, typebuf: seq<byte>)
    requires Scanned(t, filters, patterns, name, typebuf)
    ensures Scanned(t + [EXT_SEP], filters, patterns + [Pattern(typebuf)], AddTypeToFilterName(typebuf, name, Common.NFD_MAX_STRLEN), [])
  {
    var gs := Groups(t);
    var g := gs[|gs| - 1];
    var es := Extensions(g);
    var gs' := gs[..|gs| - 1] + [g + [EXT_SEP]];
    GroupsGrow(t, EXT_SEP, gs, gs');
    var es' := es + [[]];
    ExtensionsOpen(g, es, es');
    CloseExtension(es, patterns, name);
    var u := t + [EXT_SEP];
    assert u[..|u| - 1] == t;
    assert TypeBuf(u) == [];
    ScannedFrom(u, gs', es', filters, patterns + [Pattern(typebuf)], AddTypeToFilterName(typebuf, name, Common.NFD_MAX_STRLEN), []);
  }

  /** A byte other than ',' extends the last extension. */
  lemma ExtensionsGrow(g: seq<byte>, c: byte, es: seq<seq<byte>>, es': seq<seq<byte>>)
    requires c != EXT_SEP && es == Extensions(g) && es' == es[..|es| - 1] + [es[|es| - 1] + [c]]
    ensures Extensions(g + [c]) == es'
    ensures es'[..|es'| - 1] == es[..|es| - 1] && es'[|es'| - 1] == es[|es| - 1] + [c]
  {
    SplitSnoc(g, c, EXT_SEP);
  }

  /** A ';' starts a new, empty group. */
  lemma GroupsOpen(t: seq<byte>, gs: seq<seq<byte>>, gs': seq<seq<byte>>)
    requires gs == Groups(t) && gs' == gs + [[]]
    ensures Groups(t + [GROUP_SEP]) == gs'
    ensures gs'[..|gs'| - 1] == gs && gs'[|gs'| - 1] == []
  {
    SplitSnoc(t, GROUP_SEP, GROUP_SEP);
  }

  /** Scanning a ';': the extension read and the group are closed. */
  lemma ScanGroupSep(t: seq<byte>, filters: seq<Filter>, patterns: seq<seq<byte>>, name: seq<byte>, typebuf: seq<byte>)
    requires Scanned(t, filters, patterns, name, typebuf)
    ensures Scanned(t + [GROUP_SEP], filters + [Filter(AddTypeToFilterName(typebuf, name, Common.NFD_MAX_STRLEN), patterns + [Pattern(typebuf)])], [], [], [])
  {
    var gs := Groups(t);
    var gs' := gs + [[]];
    GroupsOpen(t, gs, gs');
    ScanEnd(t, filters, patterns, name, typebuf);
    var es': seq<seq<byte>> := [[]];
    assert Extensions([]) == es';
    assert es'[..0] == [];
    var u := t + [GROUP_SEP];
    assert u[..|u| - 1] == t;
    assert TypeBuf(u) == [];
    ScannedFrom(u, gs', es', filters + [Filter(AddTypeToFilterName(typebuf, name, Common.NFD_MAX_STRLEN), patterns + [Pattern(typebuf)])], [], [], []);
  }

  /** Scanning any other byte but NUL: the extension read grows. */
  lemma ScanOther(t: seq<byte>, c: byte, filters: seq<Filter>, patterns: seq<seq<byte>>, name: seq<byte>, typebuf: seq<byte>)
    requires c != EXT_SEP && c != GROUP_SEP && Scanned(t, filters, patterns, name, typebuf)
    ensures Scanned(t + [c], filters, patterns, name, typebuf + [c])
  {
    var gs := Groups(t);
    var g := gs[|gs| - 1];
    var es := Extensions(g);
    var gs' := gs[..|gs| - 1] + [g + [c]];
    GroupsGrow(t, c, gs, gs');
    var es' := es[..|es| - 1] + [es[|es| - 1] + [c]];
    ExtensionsGrow(g, c, es, es');
    var u := t + [c];
    assert u[..|u| - 1] == t;
    assert TypeBuf(u) == typebuf + [c];
    ScannedFrom(u, gs', es', filters, patterns, name, typebuf + [c]);
  }

  /** Closing the open group at the terminating NUL. */
  lemma ScanEnd(t: seq<byte>, filters: seq<Filter>, patterns: seq<seq<byte>>, name: seq<byte>, typebuf: seq<byte>)
    requires Scanned(t, filters, patterns, name, typebuf)
    ensures filters + [Filter(AddTypeToFilterName(typebuf, name, Common.NFD_MAX_STRLEN), patterns + [Pattern(typebuf)])]
      == GroupFilters(Groups(t))
  {
    var gs := Groups(t);
    var es := Extensions(gs[|gs| - 1]);
    CloseExtension(es, patterns, name);
    LastFilter(gs, filters, Filter(AddTypeToFilterName(typebuf, name, Common.NFD_MAX_STRLEN), patterns + [Pattern(typebuf)]));
  }

  /** The filters of `gs` are those of all but its last group, then that group's. */
  lemma LastFilter(gs: seq<seq<byte>>, init: seq<Filter>, last: Filter)
    requires |gs| >= 1 && init == GroupFilters(gs[..|gs| - 1]) && last == GroupFilter(gs[|gs| - 1])
    ensures init + [last] == GroupFilters(gs)
  {
  }

  /** At a ',', a ';' or the end, the extension just read fits. */
  lemma FitAt(s: seq<byte>, i: nat)
    requires ExtensionsFit(s) && i <= |s| && (i == |s| || s[i] == EXT_SEP || s[i] == GROUP_SEP)
    ensures 0 < |TypeBuf(s[..i])| < Common.NFD_MAX_STRLEN - 1
  {
    assert SegmentEnd(s, i);
  }

  /** One byte of the scan, other than the terminating NUL. */
  lemma ScanStep(t: seq<byte>, c: byte, f0: seq<Filter>, p0: seq<seq<byte>>, n0: seq<byte>, b0: seq<byte>,
                 f1: seq<Filter>, p1: seq<seq<byte>>, n1: seq<byte>, b1: seq<byte>)
    requires c != NUL && Scanned(t, f0, p0, n0, b0)
    requires f1 == (if c == GROUP_SEP then f0 + [Filter(AddTypeToFilterName(b0, n0, Common.NFD_MAX_STRLEN), p0 + [Pattern(b0)])] else f0)
    requires p1 == (if c == EXT_SEP then p0 + [Pattern(b0)] else if c == GROUP_SEP then [] else p0)
    requires n1 == (if c == EXT_SEP then AddTypeToFilterName(b0, n0, Common.NFD_MAX_STRLEN) else if c == GROUP_SEP then [] else n0)
    requires b1 == (if c == EXT_SEP || c == GROUP_SEP then [] else b0 + [c])
    ensures Scanned(t + [c], f1, p1, n1, b1)
  {
    if c == EXT_SEP {
      ScanExtSep(t, f0, p0, n0, b0);
    } else if c == GROUP_SEP {
      ScanGroupSep(t, f0, p0, n0, b0);
    } else {
      ScanOther(t, c, f0, p0, n0, b0);
    }
  }

  /**
   * `AddFiltersToDialog`: the filters it adds to the dialog, in order. A
   * NULL or empty list adds none, not even the wildcard.
   */
  method AddFiltersToDialog(filterList: Option<seq<byte>>) returns (filters: seq<Filter>)
    requires filterList.Some? ==> NUL in filterList.value && ExtensionsFit(CStr(filterList.value))
    ensures filters == Translation(filterList)
  {
    if filterList.None? || Strlen(filterList.value) == 0 {
      return [];
    }
    var list := filterList.value;
    ghost var s := CStr(list);
    var typebuf: seq<byte> := [];
    var filterName: seq<byte> := [];
    var patterns: seq<seq<byte>> := [];
    filters := [];
    var i := 0;
    assert s[..0] == [];
    while true
      invariant i <= |s| && s == CStr(list)
      invariant Scanned(s[..i], filters, patterns, filterName, typebuf)
      decreases |s| - i
    {
      var done;
      filters, patterns, filterName, typebuf, done := ScanByte(list, s, i, filters, patterns, filterName, typebuf);
      if done {
        break;
      }
      i := i + 1;
    }
    filters := filters + [WILDCARD];
  }

  /**
   * One pass of the scan loop, over `list[i]`: close the extension at a
   * segment character, close the filter at a ';' or the terminator, or
   * else append the byte to the extension being read.
   */
  method ScanByte(list: seq<byte>, ghost s: seq<byte>, i: nat, filters: seq<Filter>, patterns: seq<seq<byte>>,
                  filterName: seq<byte>, typebuf: seq<byte>)
    returns (f1: seq<Filter>, p1: seq<seq<byte>>, n1: seq<byte>, b1: seq<byte>, done: bool)
    requires NUL in list && s == CStr(list) && ExtensionsFit(s) && i <= |s|
    requires Scanned(s[..i], filters, patterns, filterName, typebuf)
    ensures done <==> i == |s|
    ensures !done ==> Scanned(s[..i + 1], f1, p1, n1, b1)
    ensures done ==> f1 == GroupFilters(Groups(s))
  {
    var c := list[i];
    assert c == NUL <==> i == |s|;
    f1, p1, n1, b1 := filters, patterns, filterName, typebuf;
    if Common.IsFilterSegmentChar(c) {
      FitAt(s, i);
      p1 := p1 + [Pattern(b1)];
      n1 := AddTypeToFilterName(b1, n1, Common.NFD_MAX_STRLEN);
      b1 := [];
    }
    if c == GROUP_SEP || c == NUL {
      f1 := f1 + [Filter(n1, p1)];
      n1 := [];
      p1 := [];
    }
    if !Common.IsFilterSegmentChar(c) {
      b1 := b1 + [c];
    }
    done := c == NUL;
    if done {
      assert s[..i] == s;
      ScanEnd(s, filters, patterns, filterName, typebuf);
    } else {
      ScanStep(s[..i], c, filters, patterns, filterName, typebuf, f1, p1, n1, b1);
      TakeSnoc(s, i);
    }
  }
}
