/**
 * `ConvertNFDFilterList` of the Win32 XP backend: `"png,jpg;txt"` becomes
 * the `lpstrFilter` buffer `"*.png;*.jpg\0*.png;*.jpg\0*.txt\0*.txt\0\0"`,
 * pairs of (display name, pattern) strings closed by an empty string.
 * The source builds it in three passes: a group walk that writes
 * `"*.e;"` per extension into `result[1024]`, turns the last ';' of the
 * group into a tab and duplicates the group's text; one more tab; then a
 * rewrite of every tab to NUL in the copy.
 */
module WinXpFilter {
  import opened Bytes
  import opened Wrappers
  import opened FilterList

  const TAB: byte := '\t'

  /** The size of the source's `result` and `ext` buffers. */
  const FILTER_BUF := 1024

  /**
   * The extensions the walk over one group visits: every piece of
   * `Extensions(g)`, except that a leading empty piece is skipped (the
   * walk steps over a ',' it stands on before copying).
   */
  function WalkedExtensions(g: seq<byte>): seq<seq<byte>>
  {
    var es := Extensions(g);
    if es[0] == [] then es[1..] else es
  }

  /** What the walk writes for these extensions: `"*.e;"` for each. */
  function ExtPatterns(es: seq<seq<byte>>): seq<byte>
    decreases |es|
  {
    if es == [] then [] else ExtPatterns(es[..|es| - 1]) + STAR_DOT + es[|es| - 1] + SEMI
  }

  /** The group's Win32 pattern: `"*.e1;*.e2;...;*.en"`. */
  function PatternList(es: seq<seq<byte>>): seq<byte>
    requires |es| >= 1
    decreases |es|
  {
    if |es| == 1 then "*." + es[0] else PatternList(es[..|es| - 1]) + ";" + "*." + es[|es| - 1]
  }

  /** A group's contribution: its pattern and a tab, twice; nothing for an empty group. */
  function GroupText(g: seq<byte>): seq<byte>
  {
    var es := WalkedExtensions(g);
    if es == [] then [] else PatternList(es) + [TAB] + PatternList(es) + [TAB]
  }

  /** The contributions of the groups, in order. */
  function Body(gs: seq<seq<byte>>): seq<byte>
    decreases |gs|
  {
    if gs == [] then [] else Body(gs[..|gs| - 1]) + GroupText(gs[|gs| - 1])
  }

  /** The content of `result` before the tab rewrite. */
  function Converted(s: seq<byte>): seq<byte>
  {
    Body(Groups(s)) + [TAB]
  }

  /** Every tab replaced by a NUL. */
  function TabsToNul(s: seq<byte>): (r: seq<byte>)
    ensures |r| == |s|
    decreases |s|
  {
    if s == [] then []
    else TabsToNul(s[..|s| - 1]) + [if s[|s| - 1] == TAB then NUL else s[|s| - 1]]
  }

  /** One group's (display name, pattern) strings: the pattern twice; none for an empty group. */
  function GroupPairs(g: seq<byte>): seq<seq<byte>>
  {
    var es := WalkedExtensions(g);
    if es == [] then [] else [PatternList(es), PatternList(es)]
  }

  /** The (display name, pattern) strings of the Win32 filter, in order. */
  function FilterPairs(gs: seq<seq<byte>>): seq<seq<byte>>
    decreases |gs|
  {
    if gs == [] then [] else FilterPairs(gs[..|gs| - 1]) + GroupPairs(gs[|gs| - 1])
  }

  // ----- properties of the translation -----

  /**
   * The walk visits nothing exactly for an empty group; a leading ',' is
   * skipped; otherwise it visits every ','-piece.
   */
  lemma WalkedExtensionsShape(g: seq<byte>)
    ensures WalkedExtensions(g) == [] <==> g == []
    ensures g != [] && g[0] == EXT_SEP ==> WalkedExtensions(g) == Extensions(g[1..])
    ensures g != [] && g[0] != EXT_SEP ==> WalkedExtensions(g) == Extensions(g)
  {
    FirstPieceEmpty(g, EXT_SEP);
    if g != [] && g[0] == EXT_SEP {
      assert g == [EXT_SEP] + g[1..];
      SplitCons(g[1..], EXT_SEP);
    }
  }

  /** The walk's output is the pattern list with a ';' after it. */
  lemma {:induction false} ExtPatternsJoin(es: seq<seq<byte>>)
    requires |es| >= 1
    ensures ExtPatterns(es) == PatternList(es) + ";"
    decreases |es|
  {
    if |es| > 1 {
      ExtPatternsJoin(es[..|es| - 1]);
    } else {
      assert es[..0] == [];
    }
  }

  lemma {:induction false} TabsToNulConcat(a: seq<byte>, b: seq<byte>)
    ensures TabsToNul(a + b) == TabsToNul(a) + TabsToNul(b)
    decreases |b|
  {
    if b == [] {
      assert a + b == a;
    } else {
      var b0 := b[..|b| - 1];
      assert (a + b)[..|a + b| - 1] == a + b0;
      TabsToNulConcat(a, b0);
    }
  }

  /** Text without tabs is unchanged by the rewrite. */
  lemma {:induction false} TabsToNulKeeps(s: seq<byte>)
    requires TAB !in s
    ensures TabsToNul(s) == s
    decreases |s|
  {
    if s != [] {
      assert TAB !in s[..|s| - 1];
      TabsToNulKeeps(s[..|s| - 1]);
    }
  }

  lemma {:induction false} PatternListAvoids(es: seq<seq<byte>>, c: byte)
    requires |es| >= 1 && forall i :: 0 <= i < |es| ==> c !in es[i]
    requires c != '*' && c != '.' && c != ';'
    ensures c !in PatternList(es)
    decreases |es|
  {
    if |es| > 1 {
      PatternListAvoids(es[..|es| - 1], c);
    }
  }

  /** A group without NUL or tab gives NUL-free, tab-free pattern text. */
  lemma GroupPatternAvoids(g: seq<byte>, c: byte)
    requires c !in g && c != '*' && c != '.' && c != ';'
    ensures WalkedExtensions(g) != [] ==> c !in PatternList(WalkedExtensions(g))
  {
    SplitAvoids(g, EXT_SEP, c);
    var es := WalkedExtensions(g);
    if es != [] {
      PatternListAvoids(es, c);
    }
  }

  lemma {:induction false} BodyAvoids(gs: seq<seq<byte>>, c: byte)
    requires forall i :: 0 <= i < |gs| ==> c !in gs[i]
    requires c != '*' && c != '.' && c != ';' && c != TAB
    ensures c !in Body(gs)
    decreases |gs|
  {
    if gs != [] {
      BodyAvoids(gs[..|gs| - 1], c);
      GroupPatternAvoids(gs[|gs| - 1], c);
    }
  }

  /** A NUL-free filter list converts to NUL-free text, so the tab rewrite reaches its end. */
  lemma ConvertedAvoidsNul(s: seq<byte>)
    requires NUL !in s
    ensures NUL !in Converted(s)
  {
    SplitAvoids(s, GROUP_SEP, NUL);
    BodyAvoids(Groups(s), NUL);
  }

  /** A tab-free string and its closing tab rewrite to the string and a NUL. */
  lemma TabClosed(p: seq<byte>)
    requires TAB !in p
    ensures TabsToNul(p + [TAB]) == p + [NUL]
  {
    TabsToNulConcat(p, [TAB]);
    TabsToNulKeeps(p);
    assert [TAB][..0] == [];
  }

  lemma JoinedTwice(p: seq<byte>)
    ensures Joined([p, p]) == (p + [NUL]) + (p + [NUL])
  {
    JoinedAppend([p], p);
    JoinedAppend([], p);
    assert [] + [p] == [p] && [p] + [p] == [p, p];
  }

  /** A tab-free string and a tab, twice, rewrite to the string packed twice. */
  lemma PairLayout(p: seq<byte>)
    requires TAB !in p
    ensures TabsToNul(p + [TAB] + p + [TAB]) == Joined([p, p])
  {
    var q := p + [TAB];
    assert p + [TAB] + p + [TAB] == q + q;
    TabsToNulConcat(q, q);
    TabClosed(p);
    JoinedTwice(p);
  }

  /** One group's rewritten text is its packed pair. */
  lemma GroupLayout(g: seq<byte>)
    requires TAB !in g
    ensures TabsToNul(GroupText(g)) == Joined(GroupPairs(g))
  {
    var es := WalkedExtensions(g);
    if es != [] {
      GroupPatternAvoids(g, TAB);
      PairLayout(PatternList(es));
    }
  }

  /** The rewrite of the groups' text is the packed (name, pattern) pairs. */
  lemma {:induction false} BodyLayout(gs: seq<seq<byte>>)
    requires forall i :: 0 <= i < |gs| ==> TAB !in gs[i]
    ensures TabsToNul(Body(gs)) == Joined(FilterPairs(gs))
    decreases |gs|
  {
    if gs != [] {
      var init := gs[..|gs| - 1];
      var g := gs[|gs| - 1];
      BodyLayout(init);
      TabsToNulConcat(Body(init), GroupText(g));
      GroupLayout(g);
      JoinedConcat(FilterPairs(init), GroupPairs(g));
    }
  }

  /**
   * The Win32 layout: for a filter list without tabs, the rewritten
   * buffer is each non-empty group's pattern twice, each string ended by
   * a NUL, then the empty string that closes the list.
   */
  lemma Win32Layout(s: seq<byte>)
    requires TAB !in s
    ensures TabsToNul(Converted(s)) == Joined(FilterPairs(Groups(s))) + [NUL]
  {
    SplitAvoids(s, GROUP_SEP, TAB);
    BodyLayout(Groups(s));
    TabsToNulConcat(Body(Groups(s)), [TAB]);
    assert [TAB][..0] == [];
  }

  /** A trailing ';' does not start another group. */
  lemma TrailingSeparatorIgnored(s: seq<byte>)
    ensures Converted(s + [GROUP_SEP]) == Converted(s)
  {
    SplitSnoc(s, GROUP_SEP, GROUP_SEP);
    var gs := Groups(s);
    var gs' := gs + [[]];
    assert gs'[..|gs'| - 1] == gs;
    WalkedExtensionsShape([]);
  }

  // ----- the walk, as the source performs it -----

  lemma BodyStep(gs: seq<seq<byte>>, j: nat)
    requires j < |gs|
    ensures Body(gs[..j + 1]) == Body(gs[..j]) + GroupText(gs[j])
  {
    assert gs[..j + 1][..j] == gs[..j];
  }

  lemma ExtPatternsStep(es: seq<seq<byte>>, k0: nat, k: nat)
    requires k0 <= k < |es|
    ensures ExtPatterns(es[k0..k + 1]) == ExtPatterns(es[k0..k]) + STAR_DOT + es[k] + SEMI
  {
    assert es[k0..k + 1][..k - k0] == es[k0..k];
  }

  /** Appending extension `k`'s pattern extends the walk's output by one round. */
  lemma PatternAppended(dst: seq<byte>, es: seq<seq<byte>>, k0: nat, k: nat, prev: seq<byte>, next: seq<byte>)
    requires k0 <= k < |es| && prev == dst + ExtPatterns(es[k0..k])
    requires next == prev + STAR_DOT + es[k] + SEMI
    ensures next == dst + ExtPatterns(es[k0..k + 1])
  {
    ExtPatternsStep(es, k0, k);
    var done := ExtPatterns(es[k0..k]);
    assert next == dst + (done + STAR_DOT + es[k] + SEMI);
  }

  const SEMI: seq<byte> := ";"

  /**
   * One round of the extension walk at extension `k`: `walk` stands on the
   * ',' before it (or at 0 before a non-empty first one), extension `k`
   * starts at `st`, `strcspn` measures it, and the walk ends after it
   * exactly when it is the last.
   */
  lemma WalkStep(g: seq<byte>, es: seq<seq<byte>>, k: nat, walk: nat, st: nat)
    requires es == Extensions(g) && k < |es| && (k == 0 ==> es[0] != [])
    requires walk == (if k == 0 then 0 else TotalSize(es[..k]) - 1) && st == TotalSize(es[..k])
    ensures walk < |g| && (g[walk] == EXT_SEP <==> k > 0)
    ensures st == (if k > 0 then walk + 1 else walk)
    ensures st + |es[k]| <= |g| && g[st..st + |es[k]|] == es[k] && Span(g[st..], {EXT_SEP}) == |es[k]|
    ensures TotalSize(es[..k + 1]) - 1 == st + |es[k]|
    ensures k + 1 == |es| <==> st + |es[k]| == |g|
  {
    SplitJoin(g, EXT_SEP);
    WalkOnSeparator(g, es, k, walk, st);
    PieceAt(g, es, k, st);
  }

  /** The walk stands on the ',' before extension `k`, or on the first byte of extension 0. */
  lemma WalkOnSeparator(g: seq<byte>, es: seq<seq<byte>>, k: nat, walk: nat, st: nat)
    requires es == Extensions(g) && g == JoinWith(es, [EXT_SEP]) && k < |es| && (k == 0 ==> es[0] != [])
    requires walk == (if k == 0 then 0 else TotalSize(es[..k]) - 1) && st == TotalSize(es[..k])
    ensures walk < |g| && (g[walk] == EXT_SEP <==> k > 0)
    ensures st == (if k > 0 then walk + 1 else walk)
  {
    if k > 0 {
      PieceBefore(es, EXT_SEP, k - 1, g, TotalSize(es[..k - 1]));
      NextStart(es, k - 1);
    } else {
      assert es[..0] == [];
      if |es| > 1 {
        PieceBefore(es, EXT_SEP, 0, g, 0);
      } else {
        PieceLast(es, EXT_SEP);
      }
      assert g[0] == g[0..|es[0]|][0] == es[0][0];
    }
  }

  /** Extension `k` lies at `st`, `strcspn` measures it, and it ends the group exactly when it is the last. */
  lemma PieceAt(g: seq<byte>, es: seq<seq<byte>>, k: nat, st: nat)
    requires es == Extensions(g) && g == JoinWith(es, [EXT_SEP]) && k < |es| && st == TotalSize(es[..k])
    ensures st + |es[k]| <= |g| && g[st..st + |es[k]|] == es[k] && Span(g[st..], {EXT_SEP}) == |es[k]|
    ensures TotalSize(es[..k + 1]) - 1 == st + |es[k]|
    ensures k + 1 == |es| <==> st + |es[k]| == |g|
  {
    if k + 1 < |es| {
      PieceBefore(es, EXT_SEP, k, g, st);
    } else {
      PieceLast(es, EXT_SEP);
    }
    NextStart(es, k);
  }

  /** Where the walk starts: before extension 0, or on the end of an empty extension 0. */
  lemma WalkStart(g: seq<byte>, es: seq<seq<byte>>, k0: nat)
    requires es == Extensions(g) && k0 == if es[0] == [] then 1 else 0
    ensures k0 <= |es| && (k0 == 0 ==> es[0] != [])
    ensures 0 == if k0 == 0 then 0 else TotalSize(es[..k0]) - 1
    ensures k0 == |es| <==> g == []
  {
    WalkedExtensionsShape(g);
    if k0 == 1 {
      assert es[..1] == [[]];
      assert TotalSize(es[..1]) == TotalSize(es[..1][..0]) + 1;
    }
  }

  /** Stepping over the ',' the walk stands on lands on the start of extension `k`. */
  lemma StepOnto(g: seq<byte>, es: seq<seq<byte>>, k: nat, walk: nat, next: nat)
    requires es == Extensions(g) && k < |es| && (k == 0 ==> es[0] != [])
    requires walk == (if k == 0 then 0 else TotalSize(es[..k]) - 1) && walk < |g|
    requires next == if g[walk] == EXT_SEP then walk + 1 else walk
    ensures next == TotalSize(es[..k])
  {
    WalkStep(g, es, k, walk, TotalSize(es[..k]));
  }

  /** `strcspn(walk, ",")` at the start of extension `k`: the extension's length. */
  method ExtensionLength(g: seq<byte>, walk: nat, ghost es: seq<seq<byte>>, ghost k: nat) returns (el: nat)
    requires es == Extensions(g) && k < |es| && (k == 0 ==> es[0] != []) && walk == TotalSize(es[..k])
    ensures walk + el <= |g| && g[walk..walk + el] == es[k]
    ensures walk + el == TotalSize(es[..k + 1]) - 1 && (k + 1 == |es| <==> walk + el == |g|)
  {
    WalkStep(g, es, k, if k == 0 then 0 else TotalSize(es[..k]) - 1, walk);
    el := Span(g[walk..], {EXT_SEP});
  }

  /**
   * The extension walk over one group (the inner `for`): each round steps
   * over a ',' it stands on and appends `"*." + extension + ";"`.
   */
  method AppendPatterns(dst: seq<byte>, g: seq<byte>) returns (r: seq<byte>)
    ensures r == dst + ExtPatterns(WalkedExtensions(g))
  {
    var es := Extensions(g);
    var k0: nat := if es[0] == [] then 1 else 0;
    WalkStart(g, es, k0);
    r := dst;
    var walk := 0;
    var k: nat := k0;
    while walk < |g|
      invariant k0 <= k <= |es|
      invariant walk == if k == 0 then 0 else TotalSize(es[..k]) - 1
      invariant walk <= |g| && (k == |es| <==> walk == |g|)
      invariant r == dst + ExtPatterns(es[k0..k])
      decreases |es| - k
    {
      ghost var onto := walk;
      if g[walk] == EXT_SEP {
        walk := walk + 1;
      }
      StepOnto(g, es, k, onto, walk);
      var el := ExtensionLength(g, walk, es, k);
      ghost var prev := r;
      r := r + STAR_DOT + g[walk..walk + el] + SEMI;
      PatternAppended(dst, es, k0, k, prev, r);
      walk := walk + el;
      k := k + 1;
    }
    assert es[k0..k] == WalkedExtensions(g);
  }

  /** The tab written over the last ';' of the walk's output, then that output copied after itself. */
  lemma OverwriteAndDuplicate(prev: seq<byte>, es: seq<seq<byte>>, r1: seq<byte>, r2: seq<byte>)
    requires r1 == prev + ExtPatterns(es)
    requires (prev != [] && prev[|prev| - 1] == TAB) || es != []
    requires |r1| > 0 && r2 == r1[..|r1| - 1] + [TAB]
    ensures |prev| <= |r2|
    ensures es == [] ==> r2 + r2[|prev|..] == prev
    ensures es != [] ==> r2 + r2[|prev|..] == prev + PatternList(es) + [TAB] + PatternList(es) + [TAB]
  {
    if es == [] {
      assert r1 == prev;
    } else {
      ExtPatternsJoin(es);
      var p := PatternList(es);
      assert r1 == (prev + p) + SEMI;
      assert r2 == prev + p + [TAB];
      assert r2[|prev|..] == p + [TAB];
    }
  }

  /** After the extension walk there is a last byte to overwrite, inside or after `prev`. */
  lemma WalkOutputLength(prev: seq<byte>, g: seq<byte>, r1: seq<byte>)
    requires r1 == prev + ExtPatterns(WalkedExtensions(g))
    requires (prev != [] && prev[|prev| - 1] == TAB) || WalkedExtensions(g) != []
    ensures |prev| <= |r1| && |r1| > 0
  {
  }

  /** One group's round: overwrite and duplicate leave the group's text after `prev`, ending in a tab. */
  lemma GroupRound(prev: seq<byte>, g: seq<byte>, r1: seq<byte>, r2: seq<byte>, r3: seq<byte>)
    requires r1 == prev + ExtPatterns(WalkedExtensions(g))
    requires (prev != [] && prev[|prev| - 1] == TAB) || WalkedExtensions(g) != []
    requires |r1| > 0 && r2 == r1[..|r1| - 1] + [TAB]
    requires |prev| <= |r2| && r3 == r2 + r2[|prev|..]
    ensures r3 == prev + GroupText(g) && r3 != [] && r3[|r3| - 1] == TAB
  {
    OverwriteAndDuplicate(prev, WalkedExtensions(g), r1, r2);
  }

  /**
   * One round of the group walk at group `j`, which starts at `src`:
   * `strcspn` measures the group, and stepping over the ';' that follows
   * lands on the start of group `j + 1`, or on the end after the last.
   */
  lemma GroupStep(s: seq<byte>, gs: seq<seq<byte>>, j: nat, src: nat)
    requires gs == Groups(s) && j < |gs| && src == TotalSize(gs[..j])
    ensures src + |gs[j]| <= |s| && s[src..src + |gs[j]|] == gs[j] && Span(s[src..], {GROUP_SEP}) == |gs[j]|
    ensures j + 1 < |gs| ==> src + |gs[j]| < |s| && s[src + |gs[j]|] == GROUP_SEP && TotalSize(gs[..j + 1]) == src + |gs[j]| + 1
    ensures j + 1 == |gs| ==> src + |gs[j]| == |s|
  {
    SplitJoin(s, GROUP_SEP);
    if j + 1 < |gs| {
      PieceBefore(gs, GROUP_SEP, j, s, src);
      NextStart(gs, j);
    } else {
      PieceLast(gs, GROUP_SEP);
    }
  }

  /** A group that starts at or past the end of the list is the last one, and empty. */
  lemma LastGroupAt(s: seq<byte>, gs: seq<seq<byte>>, j: nat)
    requires gs == Groups(s) && j + 1 < |gs| && TotalSize(gs[..j + 1]) >= |s|
    ensures |gs| == j + 2 && gs[j + 1] == []
  {
    SplitJoin(s, GROUP_SEP);
    if j + 2 < |gs| {
      PieceBefore(gs, GROUP_SEP, j + 1, s, TotalSize(gs[..j + 1]));
      assert false;
    }
    PieceLast(gs, GROUP_SEP);
  }

  /** The walk reaching the end right at the start of group `j + 1` means that group is the empty last one. */
  lemma GroupsEnd(s: seq<byte>, gs: seq<seq<byte>>, j: nat)
    requires gs == Groups(s) && j + 1 < |gs| && TotalSize(gs[..j + 1]) >= |s|
    ensures Body(gs) == Body(gs[..j + 1])
  {
    LastGroupAt(s, gs, j);
    assert gs[..|gs| - 1] == gs[..j + 1];
    WalkedExtensionsShape([]);
    assert GroupText(gs[j + 1]) == [];
  }

  /**
   * Stepping over group `j` and the ';' after it: either the walk is at
   * the start of group `j + 1`, or it has reached the end and no later
   * group contributes anything.
   */
  lemma GroupAdvance(s: seq<byte>, gs: seq<seq<byte>>, j: nat, src: nat, e: nat, next: nat)
    requires gs == Groups(s) && j < |gs| && src == TotalSize(gs[..j]) && e == src + |gs[j]| && e <= |s|
    requires next == if e < |s| && s[e] == GROUP_SEP then e + 1 else e
    ensures next < |s| ==> j + 1 < |gs| && next == TotalSize(gs[..j + 1])
    ensures next >= |s| ==> Body(gs) == Body(gs[..j + 1])
  {
    GroupStep(s, gs, j, src);
    if next >= |s| {
      if j + 1 < |gs| {
        GroupsEnd(s, gs, j);
      } else {
        assert gs[..j + 1] == gs;
      }
    }
  }

  /** The walk's first group is not empty when the list does not open with ';'. */
  lemma FirstGroup(s: seq<byte>)
    requires s != [] && s[0] != GROUP_SEP
    ensures WalkedExtensions(Groups(s)[0]) != []
  {
    FirstPieceEmpty(s, GROUP_SEP);
    WalkedExtensionsShape(Groups(s)[0]);
  }

  /** `strcspn(src, ";")` at the start of group `j`: the group's length. */
  method GroupLength(inStr: seq<byte>, src: nat, ghost gs: seq<seq<byte>>, ghost j: nat) returns (glen: nat)
    requires gs == Groups(inStr) && j < |gs| && src == TotalSize(gs[..j])
    ensures glen == |gs[j]| && src + glen <= |inStr| && inStr[src..src + glen] == gs[j]
  {
    GroupStep(inStr, gs, j, src);
    glen := Span(inStr[src..], {GROUP_SEP});
  }

  /**
   * One group's writes: its extensions' patterns after `result`, the last
   * ';' turned into a tab, then the group's text copied after itself.
   */
  method WriteGroup(result: seq<byte>, ext: seq<byte>, ghost s: seq<byte>, ghost gs: seq<seq<byte>>, ghost j: nat)
    returns (r: seq<byte>)
    requires s != [] && s[0] != GROUP_SEP && gs == Groups(s)
    requires j < |gs| && ext == gs[j] && result == Body(gs[..j])
    requires j > 0 ==> result != [] && result[|result| - 1] == TAB
    ensures r == Body(gs[..j + 1]) && r != [] && r[|r| - 1] == TAB
  {
    if j == 0 {
      FirstGroup(s);
    }
    BodyStep(gs, j);
    var last := |result|;
    var r1 := AppendPatterns(result, ext);
    WalkOutputLength(result, ext, r1);
    var r2 := r1[..|r1| - 1] + [TAB];
    r := r2 + r2[last..];
    GroupRound(result, ext, r1, r2, r);
  }

  /**
   * The group walk (the outer `do`/`while`): each group's extensions are
   * written, the last ';' becomes a tab, the group's text is duplicated,
   * and `src` steps over the ';'. The walk stops when `src` reaches the
   * end, so an empty last group is never visited.
   */
  method WalkGroups(inStr: seq<byte>) returns (result: seq<byte>)
    requires inStr != [] && inStr[0] != GROUP_SEP
    ensures result == Body(Groups(inStr))
  {
    ghost var gs := Groups(inStr);
    assert gs[..0] == [];
    result := [];
    var src := 0;
    ghost var j := 0;
    var done := false;
    while !done
      invariant !done ==> j < |gs| && src == TotalSize(gs[..j]) && result == Body(gs[..j])
      invariant !done && j > 0 ==> result != [] && result[|result| - 1] == TAB
      invariant done ==> result == Body(gs)
      decreases |gs| - j, if done then 0 else 1
    {
      result, src, done := GroupPass(inStr, result, src, gs, j);
      if !done {
        j := j + 1;
      }
    }
  }

  /**
   * One pass of the group walk's `do`/`while` body at group `j`: the
   * group's writes, then `src` steps over the group and the ';' after
   * it; `done` is the loop's exit test (`!*src`).
   */
  method GroupPass(inStr: seq<byte>, result: seq<byte>, src: nat, ghost gs: seq<seq<byte>>, ghost j: nat)
    returns (r: seq<byte>, next: nat, done: bool)
    requires inStr != [] && inStr[0] != GROUP_SEP && gs == Groups(inStr)
    requires j < |gs| && src == TotalSize(gs[..j]) && result == Body(gs[..j])
    requires j > 0 ==> result != [] && result[|result| - 1] == TAB
    ensures !done ==> j + 1 < |gs| && next == TotalSize(gs[..j + 1]) && r == Body(gs[..j + 1])
    ensures !done ==> r != [] && r[|r| - 1] == TAB
    ensures done ==> r == Body(gs)
  {
    var glen := GroupLength(inStr, src, gs, j);
    var ext := inStr[src..src + glen];
    var e := src + glen;
    next := if e < |inStr| && inStr[e] == GROUP_SEP then e + 1 else e;
    GroupAdvance(inStr, gs, j, src, e, next);
    done := next >= |inStr|;
    r := WriteGroup(result, ext, inStr, gs, j);
  }

  /**
   * The final pass over the copy: every tab up to the terminating NUL
   * becomes a NUL; the walk stops at the terminator.
   */
  method RewriteTabs(out: array<byte>, n: nat)
    requires n < out.Length && out[n] == NUL && NUL !in out[..n]
    modifies out
    ensures out[..] == TabsToNul(old(out[..n])) + old(out[n..])
  {
    ghost var before := out[..];
    assert forall j | 0 <= j < n :: before[j] == before[..n][j];
    var i := 0;
    while out[i] != NUL
      invariant i <= n
      invariant out[..i] == TabsToNul(before[..i])
      invariant forall j | i <= j < out.Length :: out[j] == before[j]
      decreases n - i
    {
      if i == n {
        assert false;
      }
      if out[i] == TAB {
        out[i] := NUL;
      }
      assert before[..i + 1][..i] == before[..i];
      i := i + 1;
      assert out[..i] == out[..i - 1] + [out[i - 1]];
    }
    assert i == n;
    assert before[..n] == before[..i];
    assert out[..] == out[..i] + out[i..];
    assert out[i..] == before[i..];
  }

  /** The walk's output and one more tab are the converted text, which holds no NUL. */
  lemma ConvertedText(s: seq<byte>, body: seq<byte>, result: seq<byte>)
    requires NUL !in s && body == Body(Groups(s)) && result == body + [TAB]
    ensures result == Converted(s) && NUL !in result
  {
    ConvertedAvoidsNul(s);
  }

  /**
   * `ConvertNFDFilterList` (non-Unicode build). The source asserts a
   * non-empty list; a list opening with ';' would make the first group
   * write one byte before `result`, and both the walk's output and each
   * group must fit the 1024-byte buffers. `allocOk` is whether the copy's
   * allocation succeeds; on failure the function returns non-zero.
   */
  method ConvertNFDFilterList(inStr: seq<byte>, allocOk: bool) returns (failed: bool, outStr: Option<seq<byte>>)
    requires inStr != [] && NUL !in inStr && inStr[0] != GROUP_SEP
    requires |Converted(inStr)| < FILTER_BUF && forall i :: 0 <= i < |Groups(inStr)| ==> |Groups(inStr)[i]| < FILTER_BUF
    ensures failed <==> !allocOk
    ensures outStr == if allocOk then Some(TabsToNul(Converted(inStr)) + [NUL]) else None
  {
    var result := WalkGroups(inStr);
    ghost var body := result;
    result := result + [TAB];
    if !allocOk {
      return true, None;
    }
    ConvertedText(inStr, body, result);
    var copy := result + [NUL];
    var out := new byte[|copy|](i requires 0 <= i < |copy| => copy[i]);
    assert forall i :: 0 <= i < |copy| ==> out[i] == copy[i];
    assert out[..] == copy;
    assert out[..|result|] == result && out[|result|..] == [NUL];
    RewriteTabs(out, |result|);
    return false, Some(out[..]);
  }
}
