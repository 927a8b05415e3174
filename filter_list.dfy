/**
 * The filter mini-language every backend reads: `"png,jpg;pdf"`, where a
 * ';' separates groups and a ',' separates the extensions of one group.
 * `Split` is the reference decomposition the translators are stated
 * against; `JoinWith` is its inverse.
 */
module FilterList {
  import opened Bytes

  const GROUP_SEP: byte := ';'
  const EXT_SEP: byte := ','

  /** What the translators put in front of an extension to make it a pattern. */
  const STAR_DOT: seq<byte> := "*."

  /**
   * The pieces of `s` between occurrences of `sep`, in order, empty
   * pieces included (`"a;;b"` has three, `""` has one).
   */
  function Split(s: seq<byte>, sep: byte): (parts: seq<seq<byte>>)
    ensures |parts| >= 1
    ensures forall i :: 0 <= i < |parts| ==> sep !in parts[i]
    decreases |s|
  {
    if s == [] then [[]]
    else
      var p := Split(s[..|s| - 1], sep);
      if s[|s| - 1] == sep then p + [[]]
      else p[..|p| - 1] + [p[|p| - 1] + [s[|s| - 1]]]
  }

  /** `parts` with `sep` between each two of them. */
  function JoinWith(parts: seq<seq<byte>>, sep: seq<byte>): (s: seq<byte>)
    requires |parts| >= 1
    decreases |parts|
  {
    if |parts| == 1 then parts[0]
    else JoinWith(parts[..|parts| - 1], sep) + sep + parts[|parts| - 1]
  }

  /** The groups of a filter list. */
  function Groups(s: seq<byte>): (gs: seq<seq<byte>>)
    ensures |gs| >= 1 && forall i :: 0 <= i < |gs| ==> GROUP_SEP !in gs[i]
  {
    Split(s, GROUP_SEP)
  }

  /** The extensions of one group. */
  function Extensions(g: seq<byte>): (es: seq<seq<byte>>)
    ensures |es| >= 1 && forall i :: 0 <= i < |es| ==> EXT_SEP !in es[i]
  {
    Split(g, EXT_SEP)
  }

  /** Growing the last part by one byte grows the joined text by that byte. */
  lemma JoinWithGrowLast(parts: seq<seq<byte>>, sep: seq<byte>, c: byte)
    requires |parts| >= 1
    ensures JoinWith(parts[..|parts| - 1] + [parts[|parts| - 1] + [c]], sep) == JoinWith(parts, sep) + [c]
  {
    var q := parts[..|parts| - 1] + [parts[|parts| - 1] + [c]];
    if |parts| > 1 {
      assert q[..|q| - 1] == parts[..|parts| - 1];
    }
  }

  /** Joining the pieces again gives back the text. */
  lemma {:induction false} SplitJoin(s: seq<byte>, sep: byte)
    ensures JoinWith(Split(s, sep), [sep]) == s
    decreases |s|
  {
    if s != [] {
      var init := s[..|s| - 1];
      var p := Split(init, sep);
      SplitJoin(init, sep);
      if s[|s| - 1] == sep {
        assert (p + [[]])[..|p|] == p;
        assert JoinWith(p + [[]], [sep]) == init + [sep] + [];
        assert init + [sep] == s;
      } else {
        JoinWithGrowLast(p, [sep], s[|s| - 1]);
        assert init + [s[|s| - 1]] == s;
      }
    }
  }

  /** One more byte either starts a new piece or extends the last one. */
  lemma SplitSnoc(s: seq<byte>, c: byte, sep: byte)
    ensures var p := Split(s, sep);
      Split(s + [c], sep) == if c == sep then p + [[]] else p[..|p| - 1] + [p[|p| - 1] + [c]]
  {
    var u := s + [c];
    assert u[..|u| - 1] == s;
  }

  /** Appending text without `sep` extends the last piece. */
  lemma {:induction false} SplitExtend(s: seq<byte>, t: seq<byte>, sep: byte)
    requires sep !in t
    ensures var p := Split(s, sep);
      Split(s + t, sep) == p[..|p| - 1] + [p[|p| - 1] + t]
    decreases |t|
  {
    var p := Split(s, sep);
    if t == [] {
      assert s + t == s;
      assert p[|p| - 1] + t == p[|p| - 1];
      assert p[..|p| - 1] + [p[|p| - 1]] == p;
    } else {
      var t0 := t[..|t| - 1];
      var c := t[|t| - 1];
      assert t == t0 + [c];
      SplitExtend(s, t0, sep);
      ExtendByOne(s, t0, c, sep, p);
    }
  }

  lemma ExtendByOne(s: seq<byte>, t0: seq<byte>, c: byte, sep: byte, p: seq<seq<byte>>)
    requires c != sep && p == Split(s, sep) && Split(s + t0, sep) == p[..|p| - 1] + [p[|p| - 1] + t0]
    ensures Split(s + (t0 + [c]), sep) == p[..|p| - 1] + [p[|p| - 1] + (t0 + [c])]
  {
    var u := s + t0;
    var last := p[|p| - 1] + t0;
    var q := p[..|p| - 1] + [last];
    assert s + (t0 + [c]) == u + [c];
    GrowLast(u, c, sep, q);
    assert q[..|q| - 1] == p[..|p| - 1];
    assert last + [c] == p[|p| - 1] + (t0 + [c]);
  }

  /** A byte other than `sep` extends the last piece. */
  lemma GrowLast(u: seq<byte>, c: byte, sep: byte, q: seq<seq<byte>>)
    requires c != sep && q == Split(u, sep)
    ensures Split(u + [c], sep) == q[..|q| - 1] + [q[|q| - 1] + [c]]
  {
    var v := u + [c];
    assert v[..|v| - 1] == u;
  }

  /** Splitting the joined text gives back the pieces, when no piece holds `sep`. */
  lemma {:induction false} JoinSplit(parts: seq<seq<byte>>, sep: byte)
    requires |parts| >= 1 && forall i :: 0 <= i < |parts| ==> sep !in parts[i]
    ensures Split(JoinWith(parts, [sep]), sep) == parts
    decreases |parts|
  {
    var last := parts[|parts| - 1];
    assert sep !in last;
    if |parts| == 1 {
      SplitExtend([], last, sep);
      assert [] + last == last;
      assert parts == [last];
    } else {
      var init := parts[..|parts| - 1];
      assert forall i :: 0 <= i < |init| ==> sep !in init[i] by {
        forall i | 0 <= i < |init| ensures sep !in init[i] {
          assert init[i] == parts[i];
        }
      }
      var j := JoinWith(init, [sep]);
      JoinSplit(init, sep);
      SplitAfterJoined(init, last, sep, j);
      InitLast(parts, init, last);
    }
  }

  lemma InitLast(parts: seq<seq<byte>>, init: seq<seq<byte>>, last: seq<byte>)
    requires |parts| >= 1 && init == parts[..|parts| - 1] && last == parts[|parts| - 1]
    ensures parts == init + [last]
  {
  }

  /** A separator and a piece without it after joined text whose pieces are `init`. */
  lemma SplitAfterJoined(init: seq<seq<byte>>, last: seq<byte>, sep: byte, j: seq<byte>)
    requires sep !in last && Split(j, sep) == init
    ensures Split(j + [sep] + last, sep) == init + [last]
  {
    assert (j + [sep])[..|j + [sep]| - 1] == j;
    assert Split(j + [sep], sep) == init + [[]];
    SplitExtend(j + [sep], last, sep);
    assert (init + [[]])[..|init|] == init;
    assert [] + last == last;
  }

  /** Each part followed by `sep`; its length is `TotalSize(parts)`. */
  function Terminated(parts: seq<seq<byte>>, sep: byte): (s: seq<byte>)
    ensures |s| == TotalSize(parts)
    decreases |parts|
  {
    if parts == [] then [] else Terminated(parts[..|parts| - 1], sep) + parts[|parts| - 1] + [sep]
  }

  lemma {:induction false} JoinWithTerminated(parts: seq<seq<byte>>, sep: byte)
    requires |parts| >= 1
    ensures JoinWith(parts, [sep]) + [sep] == Terminated(parts, sep)
    decreases |parts|
  {
    if |parts| > 1 {
      JoinWithTerminated(parts[..|parts| - 1], sep);
    } else {
      assert parts[..0] == [];
    }
  }

  /** The joined text is the first `k` parts, each with its separator, then the rest joined. */
  lemma {:induction false} JoinWithFrom(parts: seq<seq<byte>>, sep: byte, k: nat)
    requires k < |parts|
    ensures JoinWith(parts, [sep]) == Terminated(parts[..k], sep) + JoinWith(parts[k..], [sep])
    decreases |parts|
  {
    var n := |parts|;
    if k == n - 1 {
      assert parts[k..] == [parts[k]];
      if k == 0 {
        assert parts[..0] == [];
      } else {
        JoinWithTerminated(parts[..k], sep);
      }
    } else {
      var init := parts[..n - 1];
      JoinWithFrom(init, sep, k);
      assert init[..k] == parts[..k];
      var tail := parts[k..];
      assert tail[..|tail| - 1] == init[k..];
      assert tail[|tail| - 1] == parts[n - 1];
    }
  }

  /** `strcspn` stops at the end of a piece free of `stops` when a stop or the end follows. */
  lemma {:induction false} SpanOfPiece(p: seq<byte>, rest: seq<byte>, stops: set<byte>)
    requires forall i :: 0 <= i < |p| ==> p[i] !in stops
    requires rest == [] || rest[0] in stops
    ensures Span(p + rest, stops) == |p|
    decreases |p|
  {
    if p != [] {
      assert (p + rest)[1..] == p[1..] + rest;
      SpanOfPiece(p[1..], rest, stops);
    } else {
      assert p + rest == rest;
    }
  }

  /** The text from the start of piece `k` on is the remaining pieces joined. */
  lemma SuffixFrom(parts: seq<seq<byte>>, sep: byte, k: nat)
    requires k < |parts|
    ensures TotalSize(parts[..k]) <= |JoinWith(parts, [sep])|
    ensures JoinWith(parts, [sep])[TotalSize(parts[..k])..] == JoinWith(parts[k..], [sep])
  {
    JoinWithFrom(parts, sep, k);
  }

  /** The first piece, then a separator, then the rest joined. */
  lemma JoinWithHead(parts: seq<seq<byte>>, sep: byte)
    requires |parts| >= 2
    ensures JoinWith(parts, [sep]) == parts[0] + [sep] + JoinWith(parts[1..], [sep])
  {
    JoinWithFrom(parts, sep, 1);
    var one := parts[..1];
    assert one[..0] == [];
    assert one[0] == parts[0];
    assert Terminated(one, sep) == Terminated([], sep) + parts[0] + [sep];
    assert Terminated(one, sep) == parts[0] + [sep];
  }

  /** A piece free of `sep` at `st`, followed by a separator or by the end. */
  lemma PieceFacts(s: seq<byte>, st: nat, p: seq<byte>, rest: seq<byte>, sep: byte)
    requires st <= |s| && s[st..] == p + rest && sep !in p
    requires rest == [] || rest[0] == sep
    ensures st + |p| <= |s| && s[st..st + |p|] == p
    ensures Span(s[st..], {sep}) == |p|
    ensures rest != [] ==> st + |p| < |s| && s[st + |p|] == sep
    ensures rest == [] ==> st + |p| == |s|
  {
    assert s[st..st + |p|] == (p + rest)[..|p|];
    if rest != [] {
      assert s[st + |p|] == (p + rest)[|p|];
    }
    SpanOfPiece(p, rest, {sep});
  }

  /**
   * Where a piece other than the last sits in the joined text `s`: it
   * starts at `st == TotalSize(parts[..k])`, `strcspn` from there measures
   * it exactly, and a separator follows it.
   */
  lemma PieceBefore(parts: seq<seq<byte>>, sep: byte, k: nat, s: seq<byte>, st: nat)
    requires k + 1 < |parts| && forall i :: 0 <= i < |parts| ==> sep !in parts[i]
    requires s == JoinWith(parts, [sep]) && st == TotalSize(parts[..k])
    ensures st + |parts[k]| < |s|
    ensures s[st..st + |parts[k]|] == parts[k]
    ensures Span(s[st..], {sep}) == |parts[k]|
    ensures s[st + |parts[k]|] == sep
  {
    SuffixFrom(parts, sep, k);
    var tail := parts[k..];
    var p := parts[k];
    assert tail[0] == p;
    JoinWithHead(tail, sep);
    var j := JoinWith(tail[1..], [sep]);
    var rest := [sep] + j;
    Regroup(p, [sep], j);
    assert s[st..] == p + rest;
    assert sep !in p;
    PieceFacts(s, st, p, rest, sep);
  }

  lemma Regroup(a: seq<byte>, b: seq<byte>, c: seq<byte>)
    ensures a + b + c == a + (b + c)
  {
  }

  /** The last piece ends the joined text, and `strcspn` measures it exactly. */
  lemma PieceLast(parts: seq<seq<byte>>, sep: byte)
    requires |parts| >= 1 && forall i :: 0 <= i < |parts| ==> sep !in parts[i]
    ensures var s := JoinWith(parts, [sep]);
      var k := |parts| - 1;
      var st := TotalSize(parts[..k]);
      && st + |parts[k]| == |s|
      && s[st..] == parts[k]
      && Span(s[st..], {sep}) == |parts[k]|
  {
    var k := |parts| - 1;
    var s := JoinWith(parts, [sep]);
    var st := TotalSize(parts[..k]);
    SuffixFrom(parts, sep, k);
    assert parts[k..] == [parts[k]];
    PieceFacts(s, st, parts[k], [], sep);
  }

  /** The next piece starts one separator after this one ends. */
  lemma NextStart(parts: seq<seq<byte>>, k: nat)
    requires k < |parts|
    ensures TotalSize(parts[..k + 1]) == TotalSize(parts[..k]) + |parts[k]| + 1
  {
    assert parts[..k + 1] == parts[..k] + [parts[k]];
    assert (parts[..k] + [parts[k]])[..k] == parts[..k];
  }

  /** A leading separator contributes one empty piece before the pieces of the rest. */
  lemma {:induction false} SplitCons(t: seq<byte>, sep: byte)
    ensures Split([sep] + t, sep) == [[]] + Split(t, sep)
    decreases |t|
  {
    if t == [] {
      assert [sep] + t == [] + [sep];
      SplitSnoc([], sep, sep);
    } else {
      var t0 := t[..|t| - 1];
      var c := t[|t| - 1];
      assert t == t0 + [c];
      var u := [sep] + t0;
      assert [sep] + t == u + [c];
      SplitCons(t0, sep);
      var q := Split(t0, sep);
      var p := Split(u, sep);
      SplitSnoc(u, c, sep);
      SplitSnoc(t0, c, sep);
      if c == sep {
        ConsThenNew(q, p);
      } else {
        ConsThenGrow(q, p, c);
      }
    }
  }

  lemma ConsThenNew(q: seq<seq<byte>>, p: seq<seq<byte>>)
    requires p == [[]] + q
    ensures p + [[]] == [[]] + (q + [[]])
  {
  }

  lemma ConsThenGrow(q: seq<seq<byte>>, p: seq<seq<byte>>, c: byte)
    requires |q| >= 1 && p == [[]] + q
    ensures p[..|p| - 1] + [p[|p| - 1] + [c]] == [[]] + (q[..|q| - 1] + [q[|q| - 1] + [c]])
  {
    assert p[..|p| - 1] == [[]] + q[..|q| - 1];
    assert p[|p| - 1] == q[|q| - 1];
  }

  /** The first piece is empty exactly when the text is empty or starts with the separator. */
  lemma FirstPieceEmpty(s: seq<byte>, sep: byte)
    ensures Split(s, sep)[0] == [] <==> (s == [] || s[0] == sep)
  {
    var parts := Split(s, sep);
    SplitJoin(s, sep);
    assert parts[..0] == [];
    if |parts| > 1 {
      PieceBefore(parts, sep, 0, s, 0);
    } else {
      PieceLast(parts, sep);
    }
    if parts[0] != [] {
      assert s[0] == s[0..|parts[0]|][0] == parts[0][0];
    }
  }

  /** A byte absent from the text is absent from every piece. */
  lemma {:induction false} SplitAvoids(s: seq<byte>, sep: byte, c: byte)
    requires c !in s
    ensures forall i :: 0 <= i < |Split(s, sep)| ==> c !in Split(s, sep)[i]
    decreases |s|
  {
    if s != [] {
      var init := s[..|s| - 1];
      assert s == init + [s[|s| - 1]];
      assert c !in init;
      SplitAvoids(init, sep, c);
      SplitSnoc(init, s[|s| - 1], sep);
    }
  }
}
