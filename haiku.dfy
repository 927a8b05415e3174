/**
 * The Haiku backend (src/nfd_haiku.cpp): the extension filter the file
 * panel consults, the handler that turns the panel's answer into one port
 * message, and the three dialogs that read that message and build their
 * results.
 */
module Haiku {
  import opened Bytes
  import opened Wrappers
  import opened Nfd
  import opened Common
  import opened FilterList
  import opened Memory

  // ----- ExtensionRefFilter -----

  const DOT: byte := '.'

  /** Both ',' and ';' end an extension. */
  predicate IsSeparator(c: byte)
  {
    c == EXT_SEP || c == GROUP_SEP
  }

  /** `s` with every ',' read as ';': the constructor does not tell the two apart. */
  function Unified(s: seq<byte>): seq<byte>
  {
    seq(|s|, i requires 0 <= i < |s| => if s[i] == EXT_SEP then GROUP_SEP else s[i])
  }

  /**
   * The extensions the constructor collects from `stuff`: the pieces
   * between separators, in order, empty ones included, except that an
   * empty piece after the last separator is not added.
   */
  function ExtensionList(stuff: seq<byte>): seq<seq<byte>>
  {
    var p := Split(Unified(stuff), GROUP_SEP);
    if p[|p| - 1] == [] then p[..|p| - 1] else p
  }

  /** Every extension with a "." in front. */
  function Dotted(exts: seq<seq<byte>>): (d: seq<seq<byte>>)
    ensures |d| == |exts| && forall i :: 0 <= i < |exts| ==> d[i] == [DOT] + exts[i]
  {
    seq(|exts|, i requires 0 <= i < |exts| => [DOT] + exts[i])
  }

  /**
   * What the filter holds after the prefixing loop. Whether
   * `StringAt(i).Prepend(".")` changes the stored string is up to
   * `BStringList`; `prependStored` says whether it does.
   */
  function Stored(exts: seq<seq<byte>>, prependStored: bool): seq<seq<byte>>
  {
    if prependStored then Dotted(exts) else exts
  }

  /** `BString::EndsWith`. */
  predicate EndsWith(name: seq<byte>, suffix: seq<byte>)
  {
    |suffix| <= |name| && name[|name| - |suffix|..] == suffix
  }

  /** Whether the filter shows an entry: every directory, and a file whose name ends with an extension. */
  predicate Accepts(exts: seq<seq<byte>>, name: seq<byte>, isDir: bool)
  {
    isDir || exists i :: 0 <= i < |exts| && EndsWith(name, exts[i])
  }

  /**
   * `BString::FindFirst(c, from)`: the first position at or after `from`
   * that holds `c`, or -1 (`B_ERROR`) when there is none.
   */
  function FindFirst(s: seq<byte>, c: byte, from: nat): (k: int)
    ensures k == -1 || (from <= k < |s| && s[k] == c)
    ensures forall j :: from <= j < |s| && (k == -1 || j < k) ==> s[j] != c
    decreases |s| - from
  {
    if from >= |s| then -1 else if s[from] == c then from else FindFirst(s, c, from + 1)
  }

  /** The filter a file panel is given: the extensions of a non-empty filter list. */
  class ExtensionRefFilter {
    var mExtensions: seq<seq<byte>>

    /**
     * Splits `stuff` at whichever separator comes first, again and again,
     * then puts a "." in front of every extension.
     */
    constructor (stuff: seq<byte>, prependStored: bool)
      ensures mExtensions == Stored(ExtensionList(stuff), prependStored)
    {
      var exts: seq<seq<byte>> := [];
      var start := 0;
      assert Unified(stuff)[..0] == [];
      while start < |stuff|
        invariant Scanned(stuff, start, exts) || (start == |stuff| && ExtensionList(stuff) == exts)
        decreases |stuff| - start
      {
        exts, start := NextExtension(stuff, start, exts);
      }
      if Scanned(stuff, start, exts) {
        assert Unified(stuff)[..start] == Unified(stuff);
      }
      exts := Prefixed(exts, prependStored);
      mExtensions := exts;
    }

    /**
     * `Filter`: accepts every directory, and a file iff its name ends with
     * one of the stored extensions.
     */
    method Filter(name: seq<byte>, isDir: bool) returns (accepted: bool)
      ensures accepted <==> Accepts(mExtensions, name, isDir)
    {
      if isDir {
        return true;
      }
      var i := 0;
      while i < |mExtensions|
        invariant i <= |mExtensions|
        invariant forall j :: 0 <= j < i ==> !EndsWith(name, mExtensions[j])
      {
        if EndsWith(name, mExtensions[i]) {
          return true;
        }
        i := i + 1;
      }
      return false;
    }
  }

  /** The text before `start` has been split: `exts` are its pieces but the last, which is empty. */
  predicate Scanned(stuff: seq<byte>, start: nat, exts: seq<seq<byte>>)
  {
    start <= |stuff| && Split(Unified(stuff)[..start], GROUP_SEP) == exts + [[]]
  }

  /**
   * One round of the constructor's loop: the text up to whichever of ','
   * and ';' comes first is the next extension and the scan goes on after
   * that separator; with neither left, the rest is the last extension
   * and the scan ends.
   */
  method NextExtension(stuff: seq<byte>, start: nat, exts: seq<seq<byte>>) returns (exts': seq<seq<byte>>, start': nat)
    requires start < |stuff| && Scanned(stuff, start, exts)
    ensures start < start' <= |stuff|
    ensures Scanned(stuff, start', exts') || (start' == |stuff| && ExtensionList(stuff) == exts')
  {
    var comma := FindFirst(stuff, EXT_SEP, start);
    var semicolon := FindFirst(stuff, GROUP_SEP, start);
    if comma >= 0 && (comma <= semicolon || semicolon < 0) {
      NextSeparator(stuff, start, comma, exts);
      exts' := exts + [stuff[start..comma]];
      start' := comma + 1;
    } else if semicolon >= 0 && (semicolon < comma || comma < 0) {
      NextSeparator(stuff, start, semicolon, exts);
      exts' := exts + [stuff[start..semicolon]];
      start' := semicolon + 1;
    } else {
      if |stuff| - start < 1 {
        assert false;
      }
      LastExtension(stuff, start, exts);
      exts' := exts + [stuff[start..]];
      start' := |stuff|;
    }
  }

  /** The prefixing loop: a "." in front of each extension, when the change is stored. */
  method Prefixed(exts: seq<seq<byte>>, prependStored: bool) returns (r: seq<seq<byte>>)
    ensures r == Stored(exts, prependStored)
  {
    r := exts;
    var i := 0;
    while i < |r|
      invariant i <= |r| == |exts|
      invariant forall j :: 0 <= j < i ==> r[j] == if prependStored then [DOT] + exts[j] else exts[j]
      invariant forall j :: i <= j < |r| ==> r[j] == exts[j]
    {
      if prependStored {
        r := r[i := [DOT] + r[i]];
      }
      i := i + 1;
    }
  }

  /** The bytes before the first separator at or after `start` are the next extension. */
  lemma NextSeparator(stuff: seq<byte>, start: nat, k: nat, exts: seq<seq<byte>>)
    requires start <= k < |stuff| && IsSeparator(stuff[k])
    requires forall j :: start <= j < k ==> !IsSeparator(stuff[j])
    requires Split(Unified(stuff)[..start], GROUP_SEP) == exts + [[]]
    ensures Split(Unified(stuff)[..k + 1], GROUP_SEP) == exts + [stuff[start..k]] + [[]]
  {
    var u := Unified(stuff);
    UnifiedRun(stuff, start, k);
    assert u[..k + 1] == u[..start] + stuff[start..k] + [GROUP_SEP];
    PieceThenSeparator(u[..start], stuff[start..k], exts);
  }

  /** A run free of separators reads the same unified. */
  lemma UnifiedRun(stuff: seq<byte>, start: nat, k: nat)
    requires start <= k <= |stuff|
    requires forall j :: start <= j < k ==> !IsSeparator(stuff[j])
    ensures Unified(stuff)[start..k] == stuff[start..k] && GROUP_SEP !in stuff[start..k]
  {
  }

  /** A piece and then a separator after text split into `exts` and an empty piece. */
  lemma PieceThenSeparator(v: seq<byte>, piece: seq<byte>, exts: seq<seq<byte>>)
    requires Split(v, GROUP_SEP) == exts + [[]] && GROUP_SEP !in piece
    ensures Split(v + piece + [GROUP_SEP], GROUP_SEP) == exts + [piece] + [[]]
  {
    SplitExtend(v, piece, GROUP_SEP);
    assert (exts + [[]])[..|exts|] == exts;
    assert [] + piece == piece;
    SplitSnoc(v + piece, GROUP_SEP, GROUP_SEP);
  }

  /** With no separator left, the rest of the text is the last extension. */
  lemma LastExtension(stuff: seq<byte>, start: nat, exts: seq<seq<byte>>)
    requires start < |stuff|
    requires forall j :: start <= j < |stuff| ==> !IsSeparator(stuff[j])
    requires Split(Unified(stuff)[..start], GROUP_SEP) == exts + [[]]
    ensures ExtensionList(stuff) == exts + [stuff[start..]]
  {
    var u := Unified(stuff);
    UnifiedRun(stuff, start, |stuff|);
    assert u == u[..start] + stuff[start..];
    SplitExtend(u[..start], stuff[start..], GROUP_SEP);
    assert (exts + [[]])[..|exts|] == exts;
    assert [] + stuff[start..] == stuff[start..];
  }

  /** Text without ',' reads the same unified. */
  lemma UnifiedNoComma(s: seq<byte>)
    requires EXT_SEP !in s
    ensures Unified(s) == s
  {
  }

  /** Joining pieces free of ',' with ';' leaves no ','. */
  lemma {:induction false} JoinedNoComma(exts: seq<seq<byte>>)
    requires |exts| >= 1 && forall i :: 0 <= i < |exts| ==> EXT_SEP !in exts[i]
    ensures EXT_SEP !in JoinWith(exts, [GROUP_SEP])
    decreases |exts|
  {
    if |exts| > 1 {
      var init := exts[..|exts| - 1];
      assert forall i :: 0 <= i < |init| ==> init[i] == exts[i];
      JoinedNoComma(init);
      assert EXT_SEP !in exts[|exts| - 1];
    } else {
      assert EXT_SEP !in exts[0];
    }
  }

  /**
   * The split undoes a join: extensions free of separators, the last one
   * non-empty, joined with ';' (or, equally, ',') come back unchanged.
   */
  lemma ExtensionListOfJoined(exts: seq<seq<byte>>)
    requires |exts| >= 1 && exts[|exts| - 1] != []
    requires forall i :: 0 <= i < |exts| ==> EXT_SEP !in exts[i] && GROUP_SEP !in exts[i]
    ensures ExtensionList(JoinWith(exts, [GROUP_SEP])) == exts
  {
    JoinedNoComma(exts);
    UnifiedNoComma(JoinWith(exts, [GROUP_SEP]));
    JoinSplit(exts, GROUP_SEP);
  }

  /**
   * A separator at the very end adds no extension: `"txt;"` yields just
   * `"txt"`, and in general the list is every piece of the text before it.
   */
  lemma TrailingSeparatorDropped(s: seq<byte>, sep: byte)
    requires IsSeparator(sep)
    ensures ExtensionList(s + [sep]) == Split(Unified(s), GROUP_SEP)
  {
    var u := Unified(s);
    assert Unified(s + [sep]) == u + [GROUP_SEP];
    SplitSnoc(u, GROUP_SEP, GROUP_SEP);
    var p := Split(u, GROUP_SEP);
    assert (p + [[]])[..|p|] == p;
  }

  /**
   * With the "." prefixes stored, a file whose name holds no "." is never
   * shown, and a name made of any stem, ".", and an extension always is.
   */
  lemma DottedFilterNeedsDot(exts: seq<seq<byte>>, name: seq<byte>)
    ensures DOT !in name ==> !Accepts(Dotted(exts), name, false)
    ensures forall i, stem :: 0 <= i < |exts| ==> Accepts(Dotted(exts), stem + [DOT] + exts[i], false)
  {
    var d := Dotted(exts);
    forall i | 0 <= i < |d| && EndsWith(name, d[i])
      ensures DOT in name
    {
      assert name[|name| - |d[i]|] == d[i][0];
    }
    forall i, stem | 0 <= i < |exts|
      ensures Accepts(d, stem + [DOT] + exts[i], false)
    {
      var n := stem + [DOT] + exts[i];
      assert n[|n| - |d[i]|..] == d[i];
    }
  }

  /**
   * Without the prefixes, an empty extension (two separators in a row)
   * makes the filter show every file.
   */
  lemma EmptyExtensionAcceptsAll(stuff: seq<byte>, name: seq<byte>)
    requires [] in ExtensionList(stuff)
    ensures Accepts(Stored(ExtensionList(stuff), false), name, false)
  {
    var exts := ExtensionList(stuff);
    var i :| 0 <= i < |exts| && exts[i] == [];
    assert EndsWith(name, exts[i]);
  }

  // ----- the port protocol -----

  /** The multi-character constants `'oREF'`, `'sREF'` and `'cREF'`. */
  const OPEN_RESPONSE: int := 0x6F52_4546
  const SAVE_RESPONSE: int := 0x7352_4546
  const CANCEL_RESPONSE: int := 0x6352_4546

  /** What the file panel sends the handler. */
  datatype PanelMessage =
    | RefsReceived(refs: seq<seq<byte>>)
    | SaveRequested(directory: seq<byte>, name: seq<byte>)
    | Cancelled
    | OtherMessage

  /**
   * The code and `response_data` read from the port. `refs` are the names
   * of the chosen entries, `directory` the path of the save directory,
   * `filename` the name typed in. Parts the sender did not fill are
   * whatever the model is given.
   */
  datatype PortMessage = PortMessage(code: int, refs: seq<seq<byte>>, directory: seq<byte>, filename: seq<byte>)

  /**
   * `DialogHandler::MessageReceived`: the message it writes to the port
   * for each panel message (`None`: none is written, the message goes to
   * `BLooper`). `stale` holds the parts of `response_data` that are not
   * set. The code written tells the reader which message the panel sent,
   * and the reply carries that message's data.
   */
  function HandlerReply(msg: PanelMessage, stale: PortMessage): (reply: Option<PortMessage>)
    ensures reply.Some? <==> !msg.OtherMessage?
    ensures reply.Some? ==> (reply.value.code == OPEN_RESPONSE <==> msg.RefsReceived?)
    ensures reply.Some? ==> (reply.value.code == SAVE_RESPONSE <==> msg.SaveRequested?)
    ensures reply.Some? ==> (reply.value.code == CANCEL_RESPONSE <==> msg.Cancelled?)
    ensures msg.RefsReceived? ==> reply.value.refs == msg.refs
    ensures msg.SaveRequested? ==> reply.value.directory == msg.directory && reply.value.filename == msg.name
  {
    match msg
    case RefsReceived(refs) => Some(stale.(code := OPEN_RESPONSE, refs := refs))
    case SaveRequested(dir, name) => Some(stale.(code := SAVE_RESPONSE, directory := dir, filename := name))
    case Cancelled => Some(stale.(code := CANCEL_RESPONSE))
    case OtherMessage => None
  }

  /** Whether the handler is sent a message it answers: `read_port` waits until it is. */
  predicate Answered(msgs: seq<PanelMessage>)
  {
    exists i :: 0 <= i < |msgs| && !msgs[i].OtherMessage?
  }

  /**
   * The first message the handler answers; the ones before it go to
   * `BLooper`, and the ones after it arrive once the handler has been
   * asked to quit.
   */
  function Answer(msgs: seq<PanelMessage>): (m: PanelMessage)
    requires Answered(msgs)
    ensures !m.OtherMessage?
    ensures exists i :: 0 <= i < |msgs| && msgs[i] == m && forall j :: 0 <= j < i ==> msgs[j].OtherMessage?
  {
    if !msgs[0].OtherMessage? then msgs[0]
    else
      assert Answered(msgs[1..]) by {
        var i :| 0 <= i < |msgs| && !msgs[i].OtherMessage?;
        assert msgs[1..][i - 1] == msgs[i];
      }
      var m := Answer(msgs[1..]);
      var i :| 0 <= i < |msgs[1..]| && msgs[1..][i] == m && forall j :: 0 <= j < i ==> msgs[1..][j].OtherMessage?;
      assert msgs[i + 1] == m;
      assert forall j :: 0 <= j < i + 1 ==> msgs[j].OtherMessage? by {
        forall j | 0 <= j < i + 1 ensures msgs[j].OtherMessage? {
          if j > 0 { assert msgs[j] == msgs[1..][j - 1]; }
        }
      }
      m
  }

  /** What `read_port` returns: the reply to the first message the handler answers. */
  function PortReply(msgs: seq<PanelMessage>, stale: PortMessage): (reply: PortMessage)
    requires Answered(msgs)
  {
    HandlerReply(Answer(msgs), stale).value
  }

  // ----- copying names -----

  /** The C string a bounded copy of `name` into `length` bytes leaves. */
  function Kept(name: seq<byte>, length: nat): (kept: seq<byte>)
    requires 0 < length
    ensures kept <= name && |kept| < length
    ensures kept == name <==> |name| < length
  {
    if |name| < length then name else name[..length - 1]
  }

  /**
   * `NFDi_SafeStrncpy(buf + at, name, |name| + 1)`: the name and its NUL
   * are written at `at`, nothing else changes.
   */
  method PutName(buf: array<byte>, at: nat, name: seq<byte>)
    requires NoNul(name) && at + |name| + 1 <= buf.Length
    modifies buf
    ensures buf[..] == old(buf[..at]) + (name + [NUL]) + old(buf[at + |name| + 1..])
  {
    ghost var d0 := buf[..];
    CStrOfTerminated(name, []);
    assert name + [NUL] + [] == name + [NUL];
    var _ := SafeStrncpy(buf, at, name + [NUL], |name| + 1);
    assert d0[at..][|name| + 1..] == d0[at + |name| + 1..];
  }

  /**
   * The single-selection copy: `length` bytes are allocated and the name
   * is copied into them with `NFDi_SafeStrncpy`, cut to `length - 1` bytes.
   */
  method CopyName(name: seq<byte>, length: nat) returns (out: seq<byte>)
    requires NoNul(name) && 0 < length
    ensures |out| == length && NUL in out && CStr(out) == Kept(name, length)
  {
    var buf := new byte[length];
    ghost var d0 := buf[..];
    var src := name + [NUL];
    CStrOfTerminated(name, []);
    assert name + [NUL] + [] == src;
    assert Strlen(src) == |name| && CStr(src) == name;
    var _ := SafeStrncpy(buf, 0, src, length);
    assert d0[..0] == [] && d0[0..] == d0;
    assert buf[..] == SafeCopied(d0, src, length);
    if |name| < length {
      SafeCopiedFits(d0, src, length);
    } else {
      SafeCopiedTruncates(d0, src, length);
    }
    out := buf[..];
  }

  /**
   * The buffer size the source gives a name: `NFDi_UTF8_Strlen(name) + 1`,
   * one byte per code point rather than per byte.
   */
  method NameLengthAsWritten(name: seq<byte>) returns (length: nat)
    requires NoNul(name)
    ensures length == Utf8Length(name + [NUL]) + 1
    ensures 0 < length <= |name| + 1
  {
    CStrOfTerminated(name, []);
    assert name + [NUL] + [] == name + [NUL];
    Utf8LengthBounds(name + [NUL]);
    var n := UTF8Strlen(name + [NUL]);
    length := n + 1;
  }

  /** The buffer size a name needs: `strlen(name) + 1`, so that the copy keeps every byte. */
  method NameLength(name: seq<byte>) returns (length: nat)
    requires NoNul(name)
    ensures length == |name| + 1 && Kept(name, length) == name
  {
    CStrOfTerminated(name, []);
    assert name + [NUL] + [] == name + [NUL];
    length := Strlen(name + [NUL]) + 1;
  }

  /** Sized by code points, an ASCII name is copied whole. */
  lemma AsciiNameKept(name: seq<byte>)
    requires NoNul(name) && forall i :: 0 <= i < |name| ==> Code(name[i]) < 128
    ensures Kept(name, Utf8Length(name + [NUL]) + 1) == name
  {
    CStrOfTerminated(name, []);
    assert name + [NUL] + [] == name + [NUL];
    Utf8LengthBounds(name + [NUL]);
  }

  /**
   * Sized by code points, a name with a two-byte character loses its last
   * byte: "é" (C3 A9) counts one code point, gets two bytes, and comes
   * back as C3 alone.
   */
  lemma NonAsciiNameTruncated()
    ensures var name: seq<byte> := ['\U{C3}', '\U{A9}'];
      && Utf8Length(name + [NUL]) + 1 == 2
      && Kept(name, 2) == ['\U{C3}'] != name
  {
    var name: seq<byte> := ['\U{C3}', '\U{A9}'];
    var str := name + [NUL];
    CStrOfTerminated(name, []);
    assert str == name + [NUL] + [];
    assert BomSkip(str) == 0;
    assert CStr(str)[0..] == name;
    assert name[1..] == ['\U{A9}'];
    assert CountLeadBytes(name[1..][1..]) == 0;
    assert IsContinuation('\U{A9}') && !IsContinuation('\U{C3}');
  }

  /**
   * The multiple-selection build: the lengths are summed (from 0), then
   * each name is copied with its NUL to the next free byte and its offset
   * recorded.
   */
  method PackNames(names: seq<seq<byte>>) returns (ps: PathSet)
    requires AllNoNul(names)
    ensures ps == Pack(names)
  {
    var count := |names|;
    var total := 0;
    var i := 0;
    while i < count
      invariant i <= count && total == TotalSize(names[..i])
    {
      PackNext(names, i);
      var length := NameLength(names[i]);
      total := total + length;
      i := i + 1;
    }
    assert names[..count] == names;
    var indices := new nat[count];
    var buf := new byte[total];
    var at := 0;
    i := 0;
    while i < count
      invariant i <= count && at == TotalSize(names[..i]) <= buf.Length
      invariant buf[..at] == Joined(names[..i])
      invariant indices[..i] == Offsets(names)[..i]
    {
      at := PutNext(names, i, buf, indices, at);
      i := i + 1;
    }
    assert buf[..] == buf[..at];
    assert indices[..] == indices[..count];
    assert Offsets(names)[..count] == Offsets(names);
    ps := PathSet(Some(buf[..]), Some(indices[..]), count);
  }

  /** One round of the copy loop: name `i` goes to `at`, its offset into `indices[i]`. */
  method PutNext(names: seq<seq<byte>>, i: nat, buf: array<byte>, indices: array<nat>, at: nat) returns (at': nat)
    requires AllNoNul(names) && i < |names| == indices.Length && buf.Length == TotalSize(names)
    requires at == TotalSize(names[..i]) <= buf.Length && buf[..at] == Joined(names[..i])
    requires indices[..i] == Offsets(names)[..i]
    modifies buf, indices
    ensures at' == TotalSize(names[..i + 1]) <= buf.Length
    ensures buf[..at'] == Joined(names[..i + 1])
    ensures indices[..i + 1] == Offsets(names)[..i + 1]
  {
    var name := names[i];
    PackNext(names, i);
    var length := NameLength(name);
    ghost var before := buf[..];
    PutName(buf, at, name);
    CopiedPrefix(before, buf[..], at, name + [NUL]);
    indices[i] := at;
    assert indices[..i + 1] == indices[..i] + [at];
    OffsetsSnoc(names, i);
    at' := at + length;
  }

  // ----- the save path -----

  const SLASH: byte := '/'

  /** The part of a path after its last '/'. */
  function AfterLastSlash(p: seq<byte>): (name: seq<byte>)
    ensures SLASH !in name && |name| <= |p| && name == p[|p| - |name|..]
  {
    if p == [] || p[|p| - 1] == SLASH then []
    else AfterLastSlash(p[..|p| - 1]) + [p[|p| - 1]]
  }

  /**
   * The save path: a buffer of `dirlength + namelength + 2` bytes holding
   * the directory, '/', the name and one NUL.
   */
  method SavePath(dir: seq<byte>, filename: seq<byte>) returns (out: seq<byte>)
    requires NoNul(dir) && NoNul(filename)
    ensures out == dir + [SLASH] + filename + [NUL]
    ensures NUL in out && CStr(out) == dir + [SLASH] + filename
  {
    var dirlength := |dir|;
    var namelength := |filename|;
    var buf := new byte[dirlength + namelength + 2];
    ghost var b0 := buf[..];
    PutName(buf, 0, dir);
    ghost var b1 := buf[..];
    buf[dirlength] := SLASH;
    ghost var b2 := buf[..];
    PutName(buf, dirlength + 1, filename);
    out := buf[..];
    assert out == dir + [SLASH] + filename + [NUL] by {
      assert out[..dirlength + 1] == b2[..dirlength + 1];
      assert b2[..dirlength + 1] == dir + [SLASH] by {
        assert b1[..dirlength] == dir;
      }
    }
    CStrOfTerminated(dir + [SLASH] + filename, []);
    assert dir + [SLASH] + filename + [NUL] + [] == out;
  }

  /** The name is what follows the last '/' of the saved path, when it holds no '/' itself. */
  lemma {:induction false} SaveNameRecovered(dir: seq<byte>, filename: seq<byte>)
    requires SLASH !in filename
    ensures AfterLastSlash(dir + [SLASH] + filename) == filename
    decreases |filename|
  {
    var head := dir + [SLASH];
    var p := head + filename;
    if filename == [] {
      assert p == head;
    } else {
      var init := filename[..|filename| - 1];
      var c := filename[|filename| - 1];
      assert c != SLASH;
      assert p == (head + init) + [c];
      assert p[..|p| - 1] == head + init;
      SaveNameRecovered(dir, init);
      assert init + [c] == filename;
    }
  }

  // ----- the dialogs -----

  const NO_APP_HEAD: seq<byte> := "You need a valid BApplication "
  const NO_APP_MSG: seq<byte> := NO_APP_HEAD + "before you can open a file open dialog!"
  const PORT_TAIL: seq<byte> := "port for communicating with BFilePanel"
  const PORT_MSG: seq<byte> := "Couldn't create " + PORT_TAIL
  const SAVE_PORT_MSG: seq<byte> := "Haiku couldn't create " + PORT_TAIL
  const REF_COUNT_MSG: seq<byte> := "Got invalid count of refs back"
  const RESPONSE_MSG: seq<byte> := "Got invalid response from port"

  /** How the panel is set up: the filter it consults, the directory it opens in. */
  datatype Panel = Panel(extensions: Option<seq<seq<byte>>>, directory: Option<seq<byte>>)

  /** The filter an open panel gets: one exactly when the filter list is given and not empty. */
  function PanelFilter(filterList: Option<seq<byte>>, prependStored: bool): Option<seq<seq<byte>>>
  {
    if filterList.Some? && filterList.value != [] then Some(Stored(ExtensionList(filterList.value), prependStored)) else None
  }

  /** Sets up an open panel as both open dialogs do. */
  method OpenPanel(filterList: Option<seq<byte>>, defaultPath: Option<seq<byte>>, prependStored: bool) returns (panel: Panel)
    ensures panel == Panel(PanelFilter(filterList, prependStored), defaultPath)
  {
    var extensions: Option<seq<seq<byte>>> := None;
    if filterList.Some? && filterList.value != [] {
      var filter := new ExtensionRefFilter(filterList.value, prependStored);
      extensions := Some(filter.mExtensions);
    }
    panel := Panel(extensions, defaultPath);
  }

  /**
   * `NFD_OpenDialog`. `hasApp` is whether `be_app` is set, `portOk`
   * whether the port is created, `msgs` what the panel sends the handler
   * and `stale` the unset parts of the reply; `read_port` returns
   * `PortReply(msgs, stale)`. `panel` is how the panel was set up (`None`:
   * no panel).
   */
  method OpenDialog(filterList: Option<seq<byte>>, defaultPath: Option<seq<byte>>, prependStored: bool,
                    hasApp: bool, portOk: bool, msgs: seq<PanelMessage>, stale: PortMessage)
    returns (result: NfdResult, outPath: Option<seq<byte>>, panel: Option<Panel>, message: Option<seq<byte>>)
    requires Answered(msgs) && (Answer(msgs).RefsReceived? ==> AllNoNul(Answer(msgs).refs))
    ensures !hasApp ==> result == Error && outPath.None? && panel.None? && message == Some(NO_APP_MSG)
    ensures hasApp && !portOk ==> result == Error && outPath.None? && panel.None? && message == Some(PORT_MSG)
    ensures hasApp && portOk ==> panel == Some(Panel(PanelFilter(filterList, prependStored), defaultPath))
    ensures hasApp && portOk && Answer(msgs).Cancelled? ==> result == Cancel && outPath.None? && message.None?
    ensures hasApp && portOk && Answer(msgs).RefsReceived? && |Answer(msgs).refs| != 1 ==>
      result == Error && outPath.None? && message == Some(REF_COUNT_MSG)
    ensures hasApp && portOk && Answer(msgs).RefsReceived? && |Answer(msgs).refs| == 1 ==>
      && result == Okay && message.None? && outPath.Some? && |outPath.value| == |Answer(msgs).refs[0]| + 1
      && NUL in outPath.value && CStr(outPath.value) == Answer(msgs).refs[0]
    ensures hasApp && portOk && Answer(msgs).SaveRequested? ==>
      result == Error && outPath.None? && message == Some(RESPONSE_MSG)
  {
    outPath, panel := None, None;
    if !hasApp {
      return Error, outPath, panel, Some(NO_APP_MSG);
    }
    if !portOk {
      return Error, outPath, panel, Some(PORT_MSG);
    }
    var p := OpenPanel(filterList, defaultPath, prependStored);
    panel := Some(p);
    var reply := PortReply(msgs, stale);
    if reply.code == CANCEL_RESPONSE {
      return Cancel, outPath, panel, None;
    } else if reply.code == OPEN_RESPONSE {
      if |reply.refs| != 1 {
        return Error, outPath, panel, Some(REF_COUNT_MSG);
      }
      var name := reply.refs[0];
      var length := NameLength(name);
      var out := CopyName(name, length);
      return Okay, Some(out), panel, None;
    }
    return Error, outPath, panel, Some(RESPONSE_MSG);
  }

  /**
   * `NFD_OpenDialogMultiple`: as `OpenDialog`, but any number of refs is
   * accepted and packed into the path set; `ps0` is the caller's path set,
   * left as it was unless the result is `Okay`.
   */
  method OpenDialogMultiple(filterList: Option<seq<byte>>, defaultPath: Option<seq<byte>>, prependStored: bool,
                            hasApp: bool, portOk: bool, msgs: seq<PanelMessage>, stale: PortMessage, ps0: PathSet)
    returns (result: NfdResult, ps: PathSet, panel: Option<Panel>, message: Option<seq<byte>>)
    requires Answered(msgs) && (Answer(msgs).RefsReceived? ==> AllNoNul(Answer(msgs).refs))
    ensures result != Okay ==> ps == ps0
    ensures !hasApp ==> result == Error && panel.None? && message == Some(NO_APP_MSG)
    ensures hasApp && !portOk ==> result == Error && panel.None? && message == Some(PORT_MSG)
    ensures hasApp && portOk ==> panel == Some(Panel(PanelFilter(filterList, prependStored), defaultPath))
    ensures hasApp && portOk && Answer(msgs).Cancelled? ==> result == Cancel && message.None?
    ensures hasApp && portOk && Answer(msgs).RefsReceived? ==>
      result == Okay && ps == Pack(Answer(msgs).refs) && message.None?
    ensures hasApp && portOk && Answer(msgs).SaveRequested? ==> result == Error && message == Some(RESPONSE_MSG)
  {
    ps, panel := ps0, None;
    if !hasApp {
      return Error, ps, panel, Some(NO_APP_MSG);
    }
    if !portOk {
      return Error, ps, panel, Some(PORT_MSG);
    }
    var p := OpenPanel(filterList, defaultPath, prependStored);
    panel := Some(p);
    var reply := PortReply(msgs, stale);
    if reply.code == CANCEL_RESPONSE {
      return Cancel, ps, panel, None;
    } else if reply.code == OPEN_RESPONSE {
      ps := PackNames(reply.refs);
      return Okay, ps, panel, None;
    }
    return Error, ps, panel, Some(RESPONSE_MSG);
  }

  /**
   * `NFD_SaveDialog`: no filter is installed; a save reply gives the
   * directory's path, '/', and the typed name.
   */
  method SaveDialog(defaultPath: Option<seq<byte>>, hasApp: bool, portOk: bool, msgs: seq<PanelMessage>, stale: PortMessage)
    returns (result: NfdResult, outPath: Option<seq<byte>>, panel: Option<Panel>, message: Option<seq<byte>>)
    requires Answered(msgs)
    requires Answer(msgs).SaveRequested? ==> NoNul(Answer(msgs).directory) && NoNul(Answer(msgs).name)
    ensures !hasApp ==> result == Error && outPath.None? && panel.None? && message == Some(NO_APP_MSG)
    ensures hasApp && !portOk ==> result == Error && outPath.None? && panel.None? && message == Some(SAVE_PORT_MSG)
    ensures hasApp && portOk ==> panel == Some(Panel(None, defaultPath))
    ensures hasApp && portOk && Answer(msgs).Cancelled? ==> result == Cancel && outPath.None? && message.None?
    ensures hasApp && portOk && Answer(msgs).SaveRequested? ==>
      && result == Okay && message.None?
      && outPath == Some(Answer(msgs).directory + [SLASH] + Answer(msgs).name + [NUL])
    ensures hasApp && portOk && Answer(msgs).RefsReceived? ==>
      result == Error && outPath.None? && message == Some(RESPONSE_MSG)
  {
    outPath, panel := None, None;
    if !hasApp {
      return Error, outPath, panel, Some(NO_APP_MSG);
    }
    if !portOk {
      return Error, outPath, panel, Some(SAVE_PORT_MSG);
    }
    panel := Some(Panel(None, defaultPath));
    var reply := PortReply(msgs, stale);
    if reply.code == CANCEL_RESPONSE {
      return Cancel, outPath, panel, None;
    } else if reply.code == SAVE_RESPONSE {
      var out := SavePath(reply.directory, reply.filename);
      return Okay, Some(out), panel, None;
    }
    return Error, outPath, panel, Some(RESPONSE_MSG);
  }
}
