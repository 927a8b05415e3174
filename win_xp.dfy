/**
 * The Win32 XP backend (`nfd_win_xp.c`, non-Unicode build): reading the
 * dialog's double-NUL-terminated result block, the `LegacyNFDWin` driver
 * and the multiple-selection path set.
 */
module WinXp {
  import opened Bytes
  import opened Wrappers
  import opened Nfd
  import opened Common
  import opened WinXpFilter
  import opened FilterList
  import opened Win32
  import opened Memory

  // ----- the result block -----

  /** Two NULs in a row at `k`. */
  predicate DoubleNulAt(s: seq<byte>, k: nat)
  {
    k + 1 < |s| && s[k] == NUL && s[k + 1] == NUL
  }

  /** The first double NUL at or after `from`. */
  function FirstDoubleNul(s: seq<byte>, from: nat): (k: nat)
    requires exists j :: from <= j && DoubleNulAt(s, j)
    ensures from <= k && DoubleNulAt(s, k)
    ensures forall j :: from <= j < k ==> !DoubleNulAt(s, j)
    decreases |s| - from
  {
    if DoubleNulAt(s, from) then from
    else
      assert exists j :: from + 1 <= j && DoubleNulAt(s, j) by {
        var j :| from <= j && DoubleNulAt(s, j);
        assert j != from;
      }
      FirstDoubleNul(s, from + 1)
  }

  /** The bytes the copy keeps: everything up to and including the first NUL of the double terminator. */
  function Block(s: seq<byte>): seq<byte>
    requires exists j :: DoubleNulAt(s, j)
  {
    s[..FirstDoubleNul(s, 0) + 1]
  }

  /** How many NULs `s` holds: one per substring of a block. */
  function NulCount(s: seq<byte>): nat
  {
    multiset(s)[NUL]
  }

  /**
   * `CopyMultiTCharToNFDChar`: counts the substrings (one per NUL, up to
   * the first NUL of the double terminator) and copies them with their
   * NULs. The count is never 0, so the source's `!numStrings` test never
   * succeeds; 0 is returned only when the allocation (`allocOk`) fails.
   */
  method CopyMultiTCharToNFDChar(inStr: seq<byte>, allocOk: bool) returns (numStrings: nat, outStr: Option<seq<byte>>)
    requires exists j :: DoubleNulAt(inStr, j)
    ensures allocOk ==> numStrings == NulCount(Block(inStr)) && numStrings >= 1 && outStr == Some(Block(inStr))
    ensures !allocOk ==> numStrings == 0 && outStr == None
  {
    ghost var k := FirstDoubleNul(inStr, 0);
    var i := 0;
    numStrings := 0;
    while true
      invariant i <= k && numStrings == NulCount(inStr[..i])
      decreases k - i
    {
      assert inStr[..i + 1] == inStr[..i] + [inStr[i]];
      if inStr[i] == NUL {
        numStrings := numStrings + 1;
      }
      if inStr[i] == NUL && inStr[i + 1] == NUL {
        assert DoubleNulAt(inStr, i);
        break;
      }
      assert !DoubleNulAt(inStr, i);
      i := i + 1;
    }
    assert i == k;
    if !allocOk {
      return 0, None;
    }
    outStr := Some(inStr[..i + 1]);
  }

  /** No double NUL inside a run of non-empty packed strings that is followed by a non-NUL byte. */
  lemma {:induction false} NoDoubleNulWithin(parts: seq<seq<byte>>, tail: seq<byte>)
    requires AllNoNul(parts) && forall i :: 0 <= i < |parts| ==> parts[i] != []
    requires tail != [] && tail[0] != NUL
    ensures forall j :: 0 <= j < TotalSize(parts) ==> !DoubleNulAt(Joined(parts) + tail, j)
    decreases |parts|
  {
    if parts != [] {
      var init := parts[..|parts| - 1];
      var last := parts[|parts| - 1];
      var tail' := last + [NUL] + tail;
      assert tail'[0] == last[0] && last[0] in last;
      NoDoubleNulWithin(init, tail');
      var s := Joined(parts) + tail;
      assert s == Joined(init) + tail';
      var b := TotalSize(init);
      forall j | b <= j < TotalSize(parts)
        ensures !DoubleNulAt(s, j)
      {
        if j < b + |last| {
          assert s[j] == last[j - b];
        } else {
          assert s[j + 1] == tail[0];
        }
      }
    }
  }

  /**
   * The block the dialog returns for a selection: the strings (the path
   * of a single file, or the directory and then each file name), each
   * with its NUL, then one more NUL. The copy keeps them all.
   */
  lemma SelectionBlock(selection: seq<seq<byte>>, rest: seq<byte>, s: seq<byte>)
    requires |selection| >= 1 && AllNoNul(selection) && forall i :: 0 <= i < |selection| ==> selection[i] != []
    requires s == Joined(selection) + [NUL] + rest
    ensures exists j :: DoubleNulAt(s, j)
    ensures Block(s) == Joined(selection)
  {
    var joined := Joined(selection);
    var k := TotalSize(selection) - 1;
    SelectionTerminator(selection, rest, s);
    assert DoubleNulAt(s, k) && FirstDoubleNul(s, 0) == k;
    PrefixOf(joined, [NUL], rest, s);
    assert |joined| == k + 1 && s[..|joined|] == joined;
    BlockIs(s, k, joined);
  }

  lemma BlockIs(s: seq<byte>, k: nat, block: seq<byte>)
    requires DoubleNulAt(s, k) && FirstDoubleNul(s, 0) == k && |block| == k + 1 && s[..|block|] == block
    ensures exists j :: DoubleNulAt(s, j)
    ensures Block(s) == block
  {
  }

  /** The double terminator of a selection's block is its first double NUL. */
  lemma SelectionTerminator(selection: seq<seq<byte>>, rest: seq<byte>, s: seq<byte>)
    requires |selection| >= 1 && AllNoNul(selection) && forall i :: 0 <= i < |selection| ==> selection[i] != []
    requires s == Joined(selection) + [NUL] + rest
    ensures DoubleNulAt(s, TotalSize(selection) - 1)
    ensures FirstDoubleNul(s, 0) == TotalSize(selection) - 1
  {
    TerminatorFirst(selection, rest, s, TotalSize(selection) - 1);
    FirstDoubleNulIs(s, TotalSize(selection) - 1);
  }

  lemma PrefixThenRest(p: seq<byte>, s: seq<byte>)
    requires p <= s
    ensures s == p + s[|p|..]
  {
  }

  lemma PrefixOf(a: seq<byte>, b: seq<byte>, c: seq<byte>, s: seq<byte>)
    requires s == a + b + c
    ensures s[..|a|] == a
  {
    assert s[..|a|] == (a + b + c)[..|a|];
  }

  /** The final NUL of the last string, followed by the extra NUL, is the first double NUL. */
  lemma TerminatorFirst(selection: seq<seq<byte>>, rest: seq<byte>, s: seq<byte>, K: int)
    requires |selection| >= 1 && AllNoNul(selection) && forall i :: 0 <= i < |selection| ==> selection[i] != []
    requires s == Joined(selection) + [NUL] + rest && K == TotalSize(selection) - 1
    ensures 0 <= K && DoubleNulAt(s, K)
    ensures forall j :: 0 <= j < K ==> !DoubleNulAt(s, j)
  {
    var n := |selection|;
    var init := selection[..n - 1];
    var last := selection[n - 1];
    assert selection == init + [last];
    JoinedAppend(init, last);
    var tail := last + [NUL, NUL] + rest;
    LastStringLayout(Joined(init), last, rest, s, tail);
    assert tail[..|last| + 2] == last + [NUL, NUL];
    assert tail[0] == last[0] && last[0] in last;
    NoDoubleNulWithin(init, tail);
    LastStringScan(Joined(init), last, tail, s);
  }

  lemma LastStringLayout(front: seq<byte>, last: seq<byte>, rest: seq<byte>, s: seq<byte>, tail: seq<byte>)
    requires s == front + last + [NUL] + [NUL] + rest && tail == last + [NUL, NUL] + rest
    ensures s == front + tail
  {
  }

  /** Inside the last string, before its NUL, there is no double NUL. */
  lemma LastStringScan(front: seq<byte>, last: seq<byte>, tail: seq<byte>, s: seq<byte>)
    requires NoNul(last) && |last| + 2 <= |tail| && tail[..|last| + 2] == last + [NUL, NUL] && s == front + tail
    ensures DoubleNulAt(s, |front| + |last|)
    ensures forall j :: |front| <= j < |front| + |last| ==> !DoubleNulAt(s, j)
  {
    assert tail[|last|] == tail[..|last| + 2][|last|] == NUL;
    assert tail[|last| + 1] == tail[..|last| + 2][|last| + 1] == NUL;
    assert s[|front| + |last|] == tail[|last|];
    assert s[|front| + |last| + 1] == tail[|last| + 1];
    forall j | |front| <= j < |front| + |last|
      ensures !DoubleNulAt(s, j)
    {
      assert s[j] == tail[j - |front|] == tail[..|last| + 2][j - |front|] == last[j - |front|];
    }
  }

  lemma FirstDoubleNulIs(s: seq<byte>, K: nat)
    requires DoubleNulAt(s, K) && forall j :: 0 <= j < K ==> !DoubleNulAt(s, j)
    ensures exists j :: DoubleNulAt(s, j)
    ensures FirstDoubleNul(s, 0) == K
  {
    var k := FirstDoubleNul(s, 0);
    assert !(k < K) && !(K < k);
  }

  lemma {:induction false} NulCountJoined(parts: seq<seq<byte>>)
    requires AllNoNul(parts)
    ensures NulCount(Joined(parts)) == |parts|
    decreases |parts|
  {
    if parts != [] {
      var init := parts[..|parts| - 1];
      var last := parts[|parts| - 1];
      NulCountJoined(init);
      assert NUL !in last;
      assert multiset(last)[NUL] == 0;
      assert multiset(Joined(parts)) == multiset(Joined(init)) + multiset(last) + multiset([NUL]);
    }
  }

  // ----- the driver -----

  const FILTER_ERROR: seq<byte> := "Could not prepare filter list."

  /** What the filter conversion needs of a filter list: no first ';' and a result that fits its 1024-byte buffers. */
  predicate FilterFits(f: seq<byte>)
  {
    NUL !in f && (f != [] ==> f[0] != GROUP_SEP && |Converted(f)| < FILTER_BUF && forall i :: 0 <= i < |Groups(f)| ==> |Groups(f)[i]| < FILTER_BUF)
  }

  /** What the dialog leaves in its buffer: a C string, or in `Multi` mode a double-NUL-terminated list. */
  ghost predicate DialogWrote(mode: Mode, buffer: seq<byte>)
  {
    if mode == Multi then exists j :: DoubleNulAt(buffer, j) else NUL in buffer
  }

  /** The filter the dialog receives: the converted list, or a null pointer when no list is given. */
  function DialogFilter(filterList: Option<seq<byte>>): Option<seq<byte>>
    requires filterList.Some? ==> FilterFits(filterList.value)
  {
    if Given(filterList) then Some(TabsToNul(Converted(filterList.value)) + [NUL]) else None
  }

  /** The path count of a multiple selection: one per string, less one for the directory when there are several. */
  function MultiCount(numStrings: nat): nat
  {
    if numStrings > 1 then numStrings - 1 else numStrings
  }

  /** Both argument conversions succeed, so the dialog is shown. */
  predicate Prepared(filterList: Option<seq<byte>>, defaultPath: Option<seq<byte>>, filterAllocOk: bool, pathAllocOk: bool)
  {
    (!Given(filterList) || filterAllocOk) && (!Given(defaultPath) || pathAllocOk)
  }

  /**
   * `LegacyNFDWin`. The filter allocation, the `strdup` of the default
   * path and the copy of the dialog's result each succeed or fail as the
   * corresponding flag says; `dialog` is what the dialog call returns
   * (`None`: it returned FALSE) and `request` the dialog it is asked for
   * (`None`: not shown). `count` is the path set's count, which the caller
   * has zeroed. `message` is what goes to `NFDi_SetError`.
   */
  method LegacyNFDWin(filterList: Option<seq<byte>>, defaultPath: Option<seq<byte>>, mode: Mode,
                      filterAllocOk: bool, pathAllocOk: bool, dialog: Option<seq<byte>>, copyAllocOk: bool)
    returns (result: NfdResult, outPath: Option<seq<byte>>, count: nat, request: Option<DialogRequest>, message: Option<seq<byte>>)
    requires filterList.Some? ==> FilterFits(filterList.value)
    requires defaultPath.Some? ==> NoNul(defaultPath.value)
    requires dialog.Some? ==> DialogWrote(mode, dialog.value)
    ensures message == if Given(filterList) && !filterAllocOk then Some(FILTER_ERROR) else None
    ensures request.Some? <==> Prepared(filterList, defaultPath, filterAllocOk, pathAllocOk)
    ensures request.Some? ==> request.value == Request(mode, DialogFilter(filterList), DialogDir(defaultPath))
    ensures request.None? ==> result == Error && outPath.None? && count == 0
    ensures request.Some? && dialog.None? ==> result == Cancel && outPath.None? && count == 0
    ensures request.Some? && dialog.Some? && mode == Multi ==>
      if copyAllocOk then result == Okay && outPath == Some(Block(dialog.value)) && count == MultiCount(NulCount(Block(dialog.value))) >= 1
      else result == Error && outPath.None? && count == 0
    ensures request.Some? && dialog.Some? && mode != Multi ==>
      count == 0 && if copyAllocOk then result == Okay && outPath == Some(CStr(dialog.value)) else result == Error && outPath.None?
  {
    result, outPath, count, request, message := Error, None, 0, None, None;
    var filter: Option<seq<byte>> := None;
    if filterList.Some? && filterList.value != [] {
      var failed;
      failed, filter := ConvertNFDFilterList(filterList.value, filterAllocOk);
      if failed {
        message := Some(FILTER_ERROR);
        return;
      }
    }
    var path: Option<seq<byte>> := None;
    if defaultPath.Some? && defaultPath.value != [] {
      // CopyNFDCharToTChar: strdup
      if !pathAllocOk {
        return;
      }
      path := defaultPath;
    }
    request := Some(Request(mode, filter, path));
    if dialog.None? {
      result := Cancel;
      return;
    }
    var buffer := dialog.value;
    if mode == Multi {
      count, outPath := CopyMultiTCharToNFDChar(buffer, copyAllocOk);
      if count == 0 {
        return;
      }
      if count > 1 {
        count := count - 1;
      }
    } else {
      // CopyTCharToNFDChar: strdup
      if !copyAllocOk {
        return;
      }
      outPath := Some(CStr(buffer));
    }
    result := Okay;
  }

  // ----- the multiple selection -----

  /** What the dialog returns for a selection: its strings (non-empty, NUL-free), each with its NUL, then one more NUL. */
  predicate SelectionReturned(selection: seq<seq<byte>>, buffer: seq<byte>)
  {
    |selection| >= 1 && AllNoNul(selection) && (forall i :: 0 <= i < |selection| ==> selection[i] != []) &&
    Joined(selection) + [NUL] <= buffer
  }

  /** The dialog's buffer holds the selection's block, and the copy gives it back with one NUL per string. */
  lemma SelectionCopied(selection: seq<seq<byte>>, buffer: seq<byte>)
    requires SelectionReturned(selection, buffer)
    ensures DialogWrote(Multi, buffer)
    ensures Block(buffer) == Joined(selection) && NulCount(Block(buffer)) == |selection|
  {
    var rest := buffer[TotalSize(selection) + 1..];
    PrefixThenRest(Joined(selection) + [NUL], buffer);
    SelectionBlock(selection, rest, buffer);
    NulCountJoined(selection);
  }

  /**
   * The three string operations that fill one slot: `strcpy` of the
   * directory, `strcat` of the backslash, `strcat` of the file name,
   * giving the joined path and its NUL.
   */
  lemma SlotFilled(b0: seq<byte>, b1: seq<byte>, b2: seq<byte>, b3: seq<byte>, off: nat, dir: seq<byte>, file: seq<byte>)
    requires off + |dir| + |file| + 2 <= |b0|
    requires b1 == b0[..off] + (dir + [NUL]) + b0[off + |dir| + 1..]
    requires b2 == b1[..off + |dir|] + ([BACKSLASH] + [NUL]) + b1[off + |dir| + 2..]
    requires b3 == b2[..off + |dir| + 1] + (file + [NUL]) + b2[off + |dir| + |file| + 2..]
    ensures |b3| == |b0|
    ensures b3[..off + |dir| + |file| + 2] == b0[..off] + (dir + [BACKSLASH] + file) + [NUL]
  {
    PrefixAfterCopy(b0, b1, off, dir + [NUL], off + |dir|);
    assert (dir + [NUL])[..|dir|] == dir;
    PrefixAfterCopy(b1, b2, off + |dir|, [BACKSLASH] + [NUL], off + |dir| + 1);
    PrefixAfterCopy(b2, b3, off + |dir| + 1, file + [NUL], off + |dir| + |file| + 2);
  }

  /** After the `strcpy` of the directory, the C string at the slot is the directory. */
  lemma DirCopied(b0: seq<byte>, b1: seq<byte>, off: nat, dir: seq<byte>)
    requires off + |dir| + 1 <= |b0| && NoNul(dir)
    requires b1 == b0[..off] + (dir + [NUL]) + b0[off + |dir| + 1..]
    ensures |b1| == |b0| && b1[off..off + |dir|] == dir && b1[off + |dir|] == NUL
  {
    assert b1[off..off + |dir| + 1] == dir + [NUL];
  }

  /** After the `strcat` of the backslash, the C string at the slot is the directory and a backslash. */
  lemma SepAppended(b1: seq<byte>, b2: seq<byte>, off: nat, dir: seq<byte>)
    requires off + |dir| + 2 <= |b1| && NoNul(dir) && b1[off..off + |dir|] == dir
    requires b2 == b1[..off + |dir|] + ([BACKSLASH] + [NUL]) + b1[off + |dir| + 2..]
    ensures |b2| == |b1| && b2[off..off + |dir| + 1] == dir + [BACKSLASH] && b2[off + |dir| + 1] == NUL
  {
    assert b2[off..off + |dir| + 2] == (dir + [BACKSLASH]) + [NUL];
  }

  /**
   * The index loop: slot `i` starts where the joined paths before it end,
   * and the buffer needs exactly the joined paths' total size.
   */
  method IndexSlots(block: seq<byte>, dirLen: nat, count: nat, ghost selection: seq<seq<byte>>)
    returns (indices: array<nat>, bufferLen: nat)
    requires |selection| == count + 1 && AllNoNul(selection) && block == Joined(selection)
    requires dirLen == |selection[0]| + 1
    ensures fresh(indices)
    ensures indices[..] == Offsets(DirFiles(selection[0], selection[1..]))
    ensures bufferLen == TotalSize(DirFiles(selection[0], selection[1..]))
  {
    ghost var files := selection[1..];
    ghost var paths := DirFiles(selection[0], files);
    indices := new nat[count];
    var walk := dirLen;
    bufferLen := 0;
    var i := 0;
    OffsetStep(selection, 0);
    assert selection[..0] == [];
    while i < count
      invariant 0 <= i <= count
      invariant walk == Offset(selection, i + 1)
      invariant bufferLen == Offset(paths, i)
      invariant indices[..i] == Offsets(paths)[..i]
    {
      PutIndex(indices, i, bufferLen, paths);
      IndexStep(selection, paths, block, i, walk, dirLen, bufferLen);
      var len := Strlen(block[walk..]);
      bufferLen := bufferLen + dirLen + len + 1;
      walk := walk + len + 1;
      i := i + 1;
    }
    assert paths[..count] == paths;
    assert indices[..] == indices[..count];
  }

  /** Storing the running offset as entry `i` extends the filled prefix of `indices` by one. */
  method PutIndex(indices: array<nat>, i: nat, bufferLen: nat, ghost paths: seq<seq<byte>>)
    modifies indices
    requires i < indices.Length && i < |paths| && bufferLen == Offset(paths, i)
    requires indices[..i] == Offsets(paths)[..i]
    ensures indices[..i + 1] == Offsets(paths)[..i + 1]
    ensures indices[i + 1..] == old(indices[i + 1..])
  {
    indices[i] := bufferLen;
    assert indices[..i + 1] == indices[..i] + [bufferLen];
    OffsetsSnoc(paths, i);
  }

  /** The `strlen` at `walk` measures file `i`, and both running offsets step past it. */
  lemma IndexStep(selection: seq<seq<byte>>, paths: seq<seq<byte>>, block: seq<byte>, i: nat, walk: nat, dirLen: nat, bufferLen: nat)
    requires i + 1 < |selection| && AllNoNul(selection) && block == Joined(selection)
    requires walk == Offset(selection, i + 1) && dirLen == |selection[0]| + 1
    requires paths == DirFiles(selection[0], selection[1..]) && bufferLen == Offset(paths, i)
    ensures walk < |block| && NUL in block[walk..] && Strlen(block[walk..]) == |selection[i + 1]|
    ensures walk + |selection[i + 1]| + 1 == Offset(selection, i + 2)
    ensures bufferLen + dirLen + |selection[i + 1]| + 1 == Offset(paths, i + 1)
  {
    FileAtWalk(selection, block, i, walk);
    OffsetStep(paths, i);
    assert paths[i] == selection[0] + [BACKSLASH] + selection[1..][i];
  }

  /** One slot: `strcpy` the directory to `str`, then `strcat` a backslash and the file name. */
  method FillSlot(buf: array<byte>, str: nat, dir: seq<byte>, file: seq<byte>)
    requires NoNul(dir) && str + |dir| + |file| + 2 <= buf.Length
    modifies buf
    ensures buf[..str + |dir| + |file| + 2] == old(buf[..str]) + (dir + [BACKSLASH] + file) + [NUL]
  {
    ghost var b0 := buf[..];
    MemCpy(buf, str, dir + [NUL]);
    ghost var b1 := buf[..];
    DirCopied(b0, b1, str, dir);
    StrCat(buf, str, [BACKSLASH], |dir|);
    ghost var b2 := buf[..];
    SepAppended(b1, b2, str, dir);
    assert NoNul(dir + [BACKSLASH]);
    StrCat(buf, str, file, |dir| + 1);
    SlotFilled(b0, b1, b2, buf[..], str, dir, file);
    assert b0[..str] == old(buf[..str]);
  }

  /** The walk at string `i + 1` of the block reads that string and steps past its NUL. */
  lemma FileAtWalk(selection: seq<seq<byte>>, block: seq<byte>, i: nat, walk: nat)
    requires i + 1 < |selection| && AllNoNul(selection) && block == Joined(selection)
    requires walk == Offset(selection, i + 1)
    ensures walk + |selection[i + 1]| < |block|
    ensures NUL in block[walk..] && CStr(block[walk..]) == selection[i + 1]
    ensures walk + |selection[i + 1]| + 1 == Offset(selection, i + 2)
  {
    JoinedAt(selection, i + 1);
  }

  /** Slot `i` holds the directory, a backslash and the file name at `walk`, and fits the buffer. */
  lemma SlotAt(selection: seq<seq<byte>>, paths: seq<seq<byte>>, block: seq<byte>, i: nat, walk: nat, str: nat, bufLen: nat)
    requires i + 1 < |selection| && AllNoNul(selection) && block == Joined(selection)
    requires paths == DirFiles(selection[0], selection[1..]) && bufLen == TotalSize(paths)
    requires walk == Offset(selection, i + 1) && str == Offset(paths, i)
    ensures walk + |selection[i + 1]| < |block| && NUL in block[walk..]
    ensures var file := CStr(block[walk..]);
      && file == selection[i + 1]
      && paths[i] == selection[0] + [BACKSLASH] + file
      && str + |selection[0]| + |file| + 2 <= bufLen
    ensures walk + |selection[i + 1]| + 1 == Offset(selection, i + 2)
  {
    FileAtWalk(selection, block, i, walk);
    assert paths[i] == selection[0] + [BACKSLASH] + selection[1..][i];
    SlotFits(paths, i, selection[0], selection[i + 1]);
  }

  /** Slot `i` and its NUL fit in the buffer of all the joined paths. */
  lemma SlotFits(paths: seq<seq<byte>>, i: nat, dir: seq<byte>, file: seq<byte>)
    requires i < |paths| && paths[i] == dir + [BACKSLASH] + file
    ensures Offset(paths, i) + |dir| + |file| + 2 == Offset(paths, i + 1) <= TotalSize(paths)
  {
    PackNext(paths, i);
  }

  /** Filling slot `i` after the first `i` paths leaves the first `i + 1` paths packed. */
  lemma SlotStep(paths: seq<seq<byte>>, i: nat, dir: seq<byte>, file: seq<byte>, pre: seq<byte>, post: seq<byte>)
    requires i < |paths| && paths[i] == dir + [BACKSLASH] + file
    requires Offset(paths, i) <= |pre| && pre[..Offset(paths, i)] == Joined(paths[..i])
    requires Offset(paths, i) + |dir| + |file| + 2 <= |post|
    requires post[..Offset(paths, i) + |dir| + |file| + 2] == pre[..Offset(paths, i)] + (dir + [BACKSLASH] + file) + [NUL]
    ensures Offset(paths, i + 1) == Offset(paths, i) + |dir| + |file| + 2
    ensures post[..Offset(paths, i + 1)] == Joined(paths[..i + 1])
  {
    PackNext(paths, i);
  }

  /**
   * The fill loop: at each recorded offset, `strcpy` the directory, then
   * `strcat` a backslash and the next file name.
   */
  method FillSlots(block: seq<byte>, dir: seq<byte>, indices: array<nat>, buf: array<byte>, ghost selection: seq<seq<byte>>)
    requires |selection| >= 1 && AllNoNul(selection) && block == Joined(selection) && dir == selection[0]
    requires indices[..] == Offsets(DirFiles(dir, selection[1..]))
    requires buf.Length == TotalSize(DirFiles(dir, selection[1..]))
    modifies buf
    ensures buf[..] == Joined(DirFiles(dir, selection[1..]))
  {
    ghost var files := selection[1..];
    ghost var paths := DirFiles(dir, files);
    var count := indices.Length;
    var walk := |dir| + 1;
    var i := 0;
    OffsetStep(selection, 0);
    assert selection[..0] == [];
    assert NoNul(dir);
    while i < count
      invariant 0 <= i <= count && |paths| == count
      invariant walk == Offset(selection, i + 1)
      invariant Offset(paths, i) <= buf.Length
      invariant buf[..Offset(paths, i)] == Joined(paths[..i])
    {
      var str := indices[i];
      SlotAt(selection, paths, block, i, walk, str, buf.Length);
      var file := CStr(block[walk..]);
      ghost var pre := buf[..];
      FillSlot(buf, str, dir, file);
      SlotStep(paths, i, dir, file, pre, buf[..]);
      walk := walk + |file| + 1;
      i := i + 1;
    }
    assert paths[..count] == paths;
    assert buf[..] == buf[..Offset(paths, count)];
  }

  /**
   * `NFD_OpenDialogMultiple`. `selection` is what the dialog returned: one
   * full path, or the directory followed by the file names. One string is
   * handed over as it is. Several give one path per file name, the
   * directory joined to it with a backslash. Two strings (a directory and
   * one name), which the dialog does not produce, would give a count of
   * one and hand the buffer over unchanged, as for one string.
   */
  method OpenDialogMultiple(filterList: Option<seq<byte>>, defaultPath: Option<seq<byte>>,
                            filterAllocOk: bool, pathAllocOk: bool, dialog: Option<seq<byte>>, copyAllocOk: bool,
                            indicesAllocOk: bool, bufAllocOk: bool, ghost selection: seq<seq<byte>>)
    returns (result: NfdResult, ps: PathSet, message: Option<seq<byte>>)
    requires filterList.Some? ==> FilterFits(filterList.value)
    requires defaultPath.Some? ==> NoNul(defaultPath.value)
    requires dialog.Some? ==> SelectionReturned(selection, dialog.value)
    ensures message == if Given(filterList) && !filterAllocOk then Some(FILTER_ERROR) else None
    ensures result == Cancel <==> Prepared(filterList, defaultPath, filterAllocOk, pathAllocOk) && dialog.None?
    ensures result == Okay <==>
      (Prepared(filterList, defaultPath, filterAllocOk, pathAllocOk) && dialog.Some? && copyAllocOk && indicesAllocOk && (|selection| <= 2 || bufAllocOk))
    ensures result == Okay && |selection| <= 2 ==> ps == PathSet(Some(Joined(selection)), Some([0]), 1)
    ensures result == Okay && |selection| == 1 ==> ps == Pack(selection)
    ensures result == Okay && |selection| > 2 ==> ps == Pack(DirFiles(selection[0], selection[1..]))
    ensures result != Okay ==>
      (ps.buf.None? && ps.indices.None? &&
       ps.count == if Prepared(filterList, defaultPath, filterAllocOk, pathAllocOk) && dialog.Some? && copyAllocOk then MultiCount(|selection|) else 0)
  {
    ps := EmptyPathSet;
    if dialog.Some? {
      SelectionCopied(selection, dialog.value);
    }
    var outPath, count, request;
    result, outPath, count, request, message := LegacyNFDWin(filterList, defaultPath, Multi, filterAllocOk, pathAllocOk, dialog, copyAllocOk);
    ps := ps.(count := count);
    if result != Okay {
      return;
    }
    var block := outPath.value;
    result, ps := PathSetFromBlock(block, count, indicesAllocOk, bufAllocOk, selection);
  }

  /**
   * The build after a successful dialog, from the copied block and the
   * count: the index array, then (for several strings) the path buffer.
   */
  method PathSetFromBlock(block: seq<byte>, count: nat, indicesAllocOk: bool, bufAllocOk: bool, ghost selection: seq<seq<byte>>)
    returns (result: NfdResult, ps: PathSet)
    requires |selection| >= 1 && AllNoNul(selection) && block == Joined(selection) && count == MultiCount(|selection|)
    ensures result == Okay <==> indicesAllocOk && (|selection| <= 2 || bufAllocOk)
    ensures result != Okay ==> result == Error && ps == PathSet(None, None, count)
    ensures result == Okay && |selection| <= 2 ==> ps == PathSet(Some(Joined(selection)), Some([0]), 1)
    ensures result == Okay && |selection| == 1 ==> ps == Pack(selection)
    ensures result == Okay && |selection| > 2 ==> ps == Pack(DirFiles(selection[0], selection[1..]))
  {
    result, ps := Error, PathSet(None, None, count);
    if !indicesAllocOk {
      return;
    }
    if count == 1 {
      if |selection| == 1 {
        SingleSelectionPath(selection[0]);
        assert selection == [selection[0]];
      }
      return Okay, PathSet(Some(block), Some([0]), 1);
    }
    JoinedAt(selection, 0);
    assert selection[..0] == [];
    var dir := CStr(block);
    var dirLen := |dir| + 1;
    var indices, bufferLen := IndexSlots(block, dirLen, count, selection);
    if !bufAllocOk {
      return;
    }
    var buf := new byte[bufferLen];
    FillSlots(block, dir, indices, buf, selection);
    result, ps := Okay, PathSet(Some(buf[..]), Some(indices[..]), count);
  }

  /** A multiple selection of several files gives back `dir\file` for each file name, in order. */
  lemma MultipleSelectionPaths(selection: seq<seq<byte>>)
    requires |selection| > 2 && AllNoNul(selection)
    ensures GetCount(Pack(DirFiles(selection[0], selection[1..]))) == |selection| - 1
    ensures forall i :: 0 <= i < |selection| - 1 ==>
      CanGetPath(Pack(DirFiles(selection[0], selection[1..])), i) &&
      GetPath(Pack(DirFiles(selection[0], selection[1..])), i) == selection[0] + [BACKSLASH] + selection[i + 1]
  {
    assert NoNul(selection[0]);
    assert AllNoNul(selection[1..]);
    DirFilesRecovered(selection[0], selection[1..]);
  }

  /** A single file is handed over as the path set's only path. */
  lemma SingleSelectionPath(path: seq<byte>)
    requires NoNul(path)
    ensures PathSet(Some(Joined([path])), Some([0]), 1) == Pack([path])
    ensures CanGetPath(Pack([path]), 0) && GetPath(Pack([path]), 0) == path
  {
    assert Offsets([path]) == [Offset([path], 0)];
    assert [path][..0] == [];
    PackRecovers([path]);
  }

  // ----- NFD_PickFolder -----

  const CREATE_ERROR: seq<byte> := "Could not create dialog."

  /**
   * `NFD_PickFolder`. `chosen` is whether `SHBrowseForFolder` returns an
   * item, `folder` the path `SHGetPathFromIDList` writes for it (`None`:
   * it fails), `allocOk` whether the `strdup` of that path succeeds. The
   * default path is not used. `outPath` holds the copied C string's
   * contents, as `LegacyNFDWin` does.
   */
  method PickFolder(defaultPath: Option<seq<byte>>, chosen: bool, folder: Option<seq<byte>>, allocOk: bool)
    returns (result: NfdResult, outPath: Option<seq<byte>>, message: Option<seq<byte>>)
    requires folder.Some? ==> NoNul(folder.value)
    ensures !chosen ==> result == Cancel && outPath.None? && message.None?
    ensures chosen && folder.None? ==> result == Error && outPath.None? && message == Some(CREATE_ERROR)
    ensures chosen && folder.Some? && allocOk ==> result == Okay && outPath == Some(folder.value) && message.None?
    ensures chosen && folder.Some? && !allocOk ==> result == Error && outPath.None? && message.None?
  {
    outPath, message := None, None;
    if !chosen {
      return Cancel, outPath, message;
    }
    if folder.None? {
      return Error, outPath, Some(CREATE_ERROR);
    }
    var buffer := folder.value + [NUL];
    // CopyTCharToNFDChar: strdup
    if !allocOk {
      return Error, outPath, message;
    }
    CStrOfTerminated(folder.value, []);
    assert folder.value + [NUL] + [] == buffer;
    outPath := Some(CStr(buffer));
    return Okay, outPath, message;
  }
}
