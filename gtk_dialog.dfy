/**
 * The GTK backend's parent/child protocol. The child runs the dialog and
 * writes its answer into a pipe as native `size_t` words and raw bytes;
 * the parent reads the frame back in the same order and then maps the
 * child's exit status to the result. The dialog's answer, the child's exit
 * status and the success of each allocation are inputs.
 */
module GtkDialog {
  import opened Bytes
  import opened Wrappers
  import opened Nfd
  import opened GtkChannel
  import Common

  // ----- words on the wire -----

  predicate AllWords(vs: seq<nat>)
  {
    forall i :: 0 <= i < |vs| ==> vs[i] < WORD_MODULUS
  }

  /** The bytes of a `size_t` array, as `write(fd, indices, 8 * count)` sends them. */
  function Words(vs: seq<nat>): (bs: seq<byte>)
    requires AllWords(vs)
    ensures |bs| == WORD_BYTES * |vs|
    decreases |vs|
  {
    if vs == [] then [] else Words(vs[..|vs| - 1]) + Word(vs[|vs| - 1])
  }

  /** The `size_t` array whose bytes are `bs`. */
  function WordsValue(bs: seq<byte>): (vs: seq<nat>)
    requires |bs| % WORD_BYTES == 0
    ensures |vs| == |bs| / WORD_BYTES && AllWords(vs)
    decreases |bs|
  {
    if bs == [] then []
    else WordsValue(bs[..|bs| - WORD_BYTES]) + [WordValue(bs[|bs| - WORD_BYTES..])]
  }

  /** An index array survives the trip through the pipe. */
  lemma {:induction false} WordsRoundTrip(vs: seq<nat>)
    requires AllWords(vs)
    ensures WordsValue(Words(vs)) == vs
    decreases |vs|
  {
    if vs != [] {
      var init := vs[..|vs| - 1];
      var bs := Words(vs);
      assert AllWords(init) by {
        forall i | 0 <= i < |init| ensures init[i] < WORD_MODULUS {
          assert init[i] == vs[i];
        }
      }
      assert bs == Words(init) + Word(vs[|vs| - 1]);
      assert bs[..|bs| - WORD_BYTES] == Words(init);
      assert bs[|bs| - WORD_BYTES..] == Word(vs[|vs| - 1]);
      WordsRoundTrip(init);
      WordRoundTrip(vs[|vs| - 1]);
    }
  }

  // ----- the frames -----

  /** The single-path frame: `len = strlen + 1`, then the path with its NUL. */
  function SingleFrame(path: seq<byte>): (f: seq<byte>)
    requires |path| + 1 < WORD_MODULUS
    ensures |f| == WORD_BYTES + |path| + 1
  {
    Word(|path| + 1) + path + [NUL]
  }

  /** The path-set frame: count, the index array, the buffer size, the buffer. */
  function PathSetFrame(count: nat, indices: seq<nat>, bufSize: nat, buf: seq<byte>): (f: seq<byte>)
    requires count < WORD_MODULUS && AllWords(indices) && bufSize < WORD_MODULUS
  {
    FullFrame(count, Some(indices), bufSize, Some(buf))
  }

  // ----- the child -----

  /** The bytes behind a buffer pointer: none behind NULL. */
  function Content(data: Option<seq<byte>>): seq<byte>
  {
    if data.Some? then data.value else []
  }

  /** The calls a write of `sz` bytes from `data` makes: scripted, or EFAULT from a NULL buffer. */
  function WriteCalls(sz: nat, data: Option<seq<byte>>, script: seq<SysCall>): seq<SysCall>
  {
    if data.Some? then script else NullBufferCalls(sz, script)
  }

  /**
   * `NFDi_write(fd, sz, data)`: the status, the bytes put on the pipe and
   * the calls left. A NULL buffer of positive size puts nothing on the pipe
   * and never returns.
   */
  function WriteFrom(sz: nat, data: Option<seq<byte>>, script: seq<SysCall>): (r: (IoStatus, seq<byte>, seq<SysCall>))
    requires data.Some? ==> |data.value| == sz
    ensures r.1 <= Content(data)
    ensures r.0 == Done ==> r.1 == Content(data)
    ensures data.None? && sz > 0 ==> r == (Hung, [], [])
  {
    var (s, n, rest) := Transfer(sz, sz, 0, WriteCalls(sz, data, script));
    if data.Some? then (s, data.value[..n], rest)
    else if sz > 0 then NullBufferHangs(sz, script); (s, [], rest)
    else (s, [], rest)
  }

  /** `NFDi_write` on a buffer that may be NULL. */
  method WriteBuffer(sz: nat, data: Option<seq<byte>>, script: seq<SysCall>)
    returns (status: IoStatus, wire: seq<byte>, rest: seq<SysCall>)
    requires data.Some? ==> |data.value| == sz
    ensures (status, wire, rest) == WriteFrom(sz, data, script)
  {
    if data.Some? {
      status, wire, rest := NFDiWrite(sz, data.value, script);
    } else {
      // every call fails before the buffer's bytes are read, so any bytes stand in for them
      var moved;
      status, moved, rest := NFDiWrite(sz, seq(sz, _ => NUL), NullBufferCalls(sz, script));
      wire := [];
    }
  }

  /**
   * The bytes the child's writes put on the pipe and the calls left: no
   * write for an error, else the length word and, once that is complete,
   * the payload.
   */
  function SentSingle(result: NfdResult, len: nat, payload: Option<seq<byte>>, script: seq<SysCall>): (r: (seq<byte>, seq<SysCall>))
    requires len < WORD_MODULUS && (payload.Some? ==> |payload.value| == len)
    ensures r.0 <= Word(len) + Content(payload)
    ensures result == Error ==> r.0 == []
  {
    if result == Error then ([], script)
    else
      var (s1, n1, r1) := Transfer(WORD_BYTES, WORD_BYTES, 0, script);
      if s1 != Done then (Word(len)[..n1], r1)
      else
        var (s2, w2, r2) := WriteFrom(len, payload, r1);
        (Word(len) + w2, r2)
  }

  /**
   * The child of `NFD_OpenDialog` / `NFD_SaveDialog` after the dialog:
   * `len` and `payload` are what `len` and `buf` hold. After a cancelled
   * dialog `buf` is still NULL (`None`) and `len` was never set.
   */
  method ChildSendSingle(result: NfdResult, len: nat, payload: Option<seq<byte>>, script: seq<SysCall>)
    returns (wire: seq<byte>, rest: seq<SysCall>)
    requires len < WORD_MODULUS && (payload.Some? ==> |payload.value| == len)
    ensures (wire, rest) == SentSingle(result, len, payload, script)
  {
    wire, rest := [], script;
    if result != Error {
      var status, w1, r1 := NFDiWrite(WORD_BYTES, Word(len), script);
      wire, rest := w1, r1;
      if status == Done {
        assert w1 == Word(len);
        var s2, w2, r2 := WriteBuffer(len, payload, r1);
        wire, rest := wire + w2, r2;
      }
    }
  }

  /** The bytes behind the index pointer: the offsets as `size_t` words. */
  function IndexData(indices: Option<seq<nat>>): (d: Option<seq<byte>>)
    requires indices.Some? ==> AllWords(indices.value)
  {
    if indices.Some? then Some(Words(indices.value)) else None
  }

  /** The frame a child with these fields would write in full. */
  function FullFrame(count: nat, indices: Option<seq<nat>>, bufSize: nat, buf: Option<seq<byte>>): seq<byte>
    requires count < WORD_MODULUS && bufSize < WORD_MODULUS
    requires indices.Some? ==> AllWords(indices.value)
  {
    Word(count) + Content(IndexData(indices)) + Word(bufSize) + Content(buf)
  }

  /** Extending a prefix of `c` by what follows `c` keeps a prefix. */
  lemma PrefixWithin(a: seq<byte>, b: seq<byte>, c: seq<byte>, d: seq<byte>)
    requires b <= c
    ensures a + b <= a + c + d
  {
    assert a + c + d == a + (c + d);
    assert (c + d)[..|b|] == b;
    assert (a + (c + d))[..|a| + |b|] == a + (c + d)[..|b|];
  }

  /** The bytes and remaining calls of the child's four gated writes of a path set. */
  function SentPathSet(result: NfdResult, count: nat, indices: Option<seq<nat>>, bufSize: nat, buf: Option<seq<byte>>,
                       script: seq<SysCall>): (r: (seq<byte>, seq<SysCall>))
    requires WORD_BYTES * count < WORD_MODULUS && bufSize < WORD_MODULUS
    requires indices.Some? ==> |indices.value| == count && AllWords(indices.value)
    requires buf.Some? ==> |buf.value| == bufSize
    ensures r.0 <= FullFrame(count, indices, bufSize, buf)
    ensures result == Error ==> r.0 == []
  {
    var ib := Content(IndexData(indices));
    var tail := Word(bufSize) + Content(buf);
    assert FullFrame(count, indices, bufSize, buf) == Word(count) + ib + tail;
    if result == Error then ([], script)
    else
      var (s1, n1, r1) := Transfer(WORD_BYTES, WORD_BYTES, 0, script);
      if s1 != Done then
        PrefixWithin([], Word(count)[..n1], Word(count), ib + tail);
        (Word(count)[..n1], r1)
      else
        var (s2, w2, r2) := WriteFrom(WORD_BYTES * count, IndexData(indices), r1);
        if s2 != Done then
          PrefixWithin(Word(count), w2, ib, tail);
          (Word(count) + w2, r2)
        else
          var (s3, n3, r3) := Transfer(WORD_BYTES, WORD_BYTES, 0, r2);
          if s3 != Done then
            PrefixWithin(Word(count) + ib, Word(bufSize)[..n3], Word(bufSize), Content(buf));
            (Word(count) + ib + Word(bufSize)[..n3], r3)
          else
            var (s4, w4, r4) := WriteFrom(bufSize, buf, r3);
            PrefixWithin(Word(count) + ib + Word(bufSize), w4, Content(buf), []);
            (Word(count) + ib + Word(bufSize) + w4, r4)
  }

  /**
   * The child of `NFD_OpenDialogMultiple` after the dialog: count,
   * `count * sizeof(size_t)` bytes of indices, the buffer size and the
   * buffer, each written only if the one before it completed. After a
   * cancelled dialog the fields are the caller's `*outPaths` (pointers
   * possibly NULL) and `buf_sz` was never set.
   */
  method ChildSendPathSet(result: NfdResult, ps: PathSet, bufSize: nat, script: seq<SysCall>)
    returns (wire: seq<byte>, rest: seq<SysCall>)
    requires WORD_BYTES * ps.count < WORD_MODULUS && bufSize < WORD_MODULUS
    requires ps.indices.Some? ==> |ps.indices.value| == ps.count && AllWords(ps.indices.value)
    requires ps.buf.Some? ==> |ps.buf.value| == bufSize
    ensures (wire, rest) == SentPathSet(result, ps.count, ps.indices, bufSize, ps.buf, script)
  {
    wire, rest := [], script;
    if result != Error {
      var indicesSize := ps.count * WORD_BYTES;
      var s1, w1, r1 := NFDiWrite(WORD_BYTES, Word(ps.count), script);
      wire, rest := w1, r1;
      if s1 == Done {
        assert w1 == Word(ps.count);
        var s2, w2, r2 := WriteBuffer(indicesSize, IndexData(ps.indices), rest);
        wire, rest := wire + w2, r2;
        if s2 == Done {
          var s3, w3, r3 := NFDiWrite(WORD_BYTES, Word(bufSize), rest);
          wire, rest := wire + w3, r3;
          if s3 == Done {
            assert w3 == Word(bufSize);
            var s4, w4, r4 := WriteBuffer(bufSize, ps.buf, rest);
            wire, rest := wire + w4, r4;
          }
        }
      }
    }
  }

  // ----- the parent -----

  /** What `waitpid` reports: a normal exit with its status, or death by a signal. */
  datatype ChildStatus = Exited(code: nat) | Signaled

  /** The value returned after the child has been reaped. */
  function ExitResult(status: ChildStatus): (code: nat)
    ensures status.Exited? ==> code == status.code
    ensures status.Signaled? ==> code == Error.Code()
  {
    match status
    case Exited(c) => c
    case Signaled => Error.Code()
  }

  /**
   * The parent's view of `NFD_OpenDialog` / `NFD_SaveDialog`: the value
   * returned, what was stored in `*outPath` (`None`: untouched) and
   * whether `waitpid` was called.
   */
  datatype SingleOutcome = SingleOutcome(code: nat, outPath: Option<seq<byte>>, waited: bool)

  const FAILED_SINGLE: SingleOutcome := SingleOutcome(0, None, false)

  /**
   * What the parent does with the pipe holding `wire`: read the length,
   * allocate, read the path; any failure returns `NFD_ERROR` at once.
   */
  function ReceiveSingle(pipeOk: bool, forkOk: bool, wire: seq<byte>, readCalls: seq<SysCall>, allocOk: bool, status: ChildStatus): (o: SingleOutcome)
    ensures !o.waited ==> o == FAILED_SINGLE
  {
    if !pipeOk || !forkOk then FAILED_SINGLE
    else
      var (s1, n1, r1) := Transfer(WORD_BYTES, Min(WORD_BYTES, |wire|), 0, readCalls);
      if s1 != Done then FAILED_SINGLE
      else
        var len := WordValue(wire[..WORD_BYTES]);
        if !allocOk then FAILED_SINGLE
        else
          var pipe := wire[WORD_BYTES..];
          var (s2, n2, r2) := Transfer(len, Min(len, |pipe|), 0, r1);
          if s2 != Done then FAILED_SINGLE
          else SingleOutcome(ExitResult(status), Some(pipe[..len]), true)
  }

  /**
   * The parent side of `NFD_OpenDialog` (`NFD_SaveDialog` is the same
   * code). `pipeOk` and `forkOk` are the outcomes of `pipe` and `fork`,
   * `allocOk` that of `NFDi_Malloc(len)`.
   */
  method ParentReceiveSingle(pipeOk: bool, forkOk: bool, wire: seq<byte>, readCalls: seq<SysCall>, allocOk: bool, status: ChildStatus)
    returns (code: nat, outPath: Option<seq<byte>>, waited: bool)
    ensures SingleOutcome(code, outPath, waited) == ReceiveSingle(pipeOk, forkOk, wire, readCalls, allocOk, status)
  {
    code, outPath, waited := Error.Code(), None, false;
    if !pipeOk || !forkOk {
      return;
    }
    var s1, lenBytes, pipe, r1 := NFDiRead(WORD_BYTES, wire, readCalls);
    if s1 != Done {
      return;
    }
    var len := WordValue(lenBytes);
    if !allocOk {
      return;
    }
    var s2, buf, left, r2 := NFDiRead(len, pipe, r1);
    if s2 != Done {
      return;
    }
    outPath := Some(buf);
    waited := true;
    match status
    case Exited(c) => code := c;
    case Signaled => code := Error.Code();
  }

  // ----- complete transfers -----

  /**
   * The calls left after transfers of `sizes` bytes, one after the other,
   * each of which the peer can supply in full (`None`: one of them ends
   * before it is complete).
   */
  function Transfers(sizes: seq<nat>, calls: seq<SysCall>): Option<seq<SysCall>>
    decreases |sizes|
  {
    if sizes == [] then Some(calls)
    else
      var (s, n, rest) := Transfer(sizes[0], sizes[0], 0, calls);
      if s == Done then Transfers(sizes[1..], rest) else None
  }

  /** The first of a run of complete transfers, and the calls the others start from. */
  lemma TransfersFirst(size: nat, sizes: seq<nat>, calls: seq<SysCall>)
    requires Transfers([size] + sizes, calls).Some?
    ensures Transfer(size, size, 0, calls).0 == Done
    ensures Transfers(sizes, Transfer(size, size, 0, calls).2) == Transfers([size] + sizes, calls)
  {
    assert ([size] + sizes)[0] == size && ([size] + sizes)[1..] == sizes;
  }

  /**
   * A path written by a child whose dialog succeeded reaches the parent
   * unchanged, and the parent returns `NFD_OKAY`, whenever every write and
   * every read completes, however the calls split the bytes.
   */
  lemma SingleRoundTrip(path: seq<byte>, sent: seq<SysCall>, readCalls: seq<SysCall>)
    requires NoNul(path) && |path| + 1 < WORD_MODULUS
    requires Transfers([WORD_BYTES, |path| + 1], sent).Some? && Transfers([WORD_BYTES, |path| + 1], readCalls).Some?
    ensures var (wire, rest) := SentSingle(Okay, |path| + 1, Some(path + [NUL]), sent);
      && wire == SingleFrame(path) && Some(rest) == Transfers([WORD_BYTES, |path| + 1], sent)
      && ReceiveSingle(true, true, wire, readCalls, true, Exited(Okay.Code()))
         == SingleOutcome(Okay.Code(), Some(path + [NUL]), true)
  {
    var len := |path| + 1;
    assert [WORD_BYTES, len] == [WORD_BYTES] + [len] && [len] == [len] + [];
    TransfersFirst(WORD_BYTES, [len], sent);
    TransfersFirst(len, [], Transfer(WORD_BYTES, WORD_BYTES, 0, sent).2);
    TransfersFirst(WORD_BYTES, [len], readCalls);
    TransfersFirst(len, [], Transfer(WORD_BYTES, WORD_BYTES, 0, readCalls).2);
    var frame := SingleFrame(path);
    assert frame == Word(len) + (path + [NUL]);
    assert Min(WORD_BYTES, |frame|) == WORD_BYTES;
    assert frame[..WORD_BYTES] == Word(len);
    WordRoundTrip(len);
    assert frame[WORD_BYTES..] == path + [NUL];
  }

  /**
   * A cancelled child leaves `buf` NULL: when its stale `len` is positive
   * it writes the length word and then retries EFAULT until every call is
   * used, so it never reaches `_exit`; the parent never receives a path.
   */
  lemma CancelledChildHangs(len: nat, script: seq<SysCall>, readCalls: seq<SysCall>, allocOk: bool, status: ChildStatus)
    requires 0 < len < WORD_MODULUS && Transfer(WORD_BYTES, WORD_BYTES, 0, script).0 == Done
    ensures SentSingle(Cancel, len, None, script) == (Word(len), [])
    ensures ReceiveSingle(true, true, Word(len), readCalls, allocOk, status).outPath.None?
  {
    assert Word(len) + [] == Word(len);
    WordRoundTrip(len);
    assert Word(len)[..WORD_BYTES] == Word(len) && Word(len)[WORD_BYTES..] == [];
  }

  /**
   * Only a cancelled child whose stale `len` is 0 gets through: the
   * parent stores a zero-byte path and returns `NFD_CANCEL`.
   */
  lemma CancelledEmptyFrame(sent: seq<SysCall>, readCalls: seq<SysCall>)
    requires Transfers([WORD_BYTES, 0], sent).Some? && Transfers([WORD_BYTES, 0], readCalls).Some?
    ensures var (wire, rest) := SentSingle(Cancel, 0, None, sent);
      && wire == Word(0) && Some(rest) == Transfers([WORD_BYTES, 0], sent)
      && ReceiveSingle(true, true, wire, readCalls, true, Exited(Cancel.Code())) == SingleOutcome(Cancel.Code(), Some([]), true)
  {
    assert [WORD_BYTES, 0] == [WORD_BYTES] + [0] && [0] == [0] + [];
    TransfersFirst(WORD_BYTES, [0], sent);
    TransfersFirst(0, [], Transfer(WORD_BYTES, WORD_BYTES, 0, sent).2);
    TransfersFirst(WORD_BYTES, [0], readCalls);
    TransfersFirst(0, [], Transfer(WORD_BYTES, WORD_BYTES, 0, readCalls).2);
    assert Word(0) + [] == Word(0);
    WordRoundTrip(0);
    assert Word(0)[..WORD_BYTES] == Word(0) && Word(0)[WORD_BYTES..] == [];
  }

  /**
   * A frame shorter than the length word (nothing at all, when the child
   * failed and wrote nothing) makes the parent return `NFD_ERROR` without
   * waiting for the child, whatever the read calls do.
   */
  lemma NoFrameIsError(wire: seq<byte>, readCalls: seq<SysCall>, allocOk: bool, status: ChildStatus)
    requires |wire| < WORD_BYTES
    ensures ReceiveSingle(true, true, wire, readCalls, allocOk, status) == FAILED_SINGLE
  {
  }

  /** A failed child's empty pipe is reported as `NFD_ERROR`, never as `NFD_CANCEL`. */
  lemma FailedChildIsError(len: nat, payload: Option<seq<byte>>, script: seq<SysCall>, readCalls: seq<SysCall>, allocOk: bool, status: ChildStatus)
    requires len < WORD_MODULUS && (payload.Some? ==> |payload.value| == len)
    ensures var wire := SentSingle(Error, len, payload, script).0;
      ReceiveSingle(true, true, wire, readCalls, allocOk, status).code == Error.Code()
  {
    NoFrameIsError([], readCalls, allocOk, status);
  }

  /** The parent's view of `NFD_OpenDialogMultiple`: the value returned, `*outPaths` afterwards, whether `waitpid` was called. */
  datatype MultiOutcome = MultiOutcome(code: nat, paths: PathSet, waited: bool)

  /** The `fail` label: both pointers released and nulled, `count` as far as it was read. */
  function Failed(count: nat): MultiOutcome
  {
    MultiOutcome(Error.Code(), PathSet(None, None, count), false)
  }

  /**
   * What the parent does with the pipe holding `wire`: the four readCalls in
   * the child's order, the two allocations between them. `ps0` is
   * `*outPaths` before the call. A failed first read leaves in `count` the
   * bytes that did arrive over the old value's.
   */
  function ReceivePathSet(pipeOk: bool, forkOk: bool, ps0: PathSet, wire: seq<byte>, readCalls: seq<SysCall>,
                          indicesAllocOk: bool, bufAllocOk: bool, status: ChildStatus): (o: MultiOutcome)
    requires ps0.count < WORD_MODULUS
    ensures pipeOk && forkOk && !o.waited ==> o.code == Error.Code() && o.paths.buf.None? && o.paths.indices.None?
  {
    if !pipeOk || !forkOk then MultiOutcome(Error.Code(), ps0, false)
    else
      var (s1, n1, r1) := Transfer(WORD_BYTES, Min(WORD_BYTES, |wire|), 0, readCalls);
      var count := WordValue(wire[..n1] + Word(ps0.count)[n1..]);
      if s1 != Done then Failed(count)
      else ReceiveFields(count, wire[WORD_BYTES..], r1, indicesAllocOk, bufAllocOk, status)
  }

  /**
   * The rest of the parent's reads once `count` has arrived: `pipe` holds
   * what follows the count word and `calls` the read calls left.
   */
  function ReceiveFields(count: nat, pipe: seq<byte>, calls: seq<SysCall>,
                         indicesAllocOk: bool, bufAllocOk: bool, status: ChildStatus): (o: MultiOutcome)
    ensures !o.waited ==> o == Failed(count)
    ensures o.waited ==> o.paths.count == count && o.code == ExitResult(status)
  {
    var indicesSize := (count * WORD_BYTES) % WORD_MODULUS;
    if !indicesAllocOk then Failed(count)
    else
      var (s2, n2, r2) := Transfer(indicesSize, Min(indicesSize, |pipe|), 0, calls);
      if s2 != Done then Failed(count)
      else
        var indices := WordsValue(pipe[..indicesSize]);
        var p2 := pipe[indicesSize..];
        var (s3, n3, r3) := Transfer(WORD_BYTES, Min(WORD_BYTES, |p2|), 0, r2);
        if s3 != Done then Failed(count)
        else
          var bufSize := WordValue(p2[..WORD_BYTES]);
          if !bufAllocOk then Failed(count)
          else
            var p3 := p2[WORD_BYTES..];
            var (s4, n4, r4) := Transfer(bufSize, Min(bufSize, |p3|), 0, r3);
            if s4 != Done then Failed(count)
            else MultiOutcome(ExitResult(status), PathSet(Some(p3[..bufSize]), Some(indices), count), true)
  }

  /**
   * The parent side of `NFD_OpenDialogMultiple`: `*outPaths` is updated
   * field by field as the frame arrives.
   */
  method ParentReceivePathSet(pipeOk: bool, forkOk: bool, ps0: PathSet, wire: seq<byte>, readCalls: seq<SysCall>,
                              indicesAllocOk: bool, bufAllocOk: bool, status: ChildStatus)
    returns (code: nat, paths: PathSet, waited: bool)
    requires ps0.count < WORD_MODULUS
    ensures MultiOutcome(code, paths, waited) == ReceivePathSet(pipeOk, forkOk, ps0, wire, readCalls, indicesAllocOk, bufAllocOk, status)
  {
    code, paths, waited := Error.Code(), ps0, false;
    if !pipeOk || !forkOk {
      return;
    }
    paths := paths.(buf := None, indices := None);
    var s1, countBytes, p1, r1 := NFDiRead(WORD_BYTES, wire, readCalls);
    assert countBytes == wire[..|countBytes|] && p1 == wire[|countBytes|..];
    paths := paths.(count := WordValue(countBytes + Word(ps0.count)[|countBytes|..]));
    if s1 != Done {
      return;
    }
    code, paths, waited := ReadFields(paths.count, p1, r1, indicesAllocOk, bufAllocOk, status);
  }

  /** The reads after the count word, on a path set whose pointers are NULL. */
  method ReadFields(count: nat, pipe: seq<byte>, calls: seq<SysCall>,
                    indicesAllocOk: bool, bufAllocOk: bool, status: ChildStatus)
    returns (code: nat, paths: PathSet, waited: bool)
    ensures MultiOutcome(code, paths, waited) == ReceiveFields(count, pipe, calls, indicesAllocOk, bufAllocOk, status)
  {
    code, paths, waited := Error.Code(), PathSet(None, None, count), false;
    var indicesSize := (count * WORD_BYTES) % WORD_MODULUS;
    if !indicesAllocOk {
      return;
    }
    var s2, indexBytes, p2, r2 := NFDiRead(indicesSize, pipe, calls);
    assert indexBytes == pipe[..|indexBytes|] && p2 == pipe[|indexBytes|..];
    if s2 != Done {
      return;
    }
    paths := paths.(indices := Some(WordsValue(indexBytes)));
    var s3, sizeBytes, p3, r3 := NFDiRead(WORD_BYTES, p2, r2);
    assert sizeBytes == p2[..|sizeBytes|] && p3 == p2[|sizeBytes|..];
    if s3 != Done {
      paths := paths.(indices := None);
      return;
    }
    var bufSize := WordValue(sizeBytes);
    if !bufAllocOk {
      paths := paths.(indices := None);
      return;
    }
    var s4, buf, p4, r4 := NFDiRead(bufSize, p3, r3);
    assert buf == p3[..|buf|];
    if s4 != Done {
      paths := paths.(indices := None);
      return;
    }
    paths := paths.(buf := Some(buf));
    waited := true;
    match status
    case Exited(c) => code := c;
    case Signaled => code := Error.Code();
  }

  /** Every offset of a packed path set fits a `size_t` when its buffer size does. */
  lemma OffsetsAreWords(paths: seq<seq<byte>>)
    requires AllNoNul(paths) && TotalSize(paths) < WORD_MODULUS
    ensures AllWords(Offsets(paths))
  {
    forall i | 0 <= i < |paths| ensures Offsets(paths)[i] < WORD_MODULUS {
      JoinedAt(paths, i);
    }
  }

  /** The sizes of the four fields of a path-set frame. */
  function FrameSizes(count: nat, bufSize: nat): seq<nat>
  {
    [WORD_BYTES, WORD_BYTES * count, WORD_BYTES, bufSize]
  }

  /** The four transfers of a frame, each complete, and the calls each starts from. */
  lemma FourTransfers(count: nat, bufSize: nat, calls: seq<SysCall>)
    requires Transfers(FrameSizes(count, bufSize), calls).Some?
    ensures var t1 := Transfer(WORD_BYTES, WORD_BYTES, 0, calls);
      var t2 := Transfer(WORD_BYTES * count, WORD_BYTES * count, 0, t1.2);
      var t3 := Transfer(WORD_BYTES, WORD_BYTES, 0, t2.2);
      var t4 := Transfer(bufSize, bufSize, 0, t3.2);
      && t1.0 == Done && t2.0 == Done && t3.0 == Done && t4.0 == Done
      && Transfers(FrameSizes(count, bufSize), calls) == Some(t4.2)
  {
    var m := WORD_BYTES * count;
    assert FrameSizes(count, bufSize) == [WORD_BYTES] + [m, WORD_BYTES, bufSize];
    assert [m, WORD_BYTES, bufSize] == [m] + [WORD_BYTES, bufSize];
    assert [WORD_BYTES, bufSize] == [WORD_BYTES] + [bufSize] && [bufSize] == [bufSize] + [];
    var t1 := Transfer(WORD_BYTES, WORD_BYTES, 0, calls);
    TransfersFirst(WORD_BYTES, [m, WORD_BYTES, bufSize], calls);
    var t2 := Transfer(m, m, 0, t1.2);
    TransfersFirst(m, [WORD_BYTES, bufSize], t1.2);
    var t3 := Transfer(WORD_BYTES, WORD_BYTES, 0, t2.2);
    TransfersFirst(WORD_BYTES, [bufSize], t2.2);
    TransfersFirst(bufSize, [], t3.2);
  }

  /** When every write completes, the child's four writes put the full frame on the wire. */
  lemma SentPathSetComplete(result: NfdResult, count: nat, indices: seq<nat>, bufSize: nat, buf: seq<byte>, sent: seq<SysCall>)
    requires WORD_BYTES * count < WORD_MODULUS && |indices| == count && AllWords(indices)
    requires bufSize < WORD_MODULUS && |buf| == bufSize && result != Error
    requires Transfers(FrameSizes(count, bufSize), sent).Some?
    ensures SentPathSet(result, count, Some(indices), bufSize, Some(buf), sent)
      == (PathSetFrame(count, indices, bufSize, buf), Transfers(FrameSizes(count, bufSize), sent).value)
  {
    FourTransfers(count, bufSize, sent);
    assert |Words(indices)| == WORD_BYTES * count;
  }

  /** The four fields of a path-set frame, one after the other. */
  lemma PathSetFrameFields(count: nat, indices: seq<nat>, bufSize: nat, buf: seq<byte>)
    requires count < WORD_MODULUS && AllWords(indices) && bufSize < WORD_MODULUS
    ensures var f := PathSetFrame(count, indices, bufSize, buf);
      var ib := Words(indices);
      && f[..WORD_BYTES] == Word(count)
      && f[WORD_BYTES..][..|ib|] == ib
      && f[WORD_BYTES..][|ib|..][..WORD_BYTES] == Word(bufSize)
      && f[WORD_BYTES..][|ib|..][WORD_BYTES..] == buf
  {
    var ib := Words(indices);
    var f := PathSetFrame(count, indices, bufSize, buf);
    assert f == Word(count) + (ib + (Word(bufSize) + buf));
    assert f[WORD_BYTES..] == ib + (Word(bufSize) + buf);
    assert f[WORD_BYTES..][|ib|..] == Word(bufSize) + buf;
  }

  /** The size the parent allocates for `count` offsets, when it does not wrap. */
  lemma IndicesSize(count: nat, m: nat)
    requires m == WORD_BYTES * count && m < WORD_MODULUS
    ensures (count * WORD_BYTES) % WORD_MODULUS == m
  {
    assert count * WORD_BYTES == m;
  }

  /** When every read completes, the parent reads the whole frame back, field by field. */
  lemma ReceivePathSetComplete(count: nat, indices: seq<nat>, bufSize: nat, buf: seq<byte>, readCalls: seq<SysCall>, ps0: PathSet, code: nat)
    requires count < WORD_MODULUS && AllWords(indices) && bufSize < WORD_MODULUS && |buf| == bufSize && ps0.count < WORD_MODULUS
    requires |indices| == count && WORD_BYTES * count < WORD_MODULUS
    requires Transfers(FrameSizes(count, bufSize), readCalls).Some?
    ensures ReceivePathSet(true, true, ps0, PathSetFrame(count, indices, bufSize, buf), readCalls, true, true, Exited(code))
      == MultiOutcome(code, PathSet(Some(buf), Some(indices), count), true)
  {
    var f := PathSetFrame(count, indices, bufSize, buf);
    var ib := Words(indices);
    FourTransfers(count, bufSize, readCalls);
    PathSetFrameFields(count, indices, bufSize, buf);
    var p1 := f[WORD_BYTES..];
    var p2 := p1[|ib|..];
    var p3 := p2[WORD_BYTES..];
    assert Min(WORD_BYTES, |f|) == WORD_BYTES;
    assert Word(ps0.count)[WORD_BYTES..] == [];
    assert f[..WORD_BYTES] + Word(ps0.count)[WORD_BYTES..] == Word(count);
    WordRoundTrip(count);
    IndicesSize(count, |ib|);
    assert Min(|ib|, |p1|) == |ib|;
    WordsRoundTrip(indices);
    assert Min(WORD_BYTES, |p2|) == WORD_BYTES;
    WordRoundTrip(bufSize);
    assert Min(bufSize, |p3|) == bufSize;
    assert p3[..bufSize] == buf;
  }

  /**
   * A packed path set written by a child whose dialog succeeded reaches
   * the parent unchanged whenever every write and every read completes:
   * the parent ends with `Pack(paths)` and `NFD_OKAY`.
   */
  lemma PathSetRoundTrip(paths: seq<seq<byte>>, sent: seq<SysCall>, readCalls: seq<SysCall>, ps0: PathSet)
    requires AllNoNul(paths) && ps0.count < WORD_MODULUS
    requires WORD_BYTES * |paths| < WORD_MODULUS && TotalSize(paths) < WORD_MODULUS
    requires Transfers(FrameSizes(|paths|, TotalSize(paths)), sent).Some?
    requires Transfers(FrameSizes(|paths|, TotalSize(paths)), readCalls).Some?
    ensures AllWords(Offsets(paths))
    ensures var frame := PathSetFrame(|paths|, Offsets(paths), TotalSize(paths), Joined(paths));
      && SentPathSet(Okay, |paths|, Some(Offsets(paths)), TotalSize(paths), Some(Joined(paths)), sent).0 == frame
      && ReceivePathSet(true, true, ps0, frame, readCalls, true, true, Exited(Okay.Code()))
         == MultiOutcome(Okay.Code(), Pack(paths), true)
  {
    OffsetsAreWords(paths);
    SentPathSetComplete(Okay, |paths|, Offsets(paths), TotalSize(paths), Joined(paths), sent);
    ReceivePathSetComplete(|paths|, Offsets(paths), TotalSize(paths), Joined(paths), readCalls, ps0, Okay.Code());
  }

  /**
   * A cancelled child sends the caller's `*outPaths`: with a NULL index
   * pointer and a positive count it retries EFAULT after the count word
   * until every call is used, and the parent never receives a path set.
   */
  lemma CancelledPathSetHangs(count: nat, bufSize: nat, buf: Option<seq<byte>>, script: seq<SysCall>, ps0: PathSet,
                              readCalls: seq<SysCall>, indicesAllocOk: bool, bufAllocOk: bool, status: ChildStatus)
    requires 0 < count && WORD_BYTES * count < WORD_MODULUS && bufSize < WORD_MODULUS && ps0.count < WORD_MODULUS
    requires buf.Some? ==> |buf.value| == bufSize
    requires Transfer(WORD_BYTES, WORD_BYTES, 0, script).0 == Done
    ensures SentPathSet(Cancel, count, None, bufSize, buf, script) == (Word(count), [])
    ensures !ReceivePathSet(true, true, ps0, Word(count), readCalls, indicesAllocOk, bufAllocOk, status).waited
  {
    assert Word(count) + [] == Word(count);
    WordRoundTrip(count);
    assert Word(count)[..WORD_BYTES] == Word(count) && Word(count)[WORD_BYTES..] == [];
    IndicesSize(count, WORD_BYTES * count);
  }

  /** A child killed by a signal is reported as `NFD_ERROR`, even after a complete frame. */
  lemma SignaledIsError(wire: seq<byte>, readCalls: seq<SysCall>, allocOk: bool, ps0: PathSet, indicesAllocOk: bool, bufAllocOk: bool)
    requires ps0.count < WORD_MODULUS
    ensures ReceiveSingle(true, true, wire, readCalls, allocOk, Signaled).code == Error.Code()
    ensures ReceivePathSet(true, true, ps0, wire, readCalls, indicesAllocOk, bufAllocOk, Signaled).code == Error.Code()
  {
  }
}
