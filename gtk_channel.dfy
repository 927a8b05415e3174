/**
 * The pipe helpers of the GTK backend, `NFDi_write` and `NFDi_read`: fill
 * or drain exactly `sz` bytes with repeated system calls. The system calls
 * are a script: one outcome per call, in order.
 */
module GtkChannel {
  import opened Bytes

  /** Linux errno values the helpers test for, and the one they return. */
  const EINTR: nat := 4
  const EAGAIN: nat := 11
  const ESHUTDOWN: nat := 108

  /**
   * What one `read`/`write` call does: `Returned(n)` offers to move up to
   * `n` bytes (the call moves no more than asked for, nor more than the
   * peer supplies); `Failed(e)` returns -1 with `errno == e`.
   */
  datatype SysCall = Returned(n: nat) | Failed(errno: nat)

  /**
   * How a helper ends: `Done` is the return value 0, `Shutdown` is
   * `ESHUTDOWN`. `Hung` stands for a loop that is still retrying when the
   * script runs out: the source repeats a failed call for ever.
   */
  datatype IoStatus = Done | Shutdown | Hung

  function Min(a: nat, b: nat): nat { if a < b then a else b }

  /**
   * The helpers' loop, run from `tot` bytes already moved, where `cap`
   * bytes are all the peer can supply (`cap == sz` for a write). Yields the
   * status, the final `tot` and the calls not yet used.
   */
  function Transfer(sz: nat, cap: nat, tot: nat, script: seq<SysCall>): (r: (IoStatus, nat, seq<SysCall>))
    requires tot <= cap <= sz
    ensures tot <= r.1 <= cap
    ensures r.0 == Done ==> r.1 == sz
    ensures r.0 == Shutdown ==> r.1 < sz
    ensures |r.2| <= |script|
    decreases |script|
  {
    if script == [] then (Hung, tot, [])
    else
      var rest := script[1..];
      match script[0]
      case Failed(e) =>
        if e == EINTR || e == EAGAIN then
          (if tot < sz then (Shutdown, tot, rest) else (Done, tot, rest))
        else
          Transfer(sz, cap, tot, rest)
      case Returned(n) =>
        var k := Min(n, cap - tot);
        if k == 0 && tot < sz then (Shutdown, tot, rest)
        else if tot + k < sz then
          Transfer(sz, cap, tot + k, rest)
        else (Done, tot + k, rest)
  }

  /** The bytes one call moves, and its return value as the source sees it. */
  function CallReturn(call: SysCall, room: nat): (rc: int)
  {
    match call
    case Returned(n) => Min(n, room)
    case Failed(_) => -1
  }

  /** A failure other than EINTR or EAGAIN: the source repeats the call. */
  predicate IsHardError(call: SysCall)
  {
    call.Failed? && call.errno != EINTR && call.errno != EAGAIN
  }

  /** The value of `rc` once the inner loop is left after `call`, with `room` bytes still wanted. */
  function StepValue(call: SysCall, room: nat): nat
  {
    match call
    case Returned(n) => Min(n, room)
    case Failed(_) => 0
  }

  lemma TransferRetry(sz: nat, cap: nat, tot: nat, calls: seq<SysCall>)
    requires tot <= cap <= sz && calls != [] && IsHardError(calls[0])
    ensures Transfer(sz, cap, tot, calls) == Transfer(sz, cap, tot, calls[1..])
  {
  }

  lemma TransferStep(sz: nat, cap: nat, tot: nat, calls: seq<SysCall>)
    requires tot <= cap <= sz && calls != [] && !IsHardError(calls[0])
    ensures var rc := StepValue(calls[0], cap - tot);
      && rc <= cap - tot
      && (rc == 0 && tot < sz ==> Transfer(sz, cap, tot, calls) == (Shutdown, tot, calls[1..]))
      && (!(rc == 0 && tot < sz) && tot + rc < sz ==> Transfer(sz, cap, tot, calls) == Transfer(sz, cap, tot + rc, calls[1..]))
      && (!(rc == 0 && tot < sz) && tot + rc >= sz ==> Transfer(sz, cap, tot, calls) == (Done, tot + rc, calls[1..]))
  {
  }

  /** What the helpers decide after the call `prev[0]` left `rc >= 0`. */
  lemma CallTaken(sz: nat, cap: nat, tot: nat, prev: seq<SysCall>, calls: seq<SysCall>, rc: int, whole: (IoStatus, nat, seq<SysCall>))
    requires tot <= cap <= sz && StepTaken(sz, cap, tot, prev, calls, rc, whole)
    ensures 0 <= rc <= cap - tot
    ensures rc == 0 && tot < sz ==> whole == (Shutdown, tot, calls)
    ensures !(rc == 0 && tot < sz) && tot + rc < sz ==> Transfer(sz, cap, tot + rc, calls) == whole
    ensures !(rc == 0 && tot < sz) && tot + rc >= sz ==> whole == (Done, tot + rc, calls)
  {
    TransferStep(sz, cap, tot, prev);
  }

  /** Every call in `calls` fails with an error other than EINTR and EAGAIN. */
  predicate AllHardErrors(calls: seq<SysCall>)
  {
    forall i :: 0 <= i < |calls| ==> IsHardError(calls[i])
  }

  /** Every call in `calls` returns a positive byte count. */
  predicate AllPositive(calls: seq<SysCall>)
  {
    forall i :: 0 <= i < |calls| ==> calls[i].Returned? && calls[i].n > 0
  }

  /** Hard errors are retried: a run of them changes nothing. */
  lemma {:induction false} TransferSkipsHardErrors(sz: nat, cap: nat, tot: nat, errs: seq<SysCall>, rest: seq<SysCall>)
    requires tot <= cap <= sz && AllHardErrors(errs)
    ensures Transfer(sz, cap, tot, errs + rest) == Transfer(sz, cap, tot, rest)
    decreases |errs|
  {
    if errs != [] {
      assert (errs + rest)[0] == errs[0];
      TransferRetry(sz, cap, tot, errs + rest);
      assert (errs + rest)[1..] == errs[1..] + rest;
      assert AllHardErrors(errs[1..]) by {
        forall i | 0 <= i < |errs[1..]| ensures IsHardError(errs[1..][i]) {
          assert errs[1..][i] == errs[i + 1];
        }
      }
      TransferSkipsHardErrors(sz, cap, tot, errs[1..], rest);
    } else {
      assert errs + rest == rest;
    }
  }

  /**
   * EINTR and EAGAIN are not retried: after any number of hard errors,
   * either one ends the transfer, with `ESHUTDOWN` while bytes are missing.
   */
  lemma TransferInterrupted(sz: nat, cap: nat, tot: nat, errs: seq<SysCall>, e: nat, rest: seq<SysCall>)
    requires tot <= cap <= sz && AllHardErrors(errs) && (e == EINTR || e == EAGAIN)
    ensures tot < sz ==> Transfer(sz, cap, tot, errs + [Failed(e)] + rest) == (Shutdown, tot, rest)
    ensures tot == sz ==> Transfer(sz, cap, tot, errs + [Failed(e)] + rest) == (Done, tot, rest)
  {
    assert errs + [Failed(e)] + rest == errs + ([Failed(e)] + rest);
    TransferSkipsHardErrors(sz, cap, tot, errs, [Failed(e)] + rest);
    assert ([Failed(e)] + rest)[1..] == rest;
  }

  /**
   * With a peer that supplies everything, calls that each move at least
   * one byte complete the transfer once there are as many calls as bytes
   * still wanted.
   */
  lemma {:induction false} TransferCompletes(sz: nat, tot: nat, calls: seq<SysCall>)
    requires tot < sz && AllPositive(calls) && |calls| >= sz - tot
    ensures Transfer(sz, sz, tot, calls).0 == Done
    ensures Transfer(sz, sz, tot, calls).1 == sz
    decreases sz - tot
  {
    assert calls[0].Returned? && calls[0].n > 0;
    var k := Min(calls[0].n, sz - tot);
    if tot + k < sz {
      assert AllPositive(calls[1..]) by {
        forall i | 0 <= i < |calls[1..]| ensures calls[1..][i].Returned? && calls[1..][i].n > 0 {
          assert calls[1..][i] == calls[i + 1];
        }
      }
      TransferCompletes(sz, tot + k, calls[1..]);
    }
  }

  /**
   * A reader whose pipe holds fewer than `sz` bytes ends with `ESHUTDOWN`
   * after draining all `cap` of them: the read after the last byte returns
   * 0.
   */
  lemma {:induction false} TransferDrains(sz: nat, cap: nat, tot: nat, calls: seq<SysCall>)
    requires tot <= cap < sz && AllPositive(calls) && |calls| > cap - tot
    ensures Transfer(sz, cap, tot, calls).0 == Shutdown
    ensures Transfer(sz, cap, tot, calls).1 == cap
    decreases cap - tot
  {
    assert calls[0].Returned? && calls[0].n > 0;
    var k := Min(calls[0].n, cap - tot);
    if k != 0 {
      assert AllPositive(calls[1..]) by {
        forall i | 0 <= i < |calls[1..]| ensures calls[1..][i].Returned? && calls[1..][i].n > 0 {
          assert calls[1..][i] == calls[i + 1];
        }
      }
      TransferDrains(sz, cap, tot + k, calls[1..]);
    }
  }

  /**
   * The comment above `NFDi_write` promises to deal with signal
   * interruptions, but one EINTR before any byte has moved ends the
   * transfer with `ESHUTDOWN` and nothing written.
   */
  lemma InterruptedBeforeFirstByte()
    ensures Transfer(8, 8, 0, [Failed(EINTR), Returned(8)]) == (Shutdown, 0, [Returned(8)])
  {
  }

  // ----- writing from a NULL buffer -----

  const EFAULT: nat := 14

  /**
   * The outcomes of the calls `NFDi_write(fd, sz, NULL)` makes: a call
   * that asks for bytes at address 0 fails with EFAULT; when `sz` is 0 no
   * call asks for any byte and the script decides.
   */
  function NullBufferCalls(sz: nat, script: seq<SysCall>): (calls: seq<SysCall>)
    ensures |calls| == |script|
  {
    if sz == 0 then script else seq(|script|, _ => Failed(EFAULT))
  }

  /**
   * A write of a positive size from a NULL buffer never ends: EFAULT is
   * retried until every call is used, and no byte moves.
   */
  lemma NullBufferHangs(sz: nat, script: seq<SysCall>)
    requires sz > 0
    ensures Transfer(sz, sz, 0, NullBufferCalls(sz, script)) == (Hung, 0, [])
  {
    var faults := NullBufferCalls(sz, script);
    assert AllHardErrors(faults) by {
      forall i | 0 <= i < |faults| ensures IsHardError(faults[i]) {
        assert faults[i] == Failed(EFAULT);
      }
    }
    TransferSkipsHardErrors(sz, sz, 0, faults, []);
    assert faults + [] == faults;
  }

  /**
   * The state after the call `prev[0]` left `rc >= 0`, with `tot` bytes
   * moved before it.
   */
  ghost predicate StepTaken(sz: nat, cap: nat, tot: nat, prev: seq<SysCall>, calls: seq<SysCall>, rc: int, whole: (IoStatus, nat, seq<SysCall>))
    requires tot <= cap <= sz
  {
    && prev != [] && calls == prev[1..]
    && !IsHardError(prev[0])
    && Transfer(sz, cap, tot, prev) == whole
    && rc == StepValue(prev[0], cap - tot)
  }

  /**
   * The inner `do`/`while` of both helpers: the call is repeated while it
   * fails with an error other than EINTR and EAGAIN, which set `rc` to 0.
   * `room` bytes are asked for; `hung` is a script that runs out first.
   */
  method RetryCall(room: nat, calls: seq<SysCall>, ghost sz: nat, ghost cap: nat, ghost tot: nat, ghost whole: (IoStatus, nat, seq<SysCall>))
    returns (rc: int, rest: seq<SysCall>, hung: bool)
    requires tot <= cap <= sz && room == cap - tot && Transfer(sz, cap, tot, calls) == whole
    ensures hung ==> whole == (Hung, tot, [])
    ensures !hung ==> 0 <= rc <= room && |rest| < |calls|
    ensures !hung && rc == 0 && tot < sz ==> whole == (Shutdown, tot, rest)
    ensures !hung && !(rc == 0 && tot < sz) && tot + rc < sz ==> Transfer(sz, cap, tot + rc, rest) == whole
    ensures !hung && !(rc == 0 && tot < sz) && tot + rc >= sz ==> whole == (Done, tot + rc, rest)
  {
    rest := calls;
    ghost var prev := calls;
    rc := -1;
    var callErrno := 0;
    while rc < 0
      invariant |rest| <= |calls|
      invariant rc < 0 ==> Transfer(sz, cap, tot, rest) == whole
      invariant rc >= 0 ==> StepTaken(sz, cap, tot, prev, rest, rc, whole) && |rest| < |calls|
      decreases |rest|, if rc < 0 then 1 else 0
    {
      if rest == [] {
        return -1, [], true;
      }
      prev := rest;
      var call := rest[0];
      rest := rest[1..];
      rc := CallReturn(call, room);
      if rc < 0 {
        callErrno := call.errno;
        if callErrno == EAGAIN || callErrno == EINTR {
          rc := 0;
        }
      }
      if rc < 0 {
        TransferRetry(sz, cap, tot, prev);
      }
    }
    CallTaken(sz, cap, tot, prev, rest, rc, whole);
    hung := false;
  }

  /**
   * `NFDi_write`: writes `buf` (of `sz` bytes); `wire` is what reached the
   * pipe. EINTR and EAGAIN set `rc` to 0, so they end the call with
   * `ESHUTDOWN` like a zero-byte write; every other error repeats the call,
   * and the `return write_errno` after the inner loop is never reached.
   */
  method NFDiWrite(sz: nat, buf: seq<byte>, script: seq<SysCall>)
    returns (status: IoStatus, wire: seq<byte>, rest: seq<SysCall>)
    requires |buf| == sz
    ensures (status, |wire|, rest) == Transfer(sz, sz, 0, script)
    ensures wire == buf[..|wire|]
  {
    ghost var whole := Transfer(sz, sz, 0, script);
    var tot: nat := 0;
    var calls := script;
    wire := [];
    while true
      invariant tot <= sz && wire == buf[..tot]
      invariant Transfer(sz, sz, tot, calls) == whole
      decreases |calls|
    {
      var rc, hung;
      rc, calls, hung := RetryCall(sz - tot, calls, sz, sz, tot, whole);
      if hung {
        return Hung, wire, [];
      }
      if rc < 0 {
        assert false;
      }
      if rc == 0 && tot < sz {
        return Shutdown, wire, calls;
      }
      wire := wire + buf[tot..tot + rc];
      tot := tot + rc;
      if !(tot < sz) {
        return Done, wire, calls;
      }
    }
  }

  /** Moving `n` bytes from what is left to what was read keeps the pipe's contents. */
  lemma MoveBytes(data: seq<byte>, left: seq<byte>, n: nat)
    requires n <= |left|
    ensures (data + left[..n]) + left[n..] == data + left
  {
    assert left[..n] + left[n..] == left;
  }

  /**
   * `NFDi_read`: reads `sz` bytes from a pipe holding `pipe` (everything
   * the writer sent and has not been read). `data` is what arrived, in
   * order, and `left` what stays in the pipe. A zero-byte read (end of
   * file), EINTR and EAGAIN all end it with `ESHUTDOWN` while bytes are
   * missing; any other error repeats the call.
   */
  method NFDiRead(sz: nat, pipe: seq<byte>, script: seq<SysCall>)
    returns (status: IoStatus, data: seq<byte>, left: seq<byte>, rest: seq<SysCall>)
    ensures (status, |data|, rest) == Transfer(sz, Min(sz, |pipe|), 0, script)
    ensures data + left == pipe
  {
    var cap := Min(sz, |pipe|);
    ghost var whole := Transfer(sz, cap, 0, script);
    var tot: nat := 0;
    var calls := script;
    data, left := [], pipe;
    while true
      invariant tot <= cap <= sz && cap <= |pipe|
      invariant data + left == pipe && |data| == tot
      invariant Transfer(sz, cap, tot, calls) == whole
      decreases |calls|
    {
      var rc, hung;
      rc, calls, hung := RetryCall(cap - tot, calls, sz, cap, tot, whole);
      if hung {
        return Hung, data, left, [];
      }
      if rc < 0 {
        assert false;
      }
      if rc == 0 && tot < sz {
        return Shutdown, data, left, calls;
      }
      MoveBytes(data, left, rc);
      data, left := data + left[..rc], left[rc..];
      tot := tot + rc;
      if !(tot < sz) {
        return Done, data, left, calls;
      }
    }
  }
}
