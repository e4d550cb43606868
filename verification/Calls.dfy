/** Any sequence of calls on one control block, with arbitrary bytes as input: what holds in every state reached. */
module Calls {
  import opened Serial
  import opened Wire
  import opened SendWindow
  import opened Receiver
  import opened Estimator
  import opened Congestion
  import opened ControlBlock
  import opened Invariant

  datatype Call =
    | CallSend(msg: Bytes)
    | CallRecv(len: int)
    | CallInput(data: Bytes)
    | CallUpdate(now: u32)
    | CallFlush
    | CallWndSize(snd: i32, rcv: i32)
    | CallNoDelay(nodelay: i32, interval: i32, resend: i32, nc: i32)
    | CallInterval(ms: i32)

  function Apply(cb: Cb, call: Call): Cb
    requires cb.conf.Ok()
  {
    match call
    case CallSend(msg) => DoSend(cb, msg).0
    case CallRecv(len) => DoRecv(W32, cb, len).0
    case CallInput(data) => InputBytes(cb, data).0
    case CallUpdate(now) => DoUpdate(W32, cb, now)
    case CallFlush => DoFlush(W32, cb)
    case CallWndSize(snd, rcv) => DoWndSize(cb, snd, rcv)
    case CallNoDelay(nodelay, interval, resend, nc) => DoNoDelay(cb, nodelay, interval, resend, nc)
    case CallInterval(ms) => DoInterval(cb, ms)
  }

  lemma ApplyConf(cb: Cb, call: Call)
    requires cb.conf.Ok()
    ensures var conf := Apply(cb, call).conf;
            conf.Ok() && conf.conv == cb.conf.conv && conf.mtu == cb.conf.mtu && conf.stream == cb.conf.stream
    ensures Apply(cb, call).conf.fastlimit == cb.conf.fastlimit
    ensures !call.CallNoDelay? ==> Apply(cb, call).conf.fastresend == cb.conf.fastresend
  {
    if call.CallInput? {
      InputAllConf(W32, cb, Parse(cb.conf.conv, call.data).segs);
    }
  }

  function Run(cb: Cb, calls: seq<Call>): (cb': Cb)
    requires cb.conf.Ok()
    ensures cb'.conf.Ok() && cb'.conf.mtu == cb.conf.mtu
  {
    if calls == [] then cb
    else
      var mid := Run(cb, calls[..|calls| - 1]);
      ApplyConf(mid, calls[|calls| - 1]);
      Apply(mid, calls[|calls| - 1])
  }

  /** The largest receive window in force at any time. */
  function Limit(cb: Cb, calls: seq<Call>): nat
    requires cb.conf.Ok()
  {
    if calls == [] then cb.rcv.wnd
    else Max(Limit(cb, calls[..|calls| - 1]), Run(cb, calls).rcv.wnd)
  }

  lemma ApplyOk(cb: Cb, lim: nat, call: Call)
    requires CbOk(W32, cb, lim)
    ensures CbOk(W32, Apply(cb, call), Max(lim, Apply(cb, call).rcv.wnd))
    ensures Drained(cb.rcv) && !call.CallWndSize? ==> Drained(Apply(cb, call).rcv)
    ensures Advanced(W32, cb.snd, Apply(cb, call).snd)
  {
    AheadOfNext(W32, cb.snd.una, 0);
    match call
    case CallSend(msg) => SendOk(W32, cb, lim, msg);
    case CallRecv(len) => RecvOk(W32, cb, lim, len);
    case CallInput(data) => InputBytesOk(cb, lim, data);
    case CallUpdate(now) =>
      UpdateOk(W32, cb, lim, now);
      FlushUna(Ticked(cb, now));
    case CallFlush =>
      FlushOk(W32, cb, lim);
      FlushUna(cb);
    case CallWndSize(snd, rcv) => WndSizeOk(W32, cb, lim, snd, rcv);
    case CallNoDelay(a, b, c, d) => TuningOk(W32, cb, lim, a, b, c, d);
    case CallInterval(ms) => TuningOk(W32, cb, lim, ms, ms, ms, ms);
  }

  lemma FlushUna(cb: Cb)
    requires cb.conf.Ok() && SndOk(W32, cb.snd)
    ensures DoFlush(W32, cb).snd.una == cb.snd.una
  {
    MoveToBufKeeps(W32, cb.snd, Env(cb), Window(cb));
  }

  /** The control block in every reachable state: sender and receiver windows well-formed, the receive buffer inside the
      largest window configured, timers in range. No call, and no byte from the network, breaks it. */
  lemma {:induction false} AnyCallsKeep(conv: u32, mtu: nat, stream: bool, calls: seq<Call>)
    requires 50 <= mtu < 0x8000_0000
    ensures CbOk(W32, Run(Create(conv, mtu, stream), calls), Limit(Create(conv, mtu, stream), calls))
    decreases |calls|
  {
    var cb := Create(conv, mtu, stream);
    if calls == [] {
      CreateOk(W32, conv, mtu, stream);
    } else {
      var init, last := calls[..|calls| - 1], calls[|calls| - 1];
      AnyCallsKeep(conv, mtu, stream, init);
      ApplyOk(Run(cb, init), Limit(cb, init), last);
    }
  }

  // ----- the receive window over whole runs

  predicate Stranding(cb: Cb, call: Call) {
    call.CallWndSize? && Strands(cb, call.rcv)
  }

  /** `ikcp_wndsize` is the only call that can leave the buffer undrained, and exactly when do so is a test on the state
      before the call. */
  lemma ApplyDrains(cb: Cb, lim: nat, call: Call)
    requires CbOk(W32, cb, lim) && Drained(cb.rcv)
    ensures Drained(Apply(cb, call).rcv) <==> !Stranding(cb, call)
  {
    if call.CallWndSize? {
      WndSizeStrands(cb, call.snd, call.rcv);
    } else {
      ApplyOk(cb, lim, call);
    }
  }

  /** In every state of the run the receive buffer is drained as far as possible. */
  ghost predicate AlwaysDrained(cb: Cb, calls: seq<Call>)
    requires cb.conf.Ok()
  {
    forall k {:trigger calls[..k]} :: 0 <= k <= |calls| ==> Drained(Run(cb, calls[..k]).rcv)
  }

  /** No call of the run strands a segment. */
  ghost predicate NoneStrands(cb: Cb, calls: seq<Call>)
    requires cb.conf.Ok()
  {
    forall k {:trigger calls[k]} :: 0 <= k < |calls| ==> !Stranding(Run(cb, calls[..k]), calls[k])
  }

  lemma RunSnoc(cb: Cb, calls: seq<Call>, k: nat)
    requires cb.conf.Ok() && k < |calls|
    ensures Run(cb, calls[..k + 1]) == Apply(Run(cb, calls[..k]), calls[k])
  {
    assert calls[..k + 1][..k] == calls[..k];
  }

  /** The receive buffer is drained in every state of a run exactly if no call of `ikcp_wndsize` finds the buffered segment
      that is next kept out by a full queue, and makes room for it. */
  lemma {:induction false} DrainedUnlessStranded(conv: u32, mtu: nat, stream: bool, calls: seq<Call>)
    requires 50 <= mtu < 0x8000_0000
    ensures var cb := Create(conv, mtu, stream); AlwaysDrained(cb, calls) <==> NoneStrands(cb, calls)
  {
    var cb := Create(conv, mtu, stream);
    if AlwaysDrained(cb, calls) {
      forall k | 0 <= k < |calls|
        ensures !Stranding(Run(cb, calls[..k]), calls[k])
      {
        AnyCallsKeep(conv, mtu, stream, calls[..k]);
        RunSnoc(cb, calls, k);
        ApplyDrains(Run(cb, calls[..k]), Limit(cb, calls[..k]), calls[k]);
      }
    }
    if NoneStrands(cb, calls) {
      forall k | 0 <= k <= |calls|
        ensures Drained(Run(cb, calls[..k]).rcv)
      {
        StaysDrained(conv, mtu, stream, calls, k);
      }
    }
  }

  lemma {:induction false} StaysDrained(conv: u32, mtu: nat, stream: bool, calls: seq<Call>, k: nat)
    requires 50 <= mtu < 0x8000_0000 && k <= |calls| && NoneStrands(Create(conv, mtu, stream), calls)
    ensures Drained(Run(Create(conv, mtu, stream), calls[..k]).rcv)
    decreases k
  {
    var cb := Create(conv, mtu, stream);
    if k == 0 {
      CreateOk(W32, conv, mtu, stream);
    } else {
      StaysDrained(conv, mtu, stream, calls, k - 1);
      AnyCallsKeep(conv, mtu, stream, calls[..k - 1]);
      RunSnoc(cb, calls, k - 1);
      assert !Stranding(Run(cb, calls[..k - 1]), calls[k - 1]);
      ApplyDrains(Run(cb, calls[..k - 1]), Limit(cb, calls[..k - 1]), calls[k - 1]);
    }
  }

  /** No call of the run makes the receive window smaller. */
  ghost predicate NeverShrinks(cb: Cb, calls: seq<Call>)
    requires cb.conf.Ok()
  {
    forall k {:trigger calls[k]} :: 0 <= k < |calls| ==> Run(cb, calls[..k]).rcv.wnd <= Run(cb, calls[..k + 1]).rcv.wnd
  }

  /** Without shrinking, the largest window so far is the one in force, so the receive buffer always lies inside it. */
  lemma {:induction false} WindowHolds(conv: u32, mtu: nat, stream: bool, calls: seq<Call>)
    requires 50 <= mtu < 0x8000_0000 && NeverShrinks(Create(conv, mtu, stream), calls)
    ensures var cb := Run(Create(conv, mtu, stream), calls); CbOk(W32, cb, cb.rcv.wnd)
  {
    AnyCallsKeep(conv, mtu, stream, calls);
    LimitIsWnd(Create(conv, mtu, stream), calls, |calls|);
    assert calls[..|calls|] == calls;
  }

  lemma {:induction false} LimitIsWnd(cb: Cb, calls: seq<Call>, k: nat)
    requires cb.conf.Ok() && NeverShrinks(cb, calls) && k <= |calls|
    ensures Limit(cb, calls[..k]) == Run(cb, calls[..k]).rcv.wnd
    decreases k
  {
    if k > 0 {
      LimitIsWnd(cb, calls, k - 1);
      assert calls[..k][..k - 1] == calls[..k - 1];
      assert calls[k - 1] == calls[k - 1] && Run(cb, calls[..k - 1]).rcv.wnd <= Run(cb, calls[..k - 1 + 1]).rcv.wnd;
    }
  }

  /** Receive-window invariant over whole runs: with windows that never shrink, and no call that strands a segment, the buffer
      lies inside the window in force and is drained as far as possible. */
  lemma AnyCallsDrain(conv: u32, mtu: nat, stream: bool, calls: seq<Call>)
    requires 50 <= mtu < 0x8000_0000
    requires NeverShrinks(Create(conv, mtu, stream), calls) && NoneStrands(Create(conv, mtu, stream), calls)
    ensures var cb := Run(Create(conv, mtu, stream), calls); CbOk(W32, cb, cb.rcv.wnd) && Drained(cb.rcv)
  {
    WindowHolds(conv, mtu, stream, calls);
    StaysDrained(conv, mtu, stream, calls, |calls|);
    assert calls[..|calls|] == calls;
  }

  // ----- congestion accounting

  predicate ModerateCalls(calls: seq<Call>) {
    forall i :: 0 <= i < |calls| && calls[i].CallNoDelay? ==> calls[i].resend <= 32768
  }

  /** A call that flushes. */
  predicate Flushes(cb: Cb, call: Call) {
    (call.CallFlush? && cb.clock.updated) || (call.CallUpdate? && Tick(cb.clock, call.now).1)
  }

  lemma ApplyCong(cb: Cb, lim: nat, call: Call)
    requires CbOk(W32, cb, lim) && Moderate(cb.conf) && CongOk(cb.cong, cb.conf.Mss())
    requires call.CallNoDelay? ==> call.resend <= 32768
    ensures Moderate(Apply(cb, call).conf) && CongOk(Apply(cb, call).cong, cb.conf.Mss())
    ensures call.CallInput? ==> Apply(cb, call).cong.cwnd <= cb.cong.cwnd + 2
    ensures cb.cong.cwnd >= 1 || Flushes(cb, call) ==> Apply(cb, call).cong.cwnd >= 1
  {
    match call
    case CallInput(data) => InputCong(cb, data);
    case CallUpdate(now) =>
      assert CbOk(W32, Ticked(cb, now), lim);
      MovedSpan(W32, Ticked(cb, now), lim);
      FlushCong(W32, Ticked(cb, now));
    case CallFlush =>
      MovedSpan(W32, cb, lim);
      FlushCong(W32, cb);
    case _ =>
  }

  /** Whether some call of the run has flushed. */
  predicate HasFlushed(cb: Cb, calls: seq<Call>)
    requires cb.conf.Ok()
  {
    calls != [] &&
    var init, last := calls[..|calls| - 1], calls[|calls| - 1];
    HasFlushed(cb, init) || Flushes(Run(cb, init), last)
  }

  /** Congestion accounting over whole runs: `|incr - cwnd * mss| < mss` and `ssthresh >= 2` in every state, and
      `cwnd >= 1` from the first flush on, with no 32-bit overflow, for datagrams of at most 65535 bytes and a resend count of
      at most 32768. */
  lemma {:induction false} AnyCallsAccount(conv: u32, mtu: nat, stream: bool, calls: seq<Call>)
    requires 50 <= mtu <= 65535 && ModerateCalls(calls)
    ensures var cb := Run(Create(conv, mtu, stream), calls);
            && Moderate(cb.conf) && CongOk(cb.cong, mtu - OVERHEAD)
            && (HasFlushed(Create(conv, mtu, stream), calls) ==> cb.cong.cwnd >= 1)
    decreases |calls|
  {
    if calls == [] {
      CreateOk(W32, conv, mtu, stream);
    } else {
      var init, last := calls[..|calls| - 1], calls[|calls| - 1];
      AnyCallsAccount(conv, mtu, stream, init);
      AnyCallsKeep(conv, mtu, stream, init);
      assert last.CallNoDelay? ==> calls[|calls| - 1].resend <= 32768;
      ApplyCong(Run(Create(conv, mtu, stream), init), Limit(Create(conv, mtu, stream), init), last);
    }
  }
}
