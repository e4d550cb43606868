/** The tuning calls over whole runs: each setting is what the last call that gave it said, and what the settings do to the
    flushes that follow. */
module Settings {
  import opened Serial
  import opened Wire
  import opened Fragments
  import opened Sender
  import opened SendWindow
  import opened Estimator
  import opened ControlBlock
  import opened Invariant
  import opened Calls

  datatype Setting = DelayMode | MinTimeout | Pace | EarlyResend | NoCongestion | SendWnd | ReceiveWnd

  /** The call gives the setting a value. Negative arguments of `ikcp_nodelay`, and arguments of `ikcp_wndsize` that are not
      positive, leave it alone. */
  predicate Gives(call: Call, s: Setting) {
    match s
    case DelayMode => call.CallNoDelay? && call.nodelay >= 0
    case MinTimeout => call.CallNoDelay? && call.nodelay >= 0
    case Pace => call.CallInterval? || (call.CallNoDelay? && call.interval >= 0)
    case EarlyResend => call.CallNoDelay? && call.resend >= 0
    case NoCongestion => call.CallNoDelay? && call.nc >= 0
    case SendWnd => call.CallWndSize? && call.snd > 0
    case ReceiveWnd => call.CallWndSize? && call.rcv > 0
  }

  /** The value that the call gives, as it is in force in `cb`. */
  predicate InForce(cb: Cb, call: Call, s: Setting)
    requires Gives(call, s)
  {
    match s
    case DelayMode => cb.conf.nodelay == call.nodelay
    case MinTimeout => cb.rtt.minrto == if call.nodelay == 0 then 100 else 30
    case Pace => IntervalTaken(if call.CallInterval? then call.ms else call.interval, cb.clock.interval)
    case EarlyResend => cb.conf.fastresend == call.resend
    case NoCongestion => cb.conf.nocwnd <==> call.nc > 0
    case SendWnd => cb.conf.sndWnd == call.snd
    case ReceiveWnd => cb.rcv.wnd == if call.rcv < 128 then 128 else call.rcv
  }

  /** Two states agree on the setting. */
  predicate Agree(a: Cb, b: Cb, s: Setting) {
    match s
    case DelayMode => a.conf.nodelay == b.conf.nodelay
    case MinTimeout => a.rtt.minrto == b.rtt.minrto
    case Pace => a.clock.interval == b.clock.interval
    case EarlyResend => a.conf.fastresend == b.conf.fastresend
    case NoCongestion => a.conf.nocwnd == b.conf.nocwnd
    case SendWnd => a.conf.sndWnd == b.conf.sndWnd
    case ReceiveWnd => a.rcv.wnd == b.rcv.wnd
  }

  lemma {:induction false} InputMinTimeout(cb: Cb, segs: seq<Seg>)
    ensures InputAll(W32, cb, segs).rtt.minrto == cb.rtt.minrto
  {
    if segs != [] {
      InputMinTimeout(cb, segs[..|segs| - 1]);
    }
  }

  lemma InputAgrees(cb: Cb, data: Bytes, s: Setting)
    requires cb.conf.Ok()
    ensures Agree(cb, InputBytes(cb, data).0, s)
  {
    var segs := Parse(cb.conf.conv, data).segs;
    InputAllConf(W32, cb, segs);
    InputWnd(W32, cb, segs);
    InputMinTimeout(cb, segs);
  }

  lemma RecvAgrees(cb: Cb, len: int, s: Setting)
    ensures Agree(cb, DoRecv(W32, cb, len).0, s)
  {
    var n := RunLen(cb.rcv.queue);
    DrainAcks(W32, cb.rcv.(queue := if len < 0 then cb.rcv.queue else cb.rcv.queue[n..]));
  }

  /** A call that gives the setting puts its value in force; any other leaves it alone. */
  lemma CallGives(cb: Cb, call: Call, s: Setting)
    requires cb.conf.Ok()
    ensures if Gives(call, s) then InForce(Apply(cb, call), call, s) else Agree(cb, Apply(cb, call), s)
  {
    match call
    case CallInput(data) => InputAgrees(cb, data, s);
    case CallRecv(len) => RecvAgrees(cb, len, s);
    case _ =>
  }

  /** The last call of the run, if any, that gives the setting. */
  predicate LastGives(calls: seq<Call>, k: nat, s: Setting) {
    k < |calls| && Gives(calls[k], s) && forall j :: k < j < |calls| ==> !Gives(calls[j], s)
  }

  /** Over any sequence of calls every setting has the value that the last call giving it said, ... */
  lemma {:induction false} LastValueHolds(cb: Cb, calls: seq<Call>, k: nat, s: Setting)
    requires cb.conf.Ok() && LastGives(calls, k, s)
    ensures InForce(Run(cb, calls), calls[k], s)
    decreases |calls|
  {
    var n := |calls| - 1;
    CallGives(Run(cb, calls[..n]), calls[n], s);
    if k < n {
      LastValueHolds(cb, calls[..n], k, s);
      AgreeInForce(Run(cb, calls[..n]), Run(cb, calls), calls[k], s);
    }
  }

  lemma AgreeInForce(a: Cb, b: Cb, call: Call, s: Setting)
    requires Gives(call, s) && InForce(a, call, s) && Agree(a, b, s)
    ensures InForce(b, call, s)
  {
  }

  /** ... and the value it started with if no call gives it. */
  lemma {:induction false} FirstValueHolds(cb: Cb, calls: seq<Call>, s: Setting)
    requires cb.conf.Ok() && forall j :: 0 <= j < |calls| ==> !Gives(calls[j], s)
    ensures Agree(cb, Run(cb, calls), s)
    decreases |calls|
  {
    if calls != [] {
      var n := |calls| - 1;
      FirstValueHolds(cb, calls[..n], s);
      CallGives(Run(cb, calls[..n]), calls[n], s);
    }
  }

  // ----- what the congestion switch does

  /** How many numbers are unacknowledged. */
  function Unacked(s: Snd): u32 {
    U32(s.nxt - s.una)
  }

  /** The window was used up, but never exceeded: more than `wnd` numbers are unacknowledged only if they were before. */
  predicate Fills(s: Snd, s': Snd, wnd: nat) {
    && (s'.queue == [] || Unacked(s') >= wnd)
    && Unacked(s') <= Max(Unacked(s), wnd)
  }

  lemma MoveFills(s: Snd, e: FlushEnv, wnd: nat)
    requires SndOk(W32, s) && wnd <= MAX_WND
    ensures var fills := Fills(s, MoveToBuf(W32, s, e, wnd), wnd); fills
  {
    MoveToBufFills(W32, s, e, wnd);
    MoveToBufKeeps(W32, s, e, wnd);
  }

  lemma FillsSame(s: Snd, t: Snd, t': Snd, wnd: nat)
    requires t'.queue == t.queue && t'.nxt == t.nxt && t'.una == t.una
    requires var fills := Fills(s, t, wnd); fills
    ensures var fills := Fills(s, t', wnd); fills
  {
  }

  lemma FlushFills(cb: Cb, lim: nat)
    requires CbOk(W32, cb, lim) && cb.clock.updated
    ensures var fills := Fills(cb.snd, DoFlush(W32, cb).snd, Window(cb)); fills
  {
    MoveFills(cb.snd, Env(cb), Window(cb));
    FillsSame(cb.snd, Moved(W32, cb), DoFlush(W32, cb).snd, Window(cb));
  }

  lemma CallFills(cb: Cb, lim: nat, call: Call)
    requires CbOk(W32, cb, lim) && Flushes(cb, call)
    ensures Fills(cb.snd, Apply(cb, call).snd, Window(cb))
  {
    match call
    case CallUpdate(now) =>
      assert CbOk(W32, Ticked(cb, now), lim);
      FlushFills(Ticked(cb, now), lim);
    case CallFlush => FlushFills(cb, lim);
  }

  /** In any run in which `ikcp_nodelay` was last given nc > 0, a call that flushes empties the queue or leaves as many
      numbers unacknowledged as the smaller of the send window and the peer's, whatever the congestion window. */
  lemma WithoutCongestion(conv: u32, mtu: nat, stream: bool, calls: seq<Call>, k: nat, call: Call)
    requires 50 <= mtu < 0x8000_0000 && LastGives(calls, k, NoCongestion) && calls[k].nc > 0
    requires Flushes(Run(Create(conv, mtu, stream), calls), call)
    ensures var cb := Run(Create(conv, mtu, stream), calls);
            Fills(cb.snd, Apply(cb, call).snd, Min(cb.conf.sndWnd, cb.rmtWnd))
  {
    var cb := Create(conv, mtu, stream);
    AnyCallsKeep(conv, mtu, stream, calls);
    LastValueHolds(cb, calls, k, NoCongestion);
    CallFills(Run(cb, calls), Limit(cb, calls), call);
  }

  /** Congestion control is on: never switched, or last given nc == 0. */
  predicate Controlled(calls: seq<Call>) {
    (forall j :: 0 <= j < |calls| ==> !Gives(calls[j], NoCongestion)) ||
    (exists k :: 0 <= k < |calls| && LastGives(calls, k, NoCongestion) && calls[k].nc == 0)
  }

  /** Otherwise it uses up the congestion window, if that is the smallest, and puts no number beyond it in flight. */
  lemma WithCongestion(conv: u32, mtu: nat, stream: bool, calls: seq<Call>, call: Call)
    requires 50 <= mtu < 0x8000_0000 && Controlled(calls)
    requires Flushes(Run(Create(conv, mtu, stream), calls), call)
    ensures var cb := Run(Create(conv, mtu, stream), calls);
            Fills(cb.snd, Apply(cb, call).snd, Min(cb.cong.cwnd, Min(cb.conf.sndWnd, cb.rmtWnd)))
  {
    var cb := Create(conv, mtu, stream);
    AnyCallsKeep(conv, mtu, stream, calls);
    if forall j :: 0 <= j < |calls| ==> !Gives(calls[j], NoCongestion) {
      FirstValueHolds(cb, calls, NoCongestion);
    } else {
      var k :| 0 <= k < |calls| && LastGives(calls, k, NoCongestion) && calls[k].nc == 0;
      LastValueHolds(cb, calls, k, NoCongestion);
    }
    CallFills(Run(cb, calls), Limit(cb, calls), call);
  }
}
