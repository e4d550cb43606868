/** The 32-bit protocol, exchanging real datagrams of bytes, runs in lockstep with the unbounded one as long as nothing
    stale is delivered; so the end-to-end theorems hold of it. */
module Lockstep {
  import opened Seqs
  import opened Serial
  import opened Wire
  import opened Fragments
  import opened Sender
  import opened SendWindow
  import opened Receiver
  import opened ControlBlock
  import opened Invariant
  import opened Link
  import opened TwoEndpoints
  import opened EndToEnd
  import opened Delivery
  import opened Wrapping

  function WrapEp(e: Ep): Ep {
    e.(cb := WrapCb(e.cb), out := WrapNet(e.out))
  }

  function WrapWorld(x: World): World {
    World(WrapEp(x.a), WrapEp(x.b))
  }

  // ----- datagrams

  /** A datagram that survives the trip through its encoding. */
  predicate DatagramOk(conv: u32, d: seq<Seg>) {
    OVERHEAD <= Size(d) < 0x8000_0000 && AllHeaderOk(conv, d)
  }

  ghost predicate NetOk(conv: u32, net: seq<seq<Seg>>) {
    forall i :: 0 <= i < |net| ==> DatagramOk(conv, net[i])
  }

  lemma SizeAtLeast(d: seq<Seg>)
    requires d != []
    ensures Size(d) >= OVERHEAD
  {
  }

  lemma DatagramWrap(conv: u32, d: seq<Seg>)
    requires DatagramOk(conv, d)
    ensures Parse(conv, EncodeSegs(WrapSegs(d))) == Parsed(WrapSegs(d), 0)
    ensures I32(|EncodeSegs(WrapSegs(d))|) >= OVERHEAD
  {
    SizeWrap(d);
    var t := WrapSegs(d);
    forall i | 0 <= i < |t|
      ensures WireOk(conv, t[i])
    {
      assert HeaderOk(conv, d[i]);
    }
    ParseOfEncode(conv, t);
  }

  lemma FlushNetOk(x: Ep)
    requires EpOk(x) && NetOk(x.cb.conf.conv, x.out)
    ensures NetOk(x.cb.conf.conv, FlushEp(Exact, x).out)
  {
    var segs, ds := FlushSegs(Exact, x.cb), Pack(x.cb.conf.mtu, FlushSegs(Exact, x.cb));
    FlushFits(Exact, x.cb, LIM);
    PackFits(x.cb.conf.mtu, segs);
    forall i | 0 <= i < |ds|
      ensures DatagramOk(x.cb.conf.conv, ds[i])
    {
      assert FitsIn(x.cb.conf.mtu, ds[i]);
      SizeAtLeast(ds[i]);
      forall j | 0 <= j < |ds[i]|
        ensures HeaderOk(x.cb.conf.conv, ds[i][j])
      {
        InFlatten(ds, i, j);
        var k :| 0 <= k < |segs| && segs[k] == ds[i][j];
      }
    }
  }

  lemma ActNetOk(x: Ep, net: seq<seq<Seg>>, act: Act)
    requires EpOk(x) && NetOk(x.cb.conf.conv, x.out)
    ensures NetOk(x.cb.conf.conv, ActEp(Exact, x, net, act).out)
  {
    if act.FlushNow? {
      FlushNetOk(x);
    } else if act.Update? {
      var x1 := x.(cb := Ticked(x.cb, act.now));
      assert EpOk(x1);
      FlushNetOk(x1);
    }
  }

  lemma {:induction false} RunNetOk(s: Setup, steps: seq<Step>)
    requires s.Ok()
    ensures var x := Run(Exact, s, steps); NetOk(s.conv, x.a.out) && NetOk(s.conv, x.b.out)
  {
    if steps != [] {
      var init, last := steps[..|steps| - 1], steps[|steps| - 1];
      RunNetOk(s, init);
      RunOk(s, init);
      var x := Run(Exact, s, init);
      ActNetOk(x.a, x.b.out, last.act);
      ActNetOk(x.b, x.a.out, last.act);
    }
  }

  // ----- one step

  /** An arriving datagram is not stale: see `FreshSeg`. */
  predicate FreshAct(x: Ep, net: seq<seq<Seg>>, act: Act) {
    act.Deliver? && act.i < |net| ==> FreshDatagram(x.cb, net[act.i])
  }

  lemma FlushEpWrap(x: Ep)
    requires EpOk(x)
    ensures FlushEp(W32, WrapEp(x)) == WrapEp(FlushEp(Exact, x))
  {
    FlushWrap(x.cb, LIM);
    PackWrap(x.cb.conf.mtu, FlushSegs(Exact, x.cb));
    WrapNetConcat(x.out, Pack(x.cb.conf.mtu, FlushSegs(Exact, x.cb)));
  }

  lemma ReceiveEpWrap(x: Ep, len: int)
    requires EpOk(x)
    ensures ReceiveEp(W32, WrapEp(x), len) == WrapEp(ReceiveEp(Exact, x, len))
  {
    RecvWrap(x.cb.rcv, LIM, len);
  }

  lemma InputCbWrap(cb: Cb, d: seq<Seg>)
    requires CbOk(Exact, cb, LIM) && DatagramOk(cb.conf.conv, d) && FreshDatagram(cb, d)
    ensures InputCb(W32, WrapCb(cb), WrapSegs(d)) == WrapCb(InputCb(Exact, cb, d))
  {
    DatagramWrap(cb.conf.conv, d);
    InputSegsWrap(cb, LIM, d);
  }

  lemma UpdateEpWrap(x: Ep, now: u32)
    requires EpOk(x)
    ensures UpdateEp(W32, WrapEp(x), now) == WrapEp(UpdateEp(Exact, x, now))
  {
    var x1 := x.(cb := Ticked(x.cb, now));
    assert EpOk(x1);
    assert WrapEp(x).(cb := Ticked(WrapCb(x.cb), now)) == WrapEp(x1);
    FlushEpWrap(x1);
  }

  lemma ActWrap(x: Ep, net: seq<seq<Seg>>, act: Act)
    requires EpOk(x) && NetOk(x.cb.conf.conv, net) && FreshAct(x, net, act)
    ensures ActEp(W32, WrapEp(x), WrapNet(net), act) == WrapEp(ActEp(Exact, x, net, act))
  {
    match act
    case Receive(len) => ReceiveEpWrap(x, len);
    case Update(now) => UpdateEpWrap(x, now);
    case FlushNow => FlushEpWrap(x);
    case Deliver(i) =>
      if i < |net| {
        InputCbWrap(x.cb, net[i]);
      }
    case _ => LocalWrap(x, net, act);
  }

  /** Calls that have nothing to do with sequence numbers. */
  lemma LocalWrap(x: Ep, net: seq<seq<Seg>>, act: Act)
    requires x.cb.conf.Ok() && (act.SendMsg? || act.WndSize? || act.NoDelay? || act.Interval?)
    ensures ActEp(W32, WrapEp(x), WrapNet(net), act) == WrapEp(ActEp(Exact, x, net, act))
  {
  }

  // ----- runs

  ghost predicate FreshStep(x: World, step: Step) {
    match step
    case AtA(act) => FreshAct(x.a, x.b.out, act)
    case AtB(act) => FreshAct(x.b, x.a.out, act)
  }

  /** No delivery of the run is stale. */
  ghost predicate FreshRun(s: Setup, steps: seq<Step>)
    requires s.Ok()
  {
    forall k {:trigger steps[k]} :: 0 <= k < |steps| ==> FreshStep(Run(Exact, s, steps[..k]), steps[k])
  }

  lemma FreshPrefix(s: Setup, steps: seq<Step>)
    requires s.Ok() && FreshRun(s, steps) && steps != []
    ensures FreshRun(s, steps[..|steps| - 1])
    ensures FreshStep(Run(Exact, s, steps[..|steps| - 1]), steps[|steps| - 1])
  {
    var init := steps[..|steps| - 1];
    forall k | 0 <= k < |init|
      ensures FreshStep(Run(Exact, s, init[..k]), init[k])
    {
      assert init[..k] == steps[..k] && init[k] == steps[k];
    }
  }

  lemma FreshSnoc(s: Setup, steps: seq<Step>)
    requires s.Ok() && steps != [] && FreshRun(s, steps[..|steps| - 1])
    requires FreshStep(Run(Exact, s, steps[..|steps| - 1]), steps[|steps| - 1])
    ensures FreshRun(s, steps)
  {
    var init := steps[..|steps| - 1];
    forall k | 0 <= k < |steps|
      ensures FreshStep(Run(Exact, s, steps[..k]), steps[k])
    {
      if k < |init| {
        assert init[..k] == steps[..k] && init[k] == steps[k];
      }
    }
  }

  lemma StartWrap(s: Setup)
    ensures Start(s) == WrapWorld(Start(s))
  {
    var a, b := Start(s).a, Start(s).b;
    assert WrapBuf(a.cb.snd.buf) == [] && WrapSegs(a.cb.rcv.buf) == [];
    assert WrapAcks(a.cb.rcv.acks) == [] && WrapNet(a.out) == [];
    assert WrapBuf(b.cb.snd.buf) == [] && WrapSegs(b.cb.rcv.buf) == [];
    assert WrapAcks(b.cb.rcv.acks) == [] && WrapNet(b.out) == [];
  }

  /** Every fresh run of the 32-bit protocol over bytes is, step by step, the run of the unbounded protocol with all
      sequence numbers reduced modulo 2^32. */
  lemma {:induction false} RunWrap(s: Setup, steps: seq<Step>)
    requires s.Ok() && FreshRun(s, steps)
    ensures Run(W32, s, steps) == WrapWorld(Run(Exact, s, steps))
  {
    if steps == [] {
      StartWrap(s);
    } else {
      var init, last := steps[..|steps| - 1], steps[|steps| - 1];
      FreshPrefix(s, steps);
      RunWrap(s, init);
      RunOk(s, init);
      RunNetOk(s, init);
      var x := Run(Exact, s, init);
      match last
      case AtA(act) => ActWrap(x.a, x.b.out, act);
      case AtB(act) => ActWrap(x.b, x.a.out, act);
    }
  }

  lemma RunPaired(s: Setup, steps: seq<Step>)
    requires s.Ok()
    ensures var x := Run(Exact, s, steps); Paired(x.a, x.b) && Paired(x.b, x.a)
  {
    RunOk(s, steps);
    RunApp(s, steps);
  }

  // ----- the theorems about the code's own protocol

  /** What the application at `r` has got from the one at `s`. */
  ghost predicate DeliveredRight(s: Ep, r: Ep) {
    && (!s.cb.conf.stream ==> r.delivered <= s.accepted)
    && Flatten(r.delivered) <= s.taken
    && (!s.refused ==> s.taken == Flatten(s.accepted))
  }

  /** End-to-end safety. Over every run of two endpoints on a network that loses, duplicates, delays and reorders
      datagrams, in both directions: the messages returned by `ikcp_recv` are a prefix of those accepted by `ikcp_send`,
      in order and without duplicates; in stream mode the same holds of the bytes. */
  lemma EndToEndSafety(s: Setup, steps: seq<Step>)
    requires s.Ok() && FreshRun(s, steps)
    ensures var x := Run(W32, s, steps); DeliveredRight(x.a, x.b) && DeliveredRight(x.b, x.a)
  {
    RunWrap(s, steps);
    RunPaired(s, steps);
    var x := Run(Exact, s, steps);
    InOrderOnce(x.a, x.b);
    InOrderOnce(x.b, x.a);
  }

  /** Fragment `n` of `s` is unacknowledged at `s`, or buffered at `r`, or has been put in order there. */
  ghost predicate Safe(s: Ep, r: Ep, n: nat) {
    InBuf(s.cb.snd.buf, U32(n)) || HasSn(r.cb.rcv.buf, U32(n)) || n < |Got(r)|
  }

  lemma SafeWrap(s: Ep, r: Ep, n: nat)
    requires Paired(s, r) && n < |s.sent|
    ensures Safe(WrapEp(s), WrapEp(r), n)
  {
    assert InBuf(s.cb.snd.buf, n) || Held(r.cb.rcv, n);
    if InBuf(s.cb.snd.buf, n) {
      var i :| 0 <= i < |s.cb.snd.buf| && s.cb.snd.buf[i].seg.sn == n;
      assert WrapBuf(s.cb.snd.buf)[i].seg.sn == U32(n);
    } else if HasSn(r.cb.rcv.buf, n) {
      var i :| 0 <= i < |r.cb.rcv.buf| && r.cb.rcv.buf[i].sn == n;
      assert WrapSegs(r.cb.rcv.buf)[i].sn == U32(n);
    }
  }

  /** `snd_nxt` and `rcv_nxt` count what has been numbered and what has been put in order, which are so close that no two
      numbers in between look alike. */
  ghost predicate Counting(s: Ep, r: Ep) {
    && s.cb.snd.nxt == U32(|s.sent|) && r.cb.rcv.nxt == U32(|Got(r)|)
    && Got(r) <= s.sent && |s.sent| - |Got(r)| < 0x1_0000_0000
  }

  lemma UnaIsHead(s: Snd, n: nat)
    requires SndOk(Exact, s) && n < s.una
    ensures !InBuf(s.buf, n)
  {
  }

  lemma CountingWrap(s: Ep, r: Ep)
    requires Paired(s, r)
    ensures Counting(WrapEp(s), WrapEp(r))
  {
    var una := s.cb.snd.una;
    if una > r.cb.rcv.nxt {
      UnaIsHead(s.cb.snd, una - 1);
      var i :| 0 <= i < |r.cb.rcv.buf| && r.cb.rcv.buf[i].sn == una - 1;
    }
  }

  /** No segment is ever lost, in either direction; and what the receiver has put in order is what was sent. */
  lemma NothingLost(s: Setup, steps: seq<Step>)
    requires s.Ok() && FreshRun(s, steps)
    ensures var x := Run(W32, s, steps);
            && (forall n: nat :: n < |x.a.sent| ==> Safe(x.a, x.b, n)) && Counting(x.a, x.b)
            && (forall n: nat :: n < |x.b.sent| ==> Safe(x.b, x.a, n)) && Counting(x.b, x.a)
  {
    RunWrap(s, steps);
    RunPaired(s, steps);
    var x := Run(Exact, s, steps);
    CountingWrap(x.a, x.b);
    CountingWrap(x.b, x.a);
    forall n: nat | n < |x.a.sent|
      ensures Safe(WrapEp(x.a), WrapEp(x.b), n)
    {
      SafeWrap(x.a, x.b, n);
    }
    forall n: nat | n < |x.b.sent|
      ensures Safe(WrapEp(x.b), WrapEp(x.a), n)
    {
      SafeWrap(x.b, x.a, n);
    }
  }

  /** A receive with room for `msg` returns it. */
  predicate Yields(w: Width, cb: Cb, len: int, msg: Bytes) {
    DoRecv(w, cb, len).1 == |msg| && DoRecv(w, cb, len).2 == msg
  }

  /** A full receive queue can be read: its first message is wholly present and is the next one accepted. */
  ghost predicate Readable(s: Ep, r: Ep) {
    !s.cb.conf.stream && |r.cb.rcv.queue| >= r.cb.rcv.wnd ==>
      |r.delivered| < |s.accepted| &&
      var msg := s.accepted[|r.delivered|];
      PeekSize(r.cb.rcv.queue) == |msg| && forall len :: len >= |msg| ==> Yields(W32, r.cb, len, msg)
  }

  lemma YieldsWrap(cb: Cb, len: int, msg: Bytes)
    requires CbOk(Exact, cb, LIM)
    ensures Yields(W32, WrapCb(cb), len, msg) == Yields(Exact, cb, len, msg)
  {
    RecvWrap(cb.rcv, LIM, len);
  }

  lemma ReadableWrap(s: Ep, r: Ep)
    requires Paired(s, r)
    ensures Readable(WrapEp(s), WrapEp(r))
  {
    if !s.cb.conf.stream && |r.cb.rcv.queue| >= r.cb.rcv.wnd {
      FullQueueIsReadable(s, r);
      var msg := s.accepted[|r.delivered|];
      forall len | len >= |msg|
        ensures Yields(W32, WrapCb(r.cb), len, msg)
      {
        YieldsWrap(r.cb, len, msg);
      }
    }
  }

  /** No reassembly deadlock, in either direction. */
  lemma NoReassemblyDeadlock(s: Setup, steps: seq<Step>)
    requires s.Ok() && FreshRun(s, steps)
    ensures var x := Run(W32, s, steps); Readable(x.a, x.b) && Readable(x.b, x.a)
  {
    RunWrap(s, steps);
    RunPaired(s, steps);
    var x := Run(Exact, s, steps);
    ReadableWrap(x.a, x.b);
    ReadableWrap(x.b, x.a);
  }

  /** What the next receive returns in message mode: the next accepted message, exactly if it is complete and fits. */
  ghost predicate ReceivesNext(s: Ep, r: Ep)
    requires s.cb.conf.Ok()
  {
    !s.cb.conf.stream ==>
      var k, q := |r.delivered|, r.cb.rcv.queue;
      if k < |s.accepted| && FragCount(Mss(s), |s.accepted[k]|) <= |q| then
        var msg := s.accepted[k];
        forall len: nat :: if |msg| <= len then Yields(W32, r.cb, len, msg) else DoRecv(W32, r.cb, len).1 == -3
      else
        forall len: nat :: DoRecv(W32, r.cb, len).1 == if q == [] then -1 else -2
  }

  lemma ReceivesNextWrap(s: Ep, r: Ep)
    requires Paired(s, r)
    ensures ReceivesNext(WrapEp(s), WrapEp(r))
  {
    if !s.cb.conf.stream {
      var k, q := |r.delivered|, r.cb.rcv.queue;
      if k < |s.accepted| {
        FragmentShape(Mss(s), s.accepted[k]);
      }
      forall len: nat
        ensures if k < |s.accepted| && FragCount(Mss(s), |s.accepted[k]|) <= |q| then
                  var msg := s.accepted[k];
                  if |msg| <= len then Yields(W32, WrapCb(r.cb), len, msg) else DoRecv(W32, WrapCb(r.cb), len).1 == -3
                else DoRecv(W32, WrapCb(r.cb), len).1 == if q == [] then -1 else -2
      {
        ReceiveYieldsNext(s, r, len);
        RecvWrap(r.cb.rcv, LIM, len);
      }
    }
  }

  /** In every state of a fresh run, in either direction. */
  lemma EveryReceiveYieldsNext(s: Setup, steps: seq<Step>)
    requires s.Ok() && FreshRun(s, steps)
    ensures var x := Run(W32, s, steps); ReceivesNext(x.a, x.b) && ReceivesNext(x.b, x.a)
  {
    RunWrap(s, steps);
    RunPaired(s, steps);
    var x := Run(Exact, s, steps);
    ReceivesNextWrap(x.a, x.b);
    ReceivesNextWrap(x.b, x.a);
  }

  /** If the sender has nothing queued or unacknowledged and there is room in the receive queue: the receiver has everything
      in order exactly if its buffer is drained; and then, once that queue has been read, everything has been delivered. */
  ghost predicate QuietDelivers(s: Ep, r: Ep) {
    s.cb.snd.queue == [] && s.cb.snd.buf == [] && |r.cb.rcv.queue| < r.cb.rcv.wnd ==>
      && (Got(r) == s.sent <==> Drained(r.cb.rcv))
      && (Drained(r.cb.rcv) && r.cb.rcv.queue == [] ==>
            Flatten(r.delivered) == s.taken && (!s.cb.conf.stream ==> r.delivered == s.accepted))
  }

  lemma QuietDeliversWrap(s: Ep, r: Ep)
    requires Paired(s, r)
    ensures QuietDelivers(WrapEp(s), WrapEp(r))
  {
    DrainedWrap(r.cb.rcv);
    if s.cb.snd.queue == [] && s.cb.snd.buf == [] && |r.cb.rcv.queue| < r.cb.rcv.wnd {
      QuietMeansDelivered(s, r);
    }
  }

  lemma DrainedWrap(r: Rcv)
    requires RcvOk(Exact, r, LIM)
    ensures Drained(WrapRcv(r)) <==> Drained(r)
  {
    if r.buf != [] {
      WrapInjective(r.buf[0].sn, r.nxt);
    }
  }

  /** Nothing stays behind: in every state of a fresh run in which no step strands a segment, a quiet sender and a receive
      queue with room mean that everything sent is in order, and once read, everything accepted has been delivered. */
  lemma NothingStaysBehind(s: Setup, steps: seq<Step>)
    requires s.Ok() && FreshRun(s, steps)
    ensures var x := Run(W32, s, steps);
            && QuietDelivers(x.a, x.b) && QuietDelivers(x.b, x.a)
            && (NoStepStrands(W32, s, steps) ==> BothDrained(x))
  {
    RunWrap(s, steps);
    RunPaired(s, steps);
    var x := Run(Exact, s, steps);
    QuietDeliversWrap(x.a, x.b);
    QuietDeliversWrap(x.b, x.a);
    if NoStepStrands(W32, s, steps) {
      RunBothDrained(W32, s, steps, |steps|);
      assert steps[..|steps|] == steps;
    }
  }

  // ----- short runs

  /** Neither side has numbered more segments than fit, with the other's receive window, in half the number space. */
  predicate Short(x: World) {
    |x.a.sent| + x.b.cb.rcv.wnd <= 0x8000_0000 && |x.b.sent| + x.a.cb.rcv.wnd <= 0x8000_0000
  }

  /** ... at any time of the run. */
  ghost predicate ShortRun(s: Setup, steps: seq<Step>)
    requires s.Ok()
  {
    forall k {:trigger steps[..k]} :: 0 <= k <= |steps| ==> Short(Run(W32, s, steps[..k]))
  }

  lemma ShortPrefix(s: Setup, steps: seq<Step>)
    requires s.Ok() && ShortRun(s, steps) && steps != []
    ensures ShortRun(s, steps[..|steps| - 1]) && Short(Run(W32, s, steps[..|steps| - 1]))
  {
    var init := steps[..|steps| - 1];
    forall k | 0 <= k <= |init|
      ensures Short(Run(W32, s, init[..k]))
    {
      assert init[..k] == steps[..k];
    }
  }

  /** Two endpoints that have numbered few segments. */
  ghost predicate ShortLink(x: Ep, y: Ep) {
    && EpOk(x) && EpOk(y) && LinkOk(x, y) && LinkOk(y, x)
    && |x.sent| + y.cb.rcv.wnd <= 0x8000_0000 && |y.sent| + x.cb.rcv.wnd <= 0x8000_0000
  }

  lemma {:induction false} ShortSegs(x: Ep, y: Ep, d: seq<Seg>)
    requires var link := ShortLink(x, y); link
    requires PushesGenuine(d, y.sent) && AllTruthful(d, y.cb.rcv)
    ensures FreshSegs(x.cb, d)
    ensures MarkAll(Exact, d).Newest? ==> MarkAll(Exact, d).sn < |x.sent|
  {
    if d != [] {
      var init, last := d[..|d| - 1], d[|d| - 1];
      ShortSegs(x, y, init);
      InputAllOk(Exact, x.cb, LIM, init);
      var more := InputAllReceiver(x.cb, init, Got(x), y.sent);
      InputWnd(Exact, x.cb, init);
      var mid := InputAll(Exact, x.cb, init);
      assert Truthful(d[|d| - 1], y.cb.rcv);
      if last.cmd == CMD_ACK {
        HeldNumbered(y.cb.rcv, Got(y), x.sent, last.sn);
        ShortMark(MarkAll(Exact, init), last);
      }
      assert last.cmd == CMD_PUSH ==> Genuine(d[|d| - 1], y.sent);
      ShortSeg(mid, last, |y.sent|);
    }
  }

  /** One segment, of a sender that has numbered `sent` segments, at an endpoint that has numbered few itself. */
  lemma ShortSeg(cb: Cb, seg: Seg, sent: nat)
    requires SndOk(Exact, cb.snd) && seg.una <= cb.snd.nxt <= 0x8000_0000
    requires cb.rcv.nxt <= sent && sent + cb.rcv.wnd <= 0x8000_0000
    requires (seg.cmd == CMD_ACK ==> seg.sn < cb.snd.nxt) && (seg.cmd == CMD_PUSH ==> seg.sn < sent)
    ensures FreshSeg(cb, seg)
  {
    ShortUna(cb.snd, seg.una);
    if seg.cmd == CMD_ACK {
      AfterUnaOk(cb.snd, seg.una);
      ShortAck(AfterUna(cb.snd, seg.una), seg.sn);
    } else if seg.cmd == CMD_PUSH {
      ShortPush(cb.rcv, seg.sn, sent);
    }
  }

  lemma ShortUna(s: Snd, una: nat)
    requires SndOk(Exact, s) && una <= s.nxt <= 0x8000_0000
    ensures UnaFresh(s, una)
  {
    if s.buf != [] && una < s.buf[0].seg.sn {
      OffsetBehind(una, s.buf[0].seg.sn);
    }
  }

  lemma OffsetBehind(a: nat, b: nat)
    requires a < b <= a + 0x1_0000_0000
    ensures Offset(a, b) == a - b + 0x1_0000_0000
  {
    Congruent(a - b, a - b + 0x1_0000_0000, -1);
  }

  lemma AfterUnaOk(s: Snd, una: nat)
    requires SndOk(Exact, s)
    ensures SndOk(Exact, AfterUna(s, una)) && AfterUna(s, una).nxt == s.nxt
  {
    ParseUnaKeeps(Exact, s, una);
    ShrinkKeeps(Exact, s.(buf := ParseUna(Exact, s.buf, una)));
  }

  lemma ShortAck(s: Snd, sn: nat)
    requires SndOk(Exact, s) && s.nxt <= 0x8000_0000
    ensures AckFresh(s, sn)
  {
    if sn < s.una {
      OffsetBehind(sn, s.una);
    }
  }

  lemma ShortMark(m: Mark, seg: Seg)
    requires seg.sn < 0x8000_0000 && (m.Newest? ==> m.sn < 0x8000_0000)
    ensures MarkFresh(m, seg)
  {
    if m.Newest? && seg.sn < m.sn {
      OffsetBehind(seg.sn, m.sn);
    }
  }

  lemma ShortPush(r: Rcv, sn: nat, sent: nat)
    requires sn < sent && r.nxt <= sent && sent + r.wnd <= 0x8000_0000
    ensures PushFresh(r, sn)
  {
    if sn >= r.nxt {
      OffsetInside(sn, r.nxt);
    } else {
      OffsetBehind(sn, r.nxt);
    }
  }

  lemma HeldNumbered(r: Rcv, got: seq<Frag>, sent: seq<Frag>, n: nat)
    requires RcvRight(r, got, sent) && Held(r, n)
    ensures n < |sent|
  {
    if n >= r.nxt {
      var i :| 0 <= i < |r.buf| && r.buf[i].sn == n;
      assert Genuine(r.buf[i], sent);
    }
  }

  lemma ShortDatagram(x: Ep, y: Ep, d: seq<Seg>)
    requires var link := ShortLink(x, y); link
    requires PushesGenuine(d, y.sent) && AllTruthful(d, y.cb.rcv)
    ensures FreshDatagram(x.cb, d)
  {
    ShortSegs(x, y, d);
    InputAllOk(Exact, x.cb, LIM, d);
    if MarkAll(Exact, d).Newest? {
      ShortAck(InputAll(Exact, x.cb, d).snd, MarkAll(Exact, d).sn);
    }
  }

  lemma ShortAct(x: Ep, y: Ep, act: Act)
    requires var link := ShortLink(x, y); link
    ensures FreshAct(x, y.out, act)
  {
    if act.Deliver? && act.i < |y.out| {
      assert PushesGenuine(y.out[act.i], y.sent) && AllTruthful(y.out[act.i], y.cb.rcv);
      ShortDatagram(x, y, y.out[act.i]);
    }
  }

  /** Runs in which each side numbers at most 2^31 segments, less the window, are fresh whatever the network does. */
  lemma {:induction false} ShortIsFresh(s: Setup, steps: seq<Step>)
    requires s.Ok() && ShortRun(s, steps)
    ensures FreshRun(s, steps)
  {
    if steps != [] {
      var init, last := steps[..|steps| - 1], steps[|steps| - 1];
      ShortPrefix(s, steps);
      ShortIsFresh(s, init);
      RunWrap(s, init);
      RunOk(s, init);
      var x := Run(Exact, s, init);
      assert Short(x);
      match last {
        case AtA(act) => ShortAct(x.a, x.b, act);
        case AtB(act) => ShortAct(x.b, x.a, act);
      }
      FreshSnoc(s, steps);
    }
  }

  /** End-to-end safety with no assumption on the network at all, for short runs. */
  lemma ShortRunsAreSafe(s: Setup, steps: seq<Step>)
    requires s.Ok() && ShortRun(s, steps)
    ensures var x := Run(W32, s, steps); DeliveredRight(x.a, x.b) && DeliveredRight(x.b, x.a)
  {
    ShortIsFresh(s, steps);
    EndToEndSafety(s, steps);
  }
}
