/** What the application sees: messages and bytes, in order, exactly once; and no reassembly deadlock. */
module Delivery {
  import opened Seqs
  import opened Serial
  import opened Wire
  import opened Fragments
  import opened SendWindow
  import opened Receiver
  import opened ControlBlock
  import opened Invariant
  import opened Link
  import opened TwoEndpoints
  import opened EndToEnd

  function Mss(e: Ep): nat
    requires e.cb.conf.Ok()
  {
    e.cb.conf.Mss()
  }

  /** Everything accepted has been cut into what is numbered followed by what is queued. */
  ghost predicate MsgSent(s: Ep) {
    s.cb.conf.Ok() && (!s.cb.conf.stream ==>
      Sendable(Mss(s), s.accepted) && s.sent + s.cb.snd.queue == FragAll(Mss(s), s.accepted))
  }

  ghost predicate BytesSent(s: Ep) {
    Join(s.sent + s.cb.snd.queue) == s.taken && (!s.refused ==> s.taken == Flatten(s.accepted))
  }

  /** What has been read are the fragments of the delivered messages, which are the first accepted ones. */
  ghost predicate MsgRead(s: Ep, r: Ep)
    requires MsgSent(s)
  {
    !s.cb.conf.stream ==> r.delivered <= s.accepted && r.read == FragAll(Mss(s), r.delivered)
  }

  ghost predicate BytesRead(r: Ep) {
    Flatten(r.delivered) == Join(r.read)
  }

  ghost predicate AppOk(s: Ep, r: Ep) {
    MsgSent(s) && BytesSent(s) && MsgRead(s, r) && BytesRead(r)
  }

  // ----- sender

  lemma SendMessageMode(mss: nat, queue: seq<Frag>, msg: Bytes)
    requires mss > 0
    ensures Send(mss, false, queue, msg) ==
            if FragCount(mss, |msg|) >= WND_RCV then SendOutcome(queue, -2, 0)
            else SendOutcome(queue + Fragment(mss, msg), 0, |msg|)
  {
    assert msg[0..] == msg;
  }

  lemma SendApp(s: Ep, r: Ep, msg: Bytes)
    requires AppOk(s, r)
    ensures AppOk(SendEp(s, msg), r)
  {
    SendMsgSent(s, msg);
    SendBytesSent(s, msg);
    var s' := SendEp(s, msg);
    PrefixAppend(s.accepted, [msg]);
    assert s.accepted <= s'.accepted;
    if !s.cb.conf.stream {
      PrefixTransitive(r.delivered, s.accepted, s'.accepted);
    }
  }

  lemma SendMsgSent(s: Ep, msg: Bytes)
    requires MsgSent(s)
    ensures MsgSent(SendEp(s, msg))
  {
    if !s.cb.conf.stream {
      SendMessageMode(Mss(s), s.cb.snd.queue, msg);
      if FragCount(Mss(s), |msg|) < WND_RCV {
        FragAllSnoc(Mss(s), s.accepted, msg);
        Assoc(s.sent, s.cb.snd.queue, Fragment(Mss(s), msg));
      }
    }
  }

  lemma SendBytesSent(s: Ep, msg: Bytes)
    requires s.cb.conf.Ok() && BytesSent(s)
    ensures BytesSent(SendEp(s, msg))
  {
    var q := s.cb.snd.queue;
    var o := Send(Mss(s), s.cb.conf.stream, q, msg);
    SendBytes(Mss(s), s.cb.conf.stream, q, msg);
    JoinConcat(s.sent, q);
    JoinConcat(s.sent, o.queue);
    Assoc(Join(s.sent), Join(q), msg[..o.taken]);
    if o.code == 0 {
      FlattenSnoc(s.accepted, msg);
      assert msg[..o.taken] == msg;
    }
  }

  /** Flushing only moves fragments from the queue to `sent`. */
  lemma FlushTotal(s: Ep, r: Ep)
    requires EpOk(s) && LinkOk(s, r)
    ensures FlushEp(Exact, s).sent + FlushEp(Exact, s).cb.snd.queue == s.sent + s.cb.snd.queue
  {
    if s.cb.clock.updated {
      var k := FlushSender(s, r.cb.rcv);
      Regroup(s.sent, s.cb.snd.queue, k, []);
      assert s.cb.snd.queue[k..] + [] == s.cb.snd.queue[k..];
      assert (s.sent + s.cb.snd.queue) + [] == s.sent + s.cb.snd.queue;
    } else {
      FlushIdle(Exact, s);
    }
  }

  // ----- receiver

  /** In message mode the receiver always stands at a message boundary. */
  lemma AtBoundary(s: Ep, r: Ep)
    requires LinkOk(s, r) && MsgSent(s) && MsgRead(s, r) && !s.cb.conf.stream
    ensures HoldsBehind(Mss(s), s.accepted, |r.delivered|, r.cb.rcv.queue)
    ensures s.accepted[..|r.delivered|] == r.delivered
  {
    assert s.accepted[..|r.delivered|] == r.delivered;
    PrefixAppend(s.sent, s.cb.snd.queue);
    PrefixTransitive(Got(r), s.sent, s.sent + s.cb.snd.queue);
    assert FragAll(Mss(s), s.accepted[..|r.delivered|]) + r.cb.rcv.queue == Got(r);
  }

  /** Behind the last message nothing can be held. */
  lemma NothingBehindLast(mss: nat, msgs: seq<Bytes>, q: seq<Frag>)
    requires mss > 0 && Sendable(mss, msgs) && HoldsBehind(mss, msgs, |msgs|, q)
    ensures q == []
  {
    assert msgs[..|msgs|] == msgs;
    assert |FragAll(mss, msgs) + q| <= |FragAll(mss, msgs)|;
  }

  /** A successful receive in message mode. */
  lemma ReceiveOneMsg(s: Ep, r: Ep)
    requires LinkOk(s, r) && MsgSent(s) && MsgRead(s, r) && !s.cb.conf.stream && PeekSize(r.cb.rcv.queue) >= 0
    ensures var q := r.cb.rcv.queue;
            && r.delivered + [Join(q[..RunLen(q)])] <= s.accepted
            && Sendable(Mss(s), r.delivered + [Join(q[..RunLen(q)])])
            && r.read + q[..RunLen(q)] == FragAll(Mss(s), r.delivered + [Join(q[..RunLen(q)])])
  {
    AtBoundary(s, r);
    var k, q := |r.delivered|, r.cb.rcv.queue;
    ReceiveNext(Mss(s), s.accepted, k, q);
    assert s.accepted[..k + 1] == r.delivered + [s.accepted[k]];
    SplitSame(FragAll(Mss(s), s.accepted[..k + 1]), r.read, q, RunLen(q));
  }

  lemma ReceiveMsgRead(s: Ep, r: Ep, len: int)
    requires LinkOk(s, r) && MsgSent(s) && MsgRead(s, r)
    ensures MsgRead(s, ReceiveEp(Exact, r, len))
  {
    if !s.cb.conf.stream && len >= 0 && DoRecv(Exact, r.cb, len).1 >= 0 {
      ReceiveOneMsg(s, r);
    }
  }

  lemma SplitSame<T>(a: seq<T>, read: seq<T>, q: seq<T>, n: nat)
    requires n <= |q| && a + q[n..] == read + q
    ensures a == read + q[..n]
  {
    assert |a| == |read| + n;
    assert a == (a + q[n..])[..|a|];
    assert read + q[..n] == (read + q)[..|read| + n];
  }

  lemma ReceiveBytesRead(r: Ep, len: int)
    requires BytesRead(r)
    ensures BytesRead(ReceiveEp(Exact, r, len))
  {
    if len >= 0 && DoRecv(Exact, r.cb, len).1 >= 0 {
      var q := r.cb.rcv.queue;
      FlattenSnoc(r.delivered, Join(q[..RunLen(q)]));
      JoinConcat(r.read, q[..RunLen(q)]);
    }
  }

  // ----- every step

  /** The application-level invariant does not depend on anything else. */
  lemma AppFrame(s: Ep, s': Ep, r: Ep, r': Ep)
    requires AppOk(s, r)
    requires s'.accepted == s.accepted && s'.taken == s.taken && s'.refused == s.refused
    requires s'.sent + s'.cb.snd.queue == s.sent + s.cb.snd.queue
    requires s'.cb.conf.Ok() && s'.cb.conf.mtu == s.cb.conf.mtu && s'.cb.conf.stream == s.cb.conf.stream
    requires r'.read == r.read && r'.delivered == r.delivered
    ensures var ok := AppOk(s', r'); ok
  {
  }

  /** Every step but a send leaves the fragments sent or queued as they are. */
  lemma SenderFrame(s: Ep, r: Ep, act: Act)
    requires EpOk(s) && EpOk(r) && LinkOk(s, r) && LinkOk(r, s) && !act.SendMsg?
    ensures var s' := ActEp(Exact, s, r.out, act);
            && s'.accepted == s.accepted && s'.taken == s.taken && s'.refused == s.refused
            && s'.sent + s'.cb.snd.queue == s.sent + s.cb.snd.queue
  {
    match act
    case FlushNow => FlushTotal(s, r);
    case Update(now) =>
      var s1 := s.(cb := Ticked(s.cb, now));
      assert EpOk(s1);
      QuietOk(s, s1, r);
      FlushTotal(s1, r);
    case Deliver(i) =>
      if i < |r.out| {
        InputAllOk(Exact, s.cb, LIM, r.out[i]);
      }
    case _ =>
  }

  /** A step of the sender. */
  lemma SenderApp(s: Ep, r: Ep, act: Act)
    requires EpOk(s) && EpOk(r) && LinkOk(s, r) && LinkOk(r, s) && AppOk(s, r)
    ensures AppOk(ActEp(Exact, s, r.out, act), r)
  {
    if act.SendMsg? {
      SendApp(s, r, act.msg);
    } else {
      ActKeepsConf(Exact, s, r.out, act);
      SenderFrame(s, r, act);
      AppFrame(s, ActEp(Exact, s, r.out, act), r, r);
    }
  }

  /** A step of the receiver. */
  lemma ReceiverApp(s: Ep, r: Ep, act: Act)
    requires EpOk(s) && EpOk(r) && LinkOk(s, r) && LinkOk(r, s) && AppOk(s, r)
    ensures var ok := AppOk(s, ActEp(Exact, r, s.out, act)); ok
  {
    if act.Receive? {
      ReceiverReads(s, r, act.len);
    } else {
      OnlyReceiveReads(r, s.out, act);
      AppFrame(s, s, r, ActEp(Exact, r, s.out, act));
    }
  }

  lemma OnlyReceiveReads(r: Ep, net: seq<seq<Seg>>, act: Act)
    requires r.cb.conf.Ok() && !act.Receive?
    ensures var r' := ActEp(Exact, r, net, act); r'.read == r.read && r'.delivered == r.delivered
  {
  }

  lemma ReceiverReads(s: Ep, r: Ep, len: int)
    requires LinkOk(s, r) && AppOk(s, r)
    ensures var ok := AppOk(s, ReceiveEp(Exact, r, len)); ok
  {
    ReceiveMsgRead(s, r, len);
    ReceiveBytesRead(r, len);
  }

  lemma {:induction false} RunApp(s: Setup, steps: seq<Step>)
    requires s.Ok()
    ensures var x := Run(Exact, s, steps); AppOk(x.a, x.b) && AppOk(x.b, x.a)
  {
    if steps != [] {
      var init, last := steps[..|steps| - 1], steps[|steps| - 1];
      RunApp(s, init);
      RunOk(s, init);
      var x := Run(Exact, s, init);
      match last {
        case AtA(act) =>
          SenderApp(x.a, x.b, act);
          ReceiverApp(x.b, x.a, act);
        case AtB(act) =>
          SenderApp(x.b, x.a, act);
          ReceiverApp(x.a, x.b, act);
      }
    }
  }

  // ----- the theorems, for one direction of a reachable state

  /** A sender and the receiver opposite: what holds of them in every reachable state (`RunApp`, `RunOk`). */
  ghost predicate Paired(s: Ep, r: Ep) {
    EpOk(s) && EpOk(r) && LinkOk(s, r) && LinkOk(r, s) && AppOk(s, r)
  }

  /** Message mode: the messages delivered are the first messages accepted, in order, each once. Either mode: the bytes
      delivered are a prefix of the bytes taken, which are all bytes offered as long as no send was refused. */
  lemma InOrderOnce(s: Ep, r: Ep)
    requires Paired(s, r)
    ensures !s.cb.conf.stream ==> r.delivered <= s.accepted
    ensures Flatten(r.delivered) <= s.taken
    ensures !s.refused ==> s.taken == Flatten(s.accepted)
  {
    PrefixAppend(r.read, r.cb.rcv.queue);
    PrefixTransitive(r.read, Got(r), s.sent);
    PrefixAppend(s.sent, s.cb.snd.queue);
    PrefixTransitive(r.read, s.sent, s.sent + s.cb.snd.queue);
    JoinPrefix(r.read, s.sent + s.cb.snd.queue);
  }

  lemma JoinPrefix(fs: seq<Frag>, gs: seq<Frag>)
    requires fs <= gs
    ensures Join(fs) <= Join(gs)
  {
    assert gs == fs + gs[|fs|..];
    JoinConcat(fs, gs[|fs|..]);
  }

  /** No reassembly deadlock: a full receive queue always holds the next message completely, so the application can
      make room. What the receive then returns is that very message. */
  lemma FullQueueIsReadable(s: Ep, r: Ep)
    requires Paired(s, r) && !s.cb.conf.stream && |r.cb.rcv.queue| >= r.cb.rcv.wnd
    ensures var k := |r.delivered|;
            && k < |s.accepted|
            && PeekSize(r.cb.rcv.queue) == |s.accepted[k]|
            && forall len :: len >= |s.accepted[k]| ==>
                 DoRecv(Exact, r.cb, len).1 == |s.accepted[k]| && DoRecv(Exact, r.cb, len).2 == s.accepted[k]
  {
    AtBoundary(s, r);
    var k, q := |r.delivered|, r.cb.rcv.queue;
    if k == |s.accepted| {
      NothingBehindLast(Mss(s), s.accepted, q);
    }
    FragmentShape(Mss(s), s.accepted[k]);
    ReceiveNext(Mss(s), s.accepted, k, q);
  }

  /** In message mode the next receive, with a large enough buffer, yields the next message exactly when all its
      fragments have arrived in order; before that it fails. */
  lemma ReceiveYieldsNext(s: Ep, r: Ep, len: nat)
    requires Paired(s, r) && !s.cb.conf.stream
    ensures var k, q := |r.delivered|, r.cb.rcv.queue;
            var (_, code, data) := DoRecv(Exact, r.cb, len);
            if k < |s.accepted| && |q| >= |Fragment(Mss(s), s.accepted[k])| then
              if |s.accepted[k]| <= len then code == |s.accepted[k]| && data == s.accepted[k] else code == -3
            else code == if q == [] then -1 else -2
  {
    AtBoundary(s, r);
    var k, q := |r.delivered|, r.cb.rcv.queue;
    ReceiveNext(Mss(s), s.accepted, k, q);
    if k < |s.accepted| {
      FragmentShape(Mss(s), s.accepted[k]);
    }
  }

  lemma FragAllGrows(mss: nat, ms: seq<Bytes>, ns: seq<Bytes>)
    requires mss > 0 && Sendable(mss, ns) && ms <= ns && ms != ns
    ensures Sendable(mss, ms) && |FragAll(mss, ms)| < |FragAll(mss, ns)|
  {
    var rest := ns[|ms|..];
    assert ns == ms + rest;
    FragAllConcat(mss, ms, rest);
    FragmentShape(mss, rest[0]);
  }

  lemma DrainedMissesNext(v: Rcv)
    requires RcvOk(Exact, v, LIM) && Drained(v) && |v.queue| < v.wnd
    ensures !Held(v, v.nxt)
  {
    forall i | 0 <= i < |v.buf|
      ensures v.buf[i].sn != v.nxt
    {
      assert i > 0 ==> Ahead(Exact, v.buf[0].sn, v.nxt) < Ahead(Exact, v.buf[i].sn, v.nxt);
    }
  }

  /** When nothing is left in flight or queued at the sender, and the receive queue has room, the receiver has put everything
      in order exactly if its buffer is drained; and when the application has then emptied the queue, every accepted message
      has been delivered. */
  lemma QuietMeansDelivered(s: Ep, r: Ep)
    requires Paired(s, r) && s.cb.snd.queue == [] && s.cb.snd.buf == []
    requires |r.cb.rcv.queue| < r.cb.rcv.wnd
    ensures Got(r) == s.sent <==> Drained(r.cb.rcv)
    ensures Drained(r.cb.rcv) && r.cb.rcv.queue == [] ==> Flatten(r.delivered) == s.taken
    ensures Drained(r.cb.rcv) && r.cb.rcv.queue == [] && !s.cb.conf.stream ==> r.delivered == s.accepted
  {
    var v := r.cb.rcv;
    if Drained(v) {
      DrainedMissesNext(v);
      assert v.nxt < s.cb.snd.nxt ==> InBuf(s.cb.snd.buf, v.nxt) || Held(v, v.nxt);
      assert v.nxt == |s.sent|;
      assert Got(r) == s.sent;
      assert s.sent + [] == s.sent && r.read + [] == r.read;
      if v.queue == [] && !s.cb.conf.stream && r.delivered != s.accepted {
        FragAllGrows(Mss(s), r.delivered, s.accepted);
      }
    } else {
      assert Genuine(v.buf[0], s.sent);
    }
  }

  // ----- the receive buffer over runs, at either width

  predicate StepStrands(x: World, step: Step) {
    match step
    case AtA(act) => act.WndSize? && Strands(x.a.cb, act.rcv)
    case AtB(act) => act.WndSize? && Strands(x.b.cb, act.rcv)
  }

  lemma ActDrains(w: Width, x: Ep, net: seq<seq<Seg>>, act: Act)
    requires CbOk(w, x.cb, LIM)
    ensures var ok := CbOk(w, ActEp(w, x, net, act).cb, LIM); ok
    ensures Drained(x.cb.rcv) ==>
              (Drained(ActEp(w, x, net, act).cb.rcv) <==> !(act.WndSize? && Strands(x.cb, act.rcv)))
  {
    match act
    case SendMsg(msg) => SendOk(w, x.cb, LIM, msg);
    case Receive(len) => RecvOk(w, x.cb, LIM, len);
    case Update(now) => UpdateDrains(w, x, now);
    case FlushNow => FlushOk(w, x.cb, LIM);
    case Deliver(i) =>
      if i < |net| {
        InputDrains(w, x.cb, net[i]);
      }
    case WndSize(snd, rcv) =>
      WndSizeOk(w, x.cb, LIM, snd, rcv);
      if Drained(x.cb.rcv) {
        WndSizeStrands(x.cb, snd, rcv);
      }
    case NoDelay(a, b, c, d) => TuningOk(w, x.cb, LIM, a, b, c, d);
    case Interval(ms) => TuningOk(w, x.cb, LIM, ms, ms, ms, ms);
  }

  lemma InputDrains(w: Width, cb: Cb, d: seq<Seg>)
    requires CbOk(w, cb, LIM)
    ensures CbOk(w, InputCb(w, cb, d), LIM)
    ensures Drained(cb.rcv) ==> Drained(InputCb(w, cb, d).rcv)
  {
    match w
    case W32 => InputBytesOk(cb, LIM, EncodeSegs(d));
    case Exact => InputSegsOk(Exact, cb, LIM, d);
  }

  lemma UpdateDrains(w: Width, x: Ep, now: u32)
    requires CbOk(w, x.cb, LIM)
    ensures CbOk(w, UpdateEp(w, x, now).cb, LIM)
    ensures Drained(x.cb.rcv) ==> Drained(UpdateEp(w, x, now).cb.rcv)
  {
    UpdateOk(w, x.cb, LIM, now);
  }

  predicate BothOk(w: Width, x: World) {
    CbOk(w, x.a.cb, LIM) && CbOk(w, x.b.cb, LIM)
  }

  predicate BothDrained(x: World) {
    Drained(x.a.cb.rcv) && Drained(x.b.cb.rcv)
  }

  lemma StepDrains(w: Width, x: World, step: Step)
    requires var ok := BothOk(w, x); ok
    ensures var ok := BothOk(w, StepWorld(w, x, step)); ok
    ensures BothDrained(x) && !StepStrands(x, step) ==> var drained := BothDrained(StepWorld(w, x, step)); drained
    ensures BothDrained(x) && StepStrands(x, step) ==> !BothDrained(StepWorld(w, x, step))
  {
    match step
    case AtA(act) => ActDrains(w, x.a, x.b.out, act);
    case AtB(act) => ActDrains(w, x.b, x.a.out, act);
  }

  /** No call of `ikcp_wndsize` in the run makes room for a buffered segment that is next. */
  ghost predicate NoStepStrands(w: Width, s: Setup, steps: seq<Step>)
    requires s.Ok()
  {
    forall k {:trigger steps[k]} :: 0 <= k < |steps| ==> !StepStrands(Run(w, s, steps[..k]), steps[k])
  }

  ghost predicate DrainedThroughout(w: Width, s: Setup, steps: seq<Step>)
    requires s.Ok()
  {
    forall k {:trigger steps[..k]} :: 0 <= k <= |steps| ==>
      BothDrained(Run(w, s, steps[..k]))
  }

  lemma RunNext(w: Width, s: Setup, steps: seq<Step>, k: nat)
    requires s.Ok() && k < |steps|
    ensures Run(w, s, steps[..k + 1]) == StepWorld(w, Run(w, s, steps[..k]), steps[k])
  {
    assert steps[..k + 1][..k] == steps[..k];
  }

  lemma StartDrained(w: Width, s: Setup)
    requires s.Ok()
    ensures BothOk(w, Run(w, s, [])) && BothDrained(Run(w, s, []))
  {
    CreateOk(w, s.conv, s.mtuA, s.streamA);
    CreateOk(w, s.conv, s.mtuB, s.streamB);
  }

  lemma {:induction false} RunBothOk(w: Width, s: Setup, steps: seq<Step>, k: nat)
    requires s.Ok() && k <= |steps|
    ensures var ok := BothOk(w, Run(w, s, steps[..k])); ok
    decreases k
  {
    if k == 0 {
      StartDrained(w, s);
    } else {
      var x := Run(w, s, steps[..k - 1]);
      RunBothOk(w, s, steps, k - 1);
      RunNext(w, s, steps, k - 1);
      StepDrains(w, x, steps[k - 1]);
    }
  }

  lemma StepKeepsDrained(w: Width, s: Setup, steps: seq<Step>, k: nat)
    requires s.Ok() && k < |steps| && NoStepStrands(w, s, steps)
    requires var drained := BothDrained(Run(w, s, steps[..k])); drained
    ensures var drained := BothDrained(Run(w, s, steps[..k + 1])); drained
  {
    RunBothOk(w, s, steps, k);
    RunNext(w, s, steps, k);
    StepDrains(w, Run(w, s, steps[..k]), steps[k]);
  }

  lemma {:induction false} RunBothDrained(w: Width, s: Setup, steps: seq<Step>, k: nat)
    requires s.Ok() && k <= |steps| && NoStepStrands(w, s, steps)
    ensures var drained := BothDrained(Run(w, s, steps[..k])); drained
    decreases k
  {
    if k == 0 {
      StartDrained(w, s);
    } else {
      RunBothDrained(w, s, steps, k - 1);
      StepKeepsDrained(w, s, steps, k - 1);
    }
  }

  /** Both receive buffers are drained in every state of a run exactly if no step strands a segment, whatever the network
      does. */
  lemma RunDrains(w: Width, s: Setup, steps: seq<Step>)
    requires s.Ok()
    ensures DrainedThroughout(w, s, steps) <==> NoStepStrands(w, s, steps)
  {
    if DrainedThroughout(w, s, steps) {
      forall k | 0 <= k < |steps|
        ensures !StepStrands(Run(w, s, steps[..k]), steps[k])
      {
        RunBothOk(w, s, steps, k);
        RunNext(w, s, steps, k);
        StepDrains(w, Run(w, s, steps[..k]), steps[k]);
      }
    }
    if NoStepStrands(w, s, steps) {
      forall k | 0 <= k <= |steps|
        ensures BothDrained(Run(w, s, steps[..k]))
      {
        RunBothDrained(w, s, steps, k);
      }
    }
  }
}
