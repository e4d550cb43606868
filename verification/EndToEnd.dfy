/** The end-to-end theorems over unbounded numbers, for every run. */
module EndToEnd {
  import opened Seqs
  import opened Serial
  import opened Wire
  import opened Fragments
  import opened Sender
  import opened SendWindow
  import opened Receiver
  import opened ControlBlock
  import opened Invariant
  import opened Link
  import opened TwoEndpoints

  const LIM := 0x8000_0000

  function Got(r: Ep): seq<Frag> {
    r.read + r.cb.rcv.queue
  }

  /** Every data segment ever emitted is genuine. */
  ghost predicate PushesGenuine(segs: seq<Seg>, sent: seq<Frag>) {
    forall j :: 0 <= j < |segs| && segs[j].cmd == CMD_PUSH ==> Genuine(segs[j], sent)
  }

  ghost predicate OutGenuine(out: seq<seq<Seg>>, sent: seq<Frag>) {
    forall i :: 0 <= i < |out| ==> PushesGenuine(out[i], sent)
  }

  ghost predicate AllTruthful(segs: seq<Seg>, r: Rcv) {
    forall j :: 0 <= j < |segs| ==> Truthful(segs[j], r)
  }

  ghost predicate OutTruthful(out: seq<seq<Seg>>, r: Rcv) {
    forall i :: 0 <= i < |out| ==> AllTruthful(out[i], r)
  }

  /** The direction from `s` to `r`: data flows one way, acknowledgements the other. */
  ghost predicate LinkOk(s: Ep, r: Ep) {
    && SndRight(s.cb.snd, s.sent)
    && OutGenuine(s.out, s.sent)
    && RcvRight(r.cb.rcv, Got(r), s.sent)
    && AcksSound(r.cb.rcv)
    && OutTruthful(r.out, r.cb.rcv)
    && NoLoss(s.cb.snd, r.cb.rcv)
  }

  ghost predicate EpOk(e: Ep) {
    CbOk(Exact, e.cb, LIM)
  }

  ghost predicate WorldOk(x: World) {
    EpOk(x.a) && EpOk(x.b) && LinkOk(x.a, x.b) && LinkOk(x.b, x.a)
  }

  // ----- the receiver has moved on

  lemma TruthStays(out: seq<seq<Seg>>, r: Rcv, r': Rcv)
    requires OutTruthful(out, r) && HeldGrows(r, r')
    ensures OutTruthful(out, r')
  {
    forall i, j | 0 <= i < |out| && 0 <= j < |out[i]|
      ensures Truthful(out[i][j], r')
    {
      assert AllTruthful(out[i], r);
      assert Truthful(out[i][j], r);
    }
  }

  /** What the receiver does to the link when it takes in `more` fragments: nothing the sender relies on changes. */
  lemma ReceiverMoves(s: Ep, r: Ep, r': Ep, more: seq<Frag>)
    requires LinkOk(s, r)
    requires RcvRight(r'.cb.rcv, Got(r) + more, s.sent) && HeldGrows(r.cb.rcv, r'.cb.rcv) && AcksSound(r'.cb.rcv)
    requires Got(r') == Got(r) + more && r'.out == r.out
    ensures LinkOk(s, r')
  {
    TruthStays(r.out, r.cb.rcv, r'.cb.rcv);
    forall n: nat | n < s.cb.snd.nxt
      ensures InBuf(s.cb.snd.buf, n) || Held(r'.cb.rcv, n)
    {
      assert InBuf(s.cb.snd.buf, n) || Held(r.cb.rcv, n);
    }
  }

  // ----- arrival of a datagram

  lemma {:induction false} InputAllReceiver(cb: Cb, segs: seq<Seg>, got: seq<Frag>, sent: seq<Frag>) returns (more: seq<Frag>)
    requires CbOk(Exact, cb, LIM) && RcvRight(cb.rcv, got, sent) && AcksSound(cb.rcv) && PushesGenuine(segs, sent)
    ensures var r := InputAll(Exact, cb, segs).rcv;
            && RcvRight(r, got + more, sent) && r.queue == cb.rcv.queue + more
            && HeldGrows(cb.rcv, r) && AcksSound(r)
  {
    if segs == [] {
      more := [];
      assert got + more == got;
    } else {
      var init, last := segs[..|segs| - 1], segs[|segs| - 1];
      var m1 := InputAllReceiver(cb, init, got, sent);
      var mid := InputAll(Exact, cb, init);
      assert NumeralSegs(Exact, init);
      InputAllOk(Exact, cb, LIM, init);
      if last.cmd == CMD_PUSH {
        assert Genuine(segs[|segs| - 1], sent);
        var m2 := RcvInputRight(mid.rcv, LIM, last, got + m1, sent);
        more := m1 + m2;
        Assoc(got, m1, m2);
        Assoc(cb.rcv.queue, m1, m2);
        HeldGrowsTwice(cb.rcv, mid.rcv, RcvInput(Exact, mid.rcv, last));
      } else {
        more := m1;
      }
    }
  }

  lemma HeldGrowsTwice(a: Rcv, b: Rcv, c: Rcv)
    requires HeldGrows(a, b) && HeldGrows(b, c)
    ensures HeldGrows(a, c)
  {
  }

  lemma {:induction false} InputAllSender(cb: Cb, segs: seq<Seg>, sent: seq<Frag>, r: Rcv)
    requires SndRight(cb.snd, sent) && NoLoss(cb.snd, r) && AllTruthful(segs, r)
    ensures SndRight(InputAll(Exact, cb, segs).snd, sent) && NoLoss(InputAll(Exact, cb, segs).snd, r)
  {
    if segs != [] {
      var init, last := segs[..|segs| - 1], segs[|segs| - 1];
      InputAllSender(cb, init, sent, r);
      assert Truthful(segs[|segs| - 1], r);
      SndInputRight(InputAll(Exact, cb, init).snd, last, sent);
      SndInputNoLoss(InputAll(Exact, cb, init).snd, r, last);
    }
  }

  lemma InputSender(cb: Cb, segs: seq<Seg>, sent: seq<Frag>, r: Rcv)
    requires CbOk(Exact, cb, LIM) && SndRight(cb.snd, sent) && NoLoss(cb.snd, r) && AllTruthful(segs, r)
    ensures SndRight(InputSegs(Exact, cb, segs).snd, sent) && NoLoss(InputSegs(Exact, cb, segs).snd, r)
  {
    InputAllSender(cb, segs, sent, r);
    InputAllOk(Exact, cb, LIM, segs);
    var all := InputAll(Exact, cb, segs);
    var m := MarkAll(Exact, segs);
    if m.Newest? {
      ParseFastackKeeps(Exact, all.snd, m.sn);
      SameSegmentsRight(all.snd, ParseFastack(Exact, all.snd, m.sn).buf, sent, r);
    }
  }

  /** A datagram of `y` arrives at `x`. */
  lemma DeliverOk(x: Ep, y: Ep, i: nat)
    requires EpOk(x) && EpOk(y) && LinkOk(x, y) && LinkOk(y, x) && i < |y.out|
    ensures var x' := ActEp(Exact, x, y.out, Deliver(i)); EpOk(x') && LinkOk(x', y) && LinkOk(y, x')
  {
    var d := y.out[i];
    var x' := ActEp(Exact, x, y.out, Deliver(i));
    InputSegsOk(Exact, x.cb, LIM, d);
    InputSender(x.cb, d, x.sent, y.cb.rcv);
    var more := InputAllReceiver(x.cb, d, Got(x), y.sent);
    assert x'.cb.rcv == InputAll(Exact, x.cb, d).rcv;
    Assoc(x.read, x.cb.rcv.queue, more);
    ReceiverMoves(y, x, x', more);
  }

  // ----- receiving

  /** How many segments a receive takes off the queue. */
  function Taken(r: Rcv, len: int): (n: nat)
    ensures n <= |r.queue|
  {
    if len < 0 || Recv(Exact, r, len).code < 0 then 0 else RunLen(r.queue)
  }

  lemma RecvRight(r: Rcv, len: int, read: seq<Frag>, sent: seq<Frag>) returns (more: seq<Frag>)
    requires RcvRight(r, read + r.queue, sent) && AcksSound(r)
    ensures var r' := Recv(Exact, r, len).rcv;
            && RcvRight(r', (read + r.queue) + more, sent) && HeldGrows(r, r') && AcksSound(r')
            && r'.queue == r.queue[Taken(r, len)..] + more
  {
    if Recv(Exact, r, len).code >= 0 {
      var r1 := r.(queue := r.queue[Taken(r, len)..]);
      assert r.queue[0..] == r.queue;
      more := DrainRight(r1, read + r.queue, sent);
      DrainAcks(Exact, r1);
      assert Recv(Exact, r, len).rcv == Drain(Exact, r1);
    } else {
      more := [];
      assert (read + r.queue) + [] == read + r.queue && r.queue[0..] + [] == r.queue;
    }
  }

  lemma GotAfterReceive(x: Ep, len: int, more: seq<Frag>)
    requires Recv(Exact, x.cb.rcv, len).rcv.queue == x.cb.rcv.queue[Taken(x.cb.rcv, len)..] + more
    ensures Got(ReceiveEp(Exact, x, len)) == Got(x) + more
  {
    Regroup(x.read, x.cb.rcv.queue, Taken(x.cb.rcv, len), more);
    assert ReceiveEp(Exact, x, len).read == x.read + x.cb.rcv.queue[..Taken(x.cb.rcv, len)];
  }

  lemma SenderSame(x: Ep, x': Ep, y: Ep)
    requires LinkOk(x, y) && x'.cb.snd == x.cb.snd && x'.sent == x.sent && x'.out == x.out
    ensures LinkOk(x', y)
  {
  }

  /** What `ikcp_recv` takes off the queue moves from the queue to `read`; then the queue is refilled. */
  lemma ReceiveOk(x: Ep, y: Ep, len: int)
    requires EpOk(x) && LinkOk(x, y) && LinkOk(y, x)
    ensures var x' := ReceiveEp(Exact, x, len); EpOk(x') && LinkOk(x', y) && LinkOk(y, x')
  {
    var x' := ReceiveEp(Exact, x, len);
    RecvOk(Exact, x.cb, LIM, len);
    SenderSame(x, x', y);
    var more := RecvRight(x.cb.rcv, len, x.read, y.sent);
    GotAfterReceive(x, len, more);
    assert x'.cb.rcv == Recv(Exact, x.cb.rcv, len).rcv;
    ReceiverMoves(y, x, x', more);
  }

  // ----- flushing

  lemma FlushOneSame(x: Sent, e: FlushEnv)
    ensures FlushOne(x, e).seg.sn == x.seg.sn && FragOf(FlushOne(x, e).seg) == FragOf(x.seg)
    ensures FlushOne(x, e).seg.cmd == x.seg.cmd
    ensures CauseOf(x, e) != Hold ==> FlushOne(x, e).seg.una == e.una
  {
  }

  lemma SweptGenuine(cb: Cb, sent: seq<Frag>)
    requires SndRight(Moved(Exact, cb), sent)
    ensures PushesGenuine(Swept(Exact, cb).out, sent)
  {
    var buf := Moved(Exact, cb).buf;
    var out := Swept(Exact, cb).out;
    forall j | 0 <= j < |out|
      ensures Genuine(out[j], sent)
    {
      SweepSends(buf, Env(cb), cb.conf.deadLink, out[j]);
      var i :| 0 <= i < |buf| && CauseOf(buf[i], Env(cb)) != Hold && out[j] == FlushOne(buf[i], Env(cb)).seg;
      FlushOneSame(buf[i], Env(cb));
      assert Genuine(buf[i].seg, sent);
    }
  }

  lemma ControlSegsTruthful(cb: Cb)
    requires AcksSound(cb.rcv)
    ensures AllTruthful(ControlSegs(cb), cb.rcv)
    ensures forall j :: 0 <= j < |ControlSegs(cb)| ==> ControlSegs(cb)[j].cmd != CMD_PUSH
  {
    AckSegsAre(Template(cb), cb.rcv.acks);
    var acks := AckSegs(Template(cb), cb.rcv.acks);
    forall j | 0 <= j < |acks|
      ensures Truthful(acks[j], cb.rcv)
    {
      assert Held(cb.rcv, cb.rcv.acks[j].sn);
    }
  }

  lemma SweptTruthful(cb: Cb)
    requires cb.conf.Ok() && AllSentOk(cb.conf, Moved(Exact, cb).buf)
    ensures AllTruthful(Swept(Exact, cb).out, cb.rcv)
  {
    var buf := Moved(Exact, cb).buf;
    var out := Swept(Exact, cb).out;
    forall j | 0 <= j < |out|
      ensures Truthful(out[j], cb.rcv)
    {
      SweepSends(buf, Env(cb), cb.conf.deadLink, out[j]);
      var i :| 0 <= i < |buf| && CauseOf(buf[i], Env(cb)) != Hold && out[j] == FlushOne(buf[i], Env(cb)).seg;
      FlushOneSame(buf[i], Env(cb));
      assert SentOk(cb.conf, buf[i]);
    }
  }

  /** A flush only repeats what is genuine and true. */
  lemma FlushSegsRight(cb: Cb, sent: seq<Frag>)
    requires CbOk(Exact, cb, LIM) && AcksSound(cb.rcv) && SndRight(Moved(Exact, cb), sent)
    ensures PushesGenuine(FlushSegs(Exact, cb), sent) && AllTruthful(FlushSegs(Exact, cb), cb.rcv)
  {
    MovedOk(Exact, cb, LIM);
    SweptGenuine(cb, sent);
    SweptTruthful(cb);
    ControlSegsTruthful(cb);
  }

  lemma PackRight(mtu: nat, segs: seq<Seg>, sent: seq<Frag>, r: Rcv)
    requires Fits(mtu, segs) && PushesGenuine(segs, sent) && AllTruthful(segs, r)
    ensures OutGenuine(Pack(mtu, segs), sent) && OutTruthful(Pack(mtu, segs), r)
  {
    var ds: seq<seq<Seg>> := Pack(mtu, segs);
    PackFits(mtu, segs);
    forall i: nat, j: nat | i < |ds| && j < |ds[i]|
      ensures (ds[i][j].cmd == CMD_PUSH ==> Genuine(ds[i][j], sent)) && Truthful(ds[i][j], r)
    {
      InFlatten(ds, i, j);
      var k :| 0 <= k < |segs| && segs[k] == ds[i][j];
    }
  }

  lemma OutAppends(out: seq<seq<Seg>>, more: seq<seq<Seg>>, sent: seq<Frag>, sent': seq<Frag>)
    requires OutGenuine(out, sent) && OutGenuine(more, sent') && sent <= sent'
    ensures OutGenuine(out + more, sent')
  {
    forall i | 0 <= i < |out|
      ensures PushesGenuine(out[i], sent')
    {
      assert PushesGenuine(out[i], sent);
    }
  }

  /** The sending half of a flush. */
  lemma FlushSender(x: Ep, r: Rcv) returns (k: nat)
    requires EpOk(x) && x.cb.clock.updated && SndRight(x.cb.snd, x.sent) && NoLoss(x.cb.snd, r)
    ensures k <= |x.cb.snd.queue| && DoFlush(Exact, x.cb).snd.queue == x.cb.snd.queue[k..]
    ensures FlushEp(Exact, x).sent == x.sent + x.cb.snd.queue[..k]
    ensures SndRight(Moved(Exact, x.cb), FlushEp(Exact, x).sent)
    ensures SndRight(DoFlush(Exact, x.cb).snd, FlushEp(Exact, x).sent) && NoLoss(DoFlush(Exact, x.cb).snd, r)
  {
    var cb := x.cb;
    k := MoveToBufParts(Exact, cb.snd, Env(cb), Window(cb));
    MovedRight(cb.snd, Moved(Exact, cb), Env(cb), k, x.sent, r);
    FlushParts(Exact, cb);
    MovedOk(Exact, cb, LIM);
    SweepKeeps(Exact, Moved(Exact, cb), Env(cb), cb.conf.deadLink);
    SameSegmentsRight(Moved(Exact, cb), Swept(Exact, cb).buf, x.sent + cb.snd.queue[..k], r);
  }

  lemma FlushEpOut(x: Ep, y: Ep, sent': seq<Frag>)
    requires EpOk(x) && LinkOk(x, y) && LinkOk(y, x)
    requires x.sent <= sent' && SndRight(Moved(Exact, x.cb), sent')
    ensures OutGenuine(FlushEp(Exact, x).out, sent') && OutTruthful(FlushEp(Exact, x).out, x.cb.rcv)
  {
    var segs := FlushSegs(Exact, x.cb);
    FlushFits(Exact, x.cb, LIM);
    FlushSegsRight(x.cb, sent');
    PackRight(x.cb.conf.mtu, segs, sent', x.cb.rcv);
    OutAppends(x.out, Pack(x.cb.conf.mtu, segs), x.sent, sent');
  }

  lemma FlushIdle(w: Width, x: Ep)
    requires x.cb.conf.Ok() && !x.cb.clock.updated
    ensures FlushEp(w, x) == x
  {
    assert Pack(x.cb.conf.mtu, []) == [];
    assert x.out + [] == x.out && x.sent + [] == x.sent;
  }

  lemma FlushEpOk(x: Ep, y: Ep)
    requires EpOk(x) && LinkOk(x, y) && LinkOk(y, x)
    ensures var x' := FlushEp(Exact, x); EpOk(x') && LinkOk(x', y) && LinkOk(y, x')
  {
    if x.cb.clock.updated {
      var x' := FlushEp(Exact, x);
      FlushOk(Exact, x.cb, LIM);
      var k := FlushSender(x, y.cb.rcv);
      FlushEpOut(x, y, x'.sent);
      assert x'.cb.rcv == x.cb.rcv.(acks := []);
      PrefixAppend(x.sent, x.cb.snd.queue[..k]);
      SentGrows(x, x', y);
      AcksCleared(y, x, x');
    } else {
      FlushIdle(Exact, x);
    }
  }

  lemma SentGrows(x: Ep, x': Ep, y: Ep)
    requires LinkOk(x, y) && x.sent <= x'.sent
    requires SndRight(x'.cb.snd, x'.sent) && NoLoss(x'.cb.snd, y.cb.rcv) && OutGenuine(x'.out, x'.sent)
    ensures LinkOk(x', y)
  {
    PrefixTransitive(Got(y), x.sent, x'.sent);
  }

  lemma AcksCleared(y: Ep, x: Ep, x': Ep)
    requires LinkOk(y, x)
    requires x'.cb.rcv == x.cb.rcv.(acks := []) && x'.read == x.read && OutTruthful(x'.out, x.cb.rcv)
    ensures LinkOk(y, x')
  {
    assert HeldGrows(x.cb.rcv, x'.cb.rcv);
    TruthStays(x'.out, x.cb.rcv, x'.cb.rcv);
    forall n: nat | n < y.cb.snd.nxt
      ensures InBuf(y.cb.snd.buf, n) || Held(x'.cb.rcv, n)
    {
      assert InBuf(y.cb.snd.buf, n) || Held(x.cb.rcv, n);
    }
  }

  // ----- every step

  /** Calls that touch neither the numbered segments nor the received ones. */
  lemma QuietOk(x: Ep, x': Ep, y: Ep)
    requires LinkOk(x, y) && LinkOk(y, x)
    requires x'.cb.snd == x.cb.snd.(queue := x'.cb.snd.queue) && x'.cb.rcv == x.cb.rcv.(wnd := x'.cb.rcv.wnd)
    requires x'.sent == x.sent && x'.read == x.read && x'.out == x.out
    ensures LinkOk(x', y) && LinkOk(y, x')
  {
    assert HeldGrows(x.cb.rcv, x'.cb.rcv);
    assert Got(x) + [] == Got(x);
    ReceiverMoves(y, x, x', []);
    forall n: nat | n < x'.cb.snd.nxt
      ensures InBuf(x'.cb.snd.buf, n) || Held(y.cb.rcv, n)
    {
      assert InBuf(x.cb.snd.buf, n) || Held(y.cb.rcv, n);
    }
  }

  lemma TuneOk(x: Ep, y: Ep, act: Act)
    requires EpOk(x) && LinkOk(x, y) && LinkOk(y, x)
    requires act.WndSize? || act.NoDelay? || act.Interval?
    ensures var x' := ActEp(Exact, x, y.out, act); EpOk(x') && LinkOk(x', y) && LinkOk(y, x')
  {
    match act {
      case WndSize(snd, rcv) => WndSizeOk(Exact, x.cb, LIM, snd, rcv);
      case NoDelay(a, b, c, d) => TuningOk(Exact, x.cb, LIM, a, b, c, d);
      case Interval(ms) => TuningOk(Exact, x.cb, LIM, ms, ms, ms, ms);
    }
    QuietOk(x, ActEp(Exact, x, y.out, act), y);
  }

  lemma UpdateEpOk(x: Ep, y: Ep, now: u32)
    requires EpOk(x) && LinkOk(x, y) && LinkOk(y, x)
    ensures var x' := UpdateEp(Exact, x, now); EpOk(x') && LinkOk(x', y) && LinkOk(y, x')
  {
    var x1 := x.(cb := Ticked(x.cb, now));
    assert EpOk(x1);
    QuietOk(x, x1, y);
    FlushEpOk(x1, y);
  }

  /** One step of one endpoint. */
  lemma ActOk(x: Ep, y: Ep, act: Act)
    requires EpOk(x) && EpOk(y) && LinkOk(x, y) && LinkOk(y, x)
    ensures var x' := ActEp(Exact, x, y.out, act); EpOk(x') && LinkOk(x', y) && LinkOk(y, x')
  {
    match act
    case SendMsg(msg) =>
      SendOk(Exact, x.cb, LIM, msg);
      QuietOk(x, SendEp(x, msg), y);
    case Receive(len) =>
      ReceiveOk(x, y, len);
    case Update(now) =>
      UpdateEpOk(x, y, now);
    case FlushNow =>
      FlushEpOk(x, y);
    case Deliver(i) =>
      if i < |y.out| {
        DeliverOk(x, y, i);
      }
    case _ =>
      TuneOk(x, y, act);
  }

  lemma StartLink(a: Cb, b: Cb)
    requires a.snd == Snd(0, 0, [], []) && b.rcv == Rcv(0, WND_RCV, [], [], [])
    ensures var ok := LinkOk(NewEp(a), NewEp(b)); ok
  {
  }

  lemma StartOk(s: Setup)
    requires s.Ok()
    ensures var ok := WorldOk(Start(s)); ok
  {
    StartLink(Start(s).a.cb, Start(s).b.cb);
    StartLink(Start(s).b.cb, Start(s).a.cb);
    StartEnd(s.conv, s.mtuA, s.streamA);
    StartEnd(s.conv, s.mtuB, s.streamB);
  }

  lemma StartEnd(conv: u32, mtu: nat, stream: bool)
    requires 50 <= mtu < 0x8000_0000
    ensures var ok := EpOk(NewEp(Create(conv, mtu, stream))); ok
  {
    CreateOk(Exact, conv, mtu, stream);
  }

  /** The link invariant in every reachable state. In particular no segment is ever lost (`NoLoss`). */
  lemma {:induction false} RunOk(s: Setup, steps: seq<Step>)
    requires s.Ok()
    ensures WorldOk(Run(Exact, s, steps))
  {
    if steps == [] {
      StartOk(s);
    } else {
      var init, last := steps[..|steps| - 1], steps[|steps| - 1];
      RunOk(s, init);
      var x := Run(Exact, s, init);
      match last
      case AtA(act) => ActOk(x.a, x.b, act);
      case AtB(act) => ActOk(x.b, x.a, act);
    }
  }
}
