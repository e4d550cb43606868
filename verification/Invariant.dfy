/** One invariant of the control block, kept by every call for arbitrary input. */
module Invariant {
  import opened Seqs
  import opened Serial
  import opened Wire
  import opened Fragments
  import opened Sender
  import opened SendWindow
  import opened Receiver
  import opened Estimator
  import opened Congestion
  import opened ControlBlock

  predicate SentOk(conf: Conf, x: Sent)
    requires conf.Ok()
  {
    x.seg.conv == conf.conv && x.seg.cmd == CMD_PUSH && |x.seg.data| <= conf.Mss() && (conf.stream ==> x.seg.frg == 0)
  }

  predicate AllSentOk(conf: Conf, buf: seq<Sent>)
    requires conf.Ok()
  {
    forall i :: 0 <= i < |buf| ==> SentOk(conf, buf[i])
  }

  predicate AcksOk(w: Width, acks: seq<Ack>) {
    forall i :: 0 <= i < |acks| ==> Numeral(w, acks[i].sn)
  }

  predicate TimersOk(cb: Cb) {
    && 10 <= cb.clock.interval <= 5000
    && (cb.probe.wait == 0 || PROBE_INIT <= cb.probe.wait <= PROBE_LIMIT)
    && (cb.rtt.minrto == 30 || cb.rtt.minrto == 100)
    && 30 <= cb.rtt.rto <= RTO_MAX
  }

  /** The tuning values for which the congestion window is known not to overflow. */
  predicate Moderate(conf: Conf) {
    conf.mtu <= 65535 && conf.fastresend <= 32768
  }

  predicate CbOk(w: Width, cb: Cb, lim: nat) {
    && cb.conf.Ok()
    && SndOk(w, cb.snd) && AllSentOk(cb.conf, cb.snd.buf) && QueueOk(cb.conf.Mss(), cb.conf.stream, cb.snd.queue)
    && RcvOk(w, cb.rcv, lim) && AcksOk(w, cb.rcv.acks)
    && TimersOk(cb)
  }

  lemma CreateOk(w: Width, conv: u32, mtu: nat, stream: bool)
    requires 50 <= mtu < 0x8000_0000
    ensures CbOk(w, Create(conv, mtu, stream), WND_RCV) && Drained(Create(conv, mtu, stream).rcv)
    ensures mtu <= 65535 ==> CongOk(Create(conv, mtu, stream).cong, mtu - OVERHEAD)
  {
  }

  lemma SendOk(w: Width, cb: Cb, lim: nat, msg: Bytes)
    requires CbOk(w, cb, lim)
    ensures CbOk(w, DoSend(cb, msg).0, lim)
  {
    SendKeepsQueueOk(cb.conf.Mss(), cb.conf.stream, cb.snd.queue, msg);
  }

  lemma {:induction false} DrainAcks(w: Width, r: Rcv)
    ensures Drain(w, r).acks == r.acks && Drain(w, r).wnd == r.wnd
    decreases |r.buf|
  {
    if CanTake(r) {
      DrainAcks(w, TakeFront(w, r));
    }
  }

  lemma ParseDataAcks(w: Width, r: Rcv, seg: Seg)
    ensures ParseData(w, r, seg).acks == r.acks && ParseData(w, r, seg).wnd == r.wnd
  {
    DrainAcks(w, r.(buf := Insert(w, r.buf, seg)));
  }

  lemma {:induction false} InputWnd(w: Width, cb: Cb, segs: seq<Seg>)
    ensures InputAll(w, cb, segs).rcv.wnd == cb.rcv.wnd
  {
    if segs != [] {
      var init, last := segs[..|segs| - 1], segs[|segs| - 1];
      InputWnd(w, cb, init);
      var r := InputAll(w, cb, init).rcv;
      ParseDataAcks(w, Noted(w, r, last), last);
    }
  }

  lemma RecvOk(w: Width, cb: Cb, lim: nat, len: int)
    requires CbOk(w, cb, lim)
    ensures CbOk(w, DoRecv(w, cb, len).0, lim)
    ensures Drained(cb.rcv) ==> Drained(DoRecv(w, cb, len).0.rcv)
  {
    RecvKeeps(w, cb.rcv, lim, len);
    var n := RunLen(cb.rcv.queue);
    DrainAcks(w, cb.rcv.(queue := if len < 0 then cb.rcv.queue else cb.rcv.queue[n..]));
  }

  /** A successful receive has taken the queue from full to not full. */
  predicate Reopens(cb: Cb, len: int) {
    var (cb', code, data) := DoRecv(W32, cb, len);
    code >= 0 && |cb.rcv.queue| >= cb.rcv.wnd && |cb'.rcv.queue| < cb'.rcv.wnd
  }

  /** A receive requests an announcement exactly then, and otherwise leaves the request as it is. */
  lemma RecvTells(cb: Cb, len: int)
    ensures DoRecv(W32, cb, len).0.probe.tell <==> cb.probe.tell || Reopens(cb, len)
  {
    var n := RunLen(cb.rcv.queue);
    DrainAcks(W32, cb.rcv.(queue := if len < 0 then cb.rcv.queue else cb.rcv.queue[n..]));
  }

  // ----- input

  predicate NumeralSeg(w: Width, seg: Seg) {
    Numeral(w, seg.sn) && Numeral(w, seg.una)
  }

  predicate NumeralSegs(w: Width, segs: seq<Seg>) {
    forall i :: 0 <= i < |segs| ==> NumeralSeg(w, segs[i])
  }

  lemma {:induction false} ParseUnaSuffix(w: Width, buf: seq<Sent>, una: nat) returns (k: nat)
    ensures k <= |buf| && ParseUna(w, buf, una) == buf[k..]
  {
    if buf != [] && Diff(w, una, buf[0].seg.sn) > 0 {
      var k' := ParseUnaSuffix(w, buf[1..], una);
      k := k' + 1;
    } else {
      k := 0;
    }
  }

  lemma {:induction false} RemoveAckedFrom(w: Width, buf: seq<Sent>, sn: nat)
    ensures forall x :: x in RemoveAcked(w, buf, sn) ==> x in buf
  {
    if buf != [] {
      RemoveAckedFrom(w, buf[1..], sn);
    }
  }

  /** Acknowledgements only ever take entries out of the buffer. */
  lemma SndInputFrom(w: Width, s: Snd, seg: Seg)
    ensures forall x :: x in SndInput(w, s, seg).buf ==> x in s.buf
    ensures SndInput(w, s, seg).queue == s.queue && SndInput(w, s, seg).nxt == s.nxt
  {
    var k := ParseUnaSuffix(w, s.buf, seg.una);
    RemoveAckedFrom(w, s.buf[k..], seg.sn);
  }

  lemma SndInputSentOk(w: Width, conf: Conf, s: Snd, seg: Seg)
    requires conf.Ok() && AllSentOk(conf, s.buf)
    ensures AllSentOk(conf, SndInput(w, s, seg).buf)
  {
    SndInputFrom(w, s, seg);
    var t := SndInput(w, s, seg).buf;
    forall i | 0 <= i < |t|
      ensures SentOk(conf, t[i])
    {
      assert t[i] in s.buf;
    }
  }

  lemma RcvInputOk(w: Width, r: Rcv, lim: nat, seg: Seg)
    requires RcvOk(w, r, lim) && AcksOk(w, r.acks) && Numeral(w, seg.sn)
    ensures RcvOk(w, RcvInput(w, r, seg), lim) && AcksOk(w, RcvInput(w, r, seg).acks)
    ensures Drained(r) ==> Drained(RcvInput(w, r, seg))
  {
    RcvInputKeeps(w, r, lim, seg);
    ParseDataAcks(w, Noted(w, r, seg), seg);
  }

  lemma InputTimersOk(w: Width, cb: Cb, seg: Seg)
    requires TimersOk(cb)
    ensures TimersOk(InputOne(w, cb, seg))
  {
    RtoBounded(cb.rtt, cb.clock.interval, Since(cb.clock.current, seg.ts));
  }

  lemma InputOneOk(w: Width, cb: Cb, lim: nat, seg: Seg)
    requires CbOk(w, cb, lim) && NumeralSeg(w, seg)
    ensures CbOk(w, InputOne(w, cb, seg), lim)
    ensures Drained(cb.rcv) ==> Drained(InputOne(w, cb, seg).rcv)
    ensures Advanced(w, cb.snd, InputOne(w, cb, seg).snd)
  {
    SndInputKeeps(w, cb.snd, seg);
    SndInputSentOk(w, cb.conf, cb.snd, seg);
    RcvInputOk(w, cb.rcv, lim, seg);
    InputTimersOk(w, cb, seg);
  }

  /** How far `snd_una` has come and how much of the window is left, after part of a datagram. */
  predicate Progress(w: Width, before: Snd, after: Snd) {
    && Advanced(w, before, after)
    && after.nxt == before.nxt && after.queue == before.queue
    && Span(w, after) == Span(w, before) - Ahead(w, after.una, before.una)
  }

  lemma ProgressTwice(w: Width, a: Snd, b: Snd, c: Snd)
    requires 0 <= Span(w, a) <= MAX_WND && Progress(w, a, b) && Progress(w, b, c)
    ensures Progress(w, a, c)
  {
    AdvancedTwice(w, a, b, c);
  }

  lemma {:induction false} InputAllOk(w: Width, cb: Cb, lim: nat, segs: seq<Seg>)
    requires CbOk(w, cb, lim) && NumeralSegs(w, segs)
    ensures CbOk(w, InputAll(w, cb, segs), lim)
    ensures Drained(cb.rcv) ==> Drained(InputAll(w, cb, segs).rcv)
    ensures Progress(w, cb.snd, InputAll(w, cb, segs).snd)
  {
    if segs == [] {
      AheadOfNext(w, cb.snd.una, 0);
    } else {
      var init, last := segs[..|segs| - 1], segs[|segs| - 1];
      InputAllOk(w, cb, lim, init);
      var mid := InputAll(w, cb, init);
      InputOneOk(w, mid, lim, last);
      SndInputKeeps(w, mid.snd, last);
      ProgressTwice(w, cb.snd, mid.snd, InputOne(w, mid, last).snd);
    }
  }

  lemma {:induction false} MarkNumeral(w: Width, segs: seq<Seg>)
    requires NumeralSegs(w, segs)
    ensures MarkAll(w, segs).Newest? ==> Numeral(w, MarkAll(w, segs).sn)
  {
    if segs != [] {
      MarkNumeral(w, segs[..|segs| - 1]);
    }
  }

  lemma SameSentOk(conf: Conf, s: Snd, sn: nat, w: Width)
    requires conf.Ok() && AllSentOk(conf, s.buf) && SndOk(w, s) && Numeral(w, sn)
    ensures AllSentOk(conf, ParseFastack(w, s, sn).buf)
  {
    InFlightIsInside(w, s, sn);
    if InFlight(w, s, sn) {
      CountSkippedIsMap(w, s.buf, s.una, Span(w, s), sn);
    }
  }

  lemma FinishOk(w: Width, cb: Cb, lim: nat, prevUna: nat, m: Mark)
    requires CbOk(w, cb, lim) && (m.Newest? ==> Numeral(w, m.sn))
    ensures CbOk(w, FinishInput(w, cb, prevUna, m), lim)
    ensures FinishInput(w, cb, prevUna, m).snd.una == cb.snd.una && FinishInput(w, cb, prevUna, m).rcv == cb.rcv
  {
    if m.Newest? {
      ParseFastackKeeps(w, cb.snd, m.sn);
      SameSentOk(cb.conf, cb.snd, m.sn, w);
    }
  }

  /** A whole datagram of well-formed segments. */
  lemma InputSegsOk(w: Width, cb: Cb, lim: nat, segs: seq<Seg>)
    requires CbOk(w, cb, lim) && NumeralSegs(w, segs)
    ensures CbOk(w, InputSegs(w, cb, segs), lim)
    ensures Drained(cb.rcv) ==> Drained(InputSegs(w, cb, segs).rcv)
    ensures Advanced(w, cb.snd, InputSegs(w, cb, segs).snd)
  {
    InputAllOk(w, cb, lim, segs);
    MarkNumeral(w, segs);
    FinishOk(w, InputAll(w, cb, segs), lim, cb.snd.una, MarkAll(w, segs));
  }

  /** Arbitrary bytes: whatever arrives and whatever `ikcp_input` returns, the invariant holds again, the receive
      buffer is drained and `snd_una` has not moved backward. */
  lemma InputBytesOk(cb: Cb, lim: nat, data: Bytes)
    requires CbOk(W32, cb, lim)
    ensures CbOk(W32, InputBytes(cb, data).0, lim)
    ensures Drained(cb.rcv) ==> Drained(InputBytes(cb, data).0.rcv)
    ensures Advanced(W32, cb.snd, InputBytes(cb, data).0.snd)
  {
    var tail := EncodeOfParse(cb.conf.conv, data);
    var segs := Parse(cb.conf.conv, data).segs;
    assert NumeralSegs(W32, segs) by {
      assert AllWireOk(cb.conf.conv, segs);
    }
    InputAllOk(W32, cb, lim, segs);
    InputSegsOk(W32, cb, lim, segs);
    AheadOfNext(W32, cb.snd.una, 0);
  }

  /** The congestion accounting over one `ikcp_input`: kept, and the window opens by at most two segments. */
  lemma InputCong(cb: Cb, data: Bytes)
    requires cb.conf.Ok() && CongOk(cb.cong, cb.conf.Mss())
    ensures InputBytes(cb, data).0.conf == cb.conf
    ensures CongOk(InputBytes(cb, data).0.cong, cb.conf.Mss())
    ensures cb.cong.cwnd <= InputBytes(cb, data).0.cong.cwnd <= cb.cong.cwnd + 2
  {
    var segs := Parse(cb.conf.conv, data).segs;
    InputAllConf(W32, cb, segs);
    var all := InputAll(W32, cb, segs);
    GrowKeeps(all.cong, all.rmtWnd, all.conf.Mss());
  }

  // ----- flush

  lemma MovedOk(w: Width, cb: Cb, lim: nat)
    requires CbOk(w, cb, lim)
    ensures SndOk(w, Moved(w, cb)) && AllSentOk(cb.conf, Moved(w, cb).buf)
    ensures QueueOk(cb.conf.Mss(), cb.conf.stream, Moved(w, cb).queue)
  {
    MoveToBufKeeps(w, cb.snd, Env(cb), Window(cb));
    var k := MoveToBufParts(w, cb.snd, Env(cb), Window(cb));
    var b := Moved(w, cb).buf;
    forall i | 0 <= i < |b|
      ensures SentOk(cb.conf, b[i])
    {
      if i < |cb.snd.buf| {
        assert b[i] == cb.snd.buf[i];
      } else {
        var j := i - |cb.snd.buf|;
        assert b[|cb.snd.buf| + j] == Number(Env(cb), cb.snd.queue[j], Add(w, cb.snd.nxt, j));
      }
    }
  }

  lemma SweptOk(w: Width, cb: Cb, lim: nat)
    requires CbOk(w, cb, lim)
    ensures SndOk(w, Moved(w, cb).(buf := Swept(w, cb).buf)) && AllSentOk(cb.conf, Swept(w, cb).buf)
  {
    MovedOk(w, cb, lim);
    SweepKeeps(w, Moved(w, cb), Env(cb), cb.conf.deadLink);
    SweepIsMap(Moved(w, cb).buf, Env(cb), cb.conf.deadLink);
  }

  /** The parts of the control block that a flush leaves to its data loop or does not touch. */
  lemma FlushParts(w: Width, cb: Cb)
    requires cb.conf.Ok() && cb.clock.updated
    ensures var cb' := DoFlush(w, cb);
            && cb'.conf == cb.conf && cb'.rtt == cb.rtt && cb'.clock == cb.clock && cb'.rmtWnd == cb.rmtWnd
            && cb'.snd == Moved(w, cb).(buf := Swept(w, cb).buf)
            && cb'.rcv == cb.rcv.(acks := [])
            && cb'.probe.wait == ProbeTick(cb.probe, cb.rmtWnd, cb.clock.current).wait
  {
  }

  lemma ProbeWaitOk(p: Probe, rmtWnd: u16, current: u32)
    requires p.wait == 0 || PROBE_INIT <= p.wait <= PROBE_LIMIT
    ensures var p' := ProbeTick(p, rmtWnd, current); p'.wait == 0 || PROBE_INIT <= p'.wait <= PROBE_LIMIT
  {
  }

  lemma FlushOk(w: Width, cb: Cb, lim: nat)
    requires CbOk(w, cb, lim)
    ensures CbOk(w, DoFlush(w, cb), lim)
    ensures DoFlush(w, cb).rcv == if cb.clock.updated then cb.rcv.(acks := []) else cb.rcv
  {
    if cb.clock.updated {
      SweptOk(w, cb, lim);
      MovedOk(w, cb, lim);
      ProbeWaitOk(cb.probe, cb.rmtWnd, cb.clock.current);
      FlushParts(w, cb);
    }
  }

  lemma MovedSpan(w: Width, cb: Cb, lim: nat)
    requires CbOk(w, cb, lim)
    ensures InflightOf(w, Moved(w, cb)) <= MAX_WND
  {
    MoveToBufKeeps(w, cb.snd, Env(cb), Window(cb));
    SpanFits(w, Moved(w, cb));
  }

  lemma SpanFits(w: Width, s: Snd)
    requires 0 <= Span(w, s) <= MAX_WND
    ensures InflightOf(w, s) == Span(w, s)
  {
  }

  /** After a flush the accounting holds, `ssthresh >= 2` and `cwnd >= 1`. */
  lemma FlushCong(w: Width, cb: Cb)
    requires cb.conf.Ok() && Moderate(cb.conf) && CongOk(cb.cong, cb.conf.Mss())
    requires InflightOf(w, Moved(w, cb)) <= MAX_WND
    ensures CongOk(DoFlush(w, cb).cong, cb.conf.Mss())
    ensures cb.clock.updated ==> DoFlush(w, cb).cong.cwnd >= 1
  {
    var t := Swept(w, cb);
    AfterFlushKeeps(cb.cong, t.fast, t.timeouts > 0, InflightOf(w, Moved(w, cb)), Resent(cb.conf), Window(cb), cb.conf.Mss());
  }

  lemma UpdateOk(w: Width, cb: Cb, lim: nat, now: u32)
    requires CbOk(w, cb, lim)
    ensures CbOk(w, DoUpdate(w, cb, now), lim)
    ensures Drained(cb.rcv) ==> Drained(DoUpdate(w, cb, now).rcv)
  {
    assert CbOk(w, Ticked(cb, now), lim);
    FlushOk(w, Ticked(cb, now), lim);
  }

  // ----- tuning calls

  lemma TuningOk(w: Width, cb: Cb, lim: nat, a: i32, b: i32, c: i32, d: i32)
    requires CbOk(w, cb, lim)
    ensures CbOk(w, DoNoDelay(cb, a, b, c, d), lim) && CbOk(w, DoInterval(cb, a), lim)
  {
  }

  /** An interval is taken as given within [10, 5000], and cut to these limits outside. */
  predicate IntervalTaken(given: i32, taken: int) {
    && (given < 10 ==> taken == 10)
    && (10 <= given <= 5000 ==> taken == given)
    && (given > 5000 ==> taken == 5000)
  }

  /** Growing the receive window keeps the invariant at once; after shrinking it the old window still bounds what is
      already buffered. */
  lemma WndSizeOk(w: Width, cb: Cb, lim: nat, snd: i32, rcv: i32)
    requires CbOk(w, cb, lim)
    ensures var cb' := DoWndSize(cb, snd, rcv); CbOk(w, cb', if cb'.rcv.wnd > lim then cb'.rcv.wnd else lim)
  {
  }

  /** Growing the window strands the segment at the front of `rcv_buf`: it is next, there is room for it now, and no loop
      moves it. */
  predicate Strands(cb: Cb, rcv: i32) {
    rcv > 0 && cb.rcv.buf != [] && cb.rcv.buf[0].sn == cb.rcv.nxt && |cb.rcv.queue| < Max(rcv, WND_RCV)
  }

  lemma WndSizeStrands(cb: Cb, snd: i32, rcv: i32)
    requires Drained(cb.rcv)
    ensures Drained(DoWndSize(cb, snd, rcv).rcv) <==> !Strands(cb, rcv)
  {
  }

  // ----- what a flush puts on the wire

  lemma {:induction false} AckSegsAre(h: Seg, acks: seq<Ack>)
    ensures |AckSegs(h, acks)| == |acks|
    ensures forall i :: 0 <= i < |acks| ==> AckSegs(h, acks)[i] == AckSeg(h, acks[i])
  {
    if acks != [] {
      AckSegsAre(h, acks[..|acks| - 1]);
    }
  }

  lemma ControlSegsFit(w: Width, cb: Cb, lim: nat)
    requires CbOk(w, cb, lim)
    ensures Fits(cb.conf.mtu, ControlSegs(cb)) && AllHeaderOk(cb.conf.conv, ControlSegs(cb))
    ensures w == W32 ==> AllWireOk(cb.conf.conv, ControlSegs(cb))
  {
    AckSegsAre(Template(cb), cb.rcv.acks);
  }

  lemma {:induction false} SweepFits(w: Width, conf: Conf, buf: seq<Sent>, e: FlushEnv, lim: u32)
    requires conf.Ok() && AllSentOk(conf, buf)
    requires Numeral(w, e.una) && forall i :: 0 <= i < |buf| ==> Numeral(w, buf[i].seg.sn)
    ensures Fits(conf.mtu, SweepBuf(buf, e, lim).out) && AllHeaderOk(conf.conv, SweepBuf(buf, e, lim).out)
    ensures w == W32 ==> AllWireOk(conf.conv, SweepBuf(buf, e, lim).out)
  {
    if buf != [] {
      var n := |buf| - 1;
      assert SentOk(conf, buf[n]);
      SweepFits(w, conf, buf[..n], e, lim);
    }
  }

  /** Every flush, in every state: what it sends fits the wire format and the datagram size. */
  lemma FlushFits(w: Width, cb: Cb, lim: nat)
    requires CbOk(w, cb, lim)
    ensures Fits(cb.conf.mtu, FlushSegs(w, cb)) && AllHeaderOk(cb.conf.conv, FlushSegs(w, cb))
    ensures w == W32 ==> AllWireOk(cb.conf.conv, FlushSegs(w, cb))
  {
    ControlSegsFit(w, cb, lim);
    SweptFits(w, cb, lim);
  }

  lemma SweptFits(w: Width, cb: Cb, lim: nat)
    requires CbOk(w, cb, lim)
    ensures Fits(cb.conf.mtu, Swept(w, cb).out) && AllHeaderOk(cb.conf.conv, Swept(w, cb).out)
    ensures w == W32 ==> AllWireOk(cb.conf.conv, Swept(w, cb).out)
  {
    MovedOk(w, cb, lim);
    SweepFits(w, cb.conf, Moved(w, cb).buf, Env(cb), cb.conf.deadLink);
  }

  /** Every datagram a flush emits is non-empty, at most `mtu` bytes, and is decoded by a peer of the same conversation to
      exactly the segments flushed. */
  lemma FlushOnTheWire(cb: Cb, lim: nat)
    requires CbOk(W32, cb, lim)
    ensures Flatten(Pack(cb.conf.mtu, FlushSegs(W32, cb))) == FlushSegs(W32, cb)
    ensures forall i :: 0 <= i < |Pack(cb.conf.mtu, FlushSegs(W32, cb))| ==>
              var d := Pack(cb.conf.mtu, FlushSegs(W32, cb))[i];
              Parse(cb.conf.conv, EncodeSegs(d)) == Parsed(d, 0) && 0 < |EncodeSegs(d)| <= cb.conf.mtu
  {
    FlushFits(W32, cb, lim);
    FlushRoundTrip(cb.conf.conv, cb.conf.mtu, FlushSegs(W32, cb));
  }
}
