/** Reducing every sequence number modulo 2^32 commutes with each operation, as long as the numbers compared lie less
    than 2^31 apart. */
module Wrapping {
  import opened Serial
  import opened Wire
  import opened Fragments
  import opened Sender
  import opened SendWindow
  import opened Receiver
  import opened ControlBlock
  import opened Invariant

  function WrapSeg(s: Seg): Seg {
    s.(sn := U32(s.sn), una := U32(s.una))
  }

  function WrapSegs(ss: seq<Seg>): (t: seq<Seg>)
    ensures |t| == |ss| && forall i :: 0 <= i < |ss| ==> t[i] == WrapSeg(ss[i])
  {
    seq(|ss|, i requires 0 <= i < |ss| => WrapSeg(ss[i]))
  }

  function WrapSent(x: Sent): Sent {
    x.(seg := WrapSeg(x.seg))
  }

  function WrapBuf(b: seq<Sent>): (t: seq<Sent>)
    ensures |t| == |b| && forall i :: 0 <= i < |b| ==> t[i] == WrapSent(b[i])
  {
    seq(|b|, i requires 0 <= i < |b| => WrapSent(b[i]))
  }

  function WrapAck(a: Ack): Ack {
    a.(sn := U32(a.sn))
  }

  function WrapAcks(s: seq<Ack>): (t: seq<Ack>)
    ensures |t| == |s| && forall i :: 0 <= i < |s| ==> t[i] == WrapAck(s[i])
  {
    seq(|s|, i requires 0 <= i < |s| => WrapAck(s[i]))
  }

  function WrapSnd(s: Snd): Snd {
    Snd(U32(s.una), U32(s.nxt), s.queue, WrapBuf(s.buf))
  }

  function WrapRcv(r: Rcv): Rcv {
    Rcv(U32(r.nxt), r.wnd, r.queue, WrapSegs(r.buf), WrapAcks(r.acks))
  }

  function WrapCb(cb: Cb): Cb {
    cb.(snd := WrapSnd(cb.snd), rcv := WrapRcv(cb.rcv))
  }

  function WrapEnv(e: FlushEnv): FlushEnv {
    e.(una := U32(e.una))
  }

  // ----- sequences

  lemma WrapBufTail(b: seq<Sent>)
    requires b != []
    ensures WrapBuf(b)[1..] == WrapBuf(b[1..])
  {
  }

  lemma WrapBufInit(b: seq<Sent>)
    requires b != []
    ensures WrapBuf(b)[..|b| - 1] == WrapBuf(b[..|b| - 1])
  {
  }

  lemma WrapBufConcat(a: seq<Sent>, b: seq<Sent>)
    ensures WrapBuf(a + b) == WrapBuf(a) + WrapBuf(b)
  {
  }

  lemma WrapSegsInit(b: seq<Seg>)
    requires b != []
    ensures WrapSegs(b)[..|b| - 1] == WrapSegs(b[..|b| - 1])
  {
  }

  lemma WrapSegsTail(b: seq<Seg>)
    requires b != []
    ensures WrapSegs(b)[1..] == WrapSegs(b[1..])
  {
  }

  lemma WrapSegsConcat(a: seq<Seg>, b: seq<Seg>)
    ensures WrapSegs(a + b) == WrapSegs(a) + WrapSegs(b)
  {
  }

  lemma WrapSegsSnoc(b: seq<Seg>, s: Seg)
    ensures WrapSegs(b + [s]) == WrapSegs(b) + [WrapSeg(s)]
  {
  }

  // ----- sender

  /** `x` is at most `hi` and less than 2^31 behind it. */
  predicate Near(x: nat, hi: nat) {
    x <= hi && hi - x < 0x8000_0000
  }

  /** Every buffered number is within a window before `hi`. */
  predicate BufNear(b: seq<Sent>, hi: nat) {
    forall i :: 0 <= i < |b| ==> b[i].seg.sn < hi && hi - b[i].seg.sn <= MAX_WND
  }

  lemma NearDiff(x: nat, y: nat, hi: nat)
    requires Near(x, hi) && Near(y, hi)
    ensures Diff(W32, U32(x), U32(y)) == x - y
    ensures U32(x) == U32(y) <==> x == y
  {
    DiffExact(x, y);
    WrapInjective(x, y);
  }

  lemma {:induction false} ParseUnaWrap(b: seq<Sent>, una: nat, hi: nat)
    requires BufNear(b, hi) && Near(una, hi)
    ensures ParseUna(W32, WrapBuf(b), U32(una)) == WrapBuf(ParseUna(Exact, b, una))
    ensures BufNear(ParseUna(Exact, b, una), hi)
  {
    if b != [] {
      NearDiff(una, b[0].seg.sn, hi);
      WrapBufTail(b);
      ParseUnaWrap(b[1..], una, hi);
    }
  }

  lemma {:induction false} RemoveAckedWrap(b: seq<Sent>, sn: nat, hi: nat)
    requires BufNear(b, hi) && Near(sn, hi)
    ensures RemoveAcked(W32, WrapBuf(b), U32(sn)) == WrapBuf(RemoveAcked(Exact, b, sn))
  {
    if b != [] {
      NearDiff(sn, b[0].seg.sn, hi);
      WrapBufTail(b);
      RemoveAckedWrap(b[1..], sn, hi);
      WrapBufConcat([b[0]], RemoveAcked(Exact, b[1..], sn));
      assert WrapBuf([b[0]]) == [WrapSent(b[0])];
    }
  }

  lemma {:induction false} CountSkippedWrap(b: seq<Sent>, sn: nat, hi: nat)
    requires BufNear(b, hi) && Near(sn, hi)
    ensures CountSkipped(W32, WrapBuf(b), U32(sn)) == WrapBuf(CountSkipped(Exact, b, sn))
  {
    if b != [] {
      NearDiff(sn, b[0].seg.sn, hi);
      WrapBufTail(b);
      CountSkippedWrap(b[1..], sn, hi);
      var x := if sn != b[0].seg.sn then Skip(b[0]) else b[0];
      WrapBufConcat([x], CountSkipped(Exact, b[1..], sn));
      assert WrapBuf([x]) == [WrapSent(x)];
    }
  }

  lemma SndNear(s: Snd)
    requires SndOk(Exact, s)
    ensures BufNear(s.buf, s.nxt) && Near(s.una, s.nxt)
  {
  }

  lemma ShrinkWrap(s: Snd)
    ensures ShrinkBuf(WrapSnd(s)) == WrapSnd(ShrinkBuf(s))
  {
  }

  lemma OffsetWrap(a: nat, b: nat)
    ensures Offset(U32(a), U32(b)) == Offset(a, b)
  {
    Congruent(U32(a) - U32(b), a - b, b / 0x1_0000_0000 - a / 0x1_0000_0000);
  }

  lemma OffsetInside(sn: nat, nxt: nat)
    requires nxt <= sn < nxt + 0x1_0000_0000
    ensures Offset(sn, nxt) == sn - nxt
  {
  }

  lemma DiffPositive(a: nat, b: nat)
    ensures Diff(W32, U32(a), U32(b)) > 0 <==> 0 < Offset(a, b) < 0x8000_0000
  {
    OffsetWrap(a, b);
  }

  /** `una` empties the front of the 32-bit buffer just as far as it should: `UnaExactly`. An old one must not, going round,
      look like one ahead of the first entry. */
  predicate UnaFresh(s: Snd, una: nat) {
    s.buf == [] || una > s.buf[0].seg.sn || !(0 < Offset(una, s.buf[0].seg.sn) < 0x8000_0000)
  }

  lemma {:induction false} ParseUnaShortens(w: Width, buf: seq<Sent>, una: nat)
    ensures |ParseUna(w, buf, una)| <= |buf|
  {
    if buf != [] {
      ParseUnaShortens(w, buf[1..], una);
    }
  }

  /** Freshness of `una` is exact. */
  lemma UnaExactly(s: Snd, una: nat)
    requires SndOk(Exact, s) && una <= s.nxt
    ensures ParseUna(W32, WrapBuf(s.buf), U32(una)) == WrapBuf(ParseUna(Exact, s.buf, una)) <==> UnaFresh(s, una)
  {
    SndNear(s);
    if s.buf != [] {
      var head := s.buf[0].seg.sn;
      if una > head {
        ParseUnaWrap(s.buf, una, s.nxt);
      } else {
        DiffPositive(una, head);
        ParseUnaShortens(W32, WrapBuf(s.buf)[1..], U32(una));
      }
    }
  }

  /** The code's test takes an acknowledged number for one in flight just when it is: `AckExactly`. */
  predicate AckFresh(s: Snd, sn: nat) {
    sn >= s.una || Offset(sn, s.una) >= Span(Exact, s)
  }

  /** Freshness of an acknowledged number is exact. */
  lemma AckExactly(s: Snd, sn: nat)
    requires SndOk(Exact, s) && sn <= s.nxt
    ensures (InFlight(W32, WrapSnd(s), U32(sn)) <==> InFlight(Exact, s, sn)) <==> AckFresh(s, sn)
  {
    OffsetWrap(sn, s.una);
    WrapAdd(s.una, Span(Exact, s));
    WindowTest(W32, U32(sn), U32(s.una), Span(Exact, s));
    if sn >= s.una {
      OffsetInside(sn, s.una);
    }
  }

  lemma ParseAckWrap(s: Snd, sn: nat)
    requires SndOk(Exact, s) && sn <= s.nxt && AckFresh(s, sn)
    ensures ParseAck(W32, WrapSnd(s), U32(sn)) == WrapSnd(ParseAck(Exact, s, sn))
    ensures ParseFastack(W32, WrapSnd(s), U32(sn)) == WrapSnd(ParseFastack(Exact, s, sn))
  {
    SndNear(s);
    AckExactly(s, sn);
    if InFlight(Exact, s, sn) {
      RemoveAckedWrap(s.buf, sn, s.nxt);
      CountSkippedWrap(s.buf, sn, s.nxt);
    }
  }

  /** The sending half once `una` has been taken in. */
  function AfterUna(s: Snd, una: nat): Snd {
    ShrinkBuf(s.(buf := ParseUna(Exact, s.buf, una)))
  }

  lemma SndInputWrap(s: Snd, seg: Seg)
    requires SndOk(Exact, s) && seg.una <= s.nxt && UnaFresh(s, seg.una)
    requires seg.cmd == CMD_ACK ==> seg.sn <= s.nxt && AckFresh(AfterUna(s, seg.una), seg.sn)
    ensures SndInput(W32, WrapSnd(s), WrapSeg(seg)) == WrapSnd(SndInput(Exact, s, seg))
  {
    UnaExactly(s, seg.una);
    var t := s.(buf := ParseUna(Exact, s.buf, seg.una));
    ShrinkWrap(t);
    if seg.cmd == CMD_ACK {
      ParseUnaKeeps(Exact, s, seg.una);
      ShrinkKeeps(Exact, t);
      ParseAckWrap(ShrinkBuf(t), seg.sn);
      ShrinkWrap(ParseAck(Exact, ShrinkBuf(t), seg.sn));
    }
  }

  lemma MoveOneWrap(s: Snd, e: FlushEnv)
    requires s.queue != []
    ensures MoveOne(W32, WrapSnd(s), WrapEnv(e)) == WrapSnd(MoveOne(Exact, s, e))
  {
    WrapAdd(s.nxt, 1);
    WrapBufConcat(s.buf, [Number(e, s.queue[0], s.nxt)]);
  }

  lemma RoomWrap(s: Snd, cwnd: nat)
    requires SndOk(Exact, s) && cwnd <= MAX_WND
    ensures Diff(W32, U32(s.nxt), Add(W32, U32(s.una), cwnd)) == Diff(Exact, s.nxt, Add(Exact, s.una, cwnd))
  {
    WrapAdd(s.una, cwnd);
    DiffExact(s.nxt, s.una + cwnd);
  }

  lemma {:induction false} MoveToBufWrap(s: Snd, e: FlushEnv, cwnd: nat)
    requires SndOk(Exact, s) && cwnd <= MAX_WND
    ensures MoveToBuf(W32, WrapSnd(s), WrapEnv(e), cwnd) == WrapSnd(MoveToBuf(Exact, s, e, cwnd))
    decreases |s.queue|
  {
    RoomWrap(s, cwnd);
    HasRoom(Exact, s, cwnd);
    if Span(Exact, s) < cwnd && s.queue != [] {
      MoveOneWrap(s, e);
      MoveOneKeeps(Exact, s, e, cwnd);
      MoveToBufWrap(MoveOne(Exact, s, e), e, cwnd);
    }
  }

  function WrapSweep(t: Sweep): Sweep {
    t.(buf := WrapBuf(t.buf), out := WrapSegs(t.out))
  }

  lemma FlushOneWrap(x: Sent, e: FlushEnv)
    ensures FlushOne(WrapSent(x), WrapEnv(e)) == WrapSent(FlushOne(x, e))
    ensures CauseOf(WrapSent(x), WrapEnv(e)) == CauseOf(x, e)
  {
  }

  lemma SweepOneWrap(t: Sweep, x: Sent, e: FlushEnv, deadLink: u32)
    ensures SweepOne(WrapSweep(t), WrapSent(x), WrapEnv(e), deadLink) == WrapSweep(SweepOne(t, x, e, deadLink))
  {
    var y := FlushOne(x, e);
    FlushOneWrap(x, e);
    WrapBufConcat(t.buf, [y]);
    WrapSegsSnoc(t.out, y.seg);
  }

  lemma {:induction false} SweepWrap(b: seq<Sent>, e: FlushEnv, deadLink: u32)
    ensures SweepBuf(WrapBuf(b), WrapEnv(e), deadLink) == WrapSweep(SweepBuf(b, e, deadLink))
  {
    if b != [] {
      WrapBufInit(b);
      SweepWrap(b[..|b| - 1], e, deadLink);
      SweepOneWrap(SweepBuf(b[..|b| - 1], e, deadLink), b[|b| - 1], e, deadLink);
    }
  }

  // ----- receiver

  /** The 32-bit receiver keeps a data segment numbered `sn` just when it should, and does not acknowledge what is beyond its
      window: `FreshExactly`. Going round, a number already received must not look like one inside the window, nor one
      beyond the window like one inside or received. */
  predicate PushFresh(r: Rcv, sn: nat) {
    var d := Offset(sn, r.nxt);
    if sn < r.nxt then d >= r.wnd
    else sn < r.nxt + r.wnd || r.wnd <= d < 0x8000_0000 + r.wnd
  }

  /** The first test of `ikcp_input` on a data segment: whether it is acknowledged. */
  predicate Acknowledges(w: Width, r: Rcv, sn: nat) {
    Diff(w, sn, Add(w, r.nxt, r.wnd)) < 0
  }

  lemma Decisions(r: Rcv, sn: nat)
    requires r.wnd < 0x8000_0000
    ensures var d := Offset(sn, r.nxt);
            && (Acknowledges(W32, WrapRcv(r), U32(sn)) <==> d < r.wnd || d >= 0x8000_0000 + r.wnd)
            && (InWindow(W32, WrapRcv(r), U32(sn)) <==> d < r.wnd)
  {
    OffsetWrap(sn, r.nxt);
    BehindWindow(U32(sn), U32(r.nxt), r.wnd);
    WindowTest(W32, U32(sn), U32(r.nxt), r.wnd);
  }

  /** Freshness of a data segment is exactly that the decision to keep it is the one that unbounded numbers would give, and
      that nothing is acknowledged that is then dropped for being beyond the window. */
  lemma FreshExactly(r: Rcv, lim: nat, sn: nat)
    requires RcvOk(Exact, r, lim)
    ensures PushFresh(r, sn) <==>
            && (InWindow(W32, WrapRcv(r), U32(sn)) <==> InWindow(Exact, r, sn))
            && (Acknowledges(W32, WrapRcv(r), U32(sn)) ==> Acknowledges(Exact, r, sn))
  {
    Decisions(r, sn);
    if r.nxt <= sn < r.nxt + r.wnd {
      OffsetInside(sn, r.nxt);
    }
  }

  /** A stale or early segment is taken for one inside the window exactly when its number, going round, falls into it. */
  lemma MistakenExactly(r: Rcv, lim: nat, sn: nat)
    requires RcvOk(Exact, r, lim)
    ensures (InWindow(W32, WrapRcv(r), U32(sn)) <==> InWindow(Exact, r, sn)) <==>
            r.nxt <= sn < r.nxt + r.wnd || Offset(U32(sn), U32(r.nxt)) >= r.wnd
  {
    Decisions(r, sn);
    OffsetWrap(sn, r.nxt);
    if r.nxt <= sn < r.nxt + r.wnd {
      OffsetInside(sn, r.nxt);
    }
  }

  lemma {:induction false} DrainWrap(r: Rcv, lim: nat)
    requires RcvOk(Exact, r, lim)
    ensures Drain(W32, WrapRcv(r)) == WrapRcv(Drain(Exact, r))
    decreases |r.buf|
  {
    if r.buf != [] {
      WrapInjective(r.buf[0].sn, r.nxt);
      if CanTake(r) {
        TakeFrontKeeps(Exact, r, lim);
        DrainWrap(TakeFront(Exact, r), lim);
        WrapAdd(r.nxt, 1);
        WrapSegsTail(r.buf);
        assert TakeFront(W32, WrapRcv(r)) == WrapRcv(TakeFront(Exact, r));
      }
    }
  }

  lemma InsertSnoc(w: Width, init: seq<Seg>, last: Seg, seg: Seg)
    ensures Insert(w, init + [last], seg) ==
            if last.sn == seg.sn then init + [last]
            else if Diff(w, seg.sn, last.sn) > 0 then init + [last] + [seg]
            else Insert(w, init, seg) + [last]
  {
    assert (init + [last])[..|init|] == init;
  }

  lemma {:induction false} InsertWrap(b: seq<Seg>, seg: Seg, nxt: nat, lim: nat)
    requires Receiver.Ascending(Exact, b, nxt, lim) && lim <= 0x8000_0000 && nxt <= seg.sn < nxt + lim
    ensures Insert(W32, WrapSegs(b), WrapSeg(seg)) == WrapSegs(Insert(Exact, b, seg))
    decreases |b|
  {
    if b == [] {
      WrapSegsSnoc([], seg);
    } else {
      var init, last := b[..|b| - 1], b[|b| - 1];
      assert b == init + [last];
      DiffExact(seg.sn, last.sn);
      WrapInjective(seg.sn, last.sn);
      InsertWrap(init, seg, nxt, lim);
      InsertSnoc(Exact, init, last, seg);
      InsertSnoc(W32, WrapSegs(init), WrapSeg(last), WrapSeg(seg));
      WrapSegsSnoc(init, last);
      WrapSegsSnoc(b, seg);
      WrapSegsSnoc(Insert(Exact, init, seg), last);
    }
  }

  lemma ParseDataWrap(r: Rcv, lim: nat, seg: Seg)
    requires RcvOk(Exact, r, lim) && PushFresh(r, seg.sn)
    ensures ParseData(W32, WrapRcv(r), WrapSeg(seg)) == WrapRcv(ParseData(Exact, r, seg))
  {
    FreshExactly(r, lim, seg.sn);
    if InWindow(Exact, r, seg.sn) {
      InsertWrap(r.buf, seg, r.nxt, lim);
      InsertKeeps(Exact, r.buf, seg, r.nxt, lim);
      DrainWrap(r.(buf := Insert(Exact, r.buf, seg)), lim);
    }
  }

  lemma NotedWrap(r: Rcv, seg: Seg)
    ensures Acknowledges(W32, WrapRcv(r), U32(seg.sn)) ==>
              Noted(W32, WrapRcv(r), WrapSeg(seg)) == WrapRcv(Noted(Exact, r, seg))
    ensures !Acknowledges(W32, WrapRcv(r), U32(seg.sn)) ==> Noted(Exact, r, seg) == r
  {
    WrapAdd(r.nxt, r.wnd);
    assert WrapAcks(r.acks + [Ack(seg.sn, seg.ts)]) == WrapAcks(r.acks) + [Ack(U32(seg.sn), seg.ts)];
  }

  lemma RcvInputWrap(r: Rcv, lim: nat, seg: Seg)
    requires RcvOk(Exact, r, lim) && PushFresh(r, seg.sn)
    ensures RcvInput(W32, WrapRcv(r), WrapSeg(seg)) == WrapRcv(RcvInput(Exact, r, seg))
  {
    FreshExactly(r, lim, seg.sn);
    NotedWrap(r, seg);
    ParseDataWrap(Noted(Exact, r, seg), lim, seg);
  }

  lemma RecvWrap(r: Rcv, lim: nat, len: int)
    requires RcvOk(Exact, r, lim)
    ensures Recv(W32, WrapRcv(r), len) == Recv(Exact, r, len).(rcv := WrapRcv(Recv(Exact, r, len).rcv))
  {
    var n := RunLen(r.queue);
    var r1 := r.(queue := if len < 0 then r.queue else r.queue[n..]);
    DrainWrap(r1, lim);
  }

  // ----- one datagram

  /** The segment is not so old that the receiving endpoint misjudges it: each decision about it, on what its `una` removes,
      on whether the number it acknowledges is in flight, and on whether to keep its data, is the right one. */
  predicate FreshSeg(cb: Cb, seg: Seg) {
    && seg.una <= cb.snd.nxt && UnaFresh(cb.snd, seg.una)
    && (seg.cmd == CMD_ACK ==> seg.sn <= cb.snd.nxt && AckFresh(AfterUna(cb.snd, seg.una), seg.sn))
    && (seg.cmd == CMD_PUSH ==> PushFresh(cb.rcv, seg.sn))
  }

  /** `maxack` is updated just when it should. */
  predicate MarkFresh(m: Mark, seg: Seg) {
    seg.cmd == CMD_ACK && m.Newest? ==> (0 < Offset(seg.sn, m.sn) < 0x8000_0000 <==> seg.sn > m.sn)
  }

  predicate FreshSegs(cb: Cb, segs: seq<Seg>) {
    segs == [] ||
    var init, last := segs[..|segs| - 1], segs[|segs| - 1];
    FreshSegs(cb, init) && FreshSeg(InputAll(Exact, cb, init), last) && MarkFresh(MarkAll(Exact, init), last)
  }

  /** A datagram every segment of which is fresh, and whose newest acknowledgement still is at the end. */
  predicate FreshDatagram(cb: Cb, segs: seq<Seg>) {
    && FreshSegs(cb, segs)
    && (MarkAll(Exact, segs).Newest? ==> AckFresh(InputAll(Exact, cb, segs).snd, MarkAll(Exact, segs).sn))
  }

  lemma InputOneWrap(cb: Cb, lim: nat, seg: Seg)
    requires CbOk(Exact, cb, lim) && FreshSeg(cb, seg)
    ensures InputOne(W32, WrapCb(cb), WrapSeg(seg)) == WrapCb(InputOne(Exact, cb, seg))
  {
    SndInputWrap(cb.snd, seg);
    if seg.cmd == CMD_PUSH {
      RcvInputWrap(cb.rcv, lim, seg);
    }
  }

  lemma {:induction false} InputAllWrap(cb: Cb, lim: nat, segs: seq<Seg>)
    requires CbOk(Exact, cb, lim) && FreshSegs(cb, segs)
    ensures InputAll(W32, WrapCb(cb), WrapSegs(segs)) == WrapCb(InputAll(Exact, cb, segs))
  {
    if segs != [] {
      var init, last := segs[..|segs| - 1], segs[|segs| - 1];
      WrapSegsInit(segs);
      InputAllWrap(cb, lim, init);
      assert NumeralSegs(Exact, init);
      InputAllOk(Exact, cb, lim, init);
      InputOneWrap(InputAll(Exact, cb, init), lim, last);
    }
  }

  function WrapMark(m: Mark): Mark {
    if m.Newest? then Newest(U32(m.sn)) else NoAck
  }

  lemma {:induction false} MarkAllWrap(cb: Cb, lim: nat, segs: seq<Seg>)
    requires CbOk(Exact, cb, lim) && FreshSegs(cb, segs)
    ensures MarkAll(W32, WrapSegs(segs)) == WrapMark(MarkAll(Exact, segs))
    ensures MarkAll(Exact, segs).Newest? ==> MarkAll(Exact, segs).sn <= cb.snd.nxt
  {
    if segs != [] {
      var init, last := segs[..|segs| - 1], segs[|segs| - 1];
      WrapSegsInit(segs);
      MarkAllWrap(cb, lim, init);
      assert NumeralSegs(Exact, init);
      InputAllOk(Exact, cb, lim, init);
      var m := MarkAll(Exact, init);
      if last.cmd == CMD_ACK && m.Newest? {
        DiffPositive(last.sn, m.sn);
      }
    }
  }

  lemma FinishWrap(cb: Cb, lim: nat, prevUna: nat, m: Mark)
    requires CbOk(Exact, cb, lim) && (m.Newest? ==> m.sn <= cb.snd.nxt && AckFresh(cb.snd, m.sn)) && Near(prevUna, cb.snd.nxt)
    ensures FinishInput(W32, WrapCb(cb), U32(prevUna), WrapMark(m)) == WrapCb(FinishInput(Exact, cb, prevUna, m))
  {
    SndNear(cb.snd);
    NearDiff(cb.snd.una, prevUna, cb.snd.nxt);
    if m.Newest? {
      ParseAckWrap(cb.snd, m.sn);
    }
  }

  lemma InputSegsWrap(cb: Cb, lim: nat, segs: seq<Seg>)
    requires CbOk(Exact, cb, lim) && FreshDatagram(cb, segs)
    ensures InputSegs(W32, WrapCb(cb), WrapSegs(segs)) == WrapCb(InputSegs(Exact, cb, segs))
  {
    InputAllWrap(cb, lim, segs);
    MarkAllWrap(cb, lim, segs);
    assert NumeralSegs(Exact, segs);
    InputAllOk(Exact, cb, lim, segs);
    SndNear(cb.snd);
    FinishWrap(InputAll(Exact, cb, segs), lim, cb.snd.una, MarkAll(Exact, segs));
  }

  // ----- one flush

  lemma {:induction false} AckSegsWrap(h: Seg, acks: seq<Ack>)
    ensures AckSegs(WrapSeg(h), WrapAcks(acks)) == WrapSegs(AckSegs(h, acks))
  {
    AckSegsAre(h, acks);
    AckSegsAre(WrapSeg(h), WrapAcks(acks));
  }

  lemma ControlSegsWrap(cb: Cb)
    ensures ControlSegs(WrapCb(cb)) == WrapSegs(ControlSegs(cb))
  {
    var h, acks := Template(cb), cb.rcv.acks;
    assert Template(WrapCb(cb)) == WrapSeg(h);
    AckSegsWrap(h, acks);
    var p := ProbeTick(cb.probe, cb.rmtWnd, cb.clock.current);
    assert LastHeader(WrapSeg(h), WrapAcks(acks)) == WrapSeg(LastHeader(h, acks));
    assert ProbeSegs(p, WrapSeg(LastHeader(h, acks))) == WrapSegs(ProbeSegs(p, LastHeader(h, acks)));
    WrapSegsConcat(AckSegs(h, acks), ProbeSegs(p, LastHeader(h, acks)));
  }

  lemma MovedWrap(cb: Cb, lim: nat)
    requires CbOk(Exact, cb, lim)
    ensures Moved(W32, WrapCb(cb)) == WrapSnd(Moved(Exact, cb))
    ensures Swept(W32, WrapCb(cb)) == WrapSweep(Swept(Exact, cb))
  {
    assert Env(WrapCb(cb)) == WrapEnv(Env(cb));
    assert Window(WrapCb(cb)) == Window(cb);
    MoveToBufWrap(cb.snd, Env(cb), Window(cb));
    SweepWrap(Moved(Exact, cb).buf, Env(cb), cb.conf.deadLink);
  }

  lemma InflightWrap(s: Snd)
    ensures InflightOf(W32, WrapSnd(s)) == InflightOf(Exact, s)
  {
    Congruent(U32(s.nxt) as int - U32(s.una), s.nxt - s.una, s.una / 0x1_0000_0000 - s.nxt / 0x1_0000_0000);
  }

  lemma FlushWrap(cb: Cb, lim: nat)
    requires CbOk(Exact, cb, lim)
    ensures DoFlush(W32, WrapCb(cb)) == WrapCb(DoFlush(Exact, cb))
    ensures FlushSegs(W32, WrapCb(cb)) == WrapSegs(FlushSegs(Exact, cb))
  {
    MovedWrap(cb, lim);
    InflightWrap(Moved(Exact, cb));
    ControlSegsWrap(cb);
    WrapSegsConcat(ControlSegs(cb), Swept(Exact, cb).out);
  }

  // ----- packing

  function WrapNet(ds: seq<seq<Seg>>): (t: seq<seq<Seg>>)
    ensures |t| == |ds| && forall i :: 0 <= i < |ds| ==> t[i] == WrapSegs(ds[i])
  {
    seq(|ds|, i requires 0 <= i < |ds| => WrapSegs(ds[i]))
  }

  lemma WrapNetConcat(a: seq<seq<Seg>>, b: seq<seq<Seg>>)
    ensures WrapNet(a + b) == WrapNet(a) + WrapNet(b)
  {
  }

  lemma {:induction false} SizeWrap(segs: seq<Seg>)
    ensures Size(WrapSegs(segs)) == Size(segs)
  {
    if segs != [] {
      WrapSegsTail(segs);
      SizeWrap(segs[1..]);
    }
  }

  function WrapPacking(p: Packing): Packing {
    Packing(WrapNet(p.full), WrapSegs(p.pending))
  }

  lemma CloseWrap(p: Packing)
    ensures Close(WrapPacking(p)) == WrapNet(Close(p))
  {
    SizeWrap(p.pending);
    WrapNetConcat(p.full, [p.pending]);
    assert WrapNet([p.pending]) == [WrapSegs(p.pending)];
  }

  lemma PackOneWrap(mtu: nat, p: Packing, s: Seg)
    ensures PackOne(mtu, WrapPacking(p), WrapSeg(s)) == WrapPacking(PackOne(mtu, p, s))
  {
    SizeWrap(p.pending);
    CloseWrap(p);
    WrapSegsSnoc(p.pending, s);
    WrapSegsSnoc([], s);
  }

  lemma {:induction false} PackAllWrap(mtu: nat, segs: seq<Seg>)
    ensures PackAll(mtu, WrapSegs(segs)) == WrapPacking(PackAll(mtu, segs))
  {
    if segs == [] {
      assert WrapNet([]) == [];
    } else {
      WrapSegsInit(segs);
      PackAllWrap(mtu, segs[..|segs| - 1]);
      PackOneWrap(mtu, PackAll(mtu, segs[..|segs| - 1]), segs[|segs| - 1]);
    }
  }

  lemma PackWrap(mtu: nat, segs: seq<Seg>)
    ensures Pack(mtu, WrapSegs(segs)) == WrapNet(Pack(mtu, segs))
  {
    PackAllWrap(mtu, segs);
    CloseWrap(PackAll(mtu, segs));
  }
}
