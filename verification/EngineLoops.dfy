/** One turn of each loop of the engine, seen from the recursive function the loop computes. */
module EngineLoops {
  import opened Seqs
  import opened Serial
  import opened Wire
  import opened Fragments
  import opened Sender
  import opened Receiver
  import opened Congestion
  import opened ControlBlock
  import opened Invariant

  lemma RunStep(q: seq<Frag>, i: nat)
    requires i < |q|
    ensures Join(q[..i + 1]) == Join(q[..i]) + q[i].data
    ensures RunLen(q[i..]) == if q[i].frg == 0 then 1 else 1 + RunLen(q[i + 1..])
  {
    JoinSnoc(q[..i], q[i]);
    assert q[..i + 1] == q[..i] + [q[i]];
    assert q[i..][1..] == q[i + 1..];
  }

  lemma TailOf<T>(b: seq<T>, i: nat)
    requires i < |b|
    ensures b[i..] != [] && b[i..][0] == b[i] && b[i..][1..] == b[i + 1..]
    ensures b[..i + 1] == b[..i] + [b[i]] && b[..i] + b[i..] == b && [b[i]] + b[i + 1..] == b[i..]
  {
  }

  /** The walk of `ikcp_parse_ack` over `b` at position `i`. */
  lemma RemoveAckedStep(b: seq<Sent>, i: nat, sn: nat)
    requires i < |b|
    requires RemoveAcked(W32, b, sn) == b[..i] + RemoveAcked(W32, b[i..], sn)
    ensures RemoveAcked(W32, b, sn) ==
            if sn == b[i].seg.sn then b[..i] + b[i + 1..]
            else if Diff(W32, sn, b[i].seg.sn) < 0 then b
            else b[..i + 1] + RemoveAcked(W32, b[i + 1..], sn)
  {
    TailOf(b, i);
    Assoc(b[..i], [b[i]], RemoveAcked(W32, b[i + 1..], sn));
  }

  lemma ReplaceFront(done: seq<Sent>, b: seq<Sent>, i: nat, y: Sent)
    requires |done| == i < |b|
    ensures (done + b[i..])[i] == b[i]
    ensures (done + b[i..])[i := y] == done + [y] + b[i + 1..]
  {
  }

  /** The walk of `ikcp_parse_fastack` over `b` has counted the entries in front of position `done`. */
  predicate Overtaking(b: seq<Sent>, sn: nat, done: seq<Sent>, now: seq<Sent>) {
    && |done| <= |b| && now == done + b[|done|..]
    && CountSkipped(W32, b, sn) == done + CountSkipped(W32, b[|done|..], sn)
  }

  lemma OvertakingStep(b: seq<Sent>, sn: nat, done: seq<Sent>, now: seq<Sent>)
    requires |done| < |b|
    requires var walking := Overtaking(b, sn, done, now); walking
    ensures |now| == |b|
    ensures var i := |done|; var x := now[i]; var y := if sn != x.seg.sn then Skip(x) else x;
            if Diff(W32, sn, x.seg.sn) < 0 then CountSkipped(W32, b, sn) == now
            else Overtaking(b, sn, done + [y], now[i := y])
  {
    var i := |done|;
    var x := b[i];
    var y := if sn != x.seg.sn then Skip(x) else x;
    TailOf(b, i);
    if Diff(W32, sn, x.seg.sn) >= 0 {
      ReplaceFront(done, b, i, y);
      Assoc(done, [y], CountSkipped(W32, b[i + 1..], sn));
    }
  }

  lemma OvertakingDone(b: seq<Sent>, sn: nat, done: seq<Sent>, now: seq<Sent>)
    requires |done| == |b|
    requires var walking := Overtaking(b, sn, done, now); walking
    ensures CountSkipped(W32, b, sn) == now
  {
  }

  lemma SplitWhole<T>(b: seq<T>, p: nat)
    requires p <= |b|
    ensures b[..p] + b[p..] == b
  {
  }

  lemma InsertStep(b: seq<Seg>, p: nat, seg: Seg)
    requires 0 < p <= |b|
    requires Insert(W32, b, seg) == Insert(W32, b[..p], seg) + b[p..]
    ensures var x := b[p - 1];
            Insert(W32, b, seg) ==
            if x.sn == seg.sn then b
            else if Diff(W32, seg.sn, x.sn) > 0 then b[..p] + [seg] + b[p..]
            else Insert(W32, b[..p - 1], seg) + b[p - 1..]
  {
    TailOf(b, p - 1);
    assert b[..p][..p - 1] == b[..p - 1];
    SplitWhole(b, p);
    Assoc(Insert(W32, b[..p - 1], seg), [b[p - 1]], b[p..]);
  }

  lemma InputSnoc(cb: Cb, done: seq<Seg>, seg: Seg)
    ensures InputAll(W32, cb, done + [seg]) == InputOne(W32, InputAll(W32, cb, done), seg)
    ensures MarkAll(W32, done + [seg]) == MarkOne(W32, MarkAll(W32, done), seg)
  {
    assert (done + [seg])[..|done|] == done;
  }

  /** The segments of `data` are those `done` and then those of `rest`. */
  predicate ParsedUpTo(conv: u32, data: Bytes, done: seq<Seg>, rest: Bytes) {
    Parse(conv, data) == Parsed(done + Parse(conv, rest).segs, Parse(conv, rest).code)
  }

  /** The first segment of `rest` is well-formed. */
  predicate AcceptsFirst(conv: u32, rest: Bytes)
    requires |rest| >= OVERHEAD
  {
    UnLe(rest[0..4]) == conv && |rest| - OVERHEAD >= DecodeLen(rest) && DecodeLen(rest) < 0x8000_0000 &&
    KnownCmd(DecodeSeg(rest).cmd)
  }

  lemma ParseStep(conv: u32, data: Bytes, done: seq<Seg>, rest: Bytes)
    requires |rest| >= OVERHEAD && AcceptsFirst(conv, rest) && ParsedUpTo(conv, data, done, rest)
    ensures ParsedUpTo(conv, data, done + [DecodeSeg(rest)], rest[OVERHEAD + |DecodeSeg(rest).data|..])
  {
    Assoc(done, [DecodeSeg(rest)], Parse(conv, rest[OVERHEAD + DecodeLen(rest)..]).segs);
  }

  lemma ParseStops(conv: u32, data: Bytes, done: seq<Seg>, rest: Bytes)
    requires ParsedUpTo(conv, data, done, rest) && Parse(conv, rest).segs == []
    ensures Parse(conv, data) == Parsed(done, Parse(conv, rest).code)
  {
    assert done + [] == done;
  }

  lemma {:induction false} ParseCode(conv: u32, data: Bytes)
    ensures -3 <= Parse(conv, data).code <= 0
    decreases |data|
  {
    if Parse(conv, data).segs != [] {
      ParseCode(conv, data[OVERHEAD + DecodeLen(data)..]);
    }
  }

  // ----- output

  lemma HeaderBuilt(front: Bytes, s: Seg)
    ensures front + Le(s.conv, 4) + Le(s.cmd, 1) + Le(s.frg, 1) + Le(s.wnd, 2) + Le(s.ts, 4) + Le(s.sn, 4) +
            Le(s.una, 4) + Le(|s.data|, 4) == front + EncodeHeader(s)
  {
    var h2 := Le(s.conv, 4) + Le(s.cmd, 1);
    var h4 := h2 + Le(s.frg, 1) + Le(s.wnd, 2);
    var h6 := h4 + Le(s.ts, 4) + Le(s.sn, 4);
    Assoc(front, Le(s.conv, 4), Le(s.cmd, 1));
    Assoc(front, h2, Le(s.frg, 1));
    Assoc(front, h2 + Le(s.frg, 1), Le(s.wnd, 2));
    Assoc(front, h4, Le(s.ts, 4));
    Assoc(front, h4 + Le(s.ts, 4), Le(s.sn, 4));
    Assoc(front, h6, Le(s.una, 4));
    Assoc(front, h6 + Le(s.una, 4), Le(|s.data|, 4));
  }

  /** What packing one more segment does to the output and to the buffer. */
  lemma EmitStep(mtu: nat, segs: seq<Seg>, seg: Seg)
    ensures var p := PackAll(mtu, segs);
            var p' := PackAll(mtu, segs + [seg]);
            if Size(p.pending) + OVERHEAD + |seg.data| > mtu then
              && EncodeSegs(p'.pending) == EncodeSeg(seg)
              && EncodeAll(p'.full) == EncodeAll(p.full) + if Size(p.pending) > 0 then [EncodeSegs(p.pending)] else []
            else
              EncodeSegs(p'.pending) == EncodeSegs(p.pending) + EncodeSeg(seg) && p'.full == p.full
  {
    assert (segs + [seg])[..|segs|] == segs;
    var p := PackAll(mtu, segs);
    EncodeSegsSnoc(p.pending, seg);
    EncodeSegsSnoc([], seg);
    assert [] + [seg] == [seg];
    EncodeAllSnoc(p.full, p.pending);
  }

  lemma AckSegsStep(h: Seg, acks: seq<Ack>, i: nat)
    requires i < |acks|
    ensures AckSegs(h, acks[..i + 1]) == AckSegs(h, acks[..i]) + [AckSeg(h, acks[i])]
    ensures LastHeader(h, acks[..i + 1]) == AckSeg(h, acks[i])
            == LastHeader(h, acks[..i]).(sn := acks[i].sn, ts := acks[i].ts)
  {
    assert acks[..i + 1][..i] == acks[..i];
  }

  /** The state `s` of the sending half after `i` turns of the transmission loop that started in `s0`. */
  predicate SweepAt(s0: Snd, i: nat, e: FlushEnv, deadLink: u32, t: Sweep, s: Snd) {
    i <= |s0.buf| && t == SweepBuf(s0.buf[..i], e, deadLink) && |t.buf| == i && s == s0.(buf := t.buf + s0.buf[i..])
  }

  lemma SweepStart(s0: Snd, x0: u32, e: FlushEnv, deadLink: u32, segs: seq<Seg>)
    ensures SweepAt(s0, 0, e, deadLink, SweepBuf([], e, deadLink), s0)
    ensures segs + SweepBuf([], e, deadLink).out == segs
  {
    assert s0.buf[..0] == [] && [] + s0.buf[0..] == s0.buf;
  }

  lemma SweepAtEntry(s0: Snd, i: nat, e: FlushEnv, deadLink: u32, t: Sweep, s: Snd)
    requires i < |s0.buf|
    requires var sweeps := SweepAt(s0, i, e, deadLink, t, s); sweeps
    ensures |s.buf| == |s0.buf| && s.buf[i] == s0.buf[i]
  {
  }

  lemma SweepAtStep(s0: Snd, i: nat, e: FlushEnv, deadLink: u32, t: Sweep, s: Snd, segs: seq<Seg>, y: Sent, cause: Cause)
    requires i < |s0.buf|
    requires var sweeps := SweepAt(s0, i, e, deadLink, t, s); sweeps
    requires y == FlushOne(s0.buf[i], e) && cause == CauseOf(s0.buf[i], e)
    ensures i < |s.buf| && SweepAt(s0, i + 1, e, deadLink, SweepWith(t, y, cause, deadLink), s.(buf := s.buf[i := y]))
    ensures segs + SweepWith(t, y, cause, deadLink).out ==
            if cause == Hold then segs + t.out else segs + t.out + [y.seg]
  {
    assert s0.buf[..i + 1][..i] == s0.buf[..i];
    ReplaceFront(t.buf, s0.buf, i, y);
    Assoc(segs, t.out, [y.seg]);
  }

  /** The counter of timeouts after one entry. */
  predicate CountedOne(x: u32, x': u32, cause: Cause) {
    x' == if cause == Timeout then U32(x + 1) else x
  }

  lemma CountTurn(x0: u32, t: Sweep, y: Sent, cause: Cause, deadLink: u32, x: u32, x': u32)
    requires x == CountUp(x0, t.timeouts)
    requires var counted := CountedOne(x, x', cause); counted
    ensures var t' := SweepWith(t, y, cause, deadLink);
            && x' == CountUp(x0, t'.timeouts)
            && (t'.timeouts > 0) == (t.timeouts > 0 || cause == Timeout) && t'.fast == (t.fast || cause == FastResend)
            && t'.dead == (t.dead || (cause != Hold && y.xmit >= deadLink))
  {
  }

  lemma SweepDone(s0: Snd, e: FlushEnv, deadLink: u32, t: Sweep, s: Snd)
    requires SweepAt(s0, |s0.buf|, e, deadLink, t, s)
    ensures t == SweepBuf(s0.buf, e, deadLink) && s == s0.(buf := t.buf)
  {
    assert s0.buf[..|s0.buf|] == s0.buf && t.buf + s0.buf[|s0.buf|..] == t.buf;
  }

  /** The last datagram. */
  lemma CloseOut(mtu: nat, segs: seq<Seg>)
    ensures var p := PackAll(mtu, segs);
            EncodeAll(Pack(mtu, segs)) == EncodeAll(p.full) + if Size(p.pending) > 0 then [EncodeSegs(p.pending)] else []
  {
    var p := PackAll(mtu, segs);
    EncodeAllSnoc(p.full, p.pending);
  }

  /** What the control part of a flush makes of the receiving side and the probes. */
  ghost predicate ControlSent(cb: Cb, r: Rcv, p: Probe) {
    r == cb.rcv.(acks := []) && p == ProbeTick(cb.probe, cb.rmtWnd, cb.clock.current).(ask := false, tell := false)
  }

  lemma ControlLeaves(cb: Cb, r: Rcv, p: Probe)
    requires var sent := ControlSent(cb, r, p); sent
    ensures r.queue == cb.rcv.queue && r.buf == cb.rcv.buf
  {
  }

  /** What the data part of a flush makes of the sending side; `lost` and `fast` say why it retransmitted. */
  ghost predicate DataSent(cb: Cb, s: Snd, xmit: u32, dead: bool, lost: bool, fast: bool)
    requires cb.conf.Ok()
  {
    var t := Swept(W32, cb);
    && s == Moved(W32, cb).(buf := t.buf) && lost == (t.timeouts > 0) && fast == t.fast
    && xmit == CountUp(cb.xmit, t.timeouts) && dead == (cb.dead || t.dead)
  }

  /** `cb'` is `cb` after everything a flush does but closing the congestion window. */
  ghost predicate AllSent(cb: Cb, cb': Cb, lost: bool, fast: bool)
    requires cb.conf.Ok()
  {
    && ControlSent(cb, cb'.rcv, cb'.probe) && DataSent(cb, cb'.snd, cb'.xmit, cb'.dead, lost, fast)
    && cb'.conf == cb.conf && cb'.rtt == cb.rtt && cb'.cong == cb.cong && cb'.clock == cb.clock && cb'.rmtWnd == cb.rmtWnd
  }

  lemma AllSentParts(cb: Cb, cb': Cb, lost: bool, fast: bool)
    requires var ok := cb.conf.Ok(); ok
    requires var control := ControlSent(cb, cb'.rcv, cb'.probe); control
    requires var data := DataSent(cb, cb'.snd, cb'.xmit, cb'.dead, lost, fast); data
    requires var same := cb' == cb.(snd := cb'.snd, rcv := cb'.rcv, probe := cb'.probe, xmit := cb'.xmit, dead := cb'.dead);
             same
    ensures AllSent(cb, cb', lost, fast)
  {
  }

  lemma FlushAssembled(cb: Cb, cb': Cb, lost: bool, fast: bool)
    requires cb.conf.Ok() && cb.clock.updated
    requires var sent := AllSent(cb, cb', lost, fast); sent
    ensures cb'.conf == cb.conf && cb'.cong == cb.cong
    ensures DoFlush(W32, cb) ==
            cb'.(cong := AfterFlush(cb.cong, fast, lost, U32(cb'.snd.nxt - cb'.snd.una), Env(cb).resent, Window(cb),
                                    cb.conf.Mss()))
  {
  }

  lemma TickedOk(cb: Cb, lim: nat, now: u32)
    requires CbOk(W32, cb, lim)
    ensures CbOk(W32, Ticked(cb, now), lim)
  {
  }

  /** `ikcp_check` answers at once: never flushed, due, or too far off. */
  predicate AnswersNow(c: Clock, now: u32) {
    !c.updated || Since(now, c.flush) >= 0 || Since(now, c.flush) < -10000
  }

  lemma CheckAtOnce(cb: Cb, now: u32)
    requires AnswersNow(cb.clock, now) || NextResend(cb.snd.buf, now) == 0
    ensures DoCheck(cb, now) == now
  {
    if !AnswersNow(cb.clock, now) {
      CheckAhead(cb, now);
      AheadOrAtOnce(now, cb.clock.flush);
    }
  }

  lemma AheadOrAtOnce(now: u32, flush: u32)
    requires -10000 <= Since(now, flush) < 0
    ensures Since(flush, now) > 0
  {
  }

  lemma CheckAhead(cb: Cb, now: u32)
    requires !AnswersNow(cb.clock, now)
    ensures var packet := NextResend(cb.snd.buf, now);
            DoCheck(cb, now) == U32(now + Min(Min(packet, Since(cb.clock.flush, now)), cb.clock.interval))
  {
  }

  lemma {:induction false} NextResendZero(buf: seq<Sent>, i: nat, now: u32)
    requires i < |buf| && Since(buf[i].resendts, now) <= 0
    ensures NextResend(buf, now) == 0
  {
    if i < |buf| - 1 {
      NextResendZero(buf[..|buf| - 1], i, now);
    }
  }
}
