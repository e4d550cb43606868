/** What one `ikcp_flush` does, told by the state before, the state after and the segments handed to the output: which
    entries are sent, how they are stamped and rescheduled, which acknowledgements go out, and what becomes of the congestion
    window. Nothing here mentions how the flush goes about it. */
module Emission {
  import opened Seqs
  import opened Serial
  import opened Wire
  import opened Fragments
  import opened Sender
  import opened SendWindow
  import opened Receiver
  import opened Estimator
  import opened Congestion
  import opened ControlBlock
  import opened Invariant

  // ----- the rules

  /** How many segments the receive queue can still take, as a header says it. */
  function Room(r: Rcv): u16 {
    if |r.queue| < r.wnd then (r.wnd - |r.queue|) % 0x1_0000 else 0
  }

  /** Every header of the flush carries the conversation, the room left and the number received next. */
  predicate HeaderNow(cb: Cb, s: Seg) {
    s.conv == cb.conf.conv && s.wnd == Room(cb.rcv) && s.una == cb.rcv.nxt
  }

  predicate HeadersNow(cb: Cb, segs: seq<Seg>) {
    forall j :: 0 <= j < |segs| ==> HeaderNow(cb, segs[j])
  }

  predicate TimedOut(cb: Cb, x: Sent) {
    x.xmit != 0 && Since(cb.clock.current, x.resendts) >= 0
  }

  /** How often an entry must be overtaken to be resent early; 0 switches early resending off. */
  function EarlyCount(conf: Conf): u32 {
    if conf.fastresend > 0 then conf.fastresend else 0xFFFF_FFFF
  }

  /** Overtaken often enough to be resent early, and not yet resent too often. */
  predicate Overtaken(cb: Cb, x: Sent) {
    && x.fastack >= EarlyCount(cb.conf)
    && (I32(x.xmit) <= cb.conf.fastlimit || cb.conf.fastlimit <= 0)
  }

  predicate SentEarly(cb: Cb, x: Sent) {
    x.xmit != 0 && !TimedOut(cb, x) && Overtaken(cb, x)
  }

  predicate MustSend(cb: Cb, x: Sent) {
    x.xmit == 0 || TimedOut(cb, x) || SentEarly(cb, x)
  }

  /** The additional patience before the first deadline. */
  function Grace(cb: Cb): nat {
    if cb.conf.nodelay == 0 then cb.rtt.rto / 8 else 0
  }

  /** What a timeout adds to the retransmission timeout: at least all of it, or half of it, or half of `rx_rto`. */
  function BackedOff(cb: Cb, rto: u32): int {
    if cb.conf.nodelay == 0 then rto + Max(rto, cb.rtt.rto)
    else rto + TruncDiv(if cb.conf.nodelay == 1 then I32(rto) else cb.rtt.rto, 2)
  }

  /** `y` is `x` after it has been sent: the same segment stamped anew, with a deadline from now on. */
  predicate Restamped(cb: Cb, x: Sent, y: Sent) {
    && y.seg == x.seg.(ts := cb.clock.current, wnd := Room(cb.rcv), una := cb.rcv.nxt)
    && y.xmit == U32(x.xmit + 1)
    && y.fastack == (if SentEarly(cb, x) then 0 else x.fastack)
    && y.rto == (if x.xmit == 0 then cb.rtt.rto else if TimedOut(cb, x) then U32(BackedOff(cb, x.rto)) else x.rto)
    && y.resendts == U32(cb.clock.current + y.rto + if x.xmit == 0 then Grace(cb) else 0)
  }

  /** The entry made of a fragment that is sent for the first time, under number `sn`. */
  function Newborn(cb: Cb, f: Frag, sn: nat): Sent {
    Sent(Seg(cb.conf.conv, CMD_PUSH, f.frg, Room(cb.rcv), cb.clock.current, sn, cb.rcv.nxt, f.data),
         U32(cb.clock.current + cb.rtt.rto + Grace(cb)), cb.rtt.rto, 0, 1)
  }

  /** The buffer afterwards: entries that must be sent are restamped, all others untouched; behind them come those numbered
      now, made of the front of the queue. */
  predicate BufferRight(w: Width, cb: Cb, s': Snd) {
    var n := |cb.snd.buf|;
    && n <= |s'.buf| <= n + |cb.snd.queue|
    && s'.una == cb.snd.una && s'.nxt == Add(w, cb.snd.nxt, |s'.buf| - n) && s'.queue == cb.snd.queue[|s'.buf| - n..]
    && OldRight(cb, s'.buf) && NewRight(w, cb, s'.buf)
  }

  predicate OldRight(cb: Cb, buf: seq<Sent>)
    requires |cb.snd.buf| <= |buf|
  {
    forall i :: 0 <= i < |cb.snd.buf| ==>
      if MustSend(cb, cb.snd.buf[i]) then Restamped(cb, cb.snd.buf[i], buf[i]) else buf[i] == cb.snd.buf[i]
  }

  predicate NewRight(w: Width, cb: Cb, buf: seq<Sent>)
    requires |cb.snd.buf| <= |buf| <= |cb.snd.buf| + |cb.snd.queue|
  {
    forall i :: 0 <= i < |buf| - |cb.snd.buf| ==>
      buf[|cb.snd.buf| + i] == Newborn(cb, cb.snd.queue[i], Add(w, cb.snd.nxt, i))
  }

  /** The `i`-th entry of the buffer after the flush is one that has been sent by it. */
  predicate IsSent(cb: Cb, i: nat) {
    i >= |cb.snd.buf| || MustSend(cb, cb.snd.buf[i])
  }

  /** The data segments handed to the output are exactly the entries that must be sent, as stamped. */
  ghost predicate PushesRight(cb: Cb, s': Snd, segs: seq<Seg>) {
    && (forall i :: 0 <= i < |s'.buf| && IsSent(cb, i) ==> s'.buf[i].seg in segs)
    && (forall j :: 0 <= j < |segs| && segs[j].cmd == CMD_PUSH ==>
          exists i :: 0 <= i < |s'.buf| && IsSent(cb, i) && segs[j] == s'.buf[i].seg)
  }

  /** One acknowledgement for each pair of `acklist`, in order, and no other. */
  predicate AcksRight(cb: Cb, segs: seq<Seg>) {
    && |cb.rcv.acks| <= |segs|
    && (forall i :: 0 <= i < |cb.rcv.acks| ==>
          segs[i] == Seg(cb.conf.conv, CMD_ACK, 0, Room(cb.rcv), cb.rcv.acks[i].ts, cb.rcv.acks[i].sn, cb.rcv.nxt, []))
    && (forall i :: |cb.rcv.acks| <= i < |segs| ==> segs[i].cmd != CMD_ACK)
  }

  ghost predicate SomeTimedOut(cb: Cb) {
    exists i :: 0 <= i < |cb.snd.buf| && TimedOut(cb, cb.snd.buf[i])
  }

  ghost predicate SomeSentEarly(cb: Cb) {
    exists i :: 0 <= i < |cb.snd.buf| && SentEarly(cb, cb.snd.buf[i])
  }

  /** How many entries have timed out. */
  function Expired(cb: Cb, buf: seq<Sent>): nat {
    if buf == [] then 0 else Expired(cb, buf[..|buf| - 1]) + if TimedOut(cb, buf[|buf| - 1]) then 1 else 0
  }

  /** The window the peer, the configuration and, unless it is off, congestion control leave. */
  function Allowed(cb: Cb): nat {
    var wnd := Min(cb.conf.sndWnd, cb.rmtWnd);
    if cb.conf.nocwnd then wnd else Min(cb.cong.cwnd, wnd)
  }

  /** A timeout closes the window to one segment and halves the threshold; an early resend halves what is in flight; with
      neither the window stays, but is at least one segment. */
  ghost predicate CongestionRight(w: Width, cb: Cb, s': Snd, c': Cong)
    requires cb.conf.Ok()
  {
    if SomeTimedOut(cb) then c' == Cong(1, U32(cb.conf.Mss()), Max(THRESH_MIN, Allowed(cb) / 2))
    else if SomeSentEarly(cb) then
      var thresh := Max(THRESH_MIN, U32(s'.nxt - s'.una) / 2);
      c' == AtLeastOne(U32(thresh + EarlyCount(cb.conf)), thresh, cb.conf.Mss())
    else if cb.cong.cwnd < 1 then c' == Cong(1, U32(cb.conf.Mss()), cb.cong.ssthresh)
    else c' == cb.cong
  }

  /** A window of that many segments, but of at least one. */
  function AtLeastOne(cwnd: u32, thresh: u32, mss: nat): Cong {
    Cong(Max(1, cwnd), U32(Max(1, cwnd) * mss), thresh)
  }

  /** The link is dead once an entry has been sent `dead_link` times. */
  ghost predicate DeathRight(cb: Cb, cb': Cb) {
    cb'.dead <==> cb.dead ||
                  exists i :: 0 <= i < |cb'.snd.buf| && IsSent(cb, i) && cb'.snd.buf[i].xmit >= cb.conf.deadLink
  }

  /** The counters, the flags and what a flush leaves alone. */
  ghost predicate RestRight(cb: Cb, cb': Cb) {
    && DeathRight(cb, cb') && cb'.xmit == U32(cb.xmit + Expired(cb, cb.snd.buf))
    && cb'.rcv == cb.rcv.(acks := []) && !cb'.probe.ask && !cb'.probe.tell
    && cb'.conf == cb.conf && cb'.rtt == cb.rtt && cb'.clock == cb.clock && cb'.rmtWnd == cb.rmtWnd
  }

  /** All of it. Before the first `ikcp_update` a flush does nothing at all. */
  ghost predicate FlushRight(w: Width, cb: Cb, cb': Cb, segs: seq<Seg>)
    requires cb.conf.Ok()
  {
    if cb.clock.updated then
      && HeadersNow(cb, segs) && AcksRight(cb, segs) && PushesRight(cb, cb'.snd, segs)
      && BufferRight(w, cb, cb'.snd)
      && CongestionRight(w, cb, cb'.snd, cb'.cong)
      && RestRight(cb, cb')
    else segs == [] && cb' == cb
  }

  // ----- one entry

  lemma BackOffIs(cb: Cb, rto: u32)
    requires TimersOk(cb)
    ensures BackOff(rto, cb.rtt.rto, cb.conf.nodelay) == U32(BackedOff(cb, rto))
  {
    Small(cb.rtt.rto);
  }

  lemma CauseIs(cb: Cb, x: Sent)
    ensures CauseOf(x, Env(cb)) == Timeout <==> TimedOut(cb, x)
    ensures CauseOf(x, Env(cb)) == FastResend <==> SentEarly(cb, x)
    ensures CauseOf(x, Env(cb)) == Hold <==> !MustSend(cb, x)
  {
  }

  lemma EntryRight(cb: Cb, x: Sent)
    requires TimersOk(cb)
    ensures var y := FlushOne(x, Env(cb)); if MustSend(cb, x) then Restamped(cb, x, y) else y == x
  {
    BackOffIs(cb, x.rto);
  }

  lemma NewbornRight(cb: Cb, f: Frag, sn: nat)
    requires TimersOk(cb)
    ensures FlushOne(Number(Env(cb), f, sn), Env(cb)) == Newborn(cb, f, sn)
    ensures MustSend(cb, Number(Env(cb), f, sn)) && !TimedOut(cb, Number(Env(cb), f, sn))
    ensures !SentEarly(cb, Number(Env(cb), f, sn))
  {
  }

  // ----- the buffer and the data segments

  lemma OldIsRight(cb: Cb, moved: seq<Sent>, buf: seq<Sent>)
    requires TimersOk(cb) && |cb.snd.buf| <= |moved| == |buf|
    requires forall i :: 0 <= i < |cb.snd.buf| ==> moved[i] == cb.snd.buf[i]
    requires forall i :: 0 <= i < |moved| ==> buf[i] == FlushOne(moved[i], Env(cb))
    ensures var right := OldRight(cb, buf); right
  {
    forall i | 0 <= i < |cb.snd.buf|
      ensures if MustSend(cb, cb.snd.buf[i]) then Restamped(cb, cb.snd.buf[i], buf[i]) else buf[i] == cb.snd.buf[i]
    {
      assert moved[i] == cb.snd.buf[i];
      EntryRight(cb, cb.snd.buf[i]);
    }
  }

  lemma NewAt(w: Width, cb: Cb, m: Snd, k: nat, i: nat)
    requires i < k
    requires var moved := MovedBy(w, cb.snd, m, Env(cb), k); moved
    ensures |m.buf| == |cb.snd.buf| + k && k <= |cb.snd.queue|
    ensures m.buf[|cb.snd.buf| + i] == Number(Env(cb), cb.snd.queue[i], Add(w, cb.snd.nxt, i))
  {
  }

  lemma NewIsRight(w: Width, cb: Cb, m: Snd, k: nat, buf: seq<Sent>)
    requires TimersOk(cb) && k <= |cb.snd.queue| && |buf| == |m.buf| == |cb.snd.buf| + k
    requires var moved := MovedBy(w, cb.snd, m, Env(cb), k); moved
    requires forall i :: 0 <= i < |m.buf| ==> buf[i] == FlushOne(m.buf[i], Env(cb))
    ensures var right := NewRight(w, cb, buf); right
  {
    forall i | 0 <= i < k
      ensures buf[|cb.snd.buf| + i] == Newborn(cb, cb.snd.queue[i], Add(w, cb.snd.nxt, i))
    {
      NewAt(w, cb, m, k, i);
      NewbornRight(cb, cb.snd.queue[i], Add(w, cb.snd.nxt, i));
    }
  }

  lemma BufferParts(w: Width, cb: Cb, m: Snd, k: nat, buf: seq<Sent>)
    requires |buf| == |m.buf|
    requires var moved := MovedBy(w, cb.snd, m, Env(cb), k); moved
    requires |cb.snd.buf| <= |buf| && var right := OldRight(cb, buf); right
    requires |buf| <= |cb.snd.buf| + |cb.snd.queue| && var right := NewRight(w, cb, buf); right
    ensures var right := BufferRight(w, cb, m.(buf := buf)); right
  {
  }

  lemma MovedOld(w: Width, cb: Cb, m: Snd, k: nat)
    requires var moved := MovedBy(w, cb.snd, m, Env(cb), k); moved
    ensures k <= |cb.snd.queue| && |m.buf| == |cb.snd.buf| + k
    ensures forall i :: 0 <= i < |cb.snd.buf| ==> m.buf[i] == cb.snd.buf[i]
  {
  }

  lemma BufferIsRight(w: Width, cb: Cb, lim: nat)
    requires CbOk(w, cb, lim)
    ensures var right := BufferRight(w, cb, Moved(w, cb).(buf := Swept(w, cb).buf)); right
  {
    var k := MoveToBufParts(w, cb.snd, Env(cb), Window(cb));
    SweptBuffer(w, cb, Moved(w, cb), k);
  }

  lemma SweptBuffer(w: Width, cb: Cb, m: Snd, k: nat)
    requires TimersOk(cb)
    requires var moved := MovedBy(w, cb.snd, m, Env(cb), k); moved
    ensures var right := BufferRight(w, cb, m.(buf := SweepBuf(m.buf, Env(cb), cb.conf.deadLink).buf)); right
  {
    var buf := SweepBuf(m.buf, Env(cb), cb.conf.deadLink).buf;
    SweepIsMap(m.buf, Env(cb), cb.conf.deadLink);
    MovedOld(w, cb, m, k);
    OldIsRight(cb, m.buf, buf);
    NewIsRight(w, cb, m, k, buf);
    BufferParts(w, cb, m, k, buf);
  }

  /** Which entries have a cause to be sent, by position. */
  lemma CauseAt(w: Width, cb: Cb, lim: nat, i: nat)
    requires CbOk(w, cb, lim) && i < |Moved(w, cb).buf|
    ensures CauseOf(Moved(w, cb).buf[i], Env(cb)) != Hold <==> IsSent(cb, i)
    ensures CauseOf(Moved(w, cb).buf[i], Env(cb)) == Timeout <==> i < |cb.snd.buf| && TimedOut(cb, cb.snd.buf[i])
    ensures CauseOf(Moved(w, cb).buf[i], Env(cb)) == FastResend <==> i < |cb.snd.buf| && SentEarly(cb, cb.snd.buf[i])
  {
    var n := |cb.snd.buf|;
    var k := MoveToBufParts(w, cb.snd, Env(cb), Window(cb));
    if i < n {
      assert Moved(w, cb).buf[i] == cb.snd.buf[i];
      CauseIs(cb, cb.snd.buf[i]);
    } else {
      assert Moved(w, cb).buf[n + (i - n)] == Number(Env(cb), cb.snd.queue[i - n], Add(w, cb.snd.nxt, i - n));
    }
  }

  lemma SweptIsRight(w: Width, cb: Cb, lim: nat)
    requires CbOk(w, cb, lim)
    ensures PushesRight(cb, Moved(w, cb).(buf := Swept(w, cb).buf), Swept(w, cb).out)
  {
    var m, t := Moved(w, cb).buf, Swept(w, cb);
    var s' := Moved(w, cb).(buf := t.buf);
    SweepIsMap(m, Env(cb), cb.conf.deadLink);
    forall i | 0 <= i < |t.buf| && IsSent(cb, i)
      ensures t.buf[i].seg in t.out
    {
      CauseAt(w, cb, lim, i);
      SweepSends(m, Env(cb), cb.conf.deadLink, t.buf[i].seg);
    }
    forall j | 0 <= j < |t.out|
      ensures exists i :: 0 <= i < |s'.buf| && IsSent(cb, i) && t.out[j] == s'.buf[i].seg
    {
      SweepSends(m, Env(cb), cb.conf.deadLink, t.out[j]);
      var i :| 0 <= i < |m| && CauseOf(m[i], Env(cb)) != Hold && t.out[j] == FlushOne(m[i], Env(cb)).seg;
      CauseAt(w, cb, lim, i);
      assert t.out[j] == s'.buf[i].seg;
    }
  }

  lemma SweptHeaders(w: Width, cb: Cb, lim: nat)
    requires CbOk(w, cb, lim)
    ensures HeadersNow(cb, Swept(w, cb).out) && AllPush(Swept(w, cb).out)
  {
    var m, out := Moved(w, cb).buf, Swept(w, cb).out;
    MovedOk(w, cb, lim);
    forall j | 0 <= j < |out|
      ensures HeaderNow(cb, out[j]) && out[j].cmd == CMD_PUSH
    {
      SweepSends(m, Env(cb), cb.conf.deadLink, out[j]);
      var i :| 0 <= i < |m| && CauseOf(m[i], Env(cb)) != Hold && out[j] == FlushOne(m[i], Env(cb)).seg;
      assert SentOk(cb.conf, m[i]);
    }
  }

  /** The control segments: the acknowledgements in order, then at most the two probes. */
  lemma ControlIsRight(cb: Cb)
    ensures AcksRight(cb, ControlSegs(cb))
    ensures HeadersNow(cb, ControlSegs(cb)) && NoPush(ControlSegs(cb))
  {
    AckSegsAre(Template(cb), cb.rcv.acks);
  }

  predicate NoPush(segs: seq<Seg>) {
    forall j :: 0 <= j < |segs| ==> segs[j].cmd != CMD_PUSH
  }

  predicate AllPush(segs: seq<Seg>) {
    forall j :: 0 <= j < |segs| ==> segs[j].cmd == CMD_PUSH
  }

  lemma PushesBehind(cb: Cb, s': Snd, control: seq<Seg>, data: seq<Seg>)
    requires NoPush(control) && PushesRight(cb, s', data)
    ensures var right := PushesRight(cb, s', control + data); right
  {
    var segs := control + data;
    forall j | 0 <= j < |segs| && segs[j].cmd == CMD_PUSH
      ensures exists i :: 0 <= i < |s'.buf| && IsSent(cb, i) && segs[j] == s'.buf[i].seg
    {
      assert segs[j] == data[j - |control|];
    }
  }

  lemma AcksBefore(cb: Cb, control: seq<Seg>, data: seq<Seg>)
    requires AcksRight(cb, control) && AllPush(data)
    ensures var right := AcksRight(cb, control + data); right
  {
  }

  lemma HeadersBoth(cb: Cb, control: seq<Seg>, data: seq<Seg>)
    requires HeadersNow(cb, control) && HeadersNow(cb, data)
    ensures var right := HeadersNow(cb, control + data); right
  {
  }

  lemma SegmentsAreRight(w: Width, cb: Cb, lim: nat)
    requires CbOk(w, cb, lim) && cb.clock.updated
    ensures var headers := HeadersNow(cb, FlushSegs(w, cb)); headers
    ensures var acks := AcksRight(cb, FlushSegs(w, cb)); acks
    ensures var pushes := PushesRight(cb, Moved(w, cb).(buf := Swept(w, cb).buf), FlushSegs(w, cb)); pushes
  {
    var control, data := ControlSegs(cb), Swept(w, cb).out;
    ControlIsRight(cb);
    SweptHeaders(w, cb, lim);
    SweptIsRight(w, cb, lim);
    PushesBehind(cb, Moved(w, cb).(buf := Swept(w, cb).buf), control, data);
    AcksBefore(cb, control, data);
    HeadersBoth(cb, control, data);
  }

  // ----- congestion and counters

  lemma {:induction false} TimeoutsAre(cb: Cb, buf: seq<Sent>, deadLink: u32)
    ensures SweepBuf(buf, Env(cb), deadLink).timeouts == Expired(cb, buf)
  {
    if buf != [] {
      TimeoutsAre(cb, buf[..|buf| - 1], deadLink);
      CauseIs(cb, buf[|buf| - 1]);
    }
  }

  lemma {:induction false} ExpiredConcat(cb: Cb, a: seq<Sent>, b: seq<Sent>)
    requires forall i :: 0 <= i < |b| ==> !TimedOut(cb, b[i])
    ensures Expired(cb, a + b) == Expired(cb, a)
  {
    if b == [] {
      assert a + b == a;
    } else {
      assert (a + b)[..|a + b| - 1] == a + b[..|b| - 1];
      ExpiredConcat(cb, a, b[..|b| - 1]);
    }
  }

  lemma NewNotTimedOut(w: Width, cb: Cb, m: Snd, k: nat)
    requires var moved := MovedBy(w, cb.snd, m, Env(cb), k); moved
    ensures |m.buf| >= |cb.snd.buf| && forall i :: |cb.snd.buf| <= i < |m.buf| ==> !TimedOut(cb, m.buf[i])
  {
    MovedOld(w, cb, m, k);
    forall i | |cb.snd.buf| <= i < |m.buf|
      ensures !TimedOut(cb, m.buf[i])
    {
      NewAt(w, cb, m, k, i - |cb.snd.buf|);
    }
  }

  lemma ExpiredMoved(w: Width, cb: Cb, m: Snd, k: nat)
    requires var moved := MovedBy(w, cb.snd, m, Env(cb), k); moved
    ensures Expired(cb, m.buf) == Expired(cb, cb.snd.buf)
  {
    var n := |cb.snd.buf|;
    NewNotTimedOut(w, cb, m, k);
    MovedOld(w, cb, m, k);
    ExpiredConcat(cb, m.buf[..n], m.buf[n..]);
    assert m.buf == m.buf[..n] + m.buf[n..] && m.buf[..n] == cb.snd.buf;
  }

  lemma TimeoutsCounted(w: Width, cb: Cb, lim: nat)
    requires CbOk(w, cb, lim)
    ensures Swept(w, cb).timeouts == Expired(cb, cb.snd.buf)
  {
    var k := MoveToBufParts(w, cb.snd, Env(cb), Window(cb));
    TimeoutsAre(cb, Moved(w, cb).buf, cb.conf.deadLink);
    ExpiredMoved(w, cb, Moved(w, cb), k);
  }

  lemma {:induction false} CountUpIs(x: u32, n: nat)
    ensures CountUp(x, n) == U32(x + n)
  {
    if n > 0 {
      CountUpIs(x, n - 1);
      WrapAdd(x + n - 1, 1);
    }
  }

  lemma {:induction false} SweepDead(buf: seq<Sent>, e: FlushEnv, deadLink: u32)
    ensures SweepBuf(buf, e, deadLink).dead <==>
            exists i :: 0 <= i < |buf| && CauseOf(buf[i], e) != Hold && FlushOne(buf[i], e).xmit >= deadLink
  {
    if buf != [] {
      SweepDead(buf[..|buf| - 1], e, deadLink);
    }
  }

  lemma DeathIsRight(w: Width, cb: Cb, lim: nat)
    requires CbOk(w, cb, lim)
    ensures Swept(w, cb).dead <==>
            exists i :: 0 <= i < |Swept(w, cb).buf| && IsSent(cb, i) && Swept(w, cb).buf[i].xmit >= cb.conf.deadLink
  {
    var m, buf := Moved(w, cb).buf, Swept(w, cb).buf;
    SweepDead(m, Env(cb), cb.conf.deadLink);
    SweepIsMap(m, Env(cb), cb.conf.deadLink);
    forall i | 0 <= i < |m|
      ensures CauseOf(m[i], Env(cb)) != Hold <==> IsSent(cb, i)
    {
      CauseAt(w, cb, lim, i);
    }
  }

  lemma SignalsAre(w: Width, cb: Cb, lim: nat)
    requires CbOk(w, cb, lim)
    ensures Swept(w, cb).timeouts > 0 <==> SomeTimedOut(cb)
    ensures Swept(w, cb).fast <==> SomeSentEarly(cb)
  {
    var m := Moved(w, cb).buf;
    var k := MoveToBufParts(w, cb.snd, Env(cb), Window(cb));
    SweepSignals(m, Env(cb), cb.conf.deadLink);
    forall i | 0 <= i < |m|
      ensures CauseOf(m[i], Env(cb)) == Timeout <==> i < |cb.snd.buf| && TimedOut(cb, cb.snd.buf[i])
      ensures CauseOf(m[i], Env(cb)) == FastResend <==> i < |cb.snd.buf| && SentEarly(cb, cb.snd.buf[i])
    {
      CauseAt(w, cb, lim, i);
    }
    forall i | 0 <= i < |cb.snd.buf|
      ensures m[i] == cb.snd.buf[i]
    {
    }
  }

  lemma WindowIs(cb: Cb)
    ensures Window(cb) == Allowed(cb)
  {
  }

  lemma AfterFlushIs(c: Cong, fast: bool, inflight: u32, resent: u32, window: u32, mss: nat)
    ensures AfterFlush(c, fast, true, inflight, resent, window, mss) == Cong(1, U32(mss), Max(THRESH_MIN, window / 2))
    ensures fast ==>
              var thresh := Max(THRESH_MIN, inflight / 2);
              AfterFlush(c, fast, false, inflight, resent, window, mss) == AtLeastOne(U32(thresh + resent), thresh, mss)
    ensures !fast ==>
              AfterFlush(c, fast, false, inflight, resent, window, mss) ==
              if c.cwnd < 1 then Cong(1, U32(mss), c.ssthresh) else c
  {
  }

  lemma CongestionIsRight(w: Width, cb: Cb, lim: nat)
    requires CbOk(w, cb, lim) && cb.clock.updated
    ensures var right := CongestionRight(w, cb, Moved(w, cb), DoFlush(w, cb).cong); right
  {
    var t := Swept(w, cb);
    var inflight := InflightOf(w, Moved(w, cb));
    SignalsAre(w, cb, lim);
    WindowIs(cb);
    AfterFlushIs(cb.cong, t.fast, inflight, Resent(cb.conf), Window(cb), cb.conf.Mss());
    assert DoFlush(w, cb).cong ==
           AfterFlush(cb.cong, t.fast, t.timeouts > 0, inflight, Resent(cb.conf), Window(cb), cb.conf.Mss());
  }

  lemma RestIsRight(w: Width, cb: Cb, lim: nat)
    requires CbOk(w, cb, lim) && cb.clock.updated
    ensures var right := RestRight(cb, DoFlush(w, cb)); right
  {
    DeathIsRight(w, cb, lim);
    TimeoutsCounted(w, cb, lim);
    CountUpIs(cb.xmit, Swept(w, cb).timeouts);
  }

  lemma FlushSnd(w: Width, cb: Cb)
    requires cb.conf.Ok() && cb.clock.updated
    ensures DoFlush(w, cb).snd == Moved(w, cb).(buf := Swept(w, cb).buf)
  {
  }

  lemma AllRight(w: Width, cb: Cb, cb': Cb, m: Snd, segs: seq<Seg>)
    requires cb.conf.Ok() && cb.clock.updated && cb'.snd.nxt == m.nxt && cb'.snd.una == m.una
    requires var headers := HeadersNow(cb, segs); headers
    requires var acks := AcksRight(cb, segs); acks
    requires var pushes := PushesRight(cb, cb'.snd, segs); pushes
    requires var buffer := BufferRight(w, cb, cb'.snd); buffer
    requires var congestion := CongestionRight(w, cb, m, cb'.cong); congestion
    requires var rest := RestRight(cb, cb'); rest
    ensures var right := FlushRight(w, cb, cb', segs); right
  {
  }

  /** Every flush, in every state of the invariant, at either width. */
  lemma FlushIsRight(w: Width, cb: Cb, lim: nat)
    requires CbOk(w, cb, lim)
    ensures var right := FlushRight(w, cb, DoFlush(w, cb), FlushSegs(w, cb)); right
  {
    if cb.clock.updated {
      SegmentsAreRight(w, cb, lim);
      BufferIsRight(w, cb, lim);
      CongestionIsRight(w, cb, lim);
      RestIsRight(w, cb, lim);
      FlushSnd(w, cb);
      AllRight(w, cb, DoFlush(w, cb), Moved(w, cb), FlushSegs(w, cb));
    } else {
      NotYetRight(w, cb);
    }
  }

  lemma NotYetRight(w: Width, cb: Cb)
    requires cb.conf.Ok() && !cb.clock.updated
    ensures var right := FlushRight(w, cb, DoFlush(w, cb), FlushSegs(w, cb)); right
  {
  }

  // ----- on the wire

  /** What a peer of the same conversation decodes, datagram by datagram. */
  function Decoded(conv: u32, out: seq<Bytes>): seq<Seg> {
    if out == [] then [] else Decoded(conv, out[..|out| - 1]) + Parse(conv, out[|out| - 1]).segs
  }

  lemma {:induction false} DecodedIsFlatten(conv: u32, ds: seq<seq<Seg>>)
    requires forall i :: 0 <= i < |ds| ==> Parse(conv, EncodeSegs(ds[i])).segs == ds[i]
    ensures Decoded(conv, EncodeAll(ds)) == Flatten(ds)
  {
    if ds != [] {
      var n := |ds| - 1;
      DecodedIsFlatten(conv, ds[..n]);
      assert EncodeAll(ds)[..n] == EncodeAll(ds[..n]);
    }
  }

  /** The same of the bytes handed to the output. */
  lemma FlushEmits(cb: Cb, lim: nat)
    requires CbOk(W32, cb, lim)
    ensures var out := EncodeAll(Pack(cb.conf.mtu, FlushSegs(W32, cb)));
            var right := FlushRight(W32, cb, DoFlush(W32, cb), Decoded(cb.conf.conv, out)); right
  {
    FlushIsRight(W32, cb, lim);
    FlushOnTheWire(cb, lim);
    var ds := Pack(cb.conf.mtu, FlushSegs(W32, cb));
    forall i | 0 <= i < |ds|
      ensures Parse(cb.conf.conv, EncodeSegs(ds[i])).segs == ds[i]
    {
      assert Parse(cb.conf.conv, EncodeSegs(ds[i])) == Parsed(ds[i], 0);
    }
    DecodedIsFlatten(cb.conf.conv, ds);
  }
}
