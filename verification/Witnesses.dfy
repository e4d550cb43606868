/** Concrete runs of one control block, from its creation, in which a promise one might expect is broken. Each is the
    counterpart of a theorem that says exactly when the promise is kept. */
module Witnesses {
  import opened Seqs
  import opened Serial
  import opened Wire
  import opened Fragments
  import opened Sender
  import opened Receiver
  import opened Estimator
  import opened Congestion
  import opened ControlBlock
  import opened Calls
  import opened Timers

  // ----- a refused send that is not without effect (`Fragments.RefusedSend`)

  lemma CountJustOver(mss: nat)
    requires mss > 0
    ensures FragCount(mss, 127 * mss + 1) == 128
  {
    var n := FragCount(mss, 127 * mss + 1);
    CountCovers(mss, 127 * mss + 1);
    if n <= 127 {
      MulMono(n, 127, mss);
    } else if n >= 129 {
      MulMono(128, n - 1, mss);
    }
  }

  lemma FillsUp(mss: nat)
    requires mss >= 26
    ensures Send(mss, true, [Frag(0, [7])], seq(128 * mss, _ => 9)) ==
            SendOutcome([Frag(0, [7] + seq(mss - 1, _ => 9))], -2, mss - 1)
  {
    var msg: Bytes := seq(128 * mss, _ => 9);
    var queue := [Frag(0, [7])];
    assert Extend(mss, true, queue, msg) == mss - 1;
    assert msg[..mss - 1] == seq(mss - 1, _ => 9);
    assert queue[..0] == [];
    assert Extended(mss, true, queue, msg) == [Frag(0, [7] + seq(mss - 1, _ => 9))];
    CountJustOver(mss);
    assert |msg[mss - 1..]| == 127 * mss + 1;
  }

  /** In stream mode, with one byte waiting, a send of 128 segments' worth of bytes is refused; the segment waiting has been
      filled up from it all the same. */
  lemma RefusedSendCanQueue(conv: u32, mtu: nat)
    requires 50 <= mtu < 0x8000_0000
    ensures var mss := mtu - OVERHEAD;
            var cb := Run(Create(conv, mtu, true), [CallSend([7])]);
            var (cb', code) := DoSend(cb, seq(128 * mss, _ => 9));
            && cb.snd.queue == [Frag(0, [7])]
            && code == -2 && cb'.snd.queue == [Frag(0, [7] + seq(mss - 1, _ => 9))]
  {
    FirstByteWaits(conv, mtu);
    FillsUp(mtu - OVERHEAD);
  }

  lemma FirstByteWaits(conv: u32, mtu: nat)
    requires 50 <= mtu < 0x8000_0000
    ensures var cb := Run(Create(conv, mtu, true), [CallSend([7])]);
            cb.snd.queue == [Frag(0, [7])] && cb.conf == Create(conv, mtu, true).conf
  {
    var cb := Create(conv, mtu, true);
    FirstByteQueued(mtu - OVERHEAD, true);
    RunSend(cb, [], [7]);
    assert [] + [CallSend([7])] == [CallSend([7])];
  }

  lemma FirstByteQueued(mss: nat, stream: bool)
    requires mss >= 26
    ensures Send(mss, stream, [], [7]) == SendOutcome([Frag(0, [7])], 0, 1)
  {
    var msg: Bytes := [7];
    assert msg[0..] == msg;
    assert FragCount(mss, 1) == 1;
    assert Pieces(mss, msg, 1, stream) == [Frag(0, msg[..1])] + Pieces(mss, msg[1..], 0, stream);
    assert msg[..1] == msg;
  }

  // ----- one data segment in a datagram of its own

  function Push(conv: u32, sn: u32, b: Byte): Seg {
    Seg(conv, CMD_PUSH, 0, 128, 0, sn, 0, [b])
  }

  function Datagram(conv: u32, sn: u32, b: Byte): Bytes {
    EncodeSegs([Push(conv, sn, b)])
  }

  lemma PushArrives(cb: Cb, sn: u32, b: Byte)
    requires cb.conf.Ok()
    ensures InputBytes(cb, Datagram(cb.conf.conv, sn, b)).0.rcv == RcvInput(W32, cb.rcv, Push(cb.conf.conv, sn, b))
  {
    var seg := Push(cb.conf.conv, sn, b);
    ParseOfEncode(cb.conf.conv, [seg]);
    DatagramSize(cb.conf.conv, sn, b);
    InputSingle(cb, seg);
    WellFormedArrives(cb, [seg], Datagram(cb.conf.conv, sn, b));
  }

  lemma WellFormedArrives(cb: Cb, segs: seq<Seg>, data: Bytes)
    requires cb.conf.Ok() && OVERHEAD <= |data| < 0x8000_0000 && Parse(cb.conf.conv, data) == Parsed(segs, 0)
    ensures InputBytes(cb, data).0.rcv == InputAll(W32, cb, segs).rcv
  {
    Small(|data|);
    assert InputSegs(W32, cb, segs).rcv == InputAll(W32, cb, segs).rcv;
  }

  lemma DatagramSize(conv: u32, sn: u32, b: Byte)
    ensures |Datagram(conv, sn, b)| == 25
  {
    var seg := Push(conv, sn, b);
    assert EncodeSegs([seg]) == EncodeSeg(seg) + EncodeSegs([]);
  }

  lemma InputSingle(cb: Cb, seg: Seg)
    ensures InputAll(W32, cb, [seg]) == InputOne(W32, cb, seg)
  {
    assert [seg][..0] == [] && InputAll(W32, cb, []) == cb;
  }

  /** The segment is next and nothing is buffered. */
  lemma NextArrives(r: Rcv, seg: Seg)
    requires r.buf == [] && r.nxt < 0x1_0000_0000 && seg.sn == r.nxt && 0 < r.wnd < 0x8000_0000
    ensures var r' := RcvInput(W32, r, seg);
            && r'.wnd == r.wnd
            && (|r.queue| < r.wnd ==> r'.nxt == U32(r.nxt + 1) && r'.queue == r.queue + [FragOf(seg)] && r'.buf == [])
            && (|r.queue| >= r.wnd ==> r'.nxt == r.nxt && r'.queue == r.queue && r'.buf == [seg])
  {
    WindowTest(W32, r.nxt, r.nxt, r.wnd);
    var r1 := Noted(W32, r, seg);
    assert InWindow(W32, r1, seg.sn) && Insert(W32, [], seg) == [seg];
    var r2 := r1.(buf := [seg]);
    assert RcvInput(W32, r, seg) == Drain(W32, r2);
    if |r.queue| < r.wnd {
      assert Drain(W32, r2) == Drain(W32, TakeFront(W32, r2));
    }
  }

  // ----- a window that grows under a full queue (`Calls.DrainedUnlessStranded`)

  /** Datagrams numbered 0 to k - 1 arrive, and nobody reads. */
  function Arrivals(conv: u32, k: nat): seq<Call>
    requires k <= 0x1_0000_0000
  {
    if k == 0 then [] else Arrivals(conv, k - 1) + [CallInput(Datagram(conv, k - 1, 7))]
  }

  lemma RunFlush(cb: Cb, calls: seq<Call>)
    requires cb.conf.Ok()
    ensures Run(cb, calls + [CallFlush]) == DoFlush(W32, Run(cb, calls))
  {
    RunLast(cb, calls, CallFlush);
  }

  lemma RunInput(cb: Cb, calls: seq<Call>, data: Bytes)
    requires cb.conf.Ok()
    ensures Run(cb, calls + [CallInput(data)]) == InputBytes(Run(cb, calls), data).0
  {
    RunLast(cb, calls, CallInput(data));
  }

  lemma RunSend(cb: Cb, calls: seq<Call>, msg: Bytes)
    requires cb.conf.Ok()
    ensures Run(cb, calls + [CallSend(msg)]) == DoSend(Run(cb, calls), msg).0
  {
    RunLast(cb, calls, CallSend(msg));
  }

  lemma RunUpdate(cb: Cb, calls: seq<Call>, now: u32)
    requires cb.conf.Ok()
    ensures Run(cb, calls + [CallUpdate(now)]) == DoUpdate(W32, Run(cb, calls), now)
  {
    RunLast(cb, calls, CallUpdate(now));
  }

  lemma RunLast(cb: Cb, calls: seq<Call>, call: Call)
    requires cb.conf.Ok()
    ensures Run(cb, calls + [call]) == Apply(Run(cb, calls), call)
  {
    assert (calls + [call])[..|calls|] == calls;
  }

  /** Number `nxt` is next, nothing is buffered, and `waiting` segments wait to be read, in the window of 128. */
  predicate Expects(cb: Cb, conv: u32, nxt: u32, waiting: nat) {
    cb.conf.conv == conv && cb.rcv.nxt == nxt && cb.rcv.wnd == 128 && |cb.rcv.queue| == waiting && cb.rcv.buf == []
  }

  lemma SmallSuccessor(k: nat)
    requires k < 128
    ensures U32(k + 1) == k + 1
  {
  }

  lemma OneMore(cb: Cb, conv: u32, k: nat)
    requires cb.conf.Ok() && k < 128
    requires var expects := Expects(cb, conv, k, k); expects
    ensures var expects := Expects(InputBytes(cb, Datagram(conv, k, 7)).0, conv, k + 1, k + 1); expects
  {
    Arrives(cb, k, 7);
    SmallSuccessor(k);
  }

  lemma {:induction false} QueueFills(conv: u32, mtu: nat, stream: bool, k: nat)
    requires 50 <= mtu < 0x8000_0000 && k <= 128
    ensures var expects := Expects(Run(Create(conv, mtu, stream), Arrivals(conv, k)), conv, k, k); expects
  {
    if k > 0 {
      QueueFills(conv, mtu, stream, k - 1);
      var cb := Create(conv, mtu, stream);
      OneMore(Run(cb, Arrivals(conv, k - 1)), conv, k - 1);
      RunInput(cb, Arrivals(conv, k - 1), Datagram(conv, k - 1, 7));
    }
  }

  lemma Arrives(cb: Cb, sn: u32, b: Byte)
    requires cb.conf.Ok() && cb.rcv.buf == [] && cb.rcv.nxt == sn && 0 < cb.rcv.wnd < 0x8000_0000
    ensures var cb' := InputBytes(cb, Datagram(cb.conf.conv, sn, b)).0;
            var seg := Push(cb.conf.conv, sn, b);
            && cb'.conf == cb.conf && cb'.rcv.wnd == cb.rcv.wnd
            && (|cb.rcv.queue| < cb.rcv.wnd ==>
                  cb'.rcv.nxt == U32(sn + 1) && cb'.rcv.queue == cb.rcv.queue + [FragOf(seg)] && cb'.rcv.buf == [])
            && (|cb.rcv.queue| >= cb.rcv.wnd ==>
                  cb'.rcv.nxt == sn && cb'.rcv.queue == cb.rcv.queue && cb'.rcv.buf == [seg])
  {
    var data := Datagram(cb.conf.conv, sn, b);
    PushArrives(cb, sn, b);
    NextArrives(cb.rcv, Push(cb.conf.conv, sn, b));
    InputAllConf(W32, cb, Parse(cb.conf.conv, data).segs);
  }

  /** With a full queue, the next segment arrives and is buffered; then the window grows by one. */
  lemma FullThenGrows(cb: Cb, conv: u32)
    requires cb.conf.Ok()
    requires var expects := Expects(cb, conv, 128, 128); expects
    ensures var grows := GrowsStranding(InputBytes(cb, Datagram(conv, 128, 7)).0); grows
  {
    Arrives(cb, 128, 7);
  }

  /** Drained now, and not any more after growing the window to 129. */
  predicate GrowsStranding(cb: Cb) {
    Drained(cb.rcv) && Stranding(cb, CallWndSize(0, 129)) && !Drained(DoWndSize(cb, 0, 129).rcv)
  }

  /** 129 datagrams arrive in order, then the window grows by one: the segment buffered last is next, there is room for it,
      and it is not moved. */
  lemma GrowthStrands(conv: u32, mtu: nat, stream: bool)
    requires 50 <= mtu < 0x8000_0000
    ensures var cb, calls := Create(conv, mtu, stream), Arrivals(conv, 129);
            var grows := GrowsStranding(Run(cb, calls)); grows
    ensures var cb, calls := Create(conv, mtu, stream), Arrivals(conv, 129);
            Run(cb, calls + [CallWndSize(0, 129)]) == DoWndSize(Run(cb, calls), 0, 129)
  {
    var cb := Create(conv, mtu, stream);
    QueueFills(conv, mtu, stream, 128);
    FullThenGrows(Run(cb, Arrivals(conv, 128)), conv);
    RunInput(cb, Arrivals(conv, 128), Datagram(conv, 128, 7));
    RunLast(cb, Arrivals(conv, 129), CallWndSize(0, 129));
  }

  // ----- a number that comes round again (`Wrapping.MistakenExactly`)

  /** Message 0 is the byte 7, every other one the byte 8. */
  function Payload(k: nat): Byte {
    if k == 0 then 7 else 8
  }

  /** Messages 0 to k - 1 arrive in order, each read at once. */
  function Rounds(conv: u32, k: nat): seq<Call> {
    if k == 0 then []
    else Rounds(conv, k - 1) + [CallInput(Datagram(conv, U32(k - 1), Payload(k - 1)))] + [CallRecv(1)]
  }

  lemma ReadOne(cb: Cb, f: Frag)
    requires cb.rcv.queue == [f] && cb.rcv.buf == [] && f.frg == 0 && |f.data| == 1
    ensures var (cb', code, data) := DoRecv(W32, cb, 1);
            && code == 1 && data == f.data && cb'.conf == cb.conf
            && cb'.rcv == cb.rcv.(queue := [])
  {
    assert cb.rcv.queue[..1] == [f];
    JoinOne(f);
  }

  /** One round: what is read is the message that arrived. */
  lemma RoundReads(cb: Cb, conv: u32, sn: u32, b: Byte, sn': u32)
    requires cb.conf.Ok() && sn' == U32(sn + 1)
    requires var expects := Expects(cb, conv, sn, 0); expects
    ensures var arrived := InputBytes(cb, Datagram(conv, sn, b)).0;
            var expects := Expects(DoRecv(W32, arrived, 1).0, conv, sn', 0); expects
    ensures var arrived := InputBytes(cb, Datagram(conv, sn, b)).0;
            arrived.conf.Ok() && DoRecv(W32, arrived, 1).2 == [b]
  {
    Arrives(cb, sn, b);
    assert [] + [FragOf(Push(conv, sn, b))] == [FragOf(Push(conv, sn, b))];
    ReadOne(InputBytes(cb, Datagram(conv, sn, b)).0, FragOf(Push(conv, sn, b)));
  }

  lemma RunRecv(cb: Cb, calls: seq<Call>, len: int)
    requires cb.conf.Ok()
    ensures Run(cb, calls + [CallRecv(len)]) == DoRecv(W32, Run(cb, calls), len).0
  {
    RunLast(cb, calls, CallRecv(len));
  }

  lemma Successor(k: nat)
    requires k > 0
    ensures U32(k) == U32(U32(k - 1) + 1) && Diff(W32, U32(k), U32(k - 1)) == 1
  {
    WrapAdd(k - 1, 1);
    DiffExact(k, k - 1);
  }

  lemma RoundNext(cb: Cb, calls: seq<Call>, conv: u32, k: nat)
    requires cb.conf.Ok() && k > 0
    requires var expects := Expects(Run(cb, calls), conv, U32(k - 1), 0); expects
    ensures var calls' := calls + [CallInput(Datagram(conv, U32(k - 1), Payload(k - 1)))] + [CallRecv(1)];
            var expects := Expects(Run(cb, calls'), conv, U32(k), 0); expects
  {
    var data := Datagram(conv, U32(k - 1), Payload(k - 1));
    Successor(k);
    RoundReads(Run(cb, calls), conv, U32(k - 1), Payload(k - 1), U32(k));
    RunInput(cb, calls, data);
    RunRecv(cb, calls + [CallInput(data)], 1);
  }

  /** After `k` rounds the next message is number `k`, and all before have been read. */
  ghost predicate HasRead(cb: Cb, conv: u32, k: nat)
    requires cb.conf.Ok()
  {
    Expects(Run(cb, Rounds(conv, k)), conv, U32(k), 0)
  }

  lemma RoundsRead(cb: Cb, conv: u32, n: nat)
    requires cb.conf.Ok()
    requires var expects := Expects(cb, conv, 0, 0); expects
    ensures var read := HasRead(cb, conv, n); read
  {
    NoneRead(cb, conv);
    forall k: nat | HasRead(cb, conv, k)
      ensures HasRead(cb, conv, k + 1)
    {
      OneMoreRead(cb, conv, k + 1);
    }
    Stepwise((k: nat) => HasRead(cb, conv, k), 0, n);
  }

  lemma NoneRead(cb: Cb, conv: u32)
    requires cb.conf.Ok() && Expects(cb, conv, 0, 0)
    ensures var read := HasRead(cb, conv, 0); read
  {
  }

  lemma OneMoreRead(cb: Cb, conv: u32, k: nat)
    requires cb.conf.Ok() && k > 0
    requires var read := HasRead(cb, conv, k - 1); read
    ensures var read := HasRead(cb, conv, k); read
  {
    RoundNext(cb, Rounds(conv, k - 1), conv, k);
  }

  /** A copy of the very first datagram. */
  function FirstDatagram(conv: u32): Bytes {
    Datagram(conv, 0, Payload(0))
  }

  /** After 2^32 messages have been received and read, a copy of the very first datagram arrives: its byte is handed to the
      application once more, as message number 2^32. */
  lemma OldBytesAreReadAgain(conv: u32, mtu: nat, stream: bool)
    requires 50 <= mtu < 0x8000_0000
    ensures CallInput(FirstDatagram(conv)) in Rounds(conv, 1)
    ensures var cb := Create(conv, mtu, stream);
            DoRecv(W32, Run(cb, Rounds(conv, 0x1_0000_0000) + [CallInput(FirstDatagram(conv))]), 1).2 == [Payload(0)]
    ensures Payload(0x1_0000_0000) != Payload(0)
  {
    var cb := Create(conv, mtu, stream);
    FirstOfRounds(conv);
    AllRounds(conv, mtu, stream);
    RoundReads(Run(cb, Rounds(conv, 0x1_0000_0000)), conv, 0, Payload(0), 1);
    RunInput(cb, Rounds(conv, 0x1_0000_0000), FirstDatagram(conv));
  }

  lemma FirstOfRounds(conv: u32)
    ensures CallInput(FirstDatagram(conv)) in Rounds(conv, 1)
  {
    assert Rounds(conv, 1) == Rounds(conv, 0) + [CallInput(FirstDatagram(conv))] + [CallRecv(1)];
    assert Rounds(conv, 1)[0] == CallInput(FirstDatagram(conv));
  }

  lemma AllRounds(conv: u32, mtu: nat, stream: bool)
    requires 50 <= mtu < 0x8000_0000
    ensures var expects := Expects(Run(Create(conv, mtu, stream), Rounds(conv, 0x1_0000_0000)), conv, 0, 0); expects
  {
    assert U32(0x1_0000_0000) == 0;
    RoundsRead(Create(conv, mtu, stream), conv, 0x1_0000_0000);
  }

  // ----- the sixteenth timeout (`Timers.ResentExactly`, `RunTimers.RunsMeetDeadlines`)

  function AckDatagram(conv: u32): Bytes {
    EncodeSegs([Seg(conv, CMD_ACK, 0, 128, 0, 0, 0, [])])
  }

  /** The clock reads 60 s when an acknowledgement stamped 0 arrives, so the retransmission timeout is at its ceiling; then
      one byte is sent. */
  function Prelude(conv: u32): seq<Call> {
    [CallUpdate(60000), CallInput(AckDatagram(conv)), CallSend([7]), CallUpdate(60100)]
  }

  /** When the first entry of the buffer is to be resent. */
  function FirstDeadline(cb: Cb): u32 {
    if cb.snd.buf == [] then 0 else cb.snd.buf[0].resendts
  }

  /** ... and then `k` updates, each exactly when the segment is to be resent. */
  function Punctual(conv: u32, mtu: nat, stream: bool, k: nat): seq<Call>
    requires 50 <= mtu < 0x8000_0000
  {
    if k == 0 then Prelude(conv)
    else
      var init := Punctual(conv, mtu, stream, k - 1);
      init + [CallUpdate(FirstDeadline(Run(Create(conv, mtu, stream), init)))]
  }

  /** After `k` timeouts of the one segment in the buffer. */
  predicate Climbed(cb: Cb, k: nat) {
    && cb.conf.Ok() && cb.conf.nodelay == 0 && cb.rtt.rto == RTO_MAX
    && cb.clock.updated && cb.clock.interval == 100 && cb.clock.flush == U32(cb.clock.current + 100)
    && cb.snd.queue == [] && |cb.snd.buf| == 1 && TimedOut(cb.snd.buf[0], cb.clock.current, k)
  }

  /** An entry that has timed out `k` times, the last time now. */
  predicate TimedOut(x: Sent, now: u32, k: nat) {
    x.xmit == k + 1 && x.rto == Pow2(k) * RTO_MAX && x.resendts == U32(now + x.rto + if k == 0 then 7500 else 0)
  }

  lemma LateUpdate(c: Clock, delay: nat)
    requires c.updated && c.interval == 100 && c.flush == U32(c.current + 100) && 60000 <= delay < 0x7FFF_FFFF
    ensures var now := U32(c.current + delay); Tick(c, now) == (c.(current := now, flush := U32(now + 100)), true)
  {
    var now: int := U32(c.current + delay);
    SinceIs(now, c.flush, delay - 100, (c.current + 100) / 0x1_0000_0000 - (c.current + delay) / 0x1_0000_0000);
    SinceIs(now, U32(now + 100), -100, (now + 100) / 0x1_0000_0000);
  }

  lemma EmptyQueueStays(s: Snd, e: FlushEnv, cwnd: nat)
    requires s.queue == []
    ensures MoveToBuf(W32, s, e, cwnd) == s
  {
  }

  lemma SweepSingle(x: Sent, e: FlushEnv, deadLink: u32)
    ensures SweepBuf([x], e, deadLink).buf == [FlushOne(x, e)]
  {
    assert [x][..0] == [] && SweepBuf([], e, deadLink).buf == [];
  }

  /** A flush with one entry in the buffer and nothing queued. */
  lemma FlushSingle(cb: Cb)
    requires cb.conf.Ok() && cb.clock.updated && cb.snd.queue == [] && |cb.snd.buf| == 1
    ensures var cb' := DoFlush(W32, cb);
            && cb'.snd == cb.snd.(buf := [FlushOne(cb.snd.buf[0], Env(cb))])
            && cb'.conf == cb.conf && cb'.rtt == cb.rtt && cb'.clock == cb.clock
  {
    EmptyQueueStays(cb.snd, Env(cb), Window(cb));
    assert cb.snd.buf == [cb.snd.buf[0]];
    SweepSingle(cb.snd.buf[0], Env(cb), cb.conf.deadLink);
  }

  /** A flush exactly when the segment is due. */
  lemma TimesOut(x: Sent, was: u32, e: FlushEnv, k: nat)
    requires k < 16 && TimedOut(x, was, k)
    requires e.current == x.resendts && e.rxRto == RTO_MAX && e.nodelay == 0
    ensures var late := TimedOut(FlushOne(x, e), e.current, k + 1); late
  {
    Small(x.xmit + 1);
    Pow2Mono(k, 15);
    Pow2Fifteen();
    BackOffExact(x.rto, RTO_MAX);
  }

  lemma ClimbRange(k: nat)
    requires k < 16
    ensures RTO_MAX <= Pow2(k) * RTO_MAX <= 1966080000
  {
    Pow2Mono(0, k);
    Pow2Mono(k, 15);
    Pow2Fifteen();
  }

  /** An update that is due, with one entry in the buffer and nothing queued. */
  lemma UpdateSingle(cb: Cb, now: u32, c: Clock)
    requires cb.conf.Ok() && Tick(cb.clock, now) == (c, true) && c.updated && cb.snd.queue == [] && |cb.snd.buf| == 1
    ensures var cb' := DoUpdate(W32, cb, now);
            && cb'.snd == cb.snd.(buf := [FlushOne(cb.snd.buf[0], Env(cb.(clock := c)))])
            && cb'.conf == cb.conf && cb'.rtt == cb.rtt && cb'.clock == c
  {
    FlushSingle(cb.(clock := c));
  }

  lemma LateTick(c: Clock, x: Sent, k: nat)
    requires c.updated && c.interval == 100 && c.flush == U32(c.current + 100) && k < 16
    requires var late := TimedOut(x, c.current, k); late
    ensures Tick(c, x.resendts) == (c.(current := x.resendts, flush := U32(x.resendts + 100)), true)
  {
    ClimbRange(k);
    LateUpdate(c, x.rto + if k == 0 then 7500 else 0);
  }

  lemma ClimbsOn(cb: Cb, k: nat)
    requires k < 16 && cb.conf.Ok()
    requires var climbed := Climbed(cb, k); climbed
    ensures var climbed := Climbed(DoUpdate(W32, cb, FirstDeadline(cb)), k + 1); climbed
  {
    var x := cb.snd.buf[0];
    var now: int := FirstDeadline(cb);
    var c := cb.clock.(current := now, flush := U32(now + 100));
    LateTick(cb.clock, x, k);
    UpdateSingle(cb, now, c);
    TimesOut(x, cb.clock.current, Env(cb.(clock := c)), k);
  }

  /** A control block with nothing sent yet whose clock has been set. */
  predicate Fresh(cb: Cb, conv: u32, now: u32) {
    && cb.conf.Ok() && cb.conf.conv == conv && cb.conf.nodelay == 0 && cb.conf.sndWnd == 32 && !cb.conf.nocwnd
    && cb.snd == Snd(0, 0, [], []) && cb.rmtWnd == 128 && cb.cong.cwnd == 1
    && cb.clock == Clock(now, 100, U32(now + 100), true)
  }

  lemma FirstUpdate(conv: u32, mtu: nat, stream: bool)
    requires 50 <= mtu < 0x8000_0000
    ensures var cb := DoUpdate(W32, Create(conv, mtu, stream), 60000);
            Fresh(cb, conv, 60000) && cb.rtt == Rtt(0, 0, 200, 100) && cb.conf == Create(conv, mtu, stream).conf
  {
    var cb := Ticked(Create(conv, mtu, stream), 60000);
    assert cb.clock == Clock(60000, 100, 60100, true) by {
      assert Since(60000, 60000) == 0 && Since(60000, 60100) == -100;
    }
    EmptyQueueStays(cb.snd, Env(cb), Window(cb));
    assert SweepBuf([], Env(cb), cb.conf.deadLink) == Sweep([], [], 0, false, false);
  }

  lemma StampedZero(cb: Cb, conv: u32)
    requires Fresh(cb, conv, 60000) && cb.rtt == Rtt(0, 0, 200, 100)
    ensures var (cb', code) := InputBytes(cb, AckDatagram(conv));
            Fresh(cb', conv, 60000) && cb'.rtt.rto == RTO_MAX && cb'.conf == cb.conf
  {
    var seg := Seg(conv, CMD_ACK, 0, 128, 0, 0, 0, []);
    ParseOfEncode(conv, [seg]);
    assert EncodeSegs([seg]) == EncodeSeg(seg) + EncodeSegs([]);
    Small(|AckDatagram(conv)|);
    InputSingle(cb, seg);
    assert Since(60000, 0) == 60000;
    SampleOfMinute(cb.rtt);
    assert SndInput(W32, cb.snd, seg) == cb.snd;
    assert MarkAll(W32, [seg]) == Newest(0) by {
      assert [seg][..0] == [];
    }
  }

  lemma SampleOfMinute(r: Rtt)
    requires r == Rtt(0, 0, 200, 100)
    ensures UpdateAck(r, 100, 60000) == Rtt(60000, 30000, RTO_MAX, 100)
  {
  }

  lemma MovesOne(e: FlushEnv, f: Frag)
    ensures MoveToBuf(W32, Snd(0, 0, [f], []), e, 1) == Snd(0, 1, [], [Number(e, f, 0)])
  {
    assert Diff(W32, 0, 1) == -1;
    assert [f][1..] == [] && [] + [Number(e, f, 0)] == [Number(e, f, 0)];
    EmptyQueueStays(Snd(0, 1, [], [Number(e, f, 0)]), e, 1);
  }

  lemma FirstFlush(cb: Cb)
    requires cb.conf.Ok() && cb.clock.updated && cb.snd == Snd(0, 0, [Frag(0, [7])], []) && Window(cb) == 1
    ensures var cb' := DoFlush(W32, cb);
            && cb'.snd == Snd(0, 1, [], [FlushOne(Number(Env(cb), Frag(0, [7]), 0), Env(cb))])
            && cb'.conf == cb.conf && cb'.rtt == cb.rtt && cb'.clock == cb.clock
  {
    MovesOne(Env(cb), Frag(0, [7]));
    SweepSingle(Number(Env(cb), Frag(0, [7]), 0), Env(cb), cb.conf.deadLink);
  }

  lemma FirstSent(cb: Cb, conv: u32)
    requires Fresh(cb.(snd := Snd(0, 0, [], [])), conv, 60000) && cb.rtt.rto == RTO_MAX
    requires cb.snd == Snd(0, 0, [Frag(0, [7])], [])
    ensures var climbed := Climbed(DoUpdate(W32, cb, 60100), 0); climbed
  {
    var t := Ticked(cb, 60100);
    assert Tick(cb.clock, 60100) == (Clock(60100, 100, 60200, true), true) by {
      assert Since(60100, 60100) == 0 && Since(60100, 60200) == -100;
    }
    FirstFlush(t);
    FirstStamp(Env(t));
  }

  lemma FirstStamp(e: FlushEnv)
    requires e.current == 60100 && e.rxRto == RTO_MAX && e.rtomin == 7500
    ensures var y := FlushOne(Number(e, Frag(0, [7]), 0), e);
            y.xmit == 1 && y.rto == RTO_MAX && y.resendts == U32(60100 + RTO_MAX + 7500)
  {
  }

  lemma PreludeRuns(conv: u32, mtu: nat, stream: bool)
    requires 50 <= mtu < 0x8000_0000
    ensures var climbed := Climbed(Run(Create(conv, mtu, stream), Prelude(conv)), 0); climbed
  {
    var cb := Create(conv, mtu, stream);
    var calls := Prelude(conv);
    FirstUpdate(conv, mtu, stream);
    assert Run(cb, []) == cb;
    RunLast(cb, [], calls[0]);
    RunLast(cb, [] + [calls[0]], calls[1]);
    RunLast(cb, [] + [calls[0]] + [calls[1]], calls[2]);
    RunLast(cb, [] + [calls[0]] + [calls[1]] + [calls[2]], calls[3]);
    assert calls == [] + [calls[0]] + [calls[1]] + [calls[2]] + [calls[3]];
    var cb1 := DoUpdate(W32, cb, 60000);
    StampedZero(cb1, conv);
    var cb2 := InputBytes(cb1, AckDatagram(conv)).0;
    FirstByteQueued(mtu - OVERHEAD, stream);
    FirstSent(DoSend(cb2, [7]).0, conv);
  }

  lemma {:induction false} PunctualClimbs(conv: u32, mtu: nat, stream: bool, k: nat)
    requires 50 <= mtu < 0x8000_0000 && k <= 16
    ensures var climbed := Climbed(Run(Create(conv, mtu, stream), Punctual(conv, mtu, stream, k)), k); climbed
  {
    if k == 0 {
      PreludeRuns(conv, mtu, stream);
    } else {
      PunctualClimbs(conv, mtu, stream, k - 1);
      var cb, init := Create(conv, mtu, stream), Punctual(conv, mtu, stream, k - 1);
      ClimbsOn(Run(cb, init), k - 1);
      RunUpdate(cb, init, FirstDeadline(Run(cb, init)));
    }
  }

  /** The one segment in the buffer has been sent seventeen times, its timeout is 3932160000 ms, more than 2^31, and it is
      overdue again at the very reading of the clock at which it has just been sent. */
  ghost predicate OverdueAtOnce(cb: Cb) {
    |cb.snd.buf| == 1 && TooLate(cb.snd.buf[0], cb.clock.current)
  }

  ghost predicate TooLate(x: Sent, now: u32) {
    && x.xmit == 17 && x.rto == 3932160000 && x.resendts == U32(now + x.rto)
    && Overdue(x, now) && !ExactFrom(x, now, now + x.rto)
  }

  lemma ClimbedTop(cb: Cb, k: nat)
    requires k == 16
    requires var climbed := Climbed(cb, k); climbed
    ensures var overdue := OverdueAtOnce(cb); overdue
  {
    TopTooLate(cb.snd.buf[0], cb.clock.current, k);
  }

  lemma TopTooLate(x: Sent, now: u32, k: nat)
    requires k == 16
    requires var late := TimedOut(x, now, k); late
    ensures var top := TooLate(x, now); top
  {
    TopTimeout();
    DelayExactly(x, now, 3932160000);
  }

  lemma TopTimeout()
    ensures Pow2(16) * RTO_MAX == 3932160000
  {
    Pow2Fifteen();
    assert Pow2(16) == 2 * Pow2(15);
  }

  /** This is where sixteen timeouts from the ceiling of 60 s lead. */
  lemma SixteenTimeoutsOverflow(conv: u32, mtu: nat, stream: bool)
    requires 50 <= mtu < 0x8000_0000
    ensures var overdue := OverdueAtOnce(Run(Create(conv, mtu, stream), Punctual(conv, mtu, stream, 16))); overdue
  {
    PunctualClimbs(conv, mtu, stream, 16);
    ClimbedTop(Run(Create(conv, mtu, stream), Punctual(conv, mtu, stream, 16)), 16);
  }

  // ----- an acknowledgement that comes round again (`Wrapping.UnaExactly`)

  /** The peer says that it has everything before `una`. */
  function UnaDatagram(conv: u32, una: u32): Bytes {
    EncodeSegs([Seg(conv, CMD_WINS, 0, 128, 0, 0, una, [])])
  }

  /** After the first update, `k` messages, each sent and then acknowledged by `una`. */
  function Sends(conv: u32, k: nat): seq<Call> {
    if k == 0 then [CallUpdate(0)]
    else Sends(conv, k - 1) + [CallSend([7])] + [CallFlush] + [CallInput(UnaDatagram(conv, U32(k)))]
  }

  predicate Sending(cb: Cb, conv: u32) {
    && cb.conf.Ok() && cb.conf.conv == conv && cb.conf.sndWnd == 32 && !cb.conf.nocwnd
    && cb.rmtWnd == 128 && cb.clock.updated
  }

  /** Numbers up to `n` have been sent and acknowledged. */
  predicate AllAcked(cb: Cb, conv: u32, n: u32) {
    Sending(cb, conv) && cb.snd == Snd(n, n, [], [])
  }

  /** Number `n` has been sent and waits to be acknowledged. */
  predicate Waits(cb: Cb, conv: u32, n: u32) {
    && Sending(cb, conv) && |cb.snd.buf| == 1 && cb.snd.buf[0].seg.sn == n
    && cb.snd == Snd(n, U32(n + 1), [], cb.snd.buf)
  }

  lemma MovesNext(n: u32, e: FlushEnv, f: Frag, cwnd: nat)
    requires 1 <= cwnd <= 32
    ensures MoveToBuf(W32, Snd(n, n, [f], []), e, cwnd) == Snd(n, U32(n + 1), [], [Number(e, f, n)])
  {
    var w: int := cwnd;
    SinceIs(n, U32(n + cwnd), -w, (n + cwnd) / 0x1_0000_0000);
    assert [f][1..] == [] && [] + [Number(e, f, n)] == [Number(e, f, n)];
    EmptyQueueStays(Snd(n, U32(n + 1), [], [Number(e, f, n)]), e, cwnd);
  }

  lemma FlushSends(cb: Cb, conv: u32, n: u32)
    requires var queued := Queued(cb, conv, n); queued
    ensures var waits := Waits(DoFlush(W32, cb), conv, n); waits
  {
    MovesNext(n, Env(cb), Frag(0, [7]), Window(cb));
    SweepSingle(Number(Env(cb), Frag(0, [7]), n), Env(cb), cb.conf.deadLink);
  }

  lemma UnaArrives(cb: Cb, conv: u32, n: u32, una: u32, n': u32)
    requires Diff(W32, una, n) > 0 && n' == U32(n + 1)
    requires var waits := Waits(cb, conv, n); waits
    ensures var acked := AllAcked(InputBytes(cb, UnaDatagram(conv, una)).0, conv, n'); acked
  {
    var seg := Seg(conv, CMD_WINS, 0, 128, 0, 0, una, []);
    ParseOfEncode(conv, [seg]);
    assert EncodeSegs([seg]) == EncodeSeg(seg) + EncodeSegs([]);
    Small(|UnaDatagram(conv, una)|);
    InputSingle(cb, seg);
    assert ParseUna(W32, cb.snd.buf, una) == [] by {
      assert cb.snd.buf[1..] == [];
    }
    assert MarkAll(W32, [seg]) == NoAck by {
      assert [seg][..0] == [];
    }
  }

  lemma {:induction false} SendsFlushed(conv: u32, mtu: nat, stream: bool, k: nat)
    requires 50 <= mtu < 0x8000_0000
    ensures HasFlushed(Create(conv, mtu, stream), Sends(conv, k))
  {
    var cb := Create(conv, mtu, stream);
    if k == 0 {
      assert [CallUpdate(0)][..0] == [];
    } else {
      SendsFlushed(conv, mtu, stream, k - 1);
      var sent := Sends(conv, k - 1) + [CallSend([7])];
      HasFlushedStill(cb, Sends(conv, k - 1), CallSend([7]));
      HasFlushedStill(cb, sent, CallFlush);
      HasFlushedStill(cb, sent + [CallFlush], CallInput(UnaDatagram(conv, U32(k))));
    }
  }

  lemma HasFlushedStill(cb: Cb, calls: seq<Call>, call: Call)
    requires cb.conf.Ok() && HasFlushed(cb, calls)
    ensures HasFlushed(cb, calls + [call])
  {
    assert (calls + [call])[..|calls|] == calls;
  }

  lemma {:induction false} SendsModerate(conv: u32, k: nat)
    ensures ModerateCalls(Sends(conv, k))
  {
    if k > 0 {
      SendsModerate(conv, k - 1);
    }
  }

  /** One byte is queued, and the congestion window is open. */
  predicate Queued(cb: Cb, conv: u32, n: u32) {
    Sending(cb, conv) && cb.cong.cwnd >= 1 && cb.snd == Snd(n, n, [Frag(0, [7])], [])
  }

  lemma SendOneByte(cb: Cb, conv: u32, n: u32)
    requires cb.conf.Ok()
    requires var acked := AllAcked(cb, conv, n); acked
    ensures var cb' := DoSend(cb, [7]).0; Sending(cb', conv) && cb'.snd == Snd(n, n, [Frag(0, [7])], [])
  {
    FirstByteQueued(cb.conf.Mss(), cb.conf.stream);
  }

  lemma SendQueues(conv: u32, mtu: nat, stream: bool, k: nat)
    requires 50 <= mtu <= 65535
    requires var acked := AllAcked(Run(Create(conv, mtu, stream), Sends(conv, k)), conv, U32(k)); acked
    ensures var queued := Queued(Run(Create(conv, mtu, stream), Sends(conv, k) + [CallSend([7])]), conv, U32(k)); queued
  {
    var cb, calls := Create(conv, mtu, stream), Sends(conv, k);
    ConfStays(cb, calls);
    SendOneByte(Run(cb, calls), conv, U32(k));
    RunSend(cb, calls, [7]);
    SendsFlushed(conv, mtu, stream, k);
    HasFlushedStill(cb, calls, CallSend([7]));
    SendsModerate(conv, k);
    AnyCallsAccount(conv, mtu, stream, calls + [CallSend([7])]);
  }

  lemma SendAndFlush(conv: u32, mtu: nat, stream: bool, k: nat)
    requires 50 <= mtu <= 65535
    requires var acked := AllAcked(Run(Create(conv, mtu, stream), Sends(conv, k)), conv, U32(k)); acked
    ensures var waits := Waits(Run(Create(conv, mtu, stream), Sends(conv, k) + [CallSend([7])] + [CallFlush]), conv, U32(k));
            waits
  {
    var cb, sent := Create(conv, mtu, stream), Sends(conv, k) + [CallSend([7])];
    SendQueues(conv, mtu, stream, k);
    FlushSends(Run(cb, sent), conv, U32(k));
    RunFlush(cb, sent);
  }

  lemma {:induction false} ConfStays(cb: Cb, calls: seq<Call>)
    requires cb.conf.Ok()
    ensures var conf := Run(cb, calls).conf; conf.mtu == cb.conf.mtu && conf.stream == cb.conf.stream
    decreases |calls|
  {
    if calls != [] {
      ConfStays(cb, calls[..|calls| - 1]);
      ApplyConf(Run(cb, calls[..|calls| - 1]), calls[|calls| - 1]);
    }
  }

  /** After `k` messages all of them have been acknowledged. */
  ghost predicate SentAndAcked(conv: u32, mtu: nat, stream: bool, k: nat)
    requires 50 <= mtu <= 65535
  {
    AllAcked(Run(Create(conv, mtu, stream), Sends(conv, k)), conv, U32(k))
  }

  lemma SendsAcked(conv: u32, mtu: nat, stream: bool, n: nat)
    requires 50 <= mtu <= 65535
    ensures var acked := SentAndAcked(conv, mtu, stream, n); acked
  {
    StartSending(conv, mtu, stream);
    forall k: nat | SentAndAcked(conv, mtu, stream, k)
      ensures SentAndAcked(conv, mtu, stream, k + 1)
    {
      OneMoreAcked(conv, mtu, stream, k + 1);
    }
    Stepwise((k: nat) => SentAndAcked(conv, mtu, stream, k), 0, n);
  }

  lemma OneMoreAcked(conv: u32, mtu: nat, stream: bool, k: nat)
    requires 50 <= mtu <= 65535 && k > 0
    requires var acked := SentAndAcked(conv, mtu, stream, k - 1); acked
    ensures var acked := SentAndAcked(conv, mtu, stream, k); acked
  {
    SendAndFlush(conv, mtu, stream, k - 1);
    NextAcked(Create(conv, mtu, stream), Sends(conv, k - 1) + [CallSend([7])] + [CallFlush], conv, k);
  }

  lemma NextAcked(cb: Cb, calls: seq<Call>, conv: u32, k: nat)
    requires cb.conf.Ok() && k > 0
    requires var waits := Waits(Run(cb, calls), conv, U32(k - 1)); waits
    ensures var acked := AllAcked(Run(cb, calls + [CallInput(UnaDatagram(conv, U32(k)))]), conv, U32(k)); acked
  {
    Successor(k);
    UnaArrives(Run(cb, calls), conv, U32(k - 1), U32(k), U32(k));
    RunInput(cb, calls, UnaDatagram(conv, U32(k)));
  }

  lemma StartSending(conv: u32, mtu: nat, stream: bool)
    requires 50 <= mtu <= 65535
    ensures var acked := SentAndAcked(conv, mtu, stream, 0); acked
  {
    var cb := Create(conv, mtu, stream);
    assert Sends(conv, 0) == [] + [CallUpdate(0)];
    RunUpdate(cb, [], 0);
    var t := Ticked(cb, 0);
    EmptyQueueStays(t.snd, Env(t), Window(t));
    assert SweepBuf([], Env(t), t.conf.deadLink) == Sweep([], [], 0, false, false);
  }

  /** A copy of the datagram that acknowledged the first message. */
  function FirstUna(conv: u32): Call {
    CallInput(UnaDatagram(conv, 1))
  }

  /** 2^31 + 2 messages have been sent and acknowledged, and one more sent; then a copy of the datagram that acknowledged the
      first one arrives. The last segment, which nobody has acknowledged, is dropped from `snd_buf` and will never be sent
      again. */
  lemma OldUnaDropsSegment(conv: u32, mtu: nat, stream: bool)
    requires 50 <= mtu <= 65535
    ensures FirstUna(conv) in Sends(conv, 1)
    ensures var cb, calls := Create(conv, mtu, stream), Sends(conv, 0x8000_0002) + [CallSend([7])] + [CallFlush];
            var waits := Waits(Run(cb, calls), conv, 0x8000_0002);
            var acked := AllAcked(Run(cb, calls + [FirstUna(conv)]), conv, 0x8000_0003);
            waits && acked
  {
    var cb, calls := Create(conv, mtu, stream), Sends(conv, 0x8000_0002) + [CallSend([7])] + [CallFlush];
    WaitsAt(conv, mtu, stream, 0x8000_0002);
    CopyRuns(cb, calls, conv);
    LastOfFirst(conv);
  }

  lemma WaitsAt(conv: u32, mtu: nat, stream: bool, k: u32)
    requires 50 <= mtu <= 65535
    ensures var waits := Waits(Run(Create(conv, mtu, stream), Sends(conv, k) + [CallSend([7])] + [CallFlush]), conv, k); waits
  {
    assert U32(k) == k;
    SendsAcked(conv, mtu, stream, k);
    SendAndFlush(conv, mtu, stream, k);
  }

  lemma CopyRuns(cb: Cb, calls: seq<Call>, conv: u32)
    requires cb.conf.Ok()
    requires var waits := Waits(Run(cb, calls), conv, 0x8000_0002); waits
    ensures var acked := AllAcked(Run(cb, calls + [FirstUna(conv)]), conv, 0x8000_0003); acked
  {
    CopyDrops(Run(cb, calls), conv);
    RunLast(cb, calls, FirstUna(conv));
  }

  lemma LastOfFirst(conv: u32)
    ensures FirstUna(conv) in Sends(conv, 1)
  {
    assert Sends(conv, 1)[|Sends(conv, 1)| - 1] == FirstUna(conv);
  }

  lemma CopyDrops(cb: Cb, conv: u32)
    requires var waits := Waits(cb, conv, 0x8000_0002); waits
    ensures var acked := AllAcked(InputBytes(cb, UnaDatagram(conv, 1)).0, conv, 0x8000_0003); acked
  {
    assert Diff(W32, 1, 0x8000_0002) == 0x7FFF_FFFF;
    UnaArrives(cb, conv, 0x8000_0002, 1, 0x8000_0003);
  }
}
