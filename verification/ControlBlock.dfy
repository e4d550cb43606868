/** The control block as a value, and each API call as a function on it. The class in `Kcp.dfy` is proved to compute
    these functions (at width `W32`). */
module ControlBlock {
  import opened Serial
  import opened Wire
  import opened Fragments
  import opened Sender
  import opened Receiver
  import opened Estimator
  import opened Congestion

  const NO_RESEND: u32 := 0xFFFF_FFFF
  const PROBE_INIT := 7000
  const PROBE_LIMIT := 120000

  datatype Probe = Probe(ask: bool, tell: bool, ts: u32, wait: u32)

  datatype Clock = Clock(current: u32, interval: u32, flush: u32, updated: bool)

  /** What is set at creation or by the tuning calls. `mtu` and `stream` never change. */
  datatype Conf = Conf(conv: u32, mtu: nat, stream: bool, sndWnd: u32, nodelay: u32,
                       fastresend: i32, fastlimit: i32, nocwnd: bool, deadLink: u32)
  {
    predicate Ok() {
      50 <= mtu < 0x8000_0000 && 0 <= fastresend
    }

    function Mss(): (mss: nat)
      requires Ok()
    {
      mtu - OVERHEAD
    }
  }

  datatype Cb = Cb(conf: Conf, snd: Snd, rcv: Rcv, rtt: Rtt, cong: Cong, probe: Probe, clock: Clock,
                   rmtWnd: u16, xmit: u32, dead: bool)

  /** `ikcp_create`, followed by choosing the datagram size and the mode. */
  function Create(conv: u32, mtu: nat, stream: bool): Cb {
    Cb(Conf(conv, mtu, stream, 32, 0, 0, 5, false, 20),
       Snd(0, 0, [], []), Rcv(0, WND_RCV, [], [], []), Rtt(0, 0, 200, 100), Cong(0, 0, 2),
       Probe(false, false, 0, 0), Clock(0, 100, 100, false), 128, 0, false)
  }

  // ----- ikcp_send, ikcp_recv

  function DoSend(cb: Cb, msg: Bytes): (Cb, int)
    requires cb.conf.Ok()
  {
    var r := Send(cb.conf.Mss(), cb.conf.stream, cb.snd.queue, msg);
    (cb.(snd := cb.snd.(queue := r.queue)), r.code)
  }

  function DoRecv(w: Width, cb: Cb, len: int): (Cb, int, Bytes) {
    var r := Recv(w, cb.rcv, len);
    (cb.(rcv := r.rcv, probe := cb.probe.(tell := cb.probe.tell || r.reopens)), r.code, r.data)
  }

  // ----- ikcp_input

  function InputRtt(cb: Cb, seg: Seg): Rtt {
    if seg.cmd == CMD_ACK && Since(cb.clock.current, seg.ts) >= 0
    then UpdateAck(cb.rtt, cb.clock.interval, Since(cb.clock.current, seg.ts))
    else cb.rtt
  }

  /** One turn of the decoding loop. */
  function InputOne(w: Width, cb: Cb, seg: Seg): Cb {
    cb.(rmtWnd := seg.wnd,
        snd := SndInput(w, cb.snd, seg),
        rtt := InputRtt(cb, seg),
        rcv := if seg.cmd == CMD_PUSH then RcvInput(w, cb.rcv, seg) else cb.rcv,
        probe := cb.probe.(tell := cb.probe.tell || seg.cmd == CMD_WASK))
  }

  function InputAll(w: Width, cb: Cb, segs: seq<Seg>): Cb {
    if segs == [] then cb else InputOne(w, InputAll(w, cb, segs[..|segs| - 1]), segs[|segs| - 1])
  }

  /** `flag` and `maxack`. */
  datatype Mark = NoAck | Newest(sn: nat)

  function MarkOne(w: Width, m: Mark, seg: Seg): Mark {
    if seg.cmd == CMD_ACK && (m.NoAck? || Diff(w, seg.sn, m.sn) > 0) then Newest(seg.sn) else m
  }

  function MarkAll(w: Width, segs: seq<Seg>): Mark {
    if segs == [] then NoAck else MarkOne(w, MarkAll(w, segs[..|segs| - 1]), segs[|segs| - 1])
  }

  /** What follows the loop: count overtaken segments, and open the congestion window if `snd_una` has advanced. */
  function FinishInput(w: Width, cb: Cb, prevUna: nat, m: Mark): Cb
    requires cb.conf.Ok()
  {
    cb.(snd := if m.Newest? then ParseFastack(w, cb.snd, m.sn) else cb.snd,
        cong := if Diff(w, cb.snd.una, prevUna) > 0 then Grow(cb.cong, cb.rmtWnd, cb.conf.Mss()) else cb.cong)
  }

  function InputSegs(w: Width, cb: Cb, segs: seq<Seg>): Cb
    requires cb.conf.Ok()
  {
    InputAllConf(w, cb, segs);
    FinishInput(w, InputAll(w, cb, segs), cb.snd.una, MarkAll(w, segs))
  }

  lemma {:induction false} InputAllConf(w: Width, cb: Cb, segs: seq<Seg>)
    ensures InputAll(w, cb, segs).conf == cb.conf
    ensures InputAll(w, cb, segs).clock == cb.clock
    ensures InputAll(w, cb, segs).cong == cb.cong
  {
    if segs != [] {
      InputAllConf(w, cb, segs[..|segs| - 1]);
    }
  }

  /** `ikcp_input` on raw bytes. Segments before a malformed one have already taken effect when it is found. */
  function InputBytes(cb: Cb, data: Bytes): (Cb, int)
    requires cb.conf.Ok()
  {
    if I32(|data|) < OVERHEAD then (cb, -1)
    else
      var p := Parse(cb.conf.conv, data);
      if p.code < 0 then (InputAll(W32, cb, p.segs), p.code) else (InputSegs(W32, cb, p.segs), 0)
  }

  // ----- ikcp_flush

  /** The header a flush starts from. */
  function Template(cb: Cb): Seg {
    Seg(cb.conf.conv, CMD_ACK, 0, WndUnused(cb.rcv), 0, 0, cb.rcv.nxt, [])
  }

  function AckSeg(h: Seg, a: Ack): Seg {
    h.(sn := a.sn, ts := a.ts)
  }

  function AckSegs(h: Seg, acks: seq<Ack>): seq<Seg> {
    if acks == [] then [] else AckSegs(h, acks[..|acks| - 1]) + [AckSeg(h, acks[|acks| - 1])]
  }

  /** The header struct as the acknowledgement loop leaves it: the probes that follow carry its `sn` and `ts`. */
  function LastHeader(h: Seg, acks: seq<Ack>): Seg {
    if acks == [] then h else AckSeg(h, acks[|acks| - 1])
  }

  /** The zero-window probe timer. */
  function ProbeTick(p: Probe, rmtWnd: u16, current: u32): Probe {
    if rmtWnd != 0 then p.(ts := 0, wait := 0)
    else if p.wait == 0 then p.(wait := PROBE_INIT, ts := U32(current + PROBE_INIT))
    else if Since(current, p.ts) >= 0 then
      var wait := NextWait(p.wait);
      p.(wait := wait, ts := U32(current + wait), ask := true)
    else p
  }

  function NextWait(wait: u32): u32 {
    var low := if wait < PROBE_INIT then PROBE_INIT else wait;
    var next := U32(low + low / 2);
    if next > PROBE_LIMIT then PROBE_LIMIT else next
  }

  function ProbeSegs(p: Probe, h: Seg): seq<Seg> {
    (if p.ask then [h.(cmd := CMD_WASK)] else []) + (if p.tell then [h.(cmd := CMD_WINS)] else [])
  }

  /** The window in force: the configured one, the peer's and, unless switched off, the congestion window. */
  function Window(cb: Cb): u32 {
    var wnd := if cb.conf.sndWnd <= cb.rmtWnd then cb.conf.sndWnd else cb.rmtWnd;
    if !cb.conf.nocwnd && cb.cong.cwnd <= wnd then cb.cong.cwnd else wnd
  }

  function Resent(conf: Conf): u32 {
    if conf.fastresend > 0 then conf.fastresend else NO_RESEND
  }

  function Env(cb: Cb): FlushEnv {
    FlushEnv(cb.conf.conv, WndUnused(cb.rcv), cb.rcv.nxt, cb.clock.current, cb.rtt.rto, Resent(cb.conf),
             if cb.conf.nodelay == 0 then cb.rtt.rto / 8 else 0, cb.conf.nodelay, cb.conf.fastlimit)
  }

  function Moved(w: Width, cb: Cb): Snd {
    MoveToBuf(w, cb.snd, Env(cb), Window(cb))
  }

  function Swept(w: Width, cb: Cb): Sweep {
    SweepBuf(Moved(w, cb).buf, Env(cb), cb.conf.deadLink)
  }

  /** Everything before the data: acknowledgements, then window probes. */
  function ControlSegs(cb: Cb): seq<Seg> {
    AckSegs(Template(cb), cb.rcv.acks) +
    ProbeSegs(ProbeTick(cb.probe, cb.rmtWnd, cb.clock.current), LastHeader(Template(cb), cb.rcv.acks))
  }

  /** The segments of one flush, in the order in which they are packed into datagrams. */
  function FlushSegs(w: Width, cb: Cb): seq<Seg> {
    if cb.clock.updated then ControlSegs(cb) + Swept(w, cb).out else []
  }

  function InflightOf(w: Width, s: Snd): u32 {
    U32(s.nxt - s.una)
  }

  /** A 32-bit counter incremented `n` times. */
  function CountUp(x: u32, n: nat): u32 {
    if n == 0 then x else U32(CountUp(x, n - 1) + 1)
  }

  function DoFlush(w: Width, cb: Cb): Cb
    requires cb.conf.Ok()
  {
    if cb.clock.updated then
      var snd, t := Moved(w, cb), Swept(w, cb);
      cb.(snd := snd.(buf := t.buf),
          rcv := cb.rcv.(acks := []),
          probe := ProbeTick(cb.probe, cb.rmtWnd, cb.clock.current).(ask := false, tell := false),
          xmit := CountUp(cb.xmit, t.timeouts),
          dead := cb.dead || t.dead,
          cong := AfterFlush(cb.cong, t.fast, t.timeouts > 0, InflightOf(w, snd), Resent(cb.conf), Window(cb), cb.conf.Mss()))
    else cb
  }

  // ----- ikcp_update, ikcp_check

  /** The flush timer: the new clock, and whether a flush is due. */
  function Tick(c: Clock, now: u32): (Clock, bool) {
    var c1 := c.(current := now, updated := true, flush := if c.updated then c.flush else now);
    var slap := Since(now, c1.flush);
    var late := slap >= 10000 || slap < -10000;
    if late || slap >= 0 then
      var next := U32((if late then now else c1.flush) + c.interval);
      (c1.(flush := if Since(now, next) >= 0 then U32(now + c.interval) else next), true)
    else (c1, false)
  }

  function Ticked(cb: Cb, now: u32): Cb {
    cb.(clock := Tick(cb.clock, now).0)
  }

  function DoUpdate(w: Width, cb: Cb, now: u32): Cb
    requires cb.conf.Ok()
  {
    if Tick(cb.clock, now).1 then DoFlush(w, Ticked(cb, now)) else Ticked(cb, now)
  }

  function UpdateSegs(w: Width, cb: Cb, now: u32): seq<Seg> {
    if Tick(cb.clock, now).1 then FlushSegs(w, Ticked(cb, now)) else []
  }

  /** The smallest distance to a retransmission deadline, or 0 if one has passed. */
  function NextResend(buf: seq<Sent>, current: u32): (d: i32)
    ensures d >= 0
  {
    if buf == [] then 0x7FFF_FFFF
    else
      var rest := NextResend(buf[..|buf| - 1], current);
      var diff := Since(buf[|buf| - 1].resendts, current);
      if rest == 0 || diff <= 0 then 0 else if diff < rest then diff else rest
  }

  function DoCheck(cb: Cb, current: u32): u32 {
    var slap := Since(current, cb.clock.flush);
    if !cb.clock.updated || slap >= 0 || slap < -10000 then current
    else
      var packet := NextResend(cb.snd.buf, current);
      U32(current + Min(Min(packet, Since(cb.clock.flush, current)), cb.clock.interval))
  }

  // ----- tuning calls

  function DoWndSize(cb: Cb, snd: i32, rcv: i32): Cb {
    cb.(conf := if snd > 0 then cb.conf.(sndWnd := snd) else cb.conf,
        rcv := if rcv > 0 then cb.rcv.(wnd := Max(rcv, WND_RCV)) else cb.rcv)
  }

  function ClampInterval(i: i32): u32 {
    if i > 5000 then 5000 else if i < 10 then 10 else i
  }

  function DoNoDelay(cb: Cb, nodelay: i32, interval: i32, resend: i32, nc: i32): Cb {
    cb.(conf := cb.conf.(nodelay := if nodelay >= 0 then nodelay else cb.conf.nodelay,
                         fastresend := if resend >= 0 then resend else cb.conf.fastresend,
                         nocwnd := if nc >= 0 then nc != 0 else cb.conf.nocwnd),
        rtt := if nodelay >= 0 then cb.rtt.(minrto := if nodelay != 0 then 30 else 100) else cb.rtt,
        clock := if interval >= 0 then cb.clock.(interval := ClampInterval(interval)) else cb.clock)
  }

  function DoInterval(cb: Cb, interval: i32): Cb {
    cb.(clock := cb.clock.(interval := ClampInterval(interval)))
  }
}
