/** The sending half of a control block: `snd_una`, `snd_nxt`, `snd_queue` and `snd_buf`. */
module Sender {
  import opened Serial
  import opened Wire
  import opened Fragments

  /** An entry of `snd_buf`: a numbered segment with its retransmission state. */
  datatype Sent = Sent(seg: Seg, resendts: u32, rto: u32, fastack: u32, xmit: u32)

  datatype Snd = Snd(una: nat, nxt: nat, queue: seq<Frag>, buf: seq<Sent>)

  // ----- acknowledgements

  /** `ikcp_parse_una`: drop entries from the front while they are before `una`. */
  function ParseUna(w: Width, buf: seq<Sent>, una: nat): seq<Sent> {
    if buf != [] && Diff(w, una, buf[0].seg.sn) > 0 then ParseUna(w, buf[1..], una) else buf
  }

  /** `ikcp_shrink_buf` */
  function ShrinkBuf(s: Snd): Snd {
    s.(una := if s.buf != [] then s.buf[0].seg.sn else s.nxt)
  }

  predicate InFlight(w: Width, s: Snd, sn: nat) {
    Diff(w, sn, s.una) >= 0 && Diff(w, sn, s.nxt) < 0
  }

  /** The loop of `ikcp_parse_ack`: find the entry numbered `sn`, giving up at the first later number. */
  function RemoveAcked(w: Width, buf: seq<Sent>, sn: nat): seq<Sent> {
    if buf == [] then []
    else if sn == buf[0].seg.sn then buf[1..]
    else if Diff(w, sn, buf[0].seg.sn) < 0 then buf
    else [buf[0]] + RemoveAcked(w, buf[1..], sn)
  }

  function ParseAck(w: Width, s: Snd, sn: nat): Snd {
    if InFlight(w, s, sn) then s.(buf := RemoveAcked(w, s.buf, sn)) else s
  }

  function Skip(x: Sent): Sent {
    x.(fastack := U32(x.fastack + 1))
  }

  /** The loop of `ikcp_parse_fastack`: count every entry that the acknowledgement `sn` has overtaken. */
  function CountSkipped(w: Width, buf: seq<Sent>, sn: nat): seq<Sent> {
    if buf == [] || Diff(w, sn, buf[0].seg.sn) < 0 then buf
    else [if sn != buf[0].seg.sn then Skip(buf[0]) else buf[0]] + CountSkipped(w, buf[1..], sn)
  }

  function ParseFastack(w: Width, s: Snd, sn: nat): Snd {
    if InFlight(w, s, sn) then s.(buf := CountSkipped(w, s.buf, sn)) else s
  }

  /** What one incoming segment does to the sending half. */
  function SndInput(w: Width, s: Snd, seg: Seg): Snd {
    var s1 := ShrinkBuf(s.(buf := ParseUna(w, s.buf, seg.una)));
    if seg.cmd == CMD_ACK then ShrinkBuf(ParseAck(w, s1, seg.sn)) else s1
  }

  // ----- from queue to buffer

  /** The header fields and timers a flush puts on the segments it sends. */
  datatype FlushEnv = FlushEnv(conv: u32, wnd: u16, una: nat, current: u32, rxRto: u32,
                               resent: u32, rtomin: u32, nodelay: u32, fastlimit: i32)

  function Number(e: FlushEnv, f: Frag, sn: nat): Sent {
    Sent(Seg(e.conv, CMD_PUSH, f.frg, e.wnd, e.current, sn, e.una, f.data), e.current, e.rxRto, 0, 0)
  }

  /** The loop that moves segments from `snd_queue` into `snd_buf` while the window has room. */
  function MoveToBuf(w: Width, s: Snd, e: FlushEnv, cwnd: nat): Snd
    decreases |s.queue|
  {
    if Diff(w, s.nxt, Add(w, s.una, cwnd)) < 0 && s.queue != [] then
      MoveToBuf(w, Snd(s.una, Add(w, s.nxt, 1), s.queue[1..], s.buf + [Number(e, s.queue[0], s.nxt)]), e, cwnd)
    else s
  }

  // ----- (re)transmission

  datatype Cause = Hold | First | Timeout | FastResend

  function CauseOf(x: Sent, e: FlushEnv): Cause {
    if x.xmit == 0 then First
    else if Since(e.current, x.resendts) >= 0 then Timeout
    else if x.fastack >= e.resent && (I32(x.xmit) <= e.fastlimit || e.fastlimit <= 0) then FastResend
    else Hold
  }

  /** The retransmission timeout of a segment after it has expired once more. */
  function BackOff(rto: u32, rxRto: u32, nodelay: u32): u32 {
    if nodelay == 0 then U32(rto + (if rto >= rxRto then rto else rxRto))
    else U32(rto + TruncDiv(if nodelay < 2 then I32(rto) else I32(rxRto), 2))
  }

  function Stamp(x: Sent, e: FlushEnv): Sent {
    x.(seg := x.seg.(ts := e.current, wnd := e.wnd, una := e.una), xmit := U32(x.xmit + 1))
  }

  function FlushOne(x: Sent, e: FlushEnv): Sent {
    match CauseOf(x, e)
    case Hold => x
    case First => Stamp(x, e).(rto := e.rxRto, resendts := U32(e.current + e.rxRto + e.rtomin))
    case Timeout =>
      var rto := BackOff(x.rto, e.rxRto, e.nodelay);
      Stamp(x, e).(rto := rto, resendts := U32(e.current + rto))
    case FastResend => Stamp(x, e).(fastack := 0, resendts := U32(e.current + x.rto))
  }

  /** What the transmission loop has done after the entries of `buf`: the updated entries, the segments sent, how many
      timed out, whether any was resent early, and whether any reached the transmission limit. */
  datatype Sweep = Sweep(buf: seq<Sent>, out: seq<Seg>, timeouts: nat, fast: bool, dead: bool)

  function SweepWith(t: Sweep, y: Sent, cause: Cause, deadLink: u32): Sweep {
    Sweep(t.buf + [y],
          if cause == Hold then t.out else t.out + [y.seg],
          if cause == Timeout then t.timeouts + 1 else t.timeouts,
          t.fast || cause == FastResend,
          t.dead || (cause != Hold && y.xmit >= deadLink))
  }

  function SweepOne(t: Sweep, x: Sent, e: FlushEnv, deadLink: u32): Sweep {
    SweepWith(t, FlushOne(x, e), CauseOf(x, e), deadLink)
  }

  function SweepBuf(buf: seq<Sent>, e: FlushEnv, deadLink: u32): Sweep {
    if buf == [] then Sweep([], [], 0, false, false)
    else SweepOne(SweepBuf(buf[..|buf| - 1], e, deadLink), buf[|buf| - 1], e, deadLink)
  }

  lemma {:induction false} SweepIsMap(buf: seq<Sent>, e: FlushEnv, deadLink: u32)
    ensures |SweepBuf(buf, e, deadLink).buf| == |buf|
    ensures forall i :: 0 <= i < |buf| ==> SweepBuf(buf, e, deadLink).buf[i] == FlushOne(buf[i], e)
  {
    if buf != [] {
      SweepIsMap(buf[..|buf| - 1], e, deadLink);
    }
  }

  /** The two congestion signals of a sweep: a timeout, and an early resend. */
  lemma {:induction false} SweepSignals(buf: seq<Sent>, e: FlushEnv, deadLink: u32)
    ensures SweepBuf(buf, e, deadLink).timeouts <= |buf|
    ensures SweepBuf(buf, e, deadLink).timeouts > 0 <==> exists i :: 0 <= i < |buf| && CauseOf(buf[i], e) == Timeout
    ensures SweepBuf(buf, e, deadLink).fast <==> exists i :: 0 <= i < |buf| && CauseOf(buf[i], e) == FastResend
  {
    if buf != [] {
      SweepSignals(buf[..|buf| - 1], e, deadLink);
    }
  }

  /** The segments sent are exactly those with a cause, each as updated. */
  lemma {:induction false} SweepSends(buf: seq<Sent>, e: FlushEnv, deadLink: u32, s: Seg)
    ensures s in SweepBuf(buf, e, deadLink).out <==>
            exists i :: 0 <= i < |buf| && CauseOf(buf[i], e) != Hold && s == FlushOne(buf[i], e).seg
  {
    if buf != [] {
      SweepSends(buf[..|buf| - 1], e, deadLink, s);
    }
  }
}
