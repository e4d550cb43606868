/** The rules of `Emission` and `Intake` over whole runs: they hold of the next call in every state that any sequence of
    calls, with any bytes as input, leads to. */
module RunRules {
  import opened Seqs
  import opened Serial
  import opened Wire
  import Fragments
  import opened SendWindow
  import opened Receiver
  import opened ControlBlock
  import opened Invariant
  import opened Emission
  import opened Intake
  import opened Calls
  import opened RunTimers
  import opened RunProbes

  /** The state a flush starts from: an update has set the clock. */
  function Clocked(cb: Cb, call: Call): Cb {
    if call.CallUpdate? then Ticked(cb, call.now) else cb
  }

  /** In any run, a call that flushes emits what the rules say, and leaves the state they say. */
  lemma RunsFlush(conv: u32, mtu: nat, stream: bool, calls: seq<Call>, call: Call)
    requires 50 <= mtu < 0x8000_0000
    requires Flushes(Run(Create(conv, mtu, stream), calls), call)
    ensures var cb := Run(Create(conv, mtu, stream), calls);
            && Clocked(cb, call).clock.updated
            && var right := FlushRight(W32, Clocked(cb, call), Apply(cb, call), Emitted(cb, call)); right
  {
    var cb := Create(conv, mtu, stream);
    AnyCallsKeep(conv, mtu, stream, calls);
    CallFlushes(Run(cb, calls), Limit(cb, calls), call);
  }

  lemma CallFlushes(cb: Cb, lim: nat, call: Call)
    requires CbOk(W32, cb, lim) && Flushes(cb, call)
    ensures Clocked(cb, call).conf.Ok() && Clocked(cb, call).clock.updated
    ensures var right := FlushRight(W32, Clocked(cb, call), Apply(cb, call), Emitted(cb, call)); right
  {
    match call
    case CallUpdate(now) =>
      assert CbOk(W32, Ticked(cb, now), lim);
      FlushIsRight(W32, Ticked(cb, now), lim);
    case CallFlush => FlushIsRight(W32, cb, lim);
  }

  /** In any run, the input of a datagram leaves in `snd_buf` exactly the numbers that it does not say to have been
      received. */
  lemma RunsTake(conv: u32, mtu: nat, stream: bool, calls: seq<Call>, data: Bytes)
    requires 50 <= mtu < 0x8000_0000 && LongEnough(data)
    requires var cb := Run(Create(conv, mtu, stream), calls); Plain(cb.snd, SegsOf(cb, data))
    ensures var cb := Run(Create(conv, mtu, stream), calls);
            forall n :: InBuf(Apply(cb, CallInput(data)).snd.buf, n) <==>
                        InBuf(cb.snd.buf, n) && !Taken(SegsOf(cb, data), n)
  {
    var cb := Create(conv, mtu, stream);
    AnyCallsKeep(conv, mtu, stream, calls);
    InputTakes(Run(cb, calls), Limit(cb, calls), data);
  }

  lemma AckKept(cb: Cb, call: Call, a: Ack)
    requires cb.conf.Ok() && a in cb.rcv.acks && !Flushes(cb, call)
    ensures a in Apply(cb, call).rcv.acks
  {
    match call
    case CallInput(data) =>
      InputAllAcks(cb, SegsOf(cb, data));
      InputAllConf(W32, cb, SegsOf(cb, data));
    case CallRecv(len) =>
      RecvAcks(cb, len);
    case _ =>
  }

  lemma RecvAcks(cb: Cb, len: int)
    ensures DoRecv(W32, cb, len).0.rcv.acks == cb.rcv.acks
  {
    var n := Fragments.RunLen(cb.rcv.queue);
    DrainAcks(W32, cb.rcv.(queue := if len < 0 then cb.rcv.queue else cb.rcv.queue[n..]));
  }

  /** The pair is in `acklist` after `k` calls. */
  predicate OwedAfter(cb: Cb, calls: seq<Call>, a: Ack, k: nat)
    requires cb.conf.Ok()
  {
    k <= |calls| && a in Run(cb, calls[..k]).rcv.acks
  }

  lemma AckStep(cb: Cb, calls: seq<Call>, j: nat, k: nat, a: Ack)
    requires cb.conf.Ok() && j < k < |calls|
    requires var none := NoFlushAfter(cb, calls, j); none
    requires var owed := OwedAfter(cb, calls, a, k); owed
    ensures var owed := OwedAfter(cb, calls, a, k + 1); owed
  {
    RunSnoc(cb, calls, k);
    assert !Flushes(Run(cb, calls[..k]), calls[k]);
    AckKept(Run(cb, calls[..k]), calls[k], a);
  }

  lemma AckLasts(cb: Cb, calls: seq<Call>, j: nat, a: Ack)
    requires cb.conf.Ok() && j < |calls|
    requires var none := NoFlushAfter(cb, calls, j); none
    requires var owed := OwedAfter(cb, calls, a, j + 1); owed
    ensures var owed := OwedAfter(cb, calls, a, |calls|); owed
  {
    forall k: nat | j + 1 <= k < |calls| && OwedAfter(cb, calls, a, k)
      ensures OwedAfter(cb, calls, a, k + 1)
    {
      AckStep(cb, calls, j, k, a);
    }
    Stepwise((k: nat) => OwedAfter(cb, calls, a, k), j + 1, |calls|);
  }

  /** The flush sends an acknowledgement of this number and time stamp. */
  ghost predicate Acknowledged(segs: seq<Seg>, sn: nat, ts: u32) {
    exists i :: 0 <= i < |segs| && segs[i].cmd == CMD_ACK && segs[i].sn == sn && segs[i].ts == ts
  }

  lemma PairIsSent(cb: Cb, lim: nat, call: Call, a: Ack)
    requires CbOk(W32, cb, lim) && Flushes(cb, call) && a in cb.rcv.acks
    ensures Acknowledged(Emitted(cb, call), a.sn, a.ts)
  {
    CallFlushes(cb, lim, call);
    var i :| 0 <= i < |cb.rcv.acks| && cb.rcv.acks[i] == a;
    var right := AcksRight(Clocked(cb, call), Emitted(cb, call));
    assert right;
    assert Emitted(cb, call)[i].sn == a.sn && Emitted(cb, call)[i].ts == a.ts;
  }

  /** The `i`-th segment of the datagram is a data segment that the receive window holds. */
  predicate InRcvWindow(cb: Cb, data: Bytes, i: nat) {
    && LongEnough(data) && i < |SegsOf(cb, data)| && SegsOf(cb, data)[i].cmd == CMD_PUSH
    && Offset(SegsOf(cb, data)[i].sn, cb.rcv.nxt) < cb.rcv.wnd <= 0x4000_0000
  }

  /** In any run, every data segment that comes in and that the window holds is acknowledged by number and time stamp in the
      next flush, whatever calls come in between. */
  lemma RunsAcknowledge(conv: u32, mtu: nat, stream: bool, calls: seq<Call>, j: nat, i: nat, call: Call)
    requires 50 <= mtu < 0x8000_0000 && j < |calls| && calls[j].CallInput?
    requires InRcvWindow(Run(Create(conv, mtu, stream), calls[..j]), calls[j].data, i)
    requires NoFlushAfter(Create(conv, mtu, stream), calls, j)
    requires Flushes(Run(Create(conv, mtu, stream), calls), call)
    ensures var seg := SegsOf(Run(Create(conv, mtu, stream), calls[..j]), calls[j].data)[i];
            Acknowledged(Emitted(Run(Create(conv, mtu, stream), calls), call), seg.sn, seg.ts)
  {
    var cb := Create(conv, mtu, stream);
    var before := Run(cb, calls[..j]);
    var seg := SegsOf(before, calls[j].data)[i];
    AnyCallsKeep(conv, mtu, stream, calls[..j]);
    InputAcknowledges(before, Limit(cb, calls[..j]), calls[j].data, i);
    RunSnoc(cb, calls, j);
    AckLasts(cb, calls, j, Ack(seg.sn, seg.ts));
    assert calls[..|calls|] == calls;
    AnyCallsKeep(conv, mtu, stream, calls);
    PairIsSent(Run(cb, calls), Limit(cb, calls), call, Ack(seg.sn, seg.ts));
  }
}
