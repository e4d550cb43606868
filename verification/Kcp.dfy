/** The engine itself: the control block as an object, updated in place by loops, proved to compute the functions of
    `ControlBlock` at 32 bits and to keep one invariant for arbitrary input. */
module Engine {
  import opened Seqs
  import opened Serial
  import opened Wire
  import opened Fragments
  import opened Sender
  import opened SendWindow
  import opened Receiver
  import opened Estimator
  import opened Congestion
  import opened ControlBlock
  import opened Invariant
  import opened Emission
  import opened Intake
  import opened EngineLoops

  /** The fields of the control block, grouped by what they belong to, with the four list counters beside them. The
      datagram size and the buffer are fixed at creation. */
  class Kcp {
    const buffer: array<Byte>

    var conf: Conf
    var snd: Snd
    var rcv: Rcv
    var rtt: Rtt
    var cong: Cong
    var probe: Probe
    var clock: Clock
    var rmtWnd: u16
    var xmit: u32
    var dead: bool

    var nsndQue: nat
    var nsndBuf: nat
    var nrcvQue: nat
    var nrcvBuf: nat

    /** The largest receive window configured so far. */
    ghost var rcvLim: nat

    function Abs(): Cb
      reads this
    {
      Cb(conf, snd, rcv, rtt, cong, probe, clock, rmtWnd, xmit, dead)
    }

    /** Every counter equals the length of its list. */
    ghost predicate Counted()
      reads this
    {
      nsndQue == |snd.queue| && nsndBuf == |snd.buf| && nrcvQue == |rcv.queue| && nrcvBuf == |rcv.buf|
    }

    ghost predicate Valid()
      reads this
    {
      Counted() && buffer.Length == (conf.mtu + OVERHEAD) * 3 && CbOk(W32, Abs(), rcvLim)
    }

    constructor (conv: u32, mtu: nat, stream: bool)
      requires 50 <= mtu < 0x8000_0000
      ensures Valid() && fresh(buffer) && rcvLim == WND_RCV
      ensures Abs() == Create(conv, mtu, stream)
    {
      buffer := new Byte[(mtu + OVERHEAD) * 3];
      conf := Conf(conv, mtu, stream, 32, 0, 0, 5, false, 20);
      snd := Snd(0, 0, [], []);
      rcv := Rcv(0, WND_RCV, [], [], []);
      rtt := Rtt(0, 0, 200, 100);
      cong := Cong(0, 0, 2);
      probe := Probe(false, false, 0, 0);
      clock := Clock(0, 100, 100, false);
      rmtWnd, xmit, dead := 128, 0, false;
      nsndQue, nsndBuf, nrcvQue, nrcvBuf := 0, 0, 0, 0;
      rcvLim := WND_RCV;
      new;
      CreateOk(W32, conv, mtu, stream);
    }

    // ----- receiving

    /** Moves what is next in order from `rcv_buf` to `rcv_queue`. */
    method MoveReceived()
      requires Counted()
      modifies `rcv, `nrcvQue, `nrcvBuf
      ensures Counted() && rcv == Drain(W32, old(rcv)) && rcv.wnd == old(rcv).wnd
    {
      while nrcvBuf > 0
        invariant Counted() && Drain(W32, rcv) == Drain(W32, old(rcv)) && rcv.wnd == old(rcv).wnd
        decreases |rcv.buf|
      {
        var seg := rcv.buf[0];
        if seg.sn == rcv.nxt && nrcvQue < rcv.wnd {
          rcv := rcv.(buf := rcv.buf[1..], queue := rcv.queue + [FragOf(seg)], nxt := U32(rcv.nxt + 1));
          nrcvBuf := nrcvBuf - 1;
          nrcvQue := nrcvQue + 1;
        } else {
          break;
        }
      }
    }

    /** `ikcp_peeksize` */
    method Peek() returns (length: int)
      requires Counted()
      ensures length == PeekSize(rcv.queue)
    {
      var q := rcv.queue;
      if nrcvQue == 0 {
        return -1;
      }
      if q[0].frg == 0 {
        return |q[0].data|;
      }
      if nrcvQue < q[0].frg + 1 {
        return -1;
      }
      var i := 0;
      length := 0;
      while i < nrcvQue
        invariant i <= |q| && length + RunBytes(q[i..]) == RunBytes(q)
      {
        assert q[i..][1..] == q[i + 1..];
        length := length + |q[i].data|;
        i := i + 1;
        if q[i - 1].frg == 0 {
          return;
        }
      }
    }

    /** The merge loop of `ikcp_recv`. */
    method Merge(ispeek: bool) returns (data: Bytes)
      requires Counted()
      modifies `rcv, `nrcvQue
      ensures Counted()
      ensures var q := old(rcv).queue;
              data == Join(q[..RunLen(q)]) &&
              rcv == old(rcv).(queue := if ispeek then q else q[RunLen(q)..])
    {
      var q := rcv.queue;
      var i := 0;
      data := [];
      while i < |q|
        invariant i <= |q| && i + RunLen(q[i..]) == RunLen(q) && data == Join(q[..i])
        invariant Counted() && rcv == old(rcv).(queue := if ispeek then q else q[i..])
      {
        RunStep(q, i);
        data := data + q[i].data;
        if !ispeek {
          rcv := rcv.(queue := rcv.queue[1..]);
          nrcvQue := nrcvQue - 1;
        }
        i := i + 1;
        if q[i - 1].frg == 0 {
          return;
        }
      }
    }

    /** The body of `ikcp_recv`, up to announcing a reopened window. */
    method Take(len: int) returns (code: int, data: Bytes, reopens: bool)
      requires Counted()
      modifies `rcv, `nrcvQue, `nrcvBuf
      ensures Counted() && RecvOutcome(rcv, code, data, reopens) == Receiver.Recv(W32, old(rcv), len)
    {
      RecvLength(W32, rcv, len);
      var size := if len < 0 then -len else len;
      var peeksize := Peek();
      reopens := false;
      if nrcvQue == 0 {
        code, data := -1, [];
      } else if peeksize < 0 {
        code, data := -2, [];
      } else if peeksize > size {
        code, data := -3, [];
      } else {
        var recover := nrcvQue >= rcv.wnd;
        data := Merge(len < 0);
        MoveReceived();
        reopens := nrcvQue < rcv.wnd && recover;
        code := |data|;
      }
    }

    /** `ikcp_recv` */
    method Recv(len: int) returns (code: int, data: Bytes)
      requires Valid()
      modifies `rcv, `nrcvQue, `nrcvBuf, `probe
      ensures Valid() && (Abs(), code, data) == DoRecv(W32, old(Abs()), len)
      ensures Drained(old(rcv)) || code >= 0 ==> Drained(rcv)
      ensures probe.tell <==>
              old(probe.tell) || (code >= 0 && |old(rcv).queue| >= old(rcv).wnd && |rcv.queue| < rcv.wnd)
    {
      RecvOk(W32, Abs(), rcvLim, len);
      RecvTells(Abs(), len);
      RecvKeeps(W32, rcv, rcvLim, len);
      var reopens: bool;
      code, data, reopens := Take(len);
      if reopens {
        probe := probe.(tell := true);
      }
    }

    // ----- sending

    /** `ikcp_send`: the first `len` bytes of `data`. */
    method Send(data: Bytes, len: int) returns (code: int)
      requires Valid() && len <= |data|
      modifies `snd, `nsndQue
      ensures Valid()
      ensures len < 0 ==> code == -1 && Abs() == old(Abs())
      ensures len >= 0 ==> (Abs(), code) == DoSend(old(Abs()), data[..len])
      ensures len >= 0 ==>
                var room := RoomAtEnd(conf.Mss(), conf.stream, old(snd).queue);
                code == if len - room > 127 * conf.Mss() then -2 else 0
    {
      if len < 0 {
        return -1;
      }
      SendAccepts(conf.Mss(), conf.stream, snd.queue, data[..len]);
      SendOk(W32, Abs(), rcvLim, data[..len]);
      var rest := data[..len];
      if conf.stream {
        rest := ExtendLast(rest);
      } else {
        assert rest[0..] == rest;
      }
      if conf.stream && |rest| <= 0 {
        return 0;
      }
      code := Split(rest);
    }

    /** Stream mode: fill up the last queued segment. */
    method ExtendLast(msg: Bytes) returns (rest: Bytes)
      requires Counted() && conf.Ok() && conf.stream
      modifies `snd
      ensures Counted()
      ensures snd == old(snd).(queue := Extended(conf.Mss(), true, old(snd).queue, msg))
      ensures rest == msg[Extend(conf.Mss(), true, old(snd).queue, msg)..]
    {
      rest := msg;
      var mss := conf.Mss();
      if nsndQue > 0 {
        var last := snd.queue[nsndQue - 1];
        if |last.data| < mss {
          var capacity := mss - |last.data|;
          var extend := if |msg| < capacity then |msg| else capacity;
          snd := snd.(queue := snd.queue[..nsndQue - 1] + [Frag(0, last.data + msg[..extend])]);
          rest := msg[extend..];
        }
      }
    }

    /** Refuse what needs too many segments, and queue the rest. */
    method Split(msg: Bytes) returns (code: int)
      requires Counted() && conf.Ok()
      modifies `snd, `nsndQue
      ensures Counted() && code == if FragCount(conf.Mss(), |msg|) >= WND_RCV then -2 else 0
      ensures snd == if code < 0 then old(snd)
                     else old(snd).(queue := old(snd).queue +
                                             Pieces(conf.Mss(), msg, FragCount(conf.Mss(), |msg|), conf.stream))
    {
      var mss := conf.Mss();
      var count := if |msg| <= mss then 1 else (|msg| + mss - 1) / mss;
      CountCovers(mss, |msg|);
      if count >= WND_RCV {
        return -2;
      }
      if count == 0 {
        count := 1;
      }
      Enqueue(msg, count);
      code := 0;
    }

    /** The fragmenting loop of `ikcp_send`. */
    method Enqueue(msg: Bytes, count: nat)
      requires Counted() && 1 <= count <= WND_RCV && conf.Ok()
      modifies `snd, `nsndQue
      ensures Counted()
      ensures snd == old(snd).(queue := old(snd).queue + Pieces(conf.Mss(), msg, count, conf.stream))
    {
      var mss := conf.Mss();
      var rest := msg;
      var i := 0;
      ghost var all := snd.queue + Pieces(mss, msg, count, conf.stream);
      while i < count
        invariant i <= count && Counted()
        invariant snd == old(snd).(queue := snd.queue)
        invariant snd.queue + Pieces(mss, rest, count - i, conf.stream) == all
      {
        var size := if |rest| > mss then mss else |rest|;
        var f := Frag(if conf.stream then 0 else count - i - 1, rest[..size]);
        Assoc(snd.queue, [f], Pieces(mss, rest[size..], count - i - 1, conf.stream));
        snd := snd.(queue := snd.queue + [f]);
        nsndQue := nsndQue + 1;
        rest := rest[size..];
        i := i + 1;
      }
    }

    // ----- input

    /** `ikcp_update_ack` */
    method UpdateRtt(sample: i32)
      modifies `rtt
      ensures rtt == UpdateAck(old(rtt), clock.interval, sample)
    {
      if rtt.srtt == 0 {
        rtt := rtt.(srtt := sample, rttval := TruncDiv(sample, 2));
      } else {
        var delta: int := I32(sample - rtt.srtt);
        if delta < 0 {
          delta := -delta;
        }
        var srtt := TruncDiv(I32(I32(7 * rtt.srtt) + sample), 8);
        rtt := rtt.(rttval := I32(TruncDiv(I32(3 * rtt.rttval) + delta, 4)), srtt := if srtt < 1 then 1 else srtt);
      }
      rtt := rtt.(rto := Bounded(rtt, clock.interval));
    }

    /** `ikcp_shrink_buf` */
    method UpdateUna()
      requires Counted()
      modifies `snd
      ensures Counted() && snd == ShrinkBuf(old(snd))
    {
      if nsndBuf > 0 {
        snd := snd.(una := snd.buf[0].seg.sn);
      } else {
        snd := snd.(una := snd.nxt);
      }
    }

    /** `ikcp_parse_una` */
    method DropBefore(una: nat)
      requires Counted()
      modifies `snd, `nsndBuf
      ensures Counted() && snd == old(snd).(buf := ParseUna(W32, old(snd).buf, una))
    {
      while nsndBuf > 0
        invariant Counted() && snd == old(snd).(buf := snd.buf)
        invariant ParseUna(W32, snd.buf, una) == ParseUna(W32, old(snd).buf, una)
        decreases |snd.buf|
      {
        if Diff(W32, una, snd.buf[0].seg.sn) > 0 {
          snd := snd.(buf := snd.buf[1..]);
          nsndBuf := nsndBuf - 1;
        } else {
          break;
        }
      }
    }

    /** `ikcp_parse_ack` */
    method DropAcked(sn: nat)
      requires Counted()
      modifies `snd, `nsndBuf
      ensures Counted() && snd == ParseAck(W32, old(snd), sn)
    {
      if Diff(W32, sn, snd.una) < 0 || Diff(W32, sn, snd.nxt) >= 0 {
        return;
      }
      ghost var b := snd.buf;
      var i := 0;
      while i < nsndBuf
        invariant i <= |b| && Counted() && snd == old(snd)
        invariant RemoveAcked(W32, b, sn) == b[..i] + RemoveAcked(W32, b[i..], sn)
      {
        RemoveAckedStep(b, i, sn);
        if sn == snd.buf[i].seg.sn {
          snd := snd.(buf := snd.buf[..i] + snd.buf[i + 1..]);
          nsndBuf := nsndBuf - 1;
          return;
        }
        if Diff(W32, sn, snd.buf[i].seg.sn) < 0 {
          return;
        }
        i := i + 1;
      }
      SplitWhole(b, i);
    }

    /** `ikcp_parse_fastack` */
    method CountOvertaken(sn: nat)
      requires Counted()
      modifies `snd
      ensures Counted() && snd == ParseFastack(W32, old(snd), sn)
    {
      if Diff(W32, sn, snd.una) < 0 || Diff(W32, sn, snd.nxt) >= 0 {
        return;
      }
      ghost var b := snd.buf;
      ghost var done: seq<Sent> := [];
      var i := 0;
      while i < nsndBuf
        invariant |done| == i <= nsndBuf == |b| == |snd.buf| && snd == old(snd).(buf := snd.buf)
        invariant var walking := Overtaking(b, sn, done, snd.buf); walking
      {
        var x := snd.buf[i];
        OvertakingStep(b, sn, done, snd.buf);
        if Diff(W32, sn, x.seg.sn) < 0 {
          return;
        }
        var y := if sn != x.seg.sn then Skip(x) else x;
        snd := snd.(buf := snd.buf[i := y]);
        done := done + [y];
        i := i + 1;
      }
      OvertakingDone(b, sn, done, snd.buf);
    }

    /** The backward search of `ikcp_parse_data` and the insertion behind the place found. */
    method Place(seg: Seg)
      requires Counted()
      modifies `rcv, `nrcvBuf
      ensures Counted() && rcv == old(rcv).(buf := Insert(W32, old(rcv).buf, seg))
    {
      ghost var b := rcv.buf;
      var p := nrcvBuf;
      assert b[..p] == b;
      while p > 0
        invariant 0 <= p <= |b| && Counted() && rcv == old(rcv)
        invariant Insert(W32, b, seg) == Insert(W32, b[..p], seg) + b[p..]
      {
        var x := rcv.buf[p - 1];
        InsertStep(b, p, seg);
        if x.sn == seg.sn {
          return;
        }
        if Diff(W32, seg.sn, x.sn) > 0 {
          break;
        }
        p := p - 1;
      }
      assert Insert(W32, b, seg) == b[..p] + [seg] + b[p..];
      rcv := rcv.(buf := rcv.buf[..p] + [seg] + rcv.buf[p..]);
      nrcvBuf := nrcvBuf + 1;
    }

    /** `ikcp_parse_data` */
    method ParseNew(seg: Seg)
      requires Counted()
      modifies `rcv, `nrcvQue, `nrcvBuf
      ensures Counted() && rcv == ParseData(W32, old(rcv), seg)
    {
      if Diff(W32, seg.sn, U32(rcv.nxt + rcv.wnd)) >= 0 || Diff(W32, seg.sn, rcv.nxt) < 0 {
        return;
      }
      Place(seg);
      MoveReceived();
    }

    /** What a data segment does: acknowledge it (`ikcp_ack_push`) and keep it if it is new. */
    method InputData(seg: Seg)
      requires Counted()
      modifies `rcv, `nrcvQue, `nrcvBuf
      ensures Counted() && rcv == RcvInput(W32, old(rcv), seg)
    {
      if Diff(W32, seg.sn, U32(rcv.nxt + rcv.wnd)) < 0 {
        rcv := rcv.(acks := rcv.acks + [Ack(seg.sn, seg.ts)]);
        if Diff(W32, seg.sn, rcv.nxt) >= 0 {
          ParseNew(seg);
        }
      }
    }

    /** What a segment does to the sending half. */
    method InputSnd(seg: Seg)
      requires Counted()
      modifies `snd, `nsndBuf
      ensures Counted() && snd == SndInput(W32, old(snd), seg)
    {
      DropBefore(seg.una);
      UpdateUna();
      if seg.cmd == CMD_ACK {
        DropAcked(seg.sn);
        UpdateUna();
      }
    }

    /** One turn of the loop of `ikcp_input`, after decoding. */
    method InputSegment(seg: Seg)
      requires Counted()
      modifies `rmtWnd, `snd, `nsndBuf, `rtt, `probe, `rcv, `nrcvQue, `nrcvBuf
      ensures Counted() && Abs() == InputOne(W32, old(Abs()), seg)
    {
      rmtWnd := seg.wnd;
      InputSnd(seg);
      if seg.cmd == CMD_ACK {
        if Since(clock.current, seg.ts) >= 0 {
          UpdateRtt(Since(clock.current, seg.ts));
        }
      } else if seg.cmd == CMD_PUSH {
        InputData(seg);
      } else if seg.cmd == CMD_WASK {
        probe := probe.(tell := true);
      }
    }

    /** The decoding loop of `ikcp_input`: what it returns if it stops early, and the newest acknowledgement seen. */
    method InputLoop(data: Bytes) returns (code: int, mark: Mark)
      requires Counted()
      modifies `rmtWnd, `snd, `nsndBuf, `rtt, `probe, `rcv, `nrcvQue, `nrcvBuf
      ensures Counted() && code == Parse(conf.conv, data).code
      ensures Abs() == InputAll(W32, old(Abs()), Parse(conf.conv, data).segs)
      ensures mark == MarkAll(W32, Parse(conf.conv, data).segs)
    {
      var rest := data;
      ghost var done: seq<Seg> := [];
      ghost var before := Abs();
      mark := NoAck;
      code := 0;
      while |rest| >= OVERHEAD && code == 0
        invariant Counted() && conf == before.conf && -3 <= code <= 0
        invariant Abs() == InputAll(W32, before, done) && mark == MarkAll(W32, done)
        invariant if code == 0 then ParsedUpTo(conf.conv, data, done, rest) else Parse(conf.conv, data) == Parsed(done, code)
        decreases |rest|, code
      {
        code := CheckHeader(rest);
        if code < 0 {
          ParseStops(conf.conv, data, done, rest);
        } else {
          var seg := DecodeSeg(rest);
          InputSegment(seg);
          mark := MarkOne(W32, mark, seg);
          InputSnoc(before, done, seg);
          ParseStep(conf.conv, data, done, rest);
          rest := rest[OVERHEAD + |seg.data|..];
          done := done + [seg];
        }
      }
      if code == 0 {
        ParseStops(conf.conv, data, done, rest);
      }
    }

    /** The checks on the header that starts `rest`. */
    method CheckHeader(rest: Bytes) returns (code: int)
      requires |rest| >= OVERHEAD
      ensures code == if AcceptsFirst(conf.conv, rest) then 0 else Parse(conf.conv, rest).code
      ensures !AcceptsFirst(conf.conv, rest) ==> -3 <= code < 0 && Parse(conf.conv, rest).segs == []
    {
      if UnLe(rest[0..4]) != conf.conv {
        return -1;
      }
      var len := DecodeLen(rest);
      if |rest| - OVERHEAD < len || len >= 0x8000_0000 {
        return -2;
      }
      if !KnownCmd(DecodeSeg(rest).cmd) {
        return -3;
      }
      code := 0;
    }

    /** `ikcp_input` */
    method Input(data: Bytes) returns (code: int)
      requires Valid()
      modifies `rmtWnd, `snd, `nsndBuf, `rtt, `probe, `rcv, `nrcvQue, `nrcvBuf, `cong
      ensures Valid() && (Abs(), code) == InputBytes(old(Abs()), data)
      ensures Drained(old(rcv)) ==> Drained(rcv)
      ensures Advanced(W32, old(snd), snd)
      ensures var right := InputRight(old(Abs()), data, Abs()); right
    {
      InputBytesOk(Abs(), rcvLim, data);
      InputIsRight(Abs(), rcvLim, data);
      code := InputAny(data);
    }

    method InputAny(data: Bytes) returns (code: int)
      requires Counted() && conf.Ok()
      modifies `rmtWnd, `snd, `nsndBuf, `rtt, `probe, `rcv, `nrcvQue, `nrcvBuf, `cong
      ensures Counted() && (Abs(), code) == InputBytes(old(Abs()), data)
    {
      if I32(|data|) < OVERHEAD {
        return -1;
      }
      var prevUna := snd.una;
      var mark: Mark;
      code, mark := InputLoop(data);
      ParseCode(conf.conv, data);
      if code < 0 {
        return;
      }
      if mark.Newest? {
        CountOvertaken(mark.sn);
      }
      if Diff(W32, snd.una, prevUna) > 0 {
        cong := Grow(cong, rmtWnd, conf.Mss());
      }
      code := 0;
    }

    // ----- output

    /** The datagrams output so far and the bytes in the buffer are the packing of `segs`. */
    ghost predicate Mirrors(segs: seq<Seg>, ptr: nat, out: seq<Bytes>)
      reads `conf, buffer
    {
      && buffer.Length == (conf.mtu + OVERHEAD) * 3 && ptr <= conf.mtu
      && out == EncodeAll(PackAll(conf.mtu, segs).full)
      && buffer[..ptr] == EncodeSegs(PackAll(conf.mtu, segs).pending)
    }

    /** Copies bytes to the write pointer. */
    method Put(ptr: nat, bs: Bytes) returns (next: nat)
      requires ptr + |bs| <= buffer.Length
      modifies buffer
      ensures next == ptr + |bs| && buffer[..next] == old(buffer[..ptr]) + bs
    {
      var i := 0;
      while i < |bs|
        invariant i <= |bs| && buffer[..ptr + i] == old(buffer[..ptr]) + bs[..i]
      {
        buffer[ptr + i] := bs[i];
        i := i + 1;
      }
      next := ptr + |bs|;
    }

    /** `ikcp_encode_seg` and the copying of the payload behind it. */
    method PutSeg(ptr: nat, seg: Seg) returns (next: nat)
      requires ptr + OVERHEAD + |seg.data| <= buffer.Length
      modifies buffer
      ensures next == ptr + OVERHEAD + |seg.data| && buffer[..next] == old(buffer[..ptr]) + EncodeSeg(seg)
    {
      next := Put(ptr, Le(seg.conv, 4));
      next := Put(next, Le(seg.cmd, 1));
      next := Put(next, Le(seg.frg, 1));
      next := Put(next, Le(seg.wnd, 2));
      next := Put(next, Le(seg.ts, 4));
      next := Put(next, Le(seg.sn, 4));
      next := Put(next, Le(seg.una, 4));
      next := Put(next, Le(|seg.data|, 4));
      HeaderBuilt(old(buffer[..ptr]), seg);
      next := Put(next, seg.data);
      Assoc(old(buffer[..ptr]), EncodeHeader(seg), seg.data);
    }

    /** Outputs the buffer if the segment does not fit behind what is there, then encodes the segment. */
    method Emit(ghost segs: seq<Seg>, seg: Seg, ptr: nat, out: seq<Bytes>) returns (next: nat, out': seq<Bytes>)
      requires Mirrors(segs, ptr, out) && OVERHEAD + |seg.data| <= conf.mtu
      modifies buffer
      ensures Mirrors(segs + [seg], next, out')
    {
      EmitStep(conf.mtu, segs, seg);
      out', next := out, ptr;
      if ptr + OVERHEAD + |seg.data| > conf.mtu {
        if ptr > 0 {
          out' := out + [buffer[..ptr]];
        }
        next := 0;
      }
      next := PutSeg(next, seg);
    }

    // ----- flush

    /** Encodes the queued acknowledgements; `hdr` is the header struct as the loop leaves it. */
    method FlushAcks(h: Seg) returns (hdr: Seg, ptr: nat, out: seq<Bytes>)
      requires buffer.Length == (conf.mtu + OVERHEAD) * 3 && conf.Ok() && h.data == []
      modifies buffer
      ensures hdr == LastHeader(h, rcv.acks) && Mirrors(AckSegs(h, rcv.acks), ptr, out)
    {
      hdr, ptr, out := h, 0, [];
      var i := 0;
      while i < |rcv.acks|
        invariant i <= |rcv.acks| && hdr == LastHeader(h, rcv.acks[..i])
        invariant Mirrors(AckSegs(h, rcv.acks[..i]), ptr, out)
      {
        AckSegsStep(h, rcv.acks, i);
        hdr := hdr.(sn := rcv.acks[i].sn, ts := rcv.acks[i].ts);
        ptr, out := Emit(AckSegs(h, rcv.acks[..i]), hdr, ptr, out);
        i := i + 1;
      }
      assert rcv.acks[..i] == rcv.acks;
    }

    /** The zero-window probe timer. */
    method TickProbe()
      modifies `probe
      ensures probe == ProbeTick(old(probe), rmtWnd, clock.current)
    {
      if rmtWnd == 0 {
        if probe.wait == 0 {
          probe := probe.(wait := PROBE_INIT, ts := U32(clock.current + PROBE_INIT));
        } else if Since(clock.current, probe.ts) >= 0 {
          var wait := if probe.wait < PROBE_INIT then PROBE_INIT else probe.wait;
          wait := U32(wait + wait / 2);
          if wait > PROBE_LIMIT {
            wait := PROBE_LIMIT;
          }
          probe := probe.(wait := wait, ts := U32(clock.current + wait), ask := true);
        }
      } else {
        probe := probe.(ts := 0, wait := 0);
      }
    }

    /** The window probes, asking and telling. */
    method FlushProbes(ghost segs: seq<Seg>, h: Seg, p0: nat, out0: seq<Bytes>) returns (ptr: nat, out: seq<Bytes>)
      requires conf.Ok() && h.data == []
      requires var mirrors := Mirrors(segs, p0, out0); mirrors
      modifies buffer
      ensures Mirrors(segs + ProbeSegs(probe, h), ptr, out)
    {
      ptr, out := p0, out0;
      ghost var sent := segs;
      if probe.ask {
        ptr, out := Emit(sent, h.(cmd := CMD_WASK), ptr, out);
        sent := sent + [h.(cmd := CMD_WASK)];
      }
      if probe.tell {
        ptr, out := Emit(sent, h.(cmd := CMD_WINS), ptr, out);
        sent := sent + [h.(cmd := CMD_WINS)];
      }
      assert sent == segs + ProbeSegs(probe, h);
    }

    /** The loop that moves segments from `snd_queue` to `snd_buf`. */
    method MoveQueued(e: FlushEnv, window: nat)
      requires Counted()
      modifies `snd, `nsndQue, `nsndBuf
      ensures Counted() && snd == MoveToBuf(W32, old(snd), e, window)
    {
      while Diff(W32, snd.nxt, U32(snd.una + window)) < 0
        invariant Counted() && MoveToBuf(W32, snd, e, window) == MoveToBuf(W32, old(snd), e, window)
        decreases |snd.queue|
      {
        if nsndQue == 0 {
          break;
        }
        var x := Number(e, snd.queue[0], snd.nxt);
        snd := snd.(nxt := U32(snd.nxt + 1), queue := snd.queue[1..], buf := snd.buf + [x]);
        nsndQue := nsndQue - 1;
        nsndBuf := nsndBuf + 1;
      }
    }

    /** Decides whether one buffered segment is sent now, and why, and updates its timers. */
    method Schedule(x: Sent, e: FlushEnv) returns (y: Sent, cause: Cause)
      ensures y == FlushOne(x, e) && cause == CauseOf(x, e)
    {
      y, cause := x, Hold;
      if x.xmit == 0 {
        cause := First;
        y := y.(xmit := U32(y.xmit + 1), rto := e.rxRto);
        y := y.(resendts := U32(e.current + y.rto + e.rtomin));
      } else if Since(e.current, x.resendts) >= 0 {
        cause := Timeout;
        y := y.(xmit := U32(y.xmit + 1));
        if e.nodelay == 0 {
          y := y.(rto := U32(y.rto + if y.rto >= e.rxRto then y.rto else e.rxRto));
        } else {
          var step := if e.nodelay < 2 then I32(y.rto) else I32(e.rxRto);
          y := y.(rto := U32(y.rto + TruncDiv(step, 2)));
        }
        y := y.(resendts := U32(e.current + y.rto));
      } else if x.fastack >= e.resent {
        if I32(x.xmit) <= e.fastlimit || e.fastlimit <= 0 {
          cause := FastResend;
          y := y.(xmit := U32(y.xmit + 1), fastack := 0, resendts := U32(e.current + y.rto));
        }
      }
      if cause != Hold {
        y := y.(seg := y.seg.(ts := e.current, wnd := e.wnd, una := e.una));
      }
    }

    /** Sends a segment that has a cause, and notices when it has been sent too often. */
    method SendOne(ghost segs: seq<Seg>, y: Sent, cause: Cause, p0: nat, out0: seq<Bytes>) returns (ptr: nat, out: seq<Bytes>)
      requires Mirrors(segs, p0, out0) && OVERHEAD + |y.seg.data| <= conf.mtu
      modifies `dead, buffer
      ensures Mirrors(if cause == Hold then segs else segs + [y.seg], ptr, out)
      ensures dead == (old(dead) || (cause != Hold && y.xmit >= conf.deadLink))
    {
      ptr, out := p0, out0;
      if cause != Hold {
        ptr, out := Emit(segs, y.seg, ptr, out);
        if y.xmit >= conf.deadLink {
          dead := true;
        }
      }
    }

    /** What one buffered segment undergoes. */
    method SweepEntry(i: nat, e: FlushEnv, ghost segs: seq<Seg>, p0: nat, out0: seq<Bytes>)
      returns (ptr: nat, out: seq<Bytes>, ghost y: Sent, cause: Cause)
      requires i < |snd.buf| && OVERHEAD + |snd.buf[i].seg.data| <= conf.mtu
      requires var mirrors := Mirrors(segs, p0, out0); mirrors
      modifies `snd, `xmit, `dead, buffer
      ensures y == FlushOne(old(snd).buf[i], e) && cause == CauseOf(old(snd).buf[i], e)
      ensures snd == old(snd).(buf := old(snd).buf[i := y])
      ensures var counted := CountedOne(old(xmit), xmit, cause); counted
      ensures dead == (old(dead) || (cause != Hold && y.xmit >= conf.deadLink))
      ensures Mirrors(if cause == Hold then segs else segs + [y.seg], ptr, out)
    {
      var z;
      z, cause := Schedule(snd.buf[i], e);
      y := z;
      if cause == Timeout {
        xmit := U32(xmit + 1);
      }
      ptr, out := SendOne(segs, z, cause, p0, out0);
      snd := snd.(buf := snd.buf[i := z]);
    }

    /** One turn of the transmission loop, which started with `s0`, `x0` and `d0`. */
    method SweepTurn(i: nat, e: FlushEnv, ghost s0: Snd, ghost x0: u32, ghost d0: bool, ghost t: Sweep,
                     ghost segs: seq<Seg>, p0: nat, out0: seq<Bytes>)
      returns (ptr: nat, out: seq<Bytes>, ghost t': Sweep, cause: Cause)
      requires i < |s0.buf|
      requires var sweeps := SweepAt(s0, i, e, conf.deadLink, t, snd); sweeps
      requires var mirrors := Mirrors(segs + t.out, p0, out0); mirrors
      requires OVERHEAD + |s0.buf[i].seg.data| <= conf.mtu
      requires xmit == CountUp(x0, t.timeouts) && dead == (d0 || t.dead)
      modifies `snd, `xmit, `dead, buffer
      ensures var swept := SweepAt(s0, i + 1, e, conf.deadLink, t', snd); swept
      ensures var mirrors := Mirrors(segs + t'.out, ptr, out); mirrors
      ensures xmit == CountUp(x0, t'.timeouts) && dead == (d0 || t'.dead)
      ensures (t'.timeouts > 0) == (t.timeouts > 0 || cause == Timeout) && t'.fast == (t.fast || cause == FastResend)
    {
      ghost var s, x := snd, xmit;
      ghost var y;
      SweepAtEntry(s0, i, e, conf.deadLink, t, snd);
      ptr, out, y, cause := SweepEntry(i, e, segs + t.out, p0, out0);
      SweepAtStep(s0, i, e, conf.deadLink, t, s, segs, y, cause);
      CountTurn(x0, t, y, cause, conf.deadLink, x, xmit);
      t' := SweepWith(t, y, cause, conf.deadLink);
    }

    /** The transmission loop over `snd_buf`. */
    method SweepOut(e: FlushEnv, ghost segs: seq<Seg>, p0: nat, out0: seq<Bytes>)
      returns (ptr: nat, out: seq<Bytes>, lost: bool, fast: bool)
      requires nsndBuf == |snd.buf| && conf.Ok()
      requires var sound := AllSentOk(conf, snd.buf); sound
      requires var mirrors := Mirrors(segs, p0, out0); mirrors
      modifies `snd, `xmit, `dead, buffer
      ensures var t := SweepBuf(old(snd).buf, e, conf.deadLink);
              && snd == old(snd).(buf := t.buf) && Mirrors(segs + t.out, ptr, out)
              && lost == (t.timeouts > 0) && fast == t.fast
              && xmit == CountUp(old(xmit), t.timeouts) && dead == (old(dead) || t.dead)
      ensures nsndBuf == |snd.buf|
    {
      ptr, out, lost, fast := p0, out0, false, false;
      ghost var s0, x0, d0 := snd, xmit, dead;
      ghost var t := SweepBuf([], e, conf.deadLink);
      var i := 0;
      SweepStart(s0, x0, e, conf.deadLink, segs);
      while i < nsndBuf
        invariant i <= nsndBuf == |s0.buf|
        invariant SweepAt(s0, i, e, conf.deadLink, t, snd) && Mirrors(segs + t.out, ptr, out)
        invariant xmit == CountUp(x0, t.timeouts) && dead == (d0 || t.dead)
        invariant lost == (t.timeouts > 0) && fast == t.fast
      {
        var cause;
        assert SentOk(conf, s0.buf[i]);
        ptr, out, t, cause := SweepTurn(i, e, s0, x0, d0, t, segs, ptr, out);
        lost := lost || cause == Timeout;
        fast := fast || cause == FastResend;
        i := i + 1;
      }
      SweepDone(s0, e, conf.deadLink, t, snd);
    }

    /** Outputs what is left in the buffer. */
    method Close(ghost segs: seq<Seg>, ptr: nat, out0: seq<Bytes>) returns (out: seq<Bytes>)
      requires var mirrors := Mirrors(segs, ptr, out0); mirrors
      ensures out == EncodeAll(Pack(conf.mtu, segs))
    {
      CloseOut(conf.mtu, segs);
      out := if ptr > 0 then out0 + [buffer[..ptr]] else out0;
    }

    /** The congestion window after a flush. */
    method CloseWindow(fast: bool, lost: bool, resent: u32, window: u32)
      requires conf.Ok()
      modifies `cong
      ensures cong == AfterFlush(old(cong), fast, lost, U32(snd.nxt - snd.una), resent, window, conf.Mss())
    {
      var mss := conf.Mss();
      if fast {
        var inflight := U32(snd.nxt - snd.una);
        var thresh := AtLeastMin(inflight / 2);
        cong := Cong(U32(thresh + resent), U32(U32(thresh + resent) * mss), thresh);
      }
      if lost {
        cong := Cong(1, U32(mss), AtLeastMin(window / 2));
      }
      if cong.cwnd < 1 {
        cong := cong.(cwnd := 1, incr := U32(mss));
      }
    }

    /** `ikcp_flush`; `out` are the datagrams handed to the output callback. What a peer decodes from them, and the state
        afterwards, are as the rules of `Emission` say. */
    method Flush() returns (out: seq<Bytes>)
      requires Valid()
      modifies `snd, `rcv, `cong, `probe, `xmit, `dead, `nsndQue, `nsndBuf, buffer
      ensures Valid() && Abs() == DoFlush(W32, old(Abs()))
      ensures out == EncodeAll(Pack(conf.mtu, FlushSegs(W32, old(Abs()))))
      ensures var right := FlushRight(W32, old(Abs()), Abs(), Decoded(conf.conv, out)); right
    {
      FlushOk(W32, Abs(), rcvLim);
      FlushEmits(Abs(), rcvLim);
      if !clock.updated {
        return [];
      }
      MovedOk(W32, Abs(), rcvLim);
      out := FlushAll();
    }

    ghost predicate CanFlush()
      reads this
    {
      Counted() && buffer.Length == (conf.mtu + OVERHEAD) * 3 && conf.Ok()
    }

    /** The control part of a flush. */
    method FlushControl(h: Seg, ghost cb: Cb) returns (ptr: nat, out: seq<Bytes>)
      requires var ready := CanFlush(); ready
      requires var same := rcv == cb.rcv && probe == cb.probe && rmtWnd == cb.rmtWnd && clock == cb.clock; same
      requires h == Template(cb)
      modifies `rcv, `probe, buffer
      ensures var sent := ControlSent(cb, rcv, probe); sent
      ensures var mirrors := Mirrors(ControlSegs(cb), ptr, out); mirrors
    {
      var hdr;
      hdr, ptr, out := FlushAcks(h);
      TickProbe();
      ptr, out := FlushProbes(AckSegs(h, rcv.acks), hdr, ptr, out);
      rcv := rcv.(acks := []);
      probe := probe.(ask := false, tell := false);
    }

    /** The data part of a flush. */
    method FlushData(e: FlushEnv, window: nat, ghost cb: Cb, p0: nat, out0: seq<Bytes>)
      returns (ptr: nat, out: seq<Bytes>, lost: bool, fast: bool)
      requires conf.Ok()
      requires var counted := Counted(); counted
      requires var same := conf == cb.conf && snd == cb.snd && xmit == cb.xmit && dead == cb.dead; same
      requires e == Env(cb) && window == Window(cb)
      requires var sound := AllSentOk(conf, Moved(W32, cb).buf); sound
      requires var mirrors := Mirrors(ControlSegs(cb), p0, out0); mirrors
      modifies `snd, `xmit, `dead, `nsndQue, `nsndBuf, buffer
      ensures Counted()
      ensures var mirrors := Mirrors(ControlSegs(cb) + Swept(W32, cb).out, ptr, out); mirrors
      ensures var sent := DataSent(cb, snd, xmit, dead, lost, fast); sent
    {
      MoveQueued(e, window);
      assert snd == Moved(W32, cb);
      ptr, out, lost, fast := SweepOut(e, ControlSegs(cb), p0, out0);
    }

    /** Everything a flush does without the congestion window, up to the last datagram. */
    method FlushSend(e: FlushEnv, window: nat) returns (ptr: nat, out: seq<Bytes>, lost: bool, fast: bool)
      requires var ready := CanFlush(); ready
      requires clock.updated && e == Env(Abs()) && window == Window(Abs())
      requires var sound := AllSentOk(conf, Moved(W32, Abs()).buf); sound
      modifies `snd, `rcv, `probe, `xmit, `dead, `nsndQue, `nsndBuf, buffer
      ensures var counted := Counted(); counted
      ensures var mirrors := Mirrors(FlushSegs(W32, old(Abs())), ptr, out); mirrors
      ensures var sent := AllSent(old(Abs()), Abs(), lost, fast); sent
    {
      ghost var cb := Abs();
      ptr, out := FlushControl(Template(Abs()), cb);
      ControlLeaves(cb, rcv, probe);
      ptr, out, lost, fast := FlushData(e, window, cb, ptr, out);
      AllSentParts(cb, Abs(), lost, fast);
    }

    /** A flush once `ikcp_update` has been called. */
    method FlushAll() returns (out: seq<Bytes>)
      requires CanFlush() && clock.updated
      requires var sound := AllSentOk(conf, Moved(W32, Abs()).buf); sound
      modifies `snd, `rcv, `cong, `probe, `xmit, `dead, `nsndQue, `nsndBuf, buffer
      ensures Counted() && Abs() == DoFlush(W32, old(Abs()))
      ensures out == EncodeAll(Pack(conf.mtu, FlushSegs(W32, old(Abs()))))
    {
      ghost var cb := Abs();
      var e, window := Env(Abs()), Window(Abs());
      var ptr, lost, fast;
      ptr, out, lost, fast := FlushSend(e, window);
      out := Close(FlushSegs(W32, cb), ptr, out);
      FlushAssembled(cb, Abs(), lost, fast);
      CloseWindow(fast, lost, e.resent, window);
    }

    // ----- the clock

    /** The flush timer. */
    method TickClock(now: u32) returns (due: bool)
      modifies `clock
      ensures (clock, due) == Tick(old(clock), now)
    {
      clock := clock.(current := now);
      if !clock.updated {
        clock := clock.(updated := true, flush := now);
      }
      var slap := Since(clock.current, clock.flush);
      if slap >= 10000 || slap < -10000 {
        clock := clock.(flush := clock.current);
        slap := 0;
      }
      due := slap >= 0;
      if due {
        clock := clock.(flush := U32(clock.flush + clock.interval));
        if Since(clock.current, clock.flush) >= 0 {
          clock := clock.(flush := U32(clock.current + clock.interval));
        }
      }
    }

    /** `ikcp_update` */
    method Update(now: u32) returns (out: seq<Bytes>)
      requires Valid()
      modifies `snd, `rcv, `cong, `probe, `xmit, `dead, `nsndQue, `nsndBuf, `clock, buffer
      ensures Valid() && Abs() == DoUpdate(W32, old(Abs()), now)
      ensures out == EncodeAll(Pack(conf.mtu, UpdateSegs(W32, old(Abs()), now)))
    {
      TickedOk(Abs(), rcvLim, now);
      var due := TickClock(now);
      out := [];
      if due {
        out := Flush();
      }
    }

    /** The search of `ikcp_check` for the next retransmission deadline; 0 when one has passed. */
    method NextDeadline(now: u32) returns (tmPacket: i32)
      requires Counted()
      ensures tmPacket == NextResend(snd.buf, now)
    {
      tmPacket := 0x7FFF_FFFF;
      var i := 0;
      while i < nsndBuf
        invariant i <= nsndBuf && tmPacket == NextResend(snd.buf[..i], now) && tmPacket > 0
      {
        assert snd.buf[..i + 1][..i] == snd.buf[..i];
        var diff := Since(snd.buf[i].resendts, now);
        if diff <= 0 {
          NextResendZero(snd.buf, i, now);
          return 0;
        }
        if diff < tmPacket {
          tmPacket := diff;
        }
        i := i + 1;
      }
      assert snd.buf[..i] == snd.buf;
    }

    /** `ikcp_check` */
    method Check(now: u32) returns (t: u32)
      requires Counted()
      ensures t == DoCheck(Abs(), now)
    {
      if !clock.updated {
        return now;
      }
      var flush := clock.flush;
      if Since(now, flush) >= 10000 || Since(now, flush) < -10000 {
        flush := now;
      }
      if Since(now, flush) >= 0 {
        CheckAtOnce(Abs(), now);
        return now;
      }
      var tmFlush := Since(flush, now);
      var tmPacket := NextDeadline(now);
      if tmPacket == 0 {
        CheckAtOnce(Abs(), now);
        return now;
      }
      CheckAhead(Abs(), now);
      var minimal := if tmPacket < tmFlush then tmPacket else tmFlush;
      if minimal >= clock.interval {
        minimal := clock.interval;
      }
      t := U32(now + minimal);
    }

    // ----- tuning

    /** `ikcp_wndsize` */
    method WndSize(sndwnd: i32, rcvwnd: i32)
      requires Valid()
      modifies `conf, `rcv, `rcvLim
      ensures Valid() && Abs() == DoWndSize(old(Abs()), sndwnd, rcvwnd)
      ensures rcvLim == Max(old(rcvLim), rcv.wnd)
      ensures sndwnd > 0 ==> conf.sndWnd == sndwnd
      ensures rcvwnd > 0 ==> rcv.wnd == if rcvwnd < 128 then 128 else rcvwnd
    {
      WndSizeOk(W32, Abs(), rcvLim, sndwnd, rcvwnd);
      if sndwnd > 0 {
        conf := conf.(sndWnd := sndwnd);
      }
      if rcvwnd > 0 {
        rcv := rcv.(wnd := Max(rcvwnd, WND_RCV));
      }
      rcvLim := Max(rcvLim, rcv.wnd);
    }

    /** `ikcp_interval` */
    method SetInterval(interval: i32)
      requires Valid()
      modifies `clock
      ensures Valid() && Abs() == DoInterval(old(Abs()), interval)
      ensures IntervalTaken(interval, clock.interval)
    {
      TuningOk(W32, Abs(), rcvLim, interval, interval, interval, interval);
      clock := clock.(interval := ClampInterval(interval));
    }

    /** `ikcp_nodelay` */
    method NoDelay(nodelay: i32, interval: i32, resend: i32, nc: i32)
      requires Valid()
      modifies `conf, `rtt, `clock
      ensures Valid() && Abs() == DoNoDelay(old(Abs()), nodelay, interval, resend, nc)
      ensures nodelay >= 0 ==> conf.nodelay == nodelay && rtt.minrto == if nodelay == 0 then 100 else 30
      ensures interval >= 0 ==> IntervalTaken(interval, clock.interval)
      ensures resend >= 0 ==> conf.fastresend == resend
      ensures nc >= 0 ==> (conf.nocwnd <==> nc > 0)
    {
      TuningOk(W32, Abs(), rcvLim, nodelay, interval, resend, nc);
      Tune(nodelay, interval, resend, nc);
    }

    method Tune(nodelay: i32, interval: i32, resend: i32, nc: i32)
      requires Counted()
      modifies `conf, `rtt, `clock
      ensures Counted() && Abs() == DoNoDelay(old(Abs()), nodelay, interval, resend, nc)
    {
      if nodelay >= 0 {
        conf := conf.(nodelay := nodelay);
        rtt := rtt.(minrto := if nodelay != 0 then 30 else 100);
      }
      if interval >= 0 {
        clock := clock.(interval := ClampInterval(interval));
      }
      if resend >= 0 {
        conf := conf.(fastresend := resend);
      }
      if nc >= 0 {
        conf := conf.(nocwnd := nc != 0);
      }
    }
  }
}
