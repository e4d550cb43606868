/** Over every run of two endpoints, at either width and with any network: no segment waits to be acknowledged that has not
    been handed to the output. */
module Outbox {
  import opened Seqs
  import opened Serial
  import opened Wire
  import opened Sender
  import opened SendWindow
  import opened ControlBlock
  import opened Invariant
  import opened Emission
  import opened TwoEndpoints

  /** The segment is in some datagram. */
  ghost predicate InOut(out: seq<seq<Seg>>, s: Seg) {
    exists d :: 0 <= d < |out| && s in out[d]
  }

  /** Every entry, just as it stands in the buffer, is. */
  ghost predicate AllOut(out: seq<seq<Seg>>, buf: seq<Sent>) {
    forall i :: 0 <= i < |buf| ==> buf[i].seg.cmd == CMD_PUSH && InOut(out, buf[i].seg)
  }

  ghost predicate Sound(w: Width, cb: Cb) {
    exists lim :: CbOk(w, cb, lim)
  }

  lemma {:induction false} FlattenIn<T>(ss: seq<seq<T>>, x: T) returns (d: nat)
    requires x in Flatten(ss)
    ensures d < |ss| && x in ss[d]
  {
    var n := |ss| - 1;
    if x in ss[n] {
      d := n;
    } else {
      d := FlattenIn(ss[..n], x);
    }
  }

  lemma InOutGrows(out: seq<seq<Seg>>, more: seq<seq<Seg>>, s: Seg)
    requires InOut(out, s) || InOut(more, s)
    ensures InOut(out + more, s)
  {
    if InOut(out, s) {
      var d :| 0 <= d < |out| && s in out[d];
      assert s in (out + more)[d];
    } else {
      var d :| 0 <= d < |more| && s in more[d];
      assert s in (out + more)[|out| + d];
    }
  }

  lemma PackedOut(mtu: nat, segs: seq<Seg>, s: Seg)
    requires Fits(mtu, segs) && s in segs
    ensures InOut(Pack(mtu, segs), s)
  {
    PackFits(mtu, segs);
    var d := FlattenIn(Pack(mtu, segs), s);
  }

  lemma FlushOut(w: Width, cb: Cb, lim: nat, out: seq<seq<Seg>>)
    requires CbOk(w, cb, lim) && AllOut(out, cb.snd.buf)
    ensures AllOut(out + Pack(cb.conf.mtu, FlushSegs(w, cb)), DoFlush(w, cb).snd.buf)
  {
    var segs, buf := FlushSegs(w, cb), DoFlush(w, cb).snd.buf;
    var more := Pack(cb.conf.mtu, segs);
    FlushIsRight(w, cb, lim);
    FlushFits(w, cb, lim);
    FlushOk(w, cb, lim);
    forall i | 0 <= i < |buf|
      ensures buf[i].seg.cmd == CMD_PUSH && InOut(out + more, buf[i].seg)
    {
      assert SentOk(cb.conf, buf[i]);
      EntryOut(w, cb, DoFlush(w, cb), segs, out, i);
      if InOut(out, buf[i].seg) {
        InOutGrows(out, more, buf[i].seg);
      } else {
        PackedOut(cb.conf.mtu, segs, buf[i].seg);
        InOutGrows(out, more, buf[i].seg);
      }
    }
  }

  /** What is not sent now stands as it was; what has been restamped is sent now. */
  lemma EntryOut(w: Width, cb: Cb, cb': Cb, segs: seq<Seg>, out: seq<seq<Seg>>, i: nat)
    requires cb.conf.Ok() && AllOut(out, cb.snd.buf) && i < |cb'.snd.buf|
    requires var right := FlushRight(w, cb, cb', segs); right
    ensures InOut(out, cb'.snd.buf[i].seg) || cb'.snd.buf[i].seg in segs
  {
    if cb.clock.updated && !IsSent(cb, i) {
      assert cb'.snd.buf[i] == cb.snd.buf[i];
    }
  }

  // ----- arrivals

  ghost predicate HasSeg(buf: seq<Sent>, s: Seg) {
    exists j :: 0 <= j < |buf| && buf[j].seg == s
  }

  /** Every entry of `b` carries the segment of some entry of `a`. */
  ghost predicate SegsFrom(a: seq<Sent>, b: seq<Sent>) {
    forall i :: 0 <= i < |b| ==> HasSeg(a, b[i].seg)
  }

  lemma {:induction false} CountSkippedSegs(w: Width, buf: seq<Sent>, sn: nat)
    ensures |CountSkipped(w, buf, sn)| == |buf|
    ensures forall i :: 0 <= i < |buf| ==> CountSkipped(w, buf, sn)[i].seg == buf[i].seg
  {
    if buf != [] && Diff(w, sn, buf[0].seg.sn) >= 0 {
      CountSkippedSegs(w, buf[1..], sn);
    }
  }

  lemma SndInputSegs(w: Width, s: Snd, seg: Seg)
    ensures SegsFrom(s.buf, SndInput(w, s, seg).buf)
  {
    SndInputFrom(w, s, seg);
    var buf := SndInput(w, s, seg).buf;
    forall i | 0 <= i < |buf|
      ensures HasSeg(s.buf, buf[i].seg)
    {
      assert buf[i] in s.buf;
    }
  }

  lemma SegsFromTwice(a: seq<Sent>, b: seq<Sent>, c: seq<Sent>)
    requires SegsFrom(a, b) && SegsFrom(b, c)
    ensures SegsFrom(a, c)
  {
    forall i | 0 <= i < |c|
      ensures HasSeg(a, c[i].seg)
    {
      var j :| 0 <= j < |b| && b[j].seg == c[i].seg;
      assert HasSeg(a, b[j].seg);
    }
  }

  lemma SegsFromSelf(a: seq<Sent>)
    ensures SegsFrom(a, a)
  {
    forall i | 0 <= i < |a|
      ensures HasSeg(a, a[i].seg)
    {
    }
  }

  lemma {:induction false} InputAllSegs(w: Width, cb: Cb, segs: seq<Seg>)
    ensures SegsFrom(cb.snd.buf, InputAll(w, cb, segs).snd.buf)
  {
    if segs == [] {
      SegsFromSelf(cb.snd.buf);
    } else {
      var init, last := segs[..|segs| - 1], segs[|segs| - 1];
      InputAllSegs(w, cb, init);
      var a, b := InputAll(w, cb, init).snd, InputAll(w, cb, segs).snd;
      SndInputSegs(w, a, last);
      SegsFromTwice(cb.snd.buf, a.buf, b.buf);
    }
  }

  lemma FastackSegs(w: Width, s: Snd, sn: nat)
    ensures SegsFrom(s.buf, ParseFastack(w, s, sn).buf)
  {
    CountSkippedSegs(w, s.buf, sn);
    var buf := ParseFastack(w, s, sn).buf;
    forall i | 0 <= i < |buf|
      ensures HasSeg(s.buf, buf[i].seg)
    {
      assert s.buf[i].seg == buf[i].seg;
    }
  }

  lemma InputSegsFrom(w: Width, cb: Cb, segs: seq<Seg>)
    requires cb.conf.Ok()
    ensures SegsFrom(cb.snd.buf, InputSegs(w, cb, segs).snd.buf)
  {
    InputAllSegs(w, cb, segs);
    InputAllConf(w, cb, segs);
    var all, m := InputAll(w, cb, segs), MarkAll(w, segs);
    if m.Newest? {
      FastackSegs(w, all.snd, m.sn);
      SegsFromTwice(cb.snd.buf, all.snd.buf, InputSegs(w, cb, segs).snd.buf);
    }
  }

  lemma SegsFromOut(a: seq<Sent>, b: seq<Sent>, out: seq<seq<Seg>>)
    requires SegsFrom(a, b) && AllOut(out, a)
    ensures AllOut(out, b)
  {
    forall i | 0 <= i < |b|
      ensures b[i].seg.cmd == CMD_PUSH && InOut(out, b[i].seg)
    {
      assert HasSeg(a, b[i].seg);
      var j :| 0 <= j < |a| && a[j].seg == b[i].seg;
    }
  }

  lemma InputOut(w: Width, cb: Cb, d: seq<Seg>, out: seq<seq<Seg>>)
    requires cb.conf.Ok() && AllOut(out, cb.snd.buf)
    ensures AllOut(out, InputCb(w, cb, d).snd.buf)
  {
    match w
    case Exact =>
      InputSegsFrom(Exact, cb, d);
      SegsFromOut(cb.snd.buf, InputSegs(Exact, cb, d).snd.buf, out);
    case W32 =>
      var segs := Parse(cb.conf.conv, EncodeSegs(d)).segs;
      InputAllSegs(W32, cb, segs);
      InputSegsFrom(W32, cb, segs);
      SegsFromOut(cb.snd.buf, InputAll(W32, cb, segs).snd.buf, out);
      SegsFromOut(cb.snd.buf, InputSegs(W32, cb, segs).snd.buf, out);
  }

  lemma InputSound(w: Width, cb: Cb, lim: nat, d: seq<Seg>)
    requires CbOk(w, cb, lim)
    ensures CbOk(w, InputCb(w, cb, d), lim)
  {
    match w
    case W32 => InputBytesOk(cb, lim, EncodeSegs(d));
    case Exact => InputSegsOk(Exact, cb, lim, d);
  }

  // ----- runs

  lemma ActSound(w: Width, me: Ep, lim: nat, net: seq<seq<Seg>>, act: Act)
    requires CbOk(w, me.cb, lim)
    ensures Sound(w, ActEp(w, me, net, act).cb)
  {
    var cb := ActEp(w, me, net, act).cb;
    match act
    case SendMsg(msg) => SendOk(w, me.cb, lim, msg); assert CbOk(w, cb, lim);
    case Receive(len) => RecvOk(w, me.cb, lim, len); assert CbOk(w, cb, lim);
    case Update(now) => UpdateOk(w, me.cb, lim, now); assert CbOk(w, cb, lim);
    case FlushNow => FlushOk(w, me.cb, lim); assert CbOk(w, cb, lim);
    case Deliver(i) =>
      if i < |net| {
        InputSound(w, me.cb, lim, net[i]);
      }
      assert CbOk(w, cb, lim);
    case WndSize(snd, rcv) =>
      WndSizeOk(w, me.cb, lim, snd, rcv);
      assert CbOk(w, cb, if cb.rcv.wnd > lim then cb.rcv.wnd else lim);
    case NoDelay(a, b, c, d) => TuningOk(w, me.cb, lim, a, b, c, d); assert CbOk(w, cb, lim);
    case Interval(ms) => TuningOk(w, me.cb, lim, ms, ms, ms, ms); assert CbOk(w, cb, lim);
  }

  lemma ActOut(w: Width, me: Ep, lim: nat, net: seq<seq<Seg>>, act: Act)
    requires CbOk(w, me.cb, lim) && AllOut(me.out, me.cb.snd.buf)
    ensures var me' := ActEp(w, me, net, act); AllOut(me'.out, me'.cb.snd.buf)
  {
    match act
    case FlushNow => FlushOut(w, me.cb, lim, me.out);
    case Update(now) =>
      assert CbOk(w, Ticked(me.cb, now), lim);
      FlushOut(w, Ticked(me.cb, now), lim, me.out);
    case Deliver(i) =>
      if i < |net| {
        InputOut(w, me.cb, net[i], me.out);
      }
    case _ =>
  }

  ghost predicate BothOut(w: Width, x: World) {
    && Sound(w, x.a.cb) && AllOut(x.a.out, x.a.cb.snd.buf)
    && Sound(w, x.b.cb) && AllOut(x.b.out, x.b.cb.snd.buf)
  }

  lemma StepOut(w: Width, x: World, step: Step)
    requires x.a.cb.conf.Ok() && x.b.cb.conf.Ok() && BothOut(w, x)
    ensures BothOut(w, StepWorld(w, x, step))
  {
    match step
    case AtA(act) =>
      var lim :| CbOk(w, x.a.cb, lim);
      ActSound(w, x.a, lim, x.b.out, act);
      ActOut(w, x.a, lim, x.b.out, act);
    case AtB(act) =>
      var lim :| CbOk(w, x.b.cb, lim);
      ActSound(w, x.b, lim, x.a.out, act);
      ActOut(w, x.b, lim, x.a.out, act);
  }

  /** In every state of every run, whatever the network does and even before anything has been read: each entry of either
      `snd_buf` is, as it stands there, a data segment in some datagram its side has handed to the output. */
  lemma {:induction false} NothingUnsent(w: Width, s: Setup, steps: seq<Step>)
    requires s.Ok()
    ensures BothOut(w, Run(w, s, steps))
  {
    if steps == [] {
      CreateOk(w, s.conv, s.mtuA, s.streamA);
      CreateOk(w, s.conv, s.mtuB, s.streamB);
    } else {
      var init := steps[..|steps| - 1];
      NothingUnsent(w, s, init);
      StepOut(w, Run(w, s, init), steps[|steps| - 1]);
    }
  }
}
