/** The positions the pointer loops compute are those at which the sequence functions of `Sender` and `Receiver` cut. */
module SegmentLists {
  import opened Seqs
  import opened Serial
  import opened Wire
  import opened Fragments
  import opened Sender
  import opened SendWindow
  import opened Receiver
  import IQ = IntrusiveQueue

  function SentSns(buf: seq<Sent>): (s: seq<nat>)
    ensures |s| == |buf| && forall i :: 0 <= i < |buf| ==> s[i] == buf[i].seg.sn
  {
    seq(|buf|, i requires 0 <= i < |buf| => buf[i].seg.sn)
  }

  function SegSns(buf: seq<Seg>): (s: seq<nat>)
    ensures |s| == |buf| && forall i :: 0 <= i < |buf| ==> s[i] == buf[i].sn
  {
    seq(|buf|, i requires 0 <= i < |buf| => buf[i].sn)
  }

  lemma {:induction false} ParseUnaCuts(buf: seq<Sent>, una: nat)
    ensures ParseUna(W32, buf, una) == buf[IQ.CountBefore(SentSns(buf), una)..]
  {
    if buf != [] && Diff(W32, una, buf[0].seg.sn) > 0 {
      ParseUnaCuts(buf[1..], una);
      assert SentSns(buf)[1..] == SentSns(buf[1..]);
    }
  }

  lemma {:induction false} RemoveAckedCuts(buf: seq<Sent>, sn: nat)
    ensures var k := IQ.FindAcked(SentSns(buf), sn);
            RemoveAcked(W32, buf, sn) == if k < |buf| then buf[..k] + buf[k + 1..] else buf
  {
    if buf != [] {
      assert SentSns(buf)[1..] == SentSns(buf[1..]);
      RemoveAckedCuts(buf[1..], sn);
      var k := IQ.FindAcked(SentSns(buf[1..]), sn);
      if sn != buf[0].seg.sn && Diff(W32, sn, buf[0].seg.sn) >= 0 && k < |buf[1..]| {
        Assoc([buf[0]], buf[1..][..k], buf[1..][k + 1..]);
        assert [buf[0]] + buf[1..][..k] == buf[..k + 1];
        assert buf[1..][k + 1..] == buf[k + 2..];
      }
    }
  }

  lemma {:induction false} InsertCuts(buf: seq<Seg>, seg: Seg)
    ensures var spot := IQ.FindSpot(SegSns(buf), seg.sn);
            Insert(W32, buf, seg) == if spot.Repeated? then buf else PutAt(buf, seg, spot.k)
  {
    if buf != [] {
      var init, last := buf[..|buf| - 1], buf[|buf| - 1];
      assert SegSns(buf)[..|buf| - 1] == SegSns(init);
      InsertCuts(init, seg);
      assert buf == init + [last];
      var spot := IQ.FindSpot(SegSns(init), seg.sn);
      if spot.At? {
        PutAtSnoc(init, seg, spot.k, last);
      }
    }
  }

  lemma {:induction false} DrainCuts(r: Rcv)
    requires r.nxt < 0x1_0000_0000
    ensures var m := IQ.InOrder(SegSns(r.buf), r.nxt, |r.queue|, r.wnd);
            && Drain(W32, r).buf == r.buf[m..] && Drain(W32, r).queue == r.queue + FragsOf(r.buf[..m])
            && Drain(W32, r).nxt == IQ.Forward(r.nxt, m)
    decreases |r.buf|
  {
    var m := IQ.InOrder(SegSns(r.buf), r.nxt, |r.queue|, r.wnd);
    if CanTake(r) {
      assert SegSns(r.buf)[1..] == SegSns(r.buf[1..]);
      DrainCuts(TakeFront(W32, r));
      assert r.buf[..m][1..] == r.buf[1..][..m - 1];
      Assoc(r.queue, [FragOf(r.buf[0])], FragsOf(r.buf[1..][..m - 1]));
    }
  }

  function FragsOf(buf: seq<Seg>): (fs: seq<Frag>) {
    if buf == [] then [] else [FragOf(buf[0])] + FragsOf(buf[1..])
  }

  function FrgsOf(q: seq<Frag>): (s: seq<nat>)
    ensures |s| == |q| && forall i :: 0 <= i < |q| ==> s[i] == q[i].frg
  {
    seq(|q|, i requires 0 <= i < |q| => q[i].frg)
  }

  lemma {:induction false} RecvCuts(q: seq<Frag>)
    ensures RunLen(q) == IQ.MessageLen(FrgsOf(q))
  {
    if q != [] {
      assert FrgsOf(q)[1..] == FrgsOf(q[1..]);
      RecvCuts(q[1..]);
    }
  }

  lemma {:induction false} MoveToBufCount(s: Snd, e: FlushEnv, cwnd: nat)
    requires s.nxt < 0x1_0000_0000
    ensures var m := IQ.Fitting(|s.queue|, s.nxt, Add(W32, s.una, cwnd));
            var t := MoveToBuf(W32, s, e, cwnd);
            |t.queue| == |s.queue| - m && t.nxt == IQ.Forward(s.nxt, m)
    decreases |s.queue|
  {
    if Diff(W32, s.nxt, Add(W32, s.una, cwnd)) < 0 && s.queue != [] {
      MoveToBufCount(MoveOne(W32, s, e), e, cwnd);
    }
  }

  lemma MoveToBufCuts(s: Snd, e: FlushEnv, cwnd: nat)
    requires s.nxt < 0x1_0000_0000
    ensures var m := IQ.Fitting(|s.queue|, s.nxt, Add(W32, s.una, cwnd));
            var t := MoveToBuf(W32, s, e, cwnd);
            MovedBy(W32, s, t, e, m) && t.nxt == IQ.Forward(s.nxt, m)
  {
    MoveToBufCount(s, e, cwnd);
    var k := MoveToBufParts(W32, s, e, cwnd);
    var t := MoveToBuf(W32, s, e, cwnd);
    assert |t.queue| == |s.queue| - k;
  }
}
