/** One direction of a connection, over unbounded numbers: what sender and receiver know about each other. */
module Link {
  import opened Seqs
  import opened Serial
  import opened Wire
  import opened Fragments
  import opened Sender
  import opened SendWindow
  import opened Receiver
  import opened Invariant

  /** `seg` carries the `sn`-th fragment ever numbered by the sender. */
  ghost predicate Genuine(seg: Seg, sent: seq<Frag>) {
    seg.sn < |sent| && FragOf(seg) == sent[seg.sn]
  }

  ghost predicate SndRight(s: Snd, sent: seq<Frag>) {
    && s.nxt == |sent|
    && forall i :: 0 <= i < |s.buf| ==> Genuine(s.buf[i].seg, sent)
  }

  /** `got` is everything the receiver has put in order: an exact prefix of what was numbered. */
  ghost predicate RcvRight(r: Rcv, got: seq<Frag>, sent: seq<Frag>) {
    && r.nxt == |got| && got <= sent
    && forall i :: 0 <= i < |r.buf| ==> Genuine(r.buf[i], sent)
  }

  /** The receiver has fragment `n`, in order or still out of order. */
  ghost predicate Held(r: Rcv, n: nat) {
    n < r.nxt || HasSn(r.buf, n)
  }

  /** No segment is lost: each one numbered is waiting for its acknowledgement or is with the receiver. */
  ghost predicate NoLoss(s: Snd, r: Rcv) {
    forall n: nat :: n < s.nxt ==> InBuf(s.buf, n) || Held(r, n)
  }

  ghost predicate AcksSound(r: Rcv) {
    forall i :: 0 <= i < |r.acks| ==> Held(r, r.acks[i].sn)
  }

  /** A segment on its way back tells the truth about the receiver. */
  ghost predicate Truthful(seg: Seg, r: Rcv) {
    seg.una <= r.nxt && (seg.cmd == CMD_ACK ==> Held(r, seg.sn))
  }

  // ----- receiver

  ghost predicate HeldGrows(r: Rcv, r': Rcv) {
    r.nxt <= r'.nxt && forall n: nat :: Held(r, n) ==> Held(r', n)
  }

  lemma TakeFrontRight(r: Rcv, got: seq<Frag>, sent: seq<Frag>)
    requires RcvRight(r, got, sent) && CanTake(r)
    ensures RcvRight(TakeFront(Exact, r), got + [FragOf(r.buf[0])], sent)
    ensures HeldGrows(r, TakeFront(Exact, r))
  {
    var r' := TakeFront(Exact, r);
    assert Genuine(r.buf[0], sent);
    forall n: nat | Held(r, n)
      ensures Held(r', n)
    {
      if n > r.nxt {
        var i :| 0 <= i < |r.buf| && r.buf[i].sn == n;
        assert r'.buf[i - 1].sn == n;
      }
    }
  }

  /** Moving segments to the queue extends `got` by as many fragments, and forgets nothing. */
  lemma {:induction false} DrainRight(r: Rcv, got: seq<Frag>, sent: seq<Frag>) returns (more: seq<Frag>)
    requires RcvRight(r, got, sent)
    ensures RcvRight(Drain(Exact, r), got + more, sent) && Drain(Exact, r).queue == r.queue + more
    ensures HeldGrows(r, Drain(Exact, r))
    decreases |r.buf|
  {
    if CanTake(r) {
      TakeFrontRight(r, got, sent);
      var f := FragOf(r.buf[0]);
      var rest := DrainRight(TakeFront(Exact, r), got + [f], sent);
      more := [f] + rest;
      Assoc(got, [f], rest);
      Assoc(r.queue, [f], rest);
    } else {
      more := [];
      assert got + more == got;
    }
  }

  lemma InsertMembers(buf: seq<Seg>, seg: Seg, nxt: nat, lim: nat)
    requires Receiver.Ascending(Exact, buf, nxt, lim) && lim <= 0x8000_0000
    requires nxt <= seg.sn < nxt + lim
    ensures forall x :: x in buf ==> x in Insert(Exact, buf, seg)
    ensures forall x :: x in Insert(Exact, buf, seg) ==> x in buf || x == seg
    ensures HasSn(Insert(Exact, buf, seg), seg.sn)
  {
    InsertKeeps(Exact, buf, seg, nxt, lim);
    var t := Insert(Exact, buf, seg);
    forall x | x in buf
      ensures x in t
    {
      assert x in multiset(buf);
      assert x in multiset(t);
    }
    forall x | x in t
      ensures x in buf || x == seg
    {
      assert x in multiset(t);
    }
  }

  lemma HasSnMember(buf: seq<Seg>, t: seq<Seg>, n: nat)
    requires HasSn(buf, n) && forall x :: x in buf ==> x in t
    ensures HasSn(t, n)
  {
    var i :| 0 <= i < |buf| && buf[i].sn == n;
    assert buf[i] in t;
    var j :| 0 <= j < |t| && t[j] == buf[i];
  }

  lemma InsertRight(r: Rcv, lim: nat, seg: Seg, got: seq<Frag>, sent: seq<Frag>)
    requires RcvOk(Exact, r, lim) && RcvRight(r, got, sent) && Genuine(seg, sent)
    requires r.nxt <= seg.sn < r.nxt + lim
    ensures var r' := r.(buf := Insert(Exact, r.buf, seg));
            RcvRight(r', got, sent) && HeldGrows(r, r') && Held(r', seg.sn)
  {
    InsertMembers(r.buf, seg, r.nxt, lim);
    var t := Insert(Exact, r.buf, seg);
    forall i | 0 <= i < |t|
      ensures Genuine(t[i], sent)
    {
      assert t[i] in r.buf || t[i] == seg;
    }
    forall n: nat | Held(r, n)
      ensures Held(r.(buf := t), n)
    {
      if n >= r.nxt {
        HasSnMember(r.buf, t, n);
      }
    }
  }

  lemma ParseDataRight(r: Rcv, lim: nat, seg: Seg, got: seq<Frag>, sent: seq<Frag>) returns (more: seq<Frag>)
    requires RcvOk(Exact, r, lim) && RcvRight(r, got, sent) && Genuine(seg, sent)
    requires seg.sn < r.nxt + r.wnd
    ensures var r' := ParseData(Exact, r, seg);
            && RcvRight(r', got + more, sent) && r'.queue == r.queue + more
            && HeldGrows(r, r') && Held(r', seg.sn)
  {
    if r.nxt <= seg.sn {
      InsertRight(r, lim, seg, got, sent);
      more := DrainRight(r.(buf := Insert(Exact, r.buf, seg)), got, sent);
    } else {
      more := [];
      assert got + more == got;
    }
  }

  /** A genuine data segment keeps the receiver right, and every acknowledgement it queues is sound. */
  lemma RcvInputRight(r: Rcv, lim: nat, seg: Seg, got: seq<Frag>, sent: seq<Frag>) returns (more: seq<Frag>)
    requires RcvOk(Exact, r, lim) && RcvRight(r, got, sent) && AcksSound(r) && Genuine(seg, sent)
    ensures var r' := RcvInput(Exact, r, seg);
            && RcvRight(r', got + more, sent) && r'.queue == r.queue + more
            && HeldGrows(r, r') && AcksSound(r')
  {
    if seg.sn < r.nxt + r.wnd {
      var r1 := Noted(Exact, r, seg);
      more := ParseDataRight(r1, lim, seg, got, sent);
      ParseDataAcks(Exact, r1, seg);
      var r' := RcvInput(Exact, r, seg);
      forall i | 0 <= i < |r'.acks|
        ensures Held(r', r'.acks[i].sn)
      {
        assert i < |r.acks| ==> Held(r1, r.acks[i].sn) by {
          assert i < |r.acks| ==> Held(r, r.acks[i].sn);
        }
      }
    } else {
      more := [];
      assert got + more == got;
    }
  }

  // ----- sender

  lemma {:induction false} ParseUnaLoses(buf: seq<Sent>, una: nat, x: Sent)
    requires x in buf && x.seg.sn >= una
    ensures x in ParseUna(Exact, buf, una)
  {
    if Diff(Exact, una, buf[0].seg.sn) > 0 {
      assert x in buf[1..];
      ParseUnaLoses(buf[1..], una, x);
    }
  }

  lemma {:induction false} RemoveAckedLoses(buf: seq<Sent>, sn: nat, x: Sent)
    requires x in buf && x.seg.sn != sn
    ensures x in RemoveAcked(Exact, buf, sn)
  {
    if x != buf[0] {
      assert x in buf[1..];
      RemoveAckedLoses(buf[1..], sn, x);
    }
  }

  /** An incoming segment removes only what it acknowledges. */
  lemma SndInputLoses(s: Snd, seg: Seg, x: Sent)
    requires x in s.buf && x.seg.sn >= seg.una && (seg.cmd == CMD_ACK ==> x.seg.sn != seg.sn)
    ensures x in SndInput(Exact, s, seg).buf
  {
    ParseUnaLoses(s.buf, seg.una, x);
    var s1 := ShrinkBuf(s.(buf := ParseUna(Exact, s.buf, seg.una)));
    if seg.cmd == CMD_ACK {
      RemoveAckedLoses(s1.buf, seg.sn, x);
    }
  }

  lemma SndInputRight(s: Snd, seg: Seg, sent: seq<Frag>)
    requires SndRight(s, sent)
    ensures SndRight(SndInput(Exact, s, seg), sent)
  {
    SndInputFrom(Exact, s, seg);
    var t := SndInput(Exact, s, seg);
    forall i | 0 <= i < |t.buf|
      ensures Genuine(t.buf[i].seg, sent)
    {
      assert t.buf[i] in s.buf;
    }
  }

  /** Acting on a truthful segment loses nothing. */
  lemma SndInputNoLoss(s: Snd, r: Rcv, seg: Seg)
    requires NoLoss(s, r) && Truthful(seg, r)
    ensures NoLoss(SndInput(Exact, s, seg), r)
  {
    SndInputFrom(Exact, s, seg);
    var t := SndInput(Exact, s, seg);
    forall n: nat | n < t.nxt
      ensures InBuf(t.buf, n) || Held(r, n)
    {
      if !Held(r, n) {
        var i :| 0 <= i < |s.buf| && s.buf[i].seg.sn == n;
        SndInputLoses(s, seg, s.buf[i]);
        var j :| 0 <= j < |t.buf| && t.buf[j] == s.buf[i];
      }
    }
  }

  lemma SameSegmentsRight(s: Snd, buf: seq<Sent>, sent: seq<Frag>, r: Rcv)
    requires SameSegments(s.buf, buf)
    ensures SndRight(s, sent) ==> SndRight(s.(buf := buf), sent)
    ensures NoLoss(s, r) ==> NoLoss(s.(buf := buf), r)
  {
    if SndRight(s, sent) {
      forall i | 0 <= i < |buf|
        ensures Genuine(buf[i].seg, sent)
      {
        assert Genuine(s.buf[i].seg, sent);
      }
    }
    if NoLoss(s, r) {
      forall n: nat | n < s.nxt
        ensures InBuf(buf, n) || Held(r, n)
      {
        if InBuf(s.buf, n) {
          var i :| 0 <= i < |s.buf| && s.buf[i].seg.sn == n;
          assert buf[i].seg.sn == n;
        }
      }
    }
  }

  /** Numbering `k` queued fragments appends them to `sent`. */
  lemma MovedRight(s: Snd, t: Snd, e: FlushEnv, k: nat, sent: seq<Frag>, r: Rcv)
    requires SndRight(s, sent) && MovedBy(Exact, s, t, e, k) && NoLoss(s, r)
    ensures SndRight(t, sent + s.queue[..k]) && NoLoss(t, r)
    ensures sent + s.queue == (sent + s.queue[..k]) + t.queue
  {
    var sent' := sent + s.queue[..k];
    forall i | 0 <= i < |t.buf|
      ensures Genuine(t.buf[i].seg, sent')
    {
      if i < |s.buf| {
        assert Genuine(s.buf[i].seg, sent);
      } else {
        assert t.buf[|s.buf| + (i - |s.buf|)] == Number(e, s.queue[i - |s.buf|], s.nxt + (i - |s.buf|));
      }
    }
    forall n: nat | n < t.nxt
      ensures InBuf(t.buf, n) || Held(r, n)
    {
      if n >= s.nxt {
        var i := n - s.nxt;
        assert t.buf[|s.buf| + i] == Number(e, s.queue[i], Add(Exact, s.nxt, i));
      } else if InBuf(s.buf, n) {
        var i :| 0 <= i < |s.buf| && s.buf[i].seg.sn == n;
        assert t.buf[i].seg.sn == n;
      }
    }
  }
}
