/** The sender-window invariant, and what it buys: the early breaks of the acknowledgement loops miss nothing. */
module SendWindow {
  import opened Serial
  import opened Wire
  import opened Fragments
  import opened Sender

  /** No advertised window, so no send window, exceeds 16 bits. */
  const MAX_WND := 0xFFFF

  /** Strictly ascending numbers in [base, base + len). */
  predicate Ascending(w: Width, buf: seq<Sent>, base: nat, len: int) {
    && (forall i :: 0 <= i < |buf| ==> Numeral(w, buf[i].seg.sn) && 0 <= Ahead(w, buf[i].seg.sn, base) < len)
    && (forall i, j :: 0 <= i < j < |buf| ==> Ahead(w, buf[i].seg.sn, base) < Ahead(w, buf[j].seg.sn, base))
  }

  function Span(w: Width, s: Snd): int {
    Ahead(w, s.nxt, s.una)
  }

  /** Everything the invariant says except that `una` is up to date. */
  predicate BufOk(w: Width, s: Snd) {
    && Numeral(w, s.una) && Numeral(w, s.nxt)
    && 0 <= Span(w, s) <= MAX_WND
    && Ascending(w, s.buf, s.una, Span(w, s))
  }

  predicate SndOk(w: Width, s: Snd) {
    BufOk(w, s) && s.una == ShrinkBuf(s).una
  }

  /** `una` has moved forward (or stayed), and not beyond `nxt`. */
  predicate Advanced(w: Width, before: Snd, after: Snd) {
    0 <= Ahead(w, after.una, before.una) <= Span(w, before)
  }

  lemma ShrinkKeeps(w: Width, s: Snd)
    requires BufOk(w, s)
    ensures SndOk(w, ShrinkBuf(s)) && Advanced(w, s, ShrinkBuf(s))
    ensures Span(w, ShrinkBuf(s)) == Span(w, s) - Ahead(w, ShrinkBuf(s).una, s.una)
  {
    var una := ShrinkBuf(s).una;
    AheadRebase(w, s.nxt, s.una, una);
    forall i | 0 <= i < |s.buf|
      ensures Ahead(w, s.buf[i].seg.sn, una) == Ahead(w, s.buf[i].seg.sn, s.una) - Ahead(w, una, s.una)
    {
      assert i > 0 ==> Ahead(w, s.buf[0].seg.sn, s.una) < Ahead(w, s.buf[i].seg.sn, s.una);
      AheadRebase(w, s.buf[i].seg.sn, s.una, una);
    }
  }

  lemma SuffixAscending(w: Width, buf: seq<Sent>, base: nat, len: int, k: nat)
    requires Ascending(w, buf, base, len) && k <= |buf|
    ensures Ascending(w, buf[k..], base, len)
  {
  }

  /** Number `n` is in the buffer. */
  predicate InBuf(buf: seq<Sent>, n: nat) {
    exists i :: 0 <= i < |buf| && buf[i].seg.sn == n
  }

  // ----- ikcp_parse_una

  /** On an ascending buffer, the front loop drops the entries before `una` and no other. */
  lemma {:induction false} UnaDrops(w: Width, buf: seq<Sent>, base: nat, len: int, una: nat) returns (k: nat)
    requires Ascending(w, buf, base, len) && len <= 0x8000_0000
    requires Diff(w, una, base) >= 0
    ensures k <= |buf| && ParseUna(w, buf, una) == buf[k..]
    ensures forall i :: 0 <= i < k ==> Ahead(w, buf[i].seg.sn, base) < Ahead(w, una, base)
    ensures forall i :: k <= i < |buf| ==> Ahead(w, buf[i].seg.sn, base) >= Ahead(w, una, base)
  {
    if buf == [] {
      k := 0;
    } else {
      DiffFromBase(w, una, base);
      DiffIsAhead(w, una, buf[0].seg.sn, base);
      if Diff(w, una, buf[0].seg.sn) > 0 {
        SuffixAscending(w, buf, base, len, 1);
        var k' := UnaDrops(w, buf[1..], base, len, una);
        k := k' + 1;
        assert buf[1..][k'..] == buf[k..];
        forall i | 0 <= i < k
          ensures Ahead(w, buf[i].seg.sn, base) < Ahead(w, una, base)
        {
          assert i > 0 ==> buf[1..][i - 1] == buf[i];
        }
        forall i | k <= i < |buf|
          ensures Ahead(w, buf[i].seg.sn, base) >= Ahead(w, una, base)
        {
          assert buf[1..][i - 1] == buf[i];
        }
      } else {
        k := 0;
      }
    }
  }

  /** A stale or nonsensical `una` (one that is not serially at or after `snd_una`) removes nothing. */
  lemma UnaBehind(w: Width, s: Snd, una: nat)
    requires SndOk(w, s) && Diff(w, una, s.una) < 0
    ensures ParseUna(w, s.buf, una) == s.buf
  {
  }

  lemma ParseUnaKeeps(w: Width, s: Snd, una: nat)
    requires SndOk(w, s)
    ensures BufOk(w, s.(buf := ParseUna(w, s.buf, una)))
  {
    if Diff(w, una, s.una) < 0 {
      UnaBehind(w, s, una);
    } else {
      var k := UnaDrops(w, s.buf, s.una, Span(w, s), una);
      SuffixAscending(w, s.buf, s.una, Span(w, s), k);
    }
  }

  // ----- ikcp_parse_ack

  lemma InFlightIsInside(w: Width, s: Snd, sn: nat)
    requires SndOk(w, s)
    ensures InFlight(w, s, sn) <==> 0 <= Ahead(w, sn, s.una) < Span(w, s)
  {
    DiffFromBase(w, sn, s.una);
    if Diff(w, sn, s.una) >= 0 {
      DiffIsAhead(w, sn, s.nxt, s.una);
    }
  }

  /** The buffer without any entry numbered `sn`, looking at all of it. */
  function Without(buf: seq<Sent>, sn: nat): seq<Sent> {
    if buf == [] then []
    else if buf[0].seg.sn == sn then Without(buf[1..], sn)
    else [buf[0]] + Without(buf[1..], sn)
  }

  lemma {:induction false} WithoutAbsent(buf: seq<Sent>, sn: nat)
    requires forall i :: 0 <= i < |buf| ==> buf[i].seg.sn != sn
    ensures Without(buf, sn) == buf
  {
    if buf != [] {
      WithoutAbsent(buf[1..], sn);
    }
  }

  /** The early break of `ikcp_parse_ack` misses nothing. */
  lemma {:induction false} RemoveAckedIsWithout(w: Width, buf: seq<Sent>, base: nat, len: int, sn: nat)
    requires Ascending(w, buf, base, len) && len <= 0x8000_0000
    requires Numeral(w, sn) && 0 <= Ahead(w, sn, base) < len
    ensures RemoveAcked(w, buf, sn) == Without(buf, sn)
  {
    if buf != [] {
      SuffixAscending(w, buf, base, len, 1);
      DiffIsAhead(w, sn, buf[0].seg.sn, base);
      if sn == buf[0].seg.sn || Diff(w, sn, buf[0].seg.sn) < 0 {
        forall i | 1 <= i < |buf|
          ensures buf[i].seg.sn != sn
        {
          assert Ahead(w, buf[0].seg.sn, base) < Ahead(w, buf[i].seg.sn, base);
        }
        WithoutAbsent(buf[1..], sn);
        assert sn != buf[0].seg.sn ==> [buf[0]] + buf[1..] == buf;
      } else {
        RemoveAckedIsWithout(w, buf[1..], base, len, sn);
      }
    }
  }

  lemma {:induction false} WithoutMembers(buf: seq<Sent>, sn: nat)
    ensures forall x :: x in Without(buf, sn) <==> x in buf && x.seg.sn != sn
  {
    if buf != [] {
      WithoutMembers(buf[1..], sn);
      forall x
        ensures x in buf <==> x == buf[0] || x in buf[1..]
      {
        assert buf == [buf[0]] + buf[1..];
      }
    }
  }

  lemma ConsAscending(w: Width, x: Sent, t: seq<Sent>, base: nat, len: int)
    requires Ascending(w, t, base, len) && Numeral(w, x.seg.sn) && 0 <= Ahead(w, x.seg.sn, base) < len
    requires forall i :: 0 <= i < |t| ==> Ahead(w, x.seg.sn, base) < Ahead(w, t[i].seg.sn, base)
    ensures Ascending(w, [x] + t, base, len)
  {
  }

  lemma {:induction false} WithoutKeeps(w: Width, buf: seq<Sent>, base: nat, len: int, sn: nat)
    requires Ascending(w, buf, base, len)
    ensures Ascending(w, Without(buf, sn), base, len)
  {
    if buf != [] {
      SuffixAscending(w, buf, base, len, 1);
      WithoutKeeps(w, buf[1..], base, len, sn);
      var t := Without(buf[1..], sn);
      forall i | 0 <= i < |t|
        ensures Ahead(w, buf[0].seg.sn, base) < Ahead(w, t[i].seg.sn, base)
      {
        WithoutMembers(buf[1..], sn);
        var j :| 0 <= j < |buf[1..]| && buf[1..][j] == t[i];
        assert buf[j + 1] == t[i];
      }
      ConsAscending(w, buf[0], t, base, len);
    }
  }

  lemma ParseAckIs(w: Width, s: Snd, sn: nat)
    requires SndOk(w, s) && Numeral(w, sn)
    ensures ParseAck(w, s, sn) == if 0 <= Ahead(w, sn, s.una) < Span(w, s) then s.(buf := Without(s.buf, sn)) else s
    ensures BufOk(w, ParseAck(w, s, sn))
  {
    InFlightIsInside(w, s, sn);
    if InFlight(w, s, sn) {
      RemoveAckedIsWithout(w, s.buf, s.una, Span(w, s), sn);
      WithoutKeeps(w, s.buf, s.una, Span(w, s), sn);
    }
  }

  // ----- ikcp_parse_fastack

  /** Every entry the acknowledgement has overtaken is counted, and no other: the early break misses nothing. */
  lemma {:induction false} CountSkippedIsMap(w: Width, buf: seq<Sent>, base: nat, len: int, sn: nat)
    requires Ascending(w, buf, base, len) && len <= 0x8000_0000
    requires Numeral(w, sn) && 0 <= Ahead(w, sn, base) < len
    ensures |CountSkipped(w, buf, sn)| == |buf|
    ensures forall i :: 0 <= i < |buf| ==>
              CountSkipped(w, buf, sn)[i] ==
              if Ahead(w, buf[i].seg.sn, base) < Ahead(w, sn, base) then Skip(buf[i]) else buf[i]
  {
    if buf != [] {
      SuffixAscending(w, buf, base, len, 1);
      DiffIsAhead(w, sn, buf[0].seg.sn, base);
      AheadInjective(w, sn, buf[0].seg.sn, base);
      if Diff(w, sn, buf[0].seg.sn) >= 0 {
        CountSkippedIsMap(w, buf[1..], base, len, sn);
      } else {
        forall i | 1 <= i < |buf|
          ensures Ahead(w, buf[i].seg.sn, base) > Ahead(w, sn, base)
        {
          assert Ahead(w, buf[0].seg.sn, base) < Ahead(w, buf[i].seg.sn, base);
        }
      }
    }
  }

  /** Two buffers with the same numbers and the same contents, whatever their timers and counters. */
  predicate SameSegments(a: seq<Sent>, b: seq<Sent>) {
    |a| == |b| && forall i :: 0 <= i < |a| ==> a[i].seg.sn == b[i].seg.sn && FragOf(a[i].seg) == FragOf(b[i].seg)
  }

  lemma SameSegmentsKeeps(w: Width, s: Snd, buf: seq<Sent>)
    requires SndOk(w, s) && SameSegments(s.buf, buf)
    ensures SndOk(w, s.(buf := buf))
  {
  }

  lemma ParseFastackKeeps(w: Width, s: Snd, sn: nat)
    requires SndOk(w, s) && Numeral(w, sn)
    ensures SndOk(w, ParseFastack(w, s, sn))
    ensures SameSegments(s.buf, ParseFastack(w, s, sn).buf)
  {
    InFlightIsInside(w, s, sn);
    if InFlight(w, s, sn) {
      CountSkippedIsMap(w, s.buf, s.una, Span(w, s), sn);
      SameSegmentsKeeps(w, s, CountSkipped(w, s.buf, sn));
    }
  }

  // ----- one incoming segment, one flush

  lemma AdvancedTwice(w: Width, a: Snd, b: Snd, c: Snd)
    requires Advanced(w, a, b) && Advanced(w, b, c) && 0 <= Span(w, a) <= MAX_WND
    requires Span(w, b) == Span(w, a) - Ahead(w, b.una, a.una)
    ensures Advanced(w, a, c)
    ensures Ahead(w, c.una, a.una) == Ahead(w, b.una, a.una) + Ahead(w, c.una, b.una)
  {
    if w == W32 {
      Congruent(c.una - a.una, Ahead(w, b.una, a.una) + Ahead(w, c.una, b.una),
                (b.una - a.una) / 0x1_0000_0000 + (c.una - b.una) / 0x1_0000_0000);
    }
  }

  /** Sender-window invariant for arbitrary incoming segments; `snd_una` never moves backward. */
  lemma SndInputKeeps(w: Width, s: Snd, seg: Seg)
    requires SndOk(w, s) && Numeral(w, seg.sn)
    ensures SndOk(w, SndInput(w, s, seg)) && Advanced(w, s, SndInput(w, s, seg))
    ensures SndInput(w, s, seg).nxt == s.nxt && SndInput(w, s, seg).queue == s.queue
    ensures Span(w, SndInput(w, s, seg)) == Span(w, s) - Ahead(w, SndInput(w, s, seg).una, s.una)
  {
    ParseUnaKeeps(w, s, seg.una);
    var t := s.(buf := ParseUna(w, s.buf, seg.una));
    ShrinkKeeps(w, t);
    var s1 := ShrinkBuf(t);
    if seg.cmd == CMD_ACK {
      ParseAckIs(w, s1, seg.sn);
      var t1 := ParseAck(w, s1, seg.sn);
      ShrinkKeeps(w, t1);
      AdvancedTwice(w, s, s1, ShrinkBuf(t1));
    }
  }

  function MoveOne(w: Width, s: Snd, e: FlushEnv): Snd
    requires s.queue != []
  {
    Snd(s.una, Add(w, s.nxt, 1), s.queue[1..], s.buf + [Number(e, s.queue[0], s.nxt)])
  }

  lemma HasRoom(w: Width, s: Snd, cwnd: nat)
    requires SndOk(w, s) && cwnd <= MAX_WND
    ensures Diff(w, s.nxt, Add(w, s.una, cwnd)) < 0 <==> Span(w, s) < cwnd
  {
    AheadOfNext(w, s.una, cwnd);
    DiffIsAhead(w, s.nxt, Add(w, s.una, cwnd), s.una);
  }

  lemma NextSpan(w: Width, s: Snd)
    requires 0 <= Span(w, s) <= MAX_WND
    ensures Ahead(w, Add(w, s.nxt, 1), s.una) == Span(w, s) + 1
  {
    if w == W32 {
      Congruent(Add(w, s.nxt, 1) - s.una, Span(w, s) + 1,
                (s.nxt - s.una) / 0x1_0000_0000 - (s.nxt + 1) / 0x1_0000_0000);
    }
  }

  lemma MoveOneKeeps(w: Width, s: Snd, e: FlushEnv, cwnd: nat)
    requires SndOk(w, s) && s.queue != [] && Span(w, s) < cwnd <= MAX_WND
    ensures SndOk(w, MoveOne(w, s, e))
  {
    NextSpan(w, s);
  }

  /** Moving segments into the buffer keeps the invariant, whatever window the peer has advertised. */
  lemma {:induction false} MoveToBufKeeps(w: Width, s: Snd, e: FlushEnv, cwnd: nat)
    requires SndOk(w, s) && cwnd <= MAX_WND
    ensures SndOk(w, MoveToBuf(w, s, e, cwnd))
    ensures MoveToBuf(w, s, e, cwnd).una == s.una
    decreases |s.queue|
  {
    HasRoom(w, s, cwnd);
    if Span(w, s) < cwnd && s.queue != [] {
      MoveOneKeeps(w, s, e, cwnd);
      MoveToBufKeeps(w, MoveOne(w, s, e), e, cwnd);
    }
  }

  /** The window is filled: after the move either nothing is left to send or the window is full. */
  lemma {:induction false} MoveToBufFills(w: Width, s: Snd, e: FlushEnv, cwnd: nat)
    requires SndOk(w, s) && cwnd <= MAX_WND
    ensures var t := MoveToBuf(w, s, e, cwnd); t.queue == [] || Span(w, t) >= cwnd
    ensures Span(w, MoveToBuf(w, s, e, cwnd)) <= if Span(w, s) > cwnd then Span(w, s) else cwnd
    decreases |s.queue|
  {
    HasRoom(w, s, cwnd);
    if Span(w, s) < cwnd && s.queue != [] {
      MoveOneKeeps(w, s, e, cwnd);
      NextSpan(w, s);
      MoveToBufFills(w, MoveOne(w, s, e), e, cwnd);
    }
  }

  /** `t` is `s` after its first `k` queued segments have been numbered from `s.nxt` on and put behind the buffer. */
  predicate MovedBy(w: Width, s: Snd, t: Snd, e: FlushEnv, k: nat) {
    && k <= |s.queue|
    && t.una == s.una && t.nxt == Add(w, s.nxt, k) && t.queue == s.queue[k..]
    && |t.buf| == |s.buf| + k
    && (forall i :: 0 <= i < |s.buf| ==> t.buf[i] == s.buf[i])
    && (forall i :: 0 <= i < k ==> t.buf[|s.buf| + i] == Number(e, s.queue[i], Add(w, s.nxt, i)))
  }

  lemma MovedByNext(w: Width, s: Snd, t: Snd, e: FlushEnv, k: nat)
    requires s.queue != [] && Numeral(w, s.nxt) && MovedBy(w, MoveOne(w, s, e), t, e, k)
    ensures MovedBy(w, s, t, e, k + 1)
  {
    var s1 := MoveOne(w, s, e);
    AddAdd(w, s.nxt, 1, k);
    forall i | 0 <= i < k + 1
      ensures t.buf[|s.buf| + i] == Number(e, s.queue[i], Add(w, s.nxt, i))
    {
      if i > 0 {
        AddAdd(w, s.nxt, 1, i - 1);
        assert t.buf[|s1.buf| + (i - 1)] == Number(e, s1.queue[i - 1], Add(w, s1.nxt, i - 1));
      } else {
        assert t.buf[|s.buf|] == s1.buf[|s.buf|];
      }
    }
  }

  lemma {:induction false} MoveToBufParts(w: Width, s: Snd, e: FlushEnv, cwnd: nat) returns (k: nat)
    requires Numeral(w, s.nxt)
    ensures MovedBy(w, s, MoveToBuf(w, s, e, cwnd), e, k)
    decreases |s.queue|
  {
    if Diff(w, s.nxt, Add(w, s.una, cwnd)) < 0 && s.queue != [] {
      var k' := MoveToBufParts(w, MoveOne(w, s, e), e, cwnd);
      MovedByNext(w, s, MoveToBuf(w, s, e, cwnd), e, k');
      k := k' + 1;
    } else {
      k := 0;
    }
  }

  lemma SweepKeeps(w: Width, s: Snd, e: FlushEnv, deadLink: u32)
    requires SndOk(w, s)
    ensures SndOk(w, s.(buf := SweepBuf(s.buf, e, deadLink).buf))
    ensures SameSegments(s.buf, SweepBuf(s.buf, e, deadLink).buf)
  {
    SweepIsMap(s.buf, e, deadLink);
    SameSegmentsKeeps(w, s, SweepBuf(s.buf, e, deadLink).buf);
  }
}
