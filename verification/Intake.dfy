/** What one `ikcp_input` does, told by the state before, the segments in the datagram and the state after: which entries it
    takes out of `snd_buf`, which it counts as overtaken, what it acknowledges, and how the congestion window opens. All of
    it at 32 bits, for arbitrary bytes. */
module Intake {
  import opened Seqs
  import opened Serial
  import opened Wire
  import opened Sender
  import opened SendWindow
  import opened Receiver
  import opened Congestion
  import opened ControlBlock
  import opened Invariant

  // ----- one `una`

  /** `una` says that number `sn` has been received. */
  predicate Covers(una: nat, sn: nat) {
    Diff(W32, una, sn) > 0
  }

  /** `una` counts as after a number in the buffer when it is ahead of it by less than 2^31. */
  lemma CoversIs(una: nat, sn: nat, base: nat)
    requires Offset(sn, base) <= MAX_WND
    ensures Covers(una, sn) <==> 0 < Offset(una, base) - Offset(sn, base) < 0x8000_0000
  {
    var d := Offset(una, base) as int - Offset(sn, base);
    Congruent(una - sn, d, (una - base) / 0x1_0000_0000 - (sn - base) / 0x1_0000_0000);
  }

  /** Number `n` lies in the corner of `una`: `una` is about 2^31 ahead of the buffer, so that it counts as before its first
      entry but as after `n`. */
  predicate InCorner(s: Snd, una: nat, n: nat) {
    0x8000_0000 <= Offset(una, s.una) < 0x8000_0000 + Offset(n, s.una)
  }

  lemma EntryInside(s: Snd, i: nat)
    requires SndOk(W32, s) && i < |s.buf|
    ensures s.buf[i].seg.sn < 0x1_0000_0000
    ensures Offset(s.buf[i].seg.sn, s.una) <= Offset(s.buf[|s.buf| - 1].seg.sn, s.una) <= MAX_WND
    ensures Offset(s.buf[0].seg.sn, s.una) == 0
  {
    assert i < |s.buf| - 1 ==> Ahead(W32, s.buf[i].seg.sn, s.una) < Ahead(W32, s.buf[|s.buf| - 1].seg.sn, s.una);
  }

  /** The loop of `ikcp_parse_una` leaves exactly the entries that `una` does not cover, and those in its corner. */
  lemma UnaTakesExactly(s: Snd, una: nat)
    requires SndOk(W32, s)
    ensures forall x :: x in ParseUna(W32, s.buf, una) <==>
                        x in s.buf && (!Covers(una, x.seg.sn) || InCorner(s, una, x.seg.sn))
  {
    if s.buf != [] && Diff(W32, una, s.una) < 0 {
      UnaBehind(W32, s, una);
      FarBehind(s, una);
    } else if s.buf != [] {
      UnaTakes(s, una);
    }
  }

  lemma FarBehind(s: Snd, una: nat)
    requires SndOk(W32, s) && Diff(W32, una, s.una) < 0
    ensures forall x :: x in s.buf ==> (Covers(una, x.seg.sn) <==> InCorner(s, una, x.seg.sn))
  {
    forall x | x in s.buf
      ensures Covers(una, x.seg.sn) <==> InCorner(s, una, x.seg.sn)
    {
      var i :| 0 <= i < |s.buf| && s.buf[i] == x;
      EntryInside(s, i);
      CoversIs(una, x.seg.sn, s.una);
    }
  }

  lemma UnaTakes(s: Snd, una: nat)
    requires SndOk(W32, s) && s.buf != [] && Diff(W32, una, s.una) >= 0
    ensures forall x :: x in s.buf ==> !InCorner(s, una, x.seg.sn)
    ensures forall x :: x in ParseUna(W32, s.buf, una) <==> x in s.buf && !Covers(una, x.seg.sn)
  {
    var k := UnaDrops(W32, s.buf, s.una, Span(W32, s), una);
    forall i | 0 <= i < |s.buf|
      ensures Covers(una, s.buf[i].seg.sn) <==> i < k
    {
      EntryInside(s, i);
      CoversIs(una, s.buf[i].seg.sn, s.una);
    }
    forall x
      ensures x in s.buf[k..] <==> x in s.buf && !Covers(una, x.seg.sn)
    {
      if x in s.buf && !Covers(una, x.seg.sn) {
        var i :| 0 <= i < |s.buf| && s.buf[i] == x;
        assert s.buf[k..][i - k] == x;
      }
    }
  }

  // ----- one segment

  /** One segment says that number `n` has been received. */
  predicate Takes(seg: Seg, n: nat) {
    Covers(seg.una, n) || (seg.cmd == CMD_ACK && seg.sn == n)
  }

  /** The acknowledgement of a single number takes out its entry and no other. */
  lemma AckTakes(s: Snd, sn: nat)
    requires SndOk(W32, s) && sn < 0x1_0000_0000
    ensures forall x :: x in ParseAck(W32, s, sn).buf <==> x in s.buf && x.seg.sn != sn
  {
    ParseAckIs(W32, s, sn);
    WithoutMembers(s.buf, sn);
  }

  /** Number `n` lies in the corner of the segment's `una` and is not acknowledged by the segment itself. */
  predicate Misses(s: Snd, seg: Seg, n: nat) {
    InCorner(s, seg.una, n) && !(seg.cmd == CMD_ACK && seg.sn == n)
  }

  ghost predicate Splits(s: Snd, seg: Seg) {
    exists i :: 0 <= i < |s.buf| && Misses(s, seg, s.buf[i].seg.sn)
  }

  /** A segment leaves exactly the entries that it does not say to have been received, if and only if it does not come in the
      corner. */
  lemma SegmentTakes(s: Snd, seg: Seg)
    requires SndOk(W32, s) && seg.sn < 0x1_0000_0000
    ensures !Splits(s, seg) <==> forall x :: x in SndInput(W32, s, seg).buf <==> x in s.buf && !Takes(seg, x.seg.sn)
  {
    SegmentLeaves(s, seg);
    if Splits(s, seg) {
      var i :| 0 <= i < |s.buf| && Misses(s, seg, s.buf[i].seg.sn);
      assert s.buf[i] in s.buf && s.buf[i] in SndInput(W32, s, seg).buf;
      CornerIsCovered(s, seg.una, i);
    }
  }

  lemma CornerIsCovered(s: Snd, una: nat, i: nat)
    requires SndOk(W32, s) && i < |s.buf| && InCorner(s, una, s.buf[i].seg.sn)
    ensures Covers(una, s.buf[i].seg.sn)
  {
    EntryInside(s, i);
    CoversIs(una, s.buf[i].seg.sn, s.una);
  }

  lemma SegmentLeaves(s: Snd, seg: Seg)
    requires SndOk(W32, s) && seg.sn < 0x1_0000_0000
    ensures forall x :: x in SndInput(W32, s, seg).buf <==>
                        && x in s.buf && !(seg.cmd == CMD_ACK && seg.sn == x.seg.sn)
                        && (!Covers(seg.una, x.seg.sn) || InCorner(s, seg.una, x.seg.sn))
  {
    var t := s.(buf := ParseUna(W32, s.buf, seg.una));
    UnaTakesExactly(s, seg.una);
    ParseUnaKeeps(W32, s, seg.una);
    ShrinkKeeps(W32, t);
    if seg.cmd == CMD_ACK {
      AckTakes(ShrinkBuf(t), seg.sn);
    }
  }

  // ----- a datagram

  predicate Taken(segs: seq<Seg>, n: nat) {
    exists j :: 0 <= j < |segs| && Takes(segs[j], n)
  }

  lemma TakenSnoc(segs: seq<Seg>, n: nat)
    requires segs != []
    ensures Taken(segs, n) <==> Taken(segs[..|segs| - 1], n) || Takes(segs[|segs| - 1], n)
  {
    var init := segs[..|segs| - 1];
    if Taken(init, n) {
      var j :| 0 <= j < |init| && Takes(init[j], n);
      assert Takes(segs[j], n);
    }
    if Taken(segs, n) {
      var j :| 0 <= j < |segs| && Takes(segs[j], n);
      assert j < |init| ==> Takes(init[j], n);
    }
  }

  /** No `una` of the datagram comes in the corner. */
  ghost predicate NoneSplits(cb: Cb, segs: seq<Seg>) {
    segs == [] ||
    (NoneSplits(cb, segs[..|segs| - 1]) && !Splits(InputAll(W32, cb, segs[..|segs| - 1]).snd, segs[|segs| - 1]))
  }

  lemma InputAllSound(cb: Cb, lim: nat, segs: seq<Seg>)
    requires CbOk(W32, cb, lim) && NumeralSegs(W32, segs)
    ensures SndOk(W32, InputAll(W32, cb, segs).snd) && RcvOk(W32, InputAll(W32, cb, segs).rcv, lim)
    ensures Progress(W32, cb.snd, InputAll(W32, cb, segs).snd)
  {
    InputAllOk(W32, cb, lim, segs);
  }

  /** The entries left are those that no segment says to have been received. */
  lemma {:induction false} DatagramTakes(cb: Cb, lim: nat, segs: seq<Seg>)
    requires CbOk(W32, cb, lim) && NumeralSegs(W32, segs) && NoneSplits(cb, segs)
    ensures forall x :: x in InputAll(W32, cb, segs).snd.buf <==> x in cb.snd.buf && !Taken(segs, x.seg.sn)
  {
    if segs != [] {
      var init, last := segs[..|segs| - 1], segs[|segs| - 1];
      DatagramTakes(cb, lim, init);
      InputAllSound(cb, lim, init);
      assert NumeralSeg(W32, segs[|segs| - 1]);
      SegmentTakes(InputAll(W32, cb, init).snd, last);
      forall x: Sent
        ensures Taken(segs, x.seg.sn) <==> Taken(init, x.seg.sn) || Takes(last, x.seg.sn)
      {
        TakenSnoc(segs, x.seg.sn);
      }
    }
  }

  /** No `una` lies about 2^31 ahead of `snd_una` as it is before the call. */
  predicate Plain(s: Snd, segs: seq<Seg>) {
    forall j :: 0 <= j < |segs| ==> !(0x8000_0000 <= Offset(segs[j].una, s.una) < 0x8000_0000 + Span(W32, s))
  }

  lemma OffsetFrom(x: nat, base: nat, base': nat)
    ensures Offset(x, base') == U32(Offset(x, base) as int - Offset(base', base))
  {
    Congruent(x - base', Offset(x, base) as int - Offset(base', base),
              (x - base) / 0x1_0000_0000 - (base' - base) / 0x1_0000_0000);
  }

  lemma NotSplitLater(a: Snd, b: Snd, seg: Seg)
    requires SndOk(W32, a) && SndOk(W32, b) && Progress(W32, a, b)
    requires !(0x8000_0000 <= Offset(seg.una, a.una) < 0x8000_0000 + Span(W32, a))
    ensures !Splits(b, seg)
  {
    OffsetFrom(seg.una, a.una, b.una);
    forall i | 0 <= i < |b.buf|
      ensures !InCorner(b, seg.una, b.buf[i].seg.sn)
    {
      EntryInside(b, i);
    }
  }

  lemma {:induction false} PlainNeverSplits(cb: Cb, lim: nat, segs: seq<Seg>)
    requires CbOk(W32, cb, lim) && NumeralSegs(W32, segs) && Plain(cb.snd, segs)
    ensures NoneSplits(cb, segs)
  {
    if segs != [] {
      var init, last := segs[..|segs| - 1], segs[|segs| - 1];
      PlainNeverSplits(cb, lim, init);
      InputAllSound(cb, lim, init);
      assert segs[|segs| - 1] == last;
      NotSplitLater(cb.snd, InputAll(W32, cb, init).snd, last);
    }
  }

  /** What is left after each part of the datagram is what no segment so far says to have been received. */
  ghost predicate AlwaysRight(cb: Cb, segs: seq<Seg>) {
    && (forall x :: x in InputAll(W32, cb, segs).snd.buf <==> x in cb.snd.buf && !Taken(segs, x.seg.sn))
    && (segs == [] || AlwaysRight(cb, segs[..|segs| - 1]))
  }

  /** This holds after every part of a datagram if and only if no segment comes in the corner. */
  lemma {:induction false} RightUnlessSplit(cb: Cb, lim: nat, segs: seq<Seg>)
    requires CbOk(W32, cb, lim) && NumeralSegs(W32, segs)
    ensures AlwaysRight(cb, segs) <==> NoneSplits(cb, segs)
  {
    if segs != [] {
      var init, last := segs[..|segs| - 1], segs[|segs| - 1];
      RightUnlessSplit(cb, lim, init);
      if NoneSplits(cb, segs) {
        DatagramTakes(cb, lim, segs);
      } else if NoneSplits(cb, init) {
        InputAllSound(cb, lim, init);
        assert NumeralSeg(W32, segs[|segs| - 1]);
        SplitIsWrong(cb, lim, segs);
      }
    }
  }

  lemma SplitIsWrong(cb: Cb, lim: nat, segs: seq<Seg>)
    requires segs != [] && CbOk(W32, cb, lim) && NumeralSegs(W32, segs)
    requires NoneSplits(cb, segs[..|segs| - 1]) && Splits(InputAll(W32, cb, segs[..|segs| - 1]).snd, segs[|segs| - 1])
    ensures exists x :: x in InputAll(W32, cb, segs).snd.buf && Taken(segs, x.seg.sn)
  {
    var init, last := segs[..|segs| - 1], segs[|segs| - 1];
    var s := InputAll(W32, cb, init).snd;
    InputAllSound(cb, lim, init);
    assert NumeralSeg(W32, segs[|segs| - 1]);
    var i :| 0 <= i < |s.buf| && Misses(s, last, s.buf[i].seg.sn);
    SegmentLeaves(s, last);
    CornerIsCovered(s, last.una, i);
    TakenSnoc(segs, s.buf[i].seg.sn);
    assert s.buf[i] in InputAll(W32, cb, segs).snd.buf;
  }

  /** A buffer and an `una` for which the corner matters: number 1 is left although `una` covers it. */
  lemma CornerLeaves(x: Sent, y: Sent)
    requires x.seg.sn == 0 && y.seg.sn == 1
    ensures var s := Snd(0, 2, [], [x, y]);
            && SndOk(W32, s) && Covers(0x8000_0000, 1) && InCorner(s, 0x8000_0000, 1)
            && ParseUna(W32, s.buf, 0x8000_0000) == s.buf
  {
  }

  // ----- entries that have been overtaken

  /** Some acknowledgement of the datagram is for a number after `n`. */
  predicate Overtakes(segs: seq<Seg>, n: nat) {
    exists j :: 0 <= j < |segs| && segs[j].cmd == CMD_ACK && Diff(W32, segs[j].sn, n) > 0
  }

  /** The numbers acknowledged have been sent, and none of them almost 2^31 numbers ago. */
  predicate NearAcks(s: Snd, segs: seq<Seg>) {
    forall j :: 0 <= j < |segs| && segs[j].cmd == CMD_ACK ==>
      MAX_WND - 0x8000_0000 < Since(segs[j].sn, s.una) < Span(W32, s)
  }

  lemma DiffFrom(a: nat, b: nat, base: nat)
    requires -0x8000_0000 <= Since(a, base) - Since(b, base) < 0x8000_0000
    ensures Diff(W32, a, b) == Since(a, base) - Since(b, base)
  {
    var qa, qb := (a - base - Since(a, base)) / 0x1_0000_0000, (b - base - Since(b, base)) / 0x1_0000_0000;
    assert a - base == Since(a, base) + qa * 0x1_0000_0000;
    assert b - base == Since(b, base) + qb * 0x1_0000_0000;
    Congruent(a - b, Since(a, base) - Since(b, base), qa - qb);
  }

  /** `m` is what the loop keeps: of the numbers acknowledged, the one furthest ahead. */
  ghost predicate IsNewest(una: nat, segs: seq<Seg>, m: Mark) {
    && (m.NoAck? ==> forall j :: 0 <= j < |segs| ==> segs[j].cmd != CMD_ACK)
    && (m.Newest? ==> exists j :: 0 <= j < |segs| && segs[j].cmd == CMD_ACK && segs[j].sn == m.sn)
    && (m.Newest? ==> forall j :: 0 <= j < |segs| && segs[j].cmd == CMD_ACK ==> Since(segs[j].sn, una) <= Since(m.sn, una))
  }

  lemma {:induction false} MarkIsNewest(s: Snd, segs: seq<Seg>)
    requires SndOk(W32, s) && NearAcks(s, segs)
    ensures IsNewest(s.una, segs, MarkAll(W32, segs))
  {
    if segs != [] {
      var init, last := segs[..|segs| - 1], segs[|segs| - 1];
      MarkIsNewest(s, init);
      var m := MarkAll(W32, init);
      if last.cmd == CMD_ACK && m.Newest? {
        var j :| 0 <= j < |init| && init[j].cmd == CMD_ACK && init[j].sn == m.sn;
        assert segs[j].sn == m.sn && segs[|segs| - 1] == last;
        DiffFrom(last.sn, m.sn, s.una);
      }
      MarkStep(s.una, segs);
    }
  }

  lemma MarkStep(una: nat, segs: seq<Seg>)
    requires segs != []
    requires var init, last := segs[..|segs| - 1], segs[|segs| - 1];
             && IsNewest(una, init, MarkAll(W32, init))
             && (last.cmd == CMD_ACK && MarkAll(W32, init).Newest? ==>
                   Diff(W32, last.sn, MarkAll(W32, init).sn) == Since(last.sn, una) - Since(MarkAll(W32, init).sn, una))
    ensures IsNewest(una, segs, MarkAll(W32, segs))
  {
    var init, last := segs[..|segs| - 1], segs[|segs| - 1];
    var m, m' := MarkAll(W32, init), MarkAll(W32, segs);
    if m'.Newest? {
      if m' == m {
        var j :| 0 <= j < |init| && init[j].cmd == CMD_ACK && init[j].sn == m.sn;
        assert segs[j].cmd == CMD_ACK && segs[j].sn == m'.sn;
      } else {
        assert segs[|segs| - 1].cmd == CMD_ACK && segs[|segs| - 1].sn == m'.sn;
      }
    }
    forall j | 0 <= j < |segs| && segs[j].cmd == CMD_ACK
      ensures m'.Newest? && Since(segs[j].sn, una) <= Since(m'.sn, una)
    {
      if j < |init| {
        assert init[j] == segs[j];
      }
    }
  }

  /** The entries left, each counted as overtaken exactly if some acknowledgement is for a later number. */
  lemma CountsOvertaken(a: Snd, b: Snd, segs: seq<Seg>, i: nat)
    requires SndOk(W32, a) && SndOk(W32, b) && Progress(W32, a, b)
    requires NearAcks(a, segs) && NumeralSegs(W32, segs) && i < |b.buf|
    requires MarkAll(W32, segs).Newest?
    ensures var t := ParseFastack(W32, b, MarkAll(W32, segs).sn);
            |t.buf| == |b.buf| && t.buf[i] == if Overtakes(segs, b.buf[i].seg.sn) then Skip(b.buf[i]) else b.buf[i]
  {
    var m, n := MarkAll(W32, segs).sn, b.buf[i].seg.sn;
    MarkIsNewest(a, segs);
    MarkNumeral(W32, segs);
    EntryPlace(a, b, i);
    OvertakesIs(a, segs, n);
    InFlightIsInside(W32, b, m);
    MarkPlace(a, b, m, n);
    if InFlight(W32, b, m) {
      CountSkippedIsMap(W32, b.buf, b.una, Span(W32, b), m);
    }
  }

  /** An entry's place, from the first unacknowledged number before and after. */
  lemma EntryPlace(a: Snd, b: Snd, i: nat)
    requires SndOk(W32, a) && SndOk(W32, b) && Progress(W32, a, b) && i < |b.buf|
    ensures var n := b.buf[i].seg.sn;
            && Since(n, a.una) == Offset(n, a.una) == Offset(n, b.una) + Offset(b.una, a.una)
            && Since(n, a.una) <= MAX_WND
  {
    EntryInside(b, i);
    assert Ahead(W32, b.buf[i].seg.sn, b.una) < Span(W32, b);
    PlaceAdds(b.buf[i].seg.sn, a.una, b.una);
  }

  lemma PlaceAdds(n: nat, base: nat, base': nat)
    requires Offset(n, base') + Offset(base', base) <= MAX_WND
    ensures Since(n, base) == Offset(n, base) == Offset(n, base') + Offset(base', base)
  {
    Congruent(n - base, Offset(n, base') + Offset(base', base),
              (n - base') / 0x1_0000_0000 + (base' - base) / 0x1_0000_0000);
  }

  lemma OvertakesIs(a: Snd, segs: seq<Seg>, n: nat)
    requires NearAcks(a, segs) && MarkAll(W32, segs).Newest? && IsNewest(a.una, segs, MarkAll(W32, segs))
    requires 0 <= Span(W32, a) <= MAX_WND && 0 <= Since(n, a.una) <= MAX_WND
    ensures Overtakes(segs, n) <==> Since(MarkAll(W32, segs).sn, a.una) > Since(n, a.una)
  {
    forall j | 0 <= j < |segs| && segs[j].cmd == CMD_ACK
      ensures Diff(W32, segs[j].sn, n) == Since(segs[j].sn, a.una) - Since(n, a.una)
    {
      DiffFrom(segs[j].sn, n, a.una);
    }
  }

  /** The newest acknowledgement is in flight after the datagram if it is later than some entry left. */
  lemma MarkPlace(a: Snd, b: Snd, m: nat, n: nat)
    requires 0 <= Span(W32, a) <= MAX_WND && Progress(W32, a, b)
    requires Since(n, a.una) == Offset(n, b.una) + Offset(b.una, a.una) && Offset(n, b.una) <= MAX_WND
    requires Since(m, a.una) < Span(W32, a)
    ensures Since(m, a.una) > Since(n, a.una) ==> Offset(n, b.una) < Offset(m, b.una) < Span(W32, b)
    ensures Since(m, a.una) <= Since(n, a.una) && Offset(m, b.una) < Span(W32, b) ==> Offset(m, b.una) <= Offset(n, b.una)
  {
    OffsetFrom(m, a.una, b.una);
  }

  // ----- ikcp_input on bytes

  function SegsOf(cb: Cb, data: Bytes): seq<Seg> {
    Parse(cb.conf.conv, data).segs
  }

  /** The datagram reaches the decoding loop. */
  predicate LongEnough(data: Bytes) {
    I32(|data|) >= OVERHEAD
  }

  lemma SegsOfNumeral(cb: Cb, data: Bytes)
    ensures NumeralSegs(W32, SegsOf(cb, data)) && AllWireOk(cb.conf.conv, SegsOf(cb, data))
  {
    var tail := EncodeOfParse(cb.conf.conv, data);
    assert AllWireOk(cb.conf.conv, SegsOf(cb, data));
  }

  /** What it returns for any bytes: -1 for fewer than a header; otherwise these are well-formed segments of this
      conversation followed by bytes whose header is wrong, or too few for one, and the code says which. Segments in front
      of a wrong header have taken effect all the same: the lemmas that follow are about both cases. */
  lemma InputVerdict(cb: Cb, data: Bytes) returns (tail: Bytes)
    requires cb.conf.Ok()
    ensures !LongEnough(data) ==> InputBytes(cb, data) == (cb, -1)
    ensures LongEnough(data) ==>
              && AllWireOk(cb.conf.conv, SegsOf(cb, data)) && data == EncodeSegs(SegsOf(cb, data)) + tail
              && InputBytes(cb, data).1 == Verdict(cb.conf.conv, tail)
  {
    tail := EncodeOfParse(cb.conf.conv, data);
    ParseCodes(cb.conf.conv, data);
  }

  /** In particular 0 exactly for datagrams that consist of such segments and fewer than 24 more bytes. */
  lemma InputAccepts(cb: Cb, data: Bytes)
    requires cb.conf.Ok()
    ensures InputBytes(cb, data).1 == 0 <==>
            LongEnough(data) &&
            exists segs, tail: Bytes :: AllWireOk(cb.conf.conv, segs) && |tail| < OVERHEAD && data == EncodeSegs(segs) + tail
  {
    var tail := EncodeOfParse(cb.conf.conv, data);
    if LongEnough(data) {
      if exists segs, t: Bytes :: AllWireOk(cb.conf.conv, segs) && |t| < OVERHEAD && data == EncodeSegs(segs) + t {
        var segs, t: Bytes :| AllWireOk(cb.conf.conv, segs) && |t| < OVERHEAD && data == EncodeSegs(segs) + t;
        ParseWithTail(cb.conf.conv, segs, t);
      }
      ParseCodes(cb.conf.conv, data);
    }
  }

  lemma {:induction false} ParseWithTail(conv: u32, segs: seq<Seg>, tail: Bytes)
    requires AllWireOk(conv, segs) && |tail| < OVERHEAD
    ensures Parse(conv, EncodeSegs(segs) + tail) == Parsed(segs, 0)
  {
    if segs != [] {
      ParseWithTail(conv, segs[1..], tail);
      Assoc(EncodeSeg(segs[0]), EncodeSegs(segs[1..]), tail);
      DecodeOfEncode(segs[0], EncodeSegs(segs[1..]) + tail);
      assert segs == [segs[0]] + segs[1..];
    }
  }

  lemma {:induction false} ParseCodes(conv: u32, bs: Bytes)
    ensures -3 <= Parse(conv, bs).code <= 0
    decreases |bs|
  {
    if |bs| >= OVERHEAD && UnLe(bs[0..4]) == conv && |bs| - OVERHEAD >= DecodeLen(bs) && DecodeLen(bs) < 0x8000_0000 &&
       KnownCmd(DecodeSeg(bs).cmd)
    {
      ParseCodes(conv, bs[OVERHEAD + DecodeLen(bs)..]);
    }
  }

  /** What the loop leaves, before overtaken entries are counted. */
  function LoopEnd(cb: Cb, data: Bytes): Cb {
    InputAll(W32, cb, SegsOf(cb, data))
  }

  /** What the entry `x` looks like afterwards, if it is left. */
  function CountedIn(cb: Cb, data: Bytes, x: Sent): Sent
    requires cb.conf.Ok()
  {
    if InputBytes(cb, data).1 == 0 && Overtakes(SegsOf(cb, data), x.seg.sn) then Skip(x) else x
  }

  lemma InputCounts(cb: Cb, lim: nat, data: Bytes)
    requires CbOk(W32, cb, lim) && LongEnough(data) && NearAcks(cb.snd, SegsOf(cb, data))
    ensures var a, b := LoopEnd(cb, data).snd.buf, InputBytes(cb, data).0.snd.buf;
            |a| == |b| && forall i :: 0 <= i < |a| ==> b[i] == CountedIn(cb, data, a[i])
  {
    var segs := SegsOf(cb, data);
    SegsOfNumeral(cb, data);
    InputAllSound(cb, lim, segs);
    InputAllConf(W32, cb, segs);
    ParseCodes(cb.conf.conv, data);
    MarkIsNewest(cb.snd, segs);
    var a := LoopEnd(cb, data).snd;
    forall i | 0 <= i < |a.buf|
      ensures |InputBytes(cb, data).0.snd.buf| == |a.buf|
      ensures InputBytes(cb, data).0.snd.buf[i] == CountedIn(cb, data, a.buf[i])
    {
      if MarkAll(W32, segs).Newest? {
        CountsOvertaken(cb.snd, a, segs, i);
      }
    }
    if a.buf == [] && MarkAll(W32, segs).Newest? {
      assert ParseFastack(W32, a, MarkAll(W32, segs).sn).buf == [];
    }
  }

  lemma InputSameSegments(cb: Cb, lim: nat, data: Bytes)
    requires CbOk(W32, cb, lim) && LongEnough(data)
    ensures SameSegments(LoopEnd(cb, data).snd.buf, InputBytes(cb, data).0.snd.buf)
  {
    var segs := SegsOf(cb, data);
    SegsOfNumeral(cb, data);
    InputAllSound(cb, lim, segs);
    InputAllConf(W32, cb, segs);
    MarkNumeral(W32, segs);
    if MarkAll(W32, segs).Newest? {
      ParseFastackKeeps(W32, LoopEnd(cb, data).snd, MarkAll(W32, segs).sn);
    }
  }

  /** `ikcp_input` leaves in `snd_buf` exactly the numbers that were there and that no segment of the datagram says to have
      been received, by its `una` or as an acknowledgement of that number; for arbitrary bytes, accepted or not, unless some
      `una` lies about 2^31 ahead of `snd_una` (`RightUnlessSplit`). */
  lemma InputTakes(cb: Cb, lim: nat, data: Bytes)
    requires CbOk(W32, cb, lim) && LongEnough(data) && Plain(cb.snd, SegsOf(cb, data))
    ensures forall n :: InBuf(InputBytes(cb, data).0.snd.buf, n) <==> InBuf(cb.snd.buf, n) && !Taken(SegsOf(cb, data), n)
  {
    var segs := SegsOf(cb, data);
    SegsOfNumeral(cb, data);
    PlainNeverSplits(cb, lim, segs);
    DatagramTakes(cb, lim, segs);
    InputSameSegments(cb, lim, data);
    var a, b, c := cb.snd.buf, LoopEnd(cb, data).snd.buf, InputBytes(cb, data).0.snd.buf;
    forall n
      ensures InBuf(c, n) <==> InBuf(a, n) && !Taken(segs, n)
    {
      SameNumbers(b, c, n);
      if InBuf(b, n) {
        var i :| 0 <= i < |b| && b[i].seg.sn == n;
        assert b[i] in a;
      }
      if InBuf(a, n) && !Taken(segs, n) {
        var i :| 0 <= i < |a| && a[i].seg.sn == n;
        assert a[i] in b;
      }
    }
  }

  lemma SameNumbers(b: seq<Sent>, c: seq<Sent>, n: nat)
    requires SameSegments(b, c)
    ensures InBuf(b, n) <==> InBuf(c, n)
  {
    if InBuf(b, n) {
      var i :| 0 <= i < |b| && b[i].seg.sn == n;
      assert c[i].seg.sn == n;
    }
  }

  /** And these entries stay as they are, but for being counted as overtaken once if the datagram acknowledges a later
      number. */
  lemma InputLeaves(cb: Cb, lim: nat, data: Bytes)
    requires CbOk(W32, cb, lim) && LongEnough(data)
    requires Plain(cb.snd, SegsOf(cb, data)) && NearAcks(cb.snd, SegsOf(cb, data))
    ensures forall x :: x in cb.snd.buf && !Taken(SegsOf(cb, data), x.seg.sn) ==>
              CountedIn(cb, data, x) in InputBytes(cb, data).0.snd.buf
    ensures forall y :: y in InputBytes(cb, data).0.snd.buf ==>
              exists x :: x in cb.snd.buf && !Taken(SegsOf(cb, data), x.seg.sn) && y == CountedIn(cb, data, x)
  {
    var segs := SegsOf(cb, data);
    SegsOfNumeral(cb, data);
    PlainNeverSplits(cb, lim, segs);
    DatagramTakes(cb, lim, segs);
    InputCounts(cb, lim, data);
    var b, c := LoopEnd(cb, data).snd.buf, InputBytes(cb, data).0.snd.buf;
    forall x | x in cb.snd.buf && !Taken(segs, x.seg.sn)
      ensures CountedIn(cb, data, x) in c
    {
      var i :| 0 <= i < |b| && b[i] == x;
      assert c[i] == CountedIn(cb, data, b[i]);
    }
    forall y | y in c
      ensures exists x :: x in cb.snd.buf && !Taken(segs, x.seg.sn) && y == CountedIn(cb, data, x)
    {
      var i :| 0 <= i < |c| && c[i] == y;
      assert c[i] == CountedIn(cb, data, b[i]) && b[i] in b;
    }
  }

  // ----- acknowledging data

  /** A data segment that is to be acknowledged: one before or inside the window. */
  predicate Owes(r: Rcv, seg: Seg) {
    seg.cmd == CMD_PUSH && Diff(W32, seg.sn, Add(W32, r.nxt, r.wnd)) < 0
  }

  /** The pairs owed for a datagram, each judged by the window as it is when its turn comes. */
  function Owed(cb: Cb, segs: seq<Seg>): seq<Ack> {
    if segs == [] then []
    else
      var init, last := segs[..|segs| - 1], segs[|segs| - 1];
      Owed(cb, init) + if Owes(InputAll(W32, cb, init).rcv, last) then [Ack(last.sn, last.ts)] else []
  }

  lemma RcvInputAcks(r: Rcv, seg: Seg)
    requires seg.cmd == CMD_PUSH
    ensures RcvInput(W32, r, seg).acks == r.acks + if Owes(r, seg) then [Ack(seg.sn, seg.ts)] else []
  {
    ParseDataAcks(W32, Noted(W32, r, seg), seg);
  }

  lemma {:induction false} InputAllAcks(cb: Cb, segs: seq<Seg>)
    ensures InputAll(W32, cb, segs).rcv.acks == cb.rcv.acks + Owed(cb, segs)
  {
    if segs != [] {
      var init, last := segs[..|segs| - 1], segs[|segs| - 1];
      InputAllAcks(cb, init);
      if last.cmd == CMD_PUSH {
        RcvInputAcks(InputAll(W32, cb, init).rcv, last);
      }
    }
  }

  /** Exactly one pair for each data segment before or inside the window goes to `acklist`, in order. */
  lemma InputAcks(cb: Cb, data: Bytes)
    requires cb.conf.Ok() && LongEnough(data)
    ensures InputBytes(cb, data).0.rcv.acks == cb.rcv.acks + Owed(cb, SegsOf(cb, data))
  {
    InputAllAcks(cb, SegsOf(cb, data));
    InputAllConf(W32, cb, SegsOf(cb, data));
  }

  /** `rcv_nxt` advances by what is moved to the queue, and that is no more than the window. */
  predicate Onward(r: Rcv, t: Rcv) {
    && t.wnd == r.wnd
    && |r.queue| <= |t.queue| && (|t.queue| == |r.queue| || |t.queue| <= r.wnd)
    && t.nxt == U32(r.nxt + (|t.queue| - |r.queue|))
  }

  lemma OnwardTwice(r: Rcv, s: Rcv, t: Rcv)
    requires Onward(r, s) && Onward(s, t)
    ensures Onward(r, t)
  {
    AddAdd(W32, r.nxt, |s.queue| - |r.queue|, |t.queue| - |s.queue|);
  }

  lemma {:induction false} DrainOnward(r: Rcv)
    requires r.nxt < 0x1_0000_0000
    ensures Onward(r, Drain(W32, r))
    decreases |r.buf|
  {
    if CanTake(r) {
      var s := TakeFront(W32, r);
      DrainOnward(s);
      OnwardTwice(r, s, Drain(W32, s));
    }
  }

  lemma {:induction false} InputOnward(cb: Cb, segs: seq<Seg>)
    requires cb.rcv.nxt < 0x1_0000_0000
    ensures Onward(cb.rcv, InputAll(W32, cb, segs).rcv)
  {
    if segs != [] {
      var init, last := segs[..|segs| - 1], segs[|segs| - 1];
      InputOnward(cb, init);
      var r := InputAll(W32, cb, init).rcv;
      var noted := Noted(W32, r, last);
      DrainOnward(noted.(buf := Insert(W32, r.buf, last)));
      OnwardTwice(cb.rcv, r, InputAll(W32, cb, segs).rcv);
    }
  }

  /** What the window holds before the datagram is acknowledged whenever its turn comes. */
  lemma StillOwed(r: Rcv, t: Rcv, seg: Seg)
    requires Onward(r, t) && r.nxt < 0x1_0000_0000 && r.wnd <= 0x4000_0000 && seg.cmd == CMD_PUSH
    requires Offset(seg.sn, r.nxt) < r.wnd
    ensures Owes(t, seg)
  {
    StillBehind(seg.sn, r.nxt, |t.queue| - |r.queue|, t.nxt, r.wnd);
  }

  lemma StillBehind(sn: nat, nxt: u32, d: nat, nxt': u32, wnd: nat)
    requires Offset(sn, nxt) < wnd <= 0x4000_0000 && nxt' == U32(nxt + d)
    requires d == 0 || d <= wnd
    ensures Diff(W32, sn, Add(W32, nxt', wnd)) < 0
  {
    AheadOfNext(W32, nxt, d);
    OffsetFrom(sn, nxt, nxt');
    BehindWindow(sn, nxt', wnd);
  }

  lemma {:induction false} OwedInWindow(cb: Cb, segs: seq<Seg>, j: nat)
    requires cb.rcv.nxt < 0x1_0000_0000 && cb.rcv.wnd <= 0x4000_0000
    requires j < |segs| && segs[j].cmd == CMD_PUSH && Offset(segs[j].sn, cb.rcv.nxt) < cb.rcv.wnd
    ensures Ack(segs[j].sn, segs[j].ts) in Owed(cb, segs)
  {
    var n := |segs| - 1;
    if j < n {
      OwedInWindow(cb, segs[..n], j);
    } else {
      InputOnward(cb, segs[..n]);
      StillOwed(cb.rcv, InputAll(W32, cb, segs[..n]).rcv, segs[n]);
    }
  }

  /** In particular every data segment that the window holds before the call is acknowledged by number and time stamp (for
      windows of at most 2^30 segments). */
  lemma InputAcknowledges(cb: Cb, lim: nat, data: Bytes, j: nat)
    requires CbOk(W32, cb, lim) && LongEnough(data) && cb.rcv.wnd <= 0x4000_0000
    requires j < |SegsOf(cb, data)| && SegsOf(cb, data)[j].cmd == CMD_PUSH
    requires Offset(SegsOf(cb, data)[j].sn, cb.rcv.nxt) < cb.rcv.wnd
    ensures Ack(SegsOf(cb, data)[j].sn, SegsOf(cb, data)[j].ts) in InputBytes(cb, data).0.rcv.acks
  {
    InputAcks(cb, data);
    OwedInWindow(cb, SegsOf(cb, data), j);
  }

  /** Both halves: what the call takes out of `snd_buf`, and what it adds to `acklist`. */
  ghost predicate InputRight(cb: Cb, data: Bytes, cb': Cb) {
    LongEnough(data) ==>
      && cb'.rcv.acks == cb.rcv.acks + Owed(cb, SegsOf(cb, data))
      && (Plain(cb.snd, SegsOf(cb, data)) ==>
            forall n :: InBuf(cb'.snd.buf, n) <==> InBuf(cb.snd.buf, n) && !Taken(SegsOf(cb, data), n))
  }

  lemma InputIsRight(cb: Cb, lim: nat, data: Bytes)
    requires CbOk(W32, cb, lim)
    ensures var right := InputRight(cb, data, InputBytes(cb, data).0); right
  {
    if LongEnough(data) {
      InputAcks(cb, data);
      if Plain(cb.snd, SegsOf(cb, data)) {
        InputTakes(cb, lim, data);
      }
    }
  }

  // ----- headers

  lemma {:induction false} InputAllHeaders(cb: Cb, segs: seq<Seg>)
    ensures var cb' := InputAll(W32, cb, segs);
            && cb'.rmtWnd == (if segs == [] then cb.rmtWnd else segs[|segs| - 1].wnd)
            && (cb'.probe.tell <==> cb.probe.tell || HasCmd(segs, CMD_WASK))
            && cb'.probe == cb.probe.(tell := cb'.probe.tell)
  {
    if segs != [] {
      var init, last := segs[..|segs| - 1], segs[|segs| - 1];
      InputAllHeaders(cb, init);
      if HasCmd(init, CMD_WASK) {
        var j :| 0 <= j < |init| && init[j].cmd == CMD_WASK;
        assert segs[j].cmd == CMD_WASK;
      }
      if last.cmd == CMD_WASK {
        assert segs[|segs| - 1].cmd == CMD_WASK;
      }
    }
  }

  /** The peer's window is the one in the last header, whatever its command, and an announcement of the own window is due if
      and only if it was due before or the peer asks for it. */
  lemma InputHeaders(cb: Cb, data: Bytes)
    requires cb.conf.Ok() && LongEnough(data)
    ensures var segs, cb' := SegsOf(cb, data), InputBytes(cb, data).0;
            && cb'.rmtWnd == (if segs == [] then cb.rmtWnd else segs[|segs| - 1].wnd)
            && (cb'.probe.tell <==> cb.probe.tell || HasCmd(segs, CMD_WASK))
  {
    InputAllHeaders(cb, SegsOf(cb, data));
    InputAllConf(W32, cb, SegsOf(cb, data));
  }

  // ----- the congestion window

  /** The datagram is accepted and acknowledges something new. */
  predicate Advances(cb: Cb, data: Bytes)
    requires cb.conf.Ok()
  {
    InputBytes(cb, data).1 == 0 && Diff(W32, InputBytes(cb, data).0.snd.una, cb.snd.una) > 0
  }

  /** `k` is the least number of segments of `mss` bytes that hold `x` bytes. */
  predicate IsCeil(k: int, x: int, mss: int) {
    (k - 1) * mss < x <= k * mss
  }

  predicate GainsSegment(c: Cong, bytes: nat, mss: nat) {
    (c.cwnd + 1) * mss <= bytes
  }

  predicate Outgrows(bytes: nat, mss: nat, r: nat) {
    bytes > r * mss
  }

  predicate IsWindow(c: Cong, cwnd: nat, mss: nat) {
    c.cwnd == cwnd && c.incr == cwnd * mss
  }

  /** In congestion avoidance the window in bytes grows by `mss^2 / incr + mss / 16`, and the window in segments follows
      once a whole segment has been gained; neither outgrows the peer's window `r`. */
  predicate Avoids(c: Cong, c': Cong, mss: nat, r: nat)
    requires c.incr > 0
  {
    var bytes := CreepBytes(c.incr, mss);
    && c'.ssthresh == c.ssthresh
    && (!GainsSegment(c, bytes, mss) ==> c'.cwnd == c.cwnd && c'.incr == bytes)
    && (GainsSegment(c, bytes, mss) && Outgrows(bytes, mss, r) ==> IsWindow(c', r, mss))
    && (GainsSegment(c, bytes, mss) && !Outgrows(bytes, mss, r) ==> IsCeil(c'.cwnd, bytes, mss) && c'.incr == bytes)
  }

  /** In slow start the window grows by one segment. */
  predicate OneMore(c: Cong, c': Cong, mss: nat) {
    c'.cwnd == c.cwnd + 1 && c'.incr == c.incr + mss && c'.ssthresh == c.ssthresh
  }

  lemma SlowStartIs(c: Cong, r: u16, mss: nat)
    requires mss > 0 && c.cwnd < r && c.cwnd < c.ssthresh
    requires var sound := CongOk(c, mss); sound
    ensures var more := OneMore(c, Grow(c, r, mss), mss); more
  {
    Below32(c.cwnd + 2, mss);
    assert (c.cwnd + 1) * mss == c.cwnd * mss + mss;
    assert (c.cwnd + 2) * mss == c.cwnd * mss + 2 * mss;
    Exact32(c.incr + mss);
  }

  lemma SmallProduct(r: u16, mss: nat)
    requires mss <= 65511
    ensures U32(r * mss) == r * mss
  {
    Below32(r, mss);
    Exact32(r * mss);
  }

  lemma CeilIs(bytes: nat, mss: nat, r: nat)
    requires mss >= 1
    ensures var k := (bytes + mss - 1) / mss; IsCeil(k, bytes, mss)
    ensures (bytes + mss - 1) / mss > r <==> Outgrows(bytes, mss, r)
  {
    var k := (bytes + mss - 1) / mss;
    CeilBound(bytes, mss, r);
    assert (k - 1) * mss == k * mss - mss;
    if k > r {
      MulMono(r, k - 1, mss);
    }
  }

  lemma CreepSmall(c: Cong, mss: nat)
    requires c.cwnd < 65535 && c.ssthresh <= c.cwnd
    requires var sound := CongOk(c, mss); sound
    ensures 1 <= mss <= 65511 && c.incr > 0 && CreepBytes(c.incr, mss) + mss < 0x1_0000_0000
  {
    CreepExact(c, mss);
    Below32(c.cwnd + 2, mss);
  }

  lemma CreepIs(c: Cong, mss: nat, d: Cong)
    requires mss > 0 && c.ssthresh <= c.cwnd < 65535 && d == Creep(c, mss)
    requires var sound := CongOk(c, mss); sound
    ensures c.incr > 0 && d.ssthresh == c.ssthresh && d.incr == CreepBytes(c.incr, mss)
    ensures d.cwnd == if GainsSegment(c, d.incr, mss) then (d.incr + mss - 1) / mss else c.cwnd
  {
    CreepExact(c, mss);
    CreepSmall(c, mss);
    CeilSmall(CreepBytes(c.incr, mss), mss);
  }

  lemma CeilSmall(bytes: nat, mss: nat)
    requires mss >= 1 && bytes + mss < 0x1_0000_0000
    ensures U32((bytes + mss - 1) / mss) == (bytes + mss - 1) / mss
  {
    CeilBound(bytes, mss, bytes);
    MulMono(1, mss, bytes);
    Exact32((bytes + mss - 1) / mss);
  }

  lemma AvoidsIs(c: Cong, r: u16, mss: nat)
    requires mss > 0 && c.ssthresh <= c.cwnd < r
    requires var sound := CongOk(c, mss); sound
    ensures c.incr > 0
    ensures var avoids := Avoids(c, Grow(c, r, mss), mss, r); avoids
  {
    CreepSmall(c, mss);
    var d := Creep(c, mss);
    CreepIs(c, mss, d);
    CeilIs(d.incr, mss, r);
    SmallProduct(r, mss);
  }

  /** `ikcp_input` opens the congestion window exactly when something new is acknowledged and the window is below the
      peer's: by one segment in slow start, and beyond the threshold by the rule of congestion avoidance. */
  lemma InputOpens(cb: Cb, data: Bytes)
    requires cb.conf.Ok()
    requires var sound := CongOk(cb.cong, cb.conf.Mss()); sound
    ensures cb.cong.incr > 0 || cb.cong.cwnd < cb.cong.ssthresh
    ensures var c, cb', mss := cb.cong, InputBytes(cb, data).0, cb.conf.Mss();
            if !Advances(cb, data) || c.cwnd >= cb'.rmtWnd then cb'.cong == c
            else if c.cwnd < c.ssthresh then OneMore(c, cb'.cong, mss)
            else Avoids(c, cb'.cong, mss, cb'.rmtWnd)
  {
    var segs := SegsOf(cb, data);
    InputAllConf(W32, cb, segs);
    ParseCodes(cb.conf.conv, data);
    GrowthIs(cb.cong, InputAll(W32, cb, segs).rmtWnd, cb.conf.Mss());
  }

  lemma GrowthIs(c: Cong, r: u16, mss: nat)
    requires mss > 0
    requires var sound := CongOk(c, mss); sound
    ensures c.incr > 0 || c.cwnd < c.ssthresh
    ensures c.cwnd < r && c.cwnd < c.ssthresh ==> var more := OneMore(c, Grow(c, r, mss), mss); more
    ensures c.ssthresh <= c.cwnd < r ==> var avoids := Avoids(c, Grow(c, r, mss), mss, r); avoids
    ensures c.cwnd >= r ==> Grow(c, r, mss) == c
  {
    if c.cwnd >= c.ssthresh {
      MulMono(1, c.cwnd, mss);
      if c.cwnd < r {
        AvoidsIs(c, r, mss);
      }
    } else if c.cwnd < r {
      SlowStartIs(c, r, mss);
    }
  }
}
