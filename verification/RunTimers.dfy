/** The timers over whole runs: in any sequence of calls the clock, each entry of `snd_buf` and the window probe go through
    exactly the histories that `Timers` is about, so what is proved there holds of every run. */
module RunTimers {
  import opened Serial
  import opened Wire
  import opened Sender
  import opened SendWindow
  import opened Estimator
  import opened ControlBlock
  import opened Invariant
  import opened Calls
  import opened Timers

  // ----- the flush timer

  /** The clock readings of the updates, in order. */
  function UpdateTimes(calls: seq<Call>): seq<u32> {
    if calls == [] then []
    else
      var init, last := calls[..|calls| - 1], calls[|calls| - 1];
      if last.CallUpdate? then UpdateTimes(init) + [last.now] else UpdateTimes(init)
  }

  /** `times` are the readings without wraparound. */
  predicate Unwraps(times: seq<nat>, readings: seq<u32>) {
    |times| == |readings| && forall i :: 0 <= i < |times| ==> U32(times[i]) == readings[i]
  }

  /** The times of the updates that flushed. */
  function FlushTimes(cb: Cb, calls: seq<Call>, times: seq<nat>): seq<nat>
    requires cb.conf.Ok() && |times| == |UpdateTimes(calls)|
  {
    if calls == [] then []
    else
      var init, last := calls[..|calls| - 1], calls[|calls| - 1];
      if last.CallUpdate? then
        var n := |times| - 1;
        var before := FlushTimes(cb, init, times[..n]);
        if Flushes(Run(cb, init), last) then before + [times[n]] else before
      else FlushTimes(cb, init, times)
  }

  /** The run leaves the interval alone. */
  predicate SteadyInterval(cb: Cb, calls: seq<Call>)
    requires cb.conf.Ok()
  {
    calls == [] ||
    (SteadyInterval(cb, calls[..|calls| - 1]) && Run(cb, calls).clock.interval == cb.clock.interval)
  }

  lemma ApplyClock(cb: Cb, call: Call)
    requires cb.conf.Ok()
    ensures Apply(cb, call).clock ==
            if call.CallUpdate? then Tick(cb.clock, call.now).0
            else cb.clock.(interval := Apply(cb, call).clock.interval)
  {
    if call.CallInput? {
      InputAllConf(W32, cb, Parse(cb.conf.conv, call.data).segs);
    }
  }

  /** In every run that leaves the interval alone, the clock is what the flush timer makes of the update times, and the
      updates that flush are those the timer says. */
  lemma {:induction false} ClockIsTicks(cb: Cb, calls: seq<Call>, times: seq<nat>)
    requires cb.conf.Ok() && SteadyInterval(cb, calls) && Unwraps(times, UpdateTimes(calls))
    ensures (Run(cb, calls).clock, FlushTimes(cb, calls, times)) == Ticks(cb.clock, times)
    decreases |calls|
  {
    if calls != [] {
      var init, last := calls[..|calls| - 1], calls[|calls| - 1];
      ApplyClock(Run(cb, init), last);
      if last.CallUpdate? {
        var n := |times| - 1;
        assert U32(times[n]) == UpdateTimes(calls)[n] == last.now;
        assert forall i :: 0 <= i < n ==> UpdateTimes(calls)[i] == UpdateTimes(init)[i];
        ClockIsTicks(cb, init, times[..n]);
      } else {
        ClockIsTicks(cb, init, times);
      }
    }
  }

  /** Flush pacing over whole runs: whatever else is called, as long as time does not run backward and the interval is left
      alone, the first update flushes, and the k-th that flushes after it comes no earlier than k intervals later; after
      every update the last one that flushed is less than one interval back, and `ts_flush` lies in (current, current +
      interval]. */
  lemma RunsArePaced(cb: Cb, lim: nat, calls: seq<Call>, times: seq<nat>)
    requires CbOk(W32, cb, lim) && !cb.clock.updated && SteadyInterval(cb, calls)
    requires Unwraps(times, UpdateTimes(calls)) && times != [] && Monotone(times)
    ensures var flushes := FlushTimes(cb, calls, times);
            && Paced(flushes, cb.clock.interval) && flushes[0] == times[0]
            && flushes[|flushes| - 1] <= times[|times| - 1] < flushes[|flushes| - 1] + cb.clock.interval
            && 0 < Since(Run(cb, calls).clock.flush, U32(times[|times| - 1])) <= cb.clock.interval
  {
    ClockIsTicks(cb, calls, times);
    NextFlushIsNear(cb.clock, times);
  }

  // ----- entries of snd_buf

  /** Whether an entry numbered `sn` is overtaken by the newest acknowledgement in a datagram. */
  predicate Overtakes(cb: Cb, data: Bytes, sn: nat) {
    I32(|data|) >= OVERHEAD &&
    var p := Parse(cb.conf.conv, data);
    p.code >= 0 &&
    var s, m := InputAll(W32, cb, p.segs).snd, MarkAll(W32, p.segs);
    m.Newest? && InFlight(W32, s, m.sn) && Diff(W32, m.sn, sn) > 0
  }

  /** What a call does to the entry numbered `sn`: at most one of the events of `Timers`. */
  function EventOf(cb: Cb, call: Call, sn: nat): seq<Event> {
    match call
    case CallUpdate(now) => if Tick(cb.clock, now).1 then [Looked(Env(Ticked(cb, now)))] else []
    case CallFlush => if cb.clock.updated then [Looked(Env(cb))] else []
    case CallInput(data) => if Overtakes(cb, data, sn) then [Overtaken] else []
    case _ => []
  }

  /** What happens to it from the `j`-th call on. */
  function EventsFrom(cb: Cb, calls: seq<Call>, j: nat, sn: nat): seq<Event>
    requires cb.conf.Ok() && j <= |calls|
  {
    if j == |calls| then []
    else
      var init, last := calls[..|calls| - 1], calls[|calls| - 1];
      EventsFrom(cb, init, j, sn) + EventOf(Run(cb, init), last, sn)
  }

  lemma {:induction false} InputAllFrom(w: Width, cb: Cb, segs: seq<Seg>)
    ensures forall x :: x in InputAll(w, cb, segs).snd.buf ==> x in cb.snd.buf
  {
    if segs != [] {
      var init, last := segs[..|segs| - 1], segs[|segs| - 1];
      InputAllFrom(w, cb, init);
      SndInputFrom(w, InputAll(w, cb, init).snd, last);
    }
  }

  /** `y` is `x` after at most one event. */
  predicate Follows(x: Sent, events: seq<Event>, y: Sent) {
    x.seg.sn == y.seg.sn && |events| <= 1 && y == if events == [] then x else After(x, events[0])
  }

  /** An entry that has just been sent for the first time by a flush with parameters `e`. */
  predicate Newborn(y: Sent, e: FlushEnv) {
    y.xmit == 1 && y.rto == e.rxRto && y.resendts == U32(e.current + e.rxRto + e.rtomin)
  }

  lemma FinishEntry(s: Snd, sn: nat, i: nat)
    requires SndOk(W32, s) && Numeral(W32, sn) && i < |ParseFastack(W32, s, sn).buf|
    ensures i < |s.buf|
    ensures ParseFastack(W32, s, sn).buf[i] ==
            if InFlight(W32, s, sn) && Diff(W32, sn, s.buf[i].seg.sn) > 0 then Skip(s.buf[i]) else s.buf[i]
  {
    InFlightIsInside(W32, s, sn);
    if InFlight(W32, s, sn) {
      CountSkippedIsMap(W32, s.buf, s.una, Span(W32, s), sn);
      DiffIsAhead(W32, sn, s.buf[i].seg.sn, s.una);
    }
  }

  lemma InputNumeral(cb: Cb, data: Bytes)
    ensures var segs := Parse(cb.conf.conv, data).segs;
            NumeralSegs(W32, segs) && (MarkAll(W32, segs).Newest? ==> Numeral(W32, MarkAll(W32, segs).sn))
  {
    var segs := Parse(cb.conf.conv, data).segs;
    var tail := EncodeOfParse(cb.conf.conv, data);
    assert AllWireOk(cb.conf.conv, segs);
    MarkNumeral(W32, segs);
  }

  lemma InputEntry(cb: Cb, lim: nat, data: Bytes, y: Sent) returns (x: Sent)
    requires CbOk(W32, cb, lim) && y in InputBytes(cb, data).0.snd.buf
    ensures x in cb.snd.buf && Follows(x, EventOf(cb, CallInput(data), y.seg.sn), y)
  {
    x := y;
    if I32(|data|) >= OVERHEAD {
      var p := Parse(cb.conf.conv, data);
      InputNumeral(cb, data);
      InputAllOk(W32, cb, lim, p.segs);
      InputAllFrom(W32, cb, p.segs);
      var m := MarkAll(W32, p.segs);
      if p.code >= 0 && m.Newest? {
        var s := InputAll(W32, cb, p.segs).snd;
        var i :| 0 <= i < |ParseFastack(W32, s, m.sn).buf| && ParseFastack(W32, s, m.sn).buf[i] == y;
        FinishEntry(s, m.sn, i);
        x := s.buf[i];
      }
    }
  }

  lemma SweptEntry(buf: seq<Sent>, e: FlushEnv, deadLink: u32, y: Sent) returns (i: nat)
    requires y in SweepBuf(buf, e, deadLink).buf
    ensures i < |buf| && y == FlushOne(buf[i], e)
  {
    SweepIsMap(buf, e, deadLink);
    var out := SweepBuf(buf, e, deadLink).buf;
    i :| 0 <= i < |out| && out[i] == y;
  }

  lemma MovedEntry(cb: Cb, lim: nat, i: nat)
    requires CbOk(W32, cb, lim) && i < |Moved(W32, cb).buf|
    ensures var x := Moved(W32, cb).buf[i];
            if i < |cb.snd.buf| then x == cb.snd.buf[i] else x.xmit == 0 && !InBuf(cb.snd.buf, x.seg.sn)
  {
    var k := MoveToBufParts(W32, cb.snd, Env(cb), Window(cb));
    var t := Moved(W32, cb);
    assert t.buf[..|cb.snd.buf|] == cb.snd.buf;
    if i >= |cb.snd.buf| {
      var j := i - |cb.snd.buf|;
      assert t.buf[|cb.snd.buf| + j] == Number(Env(cb), cb.snd.queue[j], Add(W32, cb.snd.nxt, j));
      MovedOk(W32, cb, lim);
      DistinctNumbers(t, cb.snd.buf, i);
    }
  }

  lemma FlushOneEntry(x: Sent, e: FlushEnv)
    ensures FlushOne(x, e).seg.sn == x.seg.sn
    ensures x.xmit == 0 ==> Newborn(FlushOne(x, e), e)
    ensures Follows(x, [Looked(e)], FlushOne(x, e))
  {
  }

  lemma FlushEntry(cb: Cb, lim: nat, y: Sent) returns (known: bool, x: Sent)
    requires CbOk(W32, cb, lim) && cb.clock.updated && y in DoFlush(W32, cb).snd.buf
    ensures known ==> x in cb.snd.buf && Follows(x, [Looked(Env(cb))], y)
    ensures !known ==> !InBuf(cb.snd.buf, y.seg.sn) && Newborn(y, Env(cb))
  {
    FlushParts(W32, cb);
    var buf := Moved(W32, cb).buf;
    var i := SweptEntry(buf, Env(cb), cb.conf.deadLink, y);
    MovedEntry(cb, lim, i);
    FlushOneEntry(buf[i], Env(cb));
    known, x := i < |cb.snd.buf|, buf[i];
  }

  lemma DistinctNumbers(s: Snd, front: seq<Sent>, i: nat)
    requires SndOk(W32, s) && |front| <= i < |s.buf| && front == s.buf[..|front|]
    ensures !InBuf(front, s.buf[i].seg.sn)
  {
    forall j | 0 <= j < |front|
      ensures front[j].seg.sn != s.buf[i].seg.sn
    {
      assert Ahead(W32, s.buf[j].seg.sn, s.una) < Ahead(W32, s.buf[i].seg.sn, s.una);
    }
  }

  /** Every entry in the buffer after a call was there before and has gone through what `EventOf` says, or has just been
      sent for the first time. */
  lemma ApplyEntry(cb: Cb, lim: nat, call: Call, y: Sent) returns (known: bool, x: Sent)
    requires CbOk(W32, cb, lim) && y in Apply(cb, call).snd.buf
    ensures var events := EventOf(cb, call, y.seg.sn);
            if known then x in cb.snd.buf && Follows(x, events, y)
            else !InBuf(cb.snd.buf, y.seg.sn) && |events| == 1 && events[0].Looked? && Newborn(y, events[0].e)
  {
    known, x := true, y;
    match call
    case CallInput(data) => x := InputEntry(cb, lim, data, y);
    case CallUpdate(now) =>
      if Tick(cb.clock, now).1 {
        assert CbOk(W32, Ticked(cb, now), lim);
        known, x := FlushEntry(Ticked(cb, now), lim, y);
      }
    case CallFlush =>
      if cb.clock.updated {
        known, x := FlushEntry(cb, lim, y);
      }
    case _ =>
  }

  /** `x` was first sent by the `j`-th call of the run, with the retransmission timeout of that moment, and `first` is what
      it was then. */
  ghost predicate SentBy(cb: Cb, calls: seq<Call>, j: nat, first: Sent, x: Sent)
    requires cb.conf.Ok()
  {
    && 0 < j <= |calls| && first.seg.sn == x.seg.sn
    && first in Run(cb, calls[..j]).snd.buf && !InBuf(Run(cb, calls[..j - 1]).snd.buf, x.seg.sn)
    && first.xmit == 1 && 30 <= first.rto <= RTO_MAX
  }

  lemma SentOnce(cb: Cb, calls: seq<Call>, j: nat, first: Sent, x: Sent)
    requires cb.conf.Ok()
    requires var sent := SentBy(cb, calls, j, first, x); sent
    ensures first.xmit == 1
  {
  }

  lemma SentEarlier(cb: Cb, calls: seq<Call>, j: nat, first: Sent, x: Sent, y: Sent)
    requires cb.conf.Ok() && calls != [] && SentBy(cb, calls[..|calls| - 1], j, first, x) && x.seg.sn == y.seg.sn
    ensures SentBy(cb, calls, j, first, y)
  {
    var init := calls[..|calls| - 1];
    assert init[..j] == calls[..j] && init[..j - 1] == calls[..j - 1];
  }

  lemma LiveOn(first: Sent, events: seq<Event>, more: seq<Event>, y: Sent)
    requires Follows(Live(first, events), more, y)
    ensures y == Live(first, events + more)
  {
    if more == [] {
      assert events + more == events;
    } else {
      assert more == [more[0]];
      LiveSnoc(first, events, more[0]);
    }
  }

  lemma EventRange(cb: Cb, lim: nat, call: Call, sn: nat)
    requires CbOk(W32, cb, lim)
    ensures |EventOf(cb, call, sn)| <= 1
    ensures forall i :: 0 <= i < |EventOf(cb, call, sn)| && EventOf(cb, call, sn)[i].Looked? ==>
              var e := EventOf(cb, call, sn)[i].e; 30 <= e.rxRto <= RTO_MAX && e.nodelay == cb.conf.nodelay
  {
  }

  lemma NewbornBy(conv: u32, mtu: nat, stream: bool, calls: seq<Call>, x: Sent)
    requires 50 <= mtu < 0x8000_0000 && calls != []
    requires var cb := Create(conv, mtu, stream);
             var mid := Run(cb, calls[..|calls| - 1]);
             var events := EventOf(mid, calls[|calls| - 1], x.seg.sn);
             && x in Run(cb, calls).snd.buf && !InBuf(mid.snd.buf, x.seg.sn)
             && |events| == 1 && events[0].Looked? && Newborn(x, events[0].e)
    ensures SentBy(Create(conv, mtu, stream), calls, |calls|, x, x)
  {
    var cb, init := Create(conv, mtu, stream), calls[..|calls| - 1];
    AnyCallsKeep(conv, mtu, stream, init);
    EventRange(Run(cb, init), Limit(cb, init), calls[|calls| - 1], x.seg.sn);
    assert calls[..|calls|] == calls;
  }

  /** In every run, every entry of the buffer is what the events since it was first sent make of it. */
  lemma {:induction false} EntryIsLive(conv: u32, mtu: nat, stream: bool, calls: seq<Call>, x: Sent)
    returns (j: nat, first: Sent)
    requires 50 <= mtu < 0x8000_0000 && x in Run(Create(conv, mtu, stream), calls).snd.buf
    ensures var cb := Create(conv, mtu, stream);
            SentBy(cb, calls, j, first, x) && x == Live(first, EventsFrom(cb, calls, j, x.seg.sn))
    decreases |calls|
  {
    var cb := Create(conv, mtu, stream);
    var init, last := calls[..|calls| - 1], calls[|calls| - 1];
    AnyCallsKeep(conv, mtu, stream, init);
    var known, before := ApplyEntry(Run(cb, init), Limit(cb, init), last, x);
    if known {
      j, first := EntryIsLive(conv, mtu, stream, init, before);
      SentEarlier(cb, calls, j, first, before, x);
      LiveOn(first, EventsFrom(cb, init, j, x.seg.sn), EventOf(Run(cb, init), last, x.seg.sn), x);
    } else {
      j, first := |calls|, x;
      NewbornBy(conv, mtu, stream, calls, x);
    }
  }

  lemma {:induction false} FastLimitStays(cb: Cb, calls: seq<Call>)
    requires cb.conf.Ok()
    ensures Run(cb, calls).conf.fastlimit == cb.conf.fastlimit
    decreases |calls|
  {
    if calls != [] {
      FastLimitStays(cb, calls[..|calls| - 1]);
      ApplyConf(Run(cb, calls[..|calls| - 1]), calls[|calls| - 1]);
    }
  }

  lemma {:induction false} EventsLimited(conv: u32, mtu: nat, stream: bool, calls: seq<Call>, j: nat, sn: nat)
    requires 50 <= mtu < 0x8000_0000 && j <= |calls|
    ensures var limited := Limited(EventsFrom(Create(conv, mtu, stream), calls, j, sn)); limited
    decreases |calls|
  {
    if j < |calls| {
      EventsLimited(conv, mtu, stream, calls[..|calls| - 1], j, sn);
      FastLimitStays(Create(conv, mtu, stream), calls[..|calls| - 1]);
    }
  }

  /** The run never turns the no-delay mode on. */
  predicate Unhurried(cb: Cb, calls: seq<Call>)
    requires cb.conf.Ok()
  {
    Run(cb, calls).conf.nodelay == 0 && (calls == [] || Unhurried(cb, calls[..|calls| - 1]))
  }

  lemma {:induction false} EventsPatient(conv: u32, mtu: nat, stream: bool, calls: seq<Call>, j: nat, sn: nat)
    requires 50 <= mtu < 0x8000_0000 && j <= |calls| && Unhurried(Create(conv, mtu, stream), calls)
    ensures Patient(EventsFrom(Create(conv, mtu, stream), calls, j, sn))
    decreases |calls|
  {
    if j < |calls| {
      var cb, init := Create(conv, mtu, stream), calls[..|calls| - 1];
      AnyCallsKeep(conv, mtu, stream, init);
      EventsPatient(conv, mtu, stream, init, j, sn);
      assert Run(cb, init).conf.nodelay == 0;
      EventRange(Run(cb, init), Limit(cb, init), calls[|calls| - 1], sn);
    }
  }

  /** Backoff over whole runs without the no-delay mode: an entry of the buffer that has timed out k <= 16 times since it was
      first sent, with timeout r0, has a timeout between 2^k * r0 and 2^k * 60000; up to k == 15 this is less than 2^31. */
  lemma RunsBackOff(conv: u32, mtu: nat, stream: bool, calls: seq<Call>, x: Sent) returns (j: nat, first: Sent)
    requires 50 <= mtu < 0x8000_0000 && Unhurried(Create(conv, mtu, stream), calls)
    requires x in Run(Create(conv, mtu, stream), calls).snd.buf
    ensures SentBy(Create(conv, mtu, stream), calls, j, first, x)
    ensures var events := EventsFrom(Create(conv, mtu, stream), calls, j, x.seg.sn);
            var k := Timeouts(first, events);
            && x == Live(first, events)
            && (k <= 16 ==> Pow2(k) * first.rto <= x.rto <= Pow2(k) * RTO_MAX)
            && (k <= 15 ==> x.rto < 0x8000_0000)
  {
    j, first := EntryIsLive(conv, mtu, stream, calls, x);
    var events := EventsFrom(Create(conv, mtu, stream), calls, j, x.seg.sn);
    EventsPatient(conv, mtu, stream, calls, j, x.seg.sn);
    EventsLimited(conv, mtu, stream, calls, j, x.seg.sn);
    if Timeouts(first, events) <= 16 {
      BackOffBounds(first, first.rto, events);
    }
    if Timeouts(first, events) <= 15 {
      FifteenFit(first, first.rto, events);
    }
  }

  /** The `i`-th event resends the entry. */
  predicate Resends(first: Sent, events: seq<Event>, i: nat)
    requires i < |events|
  {
    events[i].Looked? && CauseOf(Live(first, events[..i]), events[i].e) != Hold
  }

  predicate LastResend(first: Sent, events: seq<Event>, i: nat) {
    i < |events| && Resends(first, events, i) && forall j :: i < j < |events| ==> !Resends(first, events, j)
  }

  /** The deadline is one timeout after `current`. */
  predicate DueAfter(x: Sent, current: u32) {
    x.resendts == U32(current + x.rto)
  }

  lemma AfterResend(x: Sent, e: FlushEnv)
    requires x.xmit >= 1 && CauseOf(x, e) != Hold
    ensures var due := DueAfter(FlushOne(x, e), e.current); due
  {
  }

  lemma DueStill(y: Sent, event: Event, current: u32)
    requires event.Looked? ==> CauseOf(y, event.e) == Hold
    requires var due := DueAfter(y, current); due
    ensures var due := DueAfter(After(y, event), current); due
  {
  }

  lemma LastResendInit(first: Sent, events: seq<Event>, i: nat)
    requires LastResend(first, events, i) && i < |events| - 1
    ensures LastResend(first, events[..|events| - 1], i)
    ensures var n := |events| - 1; events[n].Looked? ==> CauseOf(Live(first, events[..n]), events[n].e) == Hold
  {
    var init := events[..|events| - 1];
    assert init[..i] == events[..i] && !Resends(first, events, |events| - 1);
    forall j | i < j < |init|
      ensures !Resends(first, init, j)
    {
      assert init[..j] == events[..j] && !Resends(first, events, j);
    }
  }

  /** The deadline of an entry is that of its last retransmission. */
  lemma {:induction false} DeadlineSet(first: Sent, events: seq<Event>, i: nat)
    requires first.xmit == 1 && Limited(events) && Timeouts(first, events) <= MOST_TIMEOUTS && LastResend(first, events, i)
    ensures var due := DueAfter(Live(first, events), events[i].e.current); due
  {
    var n := |events| - 1;
    var init := events[..n];
    XmitCounts(first, init);
    if i == n {
      AfterResend(Live(first, init), events[n].e);
    } else {
      LastResendInit(first, events, i);
      DeadlineSet(first, init, i);
      DueStill(Live(first, init), events[n], events[i].e.current);
    }
  }

  lemma SetExactly(x: Sent, current: u32, sent: nat)
    requires current == U32(sent)
    requires var due := DueAfter(x, current); due
    ensures var exact := ExactFrom(x, sent, sent + x.rto); exact <==> x.rto <= 0x8000_0000
  {
    WrapAdd(sent, x.rto);
    DelayExactly(x, sent, x.rto);
  }

  lemma LastResendExactly(first: Sent, events: seq<Event>, i: nat, sent: nat, x: Sent)
    requires x == Live(first, events) && first.xmit == 1 && Timeouts(first, events) <= MOST_TIMEOUTS
    requires var limited := Limited(events); limited
    requires var last := LastResend(first, events, i); last
    requires events[i].e.current == U32(sent)
    ensures var exact := ExactFrom(x, sent, sent + x.rto); exact <==> x.rto <= 0x8000_0000
  {
    DeadlineSet(first, events, i);
    SetExactly(x, events[i].e.current, sent);
  }

  /** Deadlines over whole runs, in any mode: an entry last resent at (unwrapped) time `sent` is found overdue exactly from
      its timeout on if and only if that timeout is at most 2^31 ms. */
  lemma RunsMeetDeadlines(conv: u32, mtu: nat, stream: bool, calls: seq<Call>, x: Sent, j: nat, first: Sent,
                          events: seq<Event>, i: nat, sent: nat)
    requires 50 <= mtu < 0x8000_0000 && j <= |calls| && events == EventsFrom(Create(conv, mtu, stream), calls, j, x.seg.sn)
    requires var sent := SentBy(Create(conv, mtu, stream), calls, j, first, x); sent
    requires x == Live(first, events) && Timeouts(first, events) <= MOST_TIMEOUTS
    requires LastResend(first, events, i) && events[i].e.current == U32(sent)
    ensures var exact := ExactFrom(x, sent, sent + x.rto); exact <==> x.rto <= 0x8000_0000
  {
    EventsLimited(conv, mtu, stream, calls, j, x.seg.sn);
    SentOnce(Create(conv, mtu, stream), calls, j, first, x);
    LastResendExactly(first, events, i, sent, x);
  }

  // ----- the window probe

  /** The clock at each flush. */
  function FlushClocks(cb: Cb, calls: seq<Call>): seq<u32>
    requires cb.conf.Ok()
  {
    if calls == [] then []
    else
      var init, last := calls[..|calls| - 1], calls[|calls| - 1];
      var mid := Run(cb, init);
      FlushClocks(cb, init) + if Flushes(mid, last) then [if last.CallUpdate? then last.now else mid.clock.current] else []
  }

  /** The peer's window is zero before every call of the run. */
  predicate ZeroWindow(cb: Cb, calls: seq<Call>)
    requires cb.conf.Ok()
  {
    calls == [] || (ZeroWindow(cb, calls[..|calls| - 1]) && Run(cb, calls[..|calls| - 1]).rmtWnd == 0)
  }

  /** The probe without the request to announce the own window, which has nothing to do with the timer. */
  function Untold(p: Probe): Probe {
    p.(tell := false)
  }

  lemma {:induction false} InputProbe(w: Width, cb: Cb, segs: seq<Seg>)
    ensures Untold(InputAll(w, cb, segs).probe) == Untold(cb.probe)
  {
    if segs != [] {
      InputProbe(w, cb, segs[..|segs| - 1]);
    }
  }

  lemma FlushProbe(cb: Cb)
    requires cb.conf.Ok() && cb.clock.updated
    ensures DoFlush(W32, cb).probe == Untold(ProbeTick(cb.probe, cb.rmtWnd, cb.clock.current).(ask := false))
  {
  }

  /** Between calls no question is pending. */
  lemma ApplyProbe(cb: Cb, call: Call)
    requires cb.conf.Ok() && !cb.probe.ask
    ensures !Apply(cb, call).probe.ask
    ensures var now := if call.CallUpdate? then call.now else cb.clock.current;
            Untold(Apply(cb, call).probe) ==
            if Flushes(cb, call) then Untold(ProbeTick(cb.probe, cb.rmtWnd, now).(ask := false)) else Untold(cb.probe)
  {
    match call
    case CallInput(data) => InputProbe(W32, cb, Parse(cb.conf.conv, data).segs);
    case CallUpdate(now) =>
      if Tick(cb.clock, now).1 {
        FlushProbe(Ticked(cb, now));
      }
    case CallFlush =>
      if cb.clock.updated {
        FlushProbe(cb);
      }
    case _ =>
  }

  lemma TickUntold(p: Probe, now: u32)
    ensures Untold(ProbeTick(p, 0, now).(ask := false)) == ProbeTick(Untold(p), 0, now).(ask := false)
  {
  }

  /** In every stretch of a run with the peer's window at zero, the probe goes through the flushes of an episode. */
  lemma {:induction false} ProbeIsEpisode(cb: Cb, calls: seq<Call>)
    requires cb.conf.Ok() && !cb.probe.ask && ZeroWindow(cb, calls)
    ensures Untold(Run(cb, calls).probe) == Episode(Untold(cb.probe), FlushClocks(cb, calls))
    ensures !Run(cb, calls).probe.ask
    decreases |calls|
  {
    if calls != [] {
      var init, last := calls[..|calls| - 1], calls[|calls| - 1];
      var mid := Run(cb, init);
      ProbeIsEpisode(cb, init);
      ApplyProbe(mid, last);
      if Flushes(mid, last) {
        var now := if last.CallUpdate? then last.now else mid.clock.current;
        TickUntold(mid.probe, now);
        EpisodeSnoc(Untold(cb.probe), FlushClocks(cb, init), now);
      } else {
        assert FlushClocks(cb, calls) == FlushClocks(cb, init);
      }
    }
  }

  lemma EpisodeSnoc(p: Probe, at: seq<u32>, now: u32)
    ensures Episode(p, at + [now]) == ProbeTick(Episode(p, at), 0, now).(ask := false)
  {
    assert (at + [now])[..|at|] == at;
  }

  lemma {:induction false} NoneAsked(conv: u32, mtu: nat, stream: bool, calls: seq<Call>)
    requires 50 <= mtu < 0x8000_0000
    ensures !Run(Create(conv, mtu, stream), calls).probe.ask
    decreases |calls|
  {
    if calls != [] {
      NoneAsked(conv, mtu, stream, calls[..|calls| - 1]);
      ApplyProbe(Run(Create(conv, mtu, stream), calls[..|calls| - 1]), calls[|calls| - 1]);
    }
  }

  /** The segments a call emits. */
  function Emitted(cb: Cb, call: Call): seq<Seg> {
    match call
    case CallUpdate(now) => UpdateSegs(W32, cb, now)
    case CallFlush => FlushSegs(W32, cb)
    case _ => []
  }

  lemma EmittedProbe(cb: Cb, lim: nat, call: Call)
    requires CbOk(W32, cb, lim) && Flushes(cb, call)
    ensures var now := if call.CallUpdate? then call.now else cb.clock.current;
            HasCmd(Emitted(cb, call), CMD_WASK) <==> ProbeTick(cb.probe, cb.rmtWnd, now).ask
  {
    match call
    case CallUpdate(now) =>
      assert CbOk(W32, Ticked(cb, now), lim);
      FlushProbesExactly(W32, Ticked(cb, now), lim);
    case CallFlush => FlushProbesExactly(W32, cb, lim);
  }

  /** What a flush during a zero-window stretch makes of the probe `q`, at clock reading `now`; `asked` is whether it
      emitted a window question. */
  predicate ProbedRight(q: Probe, now: u32, r: Probe, asked: bool) {
    && PROBE_INIT <= r.wait <= PROBE_LIMIT && q.wait <= r.wait
    && (asked <==> q.wait != 0 && Since(now, q.ts) >= 0)
    && (asked || q.wait == 0 ==> r.ts == U32(now + r.wait))
    && (!asked && q.wait != 0 ==> r.ts == q.ts && r.wait == q.wait)
  }

  lemma StepProbed(cb: Cb, lim: nat, call: Call)
    requires CbOk(W32, cb, lim) && !cb.probe.ask && cb.rmtWnd == 0 && Flushes(cb, call)
    ensures var now := if call.CallUpdate? then call.now else cb.clock.current;
            ProbedRight(cb.probe, now, Apply(cb, call).probe, HasCmd(Emitted(cb, call), CMD_WASK))
  {
    var now := if call.CallUpdate? then call.now else cb.clock.current;
    ApplyProbe(cb, call);
    EmittedProbe(cb, lim, call);
    TickProbed(cb.probe, now);
  }

  lemma TickProbed(p: Probe, now: u32)
    requires WaitOk(p) && !p.ask
    ensures ProbedRight(p, now, ProbeTick(p, 0, now), ProbeTick(p, 0, now).ask)
  {
  }

  /** Zero-window probing over whole runs: after any calls, and any further calls during which the peer's window is zero, a
      call that flushes asks for the window exactly when the deadline has been reached and then sets the next one, at most
      120 s ahead; the wait stays in [7000, 120000], ... */
  lemma RunsProbe(conv: u32, mtu: nat, stream: bool, calls: seq<Call>, call: Call)
    requires 50 <= mtu < 0x8000_0000
    requires var cb := Run(Create(conv, mtu, stream), calls); cb.rmtWnd == 0 && Flushes(cb, call)
    ensures var cb := Run(Create(conv, mtu, stream), calls);
            var now := if call.CallUpdate? then call.now else cb.clock.current;
            ProbedRight(cb.probe, now, Apply(cb, call).probe, HasCmd(Emitted(cb, call), CMD_WASK))
  {
    AnyCallsKeep(conv, mtu, stream, calls);
    NoneAsked(conv, mtu, stream, calls);
    StepProbed(Run(Create(conv, mtu, stream), calls), Limit(Create(conv, mtu, stream), calls), call);
  }

  /** ... and does not decrease while the window stays zero. */
  lemma WaitNeverDrops(conv: u32, mtu: nat, stream: bool, before: seq<Call>, calls: seq<Call>)
    requires 50 <= mtu < 0x8000_0000 && ZeroWindow(Run(Create(conv, mtu, stream), before), calls)
    ensures var cb := Run(Create(conv, mtu, stream), before);
            var p := Run(cb, calls).probe; WaitOk(p) && cb.probe.wait <= p.wait
  {
    var cb := Run(Create(conv, mtu, stream), before);
    AnyCallsKeep(conv, mtu, stream, before);
    NoneAsked(conv, mtu, stream, before);
    ProbeIsEpisode(cb, calls);
    EpisodeGrows(Untold(cb.probe), FlushClocks(cb, calls));
  }

  lemma {:induction false} EpisodeGrows(p: Probe, at: seq<u32>)
    requires WaitOk(p)
    ensures WaitOk(Episode(p, at)) && p.wait <= Episode(p, at).wait
  {
    if at != [] {
      EpisodeGrows(p, at[..|at| - 1]);
      WaitGrows(Episode(p, at[..|at| - 1]), at[|at| - 1]);
    }
  }
}
