/** Time: `ikcp_check` against `ikcp_update`, the pacing of flushes, retransmission backoff and zero-window probing. All
    clocks are 32-bit readings that wrap around. */
module Timers {
  import opened Serial
  import opened Wire
  import opened Sender
  import opened Estimator
  import opened ControlBlock
  import opened Calls
  import opened Invariant

  /** A distance and what it leaves out. */
  lemma SinceQuotient(a: u32, b: u32) returns (q: int)
    ensures a - b == Since(a, b) + q * 0x1_0000_0000
  {
    q := if a - b >= 0x8000_0000 then 1 else if a - b < -0x8000_0000 then -1 else 0;
  }

  lemma SinceIs(a: u32, b: u32, x: int, q: int)
    requires a - b == x + q * 0x1_0000_0000 && -0x8000_0000 <= x < 0x8000_0000
    ensures Since(a, b) == x
  {
    Congruent(a - b, x, q);
  }

  lemma SinceLater(a: u32, d: nat, b: u32)
    requires -0x8000_0000 <= Since(a, b) + d < 0x8000_0000
    ensures Since(U32(a + d), b) == Since(a, b) + d
  {
    var q := SinceQuotient(a, b);
    SinceIs(U32(a + d), b, Since(a, b) + d, q - (a + d) / 0x1_0000_0000);
  }

  lemma SinceSwap(a: u32, b: u32)
    requires Since(a, b) != -0x8000_0000
    ensures Since(b, a) == -Since(a, b)
  {
    var q := SinceQuotient(a, b);
    SinceIs(b, a, -Since(a, b), -q);
  }

  lemma SinceEarlier(a: u32, b: u32, d: nat)
    requires -0x8000_0000 <= Since(a, b) - d < 0x8000_0000
    ensures Since(a, U32(b + d)) == Since(a, b) - d
  {
    var q := SinceQuotient(a, b);
    SinceIs(a, U32(b + d), Since(a, b) - d, q + (b + d) / 0x1_0000_0000);
  }

  // ----- ikcp_check

  /** The flush loop resends a segment whose deadline has been reached. */
  predicate Overdue(x: Sent, t: u32) {
    Since(t, x.resendts) >= 0
  }

  /** What `ikcp_check` takes for a deadline reached: the same, except that a deadline exactly 2^31 away counts too. */
  predicate Due(x: Sent, t: u32) {
    Since(x.resendts, t) <= 0
  }

  lemma DueIsOverdue(x: Sent, t: u32)
    ensures Due(x, t) <==> Overdue(x, t) || Since(t, x.resendts) == -0x8000_0000
  {
    if Since(t, x.resendts) == -0x8000_0000 {
      var q := SinceQuotient(t, x.resendts);
      SinceIs(x.resendts, t, -0x8000_0000, 1 - q);
    } else {
      SinceSwap(t, x.resendts);
    }
  }

  lemma {:induction false} NextResendIs(buf: seq<Sent>, now: u32)
    ensures NextResend(buf, now) == 0 ==> exists i :: 0 <= i < |buf| && Due(buf[i], now)
    ensures NextResend(buf, now) > 0 ==>
              && (forall i :: 0 <= i < |buf| ==> Since(buf[i].resendts, now) >= NextResend(buf, now))
              && (NextResend(buf, now) == 0x7FFF_FFFF ||
                  exists i :: 0 <= i < |buf| && Since(buf[i].resendts, now) == NextResend(buf, now))
  {
    if buf != [] {
      NextResendIs(buf[..|buf| - 1], now);
    }
  }

  /** The flush timer has not fired while the clock reads less than `ts_flush`. */
  lemma NoTick(c: Clock, t: u32)
    requires c.updated && -10000 <= Since(t, c.flush) < 0
    ensures !Tick(c, t).1 && Tick(c, t).0.flush == c.flush
  {
  }

  lemma TickAtDeadline(c: Clock, t: u32)
    requires !c.updated || Since(t, c.flush) >= 0 || Since(t, c.flush) < -10000
    ensures Tick(c, t).1
  {
  }

  /** An update flushes if it is the first, if `ts_flush` has been reached, or if the clock has jumped back by more than 10
      s; and in no other case. */
  lemma UpdateFlushesExactly(cb: Cb, now: u32)
    ensures Flushes(cb, CallUpdate(now)) <==>
            !cb.clock.updated || Since(now, cb.clock.flush) >= 0 || Since(now, cb.clock.flush) < -10000
  {
    if cb.clock.updated && -10000 <= Since(now, cb.clock.flush) < 0 {
      NoTick(cb.clock, now);
    } else {
      TickAtDeadline(cb.clock, now);
    }
  }

  predicate Asleep(cb: Cb, now: u32) {
    cb.clock.updated && -10000 <= Since(now, cb.clock.flush) < 0
  }

  /** How long `ikcp_check` lets the caller sleep while the flush timer runs. */
  function Sleep(cb: Cb, now: u32): (d: nat)
    requires Asleep(cb, now)
  {
    var flush := -Since(now, cb.clock.flush);
    var packet: int := NextResend(cb.snd.buf, now);
    var least := if packet < flush then packet else flush;
    if least >= cb.clock.interval then cb.clock.interval else least
  }

  lemma SleepIs(cb: Cb, now: u32)
    requires Asleep(cb, now)
    ensures DoCheck(cb, now) == U32(now + Sleep(cb, now))
  {
    SinceSwap(now, cb.clock.flush);
  }

  /** What `ikcp_check` returns, as a distance. */
  lemma CheckOffset(cb: Cb, now: u32)
    requires TimersOk(cb)
    ensures var o := Offset(DoCheck(cb, now), now);
            && DoCheck(cb, now) == U32(now + o)
            && o == if Asleep(cb, now) then Sleep(cb, now) else 0
  {
    if Asleep(cb, now) {
      SleepIs(cb, now);
      AheadOfNext(W32, now, Sleep(cb, now));
    } else {
      assert DoCheck(cb, now) == now;
    }
  }

  lemma NotYetOverdue(x: Sent, now: u32, d: nat)
    requires Since(x.resendts, now) > d
    ensures !Overdue(x, U32(now + d))
  {
    SinceSwap(x.resendts, now);
    SinceLater(now, d, x.resendts);
  }

  /** `ikcp_check` never promises too long a sleep. At every time from `now` up to, but not including, the time returned,
      an update neither flushes nor moves the flush timer, and no segment has reached its deadline; and the time returned
      is at most one interval away. */
  lemma CheckIsSafe(cb: Cb, now: u32, d: nat)
    requires TimersOk(cb) && d < Offset(DoCheck(cb, now), now)
    ensures var t := U32(now + d);
            && !Tick(cb.clock, t).1 && Tick(cb.clock, t).0.flush == cb.clock.flush
            && (forall i :: 0 <= i < |cb.snd.buf| ==> !Overdue(cb.snd.buf[i], t))
    ensures Offset(DoCheck(cb, now), now) <= cb.clock.interval
  {
    var slap := Since(now, cb.clock.flush);
    var buf := cb.snd.buf;
    CheckOffset(cb, now);
    assert Asleep(cb, now) && d < -slap && d < NextResend(buf, now);
    SinceLater(now, d, cb.clock.flush);
    NoTick(cb.clock, U32(now + d));
    NextResendIs(buf, now);
    forall i | 0 <= i < |buf|
      ensures !Overdue(buf[i], U32(now + d))
    {
      NotYetOverdue(buf[i], now, d);
    }
  }

  /** ... and never wakes the caller early without reason: at the time it returns, an update flushes, or a segment's
      deadline has been reached, or a whole interval has passed. */
  lemma CheckIsTight(cb: Cb, now: u32)
    requires TimersOk(cb)
    ensures var t := DoCheck(cb, now);
            || Tick(cb.clock, t).1
            || (exists i :: 0 <= i < |cb.snd.buf| && Due(cb.snd.buf[i], t))
            || Offset(t, now) == cb.clock.interval
  {
    var slap := Since(now, cb.clock.flush);
    CheckOffset(cb, now);
    var o := Offset(DoCheck(cb, now), now);
    if !Asleep(cb, now) {
      TickAtDeadline(cb.clock, now);
    } else if o == -slap {
      SinceLater(now, o, cb.clock.flush);
      TickAtDeadline(cb.clock, DoCheck(cb, now));
    } else if o == NextResend(cb.snd.buf, now) {
      var i := DueAtReturn(cb.snd.buf, now);
    }
  }

  lemma DueAtReturn(buf: seq<Sent>, now: u32) returns (i: nat)
    requires NextResend(buf, now) <= 5000
    ensures i < |buf| && Due(buf[i], U32(now + NextResend(buf, now)))
  {
    NextResendIs(buf, now);
    if NextResend(buf, now) == 0 {
      i :| 0 <= i < |buf| && Due(buf[i], now);
    } else {
      i :| 0 <= i < |buf| && Since(buf[i].resendts, now) == NextResend(buf, now);
      SinceEarlier(buf[i].resendts, now, NextResend(buf, now));
    }
  }

  // ----- pacing of flushes

  /** The flush timer over a run: the clock it ends with, and the (unwrapped) times of the updates that flushed. `times`
      are the unwrapped times of all updates. */
  function Ticks(c: Clock, times: seq<nat>): (Clock, seq<nat>) {
    if times == [] then (c, [])
    else
      var n := |times| - 1;
      var (c1, flushes) := Ticks(c, times[..n]);
      var (c2, due) := Tick(c1, U32(times[n]));
      (c2, if due then flushes + [times[n]] else flushes)
  }

  /** Time does not run backward, and no two updates are 2^31 ms or more apart. */
  predicate Monotone(times: seq<nat>) {
    forall i :: 0 < i < |times| ==> times[i - 1] <= times[i] < times[i - 1] + 0x8000_0000
  }

  /** The flush timer `c` stands for the unwrapped deadline `deadline`, seen from `now`. */
  predicate Stands(c: Clock, now: nat, deadline: nat) {
    c.updated && c.flush == U32(deadline) && now < deadline <= now + c.interval
  }

  lemma FirstTick(c: Clock, now: nat)
    requires !c.updated && 10 <= c.interval <= 5000
    ensures Tick(c, U32(now)).1 && Stands(Tick(c, U32(now)).0, now, now + c.interval)
    ensures Tick(c, U32(now)).0.interval == c.interval
  {
    WrapAdd(now, c.interval);
    DiffExact(now, now + c.interval);
  }

  lemma EarlyTick(c: Clock, before: nat, now: nat, deadline: nat)
    requires Stands(c, before, deadline) && 10 <= c.interval <= 5000 && before <= now < deadline
    ensures Tick(c, U32(now)) == (c.(current := U32(now)), false)
  {
    DiffExact(now, deadline);
  }

  lemma DueTick(c: Clock, now: nat, deadline: nat)
    requires c.updated && c.flush == U32(deadline) && 10 <= c.interval <= 5000
    requires deadline <= now < deadline + 10000
    ensures Tick(c, U32(now)) ==
            (c.(current := U32(now),
                flush := U32(if now >= deadline + c.interval then now + c.interval else deadline + c.interval)), true)
  {
    DiffExact(now, deadline);
    WrapAdd(deadline, c.interval);
    WrapAdd(now, c.interval);
    DiffExact(now, deadline + c.interval);
    var next := U32(c.flush + c.interval);
    assert Since(U32(now), c.flush) == now - deadline;
    assert next == U32(deadline + c.interval) && Since(U32(now), next) == now - deadline - c.interval;
  }

  lemma LateTick(c: Clock, now: nat, deadline: nat)
    requires c.updated && c.flush == U32(deadline) && 10 <= c.interval <= 5000
    requires deadline + 10000 <= now < deadline + 0x8000_0000
    ensures Tick(c, U32(now)) == (c.(current := U32(now), flush := U32(now + c.interval)), true)
  {
    DiffExact(now, deadline);
    WrapAdd(now, c.interval);
    DiffExact(now, now + c.interval);
  }

  lemma NextTick(c: Clock, before: nat, now: nat, deadline: nat) returns (deadline': nat)
    requires Stands(c, before, deadline) && 10 <= c.interval <= 5000 && before <= now < before + 0x8000_0000
    ensures var (c', due) := Tick(c, U32(now));
            && Stands(c', now, deadline') && c'.interval == c.interval
            && due == (now >= deadline)
            && (if due then deadline' >= deadline + c.interval else deadline' == deadline)
  {
    if now < deadline {
      deadline' := deadline;
      EarlyTick(c, before, now, deadline);
    } else if now < deadline + 10000 {
      deadline' := if now >= deadline + c.interval then now + c.interval else deadline + c.interval;
      DueTick(c, now, deadline);
    } else {
      deadline' := now + c.interval;
      LateTick(c, now, deadline);
    }
  }

  /** The k-th flush comes no earlier than k intervals after the first. */
  predicate Paced(flushes: seq<nat>, interval: nat) {
    flushes != [] && forall k :: 0 <= k < |flushes| ==> flushes[k] >= flushes[0] + k * interval
  }

  lemma PacedSnoc(flushes: seq<nat>, interval: nat, t: nat)
    requires Paced(flushes, interval) && t >= flushes[0] + |flushes| * interval
    ensures Paced(flushes + [t], interval)
  {
  }

  /** What holds after the updates at `times`: the timer stands at `deadline`, which leaves room for every flush so far. */
  predicate OnPace(c: Clock, flushes: seq<nat>, first: nat, now: nat, deadline: nat, interval: nat) {
    && Stands(c, now, deadline) && c.interval == interval
    && Paced(flushes, interval) && flushes[0] == first && deadline >= first + |flushes| * interval
  }

  lemma PaceStep(c: Clock, flushes: seq<nat>, first: nat, before: nat, now: nat, deadline: nat, interval: nat)
    returns (deadline': nat)
    requires OnPace(c, flushes, first, before, deadline, interval)
    requires 10 <= interval <= 5000 && before <= now < before + 0x8000_0000
    ensures var (c', due) := Tick(c, U32(now));
            OnPace(c', if due then flushes + [now] else flushes, first, now, deadline', interval)
  {
    deadline' := NextTick(c, before, now, deadline);
    if Tick(c, U32(now)).1 {
      PacedSnoc(flushes, interval, now);
      assert (|flushes| + 1) * interval == |flushes| * interval + interval;
    }
  }

  /** Flush pacing. With a monotone clock and a constant interval, the k-th flush comes no earlier than k intervals after
      the first, ... */
  lemma {:induction false} FlushesArePaced(c: Clock, times: seq<nat>) returns (deadline: nat)
    requires !c.updated && 10 <= c.interval <= 5000 && times != [] && Monotone(times)
    ensures OnPace(Ticks(c, times).0, Ticks(c, times).1, times[0], times[|times| - 1], deadline, c.interval)
  {
    var n := |times| - 1;
    if n == 0 {
      FirstTick(c, times[0]);
      deadline := times[0] + c.interval;
      assert times[..n] == [] && [] + [times[0]] == [times[0]];
      assert Ticks(c, times[..n]) == (c, []);
    } else {
      var d := FlushesArePaced(c, times[..n]);
      assert times[n - 1] <= times[n] < times[n - 1] + 0x8000_0000;
      deadline := PaceStep(Ticks(c, times[..n]).0, Ticks(c, times[..n]).1, times[0], times[n - 1], times[n], d, c.interval);
    }
  }

  /** No update leaves a flush overdue: the last flush is always less than one interval back. */
  lemma {:induction false} FlushesKeepUp(c: Clock, times: seq<nat>) returns (deadline: nat)
    requires !c.updated && 10 <= c.interval <= 5000 && times != [] && Monotone(times)
    ensures var (c', flushes) := Ticks(c, times);
            && Stands(c', times[|times| - 1], deadline) && c'.interval == c.interval
            && flushes != [] && flushes[|flushes| - 1] <= times[|times| - 1]
            && deadline <= flushes[|flushes| - 1] + c.interval
  {
    var n := |times| - 1;
    if n == 0 {
      FirstTick(c, times[0]);
      deadline := times[0] + c.interval;
      assert times[..n] == [] && [] + [times[0]] == [times[0]];
      assert Ticks(c, times[..n]) == (c, []);
    } else {
      var d := FlushesKeepUp(c, times[..n]);
      assert times[n - 1] <= times[n] < times[n - 1] + 0x8000_0000;
      deadline := NextTick(Ticks(c, times[..n]).0, times[n - 1], times[n], d);
    }
  }

  lemma StandsNear(c: Clock, now: nat, deadline: nat)
    requires Stands(c, now, deadline) && c.interval <= 5000
    ensures 0 < Since(c.flush, U32(now)) <= c.interval
  {
    DiffExact(deadline, now);
  }

  /** ... and after every update `ts_flush` lies in (current, current + interval], whatever the 32-bit clock reads. */
  lemma NextFlushIsNear(c: Clock, times: seq<nat>)
    requires !c.updated && 10 <= c.interval <= 5000 && times != [] && Monotone(times)
    ensures var (c', flushes) := Ticks(c, times);
            && 0 < Since(c'.flush, U32(times[|times| - 1])) <= c.interval
            && Paced(flushes, c.interval) && flushes[0] == times[0]
            && flushes[|flushes| - 1] <= times[|times| - 1] < flushes[|flushes| - 1] + c.interval
  {
    var deadline := FlushesArePaced(c, times);
    var deadline2 := FlushesKeepUp(c, times);
    StandsNear(Ticks(c, times).0, times[|times| - 1], deadline);
  }

  // ----- retransmission backoff

  function Pow2(k: nat): nat {
    if k == 0 then 1 else 2 * Pow2(k - 1)
  }

  lemma {:induction false} Pow2Mono(j: nat, k: nat)
    requires j <= k
    ensures 1 <= Pow2(j) <= Pow2(k)
    decreases k
  {
    if j < k {
      Pow2Mono(j, k - 1);
    } else if k > 0 {
      Pow2Mono(k - 1, k - 1);
    }
  }

  lemma Pow2Fifteen()
    ensures Pow2(15) == 32768
  {
    assert Pow2(5) == 32;
    assert Pow2(10) == 1024;
  }

  /** What happens to a buffered segment: a flush looks at it, or an acknowledgement overtakes it. */
  datatype Event = Looked(e: FlushEnv) | Overtaken

  function Live(x: Sent, events: seq<Event>): Sent {
    if events == [] then x
    else
      After(Live(x, events[..|events| - 1]), events[|events| - 1])
  }

  /** How often it has timed out. */
  function Timeouts(x: Sent, events: seq<Event>): nat {
    if events == [] then 0
    else
      var init, last := events[..|events| - 1], events[|events| - 1];
      Timeouts(x, init) + if last.Looked? && CauseOf(Live(x, init), last.e) == Timeout then 1 else 0
  }

  /** Flushes without the no-delay mode, with `rx_rto` in its range. */
  predicate Patient(events: seq<Event>) {
    forall i :: 0 <= i < |events| && events[i].Looked? ==> events[i].e.nodelay == 0 && 30 <= events[i].e.rxRto <= RTO_MAX
  }

  lemma BackOffExact(rto: u32, rxRto: u32)
    requires rto <= 0x7FFF_FFFF && rxRto <= RTO_MAX
    ensures BackOff(rto, rxRto, 0) == rto + if rto >= rxRto then rto else rxRto
  {
  }

  lemma BackOffDoubles(rto: u32, rxRto: u32, k: nat, r0: nat)
    requires k < 16 && 30 <= rxRto <= RTO_MAX && Pow2(k) * r0 <= rto <= Pow2(k) * RTO_MAX
    ensures Pow2(k + 1) * r0 <= BackOff(rto, rxRto, 0) <= Pow2(k + 1) * RTO_MAX
  {
    Pow2Mono(k, 15);
    Pow2Fifteen();
    BackOffExact(rto, rxRto);
    assert Pow2(k + 1) * r0 == 2 * (Pow2(k) * r0);
  }

  function After(y: Sent, event: Event): Sent {
    match event
    case Looked(e) => FlushOne(y, e)
    case Overtaken => Skip(y)
  }

  /** The limit on early resends is the one set at creation. */
  predicate Limited(events: seq<Event>) {
    forall i :: 0 <= i < |events| && events[i].Looked? ==> events[i].e.fastlimit == 5
  }

  /** As many timeouts as `xmit` can count without turning negative as an `int`. */
  const MOST_TIMEOUTS := 0x7FFF_FFF9

  lemma XmitStep(y: Sent, event: Event, k: nat)
    requires 1 <= y.xmit <= 6 + k && (event.Looked? ==> event.e.fastlimit == 5)
    requires var k' := if event.Looked? && CauseOf(y, event.e) == Timeout then k + 1 else k; k' <= MOST_TIMEOUTS
    ensures var k' := if event.Looked? && CauseOf(y, event.e) == Timeout then k + 1 else k;
            1 <= After(y, event).xmit <= 6 + k'
  {
    Small(y.xmit);
  }

  /** However long an entry lives, it is sent once, once more for each timeout, and at most five times early. */
  lemma {:induction false} XmitCounts(x: Sent, events: seq<Event>)
    requires x.xmit == 1 && Limited(events) && Timeouts(x, events) <= MOST_TIMEOUTS
    ensures 1 <= Live(x, events).xmit <= 6 + Timeouts(x, events)
  {
    if events != [] {
      var n := |events| - 1;
      XmitCounts(x, events[..n]);
      assert events[n].Looked? ==> events[n].e.fastlimit == 5;
      XmitStep(Live(x, events[..n]), events[n], Timeouts(x, events[..n]));
    }
  }

  /** Backoff. After its first transmission with timeout `r0`, a segment that has timed out k <= 16 times has a timeout
      between 2^k * r0 and 2^k * 60000, however `rx_rto` has moved and however often it was resent early in between. */
  lemma {:induction false} BackOffBounds(x: Sent, r0: u32, events: seq<Event>)
    requires x.xmit == 1 && x.rto == r0 && r0 <= RTO_MAX && Patient(events) && Limited(events)
    requires Timeouts(x, events) <= 16
    ensures var k := Timeouts(x, events);
            Pow2(k) * r0 <= Live(x, events).rto <= Pow2(k) * RTO_MAX
  {
    if events != [] {
      var init, last := events[..|events| - 1], events[|events| - 1];
      BackOffBounds(x, r0, init);
      XmitCounts(x, init);
      var y := Live(x, init);
      if last.Looked? {
        assert events[|events| - 1].e.nodelay == 0;
        if CauseOf(y, last.e) == Timeout {
          BackOffDoubles(y.rto, last.e.rxRto, Timeouts(x, init), r0);
        }
      }
    }
  }

  /** A segment to be resent at (unwrapped) time `due` is found overdue exactly from then on, as long as the clock has not
      gone 2^31 ms further. */
  ghost predicate ExactFrom(x: Sent, sent: nat, due: nat) {
    forall now: nat :: sent <= now < due + 0x8000_0000 ==> (Overdue(x, U32(now)) <==> now >= due)
  }

  /** The deadline comparison is exact for delays of at most 2^31 ms and for no longer ones: those are taken for deadlines in
      the past at the moment of sending. */
  lemma DelayExactly(x: Sent, sent: nat, delay: nat)
    requires x.resendts == U32(sent + delay) && delay < 0x1_0000_0000
    ensures ExactFrom(x, sent, sent + delay) <==> delay <= 0x8000_0000
    ensures Overdue(x, U32(sent)) <==> delay == 0 || delay > 0x8000_0000
  {
    var due := sent + delay;
    if delay <= 0x8000_0000 {
      forall now: nat | sent <= now < due + 0x8000_0000
        ensures Overdue(x, U32(now)) <==> now >= due
      {
        DiffExact(now, due);
      }
    } else {
      LongDelay(sent, delay);
    }
  }

  lemma LongDelay(sent: nat, delay: nat)
    requires 0x8000_0000 < delay < 0x1_0000_0000
    ensures Since(U32(sent), U32(sent + delay)) == 0x1_0000_0000 - delay
  {
    SinceIs(U32(sent), U32(sent + delay), 0x1_0000_0000 - delay, (sent + delay) / 0x1_0000_0000 - sent / 0x1_0000_0000 - 1);
  }

  /** After a retransmission the comparison is exact if and only if the timeout is at most 2^31 ms. */
  lemma ResentExactly(x: Sent, e: FlushEnv, sent: nat)
    requires x.xmit >= 1 && CauseOf(x, e) != Hold && e.current == U32(sent)
    ensures var y := FlushOne(x, e); ExactFrom(y, sent, sent + y.rto) <==> y.rto <= 0x8000_0000
    ensures var y := FlushOne(x, e); Overdue(y, U32(sent)) <==> y.rto == 0 || y.rto > 0x8000_0000
  {
    var y := FlushOne(x, e);
    WrapAdd(sent, y.rto);
    DelayExactly(y, sent, y.rto);
  }

  lemma FifteenFit(x: Sent, r0: u32, events: seq<Event>)
    requires x.xmit == 1 && x.rto == r0 && r0 <= RTO_MAX && Patient(events) && Limited(events)
    requires Timeouts(x, events) <= 15
    ensures Live(x, events).rto < 0x8000_0000
  {
    BackOffBounds(x, r0, events);
    Pow2Mono(Timeouts(x, events), 15);
    Pow2Fifteen();
  }

  /** So after every retransmission of a segment that has timed out at most 15 times, the flush loop finds it overdue exactly
      from its timeout on, whatever the 32-bit clock reads; ... */
  lemma DeadlineExact(x: Sent, r0: u32, events: seq<Event>, sent: nat)
    requires x.xmit == 1 && x.rto == r0 && r0 <= RTO_MAX && Patient(events) && Limited(events) && events != []
    requires Timeouts(x, events) <= 15
    requires var before, last := Live(x, events[..|events| - 1]), events[|events| - 1];
             last.Looked? && CauseOf(before, last.e) != Hold && last.e.current == U32(sent)
    ensures ExactFrom(Live(x, events), sent, sent + Live(x, events).rto)
  {
    var before, last := events[..|events| - 1], events[|events| - 1];
    FifteenFit(x, r0, events);
    XmitCounts(x, before);
    ResentExactly(Live(x, before), last.e, sent);
  }

  /** ... and after the first transmission from its timeout and `rtomin` on. */
  lemma FirstDeadlineExact(x: Sent, e: FlushEnv, sent: nat)
    requires x.xmit == 0 && e.current == U32(sent) && e.rxRto <= RTO_MAX && e.rtomin <= e.rxRto
    ensures ExactFrom(FlushOne(x, e), sent, sent + e.rxRto + e.rtomin)
  {
    WrapAdd(sent, e.rxRto + e.rtomin);
    DelayExactly(FlushOne(x, e), sent, e.rxRto + e.rtomin);
  }

  lemma LiveSnoc(x: Sent, events: seq<Event>, event: Event)
    ensures Live(x, events + [event]) == After(Live(x, events), event)
    ensures Timeouts(x, events + [event]) ==
            Timeouts(x, events) + if event.Looked? && CauseOf(Live(x, events), event.e) == Timeout then 1 else 0
  {
    assert (events + [event])[..|events|] == events;
  }

  // ----- zero-window probing

  /** Successive flushes of a zero-window episode, at clock readings `at`. */
  function Episode(p: Probe, at: seq<u32>): Probe {
    if at == [] then p
    else ProbeTick(Episode(p, at[..|at| - 1]), 0, at[|at| - 1]).(ask := false)
  }

  predicate WaitOk(p: Probe) {
    p.wait == 0 || PROBE_INIT <= p.wait <= PROBE_LIMIT
  }

  lemma WaitGrows(p: Probe, now: u32)
    requires WaitOk(p)
    ensures var p' := ProbeTick(p, 0, now);
            WaitOk(p') && PROBE_INIT <= p'.wait && p.wait <= p'.wait
  {
  }

  /** A flush emits a window question exactly when the probe timer, or an earlier decision, asks for one, and a window
      announcement exactly when one has been requested. */
  lemma FlushProbesExactly(w: Width, cb: Cb, lim: nat)
    requires CbOk(w, cb, lim) && cb.clock.updated
    ensures var p := ProbeTick(cb.probe, cb.rmtWnd, cb.clock.current);
            && (HasCmd(FlushSegs(w, cb), CMD_WASK) <==> p.ask)
            && (HasCmd(FlushSegs(w, cb), CMD_WINS) <==> cb.probe.tell)
  {
    var p := ProbeTick(cb.probe, cb.rmtWnd, cb.clock.current);
    var h := LastHeader(Template(cb), cb.rcv.acks);
    var acks, probes, data := AckSegs(Template(cb), cb.rcv.acks), ProbeSegs(p, h), Swept(w, cb).out;
    AckSegsAre(Template(cb), cb.rcv.acks);
    SweptArePushes(w, cb, lim);
    var segs := FlushSegs(w, cb);
    assert segs == acks + probes + data;
    if p.ask {
      assert segs[|acks|] == h.(cmd := CMD_WASK);
    }
    if p.tell {
      assert segs[|acks| + |probes| - 1] == h.(cmd := CMD_WINS);
    }
  }

  lemma SweptArePushes(w: Width, cb: Cb, lim: nat)
    requires CbOk(w, cb, lim)
    ensures forall i :: 0 <= i < |Swept(w, cb).out| ==> Swept(w, cb).out[i].cmd == CMD_PUSH
  {
    MovedOk(w, cb, lim);
    var buf, out := Moved(w, cb).buf, Swept(w, cb).out;
    forall i | 0 <= i < |out|
      ensures out[i].cmd == CMD_PUSH
    {
      SweepSends(buf, Env(cb), cb.conf.deadLink, out[i]);
      var j :| 0 <= j < |buf| && CauseOf(buf[j], Env(cb)) != Hold && out[i] == FlushOne(buf[j], Env(cb)).seg;
      assert SentOk(cb.conf, buf[j]);
    }
  }

  /** A peer that takes in a window question announces its window at its next flush. */
  lemma {:induction false} QuestionIsAnswered(w: Width, cb: Cb, segs: seq<Seg>)
    requires HasCmd(segs, CMD_WASK)
    ensures InputAll(w, cb, segs).probe.tell
  {
    var init, last := segs[..|segs| - 1], segs[|segs| - 1];
    if last.cmd != CMD_WASK {
      var i :| 0 <= i < |segs| && segs[i].cmd == CMD_WASK;
      assert init[i].cmd == CMD_WASK;
      QuestionIsAnswered(w, cb, init);
    }
  }

  predicate NoFlush(cb: Cb, calls: seq<Call>)
    requires cb.conf.Ok()
  {
    calls == [] ||
    (NoFlush(cb, calls[..|calls| - 1]) && !Flushes(Run(cb, calls[..|calls| - 1]), calls[|calls| - 1]))
  }

  lemma {:induction false} TellStays(cb: Cb, calls: seq<Call>)
    requires cb.conf.Ok() && cb.probe.tell && NoFlush(cb, calls)
    ensures Run(cb, calls).probe.tell
  {
    if calls != [] {
      var init, last := calls[..|calls| - 1], calls[|calls| - 1];
      TellStays(cb, init);
      if last.CallInput? {
        TellStaysInput(Run(cb, init), Parse(Run(cb, init).conf.conv, last.data).segs);
      }
    }
  }

  lemma {:induction false} TellStaysInput(cb: Cb, segs: seq<Seg>)
    requires cb.probe.tell
    ensures InputAll(W32, cb, segs).probe.tell
  {
    if segs != [] {
      TellStaysInput(cb, segs[..|segs| - 1]);
    }
  }

  /** A window question is answered at the next flush, whatever calls come in between. */
  lemma AnswerAtNextFlush(cb: Cb, lim: nat, data: Bytes, calls: seq<Call>, lim': nat)
    requires CbOk(W32, cb, lim) && I32(|data|) >= OVERHEAD && HasCmd(Parse(cb.conf.conv, data).segs, CMD_WASK)
    requires InputBytes(cb, data).0.conf.Ok() && NoFlush(InputBytes(cb, data).0, calls)
    requires var cb' := Run(InputBytes(cb, data).0, calls); cb'.clock.updated && CbOk(W32, cb', lim')
    ensures HasCmd(FlushSegs(W32, Run(InputBytes(cb, data).0, calls)), CMD_WINS)
  {
    var segs := Parse(cb.conf.conv, data).segs;
    QuestionIsAnswered(W32, cb, segs);
    InputAllConf(W32, cb, segs);
    TellStays(InputBytes(cb, data).0, calls);
    FlushProbesExactly(W32, Run(InputBytes(cb, data).0, calls), lim');
  }
}
