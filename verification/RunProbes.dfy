/** Window announcements and window probes over whole runs: when a window that opens again is announced, and how far apart the
    questions of a zero-window stretch are. */
module RunProbes {
  import opened Seqs
  import opened Serial
  import opened Wire
  import opened Estimator
  import opened ControlBlock
  import opened Invariant
  import opened Calls
  import opened Timers
  import opened RunTimers

  // ----- a window that opens again

  /** No call after the `j`-th flushes. */
  ghost predicate NoFlushAfter(cb: Cb, calls: seq<Call>, j: nat)
    requires cb.conf.Ok()
  {
    forall i {:trigger calls[i]} :: j < i < |calls| ==> !Flushes(Run(cb, calls[..i]), calls[i])
  }

  lemma TellKept(cb: Cb, call: Call)
    requires cb.conf.Ok() && cb.probe.tell && !Flushes(cb, call)
    ensures Apply(cb, call).probe.tell
  {
    if call.CallInput? {
      TellStaysInput(cb, Parse(cb.conf.conv, call.data).segs);
    }
  }

  /** An announcement is due after `k` calls. */
  predicate TellsAfter(cb: Cb, calls: seq<Call>, k: nat)
    requires cb.conf.Ok()
  {
    k <= |calls| && Run(cb, calls[..k]).probe.tell
  }

  lemma TellStep(cb: Cb, calls: seq<Call>, j: nat, k: nat)
    requires cb.conf.Ok() && j < k < |calls|
    requires var none := NoFlushAfter(cb, calls, j); none
    requires var tells := TellsAfter(cb, calls, k); tells
    ensures var tells := TellsAfter(cb, calls, k + 1); tells
  {
    RunSnoc(cb, calls, k);
    assert !Flushes(Run(cb, calls[..k]), calls[k]);
    TellKept(Run(cb, calls[..k]), calls[k]);
  }

  lemma TellLasts(cb: Cb, calls: seq<Call>, j: nat)
    requires cb.conf.Ok() && j < |calls|
    requires var none := NoFlushAfter(cb, calls, j); none
    requires var tells := TellsAfter(cb, calls, j + 1); tells
    ensures var tells := TellsAfter(cb, calls, |calls|); tells
  {
    forall k: nat | j + 1 <= k < |calls| && TellsAfter(cb, calls, k)
      ensures TellsAfter(cb, calls, k + 1)
    {
      TellStep(cb, calls, j, k);
    }
    Stepwise((k: nat) => TellsAfter(cb, calls, k), j + 1, |calls|);
  }

  lemma EmittedAnnouncement(cb: Cb, lim: nat, call: Call)
    requires CbOk(W32, cb, lim) && Flushes(cb, call)
    ensures HasCmd(Emitted(cb, call), CMD_WINS) <==> cb.probe.tell
  {
    match call
    case CallUpdate(now) =>
      assert CbOk(W32, Ticked(cb, now), lim);
      FlushProbesExactly(W32, Ticked(cb, now), lim);
    case CallFlush => FlushProbesExactly(W32, cb, lim);
  }

  /** In any run, when a receive opens a window that was full, the next call that flushes announces the window, whatever
      calls come in between. */
  lemma ReopenedIsAnnounced(conv: u32, mtu: nat, stream: bool, calls: seq<Call>, j: nat, call: Call)
    requires 50 <= mtu < 0x8000_0000 && j < |calls| && calls[j].CallRecv?
    requires Reopens(Run(Create(conv, mtu, stream), calls[..j]), calls[j].len)
    requires NoFlushAfter(Create(conv, mtu, stream), calls, j)
    requires Flushes(Run(Create(conv, mtu, stream), calls), call)
    ensures HasCmd(Emitted(Run(Create(conv, mtu, stream), calls), call), CMD_WINS)
  {
    var cb := Create(conv, mtu, stream);
    RunSnoc(cb, calls, j);
    RecvTells(Run(cb, calls[..j]), calls[j].len);
    TellLasts(cb, calls, j);
    assert calls[..|calls|] == calls;
    AnyCallsKeep(conv, mtu, stream, calls);
    EmittedAnnouncement(Run(cb, calls), Limit(cb, calls), call);
  }

  // ----- the questions of a zero-window stretch

  /** The waits: half as long again each time, up to 120 s, which the eighth question reaches. */
  function WaitAfter(n: nat): nat {
    if n == 0 then 7000 else if n == 1 then 10500 else if n == 2 then 15750 else if n == 3 then 23625
    else if n == 4 then 35437 else if n == 5 then 53155 else if n == 6 then 79732 else if n == 7 then 119598 else 120000
  }

  /** How many of the flushes at `at` have asked. */
  function Questions(p: Probe, at: seq<u32>): nat {
    if at == [] then 0
    else
      var init, now := at[..|at| - 1], at[|at| - 1];
      var q := Episode(p, init);
      Questions(p, init) + if q.wait != 0 && Since(now, q.ts) >= 0 then 1 else 0
  }

  lemma NextWaitIs(n: nat)
    ensures NextWait(WaitAfter(n)) == WaitAfter(n + 1)
  {
  }

  lemma {:induction false} EpisodeWaits(p: Probe, at: seq<u32>)
    requires p.wait == 0
    ensures Episode(p, at).wait == if at == [] then 0 else WaitAfter(Questions(p, at))
  {
    if at != [] {
      EpisodeWaits(p, at[..|at| - 1]);
      NextWaitIs(Questions(p, at[..|at| - 1]));
    }
  }

  /** The window questions that a stretch of calls emits, one at most for each flush. */
  function Asked(cb: Cb, calls: seq<Call>): nat
    requires cb.conf.Ok()
  {
    if calls == [] then 0
    else
      var init, last := calls[..|calls| - 1], calls[|calls| - 1];
      Asked(cb, init) + if HasCmd(Emitted(Run(cb, init), last), CMD_WASK) then 1 else 0
  }

  /** While the peer's window is not zero, a flush resets the timer. */
  lemma OpenResets(cb: Cb)
    requires cb.conf.Ok() && cb.clock.updated && cb.rmtWnd != 0
    ensures DoFlush(W32, cb).probe.wait == 0 && DoFlush(W32, cb).probe.ts == 0
  {
  }

  lemma {:induction false} RunKeeps(cb: Cb, lim: nat, calls: seq<Call>) returns (lim': nat)
    requires CbOk(W32, cb, lim)
    ensures CbOk(W32, Run(cb, calls), lim')
    decreases |calls|
  {
    if calls == [] {
      lim' := lim;
    } else {
      var n := |calls| - 1;
      var mid := RunKeeps(cb, lim, calls[..n]);
      ApplyOk(Run(cb, calls[..n]), mid, calls[n]);
      lim' := Max(mid, Run(cb, calls).rcv.wnd);
    }
  }

  /** One call asks exactly when the timer of the stretch says so. */
  lemma AskedStep(cb: Cb, lim: nat, call: Call)
    requires CbOk(W32, cb, lim) && !cb.probe.ask && cb.rmtWnd == 0
    ensures var now := if call.CallUpdate? then call.now else cb.clock.current;
            HasCmd(Emitted(cb, call), CMD_WASK) <==>
            Flushes(cb, call) && cb.probe.wait != 0 && Since(now, cb.probe.ts) >= 0
  {
    if Flushes(cb, call) {
      EmittedProbe(cb, lim, call);
    }
  }

  lemma QuestionsSnoc(p: Probe, at: seq<u32>, now: u32)
    ensures Questions(p, at + [now]) ==
            Questions(p, at) + if Episode(p, at).wait != 0 && Since(now, Episode(p, at).ts) >= 0 then 1 else 0
  {
    assert (at + [now])[..|at|] == at;
  }

  lemma {:induction false} AskedIsQuestions(cb: Cb, lim: nat, calls: seq<Call>)
    requires CbOk(W32, cb, lim) && !cb.probe.ask && ZeroWindow(cb, calls)
    ensures Asked(cb, calls) == Questions(Untold(cb.probe), FlushClocks(cb, calls))
    decreases |calls|
  {
    if calls != [] {
      var init, last := calls[..|calls| - 1], calls[|calls| - 1];
      var mid := Run(cb, init);
      AskedIsQuestions(cb, lim, init);
      ProbeIsEpisode(cb, init);
      var lim' := RunKeeps(cb, lim, init);
      AskedStep(mid, lim', last);
      if Flushes(mid, last) {
        QuestionsSnoc(Untold(cb.probe), FlushClocks(cb, init), if last.CallUpdate? then last.now else mid.clock.current);
      } else {
        assert FlushClocks(cb, calls) == FlushClocks(cb, init);
      }
    }
  }

  /** In every zero-window stretch of a run, from a state in which the timer is not running, the wait is 7 s once a flush has
      started it, and then half as long again after each question, up to 120 s. */
  lemma RunsWait(conv: u32, mtu: nat, stream: bool, before: seq<Call>, calls: seq<Call>)
    requires 50 <= mtu < 0x8000_0000
    requires var cb := Run(Create(conv, mtu, stream), before); cb.probe.wait == 0 && ZeroWindow(cb, calls)
    ensures var cb := Run(Create(conv, mtu, stream), before);
            Run(cb, calls).probe.wait == if FlushClocks(cb, calls) == [] then 0 else WaitAfter(Asked(cb, calls))
  {
    var cb := Run(Create(conv, mtu, stream), before);
    AnyCallsKeep(conv, mtu, stream, before);
    NoneAsked(conv, mtu, stream, before);
    ProbeIsEpisode(cb, calls);
    AskedIsQuestions(cb, Limit(Create(conv, mtu, stream), before), calls);
    EpisodeWaits(Untold(cb.probe), FlushClocks(cb, calls));
  }

  /** Any call that flushes while the peer's window is open stops the timer. */
  lemma OpenStops(cb: Cb, call: Call)
    requires cb.conf.Ok() && Flushes(cb, call) && cb.rmtWnd != 0
    ensures Apply(cb, call).probe.wait == 0
  {
    match call
    case CallUpdate(now) => OpenResets(Ticked(cb, now));
    case CallFlush => OpenResets(cb);
  }
}
