/** The round-trip estimator over whole runs: in any sequence of calls it goes through exactly the samples that the
    acknowledgements taken in provide, so what `Estimator` proves of samples holds of every run. */
module RunEstimates {
  import opened Serial
  import opened Wire
  import opened Estimator
  import opened ControlBlock
  import opened Invariant
  import opened Calls

  /** The samples in one datagram: one for each acknowledgement whose time stamp is not in the future. */
  function SegSamples(cb: Cb, segs: seq<Seg>): seq<Sample> {
    if segs == [] then []
    else
      var last := segs[|segs| - 1];
      SegSamples(cb, segs[..|segs| - 1]) +
      if last.cmd == CMD_ACK && Since(cb.clock.current, last.ts) >= 0
      then [Sample(Since(cb.clock.current, last.ts), cb.clock.interval, cb.rtt.minrto)] else []
  }

  function CallSamples(cb: Cb, call: Call): seq<Sample> {
    if call.CallInput? && I32(|call.data|) >= OVERHEAD then SegSamples(cb, Parse(cb.conf.conv, call.data).segs) else []
  }

  /** The samples of a run. */
  function RunSamples(cb: Cb, calls: seq<Call>): seq<Sample>
    requires cb.conf.Ok()
  {
    if calls == [] then []
    else
      var init := calls[..|calls| - 1];
      RunSamples(cb, init) + CallSamples(Run(cb, init), calls[|calls| - 1])
  }

  lemma {:induction false} SamplesConcat(r: Rtt, s: seq<Sample>, t: seq<Sample>)
    ensures Samples(r, s + t) == Samples(Samples(r, s), t)
  {
    if t == [] {
      assert s + t == s;
    } else {
      var n := |t| - 1;
      assert (s + t)[..|s + t| - 1] == s + t[..n];
      SamplesConcat(r, s, t[..n]);
    }
  }

  /** The minimum timeout in force before a sample does not matter: each sample carries its own. */
  lemma {:induction false} SamplesMinRto(r: Rtt, minrto: u32, s: seq<Sample>)
    ensures Samples(r.(minrto := minrto), s) ==
            if s == [] then r.(minrto := minrto) else Samples(r, s)
  {
    if s != [] {
      SamplesMinRto(r, minrto, s[..|s| - 1]);
    }
  }

  lemma {:induction false} InputAllSamples(cb: Cb, segs: seq<Seg>)
    ensures InputAll(W32, cb, segs).rtt == Samples(cb.rtt, SegSamples(cb, segs))
    ensures InputAll(W32, cb, segs).rtt.minrto == cb.rtt.minrto
  {
    if segs != [] {
      var init, last := segs[..|segs| - 1], segs[|segs| - 1];
      InputAllSamples(cb, init);
      InputAllConf(W32, cb, init);
      var before, now := SegSamples(cb, init), Since(cb.clock.current, last.ts);
      if last.cmd == CMD_ACK && now >= 0 {
        SamplesSnoc(cb.rtt, before, Sample(now, cb.clock.interval, cb.rtt.minrto));
      } else {
        assert SegSamples(cb, segs) == before + [] == before;
      }
    }
  }

  lemma SamplesSnoc(r: Rtt, s: seq<Sample>, x: Sample)
    ensures Samples(r, s + [x]) == UpdateAck(Samples(r, s).(minrto := x.minrto), x.interval, x.rtt)
  {
    assert (s + [x])[..|s|] == s;
  }

  /** No call but `ikcp_input` and `ikcp_nodelay` touches the estimator, and the latter only sets `rx_minrto`. */
  lemma ApplySamples(cb: Cb, call: Call)
    requires cb.conf.Ok()
    ensures Apply(cb, call).rtt == Samples(cb.rtt, CallSamples(cb, call)).(minrto := Apply(cb, call).rtt.minrto)
  {
    if call.CallInput? {
      InputAllSamples(cb, Parse(cb.conf.conv, call.data).segs);
    }
  }

  /** In any sequence of calls, with any bytes, the estimator is what the samples of the run make of it. */
  lemma {:induction false} RttIsSamples(cb: Cb, calls: seq<Call>)
    requires cb.conf.Ok()
    ensures Run(cb, calls).rtt == Samples(cb.rtt, RunSamples(cb, calls)).(minrto := Run(cb, calls).rtt.minrto)
    decreases |calls|
  {
    if calls != [] {
      var init, last := calls[..|calls| - 1], calls[|calls| - 1];
      var mid := Run(cb, init);
      RttIsSamples(cb, init);
      ApplySamples(mid, last);
      var s, t := RunSamples(cb, init), CallSamples(mid, last);
      SamplesConcat(cb.rtt, s, t);
      SamplesMinRto(Samples(cb.rtt, s), mid.rtt.minrto, t);
    }
  }

  /** The samples as they come from a control block whose timers are in range. */
  predicate InRange(x: Sample) {
    0 <= x.rtt && 10 <= x.interval <= 5000 && (x.minrto == 30 || x.minrto == 100)
  }

  predicate AllInRange(s: seq<Sample>) {
    forall i :: 0 <= i < |s| ==> InRange(s[i])
  }

  lemma ConcatInRange(s: seq<Sample>, t: seq<Sample>)
    requires AllInRange(s) && AllInRange(t)
    ensures AllInRange(s + t)
  {
  }

  lemma CallSamplesInRange(cb: Cb, lim: nat, call: Call)
    requires CbOk(W32, cb, lim)
    ensures AllInRange(CallSamples(cb, call))
  {
    if call.CallInput? {
      SegSamplesInRange(cb, Parse(cb.conf.conv, call.data).segs);
    }
  }

  lemma {:induction false} SegSamplesInRange(cb: Cb, segs: seq<Seg>)
    requires TimersOk(cb)
    ensures AllInRange(SegSamples(cb, segs))
  {
    if segs != [] {
      SegSamplesInRange(cb, segs[..|segs| - 1]);
    }
  }

  lemma {:induction false} RunSamplesInRange(conv: u32, mtu: nat, stream: bool, calls: seq<Call>)
    requires 50 <= mtu < 0x8000_0000
    ensures AllInRange(RunSamples(Create(conv, mtu, stream), calls))
    decreases |calls|
  {
    if calls != [] {
      var cb, init, last := Create(conv, mtu, stream), calls[..|calls| - 1], calls[|calls| - 1];
      RunSamplesInRange(conv, mtu, stream, init);
      AnyCallsKeep(conv, mtu, stream, init);
      CallSamplesInRange(Run(cb, init), Limit(cb, init), last);
      ConcatInRange(RunSamples(cb, init), CallSamples(Run(cb, init), last));
    }
  }

  /** The estimator over whole runs, with any bytes as input and any tuning in between: if no sample exceeds `bound` < 2^28,
      nothing overflows; `rx_srtt` and `rx_rttval` stay in [0, bound]; and the timeout is that of creation before the first
      sample, and from then on between the `rx_minrto` of the last sample and 60 s, and at least the smoothed round-trip time
      and one interval unless cut at 60 s. */
  lemma RunsEstimate(conv: u32, mtu: nat, stream: bool, calls: seq<Call>, bound: int)
    requires 50 <= mtu < 0x8000_0000 && 1 <= bound < 0x1000_0000
    requires var s := RunSamples(Create(conv, mtu, stream), calls); forall i :: 0 <= i < |s| ==> s[i].rtt <= bound
    ensures var r := Run(Create(conv, mtu, stream), calls).rtt;
            var s := RunSamples(Create(conv, mtu, stream), calls);
            && (r.srtt as int, r.rttval as int, r.rto as int) == IdealSamples(0, 0, 200, s)
            && Within(r, bound)
            && if s == [] then r.rto == 200
               else var last := s[|s| - 1];
                    last.minrto <= r.rto <= RTO_MAX && (r.rto >= r.srtt + last.interval || r.rto == RTO_MAX)
  {
    var cb := Create(conv, mtu, stream);
    var s := RunSamples(cb, calls);
    RttIsSamples(cb, calls);
    RunSamplesInRange(conv, mtu, stream, calls);
    forall i | 0 <= i < |s|
      ensures SampleOk(s[i], bound)
    {
      assert InRange(s[i]) && s[i].rtt <= bound;
    }
    EstimatesStayBounded(cb.rtt, s, bound);
  }
}
