/** The round-trip estimator (`ikcp_update_ack`), after sections 2.2, 2.3 and 2.5 of RFC 6298. */
module Estimator {
  import opened Serial

  const RTO_MAX := 60000

  datatype Rtt = Rtt(srtt: i32, rttval: i32, rto: u32, minrto: u32)

  function Max(a: int, b: int): int {
    if a >= b then a else b
  }

  function Abs(x: int): nat {
    if x < 0 then -x else x
  }

  /** `rx_rto` from the current estimate: all of it in unsigned 32-bit arithmetic, as the source has it. */
  function Bounded(r: Rtt, interval: u32): u32 {
    var rto := U32(r.srtt + Max(interval, U32(4 * r.rttval)));
    var low := Max(r.minrto, rto);
    if low <= RTO_MAX then low else RTO_MAX
  }

  /** One sample. Products are computed in `int`, so they wrap at 32 bits; the sum with `delta` is a `long`. */
  function UpdateAck(r: Rtt, interval: u32, rtt: i32): Rtt {
    var r1 :=
      if r.srtt == 0 then r.(srtt := rtt, rttval := TruncDiv(rtt, 2))
      else
        var delta := Abs(I32(rtt - r.srtt));
        var srtt := TruncDiv(I32(I32(7 * r.srtt) + rtt), 8);
        r.(rttval := I32(TruncDiv(I32(3 * r.rttval) + delta, 4)), srtt := if srtt < 1 then 1 else srtt);
    r1.(rto := Bounded(r1, interval))
  }

  /** `rx_rto` never leaves [rx_minrto, 60000] after an acknowledgement, overflow or not. */
  lemma RtoBounded(r: Rtt, interval: u32, rtt: i32)
    requires r.minrto <= RTO_MAX
    ensures r.minrto <= UpdateAck(r, interval, rtt).rto <= RTO_MAX
    ensures UpdateAck(r, interval, rtt).minrto == r.minrto
  {
  }

  predicate Within(r: Rtt, bound: int) {
    0 <= r.srtt <= bound && 0 <= r.rttval <= bound
  }

  /** One sample in unbounded arithmetic: gains 1/8 and 1/4, K = 4, granularity `interval`, ceiling 60 s. */
  function IdealStep(srtt: int, rttval: int, interval: int, minrto: int, rtt: int): (int, int, int) {
    var srtt' := if srtt == 0 then rtt else Max(1, (7 * srtt + rtt) / 8);
    var rttval' := if srtt == 0 then rtt / 2 else (3 * rttval + Abs(rtt - srtt)) / 4;
    var rto := srtt' + Max(interval, 4 * rttval');
    (srtt', rttval', Max(minrto, if rto <= RTO_MAX then rto else RTO_MAX))
  }

  function IdealUpdate(r: Rtt, interval: u32, rtt: nat): (int, int, int) {
    IdealStep(r.srtt, r.rttval, interval, r.minrto, rtt)
  }

  lemma Small(x: int)
    requires -0x8000_0000 <= x < 0x8000_0000
    ensures I32(x) == x && (x >= 0 ==> U32(x) == x)
  {
  }

  /** The estimate after a sample, without the timeout that follows from it. */
  lemma EstimateExact(r: Rtt, interval: u32, rtt: i32, bound: int)
    requires 1 <= bound < 0x1000_0000 && Within(r, bound) && 0 <= rtt <= bound
    ensures var u := UpdateAck(r, interval, rtt);
            && Within(u, bound) && u.minrto == r.minrto
            && u.srtt == IdealUpdate(r, interval, rtt).0 && u.rttval == IdealUpdate(r, interval, rtt).1
  {
    if r.srtt != 0 {
      Small(7 * r.srtt);
      Small(7 * r.srtt + rtt);
      Small(3 * r.rttval);
      Small(rtt - r.srtt);
      Small((3 * r.rttval + Abs(rtt - r.srtt)) / 4);
    }
  }

  /** With samples below 2^28 nothing overflows: the 32-bit step is the ideal one and stays within the samples. */
  lemma NoOverflow(r: Rtt, interval: u32, rtt: i32, bound: int)
    requires 1 <= bound < 0x1000_0000 && Within(r, bound) && 0 <= rtt <= bound
    requires interval <= 5000 && r.minrto <= RTO_MAX
    ensures Within(UpdateAck(r, interval, rtt), bound)
    ensures var u := UpdateAck(r, interval, rtt);
            (u.srtt as int, u.rttval as int, u.rto as int) == IdealUpdate(r, interval, rtt)
  {
    EstimateExact(r, interval, rtt, bound);
    var u := UpdateAck(r, interval, rtt);
    BoundedExact(u, interval, bound);
    assert u.rto == Bounded(u, interval);
  }

  lemma BoundedExact(r: Rtt, interval: u32, bound: int)
    requires 1 <= bound < 0x1000_0000 && Within(r, bound)
    requires interval <= 5000 && r.minrto <= RTO_MAX
    ensures Bounded(r, interval) as int ==
            var rto := r.srtt + Max(interval, 4 * r.rttval); Max(r.minrto, if rto <= RTO_MAX then rto else RTO_MAX)
  {
    Small(4 * r.rttval);
    Small(r.srtt + Max(interval, 4 * r.rttval));
  }

  /** A sample, with `interval` and `rx_minrto` as the tuning calls have left them. */
  datatype Sample = Sample(rtt: i32, interval: u32, minrto: u32)

  function Samples(r: Rtt, samples: seq<Sample>): Rtt {
    if samples == [] then r
    else
      var last := samples[|samples| - 1];
      UpdateAck(Samples(r, samples[..|samples| - 1]).(minrto := last.minrto), last.interval, last.rtt)
  }

  /** The same samples in unbounded arithmetic. */
  function IdealSamples(srtt: int, rttval: int, rto: int, samples: seq<Sample>): (int, int, int) {
    if samples == [] then (srtt, rttval, rto)
    else
      var last := samples[|samples| - 1];
      var (s, v, _) := IdealSamples(srtt, rttval, rto, samples[..|samples| - 1]);
      IdealStep(s, v, last.interval, last.minrto, last.rtt)
  }

  predicate SampleOk(x: Sample, bound: int) {
    0 <= x.rtt <= bound && x.interval <= 5000 && x.minrto <= RTO_MAX
  }

  /** Over every sequence of samples in [0, bound], with any tuning in between: nothing overflows, so the estimates are
      those of unbounded arithmetic; they stay in [0, bound] and, once a sample has been taken, the timeout lies in
      [rx_minrto, 60000] and is at least the smoothed round-trip time and one interval unless cut at 60 s. */
  lemma {:induction false} EstimatesStayBounded(r: Rtt, samples: seq<Sample>, bound: int)
    requires 1 <= bound < 0x1000_0000 && Within(r, bound)
    requires forall i :: 0 <= i < |samples| ==> SampleOk(samples[i], bound)
    ensures var u := Samples(r, samples);
            && (u.srtt as int, u.rttval as int, u.rto as int) == IdealSamples(r.srtt, r.rttval, r.rto, samples)
            && Within(u, bound)
            && (samples != [] ==>
                  var last := samples[|samples| - 1];
                  last.minrto <= u.rto <= RTO_MAX && (u.rto >= u.srtt + last.interval || u.rto == RTO_MAX))
  {
    if samples != [] {
      var n := |samples| - 1;
      EstimatesStayBounded(r, samples[..n], bound);
      assert SampleOk(samples[n], bound);
      NoOverflow(Samples(r, samples[..n]).(minrto := samples[n].minrto), samples[n].interval, samples[n].rtt, bound);
    }
  }
}
