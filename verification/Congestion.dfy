/** The congestion window: `cwnd`, `incr` (the same window in bytes) and `ssthresh`. */
module Congestion {
  import opened Serial

  const THRESH_MIN := 2

  datatype Cong = Cong(cwnd: u32, incr: u32, ssthresh: u32)

  /** New data was acknowledged (`ikcp_input`, last part). All arithmetic is unsigned 32-bit. */
  function Grow(c: Cong, rmtWnd: u16, mss: nat): Cong
    requires 0 < mss
  {
    if c.cwnd < rmtWnd then
      var d :=
        if c.cwnd < c.ssthresh then c.(cwnd := U32(c.cwnd + 1), incr := U32(c.incr + mss))
        else Creep(c, mss);
      if d.cwnd > rmtWnd then d.(cwnd := rmtWnd, incr := U32(rmtWnd * mss)) else d
    else c
  }

  /** Growth beyond the threshold: about one segment per window. */
  function Creep(c: Cong, mss: nat): Cong
    requires 0 < mss
  {
    var incr0 := if c.incr < mss then mss else c.incr;
    var incr := U32(incr0 + U32(mss * mss) / incr0 + mss / 16);
    if U32(U32(c.cwnd + 1) * mss) <= incr
    then c.(incr := incr, cwnd := U32(U32(incr + mss - 1) / mss))
    else c.(incr := incr)
  }

  /** The end of `ikcp_flush`: an early resend halves the threshold, a timeout closes the window. */
  function AfterFlush(c: Cong, fast: bool, lost: bool, inflight: u32, resent: u32, window: u32, mss: nat): Cong {
    var c1 :=
      if fast then
        var thresh := AtLeastMin(inflight / 2);
        Cong(U32(thresh + resent), U32(U32(thresh + resent) * mss), thresh)
      else c;
    var c2 := if lost then Cong(1, U32(mss), AtLeastMin(window / 2)) else c1;
    if c2.cwnd < 1 then c2.(cwnd := 1, incr := U32(mss)) else c2
  }

  function AtLeastMin(x: u32): u32 {
    if x < THRESH_MIN then THRESH_MIN else x
  }

  /** `incr` and `cwnd` tell the same window, to within one segment. */
  predicate Accounted(c: Cong, mss: nat) {
    c.cwnd * mss - mss < c.incr < c.cwnd * mss + mss
  }

  /** The limits under which nothing overflows: what 16-bit windows and a datagram size of at most 65535 allow. */
  predicate CongOk(c: Cong, mss: nat) {
    1 <= mss <= 65511 && c.ssthresh >= THRESH_MIN && Accounted(c, mss)
  }

  lemma CreepQuotient(x: nat, c: nat, m: nat)
    requires m >= 1 && c >= 2 && (c - 1) * m < x
    ensures m <= x
    ensures m * m / x <= m && (x > c * m ==> 2 * (m * m / x) <= m)
  {
    MulMono(1, c - 1, m);
    MulMono(m, x, m);
    DivBound(m * m, x, m);
    if x > c * m {
      MulMono(2, c, m);
      MulMono(2 * m, x, m);
      HalfBound(m * m, x, m);
    }
  }

  /** In the creeping phase the byte window grows by less than two segments. */
  lemma CreepStep(x: nat, c: nat, m: nat)
    requires m >= 1 && c >= 2 && (c - 1) * m < x < (c + 1) * m
    ensures m <= x && x + m * m / x + m / 16 < (c + 2) * m
  {
    CreepQuotient(x, c, m);
    assert (c + 1) * m == c * m + m && (c + 2) * m == c * m + 2 * m;
  }

  lemma DivBound(a: nat, x: nat, m: nat)
    requires x > 0 && a <= x * m
    ensures a / x <= m
  {
    var q := a / x;
    assert q * x <= a;
    assert (m + 1) * x == m * x + x;
    if q > m {
      MulMono(m + 1, q, x);
    }
  }

  lemma HalfBound(a: nat, x: nat, m: nat)
    requires x > 0 && 2 * a <= x * m
    ensures 2 * (a / x) <= m
  {
    var q := a / x;
    assert q * x <= a;
    assert (2 * q) * x == 2 * (q * x);
    assert (m + 1) * x == m * x + x;
    if 2 * q > m {
      MulMono(m + 1, 2 * q, x);
    }
  }

  /** Rounding up to whole segments. */
  lemma CeilBound(x: nat, m: nat, k: nat)
    requires m >= 1
    ensures var q := (x + m - 1) / m; 0 <= q * m - x < m
    ensures x <= k * m ==> (x + m - 1) / m <= k
    ensures k * m <= x ==> k <= (x + m - 1) / m
  {
    var q := (x + m - 1) / m;
    assert q * m <= x + m - 1 < q * m + m;
    assert (k + 1) * m == k * m + m && (q + 1) * m == q * m + m;
    if q > k {
      MulMono(k + 1, q, m);
    } else if q < k {
      MulMono(q + 1, k, m);
    }
  }

  lemma Below32(a: nat, m: nat)
    requires a <= 65537 && m <= 65511
    ensures a * m + 65536 < 0x1_0000_0000
  {
    MulMono(a, 65537, m);
  }

  /** The creeping step in unbounded arithmetic. */
  function CreepBytes(x: nat, m: nat): nat
    requires x > 0
  {
    x + m * m / x + m / 16
  }

  lemma Exact32(x: int)
    requires 0 <= x < 0x1_0000_0000
    ensures U32(x) == x
  {
  }

  lemma ProductExact(a: u32, m: nat)
    requires a <= 65536 && m <= 65511
    ensures U32(U32(a + 1) * m) == (a + 1) * m && U32(m * m) == m * m
    ensures (a + 1) * m == a * m + m && (a + 2) * m == a * m + 2 * m && (a - 1) * m == a * m - m
    ensures (a + 1) * m + 65536 < 0x1_0000_0000
  {
    Below32(a + 1, m);
    Below32(m, m);
    Exact32((a + 1) * m);
    Exact32(m * m);
  }

  /** Under the limits no operation of the creeping step wraps. */
  lemma CreepExact(c: Cong, mss: nat)
    requires CongOk(c, mss) && c.ssthresh <= c.cwnd < 65535
    ensures mss <= c.incr && CreepBytes(c.incr, mss) < (c.cwnd + 2) * mss
    ensures Creep(c, mss).incr == CreepBytes(c.incr, mss)
    ensures Creep(c, mss).cwnd ==
            if (c.cwnd + 1) * mss <= CreepBytes(c.incr, mss) then U32((CreepBytes(c.incr, mss) + mss - 1) / mss) else c.cwnd
  {
    ProductExact(c.cwnd, mss);
    ProductExact(c.cwnd + 1, mss);
    CreepStep(c.incr, c.cwnd, mss);
    Exact32(CreepBytes(c.incr, mss));
    Exact32(CreepBytes(c.incr, mss) + mss - 1);
  }

  lemma CeilWindow(incr: nat, mss: nat, k: nat, thresh: u32)
    requires 1 <= mss <= 65511 && k < 65535 && thresh >= THRESH_MIN && incr < 0x1_0000_0000
    requires k * mss <= incr <= (k + 2) * mss
    ensures var q := U32((incr + mss - 1) / mss);
            k <= q <= k + 2 && CongOk(Cong(q, incr, thresh), mss)
  {
    CeilBound(incr, mss, k + 2);
    CeilBound(incr, mss, k);
    Exact32((incr + mss - 1) / mss);
  }

  lemma CreepGrows(x: nat, mss: nat)
    requires x > 0
    ensures CreepBytes(x, mss) >= x
  {
    assert mss * mss / x >= 0;
  }

  lemma CreepKeeps(c: Cong, mss: nat)
    requires CongOk(c, mss) && c.ssthresh <= c.cwnd < 65535
    ensures CongOk(Creep(c, mss), mss) && c.cwnd <= Creep(c, mss).cwnd <= c.cwnd + 2
  {
    var k: nat := c.cwnd;
    CreepExact(c, mss);
    CreepGrows(c.incr, mss);
    ProductExact(k, mss);
    var d := Creep(c, mss);
    assert d.ssthresh == c.ssthresh;
    if (k + 1) * mss <= d.incr {
      CeilWindow(d.incr, mss, k, d.ssthresh);
    }
  }

  /** Acknowledged data: the accounting is kept and the window opens by at most two segments, never past the peer's. */
  lemma GrowKeeps(c: Cong, rmtWnd: u16, mss: nat)
    requires CongOk(c, mss)
    ensures CongOk(Grow(c, rmtWnd, mss), mss)
    ensures Grow(c, rmtWnd, mss).cwnd <= c.cwnd + 2
    ensures c.cwnd < rmtWnd ==> c.cwnd <= Grow(c, rmtWnd, mss).cwnd <= rmtWnd
    ensures c.cwnd >= rmtWnd ==> Grow(c, rmtWnd, mss) == c
  {
    if c.cwnd < rmtWnd {
      var d := if c.cwnd < c.ssthresh then c.(cwnd := U32(c.cwnd + 1), incr := U32(c.incr + mss)) else Creep(c, mss);
      if c.cwnd < c.ssthresh {
        SlowStartKeeps(c, mss);
      } else {
        CreepKeeps(c, mss);
      }
      SetWindow(rmtWnd, mss, d.ssthresh);
    }
  }

  lemma SlowStartKeeps(c: Cong, mss: nat)
    requires CongOk(c, mss) && c.cwnd < 65535
    ensures CongOk(Cong(U32(c.cwnd + 1), U32(c.incr + mss), c.ssthresh), mss)
    ensures U32(c.cwnd + 1) == c.cwnd + 1
  {
    Below32(c.cwnd + 2, mss);
    assert (c.cwnd + 1) * mss == c.cwnd * mss + mss;
    assert (c.cwnd + 2) * mss == c.cwnd * mss + 2 * mss;
  }

  lemma SetWindow(cwnd: u32, mss: nat, thresh: u32)
    requires cwnd <= 65537 && 1 <= mss <= 65511 && thresh >= THRESH_MIN
    ensures CongOk(Cong(cwnd, U32(cwnd * mss), thresh), mss)
  {
    Below32(cwnd, mss);
  }

  /** After a flush: the accounting is kept, the threshold is at least 2 and the window at least 1. `resent` is the
      configured resend count, or 2^32 - 1 when early resending is off. */
  lemma AfterFlushKeeps(c: Cong, fast: bool, lost: bool, inflight: u32, resent: u32, window: u32, mss: nat)
    requires CongOk(c, mss) && inflight <= 65535 && (resent <= 32768 || resent == 0xFFFF_FFFF)
    ensures CongOk(AfterFlush(c, fast, lost, inflight, resent, window, mss), mss)
    ensures AfterFlush(c, fast, lost, inflight, resent, window, mss).cwnd >= 1
  {
    var thresh := AtLeastMin(inflight / 2);
    assert U32(thresh + resent) == if resent == 0xFFFF_FFFF then thresh - 1 else thresh + resent;
    SetWindow(U32(thresh + resent), mss, thresh);
    SetWindow(1, mss, AtLeastMin(window / 2));
    SetWindow(1, mss, c.ssthresh);
    SetWindow(1, mss, thresh);
  }
}
