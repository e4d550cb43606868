/** The receiving half of a control block: `rcv_nxt`, `rcv_wnd`, `rcv_queue`, `rcv_buf` and `acklist`. */
module Receiver {
  import opened Serial
  import opened Wire
  import opened Fragments

  datatype Ack = Ack(sn: nat, ts: u32)

  datatype Rcv = Rcv(nxt: nat, wnd: nat, queue: seq<Frag>, buf: seq<Seg>, acks: seq<Ack>)

  /** The loop that moves segments from `rcv_buf` to `rcv_queue`: while the front one is next and there is room. */
  function Drain(w: Width, r: Rcv): Rcv
    decreases |r.buf|
  {
    if r.buf != [] && r.buf[0].sn == r.nxt && |r.queue| < r.wnd then
      Drain(w, r.(nxt := Add(w, r.nxt, 1), queue := r.queue + [FragOf(r.buf[0])], buf := r.buf[1..]))
    else r
  }

  /** The backward search of `ikcp_parse_data` and the insertion after it; a repeated number changes nothing. */
  function Insert(w: Width, buf: seq<Seg>, seg: Seg): seq<Seg> {
    if buf == [] then [seg]
    else
      var n := |buf| - 1;
      if buf[n].sn == seg.sn then buf
      else if Diff(w, seg.sn, buf[n].sn) > 0 then buf + [seg]
      else Insert(w, buf[..n], seg) + [buf[n]]
  }

  predicate InWindow(w: Width, r: Rcv, sn: nat) {
    Diff(w, sn, Add(w, r.nxt, r.wnd)) < 0 && Diff(w, sn, r.nxt) >= 0
  }

  function ParseData(w: Width, r: Rcv, seg: Seg): Rcv {
    if InWindow(w, r, seg.sn) then Drain(w, r.(buf := Insert(w, r.buf, seg))) else r
  }

  /** `ikcp_ack_push`. With unbounded numbers it leaves out a segment so old that 32-bit numbers would place it beyond the
      window, which is what the code does with it. */
  function Noted(w: Width, r: Rcv, seg: Seg): Rcv {
    if w.Exact? && Diff(W32, U32(seg.sn), U32(r.nxt + r.wnd)) >= 0 then r
    else r.(acks := r.acks + [Ack(seg.sn, seg.ts)])
  }

  /** What an incoming data segment does: acknowledge unless it is beyond the window, keep it if it is inside. */
  function RcvInput(w: Width, r: Rcv, seg: Seg): Rcv {
    if Diff(w, seg.sn, Add(w, r.nxt, r.wnd)) < 0 then
      ParseData(w, Noted(w, r, seg), seg)
    else r
  }

  /** The new state, what is returned, the bytes handed over, and whether the reopened window must be announced. */
  datatype RecvOutcome = RecvOutcome(rcv: Rcv, code: int, data: Bytes, reopens: bool)

  /** `ikcp_recv`; a negative `len` peeks. */
  function Recv(w: Width, r: Rcv, len: int): RecvOutcome {
    var peek := PeekSize(r.queue);
    if r.queue == [] then RecvOutcome(r, -1, [], false)
    else if peek < 0 then RecvOutcome(r, -2, [], false)
    else if peek > (if len < 0 then -len else len) then RecvOutcome(r, -3, [], false)
    else
      var n := RunLen(r.queue);
      var r' := Drain(w, r.(queue := if len < 0 then r.queue else r.queue[n..]));
      RecvOutcome(r', peek, Join(r.queue[..n]), |r.queue| >= r.wnd && |r'.queue| < r.wnd)
  }

  /** `ikcp_wnd_unused`, cut to the 16 bits the header has for it. */
  function WndUnused(r: Rcv): u16 {
    if |r.queue| < r.wnd then (r.wnd - |r.queue|) % 0x1_0000 else 0
  }

  // ----- the receive window, for arbitrary input

  predicate HasSn(buf: seq<Seg>, sn: nat) {
    exists i :: 0 <= i < |buf| && buf[i].sn == sn
  }

  /** Strictly ascending numbers in [base, base + wnd). */
  predicate Ascending(w: Width, buf: seq<Seg>, base: nat, wnd: nat) {
    && (forall i :: 0 <= i < |buf| ==> Numeral(w, buf[i].sn) && 0 <= Ahead(w, buf[i].sn, base) < wnd)
    && (forall i, j :: 0 <= i < j < |buf| ==> Ahead(w, buf[i].sn, base) < Ahead(w, buf[j].sn, base))
  }

  predicate Drained(r: Rcv) {
    r.buf == [] || r.buf[0].sn != r.nxt || |r.queue| >= r.wnd
  }

  /** The receive-window invariant; `lim` is the largest window configured so far. Between calls the buffer is also
      `Drained`. */
  predicate RcvOk(w: Width, r: Rcv, lim: nat) {
    && Numeral(w, r.nxt)
    && WND_RCV <= r.wnd <= lim <= 0x8000_0000 && r.wnd < 0x8000_0000
    && |r.queue| <= lim
    && Ascending(w, r.buf, r.nxt, lim)
  }

  /** One turn of the moving loop. */
  function TakeFront(w: Width, r: Rcv): Rcv
    requires r.buf != []
  {
    r.(nxt := Add(w, r.nxt, 1), queue := r.queue + [FragOf(r.buf[0])], buf := r.buf[1..])
  }

  predicate CanTake(r: Rcv) {
    r.buf != [] && r.buf[0].sn == r.nxt && |r.queue| < r.wnd
  }

  lemma TakeFrontKeeps(w: Width, r: Rcv, lim: nat)
    requires RcvOk(w, r, lim) && CanTake(r)
    ensures RcvOk(w, TakeFront(w, r), lim)
  {
    var nxt := Add(w, r.nxt, 1);
    AheadOfNext(w, r.nxt, 1);
    forall i | 1 <= i < |r.buf|
      ensures Ahead(w, r.buf[i].sn, nxt) == Ahead(w, r.buf[i].sn, r.nxt) - 1
    {
      assert Ahead(w, r.buf[0].sn, r.nxt) < Ahead(w, r.buf[i].sn, r.nxt);
      AheadRebase(w, r.buf[i].sn, r.nxt, nxt);
    }
  }

  lemma {:induction false} DrainKeeps(w: Width, r: Rcv, lim: nat)
    requires RcvOk(w, r, lim)
    ensures RcvOk(w, Drain(w, r), lim) && Drained(Drain(w, r))
    decreases |r.buf|
  {
    if CanTake(r) {
      TakeFrontKeeps(w, r, lim);
      DrainKeeps(w, TakeFront(w, r), lim);
    }
  }

  /** `p` is the place of a new number `sn` in an ascending buffer. */
  predicate PlaceOf(w: Width, buf: seq<Seg>, sn: nat, base: nat, p: nat) {
    && p <= |buf|
    && (forall i :: 0 <= i < p ==> Ahead(w, buf[i].sn, base) < Ahead(w, sn, base))
    && (forall i :: p <= i < |buf| ==> Ahead(w, sn, base) < Ahead(w, buf[i].sn, base))
  }

  function PutAt(buf: seq<Seg>, seg: Seg, p: nat): seq<Seg>
    requires p <= |buf|
  {
    buf[..p] + [seg] + buf[p..]
  }

  lemma PutAtSnoc(buf: seq<Seg>, seg: Seg, p: nat, last: Seg)
    requires p <= |buf|
    ensures PutAt(buf, seg, p) + [last] == PutAt(buf + [last], seg, p)
  {
  }

  lemma PlaceSnoc(w: Width, buf: seq<Seg>, last: Seg, sn: nat, base: nat, p: nat)
    requires PlaceOf(w, buf, sn, base, p) && Ahead(w, sn, base) < Ahead(w, last.sn, base)
    ensures PlaceOf(w, buf + [last], sn, base, p)
  {
  }

  lemma PlaceAtEnd(w: Width, buf: seq<Seg>, sn: nat, base: nat, wnd: nat)
    requires Ascending(w, buf, base, wnd) && buf != []
    requires Ahead(w, buf[|buf| - 1].sn, base) < Ahead(w, sn, base)
    ensures PlaceOf(w, buf, sn, base, |buf|)
  {
  }

  /** Where the backward search stops when `seg.sn` is not in the buffer yet. */
  lemma {:induction false} InsertNew(w: Width, buf: seq<Seg>, seg: Seg, base: nat, wnd: nat) returns (p: nat)
    requires Ascending(w, buf, base, wnd) && wnd <= 0x8000_0000
    requires Numeral(w, seg.sn) && 0 <= Ahead(w, seg.sn, base) < wnd
    requires !HasSn(buf, seg.sn)
    ensures PlaceOf(w, buf, seg.sn, base, p)
    ensures Insert(w, buf, seg) == PutAt(buf, seg, p)
  {
    if buf == [] {
      p := 0;
    } else {
      var n := |buf| - 1;
      var init, last := buf[..n], buf[n];
      DiffIsAhead(w, seg.sn, last.sn, base);
      AheadInjective(w, seg.sn, last.sn, base);
      if Diff(w, seg.sn, last.sn) > 0 {
        p := |buf|;
        PlaceAtEnd(w, buf, seg.sn, base, wnd);
      } else {
        assert buf == init + [last];
        p := InsertNew(w, init, seg, base, wnd);
        PutAtSnoc(init, seg, p, last);
        PlaceSnoc(w, init, last, seg.sn, base, p);
      }
    }
  }

  lemma {:induction false} InsertRepeated(w: Width, buf: seq<Seg>, seg: Seg, base: nat, wnd: nat)
    requires Ascending(w, buf, base, wnd) && wnd <= 0x8000_0000
    requires Numeral(w, seg.sn) && 0 <= Ahead(w, seg.sn, base) < wnd
    requires HasSn(buf, seg.sn)
    ensures Insert(w, buf, seg) == buf
  {
    var n := |buf| - 1;
    var init, last := buf[..n], buf[n];
    DiffIsAhead(w, seg.sn, last.sn, base);
    assert buf == init + [last];
    if last.sn != seg.sn {
      var i :| 0 <= i < n && init[i].sn == seg.sn;
      assert Ahead(w, buf[i].sn, base) < Ahead(w, buf[n].sn, base);
      InsertRepeated(w, init, seg, base, wnd);
    }
  }

  lemma PutAtKeeps(w: Width, buf: seq<Seg>, seg: Seg, base: nat, wnd: nat, p: nat)
    requires Ascending(w, buf, base, wnd)
    requires Numeral(w, seg.sn) && 0 <= Ahead(w, seg.sn, base) < wnd
    requires PlaceOf(w, buf, seg.sn, base, p)
    ensures Ascending(w, PutAt(buf, seg, p), base, wnd)
  {
    var t := PutAt(buf, seg, p);
    forall i, j | 0 <= i < j < |t|
      ensures Ahead(w, t[i].sn, base) < Ahead(w, t[j].sn, base)
    {
      assert t[i] == if i < p then buf[i] else if i == p then seg else buf[i - 1];
      assert t[j] == if j < p then buf[j] else if j == p then seg else buf[j - 1];
    }
  }

  lemma PutAtContents(buf: seq<Seg>, seg: Seg, p: nat)
    requires p <= |buf|
    ensures multiset(PutAt(buf, seg, p)) == multiset(buf) + multiset{seg}
    ensures HasSn(PutAt(buf, seg, p), seg.sn)
  {
    assert buf == buf[..p] + buf[p..];
    assert PutAt(buf, seg, p)[p] == seg;
  }

  /** A segment inside the window ends up in the buffer exactly once, and nothing else is disturbed. */
  lemma InsertKeeps(w: Width, buf: seq<Seg>, seg: Seg, base: nat, wnd: nat)
    requires Ascending(w, buf, base, wnd) && wnd <= 0x8000_0000
    requires Numeral(w, seg.sn) && 0 <= Ahead(w, seg.sn, base) < wnd
    ensures Ascending(w, Insert(w, buf, seg), base, wnd)
    ensures HasSn(Insert(w, buf, seg), seg.sn)
    ensures multiset(Insert(w, buf, seg)) == multiset(buf) + if HasSn(buf, seg.sn) then multiset{} else multiset{seg}
  {
    if HasSn(buf, seg.sn) {
      InsertRepeated(w, buf, seg, base, wnd);
    } else {
      var p := InsertNew(w, buf, seg, base, wnd);
      PutAtKeeps(w, buf, seg, base, wnd, p);
      PutAtContents(buf, seg, p);
    }
  }

  lemma ParseDataKeeps(w: Width, r: Rcv, lim: nat, seg: Seg)
    requires RcvOk(w, r, lim) && Numeral(w, seg.sn)
    ensures RcvOk(w, ParseData(w, r, seg), lim)
    ensures Drained(r) ==> Drained(ParseData(w, r, seg))
  {
    WindowTest(w, seg.sn, r.nxt, r.wnd);
    if InWindow(w, r, seg.sn) {
      InsertKeeps(w, r.buf, seg, r.nxt, lim);
      DrainKeeps(w, r.(buf := Insert(w, r.buf, seg)), lim);
    }
  }

  /** Receive-window invariant for arbitrary incoming segments. */
  lemma RcvInputKeeps(w: Width, r: Rcv, lim: nat, seg: Seg)
    requires RcvOk(w, r, lim) && Numeral(w, seg.sn)
    ensures RcvOk(w, RcvInput(w, r, seg), lim)
    ensures Drained(r) ==> Drained(RcvInput(w, r, seg))
  {
    ParseDataKeeps(w, Noted(w, r, seg), lim, seg);
  }

  /** Receiving keeps the window, and re-establishes the drained state from any state at all. */
  lemma RecvKeeps(w: Width, r: Rcv, lim: nat, len: int)
    requires RcvOk(w, r, lim)
    ensures RcvOk(w, Recv(w, r, len).rcv, lim)
    ensures Drained(r) || Recv(w, r, len).code >= 0 ==> Drained(Recv(w, r, len).rcv)
  {
    var n := RunLen(r.queue);
    DrainKeeps(w, r.(queue := if len < 0 then r.queue else r.queue[n..]), lim);
  }

  /** A successful receive returns exactly as many bytes as `ikcp_peeksize` announced, for any queue contents. */
  lemma RecvLength(w: Width, r: Rcv, len: int)
    ensures Recv(w, r, len).code >= 0 ==> Recv(w, r, len).code == |Recv(w, r, len).data| == PeekSize(r.queue)
  {
    if PeekSize(r.queue) >= 0 {
      MergeLength(r.queue);
    }
  }
}
