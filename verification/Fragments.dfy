/** Cutting a message into fragments (`ikcp_send`) and putting it together again (`ikcp_peeksize`, `ikcp_recv`). */
module Fragments {
  import opened Seqs
  import opened Serial
  import opened Wire

  const WND_RCV := 128

  /** The part of a queued segment that is meaningful before it has a sequence number and after it has lost it:
      how many fragments of the same message follow it, and its bytes. */
  datatype Frag = Frag(frg: u8, data: Bytes)

  function FragOf(s: Seg): Frag {
    Frag(s.frg, s.data)
  }

  function Join(fs: seq<Frag>): Bytes {
    if fs == [] then [] else fs[0].data + Join(fs[1..])
  }

  lemma {:induction false} JoinConcat(fs: seq<Frag>, gs: seq<Frag>)
    ensures Join(fs + gs) == Join(fs) + Join(gs)
  {
    if fs == [] {
      assert fs + gs == gs;
    } else {
      JoinConcat(fs[1..], gs);
      assert (fs + gs)[1..] == fs[1..] + gs;
      Assoc(fs[0].data, Join(fs[1..]), Join(gs));
    }
  }

  lemma JoinSnoc(fs: seq<Frag>, f: Frag)
    ensures Join(fs + [f]) == Join(fs) + f.data
  {
    JoinConcat(fs, [f]);
    JoinOne(f);
  }

  lemma JoinOne(f: Frag)
    ensures Join([f]) == f.data
  {
    assert Join([f]) == f.data + Join([]);
  }

  // ----- sending

  function Min(a: int, b: int): int {
    if a <= b then a else b
  }

  function FragCount(mss: nat, len: nat): (n: nat)
    requires mss > 0
  {
    if len <= mss then 1 else (len + mss - 1) / mss
  }

  /** `count` segments cut off the front of `msg`; in message mode they count down to 0, in stream mode all are 0. */
  function Pieces(mss: nat, msg: Bytes, count: nat, stream: bool): seq<Frag>
    requires count <= WND_RCV
    decreases count
  {
    if count == 0 then []
    else
      var size := Min(|msg|, mss);
      [Frag(if stream then 0 else count - 1, msg[..size])] + Pieces(mss, msg[size..], count - 1, stream)
  }

  datatype SendOutcome = SendOutcome(queue: seq<Frag>, code: int, taken: nat)

  /** How much of `msg` stream mode can append to the last queued segment. */
  function Extend(mss: nat, stream: bool, queue: seq<Frag>, msg: Bytes): (n: nat)
    ensures n <= |msg|
  {
    if stream && queue != [] && |queue[|queue| - 1].data| < mss
    then Min(|msg|, mss - |queue[|queue| - 1].data|)
    else 0
  }

  function Extended(mss: nat, stream: bool, queue: seq<Frag>, msg: Bytes): seq<Frag> {
    if stream && queue != [] && |queue[|queue| - 1].data| < mss then
      var last := queue[|queue| - 1];
      queue[..|queue| - 1] + [Frag(0, last.data + msg[..Extend(mss, stream, queue, msg)])]
    else queue
  }

  function Send(mss: nat, stream: bool, queue: seq<Frag>, msg: Bytes): SendOutcome
    requires mss > 0
  {
    var ext := Extend(mss, stream, queue, msg);
    var q := Extended(mss, stream, queue, msg);
    var rest := msg[ext..];
    if stream && rest == [] then SendOutcome(q, 0, |msg|)
    else if FragCount(mss, |rest|) >= WND_RCV then SendOutcome(q, -2, ext)
    else SendOutcome(q + Pieces(mss, rest, FragCount(mss, |rest|), stream), 0, |msg|)
  }

  /** The fragments of one message in message mode. */
  function Fragment(mss: nat, msg: Bytes): seq<Frag>
    requires mss > 0 && FragCount(mss, |msg|) < WND_RCV
  {
    Pieces(mss, msg, FragCount(mss, |msg|), false)
  }

  lemma CountCovers(mss: nat, len: nat)
    requires mss > 0
    ensures FragCount(mss, len) >= 1
    ensures len <= FragCount(mss, len) * mss
    ensures (FragCount(mss, len) - 1) * mss < len || FragCount(mss, len) == 1
  {
    if len > mss {
      var k := (len + mss - 1) / mss;
      assert k * mss <= len + mss - 1 < k * mss + mss;
    }
  }

  lemma {:induction false} PiecesShape(mss: nat, msg: Bytes, count: nat, stream: bool)
    requires count <= WND_RCV && |msg| <= count * mss
    ensures |Pieces(mss, msg, count, stream)| == count
    ensures forall i :: 0 <= i < count ==> Pieces(mss, msg, count, stream)[i].frg == (if stream then 0 else count - 1 - i)
    ensures forall i :: 0 <= i < count ==> |Pieces(mss, msg, count, stream)[i].data| <= mss
    ensures Join(Pieces(mss, msg, count, stream)) == msg
    decreases count
  {
    if count != 0 {
      var size := Min(|msg|, mss);
      assert (count - 1) * mss == count * mss - mss;
      PiecesShape(mss, msg[size..], count - 1, stream);
      assert Pieces(mss, msg, count, stream)[1..] == Pieces(mss, msg[size..], count - 1, stream);
      assert msg == msg[..size] + msg[size..];
    }
  }

  /** An accepted message of any length becomes max(1, ceil(len / mss)) segments of at most mss bytes whose `frg`
      counts down to 0 and whose bytes, in order, are the message. */
  lemma FragmentShape(mss: nat, msg: Bytes)
    requires mss > 0 && FragCount(mss, |msg|) < WND_RCV
    ensures var fs := Fragment(mss, msg);
            && 1 <= |fs| < WND_RCV
            && (|fs| - 1) * mss < (if |msg| == 0 then 1 else |msg|) <= |fs| * mss
            && (forall i :: 0 <= i < |fs| ==> fs[i].frg == |fs| - 1 - i && |fs[i].data| <= mss)
            && Join(fs) == msg
  {
    CountCovers(mss, |msg|);
    PiecesShape(mss, msg, FragCount(mss, |msg|), false);
  }

  lemma ExtendBytes(mss: nat, stream: bool, queue: seq<Frag>, msg: Bytes)
    ensures Join(Extended(mss, stream, queue, msg)) == Join(queue) + msg[..Extend(mss, stream, queue, msg)]
  {
    var q := Extended(mss, stream, queue, msg);
    if stream && queue != [] && |queue[|queue| - 1].data| < mss {
      var n := |queue| - 1;
      JoinSnoc(queue[..n], queue[n]);
      JoinSnoc(queue[..n], q[n]);
      assert queue == queue[..n] + [queue[n]];
      Assoc(Join(queue[..n]), queue[n].data, msg[..Extend(mss, stream, queue, msg)]);
    }
  }

  /** Both modes, any queue: what a send appends to the queued bytes is exactly what it reports as taken, and
      everything is taken when it returns 0. */
  lemma SendBytes(mss: nat, stream: bool, queue: seq<Frag>, msg: Bytes)
    requires mss > 0
    ensures var r := Send(mss, stream, queue, msg);
            && r.taken <= |msg|
            && Join(r.queue) == Join(queue) + msg[..r.taken]
            && (r.code == 0 ==> r.taken == |msg|)
            && (r.code == 0 || r.code == -2)
  {
    var ext := Extend(mss, stream, queue, msg);
    var q := Extended(mss, stream, queue, msg);
    var rest := msg[ext..];
    ExtendBytes(mss, stream, queue, msg);
    if stream && rest == [] {
      assert ext == |msg|;
    } else if FragCount(mss, |rest|) < WND_RCV {
      var ps := Pieces(mss, rest, FragCount(mss, |rest|), stream);
      assert Join(ps) == rest by {
        CountCovers(mss, |rest|);
        PiecesShape(mss, rest, FragCount(mss, |rest|), stream);
      }
      JoinConcat(q, ps);
      Assoc(Join(queue), msg[..ext], rest);
      assert msg[..ext] + rest == msg[..|msg|];
    }
  }

  /** No queued segment outgrows `mss`, and in stream mode every queued `frg` is 0. */
  predicate QueueOk(mss: nat, stream: bool, queue: seq<Frag>) {
    forall i :: 0 <= i < |queue| ==> |queue[i].data| <= mss && (stream ==> queue[i].frg == 0)
  }

  lemma ExtendedKeepsQueueOk(mss: nat, stream: bool, queue: seq<Frag>, msg: Bytes)
    requires QueueOk(mss, stream, queue)
    ensures QueueOk(mss, stream, Extended(mss, stream, queue, msg))
  {
  }

  lemma SendKeepsQueueOk(mss: nat, stream: bool, queue: seq<Frag>, msg: Bytes)
    requires mss > 0 && QueueOk(mss, stream, queue)
    ensures QueueOk(mss, stream, Send(mss, stream, queue, msg).queue)
  {
    ExtendedKeepsQueueOk(mss, stream, queue, msg);
    var rest := msg[Extend(mss, stream, queue, msg)..];
    if FragCount(mss, |rest|) < WND_RCV {
      CountCovers(mss, |rest|);
      PiecesShape(mss, rest, FragCount(mss, |rest|), stream);
      assert QueueOk(mss, stream, Pieces(mss, rest, FragCount(mss, |rest|), stream));
    }
  }

  /** A refused send leaves the queue alone exactly when it is not in stream mode with room left in the last queued
      segment. Otherwise the front of the refused data has already been queued. */
  lemma RefusedSend(mss: nat, stream: bool, queue: seq<Frag>, msg: Bytes)
    requires mss > 0 && Send(mss, stream, queue, msg).code != 0
    ensures Send(mss, stream, queue, msg).queue == queue <==>
            !stream || queue == [] || |queue[|queue| - 1].data| >= mss
  {
    if stream && queue != [] && |queue[|queue| - 1].data| < mss {
      var ext := Extend(mss, stream, queue, msg);
      var q := Extended(mss, stream, queue, msg);
      var cap := mss - |queue[|queue| - 1].data|;
      assert ext > 0;
      assert |q[|queue| - 1].data| == |queue[|queue| - 1].data| + ext;
    }
  }

  /** How many bytes the last queued segment can still take: in message mode none. */
  function RoomAtEnd(mss: nat, stream: bool, queue: seq<Frag>): nat {
    if stream && queue != [] && |queue[|queue| - 1].data| < mss then mss - |queue[|queue| - 1].data| else 0
  }

  lemma CountLimit(mss: nat, len: nat)
    requires mss > 0
    ensures FragCount(mss, len) >= WND_RCV <==> len > (WND_RCV - 1) * mss
  {
    CountCovers(mss, len);
    var k := FragCount(mss, len);
    if k >= WND_RCV {
      MulMono(WND_RCV - 1, k - 1, mss);
    } else {
      MulMono(k, WND_RCV - 1, mss);
    }
  }

  /** In both modes a send is refused if and only if what the last queued segment cannot take is more than 127 full
      segments. */
  lemma SendAccepts(mss: nat, stream: bool, queue: seq<Frag>, msg: Bytes)
    requires mss > 0
    ensures Send(mss, stream, queue, msg).code == -2 <==> |msg| - RoomAtEnd(mss, stream, queue) > 127 * mss
    ensures Send(mss, stream, queue, msg).code == 0 <==> |msg| - RoomAtEnd(mss, stream, queue) <= 127 * mss
  {
    var rest := |msg| - Extend(mss, stream, queue, msg);
    assert |msg[Extend(mss, stream, queue, msg)..]| == rest;
    assert rest == Max0(|msg| - RoomAtEnd(mss, stream, queue));
    CountLimit(mss, rest);
  }

  function Max0(x: int): nat {
    if x < 0 then 0 else x
  }

  /** How many segments `len` bytes fill, the last one perhaps in part. */
  predicate Segments(mss: nat, len: nat, n: nat) {
    (n - 1) * mss < len <= n * mss
  }

  lemma {:induction false} PiecesFull(mss: nat, msg: Bytes, count: nat, stream: bool)
    requires 1 <= count <= WND_RCV && (count - 1) * mss < |msg| <= count * mss
    ensures var ps := Pieces(mss, msg, count, stream);
            |ps| == count && forall i :: 0 <= i < count - 1 ==> |ps[i].data| == mss
    decreases count
  {
    if count > 1 {
      MoreThanOne(mss, |msg|, count);
      PiecesFull(mss, msg[mss..], count - 1, stream);
      PiecesFirst(mss, msg, count, stream);
    } else {
      assert Pieces(mss, msg, 1, stream)[1..] == [];
    }
  }

  lemma MoreThanOne(mss: nat, len: nat, count: nat)
    requires count > 1 && (count - 1) * mss < len <= count * mss
    ensures len > mss && (count - 2) * mss < len - mss <= (count - 1) * mss
  {
    assert (count - 1) * mss == (count - 2) * mss + mss && (count - 2) * mss >= 0;
    assert count * mss == (count - 1) * mss + mss;
  }

  lemma PiecesFirst(mss: nat, msg: Bytes, count: nat, stream: bool)
    requires 1 <= count <= WND_RCV && |msg| >= mss
    ensures Pieces(mss, msg, count, stream) ==
            [Frag(if stream then 0 else count - 1, msg[..mss])] + Pieces(mss, msg[mss..], count - 1, stream)
  {
  }

  /** In stream mode an accepted send first fills up the last queued segment. What is left becomes new segments, as few as
      hold it: all of them full but the last, and with `frg` 0. */
  lemma StreamShape(mss: nat, queue: seq<Frag>, msg: Bytes)
    requires mss > 0 && Send(mss, true, queue, msg).code == 0
    ensures var q, n, room := Send(mss, true, queue, msg).queue, |queue|, RoomAtEnd(mss, true, queue);
            && n <= |q|
            && (forall i :: 0 <= i < n - 1 ==> q[i] == queue[i])
            && (n > 0 && room == 0 ==> q[n - 1] == queue[n - 1])
            && (room > 0 ==> q[n - 1] == Frag(0, queue[n - 1].data + msg[..Min(room, |msg|)]))
            && (|msg| <= room ==> |q| == n)
            && (|msg| > room ==> Segments(mss, |msg| - room, |q| - n))
            && (forall i :: n <= i < |q| ==> q[i].frg == 0)
            && (forall i :: n <= i < |q| - 1 ==> |q[i].data| == mss)
  {
    var ext := Extend(mss, true, queue, msg);
    var rest := msg[ext..];
    assert |rest| == Max0(|msg| - RoomAtEnd(mss, true, queue));
    if rest != [] {
      var count := FragCount(mss, |rest|);
      CountCovers(mss, |rest|);
      assert count == 1 ==> (count - 1) * mss < |rest|;
      PiecesFull(mss, rest, count, true);
      PiecesShape(mss, rest, count, true);
    }
  }

  // ----- receiving

  /** Segments up to and including the first one with `frg == 0`. */
  function RunLen(q: seq<Frag>): (n: nat)
    ensures n <= |q|
    ensures q != [] ==> n > 0
  {
    if q == [] then 0 else if q[0].frg == 0 then 1 else 1 + RunLen(q[1..])
  }

  /** The lengths of those segments, added up as `ikcp_peeksize` does. */
  function RunBytes(q: seq<Frag>): nat {
    if q == [] then 0 else |q[0].data| + if q[0].frg == 0 then 0 else RunBytes(q[1..])
  }

  function PeekSize(q: seq<Frag>): int {
    if q == [] then -1
    else if q[0].frg == 0 then |q[0].data|
    else if |q| < q[0].frg + 1 then -1
    else RunBytes(q)
  }

  /** `ikcp_peeksize` and the merge loop of `ikcp_recv` agree on every queue, well-formed or not: this is the
      `assert(len == peeksize)` of the source. */
  lemma MergeLength(q: seq<Frag>)
    requires PeekSize(q) >= 0
    ensures |Join(q[..RunLen(q)])| == PeekSize(q)
  {
    RunBytesIsJoin(q);
  }

  lemma {:induction false} RunBytesIsJoin(q: seq<Frag>)
    ensures |Join(q[..RunLen(q)])| == RunBytes(q)
  {
    if q != [] {
      var n := RunLen(q);
      assert q[..n][1..] == q[1..][..n - 1];
      RunBytesIsJoin(q[1..]);
    }
  }

  lemma {:induction false} RunLenOfCountdown(fs: seq<Frag>, rest: seq<Frag>)
    requires |fs| >= 1
    requires forall i :: 0 <= i < |fs| ==> fs[i].frg == |fs| - 1 - i
    ensures RunLen(fs + rest) == |fs|
    decreases |fs|
  {
    if |fs| > 1 {
      assert (fs + rest)[1..] == fs[1..] + rest;
      RunLenOfCountdown(fs[1..], rest);
    }
  }

  /** Reassembly inverts fragmentation, whatever is queued behind: the next receive yields the message itself. */
  lemma ReassembleFragment(mss: nat, msg: Bytes, rest: seq<Frag>)
    requires mss > 0 && FragCount(mss, |msg|) < WND_RCV
    ensures var q := Fragment(mss, msg) + rest;
            && PeekSize(q) == |msg|
            && Join(q[..RunLen(q)]) == msg
            && q[RunLen(q)..] == rest
  {
    var fs := Fragment(mss, msg);
    var q := fs + rest;
    FragmentShape(mss, msg);
    RunLenOfCountdown(fs, rest);
    assert q[..|fs|] == fs;
    MergeLength(q);
  }

  /** While some fragment of the first message is missing at the back, nothing is delivered. */
  lemma PartialFragment(mss: nat, msg: Bytes, k: nat)
    requires mss > 0 && FragCount(mss, |msg|) < WND_RCV
    requires k < |Fragment(mss, msg)|
    ensures PeekSize(Fragment(mss, msg)[..k]) == -1
  {
    FragmentShape(mss, msg);
  }

  // ----- sequences of messages

  predicate Sendable(mss: nat, msgs: seq<Bytes>)
    requires mss > 0
  {
    forall i :: 0 <= i < |msgs| ==> FragCount(mss, |msgs[i]|) < WND_RCV
  }

  function FragAll(mss: nat, msgs: seq<Bytes>): seq<Frag>
    requires mss > 0 && Sendable(mss, msgs)
  {
    if msgs == [] then [] else Fragment(mss, msgs[0]) + FragAll(mss, msgs[1..])
  }

  lemma {:induction false} FragAllConcat(mss: nat, ms: seq<Bytes>, ns: seq<Bytes>)
    requires mss > 0 && Sendable(mss, ms) && Sendable(mss, ns)
    ensures Sendable(mss, ms + ns)
    ensures FragAll(mss, ms + ns) == FragAll(mss, ms) + FragAll(mss, ns)
  {
    if ms == [] {
      assert ms + ns == ns;
    } else {
      FragAllConcat(mss, ms[1..], ns);
      assert (ms + ns)[1..] == ms[1..] + ns;
      Assoc(Fragment(mss, ms[0]), FragAll(mss, ms[1..]), FragAll(mss, ns));
    }
  }

  lemma FragAllSnoc(mss: nat, ms: seq<Bytes>, m: Bytes)
    requires mss > 0 && Sendable(mss, ms) && FragCount(mss, |m|) < WND_RCV
    ensures Sendable(mss, ms + [m])
    ensures FragAll(mss, ms + [m]) == FragAll(mss, ms) + Fragment(mss, m)
  {
    FragAllConcat(mss, ms, [m]);
    assert FragAll(mss, [m]) == Fragment(mss, m) + FragAll(mss, []);
  }

  /** `q` is what a receiver holds behind the first `k` messages of `msgs`, all of it cut from `msgs`. */
  predicate HoldsBehind(mss: nat, msgs: seq<Bytes>, k: nat, q: seq<Frag>)
    requires mss > 0 && Sendable(mss, msgs)
  {
    k <= |msgs| && FragAll(mss, msgs[..k]) + q <= FragAll(mss, msgs)
  }

  lemma HeldIsNext(mss: nat, msgs: seq<Bytes>, k: nat, q: seq<Frag>)
    requires mss > 0 && Sendable(mss, msgs) && HoldsBehind(mss, msgs, k, q)
    ensures q <= FragAll(mss, msgs[k..])
  {
    assert msgs == msgs[..k] + msgs[k..];
    FragAllConcat(mss, msgs[..k], msgs[k..]);
    PrefixCancel(FragAll(mss, msgs[..k]), q, FragAll(mss, msgs[k..]));
  }

  lemma NextIncomplete(mss: nat, msgs: seq<Bytes>, k: nat, q: seq<Frag>)
    requires mss > 0 && Sendable(mss, msgs) && HoldsBehind(mss, msgs, k, q)
    requires k < |msgs| ==> |q| < |Fragment(mss, msgs[k])|
    ensures PeekSize(q) == -1
  {
    HeldIsNext(mss, msgs, k, q);
    if k < |msgs| {
      var fs := Fragment(mss, msgs[k]);
      assert FragAll(mss, msgs[k..]) == fs + FragAll(mss, msgs[k..][1..]);
      PartialFragment(mss, msgs[k], |q|);
      assert fs[..|q|] == q;
    }
  }

  lemma NextComplete(mss: nat, msgs: seq<Bytes>, k: nat, q: seq<Frag>)
    requires mss > 0 && Sendable(mss, msgs) && HoldsBehind(mss, msgs, k, q)
    requires k < |msgs| && |q| >= |Fragment(mss, msgs[k])|
    ensures q == Fragment(mss, msgs[k]) + q[|Fragment(mss, msgs[k])|..]
  {
    HeldIsNext(mss, msgs, k, q);
    var fs := Fragment(mss, msgs[k]);
    var todo := FragAll(mss, msgs[k..]);
    assert todo == fs + FragAll(mss, msgs[k..][1..]);
    assert q[..|fs|] == todo[..|fs|] == fs;
  }

  /** The receive side of the message theorem: a receive succeeds exactly when the next message is held completely,
      and in that case it yields that very message and leaves the rest. */
  lemma ReceiveNext(mss: nat, msgs: seq<Bytes>, k: nat, q: seq<Frag>)
    requires mss > 0 && Sendable(mss, msgs) && HoldsBehind(mss, msgs, k, q)
    ensures PeekSize(q) >= 0 <==> k < |msgs| && |q| >= |Fragment(mss, msgs[k])|
    ensures PeekSize(q) >= 0 ==>
              && PeekSize(q) == |msgs[k]|
              && Join(q[..RunLen(q)]) == msgs[k]
              && FragAll(mss, msgs[..k + 1]) + q[RunLen(q)..] == FragAll(mss, msgs[..k]) + q
  {
    if k < |msgs| && |q| >= |Fragment(mss, msgs[k])| {
      var fs := Fragment(mss, msgs[k]);
      NextComplete(mss, msgs, k, q);
      ReassembleFragment(mss, msgs[k], q[|fs|..]);
      FragAllSnoc(mss, msgs[..k], msgs[k]);
      assert msgs[..k + 1] == msgs[..k] + [msgs[k]];
      Assoc(FragAll(mss, msgs[..k]), fs, q[|fs|..]);
    } else {
      NextIncomplete(mss, msgs, k, q);
    }
  }
}
