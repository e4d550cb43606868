/** The four queues of a control block at pointer level, with their counters. */
module Queues {
  import opened Serial
  import opened IntrusiveQueue

  // ----- several lists

  ghost predicate AllApart(heads: seq<Node>, lists: seq<seq<Node>>) {
    |heads| == |lists| &&
    forall q, r :: 0 <= q < |heads| && 0 <= r < |heads| && q != r ==> Apart(heads[q], lists[q], heads[r], lists[r])
  }

  ghost function NodesOf(lists: seq<seq<Node>>): set<Node> {
    set q, i | 0 <= q < |lists| && 0 <= i < |lists[q]| :: lists[q][i]
  }

  /** Several lists, no two with a node in common. */
  ghost predicate Partitioned(heads: seq<Node>, lists: seq<seq<Node>>)
    reads heads`next, heads`prev, NodesOf(lists)`next, NodesOf(lists)`prev
  {
    AllApart(heads, lists) && forall q :: 0 <= q < |heads| ==> Ring(heads[q], lists[q])
  }

  /** A list may lose nodes. */
  lemma LessApart(heads: seq<Node>, lists: seq<seq<Node>>, q: nat, s: seq<Node>)
    requires AllApart(heads, lists) && q < |heads| && forall n :: n in s ==> n in lists[q]
    ensures AllApart(heads, lists[q := s])
  {
    var t := lists[q := s];
    forall i, j | 0 <= i < |heads| && 0 <= j < |heads| && i != j
      ensures Apart(heads[i], t[i], heads[j], t[j])
    {
      ApartLess(heads[i], lists[i], heads[j], lists[j], t[i], t[j]);
    }
  }

  lemma ApartLess(h: Node, s: seq<Node>, h': Node, s': seq<Node>, t: seq<Node>, t': seq<Node>)
    requires Apart(h, s, h', s') && (forall n :: n in t ==> n in s) && (forall n :: n in t' ==> n in s')
    ensures Apart(h, t, h', t')
  {
    forall i, j | 0 <= i < |t| && 0 <= j < |t'|
      ensures t[i] != t'[j]
    {
      assert t[i] in s && t'[j] in s';
    }
  }

  /** A list may gain a node that is nowhere else. */
  lemma MoreApart(heads: seq<Node>, lists: seq<seq<Node>>, q: nat, s: seq<Node>, node: Node)
    requires AllApart(heads, lists) && q < |heads| && forall n :: n in s ==> n in lists[q] || n == node
    requires Unlinked(heads, lists, node)
    ensures AllApart(heads, lists[q := s])
  {
    var t := lists[q := s];
    forall i, j | 0 <= i < |heads| && 0 <= j < |heads| && i != j
      ensures Apart(heads[i], t[i], heads[j], t[j])
    {
      ApartMore(heads[i], lists[i], heads[j], lists[j], t[i], t[j], node);
    }
  }

  lemma ApartMore(h: Node, s: seq<Node>, h': Node, s': seq<Node>, t: seq<Node>, t': seq<Node>, node: Node)
    requires Apart(h, s, h', s') && node != h && node != h' && node !in s && node !in s'
    requires forall n :: n in t ==> n in s || n == node
    requires forall n :: n in t' ==> n in s' || n == node
    requires node !in t || node !in t'
    ensures Apart(h, t, h', t')
  {
    forall i, j | 0 <= i < |t| && 0 <= j < |t'|
      ensures t[i] != t'[j]
    {
      assert t[i] in t && t'[j] in t';
    }
  }

  ghost predicate Unlinked(heads: seq<Node>, lists: seq<seq<Node>>, node: Node) {
    node !in heads && forall q :: 0 <= q < |lists| ==> node !in lists[q]
  }

  /** The first `m` nodes of list `q` moved behind list `r`. */
  ghost function Shifted(lists: seq<seq<Node>>, q: nat, r: nat, m: nat): seq<seq<Node>>
    requires q < |lists| && r < |lists| && m <= |lists[q]|
  {
    lists[q := lists[q][m..]][r := lists[r] + lists[q][..m]]
  }

  lemma ShiftedAt(lists: seq<seq<Node>>, q: nat, r: nat, m: nat)
    requires q < |lists| && r < |lists| && q != r && m <= |lists[q]|
    ensures var t := Shifted(lists, q, r, m);
            && |t| == |lists| && |t[q]| == |lists[q]| - m && |t[r]| == |lists[r]| + m
            && forall i :: 0 <= i < |lists| && i != q && i != r ==> t[i] == lists[i]
  {
  }

  lemma ShiftedApart(heads: seq<Node>, lists: seq<seq<Node>>, q: nat, r: nat, m: nat)
    requires AllApart(heads, lists) && q < |heads| && r < |heads| && q != r && m <= |lists[q]|
    requires Apart(heads[q], lists[q][m..], heads[r], lists[r] + lists[q][..m])
    ensures AllApart(heads, Shifted(lists, q, r, m))
  {
    var t := Shifted(lists, q, r, m);
    forall i, j | 0 <= i < |heads| && 0 <= j < |heads| && i != j
      ensures Apart(heads[i], t[i], heads[j], t[j])
    {
      assert Apart(heads[i], lists[i], heads[j], lists[j]);
      assert i != q ==> Apart(heads[q], lists[q], heads[i], lists[i]);
      assert j != q ==> Apart(heads[q], lists[q], heads[j], lists[j]);
      assert lists[q] == lists[q][..m] + lists[q][m..];
    }
  }

  /** A node is in at most one of the lists, and there only once. */
  lemma InOneList(heads: seq<Node>, lists: seq<seq<Node>>, q: nat, i: nat, r: nat, j: nat)
    requires Partitioned(heads, lists) && q < |lists| && i < |lists[q]| && r < |lists| && j < |lists[r]|
    ensures lists[q][i] == lists[r][j] <==> q == r && i == j
    ensures lists[q][i] !in heads
  {
    if q != r {
      assert Apart(heads[q], lists[q], heads[r], lists[r]);
    }
    forall k | 0 <= k < |heads|
      ensures lists[q][i] != heads[k]
    {
      assert k != q ==> Apart(heads[q], lists[q], heads[k], lists[k]);
    }
  }

  /** Each loop and each single operation keeps the partition, whatever other lists there are. */
  method UnaFrom(q: nat, head: Node, una: nat, len: nat,
                 ghost heads: seq<Node>, ghost lists: seq<seq<Node>>, ghost sns: seq<nat>)
    returns (len': nat)
    requires var parted := Partitioned(heads, lists); parted
    requires q < |heads| == |lists| && head == heads[q] && len == |lists[q]| == |sns|
    requires var carry := Carry(lists[q], sns); carry
    modifies head`next, head`prev, lists[q]`next, lists[q]`prev
    ensures len' == |Unacknowledged(lists[q], sns, una)|
    ensures var parted := Partitioned(heads, lists[q := Unacknowledged(lists[q], sns, una)]); parted
  {
    LessApart(heads, lists, q, Unacknowledged(lists[q], sns, una));
    len' := DropBefore(head, una, len, lists[q], sns);
  }

  method AckFrom(q: nat, head: Node, sn: nat, len: nat,
                 ghost heads: seq<Node>, ghost lists: seq<seq<Node>>, ghost sns: seq<nat>)
    returns (len': nat)
    requires var parted := Partitioned(heads, lists); parted
    requires q < |heads| == |lists| && head == heads[q] && len == |lists[q]| == |sns|
    requires var carry := Carry(lists[q], sns); carry
    modifies head`next, head`prev, lists[q]`next, lists[q]`prev
    ensures len' == |Acked(lists[q], sns, sn)|
    ensures var parted := Partitioned(heads, lists[q := Acked(lists[q], sns, sn)]); parted
  {
    LessApart(heads, lists, q, Acked(lists[q], sns, sn));
    len' := DropAcked(head, sn, len, lists[q], sns);
  }

  method PlaceIn(q: nat, head: Node, node: Node, len: nat,
                 ghost heads: seq<Node>, ghost lists: seq<seq<Node>>, ghost sns: seq<nat>)
    returns (repeat: bool, len': nat)
    requires var parted := Partitioned(heads, lists); parted
    requires q < |heads| == |lists| && head == heads[q] && len == |lists[q]| == |sns| && Unlinked(heads, lists, node)
    requires var carry := Carry(lists[q], sns); carry
    modifies head`next, head`prev, node`next, node`prev, lists[q]`next, lists[q]`prev
    ensures repeat <==> FindSpot(sns, node.sn).Repeated?
    ensures len' == |Placed(lists[q], sns, node, node.sn)|
    ensures var parted := Partitioned(heads, lists[q := Placed(lists[q], sns, node, node.sn)]); parted
  {
    MoreApart(heads, lists, q, Placed(lists[q], sns, node, node.sn), node);
    repeat, len' := Place(head, node, len, lists[q], sns);
  }

  method AppendTo(q: nat, head: Node, node: Node, ghost heads: seq<Node>, ghost lists: seq<seq<Node>>)
    requires var parted := Partitioned(heads, lists); parted
    requires q < |heads| == |lists| && head == heads[q] && Unlinked(heads, lists, node)
    modifies head`next, head`prev, node`next, node`prev, lists[q]`next, lists[q]`prev
    ensures var parted := Partitioned(heads, lists[q := lists[q] + [node]]); parted
  {
    MoreApart(heads, lists, q, lists[q] + [node], node);
    AddTail(node, head, lists[q]);
  }

  /** The list with its last node replaced. */
  ghost function WithTail(items: seq<Node>, node: Node): seq<Node>
    requires items != []
  {
    items[..|items| - 1] + [node]
  }

  method ExtendIn(q: nat, head: Node, node: Node, ghost heads: seq<Node>, ghost lists: seq<seq<Node>>)
    requires var parted := Partitioned(heads, lists); parted
    requires q < |heads| == |lists| && head == heads[q] && Unlinked(heads, lists, node) && lists[q] != []
    modifies head`next, head`prev, node`next, node`prev, lists[q]`next, lists[q]`prev
    ensures var parted := Partitioned(heads, lists[q := WithTail(lists[q], node)]); parted
  {
    MoreApart(heads, lists, q, WithTail(lists[q], node), node);
    ReplaceTail(head, node, lists[q]);
  }

  method ReceiveBetween(q: nat, r: nat, buf: Node, queue: Node, nxt: u32, wnd: nat, bufLen: nat, len: nat,
                        ghost heads: seq<Node>, ghost lists: seq<seq<Node>>, ghost sns: seq<nat>)
    returns (nxt': u32, bufLen': nat, len': nat)
    requires var parted := Partitioned(heads, lists); parted
    requires q < |heads| == |lists| && r < |heads| && q != r
    requires buf == heads[q] && queue == heads[r] && bufLen == |lists[q]| == |sns|
    requires var carry := Carry(lists[q], sns); carry
    modifies buf`next, buf`prev, lists[q]`next, lists[q]`prev, queue`next, queue`prev, lists[r]`next, lists[r]`prev
    ensures var m := InOrder(sns, nxt, len, wnd);
            nxt' == Forward(nxt, m) && bufLen' == bufLen - m && len' == len + m
    ensures var parted := Partitioned(heads, Shifted(lists, q, r, InOrder(sns, nxt, len, wnd))); parted
  {
    MovedStart(buf, queue, lists[q], lists[r]);
    nxt', bufLen', len' := MoveReceived(buf, queue, nxt, wnd, bufLen, len, lists[q], lists[r], sns);
    ShiftedApart(heads, lists, q, r, InOrder(sns, nxt, len, wnd));
  }

  method FillBetween(q: nat, r: nat, queue: Node, buf: Node, nxt: u32, limit: u32, len: nat, bufLen: nat,
                     ghost heads: seq<Node>, ghost lists: seq<seq<Node>>, ghost sns: seq<nat>)
    returns (nxt': u32, len': nat, bufLen': nat)
    requires var parted := Partitioned(heads, lists); parted
    requires q < |heads| == |lists| && r < |heads| && q != r
    requires queue == heads[q] && buf == heads[r] && len == |lists[q]| == |sns|
    requires var carry := Carry(lists[q], sns); carry
    modifies queue`next, queue`prev, lists[q]`next, lists[q]`prev, lists[q]`sn
    modifies buf`next, buf`prev, lists[r]`next, lists[r]`prev
    ensures var m := Fitting(len, nxt, limit);
            var counts := nxt' == Forward(nxt, m) && len' == len - m && bufLen' == bufLen + m; counts
    ensures var carry := Carry(lists[q], Renumbered(sns, nxt, Fitting(len, nxt, limit))); carry
    ensures var parted := Partitioned(heads, Shifted(lists, q, r, Fitting(len, nxt, limit))); parted
  {
    MovedStart(queue, buf, lists[q], lists[r]);
    nxt', len', bufLen' := MoveQueued(queue, buf, nxt, limit, len, bufLen, lists[q], lists[r], sns);
    ShiftedApart(heads, lists, q, r, Fitting(len, nxt, limit));
  }

  method TakeFrom(q: nat, head: Node, ispeek: bool, len: nat, ghost heads: seq<Node>, ghost lists: seq<seq<Node>>)
    returns (len': nat)
    requires var parted := Partitioned(heads, lists); parted
    requires q < |heads| == |lists| && head == heads[q] && len == |lists[q]|
    modifies head`next, head`prev, lists[q]`next, lists[q]`prev
    ensures len' == |Untaken(lists[q], ispeek)|
    ensures var parted := Partitioned(heads, lists[q := Untaken(lists[q], ispeek)]); parted
  {
    LessApart(heads, lists, q, Untaken(lists[q], ispeek));
    len' := DropMessage(head, ispeek, len, lists[q]);
  }

  // ----- the four of them

  method InitFour(a: Node, b: Node, c: Node, d: Node)
    requires a != b && a != c && a != d && b != c && b != d && c != d
    modifies a`next, a`prev, b`next, b`prev, c`next, c`prev, d`next, d`prev
    ensures var parted := Partitioned([a, b, c, d], [[], [], [], []]); parted
  {
    Init(a);
    Init(b);
    Init(c);
    Init(d);
  }

  const SND_QUEUE := 0
  const RCV_QUEUE := 1
  const SND_BUF := 2
  const RCV_BUF := 3

  class Lists {
    const sndQueue: Node
    const rcvQueue: Node
    const sndBuf: Node
    const rcvBuf: Node
    var nsndQue: nat
    var nrcvQue: nat
    var nsndBuf: nat
    var nrcvBuf: nat
    ghost var lists: seq<seq<Node>>

    ghost function Heads(): (heads: seq<Node>)
      ensures |heads| == 4
    {
      [sndQueue, rcvQueue, sndBuf, rcvBuf]
    }

    /** Every node linked anywhere is in exactly one of the four lists, and the counters are their lengths. */
    ghost predicate Valid()
      reads this, Heads()`next, Heads()`prev, NodesOf(lists)`next, NodesOf(lists)`prev
    {
      && Partitioned(Heads(), lists)
      && nsndQue == |lists[SND_QUEUE]| && nrcvQue == |lists[RCV_QUEUE]|
      && nsndBuf == |lists[SND_BUF]| && nrcvBuf == |lists[RCV_BUF]|
    }

    /** `ikcp_create`, as far as the queues go. */
    constructor ()
      ensures var valid := Valid(); valid
      ensures lists == [[], [], [], []]
    {
      sndQueue := new Node(0, 0);
      rcvQueue := new Node(0, 0);
      sndBuf := new Node(0, 0);
      rcvBuf := new Node(0, 0);
      nsndQue, nrcvQue, nsndBuf, nrcvBuf := 0, 0, 0, 0;
      lists := [[], [], [], []];
      new;
      InitFour(sndQueue, rcvQueue, sndBuf, rcvBuf);
    }

    /** A new segment at the end of `snd_queue`. */
    method Enqueue(node: Node)
      requires Valid() && Unlinked(Heads(), lists, node)
      modifies this, node`next, node`prev, sndQueue`next, sndQueue`prev, lists[SND_QUEUE]`next, lists[SND_QUEUE]`prev
      ensures var valid := Valid(); valid
      ensures lists == old(lists)[SND_QUEUE := old(lists)[SND_QUEUE] + [node]]
    {
      AppendTo(SND_QUEUE, sndQueue, node, Heads(), lists);
      nsndQue := nsndQue + 1;
      lists := lists[SND_QUEUE := lists[SND_QUEUE] + [node]];
    }

    /** Stream mode: the longer copy takes the place of the last queued segment. */
    method Extend(node: Node)
      requires Valid() && Unlinked(Heads(), lists, node) && lists[SND_QUEUE] != []
      modifies this, node`next, node`prev, sndQueue`next, sndQueue`prev, lists[SND_QUEUE]`next, lists[SND_QUEUE]`prev
      ensures var valid := Valid(); valid
      ensures lists == old(lists)[SND_QUEUE := WithTail(old(lists)[SND_QUEUE], node)]
    {
      ExtendIn(SND_QUEUE, sndQueue, node, Heads(), lists);
      lists := lists[SND_QUEUE := WithTail(lists[SND_QUEUE], node)];
    }

    /** `ikcp_parse_una` */
    method ParseUna(una: nat, ghost sns: seq<nat>)
      requires Valid()
      requires var carry := Carry(lists[SND_BUF], sns); carry
      modifies this, sndBuf`next, sndBuf`prev, lists[SND_BUF]`next, lists[SND_BUF]`prev
      ensures var valid := Valid(); valid
      ensures lists == old(lists)[SND_BUF := Unacknowledged(old(lists)[SND_BUF], sns, una)]
    {
      ghost var t := Unacknowledged(lists[SND_BUF], sns, una);
      nsndBuf := UnaFrom(SND_BUF, sndBuf, una, nsndBuf, Heads(), lists, sns);
      lists := lists[SND_BUF := t];
    }

    /** `ikcp_parse_ack` */
    method ParseAck(sn: nat, ghost sns: seq<nat>)
      requires Valid()
      requires var carry := Carry(lists[SND_BUF], sns); carry
      modifies this, sndBuf`next, sndBuf`prev, lists[SND_BUF]`next, lists[SND_BUF]`prev
      ensures var valid := Valid(); valid
      ensures lists == old(lists)[SND_BUF := Acked(old(lists)[SND_BUF], sns, sn)]
    {
      ghost var t := Acked(lists[SND_BUF], sns, sn);
      nsndBuf := AckFrom(SND_BUF, sndBuf, sn, nsndBuf, Heads(), lists, sns);
      lists := lists[SND_BUF := t];
    }

    /** The insertion of `ikcp_parse_data`. */
    method PlaceNew(node: Node, ghost sns: seq<nat>) returns (repeat: bool)
      requires Valid() && Unlinked(Heads(), lists, node)
      requires var carry := Carry(lists[RCV_BUF], sns); carry
      modifies this, node`next, node`prev, rcvBuf`next, rcvBuf`prev, lists[RCV_BUF]`next, lists[RCV_BUF]`prev
      ensures repeat <==> FindSpot(sns, node.sn).Repeated?
      ensures var valid := Valid(); valid
      ensures lists == old(lists)[RCV_BUF := Placed(old(lists)[RCV_BUF], sns, node, node.sn)]
    {
      ghost var t := Placed(lists[RCV_BUF], sns, node, node.sn);
      repeat, nrcvBuf := PlaceIn(RCV_BUF, rcvBuf, node, nrcvBuf, Heads(), lists, sns);
      lists := lists[RCV_BUF := t];
    }

    /** The merge loop of `ikcp_recv`. */
    method TakeMessage(ispeek: bool)
      requires Valid()
      modifies this, rcvQueue`next, rcvQueue`prev, lists[RCV_QUEUE]`next, lists[RCV_QUEUE]`prev
      ensures var valid := Valid(); valid
      ensures lists == old(lists)[RCV_QUEUE := Untaken(old(lists)[RCV_QUEUE], ispeek)]
    {
      ghost var t := Untaken(lists[RCV_QUEUE], ispeek);
      nrcvQue := TakeFrom(RCV_QUEUE, rcvQueue, ispeek, nrcvQue, Heads(), lists);
      lists := lists[RCV_QUEUE := t];
    }

    /** The loop from `rcv_buf` to `rcv_queue`, of `ikcp_parse_data` and `ikcp_recv`. */
    method Receive(nxt: u32, wnd: nat, ghost sns: seq<nat>) returns (nxt': u32)
      requires Valid()
      requires var carry := Carry(lists[RCV_BUF], sns); carry
      modifies this, rcvBuf`next, rcvBuf`prev, lists[RCV_BUF]`next, lists[RCV_BUF]`prev, rcvQueue`next, rcvQueue`prev
      modifies lists[RCV_QUEUE]`next, lists[RCV_QUEUE]`prev
      ensures var valid := Valid(); valid
      ensures var m := InOrder(sns, nxt, |old(lists)[RCV_QUEUE]|, wnd);
              nxt' == Forward(nxt, m) && lists == Shifted(old(lists), RCV_BUF, RCV_QUEUE, m)
    {
      ghost var m := InOrder(sns, nxt, nrcvQue, wnd);
      ghost var after := Shifted(lists, RCV_BUF, RCV_QUEUE, m);
      ShiftedAt(lists, RCV_BUF, RCV_QUEUE, m);
      var buf, que;
      nxt', buf, que := ReceiveBetween(RCV_BUF, RCV_QUEUE, rcvBuf, rcvQueue, nxt, wnd, nrcvBuf, nrcvQue, Heads(), lists, sns);
      SetReceive(que, buf, after);
    }

    /** The loop of a flush from `snd_queue` to `snd_buf`: the nodes moved get the numbers from `snd_nxt` on, and no other
        node's number changes. */
    method Fill(nxt: u32, limit: u32, ghost sns: seq<nat>) returns (nxt': u32)
      requires Valid()
      requires var carry := Carry(lists[SND_QUEUE], sns); carry
      modifies this, sndQueue`next, sndQueue`prev, lists[SND_QUEUE]`next, lists[SND_QUEUE]`prev, lists[SND_QUEUE]`sn
      modifies sndBuf`next, sndBuf`prev, lists[SND_BUF]`next, lists[SND_BUF]`prev
      ensures var valid := Valid(); valid
      ensures var s := old(lists)[SND_QUEUE];
              var carry := Carry(s, Renumbered(sns, nxt, Fitting(|s|, nxt, limit))); carry
      ensures var m := Fitting(|old(lists)[SND_QUEUE]|, nxt, limit);
              nxt' == Forward(nxt, m) && lists == Shifted(old(lists), SND_QUEUE, SND_BUF, m)
    {
      ghost var m := Fitting(nsndQue, nxt, limit);
      ghost var after := Shifted(lists, SND_QUEUE, SND_BUF, m);
      ShiftedAt(lists, SND_QUEUE, SND_BUF, m);
      var que, buf;
      nxt', que, buf := FillBetween(SND_QUEUE, SND_BUF, sndQueue, sndBuf, nxt, limit, nsndQue, nsndBuf, Heads(), lists, sns);
      SetSend(que, buf, after);
    }

    /** The new counters of the sending side. */
    method SetSend(que: nat, buf: nat, ghost after: seq<seq<Node>>)
      requires |after| == 4 && que == |after[SND_QUEUE]| && buf == |after[SND_BUF]|
      requires nrcvQue == |after[RCV_QUEUE]| && nrcvBuf == |after[RCV_BUF]|
      requires var parted := Partitioned(Heads(), after); parted
      modifies `nsndQue, `nsndBuf, `lists
      ensures lists == after
      ensures var valid := Valid(); valid
    {
      nsndQue, nsndBuf := que, buf;
      lists := after;
    }

    /** The new counters of the receiving side. */
    method SetReceive(que: nat, buf: nat, ghost after: seq<seq<Node>>)
      requires |after| == 4 && que == |after[RCV_QUEUE]| && buf == |after[RCV_BUF]|
      requires nsndQue == |after[SND_QUEUE]| && nsndBuf == |after[SND_BUF]|
      requires var parted := Partitioned(Heads(), after); parted
      modifies `nrcvQue, `nrcvBuf, `lists
      ensures lists == after
      ensures var valid := Valid(); valid
    {
      nrcvQue, nrcvBuf := que, buf;
      lists := after;
    }
  }
}
