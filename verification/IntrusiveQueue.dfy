/** The circular doubly linked queue of `ikcp.h`, at pointer level. */
module IntrusiveQueue {
  import opened Serial

  /** `struct IQUEUEHEAD`: a list head, or the link inside a segment with header fields `sn` and `frg`. */
  class Node {
    var next: Node?
    var prev: Node?
    var sn: nat
    const frg: nat

    constructor (sn: nat, frg: nat)
      ensures this.sn == sn && this.frg == frg && next == null && prev == null
    {
      this.sn, this.frg, next, prev := sn, frg, null, null;
    }
  }

  /** Following `next` from `head` visits exactly `items` and returns; following `prev` visits them backward. */
  ghost predicate Ring(head: Node, items: seq<Node>)
    reads head`next, head`prev, items`next, items`prev
  {
    && head !in items
    && (forall i, j :: 0 <= i < j < |items| ==> items[i] != items[j])
    && head.next == (if items == [] then head else items[0])
    && head.prev == (if items == [] then head else items[|items| - 1])
    && (forall i {:trigger items[i].next} :: 0 <= i < |items| ==>
          items[i].next == if i + 1 < |items| then items[i + 1] else head)
    && (forall i {:trigger items[i].prev} :: 0 <= i < |items| ==>
          items[i].prev == if i > 0 then items[i - 1] else head)
  }

  /** The node after which position `k` begins. */
  ghost function Before(head: Node, items: seq<Node>, k: nat): Node
    requires k <= |items|
  {
    if k == 0 then head else items[k - 1]
  }

  /** The node at position `k`, or the head if the list ends before it. */
  ghost function NodeAt(head: Node, items: seq<Node>, k: nat): Node {
    if k < |items| then items[k] else head
  }

  ghost function Cut<T>(items: seq<T>, k: nat): seq<T>
    requires k < |items|
  {
    items[..k] + items[k + 1..]
  }

  ghost function With<T>(items: seq<T>, k: nat, x: T): seq<T>
    requires k <= |items|
  {
    items[..k] + [x] + items[k..]
  }

  lemma CutAt<T>(items: seq<T>, k: nat)
    requires k < |items|
    ensures |Cut(items, k)| == |items| - 1
    ensures forall i :: 0 <= i < |items| - 1 ==> Cut(items, k)[i] == items[if i < k then i else i + 1]
  {
  }

  lemma WithAt<T>(items: seq<T>, k: nat, x: T)
    requires k <= |items|
    ensures |With(items, k, x)| == |items| + 1
    ensures forall i :: 0 <= i <= |items| ==>
              With(items, k, x)[i] == if i < k then items[i] else if i == k then x else items[i - 1]
  {
  }

  /** `IQUEUE_INIT` */
  method Init(head: Node)
    modifies head`next, head`prev
    ensures Ring(head, [])
  {
    head.next, head.prev := head, head;
  }

  /** `IQUEUE_IS_EMPTY` */
  method IsEmpty(head: Node, ghost items: seq<Node>) returns (empty: bool)
    requires Ring(head, items)
    ensures empty <==> items == []
  {
    empty := head == head.next;
  }

  /** `IQUEUE_ADD(node, p)`, where `p` is the head or a node of the list. */
  method Add(node: Node, p: Node, ghost head: Node, ghost items: seq<Node>, ghost k: nat)
    requires Ring(head, items) && k <= |items| && p == Before(head, items, k)
    requires node != head && node !in items
    modifies node`next, node`prev, head`next, head`prev, items`next, items`prev
    ensures Ring(head, With(items, k, node))
  {
    ghost var t := With(items, k, node);
    WithAt(items, k, node);
    var n: Node := p.next;
    assert n == NodeAt(head, items, k);
    node.prev := p;
    node.next := n;
    n.prev := node;
    p.next := node;
    forall i | 0 <= i < |t|
      ensures t[i].next == if i + 1 < |t| then t[i + 1] else head
      ensures t[i].prev == if i > 0 then t[i - 1] else head
    {
      assert t[i] == if i < k then items[i] else if i == k then node else items[i - 1];
    }
  }

  /** `IQUEUE_ADD_TAIL(node, head)` */
  method AddTail(node: Node, head: Node, ghost items: seq<Node>)
    requires node != head && node !in items
    requires var linked := Ring(head, items); linked
    modifies node`next, node`prev, head`next, head`prev, items`next, items`prev
    ensures var linked := Ring(head, items + [node]); linked
  {
    var p: Node := head.prev;
    node.prev := p;
    node.next := head;
    p.next := node;
    head.prev := node;
  }

  /** `IQUEUE_DEL` */
  method Del(entry: Node, ghost head: Node, ghost items: seq<Node>, ghost k: nat)
    requires k < |items| && entry == items[k]
    requires var linked := Ring(head, items); linked
    modifies head`next, head`prev, items`next, items`prev
    ensures Ring(head, Cut(items, k))
    ensures entry.next == null && entry.prev == null
  {
    ghost var t := Cut(items, k);
    CutAt(items, k);
    var n: Node := entry.next;
    var p: Node := entry.prev;
    assert n == (if k + 1 < |items| then items[k + 1] else head) && p == (if k > 0 then items[k - 1] else head);
    n.prev := p;
    p.next := n;
    entry.next := null;
    entry.prev := null;
    forall i | 0 <= i < |t|
      ensures t[i].next == if i + 1 < |t| then t[i + 1] else head
      ensures t[i].prev == if i > 0 then t[i - 1] else head
    {
      assert t[i] == items[if i < k then i else i + 1];
    }
  }

  // ----- the loops that search while walking, as positions in the list of numbers

  /** These nodes carry these numbers. */
  ghost predicate Carry(items: seq<Node>, sns: seq<nat>)
    reads items`sn
  {
    |sns| == |items| && forall i :: 0 <= i < |items| ==> items[i].sn == sns[i]
  }

  function Frgs(items: seq<Node>): (s: seq<nat>)
    ensures |s| == |items| && forall i :: 0 <= i < |items| ==> s[i] == items[i].frg
  {
    seq(|items|, i requires 0 <= i < |items| => items[i].frg)
  }

  /** How many segments the first message takes: up to and including the first `frg` that is 0. */
  function MessageLen(frgs: seq<nat>): (k: nat)
    ensures k <= |frgs|
  {
    if frgs == [] then 0 else if frgs[0] == 0 then 1 else 1 + MessageLen(frgs[1..])
  }

  /** How many numbers at the front are before `una`. */
  function CountBefore(sns: seq<nat>, una: nat): (k: nat)
    ensures k <= |sns|
  {
    if sns != [] && Diff(W32, una, sns[0]) > 0 then 1 + CountBefore(sns[1..], una) else 0
  }

  /** The first position of `sn`, looking no further than the first later number; the length if there is none. */
  function FindAcked(sns: seq<nat>, sn: nat): (k: nat)
    ensures k <= |sns|
  {
    if sns == [] || sn == sns[0] then 0
    else if Diff(W32, sn, sns[0]) < 0 then |sns|
    else 1 + FindAcked(sns[1..], sn)
  }

  datatype Spot = Repeated | At(k: nat)

  /** Where a new segment `sn` goes, searching from the back. */
  function FindSpot(sns: seq<nat>, sn: nat): (r: Spot)
    ensures r.At? ==> r.k <= |sns|
  {
    if sns == [] then At(0)
    else
      var n := |sns| - 1;
      if sns[n] == sn then Repeated
      else if Diff(W32, sn, sns[n]) > 0 then At(|sns|)
      else FindSpot(sns[..n], sn)
  }

  // ----- the loops themselves

  /** The list without the numbers at its front that are before `una`. */
  ghost function Unacknowledged(items: seq<Node>, sns: seq<nat>, una: nat): seq<Node>
    requires |sns| == |items|
  {
    items[CountBefore(sns, una)..]
  }

  lemma {:induction false} CountBeforeNext(sns: seq<nat>, una: nat, k: nat)
    requires k <= CountBefore(sns, una)
    ensures k < CountBefore(sns, una) <==> k < |sns| && Diff(W32, una, sns[k]) > 0
  {
    if k > 0 {
      CountBeforeNext(sns[1..], una, k - 1);
    }
  }

  /** What is left of the list after the first `k` nodes have been walked over, and taken unless the caller only peeks. */
  ghost function Left(items: seq<Node>, ispeek: bool, k: nat): seq<Node>
    requires k <= |items|
  {
    if ispeek then items else items[k..]
  }

  lemma FirstLeft(head: Node, items: seq<Node>, ispeek: bool)
    requires var linked := Ring(head, items); linked
    ensures head.next == NodeAt(head, items, 0)
    ensures var linked := Ring(head, Left(items, ispeek, 0)); linked
  {
    assert items[0..] == items;
  }

  lemma NextLeft(head: Node, items: seq<Node>, ispeek: bool, k: nat)
    requires k < |items|
    requires var linked := Ring(head, Left(items, ispeek, k)); linked
    ensures items[k].next == NodeAt(head, items, k + 1) && items[k] != head
  {
    var left, i := Left(items, ispeek, k), if ispeek then k else 0;
    assert left[i] == items[k];
    assert left[i].next == NodeAt(head, left, i + 1);
  }

  /** Unlinks the node the walk has come to, unless the caller only peeks. */
  method DropNext(node: Node, head: Node, ispeek: bool, ghost items: seq<Node>, ghost k: nat)
    requires k < |items| && node == items[k]
    requires var linked := Ring(head, Left(items, ispeek, k)); linked
    modifies head`next, head`prev, items`next, items`prev
    ensures var linked := Ring(head, Left(items, ispeek, k + 1)); linked
  {
    if !ispeek {
      Del(node, head, items[k..], 0);
      assert Cut(items[k..], 0) == items[k + 1..];
    }
  }

  /** The loop of `ikcp_parse_una`: unlinks while it walks, and stops at the first number not before `una`. Like all loops
      here it keeps the counter of its list up to date. */
  method DropBefore(head: Node, una: nat, len: nat, ghost items: seq<Node>, ghost sns: seq<nat>) returns (len': nat)
    requires len == |items| && Carry(items, sns)
    requires var linked := Ring(head, items); linked
    modifies head`next, head`prev, items`next, items`prev
    ensures len' == |Unacknowledged(items, sns, una)|
    ensures var linked := Ring(head, Unacknowledged(items, sns, una)); linked
  {
    ghost var k := 0;
    len' := len;
    FirstLeft(head, items, false);
    var p: Node := head.next;
    while p != head
      invariant k <= CountBefore(sns, una) && len' == len - k && p == NodeAt(head, items, k)
      invariant var linked := Ring(head, Left(items, false, k)); linked
      decreases |items| - k
    {
      NextLeft(head, items, false, k);
      CountBeforeNext(sns, una, k);
      var next: Node := p.next;
      if Diff(W32, una, p.sn) > 0 {
        DropNext(p, head, false, items, k);
        len' := len' - 1;
        k := k + 1;
      } else {
        break;
      }
      p := next;
    }
    CountBeforeNext(sns, una, k);
  }

  /** The first message goes on at position `k`, or begins there. */
  ghost predicate GoesOn(frgs: seq<nat>, k: nat) {
    k <= |frgs| && MessageLen(frgs) == k + MessageLen(frgs[k..])
  }

  lemma GoesOnNext(frgs: seq<nat>, k: nat)
    requires k < |frgs|
    requires var on := GoesOn(frgs, k); on
    ensures frgs[k] == 0 ==> MessageLen(frgs) == k + 1
    ensures var on := GoesOn(frgs, k + 1); frgs[k] != 0 ==> on
  {
    assert frgs[k..][1..] == frgs[k + 1..];
  }

  lemma GoesOnStart(frgs: seq<nat>)
    ensures var on := GoesOn(frgs, 0); on
  {
    assert frgs[0..] == frgs;
  }

  lemma GoesOnEnd(frgs: seq<nat>)
    requires var on := GoesOn(frgs, |frgs|); on
    ensures MessageLen(frgs) == |frgs|
  {
  }

  /** What a receive leaves of the list. */
  ghost function Untaken(items: seq<Node>, ispeek: bool): seq<Node> {
    Left(items, ispeek, MessageLen(Frgs(items)))
  }

  /** The merge loop of `ikcp_recv`: steps to the next node before it unlinks this one, and when it only peeks it
      leaves the list alone. */
  method DropMessage(head: Node, ispeek: bool, len: nat, ghost items: seq<Node>) returns (len': nat)
    requires len == |items|
    requires var linked := Ring(head, items); linked
    modifies head`next, head`prev, items`next, items`prev
    ensures len' == |Untaken(items, ispeek)|
    ensures var linked := Ring(head, Untaken(items, ispeek)); linked
  {
    ghost var k, frgs := 0, Frgs(items);
    len' := len;
    FirstLeft(head, items, ispeek);
    GoesOnStart(frgs);
    var p: Node := head.next;
    while p != head
      invariant k <= |items| && len' == (if ispeek then len else len - k) && p == NodeAt(head, items, k)
      invariant var on := GoesOn(frgs, k); on
      invariant var linked := Ring(head, Left(items, ispeek, k)); linked
      decreases |items| - k
    {
      NextLeft(head, items, ispeek, k);
      GoesOnNext(frgs, k);
      var node: Node := p;
      p := p.next;
      DropNext(node, head, ispeek, items, k);
      if !ispeek {
        len' := len' - 1;
      }
      k := k + 1;
      if node.frg == 0 {
        return;
      }
    }
    GoesOnEnd(frgs);
  }

  /** The list without the node `ikcp_parse_ack` finds. */
  ghost function Acked(items: seq<Node>, sns: seq<nat>, sn: nat): seq<Node>
    requires |sns| == |items|
  {
    var k := FindAcked(sns, sn); if k < |items| then Cut(items, k) else items
  }

  /** The loop of `ikcp_parse_ack`: unlinks the node numbered `sn`, if it is found before a later number. */
  method DropAcked(head: Node, sn: nat, len: nat, ghost items: seq<Node>, ghost sns: seq<nat>) returns (len': nat)
    requires len == |items| && Carry(items, sns)
    requires var linked := Ring(head, items); linked
    modifies head`next, head`prev, items`next, items`prev
    ensures len' == |Acked(items, sns, sn)|
    ensures var linked := Ring(head, Acked(items, sns, sn)); linked
  {
    ghost var k := 0;
    len' := len;
    var p: Node := head.next;
    assert sns[0..] == sns;
    while p != head
      invariant k <= |items| && Ring(head, items) && p == NodeAt(head, items, k)
      invariant FindAcked(sns, sn) == k + FindAcked(sns[k..], sn)
      decreases |items| - k
    {
      var next: Node := p.next;
      assert sns[k..][1..] == sns[k + 1..] && p.sn == sns[k];
      if sn == p.sn {
        Del(p, head, items, k);
        return len - 1;
      }
      if Diff(W32, sn, p.sn) < 0 {
        break;
      }
      k := k + 1;
      p := next;
    }
  }

  /** The list with a node numbered `sn` placed, unless its number is there already. */
  ghost function Placed(items: seq<Node>, sns: seq<nat>, node: Node, sn: nat): seq<Node>
    requires |sns| == |items|
  {
    var spot := FindSpot(sns, sn); if spot.Repeated? then items else With(items, spot.k, node)
  }

  /** The backward search of `ikcp_parse_data` and the insertion behind the node found. */
  method Place(head: Node, node: Node, len: nat, ghost items: seq<Node>, ghost sns: seq<nat>)
    returns (repeat: bool, len': nat)
    requires len == |items| && Carry(items, sns) && node != head && node !in items
    requires var linked := Ring(head, items); linked
    modifies node`next, node`prev, head`next, head`prev, items`next, items`prev
    ensures repeat <==> FindSpot(sns, node.sn).Repeated?
    ensures len' == |Placed(items, sns, node, node.sn)|
    ensures var linked := Ring(head, Placed(items, sns, node, node.sn)); linked
  {
    ghost var k := |items|;
    var p: Node := head.prev;
    assert sns[..|items|] == sns;
    while p != head
      invariant 0 <= k <= |items| && Ring(head, items) && p == Before(head, items, k)
      invariant FindSpot(sns, node.sn) == FindSpot(sns[..k], node.sn)
      decreases k
    {
      assert sns[..k][..k - 1] == sns[..k - 1] && p.sn == sns[k - 1];
      if p.sn == node.sn {
        return true, len;
      }
      if Diff(W32, node.sn, p.sn) > 0 {
        break;
      }
      p := p.prev;
      k := k - 1;
    }
    Add(node, p, head, items, k);
    repeat, len' := false, len + 1;
  }

  /** Two lists without a node in common. */
  ghost predicate Apart(h: Node, s: seq<Node>, h': Node, s': seq<Node>) {
    h != h' && h !in s' && h' !in s && forall i, j :: 0 <= i < |s| && 0 <= j < |s'| ==> s[i] != s'[j]
  }

  /** Unlink the first node of one list and append it to another, as the flush and receive loops do. */
  method MoveFront(from: Node, to: Node, ghost a: seq<Node>, ghost b: seq<Node>)
    requires a != []
    requires Ring(from, a) && Ring(to, b) && Apart(from, a, to, b)
    modifies from`next, from`prev, a`next, a`prev, to`next, to`prev, b`next, b`prev
    ensures Apart(from, a[1..], to, b + [a[0]])
    ensures var linked := Ring(from, a[1..]); linked
    ensures var linked := Ring(to, b + [a[0]]); linked
  {
    ApartMoved(from, a, to, b);
    var node := TakeFront(from, to, a, b);
    AddTail(node, to, b);
  }

  method TakeFront(from: Node, to: Node, ghost a: seq<Node>, ghost b: seq<Node>) returns (node: Node)
    requires a != []
    requires Ring(from, a) && Ring(to, b) && Apart(from, a, to, b)
    modifies from`next, from`prev, a`next, a`prev
    ensures node == a[0]
    ensures var linked := Ring(from, a[1..]); linked
    ensures var linked := Ring(to, b); linked
  {
    node := from.next;
    Del(node, from, a, 0);
    assert Cut(a, 0) == a[1..];
  }

  lemma ApartMoved(from: Node, a: seq<Node>, to: Node, b: seq<Node>)
    requires Apart(from, a, to, b) && a != [] && from !in a
    requires forall i, j :: 0 <= i < j < |a| ==> a[i] != a[j]
    ensures Apart(from, a[1..], to, b + [a[0]])
    ensures a[0] !in b && a[0] != to && a[0] !in a[1..]
  {
    forall i, j | 0 <= i < |a[1..]| && 0 <= j < |b + [a[0]]|
      ensures a[1..][i] != (b + [a[0]])[j]
    {
      assert a[1..][i] == a[i + 1];
    }
  }

  /** The first `k` nodes of `a` have moved behind `b`. */
  ghost predicate MovedSoFar(from: Node, to: Node, a: seq<Node>, b: seq<Node>, k: nat)
    requires k <= |a|
    reads from`next, from`prev, to`next, to`prev, a`next, a`prev, b`next, b`prev
  {
    Ring(from, a[k..]) && Ring(to, b + a[..k]) && Apart(from, a[k..], to, b + a[..k])
  }

  lemma MovedStart(from: Node, to: Node, a: seq<Node>, b: seq<Node>)
    requires Ring(from, a) && Ring(to, b) && Apart(from, a, to, b)
    ensures MovedSoFar(from, to, a, b, 0)
  {
    assert a[0..] == a && b + a[..0] == b;
  }

  lemma FrontIsNext(from: Node, to: Node, a: seq<Node>, b: seq<Node>, k: nat)
    requires k <= |a|
    requires var moves := MovedSoFar(from, to, a, b, k); moves
    ensures from.next == if k < |a| then a[k] else from
    ensures k < |a| ==> a[k] != from
  {
    if k < |a| {
      assert a[k..][0] == a[k];
    }
  }

  method MoveNext(from: Node, to: Node, ghost a: seq<Node>, ghost b: seq<Node>, ghost k: nat)
    requires k < |a|
    requires var moves := MovedSoFar(from, to, a, b, k); moves
    modifies from`next, from`prev, a`next, a`prev, to`next, to`prev, b`next, b`prev
    ensures var moves := MovedSoFar(from, to, a, b, k + 1); moves
  {
    assert a[k..][1..] == a[k + 1..] && (b + a[..k]) + [a[k..][0]] == b + a[..k + 1];
    MoveFront(from, to, a[k..], b + a[..k]);
  }

  /** After `k` steps the moving loop goes on exactly while it has not come to the end of what is in order. */
  lemma {:induction false} InOrderNext(sns: seq<nat>, nxt: u32, len: nat, wnd: nat, k: nat, nxt': u32)
    requires k <= InOrder(sns, nxt, len, wnd) && nxt' == Forward(nxt, k)
    ensures k < InOrder(sns, nxt, len, wnd) <==> k < |sns| && sns[k] == nxt' && len + k < wnd
    ensures U32(nxt' + 1) == Forward(nxt, k + 1)
  {
    if k == 0 {
      assert Forward(U32(nxt + 1), 0) == U32(nxt + 1);
    } else {
      InOrderNext(sns[1..], U32(nxt + 1), len + 1, wnd, k - 1, nxt');
    }
  }

  /** The loop that moves segments received in order from `rcv_buf` to `rcv_queue`. */
  method MoveReceived(buf: Node, queue: Node, nxt: u32, wnd: nat, bufLen: nat, len: nat,
                      ghost a: seq<Node>, ghost b: seq<Node>, ghost sns: seq<nat>)
    returns (nxt': u32, bufLen': nat, len': nat)
    requires bufLen == |a| && Carry(a, sns)
    requires var starts := MovedSoFar(buf, queue, a, b, 0); starts
    modifies buf`next, buf`prev, a`next, a`prev, queue`next, queue`prev, b`next, b`prev
    ensures var m := InOrder(sns, nxt, len, wnd); nxt' == Forward(nxt, m) && bufLen' == |a| - m && len' == len + m
    ensures var m := InOrder(sns, nxt, len, wnd); var moves := MovedSoFar(buf, queue, a, b, m); moves
  {
    ghost var k := 0;
    ghost var m := InOrder(sns, nxt, len, wnd);
    nxt', bufLen', len' := nxt, bufLen, len;
    while buf.next != buf
      invariant k <= m <= |a| && nxt' == Forward(nxt, k) && bufLen' == |a| - k && len' == len + k
      invariant var moves := MovedSoFar(buf, queue, a, b, k); moves
      decreases |a| - k
    {
      InOrderNext(sns, nxt, len, wnd, k, nxt');
      FrontIsNext(buf, queue, a, b, k);
      var node: Node := buf.next;
      if node.sn != nxt' || len' >= wnd {
        break;
      }
      MoveNext(buf, queue, a, b, k);
      nxt', bufLen', len' := U32(nxt' + 1), bufLen' - 1, len' + 1;
      k := k + 1;
    }
    InOrderNext(sns, nxt, len, wnd, k, nxt');
    FrontIsNext(buf, queue, a, b, k);
  }

  function Forward(nxt: u32, m: nat): u32
    decreases m
  {
    if m == 0 then nxt else Forward(U32(nxt + 1), m - 1)
  }

  /** How many numbers at the front continue `nxt`, as far as there is room. */
  function InOrder(sns: seq<nat>, nxt: u32, len: nat, wnd: nat): (m: nat)
    ensures m <= |sns|
  {
    if sns != [] && sns[0] == nxt && len < wnd then 1 + InOrder(sns[1..], U32(nxt + 1), len + 1, wnd) else 0
  }

  /** How many of `len` queued segments the window takes in, from number `nxt` on and up to `limit`. */
  function Fitting(len: nat, nxt: u32, limit: u32): (m: nat)
    ensures m <= len
  {
    if len > 0 && Diff(W32, nxt, limit) < 0 then 1 + Fitting(len - 1, U32(nxt + 1), limit) else 0
  }

  lemma {:induction false} FittingNext(len: nat, nxt: u32, limit: u32, k: nat, nxt': u32)
    requires k <= Fitting(len, nxt, limit) && nxt' == Forward(nxt, k)
    ensures k < Fitting(len, nxt, limit) <==> k < len && Diff(W32, nxt', limit) < 0
    ensures U32(nxt' + 1) == Forward(nxt, k + 1)
  {
    if k == 0 {
      assert Forward(U32(nxt + 1), 0) == U32(nxt + 1);
    } else {
      FittingNext(len - 1, U32(nxt + 1), limit, k - 1, nxt');
    }
  }

  ghost predicate Distinct(items: seq<Node>) {
    forall i, j :: 0 <= i < j < |items| ==> items[i] != items[j]
  }

  lemma StartsDistinct(from: Node, to: Node, a: seq<Node>, b: seq<Node>)
    requires var starts := MovedSoFar(from, to, a, b, 0); starts
    ensures Distinct(a)
  {
    assert a[0..] == a;
  }

  /** The numbers after the first `k` have been given out anew, from `nxt` on. */
  ghost function Renumbered(sns: seq<nat>, nxt: u32, k: nat): (r: seq<nat>)
    requires k <= |sns|
    ensures |r| == |sns| && forall i :: 0 <= i < |sns| ==> r[i] == if i < k then Forward(nxt, i) else sns[i]
  {
    seq(|sns|, i requires 0 <= i < |sns| => if i < k then Forward(nxt, i) else sns[i])
  }

  method SetNumber(node: Node, sn: nat, ghost items: seq<Node>, ghost sns: seq<nat>, ghost k: nat)
    requires k < |items| && node == items[k]
    requires var distinct := Distinct(items); distinct
    requires var carry := Carry(items, sns); carry
    modifies node`sn
    ensures var carry := Carry(items, sns[k := sn]); carry
  {
    node.sn := sn;
  }

  /** `IQUEUE_IS_EMPTY` for the list moved from. */
  method AllMoved(from: Node, to: Node, ghost a: seq<Node>, ghost b: seq<Node>, ghost k: nat) returns (empty: bool)
    requires k <= |a|
    requires var moves := MovedSoFar(from, to, a, b, k); moves
    ensures empty <==> k == |a|
  {
    FrontIsNext(from, to, a, b, k);
    empty := from == from.next;
  }

  /** One turn of the loop that follows: move a node and number it. */
  method MoveNumbered(queue: Node, buf: Node, nxt: u32, sn: u32,
                      ghost a: seq<Node>, ghost b: seq<Node>, ghost sns: seq<nat>, ghost k: nat)
    requires k < |a| == |sns|
    requires var next := sn == Forward(nxt, k); next
    requires var distinct := Distinct(a); distinct
    requires var carry := Carry(a, Renumbered(sns, nxt, k)); carry
    requires var moves := MovedSoFar(queue, buf, a, b, k); moves
    modifies queue`next, queue`prev, a`next, a`prev, a`sn, buf`next, buf`prev, b`next, b`prev
    ensures var carry := Carry(a, Renumbered(sns, nxt, k + 1)); carry
    ensures var moves := MovedSoFar(queue, buf, a, b, k + 1); moves
  {
    var node: Node := queue.next;
    assert node == a[k..][0];
    MoveNext(queue, buf, a, b, k);
    SetNumber(node, sn, a, Renumbered(sns, nxt, k), k);
    RenumberedNext(sns, nxt, k);
  }

  lemma RenumberedNext(sns: seq<nat>, nxt: u32, k: nat)
    requires k < |sns|
    ensures Renumbered(sns, nxt, k)[k := Forward(nxt, k)] == Renumbered(sns, nxt, k + 1)
  {
  }

  /** After `k` turns: no more than fit have moved, and the counters and the next number say so. */
  ghost predicate Counted(len: nat, bufLen: nat, nxt: u32, limit: u32, k: nat, len': nat, bufLen': nat, nxt': u32) {
    k <= Fitting(len, nxt, limit) && nxt' == Forward(nxt, k) && len' == len - k && bufLen' == bufLen + k
  }

  lemma CountedOne(len: nat, bufLen: nat, nxt: u32, limit: u32, k: nat, len': nat, bufLen': nat, nxt': u32)
    requires var counted := Counted(len, bufLen, nxt, limit, k, len', bufLen', nxt'); counted
    requires k < len && Diff(W32, nxt', limit) < 0
    ensures len' > 0
    ensures var next := nxt' == Forward(nxt, k); next
    ensures var counted := Counted(len, bufLen, nxt, limit, k + 1, len' - 1, bufLen' + 1, U32(nxt' + 1)); counted
  {
    FittingNext(len, nxt, limit, k, nxt');
  }

  lemma CountedAll(len: nat, bufLen: nat, nxt: u32, limit: u32, k: nat, len': nat, bufLen': nat, nxt': u32)
    requires var counted := Counted(len, bufLen, nxt, limit, k, len', bufLen', nxt'); counted
    requires k == len || Diff(W32, nxt', limit) >= 0
    ensures k == Fitting(len, nxt, limit)
    ensures var counts := nxt' == Forward(nxt, k) && len' == len - k && bufLen' == bufLen + k; counts
  {
    FittingNext(len, nxt, limit, k, nxt');
  }

  /** The loop of a flush that moves segments from `snd_queue` to `snd_buf` while the window has room, and numbers them. */
  method MoveQueued(queue: Node, buf: Node, nxt: u32, limit: u32, len: nat, bufLen: nat,
                    ghost a: seq<Node>, ghost b: seq<Node>, ghost sns: seq<nat>)
    returns (nxt': u32, len': nat, bufLen': nat)
    requires len == |a| == |sns|
    requires var carry := Carry(a, sns); carry
    requires var starts := MovedSoFar(queue, buf, a, b, 0); starts
    modifies queue`next, queue`prev, a`next, a`prev, a`sn, buf`next, buf`prev, b`next, b`prev
    ensures var m := Fitting(|a|, nxt, limit);
            var counts := nxt' == Forward(nxt, m) && len' == |a| - m && bufLen' == bufLen + m; counts
    ensures var m := Fitting(|a|, nxt, limit); var carry := Carry(a, Renumbered(sns, nxt, m)); carry
    ensures var m := Fitting(|a|, nxt, limit); var moves := MovedSoFar(queue, buf, a, b, m); moves
  {
    ghost var k := 0;
    nxt', len', bufLen' := nxt, len, bufLen;
    StartsDistinct(queue, buf, a, b);
    RenumberedNone(sns, nxt);
    while Diff(W32, nxt', limit) < 0
      invariant k <= |a|
      invariant var counted := Counted(len, bufLen, nxt, limit, k, len', bufLen', nxt'); counted
      invariant var carry := Carry(a, Renumbered(sns, nxt, k)); carry
      invariant var moves := MovedSoFar(queue, buf, a, b, k); moves
      decreases |a| - k
    {
      var empty := AllMoved(queue, buf, a, b, k);
      if empty {
        break;
      }
      CountedOne(len, bufLen, nxt, limit, k, len', bufLen', nxt');
      MoveNumbered(queue, buf, nxt, nxt', a, b, sns, k);
      nxt', len', bufLen' := U32(nxt' + 1), len' - 1, bufLen' + 1;
      k := k + 1;
    }
    CountedAll(len, bufLen, nxt, limit, k, len', bufLen', nxt');
  }

  lemma RenumberedNone(sns: seq<nat>, nxt: u32)
    ensures Renumbered(sns, nxt, 0) == sns
  {
  }

  /** Stream mode replaces the last queued node by a longer one: append the new, then unlink the old. */
  method ReplaceTail(head: Node, node: Node, ghost items: seq<Node>)
    requires Ring(head, items) && items != [] && node != head && node !in items
    modifies node`next, node`prev, head`next, head`prev, items`next, items`prev
    ensures Ring(head, items[..|items| - 1] + [node])
  {
    var last: Node := head.prev;
    AddTail(node, head, items);
    Del(last, head, items + [node], |items| - 1);
    assert Cut(items + [node], |items| - 1) == items[..|items| - 1] + [node];
  }
}
