/** Two endpoints joined by a network that loses, duplicates and reorders: the state machine and its runs. */
module TwoEndpoints {
  import opened Serial
  import opened Wire
  import opened Fragments
  import opened ControlBlock

  /** An endpoint with its history. `accepted` are the messages for which `ikcp_send` returned 0, `taken` all bytes it
      has queued, `refused` whether it ever returned an error; `sent` are the fragments numbered so far, `read` those
      handed to the application as the messages `delivered`; `out` are the datagrams emitted, ever. */
  datatype Ep = Ep(cb: Cb, accepted: seq<Bytes>, taken: Bytes, refused: bool, sent: seq<Frag>,
                   read: seq<Frag>, delivered: seq<Bytes>, out: seq<seq<Seg>>)

  datatype World = World(a: Ep, b: Ep)

  /** What can happen at an endpoint: an API call, or the arrival of the peer's `i`-th datagram. As any `i` may be
      chosen at any time, datagrams get lost, duplicated, delayed and reordered at will. */
  datatype Act =
    | SendMsg(msg: Bytes)
    | Receive(len: int)
    | Update(now: u32)
    | FlushNow
    | Deliver(i: nat)
    | WndSize(snd: i32, rcv: i32)
    | NoDelay(nodelay: i32, interval: i32, resend: i32, nc: i32)
    | Interval(ms: i32)

  datatype Step = AtA(act: Act) | AtB(act: Act)

  function NewEp(cb: Cb): Ep {
    Ep(cb, [], [], false, [], [], [], [])
  }

  function SendEp(me: Ep, msg: Bytes): Ep
    requires me.cb.conf.Ok()
  {
    var r := Send(me.cb.conf.Mss(), me.cb.conf.stream, me.cb.snd.queue, msg);
    var me1 := me.(cb := DoSend(me.cb, msg).0, taken := me.taken + msg[..Min(r.taken, |msg|)]);
    if r.code == 0 then me1.(accepted := me.accepted + [msg]) else me1.(refused := true)
  }

  function ReceiveEp(w: Width, me: Ep, len: int): Ep {
    var (cb, code, data) := DoRecv(w, me.cb, len);
    if code < 0 || len < 0 then me.(cb := cb)
    else me.(cb := cb, delivered := me.delivered + [data],
             read := me.read + me.cb.rcv.queue[..RunLen(me.cb.rcv.queue)])
  }

  function FlushEp(w: Width, me: Ep): Ep
    requires me.cb.conf.Ok()
  {
    var cb := DoFlush(w, me.cb);
    var left := |me.cb.snd.queue| - |cb.snd.queue|;
    me.(cb := cb,
        sent := me.sent + me.cb.snd.queue[..if left >= 0 then left else 0],
        out := me.out + Pack(me.cb.conf.mtu, FlushSegs(w, me.cb)))
  }

  function UpdateEp(w: Width, me: Ep, now: u32): Ep
    requires me.cb.conf.Ok()
  {
    var me1 := me.(cb := Ticked(me.cb, now));
    if Tick(me.cb.clock, now).1 then FlushEp(w, me1) else me1
  }

  /** Over unbounded numbers a datagram is its segments; over 32 bits it is their encoding. */
  function InputCb(w: Width, cb: Cb, d: seq<Seg>): Cb
    requires cb.conf.Ok()
  {
    match w
    case W32 => InputBytes(cb, EncodeSegs(d)).0
    case Exact => InputSegs(Exact, cb, d)
  }

  function ActEp(w: Width, me: Ep, net: seq<seq<Seg>>, act: Act): (me': Ep)
    requires me.cb.conf.Ok()
  {
    match act
    case SendMsg(msg) => SendEp(me, msg)
    case Receive(len) => ReceiveEp(w, me, len)
    case Update(now) => UpdateEp(w, me, now)
    case FlushNow => FlushEp(w, me)
    case Deliver(i) => if i < |net| then me.(cb := InputCb(w, me.cb, net[i])) else me
    case WndSize(snd, rcv) => me.(cb := DoWndSize(me.cb, snd, rcv))
    case NoDelay(nodelay, interval, resend, nc) => me.(cb := DoNoDelay(me.cb, nodelay, interval, resend, nc))
    case Interval(ms) => me.(cb := DoInterval(me.cb, ms))
  }

  lemma ActKeepsConf(w: Width, me: Ep, net: seq<seq<Seg>>, act: Act)
    requires me.cb.conf.Ok()
    ensures var conf := ActEp(w, me, net, act).cb.conf;
            conf.Ok() && conf.conv == me.cb.conf.conv && conf.mtu == me.cb.conf.mtu && conf.stream == me.cb.conf.stream
  {
    if act.Deliver? && act.i < |net| {
      InputAllConf(w, me.cb, net[act.i]);
      InputAllConf(w, me.cb, Parse(me.cb.conf.conv, EncodeSegs(net[act.i])).segs);
    }
  }

  /** Both ends, with the same conversation number and each its own datagram size and mode. */
  datatype Setup = Setup(conv: u32, mtuA: nat, streamA: bool, mtuB: nat, streamB: bool) {
    predicate Ok() {
      50 <= mtuA < 0x8000_0000 && 50 <= mtuB < 0x8000_0000
    }
  }

  predicate ConfsOk(s: Setup, x: World) {
    && x.a.cb.conf.Ok() && x.a.cb.conf.conv == s.conv && x.a.cb.conf.mtu == s.mtuA && x.a.cb.conf.stream == s.streamA
    && x.b.cb.conf.Ok() && x.b.cb.conf.conv == s.conv && x.b.cb.conf.mtu == s.mtuB && x.b.cb.conf.stream == s.streamB
  }

  function Start(s: Setup): World {
    World(NewEp(Create(s.conv, s.mtuA, s.streamA)), NewEp(Create(s.conv, s.mtuB, s.streamB)))
  }

  function StepWorld(w: Width, x: World, step: Step): World
    requires x.a.cb.conf.Ok() && x.b.cb.conf.Ok()
  {
    match step
    case AtA(act) => x.(a := ActEp(w, x.a, x.b.out, act))
    case AtB(act) => x.(b := ActEp(w, x.b, x.a.out, act))
  }

  /** The state reached by a run. */
  function Run(w: Width, s: Setup, steps: seq<Step>): (x: World)
    requires s.Ok()
    ensures ConfsOk(s, x)
  {
    if steps == [] then Start(s)
    else
      var x := Run(w, s, steps[..|steps| - 1]);
      var step := steps[|steps| - 1];
      ActKeepsConf(w, x.a, x.b.out, step.act);
      ActKeepsConf(w, x.b, x.a.out, step.act);
      StepWorld(w, x, step)
  }
}
