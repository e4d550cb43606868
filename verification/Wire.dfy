/** The segment as it travels, and the codec that packs many segments into one datagram. */
module Wire {
  import opened Seqs
  import opened Serial

  type Byte = u8
  type Bytes = seq<Byte>

  const CMD_PUSH: u8 := 81
  const CMD_ACK: u8 := 82
  const CMD_WASK: u8 := 83
  const CMD_WINS: u8 := 84
  const OVERHEAD := 24

  /** A wire segment. `sn` and `una` are plain numbers so that the same type serves both widths. */
  datatype Seg = Seg(conv: u32, cmd: u8, frg: u8, wnd: u16, ts: u32, sn: nat, una: nat, data: Bytes)

  predicate KnownCmd(cmd: u8) {
    cmd == CMD_PUSH || cmd == CMD_ACK || cmd == CMD_WASK || cmd == CMD_WINS
  }

  predicate HasCmd(segs: seq<Seg>, cmd: u8) {
    exists i :: 0 <= i < |segs| && segs[i].cmd == cmd
  }

  /** A segment the peer's decoding loop accepts. */
  predicate HeaderOk(conv: u32, s: Seg) {
    s.conv == conv && KnownCmd(s.cmd) && |s.data| < 0x8000_0000
  }

  predicate AllHeaderOk(conv: u32, segs: seq<Seg>) {
    forall i :: 0 <= i < |segs| ==> HeaderOk(conv, segs[i])
  }

  /** ... and whose numbers the header can hold. */
  predicate WireOk(conv: u32, s: Seg) {
    HeaderOk(conv, s) && s.sn < 0x1_0000_0000 && s.una < 0x1_0000_0000
  }

  predicate AllWireOk(conv: u32, segs: seq<Seg>) {
    forall i :: 0 <= i < |segs| ==> WireOk(conv, segs[i])
  }

  // ----- little-endian numbers

  function Le(x: nat, k: nat): (bs: Bytes)
    ensures |bs| == k
  {
    if k == 0 then [] else [x % 256] + Le(x / 256, k - 1)
  }

  function UnLe(bs: Bytes): nat {
    if bs == [] then 0 else bs[0] + 256 * UnLe(bs[1..])
  }

  ghost function Pow256(k: nat): nat {
    if k == 0 then 1 else 256 * Pow256(k - 1)
  }

  lemma {:induction false} UnLeOfLe(x: nat, k: nat)
    requires x < Pow256(k)
    ensures UnLe(Le(x, k)) == x
  {
    if k != 0 {
      UnLeOfLe(x / 256, k - 1);
      assert Le(x, k)[1..] == Le(x / 256, k - 1);
    }
  }

  lemma {:induction false} LeOfUnLe(bs: Bytes)
    ensures UnLe(bs) < Pow256(|bs|)
    ensures Le(UnLe(bs), |bs|) == bs
  {
    if bs != [] {
      LeOfUnLe(bs[1..]);
      assert UnLe(bs) / 256 == UnLe(bs[1..]);
      assert bs == [bs[0]] + bs[1..];
    }
  }

  lemma Widths()
    ensures Pow256(1) == 0x100 && Pow256(2) == 0x1_0000 && Pow256(4) == 0x1_0000_0000
  {
    assert Pow256(3) == 0x100_0000;
  }

  // ----- encoding

  function EncodeHeader(s: Seg): (bs: Bytes)
    ensures |bs| == OVERHEAD
  {
    Le(s.conv, 4) + Le(s.cmd, 1) + Le(s.frg, 1) + Le(s.wnd, 2) +
    Le(s.ts, 4) + Le(s.sn, 4) + Le(s.una, 4) + Le(|s.data|, 4)
  }

  function EncodeSeg(s: Seg): (bs: Bytes)
    ensures |bs| == OVERHEAD + |s.data|
  {
    EncodeHeader(s) + s.data
  }

  function EncodeSegs(segs: seq<Seg>): Bytes {
    if segs == [] then [] else EncodeSeg(segs[0]) + EncodeSegs(segs[1..])
  }

  lemma {:induction false} EncodeSegsConcat(s: seq<Seg>, t: seq<Seg>)
    ensures EncodeSegs(s + t) == EncodeSegs(s) + EncodeSegs(t)
  {
    if s == [] {
      assert s + t == t;
    } else {
      EncodeSegsConcat(s[1..], t);
      assert (s + t)[1..] == s[1..] + t;
      Assoc(EncodeSeg(s[0]), EncodeSegs(s[1..]), EncodeSegs(t));
    }
  }

  lemma EncodeSegsSnoc(segs: seq<Seg>, s: Seg)
    ensures EncodeSegs(segs + [s]) == EncodeSegs(segs) + EncodeSeg(s)
  {
    EncodeSegsConcat(segs, [s]);
    assert EncodeSegs([s]) == EncodeSeg(s) + EncodeSegs([]);
  }

  // ----- decoding

  /** The segment whose 24-byte header starts `bs`, with `len` bytes of payload after it. */
  function DecodeSeg(bs: Bytes): (s: Seg)
    requires |bs| >= OVERHEAD && OVERHEAD + DecodeLen(bs) <= |bs|
  {
    UnLeBounds(bs[0..4]); UnLeBounds(bs[4..5]); UnLeBounds(bs[5..6]); UnLeBounds(bs[6..8]); UnLeBounds(bs[8..12]);
    Seg(UnLe(bs[0..4]), UnLe(bs[4..5]), UnLe(bs[5..6]), UnLe(bs[6..8]), UnLe(bs[8..12]),
        UnLe(bs[12..16]), UnLe(bs[16..20]), bs[OVERHEAD..OVERHEAD + DecodeLen(bs)])
  }

  function DecodeLen(bs: Bytes): (len: u32)
    requires |bs| >= OVERHEAD
  {
    UnLeBounds(bs[20..24]);
    UnLe(bs[20..24])
  }

  lemma UnLeBounds(bs: Bytes)
    ensures |bs| == 1 ==> UnLe(bs) < 0x100
    ensures |bs| == 2 ==> UnLe(bs) < 0x1_0000
    ensures |bs| == 4 ==> UnLe(bs) < 0x1_0000_0000
  {
    LeOfUnLe(bs);
    Widths();
  }

  /** The outcome of decoding a datagram: the segments accepted before the loop stopped, and what it returns. */
  datatype Parsed = Parsed(segs: seq<Seg>, code: int)

  function Parse(conv: u32, bs: Bytes): Parsed {
    if |bs| < OVERHEAD then Parsed([], 0)
    else if UnLe(bs[0..4]) != conv then Parsed([], -1)
    else if |bs| - OVERHEAD < DecodeLen(bs) || DecodeLen(bs) >= 0x8000_0000 then Parsed([], -2)
    else if !KnownCmd(DecodeSeg(bs).cmd) then Parsed([], -3)
    else
      var rest := Parse(conv, bs[OVERHEAD + DecodeLen(bs)..]);
      Parsed([DecodeSeg(bs)] + rest.segs, rest.code)
  }

  lemma HeaderFields(s: Seg)
    ensures var h := EncodeHeader(s);
            && h[0..4] == Le(s.conv, 4) && h[4..5] == Le(s.cmd, 1) && h[5..6] == Le(s.frg, 1) && h[6..8] == Le(s.wnd, 2)
            && h[8..12] == Le(s.ts, 4) && h[12..16] == Le(s.sn, 4) && h[16..20] == Le(s.una, 4)
            && h[20..24] == Le(|s.data|, 4)
  {
  }

  lemma SliceOfPrefix(a: Bytes, b: Bytes, i: nat, j: nat)
    requires i <= j <= |a|
    ensures (a + b)[i..j] == a[i..j]
  {
  }

  lemma DecodeOfEncode(s: Seg, tail: Bytes)
    requires WireOk(s.conv, s)
    ensures DecodeLen(EncodeSeg(s) + tail) == |s.data|
    ensures UnLe((EncodeSeg(s) + tail)[0..4]) == s.conv
    ensures DecodeSeg(EncodeSeg(s) + tail) == s
    ensures (EncodeSeg(s) + tail)[OVERHEAD + |s.data|..] == tail
  {
    var h := EncodeHeader(s);
    var bs := EncodeSeg(s) + tail;
    Assoc(h, s.data, tail);
    HeaderFields(s);
    SliceOfPrefix(h, s.data + tail, 0, 4); SliceOfPrefix(h, s.data + tail, 4, 5);
    SliceOfPrefix(h, s.data + tail, 5, 6); SliceOfPrefix(h, s.data + tail, 6, 8);
    SliceOfPrefix(h, s.data + tail, 8, 12); SliceOfPrefix(h, s.data + tail, 12, 16);
    SliceOfPrefix(h, s.data + tail, 16, 20); SliceOfPrefix(h, s.data + tail, 20, 24);
    Widths();
    UnLeOfLe(s.conv, 4); UnLeOfLe(s.cmd, 1); UnLeOfLe(s.frg, 1); UnLeOfLe(s.wnd, 2);
    UnLeOfLe(s.ts, 4); UnLeOfLe(s.sn, 4); UnLeOfLe(s.una, 4); UnLeOfLe(|s.data|, 4);
    assert bs[OVERHEAD..OVERHEAD + |s.data|] == s.data;
  }

  /** Every datagram (or run of datagrams glued together) decodes to exactly the segments put in. */
  lemma {:induction false} ParseOfEncode(conv: u32, segs: seq<Seg>)
    requires AllWireOk(conv, segs)
    ensures Parse(conv, EncodeSegs(segs)) == Parsed(segs, 0)
  {
    if segs != [] {
      ParseOfEncode(conv, segs[1..]);
      DecodeOfEncode(segs[0], EncodeSegs(segs[1..]));
      assert segs == [segs[0]] + segs[1..];
    }
  }

  lemma JoinSlices(bs: Bytes, i: nat, j: nat, k: nat)
    requires i <= j <= k <= |bs|
    ensures bs[i..j] + bs[j..k] == bs[i..k]
  {
  }

  lemma EncodeOfDecode(bs: Bytes)
    requires |bs| >= OVERHEAD && OVERHEAD + DecodeLen(bs) <= |bs|
    ensures EncodeSeg(DecodeSeg(bs)) + bs[OVERHEAD + DecodeLen(bs)..] == bs
  {
    var s := DecodeSeg(bs);
    LeOfUnLe(bs[0..4]); LeOfUnLe(bs[4..5]); LeOfUnLe(bs[5..6]); LeOfUnLe(bs[6..8]);
    LeOfUnLe(bs[8..12]); LeOfUnLe(bs[12..16]); LeOfUnLe(bs[16..20]); LeOfUnLe(bs[20..24]);
    JoinSlices(bs, 0, 4, 5); JoinSlices(bs, 0, 5, 6); JoinSlices(bs, 0, 6, 8); JoinSlices(bs, 0, 8, 12);
    JoinSlices(bs, 0, 12, 16); JoinSlices(bs, 0, 16, 20); JoinSlices(bs, 0, 20, 24);
    JoinSlices(bs, 0, OVERHEAD, OVERHEAD + DecodeLen(bs));
    JoinSlices(bs, 0, OVERHEAD + DecodeLen(bs), |bs|);
  }

  /** What is wrong with the bytes at which the loop stops: nothing if they are too few for a header; another conversation;
      a length that is negative or more than there is; an unknown command. */
  function Verdict(conv: u32, bs: Bytes): int {
    if |bs| < OVERHEAD then 0
    else if UnLe(bs[0..4]) != conv then -1
    else if UnLe(bs[20..24]) > |bs| - OVERHEAD || UnLe(bs[20..24]) >= 0x8000_0000 then -2
    else if !(81 <= bs[4] <= 84) then -3
    else 1
  }

  lemma StopsAt(conv: u32, bs: Bytes)
    requires Parse(conv, bs).segs == []
    ensures Parse(conv, bs).code == Verdict(conv, bs)
  {
    if |bs| >= OVERHEAD {
      assert UnLe(bs[4..5]) == bs[4] by {
        assert bs[4..5] == [bs[4]];
        assert UnLe([bs[4]]) == bs[4] + 256 * UnLe([]);
      }
    }
  }

  /** The other direction, for arbitrary bytes: whatever the loop accepts re-encodes to the bytes it consumed; it stops at
      the first header that is wrong, says what is wrong with it, and stops cleanly only when fewer than 24 bytes are left
      over. */
  lemma {:induction false} EncodeOfParse(conv: u32, bs: Bytes) returns (tail: Bytes)
    ensures EncodeSegs(Parse(conv, bs).segs) + tail == bs
    ensures AllWireOk(conv, Parse(conv, bs).segs)
    ensures Parse(conv, bs).code == 0 <==> |tail| < OVERHEAD
    ensures Parse(conv, bs).code == Verdict(conv, tail)
    decreases |bs|
  {
    var p := Parse(conv, bs);
    if p.segs == [] {
      tail := bs;
      StopsAt(conv, bs);
    } else {
      var rest := bs[OVERHEAD + DecodeLen(bs)..];
      tail := EncodeOfParse(conv, rest);
      var s := DecodeSeg(bs);
      EncodeOfDecode(bs);
      UnLeBounds(bs[12..16]); UnLeBounds(bs[16..20]);
      assert WireOk(conv, s);
      assert p.segs[1..] == Parse(conv, rest).segs;
      Assoc(EncodeSeg(s), EncodeSegs(p.segs[1..]), tail);
    }
  }

  // ----- packing segments into datagrams of at most `mtu` bytes

  function Size(segs: seq<Seg>): nat {
    |EncodeSegs(segs)|
  }

  /** Datagrams already handed to the output callback, and the segments waiting in the buffer. */
  datatype Packing = Packing(full: seq<seq<Seg>>, pending: seq<Seg>)

  function Close(p: Packing): seq<seq<Seg>> {
    if Size(p.pending) == 0 then p.full else p.full + [p.pending]
  }

  function PackOne(mtu: nat, p: Packing, s: Seg): Packing {
    if Size(p.pending) + OVERHEAD + |s.data| > mtu then Packing(Close(p), [s]) else Packing(p.full, p.pending + [s])
  }

  function PackAll(mtu: nat, segs: seq<Seg>): Packing {
    if segs == [] then Packing([], [])
    else PackOne(mtu, PackAll(mtu, segs[..|segs| - 1]), segs[|segs| - 1])
  }

  function Pack(mtu: nat, segs: seq<Seg>): seq<seq<Seg>> {
    Close(PackAll(mtu, segs))
  }

  /** A datagram the link can carry. */
  predicate FitsIn(mtu: nat, d: seq<Seg>) {
    d != [] && 0 < Size(d) <= mtu
  }

  predicate Fits(mtu: nat, segs: seq<Seg>) {
    forall i :: 0 <= i < |segs| ==> OVERHEAD + |segs[i].data| <= mtu
  }

  predicate AllCarry(mtu: nat, ds: seq<seq<Seg>>) {
    forall i :: 0 <= i < |ds| ==> FitsIn(mtu, ds[i])
  }

  /** What holds of the buffer and of the datagrams handed over so far, having been given `segs`. */
  predicate PackedRight(mtu: nat, p: Packing, segs: seq<Seg>) {
    AllCarry(mtu, p.full) && Size(p.pending) <= mtu && Flatten(p.full) + p.pending == segs
  }

  lemma CloseKeeps(mtu: nat, p: Packing, segs: seq<Seg>)
    requires PackedRight(mtu, p, segs)
    ensures AllCarry(mtu, Close(p)) && Flatten(Close(p)) == segs
  {
    PendingEmpty(p.pending);
    FlattenSnoc(p.full, p.pending);
  }

  lemma PackOneKeeps(mtu: nat, p: Packing, segs: seq<Seg>, s: Seg)
    requires PackedRight(mtu, p, segs) && OVERHEAD + |s.data| <= mtu
    ensures PackedRight(mtu, PackOne(mtu, p, s), segs + [s])
  {
    EncodeSegsSnoc(p.pending, s);
    EncodeSegsSnoc([], s);
    assert [] + [s] == [s];
    if Size(p.pending) + OVERHEAD + |s.data| > mtu {
      CloseKeeps(mtu, p, segs);
    } else {
      Assoc(Flatten(p.full), p.pending, [s]);
    }
  }

  lemma {:induction false} PackAllFits(mtu: nat, segs: seq<Seg>)
    requires Fits(mtu, segs)
    ensures PackedRight(mtu, PackAll(mtu, segs), segs)
  {
    if segs != [] {
      var init, last := segs[..|segs| - 1], segs[|segs| - 1];
      assert segs == init + [last];
      PackAllFits(mtu, init);
      var p := PackAll(mtu, init);
      PackOneKeeps(mtu, p, init, last);
      assert PackAll(mtu, segs) == PackOne(mtu, p, last);
    }
  }

  lemma PendingEmpty(segs: seq<Seg>)
    ensures Size(segs) == 0 <==> segs == []
  {
  }

  /** What `ikcp_flush` emits: every datagram is non-empty and at most `mtu` bytes, and together, in order, the
      datagrams carry exactly the segments it was asked to send. */
  lemma PackFits(mtu: nat, segs: seq<Seg>)
    requires Fits(mtu, segs)
    ensures AllCarry(mtu, Pack(mtu, segs))
    ensures Flatten(Pack(mtu, segs)) == segs
  {
    PackAllFits(mtu, segs);
    CloseKeeps(mtu, PackAll(mtu, segs), segs);
  }

  /** The first segment of `next` did not fit behind `d`. */
  predicate NoRoomFor(mtu: nat, d: seq<Seg>, next: seq<Seg>) {
    next != [] && Size(d) + OVERHEAD + |next[0].data| > mtu
  }

  predicate Tight(mtu: nat, ds: seq<seq<Seg>>) {
    forall i :: 0 < i < |ds| ==> NoRoomFor(mtu, ds[i - 1], ds[i])
  }

  lemma TightSnoc(mtu: nat, ds: seq<seq<Seg>>, d: seq<Seg>)
    requires Tight(mtu, ds) && (ds != [] ==> NoRoomFor(mtu, ds[|ds| - 1], d))
    ensures Tight(mtu, ds + [d])
  {
  }

  lemma PackOneTight(mtu: nat, p: Packing, s: Seg)
    requires Tight(mtu, Close(p)) && (p.pending == [] ==> p.full == []) && OVERHEAD + |s.data| <= mtu
    ensures var q := PackOne(mtu, p, s); Tight(mtu, Close(q)) && q.pending != []
  {
    var q := PackOne(mtu, p, s);
    PendingEmpty(p.pending);
    PendingEmpty(q.pending);
    if q.pending == [s] && q.full == Close(p) {
      TightSnoc(mtu, Close(p), [s]);
    } else if p.pending != [] {
      assert Tight(mtu, p.full) && (p.full != [] ==> NoRoomFor(mtu, p.full[|p.full| - 1], p.pending)) by {
        TightPrefix(mtu, p.full, p.pending);
      }
      assert q.pending[0] == p.pending[0];
      TightSnoc(mtu, p.full, q.pending);
    }
  }

  lemma TightPrefix(mtu: nat, ds: seq<seq<Seg>>, d: seq<Seg>)
    requires Tight(mtu, ds + [d])
    ensures Tight(mtu, ds) && (ds != [] ==> NoRoomFor(mtu, ds[|ds| - 1], d))
  {
    forall i | 0 < i < |ds|
      ensures NoRoomFor(mtu, ds[i - 1], ds[i])
    {
      assert NoRoomFor(mtu, (ds + [d])[i - 1], (ds + [d])[i]);
    }
    if ds != [] {
      assert NoRoomFor(mtu, (ds + [d])[|ds| - 1], (ds + [d])[|ds|]);
    }
  }

  lemma {:induction false} PackAllTight(mtu: nat, segs: seq<Seg>)
    requires Fits(mtu, segs)
    ensures var p := PackAll(mtu, segs); Tight(mtu, Close(p)) && (p.pending == [] ==> p.full == [])
  {
    if segs != [] {
      PackAllTight(mtu, segs[..|segs| - 1]);
      PackOneTight(mtu, PackAll(mtu, segs[..|segs| - 1]), segs[|segs| - 1]);
    }
  }

  /** Datagrams are filled up: none ends before the next segment would no longer fit. */
  lemma PackIsTight(mtu: nat, segs: seq<Seg>)
    requires Fits(mtu, segs)
    ensures Tight(mtu, Pack(mtu, segs))
  {
    PackAllTight(mtu, segs);
  }

  /** Wire round trip of a whole flush: each datagram it emits decodes, at a peer of the same conversation, to its
      own segments, and what the peer gets over all of them is what was flushed, in order. */
  lemma FlushRoundTrip(conv: u32, mtu: nat, segs: seq<Seg>)
    requires AllWireOk(conv, segs) && Fits(mtu, segs)
    ensures Flatten(Pack(mtu, segs)) == segs
    ensures forall i :: 0 <= i < |Pack(mtu, segs)| ==>
              var d := Pack(mtu, segs)[i];
              AllWireOk(conv, d) && Parse(conv, EncodeSegs(d)) == Parsed(d, 0) && 0 < |EncodeSegs(d)| <= mtu
  {
    PackFits(mtu, segs);
    var ds := Pack(mtu, segs);
    forall i | 0 <= i < |ds|
      ensures AllWireOk(conv, ds[i]) && Parse(conv, EncodeSegs(ds[i])) == Parsed(ds[i], 0)
    {
      forall j | 0 <= j < |ds[i]|
        ensures WireOk(conv, ds[i][j])
      {
        InFlatten(ds, i, j);
      }
      ParseOfEncode(conv, ds[i]);
    }
  }

  /** The encodings of a list of datagrams. */
  function EncodeAll(ds: seq<seq<Seg>>): (out: seq<Bytes>)
    ensures |out| == |ds| && forall i :: 0 <= i < |ds| ==> out[i] == EncodeSegs(ds[i])
  {
    seq(|ds|, i requires 0 <= i < |ds| => EncodeSegs(ds[i]))
  }

  lemma EncodeAllSnoc(ds: seq<seq<Seg>>, d: seq<Seg>)
    ensures EncodeAll(ds + [d]) == EncodeAll(ds) + [EncodeSegs(d)]
  {
  }

  /** The same when the network glues any number of datagrams together. */
  lemma {:induction false} GluedRoundTrip(conv: u32, ds: seq<seq<Seg>>)
    requires forall i :: 0 <= i < |ds| ==> AllWireOk(conv, ds[i])
    ensures Parse(conv, Flatten(EncodeAll(ds))) == Parsed(Flatten(ds), 0)
  {
    GluedWireOk(conv, ds);
    GluedBytes(ds);
    ParseOfEncode(conv, Flatten(ds));
  }

  lemma {:induction false} GluedBytes(ds: seq<seq<Seg>>)
    ensures Flatten(EncodeAll(ds)) == EncodeSegs(Flatten(ds))
  {
    if ds != [] {
      var n := |ds| - 1;
      GluedBytes(ds[..n]);
      EncodeSegsConcat(Flatten(ds[..n]), ds[n]);
      assert ds == ds[..n] + [ds[n]];
      EncodeAllSnoc(ds[..n], ds[n]);
      FlattenSnoc(EncodeAll(ds[..n]), EncodeSegs(ds[n]));
    }
  }

  lemma {:induction false} GluedWireOk(conv: u32, ds: seq<seq<Seg>>)
    requires forall i :: 0 <= i < |ds| ==> AllWireOk(conv, ds[i])
    ensures AllWireOk(conv, Flatten(ds))
  {
    if ds != [] {
      GluedWireOk(conv, ds[..|ds| - 1]);
    }
  }
}
