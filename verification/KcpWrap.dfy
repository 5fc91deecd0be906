/** The 32-bit endpoint simulates the unbounded one: as long as the numbers that are
    compared differ by less than 2^31 in truth, reducing an unbounded state modulo 2^32
    and stepping it in 32 bits is stepping it first and reducing afterwards.  The
    correspondence holds across any number of wraps. */
module KcpWrap {
  import opened Circular
  import opened KcpState
  import opened KcpWindows
  import opened KcpInvariants
  import S = KcpSpec

  // ---------------------------------------------------------------- reduction

  function WrapPacket(p: Packet): Packet { p.(sn := U32(p.sn), una := U32(p.una)) }

  function WrapSent(s: Sent): Sent { s.(pkt := WrapPacket(s.pkt)) }

  function WrapPackets(ps: seq<Packet>): (qs: seq<Packet>)
    ensures |qs| == |ps| && forall i :: 0 <= i < |ps| ==> qs[i] == WrapPacket(ps[i])
  {
    seq(|ps|, i requires 0 <= i < |ps| => WrapPacket(ps[i]))
  }

  function WrapBuf(buf: seq<Sent>): (b: seq<Sent>)
    ensures |b| == |buf| && forall i :: 0 <= i < |buf| ==> b[i] == WrapSent(buf[i])
  {
    seq(|buf|, i requires 0 <= i < |buf| => WrapSent(buf[i]))
  }

  function WrapAcks(acks: seq<Ack>): (b: seq<Ack>)
    ensures |b| == |acks| && forall i :: 0 <= i < |acks| ==> b[i] == acks[i].(sn := U32(acks[i].sn))
  {
    seq(|acks|, i requires 0 <= i < |acks| => acks[i].(sn := U32(acks[i].sn)))
  }

  function WrapSender(s: Sender): Sender {
    Sender(U32(s.una), U32(s.nxt), s.queue, WrapBuf(s.buf))
  }

  function WrapReceiver(r: Receiver): Receiver {
    Receiver(U32(r.nxt), WrapPackets(r.queue), WrapPackets(r.buf), WrapAcks(r.acks))
  }

  function WrapEndpoint(e: Endpoint): Endpoint {
    e.(snd := WrapSender(e.snd), rcv := WrapReceiver(e.rcv))
  }

  // ---------------------------------------------------------------- comparisons

  /** True values that circular comparison orders correctly. */
  predicate Comparable(x: int, y: int) { -HALF <= x - y < HALF }

  /** `x` is comparable with both ends of a window, hence with everything inside. */
  predicate InReach(x: int, lo: int, hi: int) { Comparable(x, lo) && Comparable(x, hi) }

  lemma SameOrder(x: int, y: int)
    requires Comparable(x, y)
    ensures Diff(Wrap32, U32(x), U32(y)) == Diff(Unbounded, x, y)
    ensures U32(x) == U32(y) <==> x == y
  {
    DiffOfNorms(Wrap32, x, y);
    NormEqual(Wrap32, x, y);
  }

  // ---------------------------------------------------------------- sender

  lemma {:induction false} DropBelowWraps(buf: seq<Sent>, una: int)
    requires forall i :: 0 <= i < |buf| ==> Comparable(una, buf[i].pkt.sn)
    ensures S.DropBelow(Wrap32, WrapBuf(buf), U32(una)) == WrapBuf(S.DropBelow(Unbounded, buf, una))
  {
    if |buf| == 0 {
    } else {
      SameOrder(una, buf[0].pkt.sn);
      assert WrapBuf(buf)[1..] == WrapBuf(buf[1..]);
      if Diff(Unbounded, una, buf[0].pkt.sn) > 0 {
        DropBelowWraps(buf[1..], una);
      }
    }
  }

  lemma WrapFirst(x: Sent, buf: seq<Sent>)
    ensures WrapBuf([x] + buf) == [WrapSent(x)] + WrapBuf(buf)
  {
  }

  lemma {:induction false} RemoveSnWraps(buf: seq<Sent>, sn: int)
    requires forall i :: 0 <= i < |buf| ==> Comparable(sn, buf[i].pkt.sn)
    ensures S.RemoveSn(Wrap32, WrapBuf(buf), U32(sn)) == WrapBuf(S.RemoveSn(Unbounded, buf, sn))
  {
    hide U32;
    hide Diff;
    hide WrapBuf;
    if |buf| == 0 {
      assert WrapBuf(buf) == [];
    } else {
      SameOrder(sn, buf[0].pkt.sn);
      WrapFirst(buf[0], buf[1..]);
      WrapFirst(buf[0], S.RemoveSn(Unbounded, buf[1..], sn));
      assert buf == [buf[0]] + buf[1..];
      RemoveSnWraps(buf[1..], sn);
    }
  }

  lemma {:induction false} CountSkipsWraps(buf: seq<Sent>, sn: int)
    requires forall i :: 0 <= i < |buf| ==> Comparable(sn, buf[i].pkt.sn)
    ensures S.CountSkips(Wrap32, WrapBuf(buf), U32(sn)) == WrapBuf(S.CountSkips(Unbounded, buf, sn))
  {
    if |buf| == 0 {
    } else {
      SameOrder(sn, buf[0].pkt.sn);
      assert WrapBuf(buf)[1..] == WrapBuf(buf[1..]);
      CountSkipsWraps(buf[1..], sn);
      var s := buf[0];
      var t := if sn != s.pkt.sn then s.(fastack := U32(s.fastack + 1)) else s;
      assert WrapBuf([t] + S.CountSkips(Unbounded, buf[1..], sn))
          == [WrapSent(t)] + WrapBuf(S.CountSkips(Unbounded, buf[1..], sn));
    }
  }

  /** Everything in `snd_buf` is comparable with what the sender's window can reach. */
  lemma BufferComparable(sndWnd: int, s: Sender, x: int)
    requires SenderOk(Unbounded, sndWnd, s) && sndWnd < HALF / 2 && InReach(x, s.una, s.nxt)
    ensures forall i :: 0 <= i < |s.buf| ==> Comparable(x, s.buf[i].pkt.sn)
  {
    forall i | 0 <= i < |s.buf| ensures Comparable(x, s.buf[i].pkt.sn) {
      assert 0 <= Off(Unbounded, s.una, SentSns(s.buf)[i]) < Off(Unbounded, s.una, s.nxt);
    }
  }

  lemma ParseUnaWraps(sndWnd: int, s: Sender, una: int)
    requires SenderOk(Unbounded, sndWnd, s) && sndWnd < HALF / 2 && InReach(una, s.una, s.nxt)
    ensures var w := WrapSender(s);
            S.Shrink(w.(buf := S.DropBelow(Wrap32, w.buf, U32(una))))
              == WrapSender(S.Shrink(s.(buf := S.DropBelow(Unbounded, s.buf, una))))
  {
    BufferComparable(sndWnd, s, una);
    DropBelowWraps(s.buf, una);
  }

  lemma ParseAckWraps(sndWnd: int, s: Sender, sn: int)
    requires SenderOk(Unbounded, sndWnd, s) && sndWnd < HALF / 2 && InReach(sn, s.una, s.nxt)
    ensures S.Shrink(S.ParseAck(Wrap32, WrapSender(s), U32(sn))) == WrapSender(S.Shrink(S.ParseAck(Unbounded, s, sn)))
  {
    BufferComparable(sndWnd, s, sn);
    SameOrder(sn, s.una);
    SameOrder(sn, s.nxt);
    RemoveSnWraps(s.buf, sn);
  }

  lemma ParseFastackWraps(sndWnd: int, s: Sender, sn: int)
    requires SenderOk(Unbounded, sndWnd, s) && sndWnd < HALF / 2 && InReach(sn, s.una, s.nxt)
    ensures S.ParseFastack(Wrap32, WrapSender(s), U32(sn)) == WrapSender(S.ParseFastack(Unbounded, s, sn))
  {
    BufferComparable(sndWnd, s, sn);
    SameOrder(sn, s.una);
    SameOrder(sn, s.nxt);
    CountSkipsWraps(s.buf, sn);
  }

  // ---------------------------------------------------------------- receiver

  lemma {:induction false} InsertWraps(buf: seq<Packet>, p: Packet)
    requires forall i :: 0 <= i < |buf| ==> Comparable(p.sn, buf[i].sn)
    ensures S.Insert(Wrap32, WrapPackets(buf), WrapPacket(p)) == WrapPackets(S.Insert(Unbounded, buf, p))
    decreases |buf|
  {
    if |buf| > 0 {
      var init, last := buf[..|buf| - 1], buf[|buf| - 1];
      SameOrder(p.sn, last.sn);
      assert WrapPackets(buf)[..|buf| - 1] == WrapPackets(init);
      InsertWraps(init, p);
      assert WrapPackets(S.Insert(Unbounded, init, p) + [last])
          == WrapPackets(S.Insert(Unbounded, init, p)) + [WrapPacket(last)];
      assert WrapPackets(buf + [p]) == WrapPackets(buf) + [WrapPacket(p)];
    } else {
      assert WrapPackets([p]) == [WrapPacket(p)];
    }
  }

  lemma {:induction false} MoveReadyWraps(rcvWnd: int, r: Receiver)
    requires ReceiverOk(Unbounded, rcvWnd, r) && 0 < rcvWnd < HALF
    ensures S.MoveReady(Wrap32, rcvWnd, WrapReceiver(r)) == WrapReceiver(S.MoveReady(Unbounded, rcvWnd, r))
    decreases |r.buf|
  {
    if |r.buf| == 0 {
    } else {
      assert 0 <= Off(Unbounded, r.nxt, PacketSns(r.buf)[0]) < rcvWnd;
      SameOrder(r.buf[0].sn, r.nxt);
      if r.buf[0].sn == r.nxt && |r.queue| < rcvWnd {
        var t := r.(nxt := r.nxt + 1, queue := r.queue + [r.buf[0]], buf := r.buf[1..]);
        MoveOneKeepsReceiver(Unbounded, rcvWnd, r, t);
        MoveReadyWraps(rcvWnd, t);
        U32Plus(r.nxt, 1);
        assert WrapPackets(t.queue) == WrapPackets(r.queue) + [WrapPacket(r.buf[0])];
        assert WrapPackets(t.buf) == WrapPackets(r.buf)[1..];
      }
    }
  }

  lemma ParseDataWraps(rcvWnd: int, r: Receiver, p: Packet)
    requires ReceiverOk(Unbounded, rcvWnd, r) && 0 < rcvWnd < HALF / 2 && InReach(p.sn, r.nxt, r.nxt + rcvWnd)
    ensures S.ParseData(Wrap32, rcvWnd, WrapReceiver(r), WrapPacket(p)) ==
      WrapReceiver(S.ParseData(Unbounded, rcvWnd, r, p))
  {
    hide S.MoveReady;
    hide S.Insert;
    hide U32;
    SameOrder(p.sn, r.nxt);
    SameOrder(p.sn, r.nxt + rcvWnd);
    U32Plus(r.nxt, rcvWnd);
    if r.nxt <= p.sn < r.nxt + rcvWnd {
      forall i | 0 <= i < |r.buf| ensures Comparable(p.sn, r.buf[i].sn) {
        assert 0 <= Off(Unbounded, r.nxt, PacketSns(r.buf)[i]) < rcvWnd;
      }
      InsertWraps(r.buf, p);
      InsertKeepsOrder(Unbounded, r.nxt, rcvWnd, r.buf, p);
      MoveReadyWraps(rcvWnd, r.(buf := S.Insert(Unbounded, r.buf, p)));
    }
  }

  lemma OnPushWraps(rcvWnd: int, r: Receiver, p: Packet)
    requires ReceiverOk(Unbounded, rcvWnd, r) && 0 < rcvWnd < HALF / 2 && InReach(p.sn, r.nxt, r.nxt + rcvWnd)
    ensures S.OnPush(Wrap32, rcvWnd, WrapReceiver(r), WrapPacket(p)) == WrapReceiver(S.OnPush(Unbounded, rcvWnd, r, p))
  {
    hide S.ParseData;
    hide S.Insert;
    hide S.MoveReady;
    SameOrder(p.sn, r.nxt);
    SameOrder(p.sn, r.nxt + rcvWnd);
    U32Plus(r.nxt, rcvWnd);
    var r1 := r.(acks := r.acks + [Ack(p.sn, p.ts)]);
    assert WrapAcks(r1.acks) == WrapAcks(r.acks) + [Ack(U32(p.sn), p.ts)];
    ParseDataWraps(rcvWnd, r1, p);
  }

  // ---------------------------------------------------------------- input

  function WrapIn(st: S.InState): S.InState {
    S.InState(WrapEndpoint(st.ep), st.acked, U32(st.maxAck))
  }

  /** The numbers of a segment are comparable with those they will be compared with. */
  predicate NearPacket(st: S.InState, p: Packet) {
    var snd, rcv := S.Absorb(Unbounded, st.ep, p).snd, st.ep.rcv;
    && InReach(p.una, st.ep.snd.una, st.ep.snd.nxt)
    && (p.cmd == CMD_ACK ==> InReach(p.sn, snd.una, snd.nxt) && (st.acked ==> Comparable(p.sn, st.maxAck)))
    && (p.cmd == CMD_PUSH ==> InReach(p.sn, rcv.nxt, rcv.nxt + st.ep.cfg.rcvWnd))
  }

  /** The same for every segment of a datagram when its turn comes. */
  predicate NearInput(st: S.InState, ps: seq<Packet>)
    decreases |ps|
  {
    if |ps| == 0 then st.acked ==> InReach(st.maxAck, st.ep.snd.una, st.ep.snd.nxt)
    else NearPacket(st, ps[0]) && NearInput(S.OnPacket(Unbounded, st, ps[0]), ps[1..])
  }

  lemma AbsorbWraps(e: Endpoint, p: Packet)
    requires EndpointOk(Unbounded, e) && InReach(p.una, e.snd.una, e.snd.nxt)
    ensures S.Absorb(Wrap32, WrapEndpoint(e), WrapPacket(p)) == WrapEndpoint(S.Absorb(Unbounded, e, p))
  {
    ParseUnaWraps(e.cfg.sndWnd, e.snd, p.una);
  }

  lemma OnPacketWraps(st: S.InState, p: Packet)
    requires EndpointOk(Unbounded, st.ep) && NearPacket(st, p) && (!st.acked ==> st.maxAck == 0)
    ensures S.OnPacket(Wrap32, WrapIn(st), WrapPacket(p)) == WrapIn(S.OnPacket(Unbounded, st, p))
  {
    AbsorbWraps(st.ep, p);
    ParseUnaKeepsSender(Unbounded, st.ep.cfg.sndWnd, st.ep.snd, p.una);
    var e := S.Absorb(Unbounded, st.ep, p);
    if p.cmd == CMD_ACK {
      ParseAckWraps(e.cfg.sndWnd, e.snd, p.sn);
      if st.acked { SameOrder(p.sn, st.maxAck); }
    } else if p.cmd == CMD_PUSH {
      OnPushWraps(e.cfg.rcvWnd, e.rcv, p);
    }
  }

  lemma {:induction false} OnPacketsWrap(st: S.InState, ps: seq<Packet>)
    requires EndpointOk(Unbounded, st.ep) && NearInput(st, ps) && (!st.acked ==> st.maxAck == 0)
    requires forall p :: p in ps ==> Readable(Unbounded, p)
    ensures S.OnPackets(Wrap32, WrapIn(st), WrapPackets(ps)) == WrapIn(S.OnPackets(Unbounded, st, ps))
    ensures NearInput(S.OnPackets(Unbounded, st, ps), [])
    decreases |ps|
  {
    if |ps| == 0 {
    } else {
      OnPacketWraps(st, ps[0]);
      OnPacketKeepsEndpoint(Unbounded, st, ps[0]);
      OnPacketsWrap(S.OnPacket(Unbounded, st, ps[0]), ps[1..]);
      assert WrapPackets(ps)[1..] == WrapPackets(ps[1..]);
    }
  }

  /** Input commutes with reduction. */
  lemma InputWraps(e: Endpoint, ps: seq<Packet>, ok: bool)
    requires EndpointOk(Unbounded, e) && NearInput(S.InState(e, false, 0), ps)
    requires forall p :: p in ps ==> Readable(Unbounded, p)
    ensures S.Input(Wrap32, WrapEndpoint(e), WrapPackets(ps), ok) == WrapEndpoint(S.Input(Unbounded, e, ps, ok))
  {
    var st0 := S.InState(e, false, 0);
    var st := S.OnPackets(Unbounded, st0, ps);
    OnPacketsWrap(st0, ps);
    OnPacketsKeepEndpoint(Unbounded, st0, ps);
    if ok {
      if st.acked {
        ParseFastackWraps(e.cfg.sndWnd, st.ep.snd, st.maxAck);
      }
      SameOrder(st.ep.snd.una, e.snd.una);
    }
  }

  // ---------------------------------------------------------------- recv

  lemma {:induction false} MergeWraps(q: seq<Packet>)
    ensures S.MergeCount(WrapPackets(q)) == S.MergeCount(q)
    ensures S.DataOf(WrapPackets(q)) == S.DataOf(q)
  {
    if |q| == 0 {
    } else {
      assert WrapPackets(q)[1..] == WrapPackets(q[1..]);
      MergeWraps(q[1..]);
    }
  }

  lemma PeekWraps(q: seq<Packet>)
    ensures S.PeekSize(WrapPackets(q)) == S.PeekSize(q)
    ensures S.MergeCount(WrapPackets(q)) == S.MergeCount(q)
    ensures S.DataOf(WrapPackets(q)[..S.MergeCount(q)]) == S.DataOf(q[..S.MergeCount(q)])
    ensures WrapPackets(q)[S.MergeCount(q)..] == WrapPackets(q[S.MergeCount(q)..])
  {
    var n := S.MergeCount(q);
    MergeWraps(q);
    MergeWraps(q[..n]);
    assert WrapPackets(q)[..n] == WrapPackets(q[..n]);
  }

  lemma RecvWraps(e: Endpoint, len: int)
    requires EndpointOk(Unbounded, e)
    ensures var r := S.Recv(Unbounded, e, len);
            S.Recv(Wrap32, WrapEndpoint(e), len) == S.Received(WrapEndpoint(r.ep), r.ret, r.data)
  {
    var q := e.rcv.queue;
    PeekWraps(q);
    if S.Recv(Unbounded, e, len).ret >= 0 {
      var n := if len < 0 then 0 else S.MergeCount(q);
      assert q[0..] == q;
      DequeueKeepsReceiver(Unbounded, e.cfg.rcvWnd, e.rcv, n);
      MoveReadyWraps(e.cfg.rcvWnd, e.rcv.(queue := q[n..]));
    }
  }

  // ---------------------------------------------------------------- flush

  function WrapFlusher(x: S.Flusher): S.Flusher { x.(rcvNxt := U32(x.rcvNxt)) }

  function WrapDatagrams(ds: seq<Datagram>): (es: seq<Datagram>)
    ensures |es| == |ds| && forall i :: 0 <= i < |ds| ==> es[i] == WrapPackets(ds[i])
  {
    seq(|ds|, i requires 0 <= i < |ds| => WrapPackets(ds[i]))
  }

  lemma {:induction false} AdmitWraps(x: S.Flusher, sndWnd: int, s: Sender, cwnd: int)
    requires SenderOk(Unbounded, sndWnd, s) && 0 <= cwnd <= sndWnd < HALF / 2
    ensures S.Admit(Wrap32, WrapFlusher(x), WrapSender(s), cwnd) == WrapSender(S.Admit(Unbounded, x, s, cwnd))
    decreases |s.queue|
  {
    SameOrder(s.nxt, s.una + cwnd);
    U32Plus(s.una, cwnd);
    if s.nxt < s.una + cwnd && |s.queue| > 0 {
      var f := s.queue[0];
      var p := Packet(x.cfg.conv, CMD_PUSH, f.frg, x.wnd, x.now, s.nxt, x.rcvNxt, f.data);
      var y := Sent(p, x.now, x.rto, 0, 0);
      var t := s.(nxt := s.nxt + 1, queue := s.queue[1..], buf := s.buf + [y]);
      U32Plus(s.nxt, 1);
      assert WrapBuf(t.buf) == WrapBuf(s.buf) + [WrapSent(y)];
      AdmitOneKeepsSender(x, sndWnd, s, cwnd, t);
      AdmitWraps(x, sndWnd, t, cwnd);
    }
  }

  lemma AdmitOneKeepsSender(x: S.Flusher, sndWnd: int, s: Sender, cwnd: int, t: Sender)
    requires SenderOk(Unbounded, sndWnd, s) && 0 <= cwnd <= sndWnd < HALF
    requires s.nxt < s.una + cwnd && |s.queue| > 0
    requires t.una == s.una && t.nxt == s.nxt + 1 && |t.buf| == |s.buf| + 1
    requires t.buf[..|s.buf|] == s.buf && t.buf[|s.buf|].pkt.sn == s.nxt
    ensures SenderOk(Unbounded, sndWnd, t)
  {
    forall i | 0 <= i < |t.buf| - 1 ensures t.buf[i] == s.buf[i] {
      assert t.buf[..|s.buf|][i] == t.buf[i];
    }
    AppendLargest(Unbounded, s.una, t.nxt - s.una, SentSns(s.buf), s.nxt);
    assert SentSns(t.buf) == SentSns(s.buf) + [s.nxt];
  }

  lemma VisitsWrap(x: S.Flusher, buf: seq<Sent>)
    ensures var vs, ws := S.VisitAll(x, buf), S.VisitAll(WrapFlusher(x), WrapBuf(buf));
            && S.Segments(ws) == WrapBuf(S.Segments(vs))
            && forall i :: 0 <= i < |vs| ==> ws[i] == vs[i].(seg := WrapSent(vs[i].seg))
  {
  }

  lemma {:induction false} VisitTotalsWrap(deadLink: int, vs: seq<S.Visited>, ws: seq<S.Visited>)
    requires |ws| == |vs| && forall i :: 0 <= i < |vs| ==> ws[i] == vs[i].(seg := WrapSent(vs[i].seg))
    ensures S.DataPackets(ws) == WrapPackets(S.DataPackets(vs))
    ensures S.Timeouts(ws) == S.Timeouts(vs)
    ensures S.AnyFast(ws) == S.AnyFast(vs) && S.AnyDead(deadLink, ws) == S.AnyDead(deadLink, vs)
  {
    if |vs| == 0 {
    } else {
      VisitTotalsWrap(deadLink, vs[1..], ws[1..]);
      var head := if vs[0].send then [Wire(vs[0].seg.pkt)] else [];
      assert WrapPackets(head + S.DataPackets(vs[1..])) == WrapPackets(head) + WrapPackets(S.DataPackets(vs[1..]));
      assert WrapPackets(head) == if ws[0].send then [Wire(ws[0].seg.pkt)] else [];
    }
  }

  lemma {:induction false} AckPacketsWrap(x: S.Flusher, acks: seq<Ack>)
    ensures S.AckPackets(WrapFlusher(x), WrapAcks(acks)) == WrapPackets(S.AckPackets(x, acks))
  {
    if |acks| == 0 {
    } else {
      AckPacketsWrap(x, acks[1..]);
      assert WrapAcks(acks)[1..] == WrapAcks(acks[1..]);
      var p := S.Control(x, CMD_ACK, acks[0]);
      assert WrapPackets([p] + S.AckPackets(x, acks[1..])) == [WrapPacket(p)] + WrapPackets(S.AckPackets(x, acks[1..]));
    }
  }

  lemma ProbePacketsWrap(x: S.Flusher, p: Probe, acks: seq<Ack>)
    ensures S.ProbePackets(WrapFlusher(x), p, S.LastAck(WrapAcks(acks))) ==
      WrapPackets(S.ProbePackets(x, p, S.LastAck(acks)))
  {
    assert S.LastAck(WrapAcks(acks)) == S.LastAck(acks).(sn := U32(S.LastAck(acks).sn));
  }

  lemma {:induction false} WireSizeWraps(ps: seq<Packet>)
    ensures S.WireSize(WrapPackets(ps)) == S.WireSize(ps)
  {
    if |ps| == 0 {
    } else {
      assert WrapPackets(ps)[..|ps| - 1] == WrapPackets(ps[..|ps| - 1]);
      WireSizeWraps(ps[..|ps| - 1]);
    }
  }

  lemma {:induction false} PackWraps(mtu: int, ps: seq<Packet>, cur: Datagram)
    ensures S.Pack(mtu, WrapPackets(ps), WrapPackets(cur)) == WrapDatagrams(S.Pack(mtu, ps, cur))
    decreases |ps|
  {
    var done: seq<Datagram> := if |cur| > 0 then [cur] else [];
    assert WrapDatagrams(done) == if |cur| > 0 then [WrapPackets(cur)] else [];
    if |ps| == 0 {
    } else {
      WireSizeWraps(cur);
      PackWraps(mtu, ps[1..], [ps[0]]);
      PackWraps(mtu, ps[1..], cur + [ps[0]]);
      assert WrapPackets(ps)[1..] == WrapPackets(ps[1..]);
      assert WrapPackets([ps[0]]) == [WrapPacket(ps[0])];
      assert WrapPackets(cur + [ps[0]]) == WrapPackets(cur) + [WrapPacket(ps[0])];
      assert WrapDatagrams(done + S.Pack(mtu, ps[1..], [ps[0]])) ==
        WrapDatagrams(done) + WrapDatagrams(S.Pack(mtu, ps[1..], [ps[0]]));
    }
  }

  function WrapSending(g: S.Sending): S.Sending { g.(snd := WrapSender(g.snd)) }

  lemma VisitsOfWrap(x: S.Flusher, s: Sender, cwnd: int)
    requires SenderOk(Unbounded, x.cfg.sndWnd, s) && 0 <= cwnd <= x.cfg.sndWnd < HALF / 2
    ensures var vs, ws := S.VisitsOf(Unbounded, x, s, cwnd), S.VisitsOf(Wrap32, WrapFlusher(x), WrapSender(s), cwnd);
            && S.Segments(ws) == WrapBuf(S.Segments(vs))
            && S.DataPackets(ws) == WrapPackets(S.DataPackets(vs))
            && S.Timeouts(ws) == S.Timeouts(vs)
            && S.AnyFast(ws) == S.AnyFast(vs) && S.AnyDead(x.cfg.deadLink, ws) == S.AnyDead(x.cfg.deadLink, vs)
  {
    var buf := S.Admit(Unbounded, x, s, cwnd).buf;
    AdmitWraps(x, x.cfg.sndWnd, s, cwnd);
    VisitsWrap(x, buf);
    VisitTotalsWrap(x.cfg.deadLink, S.VisitAll(x, buf), S.VisitAll(WrapFlusher(x), WrapBuf(buf)));
  }

  lemma InflightWraps(sndWnd: int, t: Sender)
    requires SenderOk(Unbounded, sndWnd, t) && sndWnd < HALF
    ensures Norm(Wrap32, WrapSender(t).nxt - WrapSender(t).una) == Norm(Unbounded, t.nxt - t.una)
  {
    assert Off(Unbounded, t.una, t.nxt) == t.nxt - t.una;
    U32Span(t.nxt, t.una);
  }

  lemma SendSegmentsWraps(x: S.Flusher, g: S.Sending, cwnd: int)
    requires SenderOk(Unbounded, x.cfg.sndWnd, g.snd) && 0 <= cwnd <= x.cfg.sndWnd < HALF / 2
    ensures S.SendSegments(Wrap32, WrapFlusher(x), WrapSending(g), cwnd) ==
      WrapSending(S.SendSegments(Unbounded, x, g, cwnd))
  {
    var t, w := S.Admit(Unbounded, x, g.snd, cwnd), S.Admit(Wrap32, WrapFlusher(x), WrapSender(g.snd), cwnd);
    VisitsOfWrap(x, g.snd, cwnd);
    AdmitWraps(x, x.cfg.sndWnd, g.snd, cwnd);
    AdmitKeepsSender(Unbounded, x, x.cfg.sndWnd, g.snd, cwnd);
    InflightWraps(x.cfg.sndWnd, t);
    SameSending(x, g, cwnd, t, w, S.VisitsOf(Unbounded, x, g.snd, cwnd),
      S.VisitsOf(Wrap32, WrapFlusher(x), WrapSender(g.snd), cwnd));
  }

  lemma SameSending(x: S.Flusher, g: S.Sending, cwnd: int, t: Sender, w: Sender, vs: seq<S.Visited>, ws: seq<S.Visited>)
    requires t == S.Admit(Unbounded, x, g.snd, cwnd) && w == S.Admit(Wrap32, WrapFlusher(x), WrapSender(g.snd), cwnd)
    requires vs == S.VisitsOf(Unbounded, x, g.snd, cwnd)
    requires ws == S.VisitsOf(Wrap32, WrapFlusher(x), WrapSender(g.snd), cwnd)
    requires w == WrapSender(t) && Norm(Wrap32, w.nxt - w.una) == Norm(Unbounded, t.nxt - t.una)
    requires S.Segments(ws) == WrapBuf(S.Segments(vs)) && S.Timeouts(ws) == S.Timeouts(vs)
    requires S.AnyFast(ws) == S.AnyFast(vs) && S.AnyDead(x.cfg.deadLink, ws) == S.AnyDead(x.cfg.deadLink, vs)
    ensures S.SendSegments(Wrap32, WrapFlusher(x), WrapSending(g), cwnd) ==
      WrapSending(S.SendSegments(Unbounded, x, g, cwnd))
  {
    hide S.Admit;
    hide S.VisitAll;
    hide S.Segments;
    hide S.Timeouts;
    hide S.AnyFast;
    hide S.AnyDead;
    hide WrapBuf;
    var resent, inflight := x.Resent(), Norm(Unbounded, t.nxt - t.una);
    assert WrapFlusher(x).Resent() == resent;
    var cong := S.AdjustCwnd(x.cfg.mss, g.cong, resent, inflight, cwnd, S.AnyFast(vs), S.Timeouts(vs) > 0);
    SendingIs(Unbounded, x, g, cwnd, t, vs, cong);
    SendingIs(Wrap32, WrapFlusher(x), WrapSending(g), cwnd, w, ws, cong);
  }

  lemma SendingIs(a: Arith, x: S.Flusher, g: S.Sending, cwnd: int, s: Sender, vs: seq<S.Visited>, cong: Cong)
    requires s == S.Admit(a, x, g.snd, cwnd) && vs == S.VisitsOf(a, x, g.snd, cwnd)
    requires cong == S.AdjustCwnd(x.cfg.mss, g.cong, x.Resent(), Norm(a, s.nxt - s.una), cwnd, S.AnyFast(vs),
      S.Timeouts(vs) > 0)
    ensures S.SendSegments(a, x, g, cwnd) ==
              S.Sending(s.(buf := S.Segments(vs)), cong, U32(g.xmit + S.Timeouts(vs)),
                g.dead || S.AnyDead(x.cfg.deadLink, vs))
  {
  }

  lemma WrapThree(a: seq<Packet>, b: seq<Packet>, c: seq<Packet>)
    ensures WrapPackets(a + b + c) == WrapPackets(a) + WrapPackets(b) + WrapPackets(c)
  {
  }

  lemma FlushPacketsWrap(e: Endpoint)
    requires EndpointOk(Unbounded, e)
    ensures S.FlushPackets(Wrap32, WrapEndpoint(e)) == WrapPackets(S.FlushPackets(Unbounded, e))
  {
    hide WrapPackets;
    hide S.LastAck;
    hide S.ProbePackets;
    hide S.TickProbe;
    hide S.Admit;
    hide S.VisitAll;
    hide S.AckPackets;
    hide S.DataPackets;
    var x := S.FlusherOf(e);
    assert S.FlusherOf(WrapEndpoint(e)) == WrapFlusher(x);
    var p := S.TickProbe(e.cong.rmtWnd, e.clock.current, e.probe);
    VisitsOfWrap(x, e.snd, S.Window(e));
    AckPacketsWrap(x, e.rcv.acks);
    ProbePacketsWrap(x, p, e.rcv.acks);
    var a, b, c := S.AckPackets(x, e.rcv.acks), S.ProbePackets(x, p, S.LastAck(e.rcv.acks)),
      S.DataPackets(S.FlushVisits(Unbounded, e));
    WrapThree(a, b, c);
  }

  lemma FlushedWraps(e: Endpoint)
    requires EndpointOk(Unbounded, e)
    ensures S.Flushed(Wrap32, WrapEndpoint(e)) == WrapEndpoint(S.Flushed(Unbounded, e))
  {
    assert S.FlusherOf(WrapEndpoint(e)) == WrapFlusher(S.FlusherOf(e));
    SendSegmentsWraps(S.FlusherOf(e), S.Sending(e.snd, e.cong, e.xmit, e.dead), S.Window(e));
    assert WrapAcks([]) == [];
  }

  /** Flush commutes with reduction, state and datagrams alike. */
  lemma FlushWraps(e: Endpoint)
    requires EndpointOk(Unbounded, e)
    ensures S.Flush(Wrap32, WrapEndpoint(e)) ==
      (WrapEndpoint(S.Flush(Unbounded, e).0), WrapDatagrams(S.Flush(Unbounded, e).1))
  {
    FlushPacketsWrap(e);
    FlushedWraps(e);
    PackWraps(e.cfg.mtu, S.FlushPackets(Unbounded, e), []);
    assert WrapPackets([]) == [];
  }

  lemma UpdateWraps(e: Endpoint, now: int)
    requires EndpointOk(Unbounded, e)
    ensures S.Update(Wrap32, WrapEndpoint(e), now) ==
      (WrapEndpoint(S.Update(Unbounded, e, now).0), WrapDatagrams(S.Update(Unbounded, e, now).1))
  {
    FlushWraps(e.(clock := S.Tick(e.cfg.interval, e.clock, now).0));
  }
}
