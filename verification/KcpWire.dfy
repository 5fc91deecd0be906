/** Every datagram the running system emits is one that the reader can read back, as long
    as it holds at most eleven segments.  This is what justifies passing datagrams around
    as lists of segments in KcpSystem. */
module KcpWire {
  import opened Circular
  import opened KcpState
  import opened KcpCodec
  import opened KcpSystem
  import KcpMessages
  import KcpDelivery
  import KcpInvariants
  import S = KcpSpec

  /** Everything an endpoint may copy into a header fits it. */
  ghost predicate Encodable(e: Endpoint) {
    && Word(e.cfg.conv) && 0 < e.cfg.mss < HALF
    && Word(e.clock.current) && Word(e.snd.nxt) && Word(e.rcv.nxt)
    && (forall k :: k in e.rcv.acks ==> Word(k.sn) && Word(k.ts))
    && (forall f :: f in e.snd.queue ==> |f.data| <= e.cfg.mss)
    && (forall s :: s in e.snd.buf ==>
      s.pkt.conv == e.cfg.conv && s.pkt.cmd == CMD_PUSH && Word(s.pkt.sn) && |s.pkt.data| <= e.cfg.mss)
  }

  ghost predicate AllOnWire(conv: int, ds: seq<Datagram>) {
    forall d, p :: d in ds && p in d ==> OnWire(conv, p)
  }

  lemma MoveReadyEncodable(rcvWnd: int, r: Receiver)
    requires Word(r.nxt)
    ensures Word(S.MoveReady(Wrap32, rcvWnd, r).nxt) && S.MoveReady(Wrap32, rcvWnd, r).acks == r.acks
    decreases |r.buf|
  {
    if |r.buf| > 0 && r.buf[0].sn == r.nxt && |r.queue| < rcvWnd {
      MoveReadyEncodable(rcvWnd, r.(nxt := U32(r.nxt + 1), queue := r.queue + [r.buf[0]], buf := r.buf[1..]));
    }
  }

  lemma AbsorbEncodable(e: Endpoint, p: Packet)
    requires Encodable(e)
    ensures Encodable(S.Absorb(Wrap32, e, p))
  {
    hide S.DropBelow;
    var k := KcpInvariants.DropBelowIsSuffix(Wrap32, e.snd.buf, p.una);
  }

  lemma OnPacketEncodable(st: S.InState, p: Packet)
    requires Encodable(st.ep) && Word(p.sn) && Word(p.ts)
    ensures Encodable(S.OnPacket(Wrap32, st, p).ep)
    ensures S.OnPacket(Wrap32, st, p).ep.cfg == st.ep.cfg
  {
    hide S.Insert;
    hide S.MoveReady;
    hide S.DropBelow;
    hide S.RemoveSn;
    AbsorbEncodable(st.ep, p);
    var e := S.Absorb(Wrap32, st.ep, p);
    var i, j := KcpInvariants.RemoveSnIsSlice(Wrap32, e.snd.buf, p.sn);
    if p.cmd == CMD_PUSH {
      var r1 := e.rcv.(acks := e.rcv.acks + [Ack(p.sn, p.ts)]);
      MoveReadyEncodable(e.cfg.rcvWnd, r1.(buf := S.Insert(Wrap32, r1.buf, p)));
    }
  }

  lemma {:induction false} OnPacketsEncodable(st: S.InState, ps: seq<Packet>)
    requires Encodable(st.ep) && forall p :: p in ps ==> Word(p.sn) && Word(p.ts)
    ensures Encodable(S.OnPackets(Wrap32, st, ps).ep)
    ensures S.OnPackets(Wrap32, st, ps).ep.cfg == st.ep.cfg
    decreases |ps|
  {
    if |ps| == 0 {
    } else {
      OnPacketEncodable(st, ps[0]);
      OnPacketsEncodable(S.OnPacket(Wrap32, st, ps[0]), ps[1..]);
    }
  }

  lemma InputEncodable(e: Endpoint, ps: seq<Packet>)
    requires Encodable(e) && forall p :: p in ps ==> Word(p.sn) && Word(p.ts)
    ensures Encodable(S.Input(Wrap32, e, ps, true)) && S.Input(Wrap32, e, ps, true).cfg == e.cfg
  {
    var st := S.OnPackets(Wrap32, S.InState(e, false, 0), ps);
    OnPacketsEncodable(S.InState(e, false, 0), ps);
    var t := S.ParseFastack(Wrap32, st.ep.snd, st.maxAck);
    KcpInvariants.CountSkipsKeepsSns(Wrap32, st.ep.snd.buf, st.maxAck);
    forall x | x in t.buf
      ensures x.pkt.conv == e.cfg.conv && x.pkt.cmd == CMD_PUSH && Word(x.pkt.sn) && |x.pkt.data| <= e.cfg.mss
    {
      var i :| 0 <= i < |t.buf| && t.buf[i] == x;
      assert st.ep.snd.buf[i] in st.ep.snd.buf;
    }
  }

  lemma {:induction false} AdmitEncodable(x: S.Flusher, e: Endpoint, s: Sender, cwnd: int)
    requires Encodable(e.(snd := s)) && x == S.FlusherOf(e)
    ensures Encodable(e.(snd := S.Admit(Wrap32, x, s, cwnd)))
    decreases |s.queue|
  {
    if TimeDiff(s.nxt, U32(s.una + cwnd)) < 0 && |s.queue| > 0 {
      var f := s.queue[0];
      assert f in s.queue;
      var p := Packet(x.cfg.conv, CMD_PUSH, f.frg, x.wnd, x.now, s.nxt, x.rcvNxt, f.data);
      AdmitEncodable(
        x, e, s.(nxt := U32(s.nxt + 1), queue := s.queue[1..], buf := s.buf + [Sent(p, x.now, x.rto, 0, 0)]), cwnd);
    }
  }

  lemma VisitEncodable(e: Endpoint, x: S.Flusher, s: Sent)
    requires Encodable(e) && x == S.FlusherOf(e)
    requires s.pkt.conv == e.cfg.conv && s.pkt.cmd == CMD_PUSH && Word(s.pkt.sn) && |s.pkt.data| <= e.cfg.mss
    ensures var t := S.Visit(x, s).seg.pkt;
            t.conv == e.cfg.conv && t.cmd == CMD_PUSH && Word(t.sn) && |t.data| <= e.cfg.mss
    ensures S.Visit(x, s).send ==> OnWire(e.cfg.conv, Wire(S.Visit(x, s).seg.pkt))
  {
    var v := S.Visit(x, s);
    assert v.send ==> v.seg.pkt == s.pkt.(ts := x.now, wnd := x.wnd, una := x.rcvNxt);
  }

  lemma VisitsEncodable(e: Endpoint, x: S.Flusher)
    requires Encodable(e) && x == S.FlusherOf(e)
    ensures Encodable(e.(snd := e.snd.(buf := S.Segments(S.VisitAll(x, e.snd.buf)))))
    ensures forall p :: p in S.DataPackets(S.VisitAll(x, e.snd.buf)) ==> OnWire(e.cfg.conv, p) && |p.data| <= e.cfg.mss
  {
    var buf, vs := e.snd.buf, S.VisitAll(x, e.snd.buf);
    forall i | 0 <= i < |buf|
      ensures var t := vs[i].seg.pkt;
              t.conv == e.cfg.conv && t.cmd == CMD_PUSH && Word(t.sn) && |t.data| <= e.cfg.mss
      ensures vs[i].send ==> OnWire(e.cfg.conv, Wire(vs[i].seg.pkt))
    {
      assert buf[i] in buf;
      VisitEncodable(e, x, buf[i]);
    }
    KcpDelivery.DataPacketsContents(vs);
  }

  lemma FlushEncodable(e: Endpoint)
    requires Encodable(e)
    ensures Encodable(S.Flush(Wrap32, e).0) && S.Flush(Wrap32, e).0.cfg == e.cfg
    ensures AllOnWire(e.cfg.conv, S.Flush(Wrap32, e).1)
  {
    if e.clock.updated {
      var x := S.FlusherOf(e);
      var e1 := e.(snd := S.Admit(Wrap32, x, e.snd, S.Window(e)));
      AdmitEncodable(x, e, e.snd, S.Window(e));
      VisitsEncodable(e1, x);
      ControlEncodable(e);
      KcpDelivery.PackContents(e.cfg.mtu, S.FlushPackets(Wrap32, e), []);
    }
  }

  lemma ControlEncodable(e: Endpoint)
    requires Encodable(e)
    ensures forall p :: p in S.AckPackets(S.FlusherOf(e), e.rcv.acks) ==> OnWire(e.cfg.conv, p)
    ensures forall probe, p :: p in S.ProbePackets(S.FlusherOf(e), probe, S.LastAck(e.rcv.acks)) ==>
      OnWire(e.cfg.conv, p)
  {
    KcpDelivery.AckPacketsContents(S.FlusherOf(e), e.rcv.acks);
    var last := S.LastAck(e.rcv.acks);
    assert last == Ack(0, 0) || last in e.rcv.acks;
  }

  lemma FlushedDataFits(e: Endpoint)
    requires Encodable(e)
    ensures forall p :: p in S.FlushPackets(Wrap32, e) ==> OnWire(e.cfg.conv, p) && |p.data| <= e.cfg.mss
  {
    var x := S.FlusherOf(e);
    AdmitEncodable(x, e, e.snd, S.Window(e));
    VisitsEncodable(e.(snd := S.Admit(Wrap32, x, e.snd, S.Window(e))), x);
    ControlEncodable(e);
    KcpDelivery.AckPacketsContents(x, e.rcv.acks);
  }

  /** One flush: its datagrams concatenate to the pending acknowledgements, the probes and the
      due segments, in this order and none of them split; each datagram has at most two bytes
      more than the mtu, because a packet is checked against 24 bytes of header and written
      with 26. */
  lemma FlushPacketisation(e: Endpoint)
    requires Encodable(e) && e.clock.updated && e.cfg.mss == e.cfg.mtu - OVERHEAD
    ensures var out := S.Flush(Wrap32, e).1;
            && Flatten(out) == S.AckPackets(S.FlusherOf(e), e.rcv.acks)
                             + S.ProbePackets(S.FlusherOf(e), S.TickProbe(e.cong.rmtWnd, e.clock.current, e.probe),
                               S.LastAck(e.rcv.acks))
                             + S.DataPackets(S.FlushVisits(Wrap32, e))
            && forall d :: d in out ==> 0 < |EncodeAll(d)| <= e.cfg.mtu + 2
  {
    var ps := S.FlushPackets(Wrap32, e);
    FlushedDataFits(e);
    PackKeepsOrder(e.cfg.mtu, ps, []);
    PackRespectsMtu(e.cfg.mtu, ps, []);
    forall d | d in S.Pack(e.cfg.mtu, ps, [])
      ensures 0 < |EncodeAll(d)| <= e.cfg.mtu + 2
    {
      EncodedLength(d);
    }
  }

  // ---------------------------------------------------------------- runs

  ghost predicate NodeEncodable(conv: int, n: Node) {
    Encodable(n.ep) && n.ep.cfg.conv == conv && AllOnWire(conv, n.out)
  }

  /** The clock passed to `ikcp_update` is a 32-bit word. */
  predicate ProperEvent(ev: Event) { ev.act.Update? ==> Word(ev.act.now) }

  lemma NodeStepEncodable(conv: int, me: Node, network: seq<Datagram>, act: Action)
    requires NodeEncodable(conv, me) && AllOnWire(conv, network) && (act.Update? ==> Word(act.now))
    ensures NodeEncodable(conv, NodeStep(Wrap32, me, network, act))
  {
    match act {
      case Send(msg) =>
        KcpMessages.FragmentShape(me.ep.cfg.mss, msg[..|msg|]);
      case Recv(len) =>
        var r := me.ep.rcv;
        var n := if len < 0 then 0 else S.MergeCount(r.queue);
        assert r.queue[0..] == r.queue;
        MoveReadyEncodable(me.ep.cfg.rcvWnd, r.(queue := r.queue[n..]));
      case Deliver(i) =>
        if i < |network| {
          assert network[i] in network;
          InputEncodable(me.ep, network[i]);
        }
      case Update(now) =>
        FlushEncodable(me.ep.(clock := S.Tick(me.ep.cfg.interval, me.ep.clock, now).0));
      case Flush => FlushEncodable(me.ep);
    }
  }

  lemma {:induction false} RunEncodable(conv: int, sys: System, events: seq<Event>)
    requires Runnable(sys) && NodeEncodable(conv, sys.left) && NodeEncodable(conv, sys.right)
    requires forall ev :: ev in events ==> ProperEvent(ev)
    ensures var end := Run(Wrap32, sys, events);
            NodeEncodable(conv, end.left) && NodeEncodable(conv, end.right)
    decreases |events|
  {
    if |events| == 0 {
    } else {
      var ev := events[0];
      assert ev in events;
      if ev.atLeft {
        NodeStepEncodable(conv, sys.left, sys.right.out, ev.act);
      } else {
        NodeStepEncodable(conv, sys.right, sys.left.out, ev.act);
      }
      RunEncodable(conv, Step(Wrap32, sys, ev), events[1..]);
    }
  }

  /** Over every run of the system as it executes, each emitted datagram of one to eleven
      segments is read back from its bytes exactly, whatever lies behind it in memory. */
  lemma EmittedDatagramsReadBack(sys: System, events: seq<Event>, i: nat, behind: seq<byte>)
    requires Start(sys) && Word(sys.left.ep.cfg.conv)
    requires sys.left.ep.cfg.mss < HALF && sys.right.ep.cfg.mss < HALF
    requires forall ev :: ev in events ==> ProperEvent(ev)
    requires i < |Run(Wrap32, sys, events).left.out|
    requires var d := Run(Wrap32, sys, events).left.out[i];
             1 <= |d| <= 11 && Room(EncodeAll(d) + behind, 0, |EncodeAll(d)|)
    ensures var d := Run(Wrap32, sys, events).left.out[i];
            ReadDatagram(sys.right.ep.cfg.conv, EncodeAll(d) + behind, |EncodeAll(d)|) == Parsed(d, 0, |d|)
  {
    RunEncodable(sys.left.ep.cfg.conv, sys, events);
    var d := Run(Wrap32, sys, events).left.out[i];
    assert d in Run(Wrap32, sys, events).left.out;
    DatagramRoundTrip(sys.left.ep.cfg.conv, d, behind);
  }
}
