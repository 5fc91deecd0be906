/** End-to-end delivery: over every run of two endpoints and an unreliable network, the
    messages returned at one side are a prefix of the messages accepted at the other. */
module KcpDelivery {
  import opened Circular
  import opened KcpState
  import opened KcpWindows
  import opened KcpInvariants
  import opened KcpMessages
  import opened KcpSystem
  import S = KcpSpec

  // ---------------------------------------------------------------- what a receiver's step adds

  /** `t` has taken over everything `r` had, and consumed no more of its queue. */
  ghost predicate Grown(r: Receiver, t: Receiver) {
    && r.nxt <= t.nxt
    && t.nxt - |t.queue| == r.nxt - |r.queue|
    && (forall n :: Has(r, n) ==> Has(t, n))
  }

  lemma {:induction false} MoveReadyGrows(log: seq<Frag>, nxt: int, rcvWnd: int, r: Receiver)
    requires RecvSide(log, nxt, r)
    ensures RecvSide(log, nxt, S.MoveReady(Unbounded, rcvWnd, r))
    ensures Grown(r, S.MoveReady(Unbounded, rcvWnd, r))
    ensures S.MoveReady(Unbounded, rcvWnd, r).acks == r.acks
    decreases |r.buf|
  {
    if |r.buf| > 0 && r.buf[0].sn == r.nxt && |r.queue| < rcvWnd {
      var t := r.(nxt := r.nxt + 1, queue := r.queue + [r.buf[0]], buf := r.buf[1..]);
      forall n | Has(r, n) ensures Has(t, n) {
        if n != r.nxt && !(0 <= n < r.nxt) {
          var p :| p in r.buf && p.sn == n;
          assert p in t.buf;
        }
      }
      MoveReadyGrows(log, nxt, rcvWnd, t);
    }
  }

  lemma ParseDataTakes(log: seq<Frag>, nxt: int, rcvWnd: int, r: Receiver, p: Packet)
    requires RecvSide(log, nxt, r) && Carries(log, p) && p.sn < nxt
    requires r.nxt <= p.sn < r.nxt + rcvWnd
    ensures var t := S.ParseData(Unbounded, rcvWnd, r, p);
            RecvSide(log, nxt, t) && Grown(r, t) && Has(t, p.sn) && t.acks == r.acks
  {
    var t := r.(buf := S.Insert(Unbounded, r.buf, p));
    InsertContents(Unbounded, r.buf, p);
    assert Has(t, p.sn);
    MoveReadyGrows(log, nxt, rcvWnd, t);
  }

  lemma OnPushTakes(log: seq<Frag>, nxt: int, rcvWnd: int, r: Receiver, p: Packet)
    requires RecvSide(log, nxt, r) && AckListWell(r) && Carries(log, p) && p.sn < nxt
    ensures var t := S.OnPush(Unbounded, rcvWnd, r, p);
            RecvSide(log, nxt, t) && AckListWell(t) && Grown(r, t)
  {
    if p.sn < r.nxt + rcvWnd {
      var r1 := r.(acks := r.acks + [Ack(p.sn, p.ts)]);
      assert forall n :: Has(r, n) <==> Has(r1, n);
      if p.sn >= r.nxt {
        ParseDataTakes(log, nxt, rcvWnd, r1, p);
      }
    }
  }

  // ---------------------------------------------------------------- what a sender's step drops

  lemma DropBelowKeeps(buf: seq<Sent>, una: int, n: int)
    requires InBuf(buf, n) && una <= n
    ensures InBuf(S.DropBelow(Unbounded, buf, una), n)
  {
    var k := DropBelowIsSuffix(Unbounded, buf, una);
    var i :| 0 <= i < |buf| && buf[i].pkt.sn == n;
    assert buf[k..][i - k] == buf[i];
  }

  lemma RemoveSnKeeps(buf: seq<Sent>, sn: int, n: int)
    requires InBuf(buf, n) && n != sn
    ensures InBuf(S.RemoveSn(Unbounded, buf, sn), n)
  {
    var i, j := RemoveSnIsSlice(Unbounded, buf, sn);
    var k :| 0 <= k < |buf| && buf[k].pkt.sn == n;
    var rest := buf[..i] + buf[j..];
    assert buf[k] == rest[if k < i then k else i + k - j];
  }

  /** What a sender still owes to a receiver `r`. */
  ghost predicate Owes(log: seq<Frag>, sndWnd: int, s: Sender, r: Receiver) {
    SenderOk(Unbounded, sndWnd, s) && SendSide(log, s) && NoLoss(s, r)
  }

  lemma UnaLosesNothing(log: seq<Frag>, sndWnd: int, s: Sender, una: int, r: Receiver)
    requires Owes(log, sndWnd, s, r) && una <= r.nxt && sndWnd < HALF
    ensures Owes(log, sndWnd, S.Shrink(s.(buf := S.DropBelow(Unbounded, s.buf, una))), r)
  {
    ParseUnaKeepsSender(Unbounded, sndWnd, s, una);
    var t := S.Shrink(s.(buf := S.DropBelow(Unbounded, s.buf, una)));
    var k := DropBelowIsSuffix(Unbounded, s.buf, una);
    forall n | 0 <= n < t.nxt && !Has(r, n) ensures InBuf(t.buf, n) {
      DropBelowKeeps(s.buf, una, n);
    }
  }

  /** A sender that keeps some of its segments keeps their content. */
  lemma FewerSegments(log: seq<Frag>, s: Sender, t: Sender)
    requires SendSide(log, s) && t.nxt == s.nxt && t.queue == s.queue && s.una <= t.una <= t.nxt
    requires forall x :: x in t.buf ==> x in s.buf
    ensures SendSide(log, t)
  {
    hide Carries;
  }

  /** Only segments numbered `sn` disappear. */
  lemma OthersStay(s: Sender, t: Sender, sn: int, r: Receiver)
    requires NoLoss(s, r) && Has(r, sn) && t.nxt == s.nxt
    requires t.buf == s.buf || t.buf == S.RemoveSn(Unbounded, s.buf, sn)
    ensures NoLoss(t, r)
  {
    hide Has;
    hide InBuf;
    hide S.RemoveSn;
    forall n | 0 <= n < t.nxt && !Has(r, n) ensures InBuf(t.buf, n) {
      RemoveSnKeeps(s.buf, sn, n);
    }
  }

  lemma AckLosesNothing(log: seq<Frag>, sndWnd: int, s: Sender, sn: int, r: Receiver)
    requires Owes(log, sndWnd, s, r) && Has(r, sn) && sndWnd < HALF
    ensures Owes(log, sndWnd, S.Shrink(S.ParseAck(Unbounded, s, sn)), r)
  {
    hide S.RemoveSn;
    hide S.InFlight;
    hide SendSide;
    hide NoLoss;
    hide Has;
    var t := S.Shrink(S.ParseAck(Unbounded, s, sn));
    ParseAckKeepsSender(Unbounded, sndWnd, s, sn);
    var _, _ := RemoveSnIsSlice(Unbounded, s.buf, sn);
    FewerSegments(log, s, t);
    OthersStay(s, t, sn, r);
  }

  /** A segment leaves `snd_buf` only if the peer is known to have it. */
  lemma OnPacketLosesNothing(log: seq<Frag>, st: S.InState, p: Packet, r: Receiver)
    requires Owes(log, st.ep.cfg.sndWnd, st.ep.snd, r) && ConfigOk(st.ep.cfg)
    requires p.una <= r.nxt && (p.cmd == CMD_ACK ==> Has(r, p.sn))
    ensures Owes(log, st.ep.cfg.sndWnd, S.OnPacket(Unbounded, st, p).ep.snd, r)
    ensures S.OnPacket(Unbounded, st, p).ep.snd.nxt == st.ep.snd.nxt
  {
    var s, w := st.ep.snd, st.ep.cfg.sndWnd;
    UnaLosesNothing(log, w, s, p.una, r);
    if p.cmd == CMD_ACK {
      AckLosesNothing(log, w, S.Shrink(s.(buf := S.DropBelow(Unbounded, s.buf, p.una))), p.sn, r);
    }
  }

  // ---------------------------------------------------------------- delivering a datagram

  /** The invariant while `me` works through a datagram of `peer`: first `me` as a sender
      towards the peer's receiver, then `me` as the receiver of the peer's log. */
  ghost predicate Mid(mine: seq<Frag>, theirs: seq<Frag>, theirNxt: int, e: Endpoint, peer: Receiver, e0: Endpoint) {
    && EndpointOk(Unbounded, e) && e.cfg == e0.cfg
    && SendSide(mine, e.snd) && NoLoss(e.snd, peer) && e.snd.nxt == e0.snd.nxt
    && RecvSide(theirs, theirNxt, e.rcv) && AckListWell(e.rcv) && Grown(e0.rcv, e.rcv)
  }

  lemma OnPacketKeepsMid(mine: seq<Frag>, theirs: seq<Frag>, theirNxt: int, st: S.InState, p: Packet, peer: Receiver,
      e0: Endpoint)
    requires Mid(mine, theirs, theirNxt, st.ep, peer, e0) && Readable(Unbounded, p) && 0 <= peer.nxt
    requires DataWell(theirs, theirNxt, [p]) && AcksWell(peer, [p])
    ensures Mid(mine, theirs, theirNxt, S.OnPacket(Unbounded, st, p).ep, peer, e0)
  {
    assert p in [p];
    OnPacketKeepsEndpoint(Unbounded, st, p);
    OnPacketLosesNothing(mine, st, p, peer);
    if p.cmd == CMD_PUSH {
      OnPushTakes(theirs, theirNxt, st.ep.cfg.rcvWnd, st.ep.rcv, p);
    }
  }

  lemma {:induction false} OnPacketsKeepMid(mine: seq<Frag>, theirs: seq<Frag>, theirNxt: int, st: S.InState,
      ps: seq<Packet>, peer: Receiver, e0: Endpoint)
    requires Mid(mine, theirs, theirNxt, st.ep, peer, e0) && (forall p :: p in ps ==> Readable(Unbounded, p))
      && 0 <= peer.nxt
    requires DataWell(theirs, theirNxt, ps) && AcksWell(peer, ps)
    ensures Mid(mine, theirs, theirNxt, S.OnPackets(Unbounded, st, ps).ep, peer, e0)
    decreases |ps|
  {
    if |ps| == 0 {
    } else {
      OnPacketKeepsMid(mine, theirs, theirNxt, st, ps[0], peer, e0);
      OnPacketsKeepMid(mine, theirs, theirNxt, S.OnPacket(Unbounded, st, ps[0]), ps[1..], peer, e0);
    }
  }

  lemma InputKeepsMid(mine: seq<Frag>, theirs: seq<Frag>, theirNxt: int, e: Endpoint, ps: seq<Packet>, peer: Receiver)
    requires Mid(mine, theirs, theirNxt, e, peer, e) && (forall p :: p in ps ==> Readable(Unbounded, p))
      && 0 <= peer.nxt
    requires DataWell(theirs, theirNxt, ps) && AcksWell(peer, ps)
    ensures Mid(mine, theirs, theirNxt, S.Input(Unbounded, e, ps, true), peer, e)
  {
    var st := S.OnPackets(Unbounded, S.InState(e, false, 0), ps);
    OnPacketsKeepMid(mine, theirs, theirNxt, S.InState(e, false, 0), ps, peer, e);
    InputKeepsEndpoint(Unbounded, e, ps, true);
    if st.acked {
      FastackKeepsNumbers(st.ep.snd, st.maxAck);
    }
  }

  lemma FastackKeepsNumbers(s: Sender, sn: int)
    ensures var t := S.ParseFastack(Unbounded, s, sn);
            && t.una == s.una && t.nxt == s.nxt && t.queue == s.queue
            && (forall x :: x in t.buf ==> exists y :: y in s.buf && y.pkt == x.pkt)
            && (forall n :: InBuf(s.buf, n) ==> InBuf(t.buf, n))
  {
    CountSkipsKeepsSns(Unbounded, s.buf, sn);
    var t := S.ParseFastack(Unbounded, s, sn);
    SamePackets(s.buf, t.buf);
  }

  lemma SamePackets(b: seq<Sent>, c: seq<Sent>)
    requires |b| == |c| && forall i :: 0 <= i < |b| ==> b[i].pkt.sn == c[i].pkt.sn
    ensures forall n :: InBuf(b, n) ==> InBuf(c, n)
    ensures (forall i :: 0 <= i < |b| ==> b[i].pkt == c[i].pkt) ==>
              (forall x :: x in c ==> exists y :: y in b && y.pkt == x.pkt)
  {
    forall n | InBuf(b, n) ensures InBuf(c, n) {
      var i :| 0 <= i < |b| && b[i].pkt.sn == n;
      assert c[i] in c;
    }
    if forall i :: 0 <= i < |b| ==> b[i].pkt == c[i].pkt {
      forall x | x in c ensures exists y :: y in b && y.pkt == x.pkt {
        var i :| 0 <= i < |c| && c[i] == x;
        assert b[i] in b;
      }
    }
  }

  // ---------------------------------------------------------------- flushing

  /** Packing into datagrams invents no packet. */
  lemma {:induction false} PackContents(mtu: int, ps: seq<Packet>, cur: Datagram)
    ensures forall d, p :: d in S.Pack(mtu, ps, cur) && p in d ==> p in cur || p in ps
    decreases |ps|
  {
    if |ps| == 0 {
    } else {
      PackContents(mtu, ps[1..], [ps[0]]);
      PackContents(mtu, ps[1..], cur + [ps[0]]);
    }
  }

  lemma {:induction false} AckPacketsContents(x: S.Flusher, acks: seq<Ack>)
    ensures forall p :: p in S.AckPackets(x, acks) ==> exists k :: k in acks && p == S.Control(x, CMD_ACK, k)
  {
    if |acks| == 0 {
    } else {
      AckPacketsContents(x, acks[1..]);
      forall p | p in S.AckPackets(x, acks) ensures exists k :: k in acks && p == S.Control(x, CMD_ACK, k) {
        if p in S.AckPackets(x, acks[1..]) {
          var k :| k in acks[1..] && p == S.Control(x, CMD_ACK, k);
          assert k in acks;
        } else {
          assert acks[0] in acks;
        }
      }
    }
  }

  lemma {:induction false} DataPacketsContents(vs: seq<S.Visited>)
    ensures forall p :: p in S.DataPackets(vs) ==> exists v :: v in vs && v.send && p == Wire(v.seg.pkt)
  {
    if |vs| == 0 {
    } else {
      DataPacketsContents(vs[1..]);
      forall p | p in S.DataPackets(vs) ensures exists v :: v in vs && v.send && p == Wire(v.seg.pkt) {
        if p in S.DataPackets(vs[1..]) {
          var v :| v in vs[1..] && v.send && p == Wire(v.seg.pkt);
          assert v in vs;
        } else {
          assert vs[0] in vs;
        }
      }
    }
  }

  lemma {:induction false} AdmitTakesFromQueue(log: seq<Frag>, x: S.Flusher, s: Sender, cwnd: int)
    requires SendSide(log, s)
    ensures SendSide(log, S.Admit(Unbounded, x, s, cwnd))
    ensures s.nxt <= S.Admit(Unbounded, x, s, cwnd).nxt
    ensures forall n :: InBuf(s.buf, n) || s.nxt <= n < S.Admit(Unbounded, x, s, cwnd).nxt
              ==> InBuf(S.Admit(Unbounded, x, s, cwnd).buf, n)
    decreases |s.queue|
  {
    if Diff(Unbounded, s.nxt, s.una + cwnd) < 0 && |s.queue| > 0 {
      var f := s.queue[0];
      var p := Packet(x.cfg.conv, CMD_PUSH, f.frg, x.wnd, x.now, s.nxt, x.rcvNxt, f.data);
      var last := Sent(p, x.now, x.rto, 0, 0);
      var t := s.(nxt := s.nxt + 1, queue := s.queue[1..], buf := s.buf + [last]);
      forall n | InBuf(s.buf, n) || n == s.nxt ensures InBuf(t.buf, n) {
        if n == s.nxt {
          assert last in t.buf;
        } else {
          var y :| y in s.buf && y.pkt.sn == n;
          assert y in t.buf;
        }
      }
      AdmitTakesFromQueue(log, x, t, cwnd);
    }
  }

  /** Visiting a segment changes neither its number nor its content. */
  lemma VisitKeepsContent(log: seq<Frag>, x: S.Flusher, s: Sender)
    requires SendSide(log, s)
    ensures var t := s.(buf := S.Segments(S.VisitAll(x, s.buf)));
            SendSide(log, t) && (forall n :: InBuf(s.buf, n) ==> InBuf(t.buf, n))
  {
    SamePackets(s.buf, S.Segments(S.VisitAll(x, s.buf)));
  }

  /** The log's fragment numbers survive the 16-bit header field. */
  ghost predicate SmallNumbers(log: seq<Frag>) {
    forall f :: f in log ==> 0 <= f.frg < 0x1_0000
  }

  lemma VisitCarries(log: seq<Frag>, x: S.Flusher, s: Sent)
    requires Carries(log, s.pkt) && s.pkt.cmd == CMD_PUSH && SmallNumbers(log)
    requires S.Visit(x, s).send
    ensures var p := Wire(S.Visit(x, s).seg.pkt);
            p.cmd == CMD_PUSH && p.una == x.rcvNxt && 0 <= p.wnd && Carries(log, p) && p.sn == s.pkt.sn
  {
    var p := S.Visit(x, s).seg.pkt;
    assert p == s.pkt.(ts := x.now, wnd := x.wnd, una := x.rcvNxt);
    assert log[s.pkt.sn] in log;
    assert p.frg % 0x1_0000 == p.frg;
  }

  lemma VisitsCarry(log: seq<Frag>, x: S.Flusher, s: Sender, ps: seq<Packet>)
    requires SendSide(log, s) && SmallNumbers(log)
    requires ps == S.DataPackets(S.VisitAll(x, s.buf))
    requires forall i :: 0 <= i < |s.buf| ==> s.buf[i].pkt.sn < s.nxt
    ensures DataWell(log, s.nxt, ps)
    ensures forall p :: p in ps ==> p.cmd == CMD_PUSH && p.una == x.rcvNxt && 0 <= p.wnd
  {
    var vs := S.VisitAll(x, s.buf);
    DataPacketsContents(vs);
    forall p | p in ps
      ensures p.cmd == CMD_PUSH && p.una == x.rcvNxt && 0 <= p.wnd && Carries(log, p) && p.sn < s.nxt
    {
      var v :| v in vs && v.send && p == Wire(v.seg.pkt);
      var i :| 0 <= i < |vs| && vs[i] == v;
      assert s.buf[i] in s.buf;
      VisitCarries(log, x, s.buf[i]);
    }
  }

  lemma SenderBelowNxt(sndWnd: int, s: Sender)
    requires SenderOk(Unbounded, sndWnd, s)
    ensures forall i :: 0 <= i < |s.buf| ==> s.buf[i].pkt.sn < s.nxt
  {
    forall i | 0 <= i < |s.buf| ensures s.buf[i].pkt.sn < s.nxt {
      assert Off(Unbounded, s.una, SentSns(s.buf)[i]) < Off(Unbounded, s.una, s.nxt);
    }
  }

  /** One flush, seen by its own sending side, by its own receiving side and on the wire. */
  lemma FlushIsSound(log: seq<Frag>, e: Endpoint, peer: Receiver)
    requires EndpointOk(Unbounded, e) && SendSide(log, e.snd) && SmallNumbers(log)
    requires AckListWell(e.rcv) && NoLoss(e.snd, peer) && 0 <= e.rcv.nxt
    ensures var (t, out) := S.Flush(Unbounded, e);
            && SendSide(log, t.snd) && NoLoss(t.snd, peer) && e.snd.nxt <= t.snd.nxt
            && (forall d :: d in out ==> DataWell(log, t.snd.nxt, d) && AcksWell(e.rcv, d))
            && (forall d, p :: d in out && p in d ==> 0 <= p.wnd)
  {
    if e.clock.updated {
      var x, cwnd := S.FlusherOf(e), S.Window(e);
      var s := S.Admit(Unbounded, x, e.snd, cwnd);
      AdmitTakesFromQueue(log, x, e.snd, cwnd);
      VisitKeepsContent(log, x, s);
      AdmitKeepsSender(Unbounded, x, e.cfg.sndWnd, e.snd, cwnd);
      SenderBelowNxt(e.cfg.sndWnd, s);
      FlushPacketsSound(log, e, s);
      PackContents(e.cfg.mtu, S.FlushPackets(Unbounded, e), []);
    }
  }

  lemma FlushPacketsSound(log: seq<Frag>, e: Endpoint, s: Sender)
    requires s == S.Admit(Unbounded, S.FlusherOf(e), e.snd, S.Window(e))
    requires SendSide(log, s) && SmallNumbers(log) && AckListWell(e.rcv) && 0 <= e.rcv.nxt
    requires forall i :: 0 <= i < |s.buf| ==> s.buf[i].pkt.sn < s.nxt
    ensures DataWell(log, s.nxt, S.FlushPackets(Unbounded, e))
    ensures AcksWell(e.rcv, S.FlushPackets(Unbounded, e))
    ensures forall p :: p in S.FlushPackets(Unbounded, e) ==> 0 <= p.wnd
  {
    AckPacketsContents(S.FlusherOf(e), e.rcv.acks);
    VisitsCarry(log, S.FlusherOf(e), s, S.DataPackets(S.FlushVisits(Unbounded, e)));
  }
}
