/** What a datagram does when it arrives: which segments it brings in, which it acknowledges
    and which acknowledgements it calls for. */
module KcpArrival {
  import opened Circular
  import opened KcpState
  import opened KcpWindows
  import opened KcpInvariants
  import opened KcpSystem
  import KcpEndToEnd
  import KcpMessages
  import KcpUser
  import S = KcpSpec

  // ---------------------------------------------------------------- one data segment

  /** A segment inside the receive window is acknowledged and kept: afterwards its number is
      in the queue or in `rcv_buf`, the segment itself unless one with its number was there
      already, and everything that was there still is. */
  lemma PushInWindow(a: Arith, rcvWnd: int, r: Receiver, p: Packet)
    requires Stored(a, r.nxt) && Stored(a, p.sn) && 0 < rcvWnd < HALF
    requires 0 <= Off(a, r.nxt, p.sn) < rcvWnd
    ensures var t := S.OnPush(a, rcvWnd, r, p);
            && t.acks == r.acks + [Ack(p.sn, p.ts)]
            && r.queue <= t.queue
            && (exists q :: q in t.queue + t.buf && q.sn == p.sn)
            && (p in t.queue + t.buf || exists q :: q in r.buf && q.sn == p.sn)
            && (forall q :: q in r.queue + r.buf ==> q in t.queue + t.buf)
            && (forall q :: q in t.queue + t.buf ==> q in r.queue + r.buf || q == p)
  {
    hide S.MoveReady;
    hide S.Insert;
    hide Diff;
    hide Off;
    InReceiveWindow(a, rcvWnd, r.nxt, p.sn);
    var r1 := r.(acks := r.acks + [Ack(p.sn, p.ts)], buf := S.Insert(a, r.buf, p));
    InsertContents(a, r.buf, p);
    InsertedOrPresent(a, r.buf, p);
    KcpUser.MoveReadyMoves(a, rcvWnd, r1);
    var t := S.MoveReady(a, rcvWnd, r1);
    var q :| q in r1.buf && q.sn == p.sn;
    assert q in r1.queue + r1.buf;
  }

  lemma {:induction false} InsertedOrPresent(a: Arith, buf: seq<Packet>, p: Packet)
    ensures p in S.Insert(a, buf, p) || exists q :: q in buf && q.sn == p.sn
    decreases |buf|
  {
    if |buf| == 0 {
    } else {
      var init, last := buf[..|buf| - 1], buf[|buf| - 1];
      assert last in buf;
      if last.sn != p.sn && Diff(a, p.sn, last.sn) <= 0 {
        InsertedOrPresent(a, init, p);
        if p !in S.Insert(a, init, p) {
          var q :| q in init && q.sn == p.sn;
          assert q in buf;
        }
      }
    }
  }

  /** Outside the window: an old segment is only acknowledged again, one beyond it is ignored. */
  lemma PushOutsideWindow(rcvWnd: int, r: Receiver, p: Packet)
    requires 0 < rcvWnd
    ensures p.sn < r.nxt ==> S.OnPush(Unbounded, rcvWnd, r, p) == r.(acks := r.acks + [Ack(p.sn, p.ts)])
    ensures r.nxt + rcvWnd <= p.sn ==> S.OnPush(Unbounded, rcvWnd, r, p) == r
  {
  }

  /** On 32-bit numbers a segment is old if it lies at most 2^31 behind the end of the window. */
  lemma WrappedPushOutsideWindow(rcvWnd: int, r: Receiver, p: Packet)
    requires Word(r.nxt) && Word(p.sn) && 0 < rcvWnd < HALF && rcvWnd <= Off(Wrap32, r.nxt, p.sn)
    ensures S.OnPush(Wrap32, rcvWnd, r, p) ==
            if HALF + rcvWnd <= Off(Wrap32, r.nxt, p.sn) then r.(acks := r.acks + [Ack(p.sn, p.ts)]) else r
  {
    var k := Off(Wrap32, r.nxt, p.sn);
    OldIsBehind(r.nxt, p.sn, rcvWnd, k);
  }

  lemma OldIsBehind(nxt: int, sn: int, rcvWnd: int, k: int)
    requires Word(nxt) && Word(sn) && 0 < rcvWnd < HALF && k == U32(sn - nxt) && rcvWnd <= k
    ensures Diff(Wrap32, sn, U32(nxt + rcvWnd)) < 0 <==> HALF + rcvWnd <= k
    ensures Diff(Wrap32, sn, U32(nxt + rcvWnd)) < 0 ==> Diff(Wrap32, sn, nxt) < 0
  {
    var i := (sn - nxt) / MODULUS;
    assert sn - (nxt + rcvWnd) == k - rcvWnd + MODULUS * i;
    WordDistance(sn, nxt + rcvWnd, k - rcvWnd, i);
    WordDistance(sn, nxt, k, i);
  }

  lemma WordDistance(x: int, y: int, k: int, i: int)
    requires Word(x) && x - y == k + MODULUS * i && 0 <= k < MODULUS
    ensures Diff(Wrap32, x, U32(y)) == (if k < HALF then k else k - MODULUS)
    ensures Diff(Wrap32, x, y) == (if k < HALF then k else k - MODULUS)
  {
    U32Minus(x, y);
    U32Shift(k, i);
    assert U32(x) == x && U32(k) == k;
  }

  // ---------------------------------------------------------------- acknowledgements

  /** The packets acknowledge number `n`: cumulatively, or by name. */
  ghost predicate Acknowledged(ps: seq<Packet>, n: int) {
    exists p :: p in ps && (n < p.una || (p.cmd == CMD_ACK && p.sn == n))
  }

  ghost predicate Increasing(buf: seq<Sent>) {
    forall i, j :: 0 <= i < j < |buf| ==> buf[i].pkt.sn < buf[j].pkt.sn
  }

  lemma SenderIncreasing(sndWnd: int, s: Sender)
    requires SenderOk(Unbounded, sndWnd, s)
    ensures Increasing(s.buf) && forall x :: x in s.buf ==> s.una <= x.pkt.sn < s.nxt
  {
    var sns := SentSns(s.buf);
    forall i, j | 0 <= i < j < |s.buf| ensures s.buf[i].pkt.sn < s.buf[j].pkt.sn {
      assert Off(Unbounded, s.una, sns[i]) < Off(Unbounded, s.una, sns[j]);
    }
    forall x | x in s.buf ensures s.una <= x.pkt.sn < s.nxt {
      var i :| 0 <= i < |s.buf| && s.buf[i] == x;
      assert 0 <= Off(Unbounded, s.una, sns[i]) < Off(Unbounded, s.una, s.nxt);
    }
  }

  lemma {:induction false} DropBelowExactly(buf: seq<Sent>, una: int)
    requires Increasing(buf)
    ensures forall x :: x in S.DropBelow(Unbounded, buf, una) <==> x in buf && una <= x.pkt.sn
    ensures Increasing(S.DropBelow(Unbounded, buf, una))
  {
    if |buf| == 0 {
    } else if una > buf[0].pkt.sn {
      assert buf == [buf[0]] + buf[1..];
      DropBelowExactly(buf[1..], una);
    } else {
      forall x | x in buf ensures una <= x.pkt.sn {
        var i :| 0 <= i < |buf| && buf[i] == x;
      }
    }
  }

  lemma {:induction false} RemoveSnExactly(buf: seq<Sent>, sn: int)
    requires Increasing(buf)
    ensures forall x :: x in S.RemoveSn(Unbounded, buf, sn) <==> x in buf && x.pkt.sn != sn
  {
    if |buf| == 0 {
    } else {
      var rest := buf[1..];
      assert buf == [buf[0]] + rest;
      forall x | x in rest ensures buf[0].pkt.sn < x.pkt.sn {
        var i :| 0 <= i < |rest| && rest[i] == x;
        assert buf[i + 1] == x;
      }
      if sn > buf[0].pkt.sn {
        RemoveSnExactly(rest, sn);
      }
    }
  }

  /** What `una` leaves, and after it what an acknowledgement of `sn` leaves. */
  lemma RemovedInTurn(w: int, s: Sender, una: int, sn: int)
    requires SenderOk(Unbounded, w, s) && w < HALF
    ensures var s1 := S.Shrink(s.(buf := S.DropBelow(Unbounded, s.buf, una)));
            && (forall x :: x in s1.buf <==> x in s.buf && una <= x.pkt.sn)
            && (forall x :: x in S.ParseAck(Unbounded, s1, sn).buf <==> x in s1.buf && x.pkt.sn != sn)
  {
    hide S.DropBelow;
    hide S.RemoveSn;
    hide SenderOk;
    SenderIncreasing(w, s);
    DropBelowExactly(s.buf, una);
    ParseUnaKeepsSender(Unbounded, w, s, una);
    var s1 := S.Shrink(s.(buf := S.DropBelow(Unbounded, s.buf, una)));
    SenderIncreasing(w, s1);
    RemoveSnExactly(s1.buf, sn);
  }

  /** One packet removes from `snd_buf` exactly the segments that it acknowledges. */
  lemma PacketAcknowledges(st: S.InState, p: Packet)
    requires EndpointOk(Unbounded, st.ep)
    ensures forall x :: x in S.OnPacket(Unbounded, st, p).ep.snd.buf <==>
                          x in st.ep.snd.buf && !Acknowledged([p], x.pkt.sn)
  {
    hide S.DropBelow;
    hide S.ParseAck;
    hide S.OnPush;
    hide SenderOk;
    hide ReceiverOk;
    assert p in [p];
    RemovedInTurn(st.ep.cfg.sndWnd, st.ep.snd, p.una, p.sn);
  }

  /** A datagram removes from `snd_buf` exactly the segments that it acknowledges. */
  lemma {:induction false} PacketsAcknowledge(st: S.InState, ps: seq<Packet>)
    requires EndpointOk(Unbounded, st.ep) && forall p :: p in ps ==> Readable(Unbounded, p)
    ensures forall x :: x in S.OnPackets(Unbounded, st, ps).ep.snd.buf <==>
                          x in st.ep.snd.buf && !Acknowledged(ps, x.pkt.sn)
    decreases |ps|
  {
    hide EndpointOk;
    hide S.OnPacket;
    if |ps| == 0 {
    } else {
      PacketAcknowledges(st, ps[0]);
      OnPacketKeepsEndpoint(Unbounded, st, ps[0]);
      PacketsAcknowledge(S.OnPacket(Unbounded, st, ps[0]), ps[1..]);
      forall n ensures Acknowledged(ps, n) <==> Acknowledged([ps[0]], n) || Acknowledged(ps[1..], n) {
        AcknowledgedSplit(ps, n);
      }
    }
  }

  lemma AcknowledgedSplit(ps: seq<Packet>, n: int)
    requires |ps| > 0
    ensures Acknowledged(ps, n) <==> Acknowledged([ps[0]], n) || Acknowledged(ps[1..], n)
  {
    assert ps == [ps[0]] + ps[1..];
    if Acknowledged(ps, n) {
      var p :| p in ps && (n < p.una || (p.cmd == CMD_ACK && p.sn == n));
      assert p in [ps[0]] || p in ps[1..];
    }
    if Acknowledged([ps[0]], n) {
      assert ps[0] in ps;
    }
    if Acknowledged(ps[1..], n) {
      var p :| p in ps[1..] && (n < p.una || (p.cmd == CMD_ACK && p.sn == n));
      assert p in ps;
    }
  }

  // ---------------------------------------------------------------- the data of a datagram

  /** The packets bring segment number `n`. */
  ghost predicate Brings(ps: seq<Packet>, n: int) {
    exists p :: p in ps && p.cmd == CMD_PUSH && p.sn == n
  }

  /** What a receiver has gained from a list of packets: it has and acknowledges whatever
      falls inside its window or before it, keeps what it had, and gains nothing else. */
  ghost predicate Heard(rcvWnd: int, r: Receiver, t: Receiver, ps: seq<Packet>) {
    && r.nxt <= t.nxt && r.acks <= t.acks
    && (forall n :: Has(r, n) ==> Has(t, n))
    && (forall n :: Has(t, n) ==> Has(r, n) || Brings(ps, n))
    && (forall p :: p in ps && p.cmd == CMD_PUSH && p.sn < r.nxt + rcvWnd ==>
          Ack(p.sn, p.ts) in t.acks && (0 <= p.sn ==> Has(t, p.sn)))
    && (forall k :: k in t.acks[|r.acks|..] ==> exists p :: p in ps && p.cmd == CMD_PUSH && k == Ack(p.sn, p.ts))
  }

  lemma {:induction false} MoveReadyHas(rcvWnd: int, r: Receiver)
    requires 0 <= r.nxt
    ensures var t := S.MoveReady(Unbounded, rcvWnd, r);
            r.nxt <= t.nxt && t.acks == r.acks && forall n :: Has(t, n) <==> Has(r, n)
    decreases |r.buf|
  {
    if |r.buf| > 0 && r.buf[0].sn == r.nxt && |r.queue| < rcvWnd {
      var t := r.(nxt := r.nxt + 1, queue := r.queue + [r.buf[0]], buf := r.buf[1..]);
      assert r.buf == [r.buf[0]] + t.buf;
      forall n ensures Has(t, n) <==> Has(r, n) {
        if n == r.nxt {
          assert r.buf[0] in r.buf;
        }
      }
      MoveReadyHas(rcvWnd, t);
    }
  }

  lemma PushHeard(rcvWnd: int, r: Receiver, p: Packet)
    requires 0 <= r.nxt && 0 < rcvWnd < HALF && p.cmd == CMD_PUSH
    ensures Heard(rcvWnd, r, S.OnPush(Unbounded, rcvWnd, r, p), [p])
  {
    hide S.MoveReady;
    hide S.Insert;
    var t := S.OnPush(Unbounded, rcvWnd, r, p);
    assert p in [p];
    if r.nxt <= p.sn < r.nxt + rcvWnd {
      var r1 := r.(acks := r.acks + [Ack(p.sn, p.ts)], buf := S.Insert(Unbounded, r.buf, p));
      InsertContents(Unbounded, r.buf, p);
      MoveReadyHas(rcvWnd, r1);
      assert Has(r1, p.sn);
      assert forall n :: Has(r, n) ==> Has(r1, n);
      assert forall n :: Has(r1, n) ==> Has(r, n) || n == p.sn;
    } else if p.sn < r.nxt {
      PushOutsideWindow(rcvWnd, r, p);
      assert forall n :: Has(r, n) <==> Has(t, n);
    } else {
      PushOutsideWindow(rcvWnd, r, p);
    }
  }

  lemma PacketHeard(st: S.InState, p: Packet)
    requires ConfigOk(st.ep.cfg) && 0 <= st.ep.rcv.nxt
    ensures Heard(st.ep.cfg.rcvWnd, st.ep.rcv, S.OnPacket(Unbounded, st, p).ep.rcv, [p])
    ensures S.OnPacket(Unbounded, st, p).ep.cfg == st.ep.cfg
  {
    hide S.OnPush;
    if p.cmd == CMD_PUSH {
      PushHeard(st.ep.cfg.rcvWnd, st.ep.rcv, p);
    }
  }

  lemma HeardTwice(rcvWnd: int, r: Receiver, t: Receiver, u: Receiver, ps: seq<Packet>)
    requires |ps| > 0 && Heard(rcvWnd, r, t, [ps[0]]) && Heard(rcvWnd, t, u, ps[1..])
    ensures Heard(rcvWnd, r, u, ps)
  {
    var head, rest := [ps[0]], ps[1..];
    assert ps == head + rest;
    forall n | Has(u, n) ensures Has(r, n) || Brings(ps, n) {
      if Brings(rest, n) {
        var p :| p in rest && p.cmd == CMD_PUSH && p.sn == n;
        assert p in ps;
      } else if Brings(head, n) {
        assert ps[0] in ps;
      }
    }
    forall p | p in ps && p.cmd == CMD_PUSH && p.sn < r.nxt + rcvWnd
      ensures Ack(p.sn, p.ts) in u.acks && (0 <= p.sn ==> Has(u, p.sn))
    {
      if p !in rest {
        assert p in head;
      }
    }
    forall k | k in u.acks[|r.acks|..]
      ensures exists p :: p in ps && p.cmd == CMD_PUSH && k == Ack(p.sn, p.ts)
    {
      AcksSplit(r.acks, t.acks, u.acks, k);
      if k in u.acks[|t.acks|..] {
        var p :| p in rest && p.cmd == CMD_PUSH && k == Ack(p.sn, p.ts);
        assert p in ps;
      } else {
        var p :| p in head && p.cmd == CMD_PUSH && k == Ack(p.sn, p.ts);
        assert p in ps;
      }
    }
  }

  lemma AcksSplit(r: seq<Ack>, t: seq<Ack>, u: seq<Ack>, k: Ack)
    requires r <= t <= u && k in u[|r|..]
    ensures k in t[|r|..] || k in u[|t|..]
  {
    assert u[|r|..] == t[|r|..] + u[|t|..];
  }

  lemma {:induction false} PacketsHeard(st: S.InState, ps: seq<Packet>)
    requires ConfigOk(st.ep.cfg) && 0 <= st.ep.rcv.nxt
    ensures Heard(st.ep.cfg.rcvWnd, st.ep.rcv, S.OnPackets(Unbounded, st, ps).ep.rcv, ps)
    decreases |ps|
  {
    hide S.OnPacket;
    hide Heard;
    if |ps| == 0 {
      HeardNothing(st.ep.cfg.rcvWnd, st.ep.rcv, ps);
    } else {
      var st1 := S.OnPacket(Unbounded, st, ps[0]);
      PacketHeard(st, ps[0]);
      HeardOnlyForward(st.ep.cfg.rcvWnd, st.ep.rcv, st1.ep.rcv, [ps[0]]);
      PacketsHeard(st1, ps[1..]);
      HeardTwice(st.ep.cfg.rcvWnd, st.ep.rcv, st1.ep.rcv, S.OnPackets(Unbounded, st, ps).ep.rcv, ps);
    }
  }

  lemma HeardNothing(rcvWnd: int, r: Receiver, ps: seq<Packet>)
    requires |ps| == 0
    ensures Heard(rcvWnd, r, r, ps)
  {
  }

  lemma HeardOnlyForward(rcvWnd: int, r: Receiver, t: Receiver, ps: seq<Packet>)
    requires Heard(rcvWnd, r, t, ps)
    ensures r.nxt <= t.nxt
  {
  }

  // ---------------------------------------------------------------- the rest of a datagram

  /** The round-trip times that a list of packets reports: one for each acknowledgement whose
      time stamp is not in the future. */
  function Samples(now: int, ps: seq<Packet>): seq<int> {
    if |ps| == 0 then []
    else
      (if ps[0].cmd == CMD_ACK && TimeDiff(now, ps[0].ts) >= 0 then [TimeDiff(now, ps[0].ts)] else []) +
      Samples(now, ps[1..])
  }

  function Estimate(cfg: Config, r: Rtt, samples: seq<int>): Rtt
    decreases |samples|
  {
    if |samples| == 0 then r else Estimate(cfg, S.UpdateAck(cfg, r, samples[0]), samples[1..])
  }

  /** The largest acknowledgement of a list of packets, if there is one. */
  ghost predicate LargestAck(ps: seq<Packet>, sn: int) {
    && (exists p :: p in ps && p.cmd == CMD_ACK && p.sn == sn)
    && (forall p :: p in ps && p.cmd == CMD_ACK ==> p.sn <= sn)
  }

  /** What the segments of a datagram leave behind besides data and acknowledgements: the
      window of the last one, a request to tell the own window, and the time samples. */
  ghost predicate Noted(e: Endpoint, t: Endpoint, ps: seq<Packet>) {
    && t.cong == e.cong.(rmtWnd := if |ps| > 0 then ps[|ps| - 1].wnd else e.cong.rmtWnd)
    && t.probe == e.probe.(askTell := t.probe.askTell)
    && (t.probe.askTell <==> e.probe.askTell || exists p :: p in ps && p.cmd == CMD_WASK)
    && t.rtt == Estimate(e.cfg, e.rtt, Samples(e.clock.current, ps))
    && t.clock == e.clock && t.cfg == e.cfg && t.xmit == e.xmit && t.dead == e.dead
    && t.snd.nxt == e.snd.nxt && t.snd.queue == e.snd.queue
  }

  lemma PacketNoted(st: S.InState, p: Packet)
    ensures Noted(st.ep, S.OnPacket(Unbounded, st, p).ep, [p])
  {
    hide S.OnPush;
    hide S.DropBelow;
    hide S.RemoveSn;
    hide S.UpdateAck;
    assert p in [p];
    var now := st.ep.clock.current;
    assert [p][1..] == [];
    assert Samples(now, [p]) ==
           if p.cmd == CMD_ACK && TimeDiff(now, p.ts) >= 0 then [TimeDiff(now, p.ts)] else [];
    if p.cmd == CMD_ACK && TimeDiff(now, p.ts) >= 0 {
      OneSample(st.ep.cfg, st.ep.rtt, TimeDiff(now, p.ts));
    }
  }

  lemma OneSample(cfg: Config, r: Rtt, sample: int)
    ensures Estimate(cfg, r, [sample]) == S.UpdateAck(cfg, r, sample)
  {
    hide S.UpdateAck;
    assert [sample][1..] == [];
  }

  lemma NotedTwice(e: Endpoint, t: Endpoint, u: Endpoint, ps: seq<Packet>)
    requires |ps| > 0 && Noted(e, t, [ps[0]]) && Noted(t, u, ps[1..])
    ensures Noted(e, u, ps)
  {
    hide S.UpdateAck;
    hide TimeDiff;
    assert ps == [ps[0]] + ps[1..];
    var now := e.clock.current;
    assert [ps[0]][1..] == [];
    assert Samples(now, ps) == Samples(now, [ps[0]]) + Samples(now, ps[1..]);
    EstimateInTurn(e.cfg, e.rtt, Samples(now, [ps[0]]), Samples(now, ps[1..]));
  }

  lemma {:induction false} EstimateInTurn(cfg: Config, r: Rtt, a: seq<int>, b: seq<int>)
    ensures Estimate(cfg, r, a + b) == Estimate(cfg, Estimate(cfg, r, a), b)
    decreases |a|
  {
    hide S.UpdateAck;
    if |a| == 0 {
      assert a + b == b;
    } else {
      assert (a + b)[1..] == a[1..] + b;
      EstimateInTurn(cfg, S.UpdateAck(cfg, r, a[0]), a[1..], b);
    }
  }

  lemma {:induction false} PacketsNoted(st: S.InState, ps: seq<Packet>)
    ensures Noted(st.ep, S.OnPackets(Unbounded, st, ps).ep, ps)
    decreases |ps|
  {
    hide S.OnPacket;
    hide Noted;
    if |ps| == 0 {
      NothingNoted(st.ep, ps);
    } else {
      var st1 := S.OnPacket(Unbounded, st, ps[0]);
      PacketNoted(st, ps[0]);
      PacketsNoted(st1, ps[1..]);
      NotedTwice(st.ep, st1.ep, S.OnPackets(Unbounded, st, ps).ep, ps);
    }
  }

  lemma NothingNoted(e: Endpoint, ps: seq<Packet>)
    requires |ps| == 0
    ensures Noted(e, e, ps)
  {
  }

  /** The loop remembers the largest acknowledgement. */
  lemma {:induction false} LargestIsKept(st: S.InState, ps: seq<Packet>)
    ensures var t := S.OnPackets(Unbounded, st, ps);
            && (t.acked <==> st.acked || exists p :: p in ps && p.cmd == CMD_ACK)
            && (t.acked ==>
                && ((st.acked && t.maxAck == st.maxAck) || exists p :: p in ps && p.cmd == CMD_ACK && p.sn == t.maxAck)
                && (st.acked ==> st.maxAck <= t.maxAck)
                && (forall p :: p in ps && p.cmd == CMD_ACK ==> p.sn <= t.maxAck))
    decreases |ps|
  {
    hide S.OnPacket;
    if |ps| == 0 {
    } else {
      assert ps == [ps[0]] + ps[1..];
      var st1 := S.OnPacket(Unbounded, st, ps[0]);
      AckRemembered(st, ps[0]);
      LargestIsKept(st1, ps[1..]);
      assert ps[0] in ps;
    }
  }

  lemma AckRemembered(st: S.InState, p: Packet)
    ensures var t := S.OnPacket(Unbounded, st, p);
            && (t.acked <==> st.acked || p.cmd == CMD_ACK)
            && (p.cmd != CMD_ACK ==> t.maxAck == st.maxAck)
            && (p.cmd == CMD_ACK ==>
                t.maxAck == if st.acked && p.sn <= st.maxAck then st.maxAck else p.sn)
  {
  }

  // ---------------------------------------------------------------- a whole datagram

  /** A segment in flight with a number above `n` is the largest one acknowledged. */
  ghost predicate Overtaken(ps: seq<Packet>, una: int, nxt: int, n: int) {
    exists sn :: LargestAck(ps, sn) && una <= sn < nxt && n < sn
  }

  function Counted(x: Sent, skipped: bool): Sent {
    if skipped then x.(fastack := U32(x.fastack + 1)) else x
  }

  /** The end of the input call counts one skip on every segment before the largest
      acknowledgement in flight. */
  lemma SkipsCounted(cfg: Config, s: Sender, acked: bool, largest: int, ps: seq<Packet>)
    requires ConfigOk(cfg) && SenderOk(Unbounded, cfg.sndWnd, s)
    requires acked ==> LargestAck(ps, largest)
    requires !acked ==> forall p :: p in ps ==> p.cmd != CMD_ACK
    ensures var t := if acked then S.ParseFastack(Unbounded, s, largest) else s;
            && t == s.(buf := t.buf) && |t.buf| == |s.buf|
            && forall i :: 0 <= i < |s.buf| ==>
                 t.buf[i] == Counted(s.buf[i], Overtaken(ps, s.una, s.nxt, s.buf[i].pkt.sn))
  {
    hide SenderOk;
    if acked {
      forall n ensures Overtaken(ps, s.una, s.nxt, n) <==> s.una <= largest < s.nxt && n < largest {
        OnlyLargest(ps, s, largest, n);
      }
      if s.una <= largest < s.nxt {
        forall i | 0 <= i < |s.buf|
          ensures |S.CountSkips(Unbounded, s.buf, largest)| == |s.buf|
          ensures S.CountSkips(Unbounded, s.buf, largest)[i] == Counted(s.buf[i], s.buf[i].pkt.sn < largest)
        {
          FastackCountsEarlier(Unbounded, cfg.sndWnd, s, largest, i);
        }
        CountSkipsKeepsSns(Unbounded, s.buf, largest);
      }
    }
  }

  lemma OnlyLargest(ps: seq<Packet>, s: Sender, largest: int, n: int)
    requires LargestAck(ps, largest)
    ensures Overtaken(ps, s.una, s.nxt, n) <==> s.una <= largest < s.nxt && n < largest
  {
    if Overtaken(ps, s.una, s.nxt, n) {
      var sn :| LargestAck(ps, sn) && s.una <= sn < s.nxt && n < sn;
      assert sn == largest;
    }
  }

  /** Everything that a datagram does to an endpoint, whoever sent it; `ok` tells whether it
      was read to its end. */
  ghost predicate Arrived(e: Endpoint, t: Endpoint, ps: seq<Packet>, ok: bool)
    requires 0 < e.cfg.mss
  {
    && Heard(e.cfg.rcvWnd, e.rcv, t.rcv, ps)
    && Noted(e, t.(cong := e.cong.(rmtWnd := t.cong.rmtWnd)), ps)
    && (forall n :: InBuf(t.snd.buf, n) <==> InBuf(e.snd.buf, n) && !Acknowledged(ps, n))
    && (forall y :: y in t.snd.buf ==>
          exists x :: x in e.snd.buf && y == Counted(x, ok && Overtaken(ps, t.snd.una, t.snd.nxt, x.pkt.sn)))
    && t.cong == if ok && t.snd.una > e.snd.una then S.GrowCwnd(e.cfg.mss, e.cong.(rmtWnd := t.cong.rmtWnd))
                 else e.cong.(rmtWnd := t.cong.rmtWnd)
  }

  /** What the end of the call adds to what the segments left behind. */
  lemma EndOfInput(e: Endpoint, st: S.InState, t: Endpoint, ps: seq<Packet>, ok: bool)
    requires ConfigOk(e.cfg) && SenderOk(Unbounded, e.cfg.sndWnd, st.ep.snd) && Noted(e, st.ep, ps)
    requires forall x :: x in st.ep.snd.buf <==> x in e.snd.buf && !Acknowledged(ps, x.pkt.sn)
    requires st.acked ==> LargestAck(ps, st.maxAck)
    requires !st.acked ==> forall p :: p in ps ==> p.cmd != CMD_ACK
    requires 0 <= st.ep.cong.cwnd && 0 <= st.ep.cong.rmtWnd
    requires 0 < st.ep.cfg.mss && t == if ok then S.Finish(Unbounded, st, e.snd.una) else st.ep
    ensures t.rcv == st.ep.rcv && Noted(e, t.(cong := e.cong.(rmtWnd := t.cong.rmtWnd)), ps)
    ensures forall n :: InBuf(t.snd.buf, n) <==> InBuf(e.snd.buf, n) && !Acknowledged(ps, n)
    ensures forall y :: y in t.snd.buf ==>
              exists x :: x in e.snd.buf && y == Counted(x, ok && Overtaken(ps, t.snd.una, t.snd.nxt, x.pkt.sn))
    ensures t.cong == if ok && t.snd.una > e.snd.una then S.GrowCwnd(e.cfg.mss, e.cong.(rmtWnd := t.cong.rmtWnd))
                      else e.cong.(rmtWnd := t.cong.rmtWnd)
  {
    hide S.GrowCwnd;
    hide S.ParseFastack;
    hide Noted;
    hide Acknowledged;
    hide Overtaken;
    hide LargestAck;
    hide SenderOk;
    NotedWindow(e, st.ep, ps);
    if ok {
      SkipsCounted(e.cfg, st.ep.snd, st.acked, st.maxAck, ps);
    }
    SendersAgree(e.snd, st.ep.snd, t.snd, ps, ok);
    GrowCwndKeepsSign(e.cfg.mss, st.ep.cong);
    NotedElsewhere(e, st.ep, t.(cong := e.cong.(rmtWnd := t.cong.rmtWnd)), ps);
  }

  /** A datagram does all of that, and nothing else. */
  lemma ArrivalExactly(e: Endpoint, ps: seq<Packet>, ok: bool)
    requires EndpointOk(Unbounded, e) && 0 <= e.rcv.nxt
    requires forall p :: p in ps ==> Readable(Unbounded, p)
    ensures Arrived(e, S.Input(Unbounded, e, ps, ok), ps, ok)
  {
    hide S.OnPackets;
    hide S.Finish;
    hide S.GrowCwnd;
    hide Heard;
    hide Noted;
    hide Acknowledged;
    hide Overtaken;
    hide LargestAck;
    hide SenderOk;
    hide ReceiverOk;
    var st0 := S.InState(e, false, 0);
    var st := S.OnPackets(Unbounded, st0, ps);
    OnPacketsKeepEndpoint(Unbounded, st0, ps);
    PacketsHeard(st0, ps);
    PacketsNoted(st0, ps);
    PacketsAcknowledge(st0, ps);
    LargestOfAll(e, ps);
    NotedWindow(e, st.ep, ps);
    EndOfInput(e, st, S.Input(Unbounded, e, ps, ok), ps, ok);
  }

  lemma NotedWindow(e: Endpoint, u: Endpoint, ps: seq<Packet>)
    requires Noted(e, u, ps)
    ensures u.cong == e.cong.(rmtWnd := u.cong.rmtWnd) && u.cfg == e.cfg
  {
  }

  lemma NotedElsewhere(e: Endpoint, u: Endpoint, t: Endpoint, ps: seq<Packet>)
    requires Noted(e, u, ps) && t == u.(snd := t.snd) && t.snd == u.snd.(buf := t.snd.buf)
    ensures Noted(e, t, ps)
  {
  }

  lemma SendersAgree(s: Sender, u: Sender, t: Sender, ps: seq<Packet>, ok: bool)
    requires forall x :: x in u.buf <==> x in s.buf && !Acknowledged(ps, x.pkt.sn)
    requires t == u.(buf := t.buf) && |t.buf| == |u.buf|
    requires forall i :: 0 <= i < |u.buf| ==>
               t.buf[i] == Counted(u.buf[i], ok && Overtaken(ps, u.una, u.nxt, u.buf[i].pkt.sn))
    ensures forall n :: InBuf(t.buf, n) <==> InBuf(s.buf, n) && !Acknowledged(ps, n)
    ensures forall y :: y in t.buf ==>
              exists x :: x in s.buf && y == Counted(x, ok && Overtaken(ps, t.una, t.nxt, x.pkt.sn))
  {
    hide Acknowledged;
    hide Overtaken;
    forall n | InBuf(s.buf, n) && !Acknowledged(ps, n) ensures InBuf(t.buf, n) {
      var x :| x in s.buf && x.pkt.sn == n;
      assert x in u.buf;
      var i :| 0 <= i < |u.buf| && u.buf[i] == x;
      assert t.buf[i] in t.buf;
    }
    forall y | y in t.buf
      ensures exists x :: x in s.buf && y == Counted(x, ok && Overtaken(ps, t.una, t.nxt, x.pkt.sn))
      ensures InBuf(s.buf, y.pkt.sn) && !Acknowledged(ps, y.pkt.sn)
    {
      var i :| 0 <= i < |t.buf| && t.buf[i] == y;
      assert u.buf[i] in u.buf;
    }
  }

  lemma LargestOfAll(e: Endpoint, ps: seq<Packet>)
    ensures var st := S.OnPackets(Unbounded, S.InState(e, false, 0), ps);
            && (st.acked ==> LargestAck(ps, st.maxAck))
            && (!st.acked ==> forall p :: p in ps ==> p.cmd != CMD_ACK)
  {
    LargestIsKept(S.InState(e, false, 0), ps);
  }

  /** Delivering datagram `i` of `peer` does all of that; so each data segment in it that lies
      inside the receive window, or before it, is had afterwards and will be acknowledged, and
      each segment that it acknowledges is no longer kept for sending. */
  ghost predicate Delivers(me: Node, peer: Node, i: nat)
    requires 0 < me.ep.cfg.mss && i < |peer.out|
  {
    var t, ps := NodeStep(Unbounded, me, peer.out, Deliver(i)).ep, peer.out[i];
    && Arrived(me.ep, t, ps, true)
    && (forall p :: p in ps && p.cmd == CMD_PUSH && p.sn < me.ep.rcv.nxt + me.ep.cfg.rcvWnd ==>
          Has(t.rcv, p.sn) && Ack(p.sn, p.ts) in t.rcv.acks)
    && (forall p :: p in ps && p.cmd == CMD_ACK ==> !InBuf(t.snd.buf, p.sn))
    && (forall p, n :: p in ps && n < p.una ==> !InBuf(t.snd.buf, n))
  }

  /** So in every reachable state, for any datagram ever emitted and in both directions. */
  lemma DeliveryExactly(sys: System, events: seq<Event>, i: nat)
    requires Start(sys)
    ensures var end := Run(Unbounded, sys, events);
            && (i < |end.left.out| ==> Delivers(end.right, end.left, i))
            && (i < |end.right.out| ==> Delivers(end.left, end.right, i))
  {
    hide Delivers;
    KcpEndToEnd.StartIsOk(sys);
    KcpEndToEnd.RunKeepsSystem(sys, events);
    var end := Run(Unbounded, sys, events);
    if i < |end.left.out| {
      PairDelivers(end.right, end.left, i);
    }
    if i < |end.right.out| {
      PairDelivers(end.left, end.right, i);
    }
  }

  lemma PairDelivers(me: Node, peer: Node, i: nat)
    requires Pair(me, peer) && i < |peer.out|
    ensures Delivers(me, peer, i)
  {
    hide S.Input;
    hide Arrived;
    var ps := peer.out[i];
    assert ps in peer.out;
    DeliveredIsReadable(me, peer, ps);
    ArrivalExactly(me.ep, ps, true);
    ArrivedMeans(me.ep, S.Input(Unbounded, me.ep, ps, true), ps);
  }

  lemma DeliveredIsReadable(me: Node, peer: Node, ps: seq<Packet>)
    requires Pair(me, peer) && ps in peer.out
    ensures 0 <= me.ep.rcv.nxt
    ensures forall p :: p in ps ==> Readable(Unbounded, p) && (p.cmd == CMD_PUSH ==> 0 <= p.sn)
  {
    assert DataWell(KcpMessages.Log(peer.ep.cfg.mss, peer.sent), peer.ep.snd.nxt, ps);
  }

  lemma ArrivedMeans(e: Endpoint, t: Endpoint, ps: seq<Packet>)
    requires 0 < e.cfg.mss && Arrived(e, t, ps, true)
    requires forall p :: p in ps && p.cmd == CMD_PUSH ==> 0 <= p.sn
    ensures forall p :: p in ps && p.cmd == CMD_PUSH && p.sn < e.rcv.nxt + e.cfg.rcvWnd ==>
              Has(t.rcv, p.sn) && Ack(p.sn, p.ts) in t.rcv.acks
    ensures forall p :: p in ps && p.cmd == CMD_ACK ==> !InBuf(t.snd.buf, p.sn)
    ensures forall p, n :: p in ps && n < p.una ==> !InBuf(t.snd.buf, n)
  {
    hide InBuf;
    hide Has;
    hide Noted;
    hide Overtaken;
    hide S.GrowCwnd;
    forall p | p in ps && p.cmd == CMD_ACK ensures !InBuf(t.snd.buf, p.sn) {
      assert Acknowledged(ps, p.sn);
    }
    forall p, n | p in ps && n < p.una ensures !InBuf(t.snd.buf, n) {
      assert Acknowledged(ps, n);
    }
  }
}
