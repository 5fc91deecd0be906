/** The invariant of the two-endpoint system is kept by every step, and what it means
    for the users of the two endpoints. */
module KcpEndToEnd {
  import opened Circular
  import opened KcpState
  import opened KcpWindows
  import opened KcpInvariants
  import opened KcpMessages
  import opened KcpSystem
  import opened KcpDelivery
  import S = KcpSpec

  // ---------------------------------------------------------------- ikcp_send

  lemma {:induction false} LogNumbersSmall(mss: int, sent: seq<Message>)
    requires 0 < mss && MessagesFit(mss, sent)
    ensures SmallNumbers(Log(mss, sent))
  {
    if |sent| == 0 {
    } else {
      var m := sent[|sent| - 1];
      LogNumbersSmall(mss, sent[..|sent| - 1]);
      FragmentShape(mss, m);
      assert m in sent;
    }
  }

  /** A direction does not depend on what its sender does as a receiver, */
  lemma SameSender(s: Node, s1: Node, r: Node)
    requires Direction(s, r)
    requires s1.ep.cfg == s.ep.cfg && s1.ep.snd == s.ep.snd && s1.sent == s.sent && s1.out == s.out
    ensures Direction(s1, r)
  {
  }

  /** nor on what its receiver does as a sender. */
  lemma SameReceiver(s: Node, r: Node, r1: Node)
    requires Direction(s, r)
    requires r1.ep.rcv == r.ep.rcv && r1.got == r.got && r1.out == r.out
    ensures Direction(s, r1)
  {
  }

  lemma AcceptKeepsDirection(s: Node, s1: Node, r: Node, msg: Message)
    requires Direction(s, r) && |S.Fragment(s.ep.cfg.mss, msg)| < WND_RCV
    requires s1.ep.cfg == s.ep.cfg && s1.out == s.out && s1.sent == s.sent + [msg]
    requires s1.ep.snd == s.ep.snd.(queue := s.ep.snd.queue + S.Fragment(s.ep.cfg.mss, msg))
    ensures Direction(s1, r)
  {
    var mss := s.ep.cfg.mss;
    LogOfOneMore(mss, s.sent, msg);
    var log, log1 := Log(mss, s.sent), Log(mss, s1.sent);
    assert log1[s.ep.snd.nxt..] == s1.ep.snd.queue;
    forall d | d in s1.out ensures DataWell(log1, s1.ep.snd.nxt, d) {
      assert DataWell(log, s.ep.snd.nxt, d);
    }
  }

  lemma SendStep(me: Node, peer: Node, msg: Message)
    requires Pair(me, peer)
    ensures Pair(NodeStep(Unbounded, me, peer.out, Send(msg)), peer)
  {
    var mss := me.ep.cfg.mss;
    if S.Send(mss, me.ep.snd, msg, |msg|).1 >= 0 {
      var me1 := NodeStep(Unbounded, me, peer.out, Send(msg));
      assert msg[..|msg|] == msg;
      FragmentCountExact(mss, msg);
      AcceptKeepsDirection(me, me1, peer, msg);
      SameReceiver(peer, me, me1);
      SendKeepsEndpoint(Unbounded, me.ep, msg, |msg|);
    }
  }

  // ---------------------------------------------------------------- ikcp_recv

  /** The message at the head of a receive queue is the first one not yet returned. */
  lemma HeadMessage(s: Node, r: Node)
    requires Direction(s, r) && QueueOk(Unbounded, r.ep.rcv) && |r.ep.rcv.queue| > 0
    ensures |r.got| < |s.sent|
    ensures var fs := S.Fragment(s.ep.cfg.mss, s.sent[|r.got|]);
            && r.ep.rcv.queue[0].frg == |fs| - 1
            && (|fs| <= |r.ep.rcv.queue| ==> StartsWith(r.ep.rcv.queue, fs))
            && |Log(s.ep.cfg.mss, r.got + [s.sent[|r.got|]])| == |Log(s.ep.cfg.mss, r.got)| + |fs|
  {
    var mss, q := s.ep.cfg.mss, r.ep.rcv.queue;
    forall i | 0 <= i < |q| ensures q[i].sn == |Log(mss, r.got)| + i && Carries(Log(mss, s.sent), q[i]) {
      assert q[i] in q;
    }
    NextMessage(mss, s.sent, r.got, Log(mss, s.sent), |Log(mss, r.got)|, q);
  }

  /** `ikcp_recv` either fails or returns exactly the first message not yet returned. */
  lemma RecvReturnsNext(s: Node, r: Node, len: int)
    requires Direction(s, r) && QueueOk(Unbounded, r.ep.rcv)
    requires S.Recv(Unbounded, r.ep, len).ret >= 0
    ensures |r.got| < |s.sent|
    ensures var m := s.sent[|r.got|];
            && S.Recv(Unbounded, r.ep, len).data == m
            && S.Recv(Unbounded, r.ep, len).ret == |m|
            && S.MergeCount(r.ep.rcv.queue) == |S.Fragment(s.ep.cfg.mss, m)|
  {
    HeadMessage(s, r);
    Reassembles(s.ep.cfg.mss, s.sent[|r.got|], r.ep.rcv.queue);
  }

  lemma RecvKeepsReceiving(s: Node, r: Node, r1: Node, len: int)
    requires Direction(s, r) && QueueOk(Unbounded, r.ep.rcv)
    requires S.Recv(Unbounded, r.ep, len).ret >= 0
    requires 0 < r.ep.cfg.mss && r1 == NodeStep(Unbounded, r, s.out, Recv(len))
    ensures Direction(s, r1)
  {
    hide S.MoveReady;
    hide S.MergeCount;
    RecvReturnsNext(s, r, len);
    HeadMessage(s, r);
    var q := r.ep.rcv.queue;
    var r0 := r.ep.rcv.(queue := if len < 0 then q else q[S.MergeCount(q)..]);
    assert forall k :: Has(r.ep.rcv, k) <==> Has(r0, k);
    MoveReadyGrows(Log(s.ep.cfg.mss, s.sent), s.ep.snd.nxt, r.ep.cfg.rcvWnd, r0);
    assert r1.ep.rcv == S.MoveReady(Unbounded, r.ep.cfg.rcvWnd, r0);
    HasMoreKeepsDirection(s, r, r1);
  }

  lemma RecvTouchesReceiverOnly(me: Node, network: seq<Datagram>, len: int)
    requires 0 < me.ep.cfg.mss
    ensures var me1 := NodeStep(Unbounded, me, network, Recv(len));
            && me1.ep.cfg == me.ep.cfg && me1.ep.snd == me.ep.snd && me1.sent == me.sent && me1.out == me.out
            && (S.Recv(Unbounded, me.ep, len).ret < 0 ==> me1 == me)
  {
  }

  lemma RecvStep(me: Node, peer: Node, len: int)
    requires Pair(me, peer)
    ensures Pair(NodeStep(Unbounded, me, peer.out, Recv(len)), peer)
  {
    RecvKeepsEndpoint(Unbounded, me.ep, len);
    RecvTouchesReceiverOnly(me, peer.out, len);
    var me1 := NodeStep(Unbounded, me, peer.out, Recv(len));
    SameSender(me, me1, peer);
    if S.Recv(Unbounded, me.ep, len).ret >= 0 {
      RecvKeepsReceiving(peer, me, me1, len);
    }
  }

  /** A receiver that only gains segments keeps what its peer relies on. */
  lemma HasMoreKeepsDirection(s: Node, r: Node, r1: Node)
    requires Direction(s, r) && r1.out == r.out && r.ep.rcv.nxt <= r1.ep.rcv.nxt
    requires RecvSide(Log(s.ep.cfg.mss, s.sent), s.ep.snd.nxt, r1.ep.rcv) && AckListWell(r1.ep.rcv)
    requires forall n :: Has(r.ep.rcv, n) ==> Has(r1.ep.rcv, n)
    requires DeliveredOk(s.ep.cfg.mss, s.sent, r1.got, r1.ep.rcv)
    ensures Direction(s, r1)
  {
    forall d | d in r1.out ensures AcksWell(r1.ep.rcv, d) {
      assert AcksWell(r.ep.rcv, d);
    }
  }

  // ---------------------------------------------------------------- ikcp_input

  lemma DeliverStep(me: Node, peer: Node, i: nat)
    requires Pair(me, peer)
    ensures Pair(NodeStep(Unbounded, me, peer.out, Deliver(i)), peer)
  {
    if i < |peer.out| {
      var ps := peer.out[i];
      assert ps in peer.out;
      var mine, theirs := Log(me.ep.cfg.mss, me.sent), Log(peer.ep.cfg.mss, peer.sent);
      InputKeepsMid(mine, theirs, peer.ep.snd.nxt, me.ep, ps, peer.ep.rcv);
      var me1 := NodeStep(Unbounded, me, peer.out, Deliver(i));
      HasMoreKeepsDirection(peer, me, me1);
      assert Direction(me1, peer);
    }
  }

  // ---------------------------------------------------------------- ikcp_flush and ikcp_update

  lemma FlushNode(me: Node, network: seq<Datagram>)
    requires 0 < me.ep.cfg.mss
    ensures var (ep, out) := S.Flush(Unbounded, me.ep);
            NodeStep(Unbounded, me, network, Flush) == me.(ep := ep, out := me.out + out)
  {
    hide S.Flush;
  }

  lemma FlushStep(me: Node, peer: Node)
    requires Pair(me, peer)
    ensures Pair(NodeStep(Unbounded, me, peer.out, Flush), peer)
  {
    hide SenderOk;
    hide ReceiverOk;
    hide AcksWell;
    hide DataWell;
    hide NoLoss;
    hide SendSide;
    hide S.Flush;
    hide NodeStep;
    var mss := me.ep.cfg.mss;
    var log := Log(mss, me.sent);
    var me1 := NodeStep(Unbounded, me, peer.out, Flush);
    var (ep, out) := S.Flush(Unbounded, me.ep);
    FlushNode(me, peer.out);
    LogNumbersSmall(mss, me.sent);
    FlushIsSound(log, me.ep, peer.ep.rcv);
    FlushKeepsEndpoint(Unbounded, me.ep);
    assert me1.out[|me.out|..] == out;
    FlushKeepsSending(me, me1, peer);
    FlushKeepsReceiving(me, me1, peer);
  }

  lemma FlushKeepsSending(me: Node, me1: Node, peer: Node)
    requires Direction(me, peer)
    requires me1.sent == me.sent && me1.ep.cfg == me.ep.cfg && me.out <= me1.out
    requires SendSide(Log(me.ep.cfg.mss, me.sent), me1.ep.snd) && NoLoss(me1.ep.snd, peer.ep.rcv)
    requires me.ep.snd.nxt <= me1.ep.snd.nxt
    requires forall d :: d in me1.out[|me.out|..] ==> DataWell(Log(me.ep.cfg.mss, me.sent), me1.ep.snd.nxt, d)
    ensures Direction(me1, peer)
  {
    var log := Log(me.ep.cfg.mss, me.sent);
    forall d | d in me1.out ensures DataWell(log, me1.ep.snd.nxt, d) {
      if d !in me.out { assert d in me1.out[|me.out|..]; }
    }
  }

  lemma FlushKeepsReceiving(me: Node, me1: Node, peer: Node)
    requires Direction(peer, me)
    requires me1.got == me.got && me.out <= me1.out
    requires me1.ep.rcv == me.ep.rcv.(acks := me1.ep.rcv.acks)
      && (me1.ep.rcv.acks == [] || me1.ep.rcv.acks == me.ep.rcv.acks)
    requires forall d :: d in me1.out[|me.out|..] ==> AcksWell(me.ep.rcv, d)
    ensures Direction(peer, me1)
  {
    assert forall n :: Has(me.ep.rcv, n) <==> Has(me1.ep.rcv, n);
    forall d | d in me1.out ensures AcksWell(me1.ep.rcv, d) {
      if d in me.out {
        assert AcksWell(me.ep.rcv, d);
      } else {
        assert d in me1.out[|me.out|..];
        assert AcksWell(me.ep.rcv, d);
      }
    }
  }

  /** The node after the clock part of `ikcp_update`. */
  function Ticked(me: Node, now: int): Node {
    me.(ep := me.ep.(clock := S.Tick(me.ep.cfg.interval, me.ep.clock, now).0))
  }

  lemma UpdateIsTickThenFlush(me: Node, network: seq<Datagram>, now: int)
    requires 0 < me.ep.cfg.mss
    ensures NodeStep(Unbounded, me, network, Update(now)) ==
              if S.Tick(me.ep.cfg.interval, me.ep.clock, now).1
              then NodeStep(Unbounded, Ticked(me, now), network, Flush) else Ticked(me, now)
  {
    assert me.out + [] == me.out;
  }

  lemma UpdateStep(me: Node, peer: Node, now: int)
    requires Pair(me, peer)
    ensures Pair(NodeStep(Unbounded, me, peer.out, Update(now)), peer)
  {
    UpdateIsTickThenFlush(me, peer.out, now);
    SameSender(me, Ticked(me, now), peer);
    SameReceiver(peer, me, Ticked(me, now));
    FlushStep(Ticked(me, now), peer);
  }

  // ---------------------------------------------------------------- runs

  lemma StepKeepsSystem(sys: System, ev: Event)
    requires SystemOk(sys)
    ensures SystemOk(Step(Unbounded, sys, ev))
  {
    var me, peer := if ev.atLeft then sys.left else sys.right, if ev.atLeft then sys.right else sys.left;
    match ev.act {
      case Send(msg) => SendStep(me, peer, msg);
      case Recv(len) => RecvStep(me, peer, len);
      case Deliver(i) => DeliverStep(me, peer, i);
      case Update(now) => UpdateStep(me, peer, now);
      case Flush => FlushStep(me, peer);
    }
  }

  lemma StartIsOk(sys: System)
    requires Start(sys)
    ensures SystemOk(sys)
  {
  }

  lemma {:induction false} RunKeepsSystem(sys: System, events: seq<Event>)
    requires SystemOk(sys)
    ensures SystemOk(Run(Unbounded, sys, events))
    decreases |events|
  {
    if |events| == 0 {
    } else {
      StepKeepsSystem(sys, events[0]);
      RunKeepsSystem(Step(Unbounded, sys, events[0]), events[1..]);
    }
  }

  /** End to end: whatever the network does, each side has been given a prefix of the
      messages the other side accepted, with their content and their boundaries. */
  lemma EndToEnd(sys: System, events: seq<Event>)
    requires Start(sys)
    ensures var end := Run(Unbounded, sys, events);
            end.right.got <= end.left.sent && end.left.got <= end.right.sent
  {
    StartIsOk(sys);
    RunKeepsSystem(sys, events);
  }

  /** From `s` to `r`: each numbered segment is still in the sender's `snd_buf` or has been
      taken over by the peer, and every acknowledgement pending or ever emitted names a
      segment that the peer has. */
  ghost predicate NothingForgotten(s: Node, r: Node) {
    && (forall n :: 0 <= n < s.ep.snd.nxt ==> Has(r.ep.rcv, n) || InBuf(s.ep.snd.buf, n))
    && (forall k :: k in r.ep.rcv.acks ==> Has(r.ep.rcv, k.sn))
    && (forall d, p :: d in r.out && p in d ==>
          p.una <= r.ep.rcv.nxt && (p.cmd == CMD_ACK ==> Has(r.ep.rcv, p.sn)))
  }

  /** Acknowledgement soundness and no loss, in every reachable state and both directions. */
  lemma NothingLost(sys: System, events: seq<Event>)
    requires Start(sys)
    ensures var end := Run(Unbounded, sys, events);
            NothingForgotten(end.left, end.right) && NothingForgotten(end.right, end.left)
  {
    StartIsOk(sys);
    RunKeepsSystem(sys, events);
    var end := Run(Unbounded, sys, events);
    ForgetsNothing(end.left, end.right);
    ForgetsNothing(end.right, end.left);
  }

  lemma ForgetsNothing(s: Node, r: Node)
    requires Direction(s, r)
    ensures NothingForgotten(s, r)
  {
    forall d, p | d in r.out && p in d
      ensures p.una <= r.ep.rcv.nxt && (p.cmd == CMD_ACK ==> Has(r.ep.rcv, p.sn))
    {
      assert AcksWell(r.ep.rcv, d);
    }
  }

  /** A full receive queue has the next message complete at its head, so `ikcp_recv` with
      room for it returns that message; and a queue that is not full holds nothing back in
      `rcv_buf`. */
  ghost predicate NeverStalls(a: Arith, s: Node, r: Node, len: int) {
    && (|r.ep.rcv.queue| >= r.ep.cfg.rcvWnd ==>
          && |r.got| < |s.sent|
          && (len >= |s.sent[|r.got|]| ==>
                S.Recv(a, r.ep, len).ret == |s.sent[|r.got|]| && S.Recv(a, r.ep, len).data == s.sent[|r.got|]))
    && (|r.ep.rcv.queue| < r.ep.cfg.rcvWnd ==> !exists p :: p in r.ep.rcv.buf && p.sn == r.ep.rcv.nxt)
  }

  /** No stall, in every reachable state and both directions. */
  lemma NoStall(sys: System, events: seq<Event>, len: int)
    requires Start(sys)
    ensures var end := Run(Unbounded, sys, events);
            NeverStalls(Unbounded, end.left, end.right, len) && NeverStalls(Unbounded, end.right, end.left, len)
  {
    StartIsOk(sys);
    RunKeepsSystem(sys, events);
    var end := Run(Unbounded, sys, events);
    PairNeverStalls(end.left, end.right, len);
    PairNeverStalls(end.right, end.left, len);
  }

  lemma PairNeverStalls(s: Node, r: Node, len: int)
    requires Pair(s, r)
    ensures NeverStalls(Unbounded, s, r, len)
  {
    if |r.ep.rcv.queue| >= r.ep.cfg.rcvWnd {
      FullQueueIsReadable(s, r, len);
    } else {
      HeadIsSmallest(r.ep);
    }
  }

  lemma FullQueueIsReadable(s: Node, r: Node, len: int)
    requires Pair(s, r) && |r.ep.rcv.queue| >= r.ep.cfg.rcvWnd
    ensures |r.got| < |s.sent|
    ensures len >= |s.sent[|r.got|]| ==>
              S.Recv(Unbounded, r.ep, len).ret == |s.sent[|r.got|]|
              && S.Recv(Unbounded, r.ep, len).data == s.sent[|r.got|]
  {
    HeadMessage(s, r);
    assert s.sent[|r.got|] in s.sent;
    Reassembles(s.ep.cfg.mss, s.sent[|r.got|], r.ep.rcv.queue);
  }

  lemma HeadIsSmallest(e: Endpoint)
    requires EndpointOk(Unbounded, e) && |e.rcv.queue| < e.cfg.rcvWnd
    ensures !exists p :: p in e.rcv.buf && p.sn == e.rcv.nxt
  {
    var sns := PacketSns(e.rcv.buf);
    forall p | p in e.rcv.buf ensures p.sn != e.rcv.nxt {
      var i :| 0 <= i < |e.rcv.buf| && e.rcv.buf[i] == p;
      if i > 0 { assert Off(Unbounded, e.rcv.nxt, sns[0]) < Off(Unbounded, e.rcv.nxt, sns[i]); }
    }
  }

  /** When nothing waits to be sent (`ikcp_waitsnd` is 0), the peer has every fragment of
      every accepted message; they are returned already or lie in order in its queue, unless
      that queue is full. */
  ghost predicate Drained(s: Node, r: Node)
    requires 0 < s.ep.cfg.mss
  {
    |s.ep.snd.queue| + |s.ep.snd.buf| == 0 ==>
      && (forall n :: 0 <= n < |Log(s.ep.cfg.mss, s.sent)| ==> Has(r.ep.rcv, n))
      && (|r.ep.rcv.queue| < r.ep.cfg.rcvWnd ==> r.ep.rcv.nxt == |Log(s.ep.cfg.mss, s.sent)|)
  }

  lemma DrainedMeansReceived(sys: System, events: seq<Event>)
    requires Start(sys)
    ensures var end := Run(Unbounded, sys, events);
            Drained(end.left, end.right) && Drained(end.right, end.left)
  {
    StartIsOk(sys);
    RunKeepsSystem(sys, events);
    var end := Run(Unbounded, sys, events);
    PairDrained(end.left, end.right);
    PairDrained(end.right, end.left);
  }

  lemma PairDrained(s: Node, r: Node)
    requires Pair(s, r)
    ensures Drained(s, r)
  {
    if |s.ep.snd.queue| + |s.ep.snd.buf| == 0 {
      assert s.ep.snd.nxt == |Log(s.ep.cfg.mss, s.sent)|;
      if |r.ep.rcv.queue| < r.ep.cfg.rcvWnd {
        HeadIsSmallest(r.ep);
        assert !Has(r.ep.rcv, r.ep.rcv.nxt);
      }
    }
  }
}
