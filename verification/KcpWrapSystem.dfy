/** End-to-end delivery for the system as it runs, with 32-bit sequence numbers. */
module KcpWrapSystem {
  import opened Circular
  import opened KcpState
  import opened KcpInvariants
  import opened KcpMessages
  import opened KcpSystem
  import opened KcpWindows
  import opened KcpWrap
  import KcpEndToEnd
  import KcpUser
  import S = KcpSpec

  function WrapNode(n: Node): Node { n.(ep := WrapEndpoint(n.ep), out := WrapDatagrams(n.out)) }

  function WrapSystem(sys: System): System { System(WrapNode(sys.left), WrapNode(sys.right)) }

  /** A datagram is delivered before its numbers are too old for the receiver to place. */
  predicate NearEvent(sys: System, ev: Event) {
    var me, peer := if ev.atLeft then sys.left else sys.right, if ev.atLeft then sys.right else sys.left;
    ev.act.Deliver? && ev.act.i < |peer.out| ==> NearInput(S.InState(me.ep, false, 0), peer.out[ev.act.i])
  }

  predicate NearRun(sys: System, events: seq<Event>)
    requires Runnable(sys)
    decreases |events|
  {
    |events| > 0 ==>
      && NearEvent(sys, events[0])
      && NextIsRunnable(sys, events[0])
      && NearRun(Step(Unbounded, sys, events[0]), events[1..])
  }

  predicate NextIsRunnable(sys: System, ev: Event)
    requires Runnable(sys)
    ensures NextIsRunnable(sys, ev)
  {
    StepKeepsConfig(Unbounded, sys.left, sys.right.out, ev.act);
    StepKeepsConfig(Unbounded, sys.right, sys.left.out, ev.act);
    Runnable(Step(Unbounded, sys, ev))
  }

  lemma NodeStepWraps(me: Node, network: seq<Datagram>, act: Action)
    requires EndpointOk(Unbounded, me.ep) && WindowsWell(network)
    requires act.Deliver? && act.i < |network| ==> NearInput(S.InState(me.ep, false, 0), network[act.i])
    ensures NodeStep(Wrap32, WrapNode(me), WrapDatagrams(network), act) ==
      WrapNode(NodeStep(Unbounded, me, network, act))
  {
    match act {
      case Send(msg) =>
      case Recv(len) => RecvWraps(me.ep, len);
      case Deliver(i) =>
        if i < |network| {
          assert network[i] in network;
          InputWraps(me.ep, network[i], true);
        }
      case Update(now) =>
        UpdateWraps(me.ep, now);
        DatagramsAppend(me.out, S.Update(Unbounded, me.ep, now).1);
      case Flush =>
        FlushWraps(me.ep);
        DatagramsAppend(me.out, S.Flush(Unbounded, me.ep).1);
    }
  }

  lemma DatagramsAppend(ds: seq<Datagram>, es: seq<Datagram>)
    ensures WrapDatagrams(ds + es) == WrapDatagrams(ds) + WrapDatagrams(es)
  {
  }

  /** The wrapped system simulates the unbounded one over whole runs. */
  lemma {:induction false} RunWraps(sys: System, events: seq<Event>)
    requires SystemOk(sys) && NearRun(sys, events)
    ensures Run(Wrap32, WrapSystem(sys), events) == WrapSystem(Run(Unbounded, sys, events))
    decreases |events|
  {
    if |events| == 0 {
    } else {
      var ev := events[0];
      if ev.atLeft {
        NodeStepWraps(sys.left, sys.right.out, ev.act);
      } else {
        NodeStepWraps(sys.right, sys.left.out, ev.act);
      }
      assert Step(Wrap32, WrapSystem(sys), ev) == WrapSystem(Step(Unbounded, sys, ev));
      KcpEndToEnd.StepKeepsSystem(sys, ev);
      RunWraps(Step(Unbounded, sys, ev), events[1..]);
    }
  }

  lemma StartIsWrapped(sys: System)
    requires Start(sys)
    ensures WrapSystem(sys) == sys
  {
  }

  /** End to end with 32-bit numbers, over runs of any length and any number of wraps, as
      long as no datagram is delivered 2^31 segments late. */
  lemma WrappedEndToEnd(sys: System, events: seq<Event>)
    requires Start(sys) && NearRun(sys, events)
    ensures var end := Run(Wrap32, sys, events);
            end.right.got <= end.left.sent && end.left.got <= end.right.sent
  {
    StartIsWrapped(sys);
    KcpEndToEnd.StartIsOk(sys);
    RunWraps(sys, events);
    KcpEndToEnd.EndToEnd(sys, events);
  }

  /** The receiver has taken a number over, as far as circular comparison can tell. */
  ghost predicate Taken(r: Receiver, sn: int) {
    Diff(Wrap32, sn, r.nxt) < 0 || exists p :: p in r.buf && p.sn == sn
  }

  /** Each 32-bit number of the send window is in `snd_buf`, or the receiver has taken it. */
  ghost predicate HeldOrTaken(s: Sender, r: Receiver) {
    forall sn :: Stored(Wrap32, sn) && Off(Wrap32, s.una, sn) < Off(Wrap32, s.una, s.nxt) ==>
      InBuf(s.buf, sn) || Taken(r, sn)
  }

  lemma HasBecomesTaken(r: Receiver, n: int)
    requires Has(r, n) && (n < r.nxt ==> Comparable(n, r.nxt))
    ensures Taken(WrapReceiver(r), U32(n))
  {
    if n < r.nxt {
      SameOrder(n, r.nxt);
    } else {
      var p :| p in r.buf && p.sn == n;
      var i :| 0 <= i < |r.buf| && r.buf[i] == p;
      assert WrapPackets(r.buf)[i].sn == U32(n);
    }
  }

  lemma InBufWraps(buf: seq<Sent>, n: int)
    requires InBuf(buf, n)
    ensures InBuf(WrapBuf(buf), U32(n))
  {
    var x :| x in buf && x.pkt.sn == n;
    var i :| 0 <= i < |buf| && buf[i] == x;
    assert WrapBuf(buf)[i].pkt.sn == U32(n);
  }

  /** The true number behind a 32-bit number of the send window. */
  lemma TrueNumber(una: int, nxt: int, sn: int) returns (n: int)
    requires 0 <= nxt - una < HALF && Stored(Wrap32, sn)
    requires Off(Wrap32, U32(una), sn) < Off(Wrap32, U32(una), U32(nxt))
    ensures una <= n < nxt && U32(n) == sn
  {
    n := una + Off(Wrap32, U32(una), sn);
    U32Span(nxt, una);
    U32Plus(U32(una), sn - U32(una));
    U32Plus(una, Off(Wrap32, U32(una), sn));
    U32Plus(sn - U32(una), U32(una));
  }

  lemma WindowHeldOrTaken(s: Node, r: Node)
    requires Pair(s, r)
    ensures HeldOrTaken(WrapSender(s.ep.snd), WrapReceiver(r.ep.rcv))
  {
    var snd, rcv := s.ep.snd, r.ep.rcv;
    forall sn | Stored(Wrap32, sn) && Off(Wrap32, U32(snd.una), sn) < Off(Wrap32, U32(snd.una), U32(snd.nxt))
      ensures InBuf(WrapBuf(snd.buf), sn) || Taken(WrapReceiver(rcv), sn)
    {
      var n := TrueNumber(snd.una, snd.nxt, sn);
      if InBuf(snd.buf, n) {
        InBufWraps(snd.buf, n);
      } else {
        assert Has(rcv, n);
        HasBecomesTaken(rcv, n);
      }
    }
  }

  lemma WrappedNeverStalls(s: Node, r: Node, len: int)
    requires Pair(s, r)
    ensures KcpEndToEnd.NeverStalls(Wrap32, WrapNode(s), WrapNode(r), len)
  {
    KcpEndToEnd.PairNeverStalls(s, r, len);
    RecvWraps(r.ep, len);
    if |r.ep.rcv.queue| < r.ep.cfg.rcvWnd {
      var buf, nxt := r.ep.rcv.buf, r.ep.rcv.nxt;
      forall i | 0 <= i < |buf|
        ensures WrapPackets(buf)[i].sn != U32(nxt)
      {
        assert buf[i] in buf && PacketSns(buf)[i] == buf[i].sn;
        NormEqual(Wrap32, buf[i].sn, nxt);
      }
    }
  }

  lemma WrappedDrained(s: Node, r: Node)
    requires Pair(s, r)
    ensures var w := WrapNode(r);
            |s.ep.snd.queue| + |WrapNode(s).ep.snd.buf| == 0 && |w.ep.rcv.queue| < w.ep.cfg.rcvWnd ==>
              w.ep.rcv.nxt == U32(|Log(s.ep.cfg.mss, s.sent)|)
  {
    KcpEndToEnd.PairDrained(s, r);
  }

  /** Nothing is lost and nothing stalls on 32-bit numbers, across any number of wraps: in
      every reachable state each number of a send window is buffered or taken, a full queue
      has the next message at its head, and a sender that holds nothing has a receiver that
      has all. */
  lemma WrappedNothingLost(sys: System, events: seq<Event>, len: int)
    requires Start(sys) && NearRun(sys, events)
    ensures var end := Run(Wrap32, sys, events);
            && HeldOrTaken(end.left.ep.snd, end.right.ep.rcv) && HeldOrTaken(end.right.ep.snd, end.left.ep.rcv)
            && KcpEndToEnd.NeverStalls(Wrap32, end.left, end.right, len)
            && KcpEndToEnd.NeverStalls(Wrap32, end.right, end.left, len)
            && DrainedDelivers(end.left, end.right) && DrainedDelivers(end.right, end.left)
  {
    StartIsWrapped(sys);
    KcpEndToEnd.StartIsOk(sys);
    KcpEndToEnd.RunKeepsSystem(sys, events);
    RunWraps(sys, events);
    var u := Run(Unbounded, sys, events);
    WindowHeldOrTaken(u.left, u.right);
    WindowHeldOrTaken(u.right, u.left);
    WrappedNeverStalls(u.left, u.right, len);
    WrappedNeverStalls(u.right, u.left, len);
    WrappedDrained(u.left, u.right);
    WrappedDrained(u.right, u.left);
  }

  lemma WrappedPrefix(ps: seq<Packet>, qs: seq<Packet>)
    requires ps <= qs
    ensures WrapPackets(ps) <= WrapPackets(qs)
  {
    assert WrapPackets(qs)[..|ps|] == WrapPackets(ps);
  }

  lemma PacketsAppend(ps: seq<Packet>, qs: seq<Packet>)
    ensures WrapPackets(ps + qs) == WrapPackets(ps) + WrapPackets(qs)
  {
  }

  lemma SettledWraps(e: Endpoint)
    requires EndpointOk(Unbounded, e)
    ensures Settled(e.cfg.rcvWnd, WrapReceiver(e.rcv))
  {
    if |e.rcv.buf| > 0 {
      assert PacketSns(e.rcv.buf)[0] == e.rcv.buf[0].sn;
      NormEqual(Wrap32, e.rcv.buf[0].sn, e.rcv.nxt);
    }
  }

  lemma ConsumedWraps(e: Endpoint, t: Endpoint, k: nat)
    requires KcpUser.Consumed(e, t, k) && EndpointOk(Unbounded, t) && t.cfg == e.cfg
    ensures KcpUser.Consumed(WrapEndpoint(e), WrapEndpoint(t), k)
  {
    hide EndpointOk;
    hide Settled;
    WrappedPrefix(e.rcv.queue[k..], t.rcv.queue);
    assert WrapPackets(e.rcv.queue)[k..] == WrapPackets(e.rcv.queue[k..]);
    PacketsAppend(t.rcv.queue, t.rcv.buf);
    PacketsAppend(e.rcv.queue[k..], e.rcv.buf);
    SettledWraps(t);
  }

  lemma WrappedRecvExact(s: Node, r: Node, len: int)
    requires Pair(s, r)
    ensures KcpUser.RecvExact(Wrap32, WrapNode(s), WrapNode(r), len)
  {
    hide S.Recv;
    hide KcpUser.Consumed;
    KcpUser.PairRecvExact(s, r, len);
    RecvWraps(r.ep, len);
    RecvKeepsEndpoint(Unbounded, r.ep, len);
    var got := S.Recv(Unbounded, r.ep, len);
    if |r.ep.rcv.queue| > 0 && got.ret >= 0 && len >= 0 {
      var k := |S.Fragment(s.ep.cfg.mss, s.sent[|r.got|])|;
      ConsumedKeepsConfig(r.ep, got.ep, k);
      ConsumedWraps(r.ep, got.ep, k);
    }
  }

  lemma ConsumedKeepsConfig(e: Endpoint, t: Endpoint, k: nat)
    requires KcpUser.Consumed(e, t, k)
    ensures t.cfg == e.cfg
  {
  }

  /** The exact outcome of `ikcp_recv` on 32-bit numbers, in every reachable state of a near
      run and both directions. */
  lemma WrappedRecvSucceedsExactly(sys: System, events: seq<Event>, len: int)
    requires Start(sys) && NearRun(sys, events)
    ensures var end := Run(Wrap32, sys, events);
            && 0 < end.left.ep.cfg.mss && 0 < end.right.ep.cfg.mss
            && KcpUser.RecvExact(Wrap32, end.left, end.right, len)
            && KcpUser.RecvExact(Wrap32, end.right, end.left, len)
  {
    hide KcpUser.RecvExact;
    StartIsWrapped(sys);
    KcpEndToEnd.StartIsOk(sys);
    KcpEndToEnd.RunKeepsSystem(sys, events);
    RunWraps(sys, events);
    var u := Run(Unbounded, sys, events);
    WrappedRecvExact(u.left, u.right, len);
    WrappedRecvExact(u.right, u.left, len);
  }

  /** With nothing left to send and room in its queue, the peer has consumed all fragments. */
  ghost predicate DrainedDelivers(s: Node, r: Node)
    requires 0 < s.ep.cfg.mss
  {
    |s.ep.snd.queue| + |s.ep.snd.buf| == 0 && |r.ep.rcv.queue| < r.ep.cfg.rcvWnd ==>
      r.ep.rcv.nxt == U32(|Log(s.ep.cfg.mss, s.sent)|)
  }

  // ---------------------------------------------------------------- runs that never wrap

  /** The segments accepted, plus the peer's receive window, fit in 31 bits. */
  predicate Short(sys: System)
    requires Runnable(sys)
  {
    && |Log(sys.left.ep.cfg.mss, sys.left.sent)| + sys.right.ep.cfg.rcvWnd < HALF
    && |Log(sys.right.ep.cfg.mss, sys.right.sent)| + sys.left.ep.cfg.rcvWnd < HALF
  }

  /** All numbers in play between two nodes lie in [0, 2^31). */
  lemma {:induction false} ShortInputIsNear(mine: nat, theirs: nat, st: S.InState, ps: seq<Packet>)
    requires mine < HALF && theirs + st.ep.cfg.rcvWnd < HALF
    requires EndpointOk(Unbounded, st.ep) && forall p :: p in ps ==> Readable(Unbounded, p)
    requires 0 <= st.ep.snd.una <= mine && 0 <= st.ep.snd.nxt <= mine
    requires 0 <= st.ep.rcv.nxt <= theirs
    requires st.acked ==> 0 <= st.maxAck < mine
    requires forall p :: p in ps ==>
               && 0 <= p.una <= mine
               && (p.cmd == CMD_ACK ==> 0 <= p.sn < mine)
               && (p.cmd == CMD_PUSH ==> 0 <= p.sn < theirs)
    requires forall q :: q in st.ep.rcv.buf ==> q.sn < theirs
    ensures NearInput(st, ps)
    decreases |ps|
  {
    hide Readable;
    hide EndpointOk;
    hide S.OnPacket;
    hide NearPacket;
    if |ps| == 0 {
    } else {
      assert ps[0] in ps;
      ShortPacketIsNear(mine, theirs, st, ps[0]);
      ShortInputIsNear(mine, theirs, S.OnPacket(Unbounded, st, ps[0]), ps[1..]);
    }
  }

  lemma {:induction false} MoveReadyStaysBelow(rcvWnd: int, r: Receiver, limit: int)
    requires r.nxt <= limit && forall q :: q in r.buf ==> q.sn < limit
    ensures var t := S.MoveReady(Unbounded, rcvWnd, r);
            r.nxt <= t.nxt <= limit && forall q :: q in t.buf ==> q.sn < limit
    decreases |r.buf|
  {
    if |r.buf| > 0 && r.buf[0].sn == r.nxt && |r.queue| < rcvWnd {
      assert r.buf[0] in r.buf;
      MoveReadyStaysBelow(rcvWnd, r.(nxt := r.nxt + 1, queue := r.queue + [r.buf[0]], buf := r.buf[1..]), limit);
    }
  }

  /** One packet of a short run is near, and leaves the state short. */
  lemma ShortPacketIsNear(mine: nat, theirs: nat, st: S.InState, p: Packet)
    requires mine < HALF && theirs + st.ep.cfg.rcvWnd < HALF
    requires EndpointOk(Unbounded, st.ep) && Readable(Unbounded, p)
    requires 0 <= st.ep.snd.una <= mine && 0 <= st.ep.snd.nxt <= mine && 0 <= st.ep.rcv.nxt <= theirs
    requires st.acked ==> 0 <= st.maxAck < mine
    requires 0 <= p.una <= mine
    requires p.cmd == CMD_ACK ==> 0 <= p.sn < mine
    requires p.cmd == CMD_PUSH ==> 0 <= p.sn < theirs
    requires forall q :: q in st.ep.rcv.buf ==> q.sn < theirs
    ensures NearPacket(st, p)
    ensures var t := S.OnPacket(Unbounded, st, p);
            && EndpointOk(Unbounded, t.ep) && t.ep.cfg == st.ep.cfg
            && 0 <= t.ep.snd.una <= mine && 0 <= t.ep.snd.nxt <= mine && 0 <= t.ep.rcv.nxt <= theirs
            && (t.acked ==> 0 <= t.maxAck < mine)
            && forall q :: q in t.ep.rcv.buf ==> q.sn < theirs
  {
    hide S.DropBelow;
    hide S.RemoveSn;
    hide S.Insert;
    hide S.MoveReady;
    ParseUnaKeepsSender(Unbounded, st.ep.cfg.sndWnd, st.ep.snd, p.una);
    OnPacketKeepsEndpoint(Unbounded, st, p);
    if p.cmd == CMD_PUSH {
      PushStaysBelow(st.ep.cfg.rcvWnd, st.ep.rcv, p, theirs);
    }
  }

  lemma PushStaysBelow(rcvWnd: int, r: Receiver, p: Packet, limit: int)
    requires r.nxt <= limit && p.sn < limit && forall q :: q in r.buf ==> q.sn < limit
    ensures var t := S.OnPush(Unbounded, rcvWnd, r, p);
            r.nxt <= t.nxt <= limit && forall q :: q in t.buf ==> q.sn < limit
  {
    InsertContents(Unbounded, r.buf, p);
    MoveReadyStaysBelow(rcvWnd, r.(buf := S.Insert(Unbounded, r.buf, p), acks := r.acks + [Ack(p.sn, p.ts)]), limit);
  }

  lemma ShortDeliveryIsNear(me: Node, peer: Node, i: nat)
    requires Pair(me, peer) && i < |peer.out|
    requires |Log(me.ep.cfg.mss, me.sent)| < HALF
    requires |Log(peer.ep.cfg.mss, peer.sent)| + me.ep.cfg.rcvWnd < HALF
    ensures NearInput(S.InState(me.ep, false, 0), peer.out[i])
  {
    var ps := peer.out[i];
    assert ps in peer.out;
    assert AcksWell(peer.ep.rcv, ps) && DataWell(Log(peer.ep.cfg.mss, peer.sent), peer.ep.snd.nxt, ps);
    forall p | p in ps
      ensures 0 <= p.una <= me.ep.snd.nxt && (p.cmd == CMD_ACK ==> 0 <= p.sn < me.ep.snd.nxt)
    {
      if p.cmd == CMD_ACK { HasMeansNumbered(me, peer, p.sn); }
    }
    ShortInputIsNear(me.ep.snd.nxt, peer.ep.snd.nxt, S.InState(me.ep, false, 0), ps);
  }

  lemma HasMeansNumbered(s: Node, r: Node, n: int)
    requires Direction(s, r) && Has(r.ep.rcv, n)
    ensures 0 <= n < s.ep.snd.nxt
  {
    if !(0 <= n < r.ep.rcv.nxt) {
      var p :| p in r.ep.rcv.buf && p.sn == n;
    }
  }

  /** What has been accepted stays accepted. */
  lemma StepExtends(sys: System, ev: Event)
    requires Runnable(sys)
    ensures sys.left.sent <= Step(Unbounded, sys, ev).left.sent
    ensures sys.right.sent <= Step(Unbounded, sys, ev).right.sent
  {
  }

  lemma {:induction false} RunExtends(sys: System, events: seq<Event>)
    requires Runnable(sys)
    ensures sys.left.sent <= Run(Unbounded, sys, events).left.sent
    ensures sys.right.sent <= Run(Unbounded, sys, events).right.sent
    ensures Run(Unbounded, sys, events).left.ep.cfg == sys.left.ep.cfg
    ensures Run(Unbounded, sys, events).right.ep.cfg == sys.right.ep.cfg
    decreases |events|
  {
    if |events| == 0 {
    } else {
      var ev := events[0];
      StepExtends(sys, ev);
      StepKeepsConfig(Unbounded, sys.left, sys.right.out, ev.act);
      StepKeepsConfig(Unbounded, sys.right, sys.left.out, ev.act);
      RunExtends(Step(Unbounded, sys, ev), events[1..]);
    }
  }

  lemma ShortEndShortStart(sys: System, events: seq<Event>)
    requires Runnable(sys) && Short(Run(Unbounded, sys, events))
    ensures Short(sys)
  {
    RunExtends(sys, events);
    var end := Run(Unbounded, sys, events);
    LogPrefix(sys.left.ep.cfg.mss, end.left.sent, |sys.left.sent|);
    LogPrefix(sys.right.ep.cfg.mss, end.right.sent, |sys.right.sent|);
    assert end.left.sent[..|sys.left.sent|] == sys.left.sent;
    assert end.right.sent[..|sys.right.sent|] == sys.right.sent;
  }

  lemma {:induction false} ShortRunsAreNear(sys: System, events: seq<Event>)
    requires SystemOk(sys) && Short(Run(Unbounded, sys, events))
    ensures NearRun(sys, events)
    decreases |events|
  {
    if |events| == 0 {
    } else {
      var ev := events[0];
      ShortEndShortStart(sys, events);
      if ev.act.Deliver? {
        if ev.atLeft && ev.act.i < |sys.right.out| {
          ShortDeliveryIsNear(sys.left, sys.right, ev.act.i);
        } else if !ev.atLeft && ev.act.i < |sys.left.out| {
          ShortDeliveryIsNear(sys.right, sys.left, ev.act.i);
        }
      }
      KcpEndToEnd.StepKeepsSystem(sys, ev);
      ShortRunsAreNear(Step(Unbounded, sys, ev), events[1..]);
    }
  }

  /** End to end with 32-bit numbers and no condition on delays, for runs in which each
      side accepts fewer than 2^31 segments, less the peer's receive window. */
  lemma ShortRunsEndToEnd(sys: System, events: seq<Event>)
    requires Start(sys) && Short(Run(Unbounded, sys, events))
    ensures var end := Run(Wrap32, sys, events);
            end.right.got <= end.left.sent && end.left.got <= end.right.sent
  {
    KcpEndToEnd.StartIsOk(sys);
    ShortRunsAreNear(sys, events);
    WrappedEndToEnd(sys, events);
  }

  /** Acknowledgements name only what the receiver has taken. */
  ghost predicate AcksTaken(r: Node) {
    && (forall k :: k in r.ep.rcv.acks ==> Taken(r.ep.rcv, k.sn))
    && (forall d, p :: d in r.out && p in d ==>
          Diff(Wrap32, p.una, r.ep.rcv.nxt) <= 0 && (p.cmd == CMD_ACK ==> Taken(r.ep.rcv, p.sn)))
  }

  lemma AcksStayTaken(s: Node, r: Node)
    requires Pair(s, r) && |Log(s.ep.cfg.mss, s.sent)| < HALF
    ensures AcksTaken(WrapNode(r))
  {
    var rcv, w := r.ep.rcv, WrapReceiver(r.ep.rcv);
    forall n | Has(rcv, n)
      ensures Taken(w, U32(n))
    {
      HasBecomesTaken(rcv, n);
    }
    forall i | 0 <= i < |w.acks|
      ensures Taken(w, w.acks[i].sn)
    {
      assert rcv.acks[i] in rcv.acks;
    }
    forall d, p | d in WrapNode(r).out && p in d
      ensures Diff(Wrap32, p.una, w.nxt) <= 0 && (p.cmd == CMD_ACK ==> Taken(w, p.sn))
    {
      var i :| 0 <= i < |r.out| && WrapPackets(r.out[i]) == d;
      var j :| 0 <= j < |d| && d[j] == p;
      assert r.out[i] in r.out && AcksWell(rcv, r.out[i]) && r.out[i][j] in r.out[i];
      SameOrder(r.out[i][j].una, rcv.nxt);
    }
  }

  /** For runs below 2^31 segments, with no condition on the network: nothing is lost or
      stalls, and every acknowledgement pending or in flight is sound. */
  lemma ShortRunsLoseNothing(sys: System, events: seq<Event>, len: int)
    requires Start(sys) && Short(Run(Unbounded, sys, events))
    ensures var end := Run(Wrap32, sys, events);
            && HeldOrTaken(end.left.ep.snd, end.right.ep.rcv) && HeldOrTaken(end.right.ep.snd, end.left.ep.rcv)
            && KcpEndToEnd.NeverStalls(Wrap32, end.left, end.right, len)
            && KcpEndToEnd.NeverStalls(Wrap32, end.right, end.left, len)
            && DrainedDelivers(end.left, end.right) && DrainedDelivers(end.right, end.left)
            && AcksTaken(end.left) && AcksTaken(end.right)
  {
    StartIsWrapped(sys);
    KcpEndToEnd.StartIsOk(sys);
    KcpEndToEnd.RunKeepsSystem(sys, events);
    ShortRunsAreNear(sys, events);
    WrappedNothingLost(sys, events, len);
    RunWraps(sys, events);
    var u := Run(Unbounded, sys, events);
    AcksStayTaken(u.left, u.right);
    AcksStayTaken(u.right, u.left);
  }
}
