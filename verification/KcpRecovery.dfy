/** Getting everything through.  Whatever the network has lost so far: from now on nothing more
    is lost, and the two endpoints finish what their users have handed to them. */
module KcpRecovery {
  import opened Circular
  import opened KcpState
  import opened KcpInvariants
  import opened KcpMessages
  import opened KcpSystem
  import KcpCodec
  import opened KcpArrival
  import opened KcpEmission
  import KcpDelivery
  import KcpEndToEnd
  import KcpUser
  import S = KcpSpec

  // ---------------------------------------------------------------- calm runs

  /** What happens from now on: nothing new is sent, and none of the first `bl` datagrams of the
      left side and `br` of the right side arrives any more. */
  predicate CalmEvent(bl: nat, br: nat, ev: Event) {
    match ev.act
    case Send(_) => false
    case Deliver(i) => (if ev.atLeft then br else bl) <= i
    case Update(now) => Word(now)
    case _ => true
  }

  ghost predicate Calm(bl: nat, br: nat, events: seq<Event>) {
    forall ev :: ev in events ==> CalmEvent(bl, br, ev)
  }

  ghost predicate Reaches(bl: nat, br: nat, sys: System, t: System)
    requires Runnable(sys)
  {
    exists events :: Calm(bl, br, events) && Run(Unbounded, sys, events) == t
  }

  lemma {:induction false} RunAppend(sys: System, a: seq<Event>, b: seq<Event>)
    requires Runnable(sys)
    ensures Run(Unbounded, sys, a + b) == Run(Unbounded, Run(Unbounded, sys, a), b)
    decreases |a|
  {
    hide Step;
    if |a| == 0 {
      assert a + b == b;
    } else {
      assert (a + b)[1..] == a[1..] + b;
      StepStaysRunnable(sys, a[0]);
      RunAppend(Step(Unbounded, sys, a[0]), a[1..], b);
    }
  }

  lemma StepStaysRunnable(sys: System, ev: Event)
    requires Runnable(sys)
    ensures Runnable(Step(Unbounded, sys, ev))
  {
    hide NodeStep;
    StepKeepsConfig(Unbounded, sys.left, sys.right.out, ev.act);
    StepKeepsConfig(Unbounded, sys.right, sys.left.out, ev.act);
  }

  lemma Stays(bl: nat, br: nat, sys: System)
    requires Runnable(sys)
    ensures Reaches(bl, br, sys, sys)
  {
    assert Run(Unbounded, sys, []) == sys;
  }

  lemma OneStep(bl: nat, br: nat, sys: System, ev: Event)
    requires Runnable(sys) && CalmEvent(bl, br, ev)
    ensures Reaches(bl, br, sys, Step(Unbounded, sys, ev))
  {
    hide Step;
    assert [ev][1..] == [];
    StepStaysRunnable(sys, ev);
    assert Run(Unbounded, sys, [ev]) == Step(Unbounded, sys, ev);
  }

  lemma Onward(bl: nat, br: nat, sys: System, t: System, u: System)
    requires Runnable(sys) && Runnable(t) && Reaches(bl, br, sys, t) && Reaches(bl, br, t, u)
    ensures Reaches(bl, br, sys, u)
  {
    var a :| Calm(bl, br, a) && Run(Unbounded, sys, a) == t;
    var b :| Calm(bl, br, b) && Run(Unbounded, t, b) == u;
    RunAppend(sys, a, b);
    assert Run(Unbounded, sys, a + b) == u;
  }

  /** What every calm run keeps: both configurations, what was accepted, and what was returned
      so far; no datagram is forgotten. */
  ghost predicate Later(me: Node, t: Node) {
    t.ep.cfg == me.ep.cfg && t.sent == me.sent && me.out <= t.out && me.got <= t.got
  }

  lemma CalmStepIsLater(me: Node, network: seq<Datagram>, act: Action)
    requires 0 < me.ep.cfg.mss && !act.Send?
    ensures Later(me, NodeStep(Unbounded, me, network, act))
  {
    hide S.Flush;
    hide S.Update;
    StepKeepsConfig(Unbounded, me, network, act);
  }

  lemma {:induction false} RunIsLater(bl: nat, br: nat, sys: System, events: seq<Event>)
    requires SystemOk(sys) && Calm(bl, br, events)
    ensures var t := Run(Unbounded, sys, events);
            SystemOk(t) && Later(sys.left, t.left) && Later(sys.right, t.right)
    decreases |events|
  {
    hide SystemOk;
    hide NodeStep;
    if |events| == 0 {
    } else {
      assert CalmEvent(bl, br, events[0]);
      OkRuns(sys);
      CalmStepIsLater(sys.left, sys.right.out, events[0].act);
      CalmStepIsLater(sys.right, sys.left.out, events[0].act);
      KcpEndToEnd.StepKeepsSystem(sys, events[0]);
      RunIsLater(bl, br, Step(Unbounded, sys, events[0]), events[1..]);
    }
  }

  lemma OkRuns(sys: System)
    requires SystemOk(sys)
    ensures Runnable(sys)
  {
  }

  lemma ReachedIsLater(bl: nat, br: nat, sys: System, t: System)
    requires SystemOk(sys) && Runnable(sys) && Reaches(bl, br, sys, t)
    ensures SystemOk(t) && Runnable(t) && Later(sys.left, t.left) && Later(sys.right, t.right)
  {
    hide SystemOk;
    var events :| Calm(bl, br, events) && Run(Unbounded, sys, events) == t;
    RunIsLater(bl, br, sys, events);
    OkRuns(t);
  }

  // ---------------------------------------------------------------- a flush at a chosen time

  function Side(sys: System, atLeft: bool): Node { if atLeft then sys.left else sys.right }

  function Put(sys: System, atLeft: bool, me: Node): System {
    if atLeft then sys.(left := me) else sys.(right := me)
  }

  function FlushedNow(me: Node): Node {
    var (t, out) := S.Flush(Unbounded, me.ep);
    me.(ep := t, out := me.out + out)
  }

  /** The node after a flush at time `now`. */
  function FlushedAt(me: Node, now: int): Node { FlushedNow(KcpEndToEnd.Ticked(me, now)) }

  /** An update flushes by itself or the user calls for the flush behind it. */
  lemma FlushesAt(bl: nat, br: nat, sys: System, atLeft: bool, now: int)
    requires SystemOk(sys) && Runnable(sys) && Word(now)
    ensures var t := Put(sys, atLeft, FlushedAt(Side(sys, atLeft), now));
            Runnable(t) && Reaches(bl, br, sys, t) && SystemOk(t)
  {
    hide SystemOk;
    hide NodeStep;
    hide S.Flush;
    hide Reaches;
    var me, network := Side(sys, atLeft), Side(sys, !atLeft).out;
    var t := Put(sys, atLeft, FlushedAt(me, now));
    var update, flush := Event(atLeft, Update(now)), Event(atLeft, Flush);
    var ticked := KcpEndToEnd.Ticked(me, now);
    KcpEndToEnd.UpdateIsTickThenFlush(me, network, now);
    KcpEndToEnd.FlushNode(ticked, network);
    OneStep(bl, br, sys, update);
    var sys1 := Step(Unbounded, sys, update);
    StepStaysRunnable(sys, update);
    if sys1 != t {
      OneStep(bl, br, sys1, flush);
      StepStaysRunnable(sys1, flush);
      Onward(bl, br, sys, sys1, t);
    }
    ReachedIsLater(bl, br, sys, t);
  }

  lemma TickedPair(me: Node, peer: Node, now: int)
    requires Pair(me, peer)
    ensures var k := KcpEndToEnd.Ticked(me, now);
            Pair(k, peer) && k.ep.clock.updated && k.ep.clock.current == now
  {
    KcpEndToEnd.SameSender(me, KcpEndToEnd.Ticked(me, now), peer);
    KcpEndToEnd.SameReceiver(peer, me, KcpEndToEnd.Ticked(me, now));
  }

  lemma {:induction false} InSomeDatagram(ds: seq<Datagram>, p: Packet) returns (j: nat)
    requires p in KcpCodec.Flatten(ds)
    ensures j < |ds| && p in ds[j]
  {
    if p in ds[0] {
      j := 0;
    } else {
      j := InSomeDatagram(ds[1..], p);
      j := j + 1;
    }
  }

  lemma {:induction false} InFlattened(ds: seq<Datagram>, j: nat, p: Packet)
    requires j < |ds| && p in ds[j]
    ensures p in KcpCodec.Flatten(ds)
  {
    if j == 0 {
    } else {
      InFlattened(ds[1..], j - 1, p);
    }
  }

  /** What the flush of a node does. */
  lemma FlushNowExactly(me: Node, peer: Node)
    requires Pair(me, peer)
    ensures 0 < me.ep.cfg.mss && Later(me, FlushedNow(me))
    ensures var t := FlushedNow(me);
            if me.ep.clock.updated then
              && FlushExact(Log(me.ep.cfg.mss, me.sent), me.ep, t.ep, KcpCodec.Flatten(t.out[|me.out|..]))
              && CongestionExact(me.ep, t.ep)
            else t == me
  {
    hide Pair;
    hide S.Flush;
    hide FlushExact;
    hide CongestionExact;
    hide RecordsExact;
    PairRuns(me, peer);
    PairFlushes(me, peer);
    CalmStepIsLater(me, [], Flush);
    KcpEndToEnd.FlushNode(me, []);
    var out := S.Flush(Unbounded, me.ep).1;
    assert (me.out + out)[|me.out|..] == out;
    assert me.out + [] == me.out;
  }

  lemma PairRuns(me: Node, peer: Node)
    requires Pair(me, peer)
    ensures 0 < me.ep.cfg.mss
  {
  }

  /** What it does to the node, packets aside. */
  lemma FlushMoves(me: Node, peer: Node)
    requires Pair(me, peer) && me.ep.clock.updated
    ensures var t := FlushedNow(me).ep;
            && t.snd.una == me.ep.snd.una && t.snd.nxt == me.ep.snd.nxt + Room(me.ep)
            && t.snd.queue == me.ep.snd.queue[Room(me.ep)..]
            && t.rcv == me.ep.rcv.(acks := [])
            && t.cong.rmtWnd == me.ep.cong.rmtWnd && t.cong.cwnd >= 1
    ensures FlushedNow(me).got == me.got
  {
    hide Pair;
    hide S.Flush;
    hide ControlExact;
    hide DataExact;
    hide AnyLost;
    hide AnyFastResent;
    FlushNowExactly(me, peer);
  }

  /** A packet of the flush lies in one of its datagrams. */
  lemma Emitted(me: Node, t: Node, p: Packet) returns (i: nat)
    requires me.out <= t.out && p in KcpCodec.Flatten(t.out[|me.out|..])
    ensures |me.out| <= i < |t.out| && p in t.out[i]
  {
    var j := InSomeDatagram(t.out[|me.out|..], p);
    i := |me.out| + j;
  }

  /** A segment that is due goes out. */
  lemma FlushSends(me: Node, peer: Node, x: Sent) returns (i: nat, p: Packet)
    requires Pair(me, peer) && me.ep.clock.updated
    requires x in me.ep.snd.buf && Due(me.ep.cfg, me.ep.clock.current, x)
    ensures var t := FlushedNow(me);
            && |me.out| <= i < |t.out| && p in t.out[i] && p.cmd == CMD_PUSH && p.sn == x.pkt.sn
  {
    hide Pair;
    hide FlushedNow;
    hide ControlExact;
    hide CongestionExact;
    hide TellsReceiver;
    hide Carries;
    hide Due;
    FlushNowExactly(me, peer);
    var t := FlushedNow(me);
    var log, out := Log(me.ep.cfg.mss, me.sent), KcpCodec.Flatten(t.out[|me.out|..]);
    var b :| 0 <= b <= |out| && ControlExact(me.ep, out[..b]) && DataExact(log, me.ep, t.ep.snd.nxt, out[b..]);
    assert DueInBuf(me.ep, x.pkt.sn);
    p :| p in out[b..] && p.sn == x.pkt.sn;
    i := Emitted(me, t, p);
  }

  /** Every packet tells how far the receiver has come and how much room it has. */
  lemma FlushTells(me: Node, peer: Node, i: nat, p: Packet)
    requires Pair(me, peer) && me.ep.clock.updated
    requires |me.out| <= i < |FlushedNow(me).out| && p in FlushedNow(me).out[i]
    ensures TellsReceiver(me.ep, p)
  {
    hide Pair;
    hide FlushedNow;
    hide CongestionExact;
    hide TellsReceiver;
    hide Carries;
    hide ProbeDue;
    hide NumbersIncrease;
    hide InPackets;
    hide DueInBuf;
    FlushNowExactly(me, peer);
    var t := FlushedNow(me);
    var log, ds := Log(me.ep.cfg.mss, me.sent), t.out[|me.out|..];
    var out := KcpCodec.Flatten(ds);
    var b :| 0 <= b <= |out| && ControlExact(me.ep, out[..b]) && DataExact(log, me.ep, t.ep.snd.nxt, out[b..]);
    InFlattened(ds, i - |me.out|, p);
    assert out == out[..b] + out[b..];
  }

  /** An endpoint that has something to say to its peer. */
  predicate Prompted(e: Endpoint) { |e.rcv.acks| > 0 || e.probe.askTell }

  /** An acknowledgement that is pending, or a window that is asked for, makes it speak. */
  lemma FlushAnswers(me: Node, peer: Node) returns (i: nat)
    requires Pair(me, peer) && me.ep.clock.updated && Prompted(me.ep)
    ensures |me.out| <= i < |FlushedNow(me).out| && |FlushedNow(me).out[i]| > 0
  {
    hide Pair;
    hide FlushedNow;
    hide CongestionExact;
    hide DataExact;
    hide TellsReceiver;
    hide ProbeDue;
    FlushNowExactly(me, peer);
    var t := FlushedNow(me);
    var log, out := Log(me.ep.cfg.mss, me.sent), KcpCodec.Flatten(t.out[|me.out|..]);
    var b :| 0 <= b <= |out| && ControlExact(me.ep, out[..b]) && DataExact(log, me.ep, t.ep.snd.nxt, out[b..]);
    i := Emitted(me, t, out[0]);
  }

  /** A probe that is due asks for the window. */
  lemma FlushAsks(me: Node, peer: Node) returns (i: nat, p: Packet)
    requires Pair(me, peer) && me.ep.clock.updated && ProbeDue(me.ep)
    ensures |me.out| <= i < |FlushedNow(me).out| && p in FlushedNow(me).out[i] && p.cmd == CMD_WASK
  {
    hide Pair;
    hide FlushedNow;
    hide CongestionExact;
    hide DataExact;
    hide TellsReceiver;
    hide ProbeDue;
    FlushNowExactly(me, peer);
    var t := FlushedNow(me);
    var log, out := Log(me.ep.cfg.mss, me.sent), KcpCodec.Flatten(t.out[|me.out|..]);
    var b :| 0 <= b <= |out| && ControlExact(me.ep, out[..b]) && DataExact(log, me.ep, t.ep.snd.nxt, out[b..]);
    p := out[|me.ep.rcv.acks|];
    assert p == out[..b][|me.ep.rcv.acks|];
    i := Emitted(me, t, p);
  }

  /** While the peer's window is closed a flush leaves the probe timer running. */
  lemma FlushArmsProbe(me: Node)
    requires me.ep.clock.updated && me.ep.cong.rmtWnd == 0
    ensures FlushedNow(me).ep.probe.wait != 0
  {
    hide S.SendSegments;
    hide S.FlushPackets;
    hide S.Pack;
    hide TimeDiff;
    ProbeTimer(me.ep.cong.rmtWnd, me.ep.clock.current, me.ep.probe);
  }

  // ---------------------------------------------------------------- the user empties the queue

  /** The queue of `r` does not hold the next message of `s` completely. */
  ghost predicate Incomplete(s: Node, r: Node)
    requires 0 < s.ep.cfg.mss
  {
    || |r.ep.rcv.queue| == 0
    || (|r.got| < |s.sent| && |r.ep.rcv.queue| < |S.Fragment(s.ep.cfg.mss, s.sent[|r.got|])|)
  }

  lemma IncompleteIsShort(s: Node, r: Node)
    requires Pair(s, r) && Incomplete(s, r)
    ensures |r.ep.rcv.queue| <= WND_RCV - 2 && |r.ep.rcv.queue| < r.ep.cfg.rcvWnd
  {
    if |r.ep.rcv.queue| > 0 {
      assert s.sent[|r.got|] in s.sent;
    }
  }

  lemma RecvAdvances(e: Endpoint, len: int)
    requires 0 <= e.rcv.nxt
    ensures e.rcv.nxt <= S.Recv(Unbounded, e, len).ep.rcv.nxt
  {
    hide S.MoveReady;
    var q := e.rcv.queue;
    if |q| > 0 && 0 <= S.PeekSize(q) <= (if len < 0 then -len else len) {
      MoveReadyHas(e.cfg.rcvWnd, e.rcv.(queue := if len < 0 then q else q[S.MergeCount(q)..]));
    }
  }

  /** What taking messages out changes. */
  ghost predicate TakenOut(me: Node, t: Node) {
    && t == me.(ep := me.ep.(rcv := t.ep.rcv, probe := t.ep.probe), got := t.got)
    && me.ep.rcv.nxt <= t.ep.rcv.nxt
  }

  /** One message is taken out. */
  lemma TakesOne(sys: System) returns (len: int)
    requires SystemOk(sys) && Runnable(sys) && !Incomplete(sys.left, sys.right)
    ensures |sys.right.got| < |sys.left.sent|
    ensures var t := Step(Unbounded, sys, Event(false, Recv(len)));
            t.left == sys.left && TakenOut(sys.right, t.right) && |t.right.got| == |sys.right.got| + 1
  {
    hide S.Recv;
    hide KcpUser.Consumed;
    KcpUser.PairRecvExact(sys.left, sys.right, 0);
    len := |sys.left.sent[|sys.right.got|]|;
    KcpUser.PairRecvExact(sys.left, sys.right, len);
    RecvAdvances(sys.right.ep, len);
    ConsumedElsewhere(sys.right.ep, S.Recv(Unbounded, sys.right.ep, len).ep,
                      |S.Fragment(sys.left.ep.cfg.mss, sys.left.sent[|sys.right.got|])|);
  }

  lemma ConsumedElsewhere(e: Endpoint, t: Endpoint, k: nat)
    requires KcpUser.Consumed(e, t, k)
    ensures t == e.(rcv := t.rcv, probe := t.probe)
  {
  }

  lemma {:induction false} ReceiverDrains(bl: nat, br: nat, sys: System) returns (t: System)
    requires SystemOk(sys) && Runnable(sys)
    ensures Runnable(t) && SystemOk(t) && Reaches(bl, br, sys, t)
    ensures t.left == sys.left && TakenOut(sys.right, t.right) && Incomplete(t.left, t.right)
    decreases |sys.left.sent| - |sys.right.got|
  {
    hide SystemOk;
    hide Incomplete;
    hide Reaches;
    hide Step;
    if Incomplete(sys.left, sys.right) {
      Stays(bl, br, sys);
      t := sys;
    } else {
      var len := TakesOne(sys);
      var take := Event(false, Recv(len));
      var u := Step(Unbounded, sys, take);
      OneStep(bl, br, sys, take);
      StepStaysRunnable(sys, take);
      KcpEndToEnd.StepKeepsSystem(sys, take);
      t := ReceiverDrains(bl, br, u);
      Onward(bl, br, sys, u, t);
    }
  }

  // ---------------------------------------------------------------- the next segment arrives

  /** The node when the datagram has arrived. */
  function Told(me: Node, d: Datagram): Node
    requires 0 < me.ep.cfg.mss
  {
    me.(ep := S.Input(Unbounded, me.ep, d, true))
  }

  lemma PairFlips(me: Node, peer: Node)
    requires Pair(me, peer)
    ensures Pair(peer, me)
  {
  }

  lemma Arrives(bl: nat, br: nat, sys: System, atLeft: bool, i: nat)
    requires SystemOk(sys) && Runnable(sys)
    requires (if atLeft then br else bl) <= i < |Side(sys, !atLeft).out|
    ensures var t := Put(sys, atLeft, Told(Side(sys, atLeft), Side(sys, !atLeft).out[i]));
            && Runnable(t) && SystemOk(t) && Reaches(bl, br, sys, t)
            && Arrived(Side(sys, atLeft).ep, Side(t, atLeft).ep, Side(sys, !atLeft).out[i], true)
            && Delivers(Side(sys, atLeft), Side(sys, !atLeft), i)
  {
    hide S.Input;
    hide Reaches;
    hide Arrived;
    hide Pair;
    var deliver := Event(atLeft, Deliver(i));
    OneStep(bl, br, sys, deliver);
    StepStaysRunnable(sys, deliver);
    KcpEndToEnd.StepKeepsSystem(sys, deliver);
    PairFlips(sys.left, sys.right);
    PairDelivers(Side(sys, atLeft), Side(sys, !atLeft), i);
  }

  /** A sender that hears nothing and numbers more, within the window it knows of. */
  ghost predicate Flushed(e: Endpoint, t: Endpoint) {
    && t.snd.una == e.snd.una && t.cong.rmtWnd == e.cong.rmtWnd
    && e.snd.nxt <= t.snd.nxt <= Max(e.snd.nxt, e.snd.una + e.cong.rmtWnd)
  }

  lemma FlushNumbers(me: Node, peer: Node, now: int)
    requires Pair(me, peer)
    ensures Flushed(me.ep, FlushedAt(me, now).ep)
  {
    hide Pair;
    hide FlushedNow;
    TickedPair(me, peer, now);
    FlushMoves(KcpEndToEnd.Ticked(me, now), peer);
  }

  /** A receiver with room in its queue that has got its next segment has moved on. */
  lemma HadIsBehind(s: Node, r: Node, n: int)
    requires Pair(s, r) && Has(r.ep.rcv, n) && n <= r.ep.rcv.nxt
    requires n - |Log(s.ep.cfg.mss, r.got)| < r.ep.cfg.rcvWnd
    ensures n < r.ep.rcv.nxt
  {
    if r.ep.rcv.nxt == n {
      KcpEndToEnd.HeadIsSmallest(r.ep);
    }
  }

  /** The record of the next segment that the receiver waits for. */
  lemma NextIsBuffered(s: Node, r: Node) returns (x: Sent)
    requires Pair(s, r) && |r.ep.rcv.queue| < r.ep.cfg.rcvWnd && r.ep.rcv.nxt < s.ep.snd.nxt
    ensures x in s.ep.snd.buf && x.pkt.sn == r.ep.rcv.nxt
    ensures 0 <= r.ep.rcv.nxt == |Log(s.ep.cfg.mss, r.got)| + |r.ep.rcv.queue|
  {
    KcpEndToEnd.HeadIsSmallest(r.ep);
    assert !Has(r.ep.rcv, r.ep.rcv.nxt);
    assert InBuf(s.ep.snd.buf, r.ep.rcv.nxt);
    x :| x in s.ep.snd.buf && x.pkt.sn == r.ep.rcv.nxt;
  }

  lemma DueAtItsTime(cfg: Config, x: Sent)
    ensures Due(cfg, U32(x.resendts), x)
  {
    U32Minus(x.resendts, x.resendts);
  }

  /** The segment that the receiver waits for is sent when its time has come, and arrives. */
  lemma ReceiverAdvances(bl: nat, br: nat, sys: System) returns (t: System)
    requires SystemOk(sys) && Runnable(sys) && bl <= |sys.left.out|
    requires |sys.right.ep.rcv.queue| < sys.right.ep.cfg.rcvWnd && sys.right.ep.rcv.nxt < sys.left.ep.snd.nxt
    ensures Runnable(t) && SystemOk(t) && Reaches(bl, br, sys, t)
    ensures Flushed(sys.left.ep, t.left.ep)
    ensures sys.right.ep.rcv.nxt < t.right.ep.rcv.nxt && t.right.got == sys.right.got
  {
    hide Pair;
    hide Reaches;
    hide Due;
    hide FlushedNow;
    hide Flushed;
    hide Noted;
    hide Acknowledged;
    hide S.Input;
    var x := NextIsBuffered(sys.left, sys.right);
    var n, now := x.pkt.sn, U32(x.resendts);
    DueAtItsTime(sys.left.ep.cfg, x);
    TickedPair(sys.left, sys.right, now);
    FlushesAt(bl, br, sys, true, now);
    FlushNumbers(sys.left, sys.right, now);
    var i, p := FlushSends(KcpEndToEnd.Ticked(sys.left, now), sys.right, x);
    var u := sys.(left := FlushedAt(sys.left, now));
    Arrives(bl, br, u, false, i);
    t := u.(right := Told(u.right, u.left.out[i]));
    Onward(bl, br, sys, u, t);
    ReachedIsLater(bl, br, sys, t);
    HadIsBehind(t.left, t.right, n);
  }

  // ---------------------------------------------------------------- the sender hears of it

  /** The window that its headers show: 16 bits of the room in its queue. */
  function Shown(e: Endpoint): int { Max(e.cfg.rcvWnd - |e.rcv.queue|, 0) % 0x1_0000 }

  lemma FirstIsBuffered(s: Node, r: Node) returns (x: Sent)
    requires Pair(s, r) && s.ep.snd.una < s.ep.snd.nxt
    ensures x in s.ep.snd.buf && x.pkt.sn < s.ep.snd.nxt
  {
    SenderIncreasing(s.ep.cfg.sndWnd, s.ep.snd);
    x := s.ep.snd.buf[0];
  }

  lemma NotAhead(s: Node, r: Node)
    requires Pair(s, r)
    ensures 0 <= r.ep.rcv.nxt <= s.ep.snd.nxt && 0 <= s.ep.snd.una <= s.ep.snd.nxt && 0 < r.ep.cfg.rcvWnd
  {
  }

  /** A segment that is repeated is acknowledged again. */
  lemma PromptsByData(bl: nat, br: nat, sys: System) returns (t: System)
    requires SystemOk(sys) && Runnable(sys) && bl <= |sys.left.out|
    requires sys.right.ep.rcv.nxt == sys.left.ep.snd.nxt && sys.left.ep.snd.una < sys.left.ep.snd.nxt
    ensures Runnable(t) && SystemOk(t) && Reaches(bl, br, sys, t)
    ensures Flushed(sys.left.ep, t.left.ep) && t.right.got == sys.right.got
    ensures sys.right.ep.rcv.nxt <= t.right.ep.rcv.nxt
    ensures sys.left.ep.snd.nxt < t.left.ep.snd.nxt || Prompted(t.right.ep)
  {
    hide Pair;
    hide Reaches;
    hide Due;
    hide FlushedNow;
    hide Flushed;
    hide Noted;
    hide Acknowledged;
    hide S.Input;
    NotAhead(sys.left, sys.right);
    var x := FirstIsBuffered(sys.left, sys.right);
    var now := U32(x.resendts);
    DueAtItsTime(sys.left.ep.cfg, x);
    TickedPair(sys.left, sys.right, now);
    FlushesAt(bl, br, sys, true, now);
    FlushNumbers(sys.left, sys.right, now);
    var i, p := FlushSends(KcpEndToEnd.Ticked(sys.left, now), sys.right, x);
    var u := sys.(left := FlushedAt(sys.left, now));
    Arrives(bl, br, u, false, i);
    t := u.(right := Told(u.right, u.left.out[i]));
    Onward(bl, br, sys, u, t);
  }

  /** A probe of a closed window is answered. */
  lemma PromptsByProbe(bl: nat, br: nat, sys: System) returns (t: System)
    requires SystemOk(sys) && Runnable(sys) && bl <= |sys.left.out|
    requires sys.left.ep.snd.una == sys.left.ep.snd.nxt && sys.left.ep.cong.rmtWnd == 0
    ensures Runnable(t) && SystemOk(t) && Reaches(bl, br, sys, t)
    ensures Flushed(sys.left.ep, t.left.ep) && t.right.got == sys.right.got
    ensures sys.right.ep.rcv.nxt <= t.right.ep.rcv.nxt && Prompted(t.right.ep)
  {
    hide Pair;
    hide Reaches;
    hide FlushedNow;
    hide Heard;
    hide Acknowledged;
    hide S.Input;
    FlushesAt(bl, br, sys, true, 0);
    FlushNumbers(sys.left, sys.right, 0);
    FlushArmsProbe(KcpEndToEnd.Ticked(sys.left, 0));
    var u := sys.(left := FlushedAt(sys.left, 0));
    var now := U32(u.left.ep.probe.ts);
    U32Minus(u.left.ep.probe.ts, u.left.ep.probe.ts);
    ReachedIsLater(bl, br, sys, u);
    FlushesAt(bl, br, u, true, now);
    FlushNumbers(u.left, u.right, now);
    TickedPair(u.left, u.right, now);
    var i, p := FlushAsks(KcpEndToEnd.Ticked(u.left, now), u.right);
    var v := u.(left := FlushedAt(u.left, now));
    Onward(bl, br, sys, u, v);
    Arrives(bl, br, v, false, i);
    t := v.(right := Told(v.right, v.left.out[i]));
    Onward(bl, br, sys, v, t);
    HeardForward(v.right, t.right, v.left.out[i]);
  }

  lemma HeardForward(me: Node, t: Node, d: Datagram)
    requires Heard(me.ep.cfg.rcvWnd, me.ep.rcv, t.ep.rcv, d)
    ensures me.ep.rcv.nxt <= t.ep.rcv.nxt
  {
  }

  /** What the receiver says then brings the sender up to date. */
  lemma Answers(bl: nat, br: nat, sys: System) returns (t: System)
    requires SystemOk(sys) && Runnable(sys) && br <= |sys.right.out|
    requires sys.right.ep.rcv.nxt == sys.left.ep.snd.nxt && Prompted(sys.right.ep)
    ensures Runnable(t) && SystemOk(t) && Reaches(bl, br, sys, t)
    ensures t.left.ep.snd.una == t.left.ep.snd.nxt == sys.left.ep.snd.nxt
    ensures t.left.ep.cong.rmtWnd == Shown(t.right.ep)
    ensures t.right.got == sys.right.got && t.right.ep.rcv.nxt == sys.right.ep.rcv.nxt
  {
    hide Pair;
    hide Reaches;
    hide FlushedNow;
    hide Heard;
    hide Noted;
    hide Acknowledged;
    hide S.Input;
    PairFlips(sys.left, sys.right);
    FlushesAt(bl, br, sys, false, 0);
    var k := KcpEndToEnd.Ticked(sys.right, 0);
    TickedPair(sys.right, sys.left, 0);
    FlushMoves(k, sys.left);
    var i := FlushAnswers(k, sys.left);
    var u := sys.(right := FlushedAt(sys.right, 0));
    var d := u.right.out[i];
    var p := d[|d| - 1];
    FlushTells(k, sys.left, i, p);
    Arrives(bl, br, u, true, i);
    t := u.(left := Told(u.left, d));
    Onward(bl, br, sys, u, t);
    ReachedIsLater(bl, br, sys, u);
    HearsWindow(u.left.ep, t.left.ep, d);
    assert p in d;
    AllAcknowledged(t.left, t.right, p.una);
  }

  lemma HearsWindow(e: Endpoint, t: Endpoint, d: Datagram)
    requires Noted(e, t.(cong := e.cong.(rmtWnd := t.cong.rmtWnd)), d)
    ensures t.cong.rmtWnd == if |d| > 0 then d[|d| - 1].wnd else e.cong.rmtWnd
    ensures t.snd.nxt == e.snd.nxt && t.snd.queue == e.snd.queue
  {
  }

  lemma FirstInBuf(buf: seq<Sent>)
    ensures |buf| > 0 ==> InBuf(buf, buf[0].pkt.sn)
  {
    assert |buf| > 0 ==> buf[0] in buf;
  }

  lemma AllAcknowledged(s: Node, r: Node, una: int)
    requires Pair(s, r) && s.ep.snd.nxt <= una && forall n :: n < una ==> !InBuf(s.ep.snd.buf, n)
    ensures s.ep.snd.una == s.ep.snd.nxt
  {
    SenderIncreasing(s.ep.cfg.sndWnd, s.ep.snd);
    FirstInBuf(s.ep.snd.buf);
  }

  /** With nothing in flight and a window open, the next segment is numbered. */
  lemma SenderNumbers(bl: nat, br: nat, sys: System) returns (t: System)
    requires SystemOk(sys) && Runnable(sys)
    requires sys.left.ep.snd.una == sys.left.ep.snd.nxt && sys.left.ep.cong.rmtWnd > 0 && |sys.left.ep.snd.queue| > 0
    ensures Runnable(t) && SystemOk(t) && Reaches(bl, br, sys, t)
    ensures Flushed(sys.left.ep, t.left.ep) && sys.left.ep.snd.nxt < t.left.ep.snd.nxt && t.right == sys.right
  {
    hide Pair;
    hide Reaches;
    hide FlushedNow;
    FlushesAt(bl, br, sys, true, 0);
    FlushNumbers(sys.left, sys.right, 0);
    TickedPair(sys.left, sys.right, 0);
    FlushMoves(KcpEndToEnd.Ticked(sys.left, 0), sys.right);
    PositiveWindow(sys.left, sys.right);
    t := sys.(left := FlushedAt(sys.left, 0));
    ReachedIsLater(bl, br, sys, t);
    if t.left.ep.snd.nxt == sys.left.ep.snd.nxt {
      var u := t;
      FlushesAt(bl, br, u, true, 0);
      FlushNumbers(u.left, u.right, 0);
      TickedPair(u.left, u.right, 0);
      FlushMoves(KcpEndToEnd.Ticked(u.left, 0), u.right);
      t := u.(left := FlushedAt(u.left, 0));
      Onward(bl, br, sys, u, t);
    }
  }

  lemma PositiveWindow(s: Node, r: Node)
    requires Pair(s, r)
    ensures 0 < s.ep.cfg.sndWnd
  {
  }

  /** The sender learns that all it has numbered has arrived, or numbers more meanwhile. */
  lemma SenderLearns(bl: nat, br: nat, sys: System) returns (t: System)
    requires SystemOk(sys) && Runnable(sys) && bl <= |sys.left.out| && br <= |sys.right.out|
    requires sys.right.ep.rcv.nxt == sys.left.ep.snd.nxt
    requires sys.left.ep.snd.una < sys.left.ep.snd.nxt || sys.left.ep.cong.rmtWnd == 0
    ensures Runnable(t) && SystemOk(t) && Reaches(bl, br, sys, t)
    ensures t.right.got == sys.right.got && sys.right.ep.rcv.nxt <= t.right.ep.rcv.nxt
    ensures || (sys.left.ep.snd.nxt < t.left.ep.snd.nxt && Flushed(sys.left.ep, t.left.ep))
            || (&& t.left.ep.snd.una == t.left.ep.snd.nxt == sys.left.ep.snd.nxt
                && t.left.ep.cong.rmtWnd == Shown(t.right.ep))
  {
    hide SystemOk;
    hide Reaches;
    hide Flushed;
    OkIsOrdered(sys);
    if sys.left.ep.snd.una < sys.left.ep.snd.nxt {
      t := PromptsByData(bl, br, sys);
    } else {
      t := PromptsByProbe(bl, br, sys);
    }
    OkIsOrdered(t);
    FlushedForward(sys.left.ep, t.left.ep);
    if sys.left.ep.snd.nxt == t.left.ep.snd.nxt {
      var u := t;
      ReachedIsLater(bl, br, sys, u);
      t := Answers(bl, br, u);
      Onward(bl, br, sys, u, t);
    }
  }

  lemma FlushedForward(e: Endpoint, t: Endpoint)
    requires Flushed(e, t)
    ensures e.snd.nxt <= t.snd.nxt && t.snd.una == e.snd.una && t.cong.rmtWnd == e.cong.rmtWnd
  {
  }

  // ---------------------------------------------------------------- all of it

  /** The 16 bits that show the window never read zero while a message is incomplete. */
  predicate ShowsRoom(rcvWnd: int) { WND_RCV - 1 <= rcvWnd % 0x1_0000 }

  lemma ShownIsPositive(rcvWnd: int, q: int)
    requires 0 <= q <= WND_RCV - 2 && q < rcvWnd
    ensures ShowsRoom(rcvWnd) ==> (rcvWnd - q) % 0x1_0000 > 0
  {
    var c := rcvWnd % 0x1_0000;
    if ShowsRoom(rcvWnd) {
      assert rcvWnd - q == 0x1_0000 * (rcvWnd / 0x1_0000) + (c - q);
    }
  }

  /** How many steps of numbering and receiving are ahead from left to right. */
  function Todo(sys: System): int
    requires Runnable(sys)
  {
    2 * |Log(sys.left.ep.cfg.mss, sys.left.sent)| - sys.left.ep.snd.nxt - sys.right.ep.rcv.nxt
  }

  /** Whether the sender may number its next segment. */
  function Unready(e: Endpoint): nat { if e.snd.una == e.snd.nxt && e.cong.rmtWnd > 0 then 0 else 1 }

  lemma OkIsOrdered(sys: System)
    requires SystemOk(sys)
    ensures Runnable(sys)
    ensures var e := sys.left.ep;
            && 0 <= e.snd.una <= e.snd.nxt <= |Log(e.cfg.mss, sys.left.sent)| && 0 <= e.cong.rmtWnd
            && 0 <= sys.right.ep.rcv.nxt <= e.snd.nxt
            && |e.snd.queue| == |Log(e.cfg.mss, sys.left.sent)| - e.snd.nxt
            && |sys.right.ep.rcv.queue| == sys.right.ep.rcv.nxt - |Log(e.cfg.mss, sys.right.got)|
  {
  }

  /** When all segments have arrived and no complete message is left, all is returned. */
  lemma AllReturned(sys: System)
    requires SystemOk(sys) && Runnable(sys) && Incomplete(sys.left, sys.right)
    requires sys.right.ep.rcv.nxt == |Log(sys.left.ep.cfg.mss, sys.left.sent)|
    ensures sys.right.got == sys.left.sent
  {
    var mss, sent, got := sys.left.ep.cfg.mss, sys.left.sent, sys.right.got;
    if |got| < |sent| {
      assert sent[..|got|] == got;
      MessageInLog(mss, sent, |got|);
    }
  }

  /** Everything the left side has accepted is returned on the right. */
  lemma {:induction false} RightGetsAll(bl: nat, br: nat, sys: System) returns (t: System)
    requires SystemOk(sys) && Runnable(sys) && bl <= |sys.left.out| && br <= |sys.right.out|
    requires ShowsRoom(sys.right.ep.cfg.rcvWnd)
    ensures Runnable(t) && SystemOk(t) && Reaches(bl, br, sys, t) && t.right.got == sys.left.sent
    decreases Todo(sys), Unready(sys.left.ep)
  {
    hide SystemOk;
    hide Incomplete;
    hide Reaches;
    hide Flushed;
    hide ShowsRoom;
    OkIsOrdered(sys);
    var u := ReceiverDrains(bl, br, sys);
    ReachedIsLater(bl, br, sys, u);
    OkIsOrdered(u);
    if u.right.ep.rcv.nxt == |Log(u.left.ep.cfg.mss, u.left.sent)| {
      AllReturned(u);
      t := u;
    } else {
      var v := OneRound(bl, br, u);
      Onward(bl, br, sys, u, v);
      ReachedIsLater(bl, br, sys, v);
      OkIsOrdered(v);
      var w := RightGetsAll(bl, br, v);
      Onward(bl, br, sys, v, w);
      t := w;
    }
  }

  lemma OneRound(bl: nat, br: nat, sys: System) returns (t: System)
    requires SystemOk(sys) && Runnable(sys) && bl <= |sys.left.out| && br <= |sys.right.out|
    requires ShowsRoom(sys.right.ep.cfg.rcvWnd) && Incomplete(sys.left, sys.right)
    requires sys.right.ep.rcv.nxt < |Log(sys.left.ep.cfg.mss, sys.left.sent)|
    ensures Runnable(t) && SystemOk(t) && Reaches(bl, br, sys, t)
    ensures || Todo(t) < Todo(sys)
            || (Todo(t) == Todo(sys) && Unready(t.left.ep) < Unready(sys.left.ep))
  {
    hide Pair;
    hide Incomplete;
    hide Reaches;
    hide Flushed;
    hide ShowsRoom;
    OkIsOrdered(sys);
    IncompleteIsShort(sys.left, sys.right);
    if sys.right.ep.rcv.nxt < sys.left.ep.snd.nxt {
      t := ReceiverAdvances(bl, br, sys);
      FlushedForward(sys.left.ep, t.left.ep);
    } else if sys.left.ep.snd.una < sys.left.ep.snd.nxt || sys.left.ep.cong.rmtWnd == 0 {
      t := SenderLearns(bl, br, sys);
      OkIsOrdered(t);
      ReachedIsLater(bl, br, sys, t);
      ShownIsPositive(t.right.ep.cfg.rcvWnd, |sys.right.ep.rcv.queue|);
    } else {
      t := SenderNumbers(bl, br, sys);
    }
    ReachedIsLater(bl, br, sys, t);
  }

  // ---------------------------------------------------------------- both directions

  function Mirror(sys: System): System { System(sys.right, sys.left) }

  function MirrorAll(events: seq<Event>): (es: seq<Event>)
    ensures |es| == |events| && forall i :: 0 <= i < |events| ==> es[i] == Event(!events[i].atLeft, events[i].act)
  {
    seq(|events|, i requires 0 <= i < |events| => Event(!events[i].atLeft, events[i].act))
  }

  lemma {:induction false} RunMirrors(a: Arith, sys: System, events: seq<Event>)
    requires Runnable(sys)
    ensures Run(a, Mirror(sys), MirrorAll(events)) == Mirror(Run(a, sys, events))
    decreases |events|
  {
    hide NodeStep;
    if |events| == 0 {
    } else {
      StepKeepsConfig(a, sys.left, sys.right.out, events[0].act);
      StepKeepsConfig(a, sys.right, sys.left.out, events[0].act);
      assert MirrorAll(events)[1..] == MirrorAll(events[1..]);
      assert Step(a, Mirror(sys), MirrorAll(events)[0]) == Mirror(Step(a, sys, events[0]));
      RunMirrors(a, Step(a, sys, events[0]), events[1..]);
    }
  }

  lemma ReachesMirrors(bl: nat, br: nat, sys: System, t: System)
    requires Runnable(sys) && Reaches(bl, br, sys, t)
    ensures Reaches(br, bl, Mirror(sys), Mirror(t))
  {
    hide Run;
    var events :| Calm(bl, br, events) && Run(Unbounded, sys, events) == t;
    RunMirrors(Unbounded, sys, events);
    forall ev | ev in MirrorAll(events) ensures CalmEvent(br, bl, ev) {
      var i :| 0 <= i < |events| && MirrorAll(events)[i] == ev;
      assert CalmEvent(bl, br, events[i]);
    }
    assert Run(Unbounded, Mirror(sys), MirrorAll(events)) == Mirror(t);
  }

  /** All that either side has accepted can still be returned on the other, with nothing but what
      is sent from now on. */
  ghost predicate CanFinish(sys: System)
    requires Runnable(sys)
  {
    exists t :: Reaches(|sys.left.out|, |sys.right.out|, sys, t)
             && t.right.got == sys.left.sent && t.left.got == sys.right.sent
  }

  /** Nothing is returned that was not accepted. */
  lemma ReturnedStays(sys: System, t: System)
    requires SystemOk(t) && Later(sys.left, t.left) && Later(sys.right, t.right) && sys.right.got == sys.left.sent
    ensures t.right.got == sys.left.sent
  {
  }

  lemma EverythingArrives(sys: System)
    requires SystemOk(sys) && Runnable(sys)
    requires ShowsRoom(sys.left.ep.cfg.rcvWnd) && ShowsRoom(sys.right.ep.cfg.rcvWnd)
    ensures CanFinish(sys)
  {
    hide SystemOk;
    hide ShowsRoom;
    hide Reaches;
    var bl, br := |sys.left.out|, |sys.right.out|;
    var t := RightGetsAll(bl, br, sys);
    ReachedIsLater(bl, br, sys, t);
    MirrorIsOk(t);
    var u := RightGetsAll(br, bl, Mirror(t));
    ReachesMirrors(br, bl, Mirror(t), u);
    MirrorIsOk(u);
    assert Mirror(Mirror(t)) == t;
    Onward(bl, br, sys, t, Mirror(u));
    ReachedIsLater(bl, br, t, Mirror(u));
    ReturnedStays(t, Mirror(u));
  }

  lemma MirrorIsOk(sys: System)
    requires SystemOk(sys)
    ensures SystemOk(Mirror(sys)) && Runnable(Mirror(sys))
  {
  }
}
