/** A receive window whose 16 bits read zero: how the two endpoints come to a state that nothing
    sent from then on can end, and exactly when they can. */
module KcpClosedWindow {
  import opened Arithmetic
  import opened Circular
  import opened KcpState
  import opened KcpInvariants
  import opened KcpMessages
  import opened KcpSystem
  import opened KcpArrival
  import opened KcpEmission
  import opened KcpRecovery
  import KcpCodec
  import KcpEndToEnd
  import KcpUser
  import S = KcpSpec

  // ---------------------------------------------------------------- a closed window stays closed

  /** Nothing is in flight from left to right and the left side believes the window closed; the
      right side lacks the end of a message and shows a closed window.  Since then no data has
      been sent, and no other window has been shown. */
  ghost predicate Closed(bl: nat, br: nat, sys: System) {
    && SystemOk(sys)
    && sys.left.ep.snd.una == sys.left.ep.snd.nxt == sys.right.ep.rcv.nxt
    && sys.left.ep.cong.rmtWnd == 0
    && Incomplete(sys.left, sys.right) && Shown(sys.right.ep) == 0
    && (forall i, p :: bl <= i < |sys.left.out| && p in sys.left.out[i] ==> p.cmd != CMD_PUSH)
    && (forall i, p :: br <= i < |sys.right.out| && p in sys.right.out[i] ==> p.wnd == 0)
  }

  lemma NothingBuffered(s: Node, r: Node)
    requires Pair(s, r)
    ensures s.ep.snd.una == s.ep.snd.nxt <==> s.ep.snd.buf == []
  {
    if |s.ep.snd.buf| > 0 {
      SenderIncreasing(s.ep.cfg.sndWnd, s.ep.snd);
      assert s.ep.snd.buf[0] in s.ep.snd.buf;
    }
  }

  lemma ControlIsSilent(e: Endpoint, ps: seq<Packet>, p: Packet)
    requires ControlExact(e, ps) && p in ps
    ensures p.cmd != CMD_PUSH
  {
    hide ProbeDue;
    hide TellsReceiver;
    var i :| 0 <= i < |ps| && ps[i] == p;
  }

  lemma DataIsEmpty(log: seq<Frag>, e: Endpoint, ps: seq<Packet>, p: Packet)
    requires DataExact(log, e, e.snd.nxt, ps) && e.snd.buf == []
    ensures p !in ps
  {
    hide Carries;
    hide TellsReceiver;
    assert !InPackets(ps, p.sn);
  }

  /** A flush of a side that may send no data. */
  lemma FlushIsSilent(me: Node, peer: Node, i: nat, p: Packet)
    requires Pair(me, peer) && me.ep.snd.una == me.ep.snd.nxt && me.ep.cong.rmtWnd == 0
    requires me.ep.clock.updated && |me.out| <= i < |FlushedNow(me).out| && p in FlushedNow(me).out[i]
    ensures p.cmd != CMD_PUSH
  {
    hide Pair;
    hide FlushedNow;
    hide CongestionExact;
    hide ControlExact;
    hide DataExact;
    NothingBuffered(me, peer);
    FlushNowExactly(me, peer);
    var t := FlushedNow(me);
    var log, ds := Log(me.ep.cfg.mss, me.sent), t.out[|me.out|..];
    var out := KcpCodec.Flatten(ds);
    var b :| 0 <= b <= |out| && ControlExact(me.ep, out[..b]) && DataExact(log, me.ep, t.ep.snd.nxt, out[b..]);
    InFlattened(ds, i - |me.out|, p);
    DataIsEmpty(log, me.ep, out[b..], p);
    assert out == out[..b] + out[b..];
    ControlIsSilent(me.ep, out[..b], p);
  }

  // ---------------------------------------------------------------- each step

  lemma LeftFlushKeeps(bl: nat, br: nat, sys: System)
    requires Closed(bl, br, sys) && sys.left.ep.clock.updated
    ensures Closed(bl, br, sys.(left := FlushedNow(sys.left)))
  {
    hide FlushedNow;
    hide Pair;
    var t := sys.(left := FlushedNow(sys.left));
    FlushMoves(sys.left, sys.right);
    FlushKeepsPair(sys.left, sys.right);
    FlushNowExactly(sys.left, sys.right);
    forall i, p | bl <= i < |t.left.out| && p in t.left.out[i] ensures p.cmd != CMD_PUSH {
      if i < |sys.left.out| {
        assert t.left.out[i] == sys.left.out[i];
      } else {
        FlushIsSilent(sys.left, sys.right, i, p);
      }
    }
  }

  lemma FlushKeepsPair(me: Node, peer: Node)
    requires Pair(me, peer)
    ensures Pair(FlushedNow(me), peer)
  {
    hide Pair;
    hide S.Flush;
    PairRuns(me, peer);
    KcpEndToEnd.FlushStep(me, peer);
    KcpEndToEnd.FlushNode(me, peer.out);
  }

  lemma RightFlushKeeps(bl: nat, br: nat, sys: System)
    requires Closed(bl, br, sys) && sys.right.ep.clock.updated
    ensures Closed(bl, br, sys.(right := FlushedNow(sys.right)))
  {
    hide FlushedNow;
    hide Pair;
    var t := sys.(right := FlushedNow(sys.right));
    PairFlips(sys.left, sys.right);
    FlushMoves(sys.right, sys.left);
    FlushKeepsPair(sys.right, sys.left);
    PairFlips(t.right, t.left);
    FlushNowExactly(sys.right, sys.left);
    forall i, p | br <= i < |t.right.out| && p in t.right.out[i] ensures p.wnd == 0 {
      if i < |sys.right.out| {
        assert t.right.out[i] == sys.right.out[i];
      } else {
        FlushTells(sys.right, sys.left, i, p);
      }
    }
  }

  lemma LeftTicks(bl: nat, br: nat, sys: System, now: int)
    requires Closed(bl, br, sys)
    ensures var t := sys.(left := KcpEndToEnd.Ticked(sys.left, now));
            Closed(bl, br, t) && t.left.ep.clock.updated
  {
    hide Pair;
    TickedPair(sys.left, sys.right, now);
  }

  lemma RightTicks(bl: nat, br: nat, sys: System, now: int)
    requires Closed(bl, br, sys)
    ensures var t := sys.(right := KcpEndToEnd.Ticked(sys.right, now));
            Closed(bl, br, t) && t.right.ep.clock.updated
  {
    hide Pair;
    PairFlips(sys.left, sys.right);
    TickedPair(sys.right, sys.left, now);
    PairFlips(KcpEndToEnd.Ticked(sys.right, now), sys.left);
  }

  lemma LeftRecvKeeps(bl: nat, br: nat, sys: System, len: int)
    requires Closed(bl, br, sys) && Runnable(sys)
    ensures Closed(bl, br, sys.(left := NodeStep(Unbounded, sys.left, sys.right.out, Recv(len))))
  {
    hide Pair;
    hide S.MoveReady;
    KcpEndToEnd.RecvTouchesReceiverOnly(sys.left, sys.right.out, len);
    RecvStepPair(sys.left, sys.right, len);
  }

  lemma RecvStepPair(me: Node, peer: Node, len: int)
    requires Pair(me, peer) && 0 < me.ep.cfg.mss
    ensures Pair(NodeStep(Unbounded, me, peer.out, Recv(len)), peer)
  {
    hide Pair;
    KcpEndToEnd.RecvStep(me, peer, len);
  }

  /** With its next message incomplete the right user gets nothing. */
  lemma RightRecvNothing(sys: System, len: int)
    requires SystemOk(sys) && Runnable(sys) && Incomplete(sys.left, sys.right)
    ensures NodeStep(Unbounded, sys.right, sys.left.out, Recv(len)) == sys.right
  {
    hide Pair;
    hide KcpUser.Consumed;
    hide S.Recv;
    KcpUser.PairRecvExact(sys.left, sys.right, len);
  }

  /** What arrives on the left shows a closed window. */
  lemma LeftHearsKeeps(bl: nat, br: nat, sys: System, i: nat)
    requires Closed(bl, br, sys) && Runnable(sys) && br <= i < |sys.right.out|
    ensures Closed(bl, br, sys.(left := Told(sys.left, sys.right.out[i])))
  {
    hide Pair;
    hide S.Input;
    hide Heard;
    hide Noted;
    hide Acknowledged;
    hide S.GrowCwnd;
    Arrives(bl, br, sys, true, i);
    var d := sys.right.out[i];
    var t := Told(sys.left, d);
    NothingBuffered(sys.left, sys.right);
    NothingBuffered(t, sys.right);
    HearsWindow(sys.left.ep, t.ep, d);
    FirstInBuf(t.ep.snd.buf);
    NodeStepIsLater(sys.left, sys.right.out, i);
  }

  lemma NodeStepIsLater(me: Node, network: seq<Datagram>, i: nat)
    requires 0 < me.ep.cfg.mss && i < |network|
    ensures Later(me, Told(me, network[i]))
  {
    hide S.Input;
    CalmStepIsLater(me, network, Deliver(i));
  }

  /** What arrives on the right brings nothing. */
  lemma RightHearsKeeps(bl: nat, br: nat, sys: System, i: nat)
    requires Closed(bl, br, sys) && Runnable(sys) && bl <= i < |sys.left.out|
    ensures Closed(bl, br, sys.(right := Told(sys.right, sys.left.out[i])))
  {
    hide Pair;
    hide S.Input;
    hide Heard;
    hide Noted;
    hide Acknowledged;
    hide S.GrowCwnd;
    Arrives(bl, br, sys, false, i);
    var d := sys.left.out[i];
    var t := sys.(right := Told(sys.right, d));
    HeardForward(sys.right, t.right, d);
    OkIsOrdered(sys);
    OkIsOrdered(t);
    NodeStepIsLater(sys.right, sys.left.out, i);
  }

  /** The node after an event that flushes, or only sets the clock. */
  lemma UpdateEither(me: Node, network: seq<Datagram>, now: int)
    requires 0 < me.ep.cfg.mss
    ensures var k, t := KcpEndToEnd.Ticked(me, now), NodeStep(Unbounded, me, network, Update(now));
            t == k || t == FlushedNow(k)
  {
    hide S.Flush;
    hide S.Tick;
    KcpEndToEnd.UpdateIsTickThenFlush(me, network, now);
    KcpEndToEnd.FlushNode(KcpEndToEnd.Ticked(me, now), network);
  }

  lemma FlushEither(me: Node, network: seq<Datagram>)
    requires 0 < me.ep.cfg.mss
    ensures var t := NodeStep(Unbounded, me, network, Flush);
            t == FlushedNow(me) && (!me.ep.clock.updated ==> t == me)
  {
    hide S.Flushed;
    KcpEndToEnd.FlushNode(me, network);
    assert me.out + [] == me.out;
  }

  lemma LeftStepKeeps(bl: nat, br: nat, sys: System, act: Action)
    requires Closed(bl, br, sys) && Runnable(sys) && CalmEvent(bl, br, Event(true, act))
    ensures Closed(bl, br, sys.(left := NodeStep(Unbounded, sys.left, sys.right.out, act)))
  {
    hide Closed;
    hide FlushedNow;
    var me, network := sys.left, sys.right.out;
    match act {
      case Recv(len) => LeftRecvKeeps(bl, br, sys, len);
      case Deliver(i) =>
        if i < |network| {
          LeftHearsKeeps(bl, br, sys, i);
        }
      case Update(now) =>
        LeftTicks(bl, br, sys, now);
        LeftFlushKeeps(bl, br, sys.(left := KcpEndToEnd.Ticked(me, now)));
        UpdateEither(me, network, now);
      case Flush =>
        FlushEither(me, network);
        if me.ep.clock.updated {
          LeftFlushKeeps(bl, br, sys);
        }
      case Send(_) =>
    }
  }

  lemma RightStepKeeps(bl: nat, br: nat, sys: System, act: Action)
    requires Closed(bl, br, sys) && Runnable(sys) && CalmEvent(bl, br, Event(false, act))
    ensures var t := NodeStep(Unbounded, sys.right, sys.left.out, act);
            Closed(bl, br, sys.(right := t)) && t.got == sys.right.got
  {
    hide Closed;
    var me, network := sys.right, sys.left.out;
    match act {
      case Recv(len) =>
        ClosedIsOk(bl, br, sys);
        RightRecvNothing(sys, len);
      case Deliver(i) =>
        if i < |network| {
          RightHearsKeeps(bl, br, sys, i);
        }
      case Update(now) =>
        RightTicks(bl, br, sys, now);
        RightFlushKeeps(bl, br, sys.(right := KcpEndToEnd.Ticked(me, now)));
        UpdateEither(me, network, now);
      case Flush =>
        FlushEither(me, network);
        if me.ep.clock.updated {
          RightFlushKeeps(bl, br, sys);
        }
      case Send(_) =>
    }
  }

  lemma ClosedIsOk(bl: nat, br: nat, sys: System)
    requires Closed(bl, br, sys)
    ensures SystemOk(sys) && Runnable(sys) && Incomplete(sys.left, sys.right)
  {
  }

  /** Nothing that happens from then on gives the right user another message. */
  lemma {:induction false} ClosedForGood(bl: nat, br: nat, sys: System, events: seq<Event>)
    requires Closed(bl, br, sys) && Runnable(sys) && Calm(bl, br, events)
    ensures Run(Unbounded, sys, events).right.got == sys.right.got
    decreases |events|
  {
    hide Closed;
    hide NodeStep;
    if |events| == 0 {
    } else {
      var ev := events[0];
      assert CalmEvent(bl, br, ev);
      if ev.atLeft {
        LeftStepKeeps(bl, br, sys, ev.act);
      } else {
        RightStepKeeps(bl, br, sys, ev.act);
      }
      StepStaysRunnable(sys, ev);
      ClosedForGood(bl, br, Step(Unbounded, sys, ev), events[1..]);
    }
  }

  lemma ClosedCannotFinish(sys: System)
    requires Closed(|sys.left.out|, |sys.right.out|, sys) && Runnable(sys) && sys.right.got != sys.left.sent
    ensures !CanFinish(sys)
  {
    hide Closed;
    hide Run;
    forall t | Reaches(|sys.left.out|, |sys.right.out|, sys, t) ensures t.right.got == sys.right.got {
      var events :| Calm(|sys.left.out|, |sys.right.out|, events) && Run(Unbounded, sys, events) == t;
      ClosedForGood(|sys.left.out|, |sys.right.out|, sys, events);
    }
  }

  // ---------------------------------------------------------------- how it closes

  ghost predicate Becomes(sys: System, t: System)
    requires Runnable(sys)
  {
    exists events :: Run(Unbounded, sys, events) == t
  }

  lemma BecomesOnward(sys: System, t: System, u: System)
    requires Runnable(sys) && Runnable(t) && Becomes(sys, t) && Becomes(t, u)
    ensures Becomes(sys, u)
  {
    var a :| Run(Unbounded, sys, a) == t;
    var b :| Run(Unbounded, t, b) == u;
    RunAppend(sys, a, b);
    assert Run(Unbounded, sys, a + b) == u;
  }

  lemma ReachesBecomes(bl: nat, br: nat, sys: System, t: System)
    requires Runnable(sys) && Reaches(bl, br, sys, t)
    ensures Becomes(sys, t)
  {
    hide Run;
  }

  /** The left user sends a message that is not too long. */
  lemma Accepts(sys: System, m: Message)
    requires SystemOk(sys) && Runnable(sys) && |m| <= (WND_RCV - 1) * sys.left.ep.cfg.mss
    ensures var t := Step(Unbounded, sys, Event(true, Send(m)));
            && Runnable(t) && SystemOk(t) && Becomes(sys, t) && t.right == sys.right
            && t.left == sys.left.(ep := t.left.ep, sent := sys.left.sent + [m])
            && t.left.ep == sys.left.ep.(snd := t.left.ep.snd)
            && t.left.ep.snd == sys.left.ep.snd.(queue := t.left.ep.snd.queue)
  {
    hide SystemOk;
    hide NodeStep;
    hide KcpUser.CutUp;
    var send := Event(true, Send(m));
    KcpUser.SendStepExactly(Unbounded, sys.left, sys.right.out, m);
    KcpEndToEnd.StepKeepsSystem(sys, send);
    StepStaysRunnable(sys, send);
    assert [send][1..] == [];
    assert Run(Unbounded, sys, [send]) == Step(Unbounded, sys, send);
  }

  lemma LogOfOne(mss: int, m: Message)
    requires 0 < mss
    ensures Log(mss, [m]) == S.Fragment(mss, m)
  {
    assert [] + [m] == [m];
    LogOfOneMore(mss, [], m);
  }

  /** A first, empty message goes through, and its acknowledgement shows the window. */
  lemma FirstArrives(sys: System) returns (t: System)
    requires SystemOk(sys) && Runnable(sys) && sys.left.sent == [[]] && sys.right.got == []
    requires sys.left.ep.snd.una == sys.left.ep.snd.nxt == 0 && sys.left.ep.cong.rmtWnd > 0
    ensures Runnable(t) && SystemOk(t) && Becomes(sys, t) && Later(sys.left, t.left) && Later(sys.right, t.right)
    ensures t.right.got == [[]] && t.left.ep.snd.una == t.left.ep.snd.nxt == t.right.ep.rcv.nxt == 1
    ensures t.left.ep.cong.rmtWnd == t.right.ep.cfg.rcvWnd % 0x1_0000
  {
    hide SystemOk;
    hide Reaches;
    hide Incomplete;
    LogOfOne(sys.left.ep.cfg.mss, []);
    OkIsOrdered(sys);
    t := SenderNumbers(0, 0, sys);
    var u := t;
    ReachedIsLater(0, 0, sys, u);
    OkIsOrdered(u);
    EmptyQueueIsShort(u);
    t := ReceiverAdvances(0, 0, u);
    var v := t;
    Onward(0, 0, sys, u, v);
    ReachedIsLater(0, 0, sys, v);
    OkIsOrdered(v);
    t := ReceiverDrains(0, 0, v);
    var w := t;
    Onward(0, 0, sys, v, w);
    ReachedIsLater(0, 0, sys, w);
    OkIsOrdered(w);
    AllReturned(w);
    t := SenderLearns(0, 0, w);
    Onward(0, 0, sys, w, t);
    ReachedIsLater(0, 0, sys, t);
    OkIsOrdered(t);
    ReachesBecomes(0, 0, sys, t);
    WindowIsPositive(t);
  }

  lemma EmptyQueueIsShort(sys: System)
    requires SystemOk(sys) && Runnable(sys) && sys.right.got == [] && sys.right.ep.rcv.nxt == 0
    ensures |sys.right.ep.rcv.queue| < sys.right.ep.cfg.rcvWnd
  {
  }

  lemma WindowIsPositive(sys: System)
    requires SystemOk(sys)
    ensures 0 < sys.right.ep.cfg.rcvWnd
  {
  }

  lemma {:induction false} FragmentsOf(mss: int, c: nat, m: Message)
    requires 0 < mss && |m| == c * mss + 1
    ensures |S.Fragment(mss, m)| == c + 1
    decreases c
  {
    if c == 0 {
    } else {
      assert c * mss == (c - 1) * mss + mss;
      MulMonotone(0, c - 1, mss);
      FragmentsOf(mss, c - 1, m[mss..]);
    }
  }

  /** While a message of one segment more than the window is on its way, the acknowledged part
      and the window that is left end together just before its last segment. */
  ghost predicate Closing(sys: System, c: nat, m: Message) {
    && SystemOk(sys) && Runnable(sys)
    && sys.left.sent == [[], m] && sys.right.got == [[]] && |S.Fragment(sys.left.ep.cfg.mss, m)| == c + 1
    && c == sys.right.ep.cfg.rcvWnd % 0x1_0000 <= WND_RCV - 2
    && sys.left.ep.snd.una + sys.left.ep.cong.rmtWnd == c + 1 && sys.left.ep.snd.nxt <= c + 1
  }

  lemma ClosingLog(sys: System, c: nat, m: Message)
    requires Closing(sys, c, m)
    ensures var mss := sys.left.ep.cfg.mss;
            |Log(mss, sys.right.got)| == 1 && |Log(mss, sys.left.sent)| == c + 2
    ensures c < sys.right.ep.cfg.rcvWnd
    ensures var q := |sys.right.ep.rcv.queue|; q <= c ==> Shown(sys.right.ep) == c - q
  {
    hide S.Fragment;
    var mss := sys.left.ep.cfg.mss;
    LogOfOne(mss, []);
    assert [[]] + [m] == [[], m];
    LogOfOneMore(mss, [[]], m);
    EmptyIsOne(mss);
    var w, q := sys.right.ep.cfg.rcvWnd, |sys.right.ep.rcv.queue|;
    DivMod(w, 0x1_0000);
    if q <= c {
      DivModUnique(w - q, 0x1_0000, w / 0x1_0000, c - q);
    }
  }

  lemma EmptyIsOne(mss: int)
    requires 0 < mss
    ensures |S.Fragment(mss, [])| == 1
  {
  }

  /** The window closes on a message that lacks its last segment. */
  lemma {:induction false} Closes(sys: System, c: nat, m: Message) returns (t: System)
    requires Closing(sys, c, m)
    ensures Closing(t, c, m) && Becomes(sys, t)
    ensures t.left.ep.snd.una == t.left.ep.snd.nxt == t.right.ep.rcv.nxt == c + 1
    decreases Todo(sys), sys.left.ep.snd.nxt - sys.left.ep.snd.una
  {
    hide SystemOk;
    hide Reaches;
    hide Becomes;
    ClosingLog(sys, c, m);
    OkIsOrdered(sys);
    var e, r := sys.left.ep, sys.right.ep.rcv;
    if r.nxt == e.snd.nxt == e.snd.una == c + 1 {
      Stays(0, 0, sys);
      ReachesBecomes(0, 0, sys, sys);
      t := sys;
    } else {
      var u := ClosesFurther(sys, c, m);
      OkIsOrdered(u);
      t := Closes(u, c, m);
      BecomesOnward(sys, u, t);
    }
  }

  lemma ClosesFurther(sys: System, c: nat, m: Message) returns (t: System)
    requires Closing(sys, c, m)
    requires !(sys.right.ep.rcv.nxt == sys.left.ep.snd.nxt == sys.left.ep.snd.una == c + 1)
    ensures Closing(t, c, m) && Becomes(sys, t)
    ensures || Todo(t) < Todo(sys)
            || (&& Todo(t) == Todo(sys)
                && t.left.ep.snd.una == t.left.ep.snd.nxt && sys.left.ep.snd.una < sys.left.ep.snd.nxt)
  {
    hide SystemOk;
    hide Reaches;
    hide Becomes;
    ClosingLog(sys, c, m);
    OkIsOrdered(sys);
    var e, r := sys.left.ep, sys.right.ep.rcv;
    if r.nxt < e.snd.nxt {
      t := ReceiverAdvances(0, 0, sys);
    } else if e.snd.una < e.snd.nxt {
      t := SenderLearns(0, 0, sys);
    } else {
      t := SenderNumbers(0, 0, sys);
    }
    ReachedIsLater(0, 0, sys, t);
    ReachesBecomes(0, 0, sys, t);
    OkIsOrdered(t);
    ShownAfter(sys, t, c, m);
  }

  /** The room shown goes down as the queue fills. */
  lemma ShownAfter(sys: System, t: System, c: nat, m: Message)
    requires Closing(sys, c, m) && SystemOk(t) && Runnable(t) && t.right.got == sys.right.got
    requires Later(sys.left, t.left) && Later(sys.right, t.right)
    ensures |t.right.ep.rcv.queue| == t.right.ep.rcv.nxt - 1
    ensures t.right.ep.rcv.nxt <= c + 1 ==> Shown(t.right.ep) == c + 1 - t.right.ep.rcv.nxt
    ensures |Log(t.left.ep.cfg.mss, t.left.sent)| == c + 2
  {
    hide SystemOk;
    ClosingLog(sys, c, m);
    OkIsOrdered(t);
    var w, q := t.right.ep.cfg.rcvWnd, |t.right.ep.rcv.queue|;
    DivMod(w, 0x1_0000);
    if q <= c {
      DivModUnique(w - q, 0x1_0000, w / 0x1_0000, c - q);
    }
  }

  /** Then the two are closed. */
  lemma ClosingEnds(sys: System, c: nat, m: Message)
    requires Closing(sys, c, m)
    requires sys.left.ep.snd.una == sys.left.ep.snd.nxt == sys.right.ep.rcv.nxt == c + 1
    ensures !CanFinish(sys)
  {
    hide SystemOk;
    hide CanFinish;
    ClosingLog(sys, c, m);
    OkIsOrdered(sys);
    ClosedCannotFinish(sys);
  }

  /** A run after which the two cannot finish. */
  lemma CanClose(sys: System) returns (t: System)
    requires Start(sys) && !ShowsRoom(sys.right.ep.cfg.rcvWnd)
    ensures Runnable(t) && Becomes(sys, t) && !CanFinish(t)
  {
    hide SystemOk;
    hide CanFinish;
    hide Becomes;
    KcpEndToEnd.StartIsOk(sys);
    var mss := sys.left.ep.cfg.mss;
    var c := sys.right.ep.cfg.rcvWnd % 0x1_0000;
    MulMonotone(0, WND_RCV - 1, mss);
    Accepts(sys, []);
    var u := Step(Unbounded, sys, Event(true, Send([])));
    var v := FirstArrives(u);
    BecomesOnward(sys, u, v);
    MulMonotone(c, WND_RCV - 2, mss);
    MulMonotone(0, c, mss);
    var m: Message := seq(c * mss + 1, _ => 0);
    FragmentsOf(mss, c, m);
    Accepts(v, m);
    var w := Step(Unbounded, v, Event(true, Send(m)));
    BecomesOnward(sys, v, w);
    assert [[]] + [m] == [[], m];
    t := Closes(w, c, m);
    BecomesOnward(sys, w, t);
    ClosingEnds(t, c, m);
  }

  // ---------------------------------------------------------------- exactly when

  lemma {:induction false} RunKeepsConfigs(sys: System, events: seq<Event>)
    requires Runnable(sys)
    ensures var t := Run(Unbounded, sys, events); t.left.ep.cfg == sys.left.ep.cfg && t.right.ep.cfg == sys.right.ep.cfg
    decreases |events|
  {
    hide NodeStep;
    if |events| == 0 {
    } else {
      StepKeepsConfig(Unbounded, sys.left, sys.right.out, events[0].act);
      StepKeepsConfig(Unbounded, sys.right, sys.left.out, events[0].act);
      RunKeepsConfigs(Step(Unbounded, sys, events[0]), events[1..]);
    }
  }

  lemma FinishMirrors(sys: System)
    requires Runnable(sys)
    ensures CanFinish(sys) ==> CanFinish(Mirror(sys))
  {
    hide Reaches;
    if CanFinish(sys) {
      var t :| Reaches(|sys.left.out|, |sys.right.out|, sys, t)
            && t.right.got == sys.left.sent && t.left.got == sys.right.sent;
      ReachesMirrors(|sys.left.out|, |sys.right.out|, sys, t);
    }
  }

  ghost predicate AlwaysFinishes(sys: System)
    requires Runnable(sys)
  {
    forall events :: CanFinish(Run(Unbounded, sys, events))
  }

  lemma OneRunIsEnough(sys: System, events: seq<Event>)
    requires Runnable(sys) && !CanFinish(Run(Unbounded, sys, events))
    ensures !AlwaysFinishes(sys)
  {
    hide CanFinish;
  }

  /** From every reachable state the two endpoints can still finish, with nothing but what is sent
      from then on, if and only if the 16 bits in which each shows its window leave room for the
      longest message that may be incomplete. */
  lemma FinishesExactly(sys: System)
    requires Start(sys)
    ensures AlwaysFinishes(sys) <==> ShowsRoom(sys.left.ep.cfg.rcvWnd) && ShowsRoom(sys.right.ep.cfg.rcvWnd)
  {
    hide SystemOk;
    hide CanFinish;
    hide ShowsRoom;
    hide Run;
    KcpEndToEnd.StartIsOk(sys);
    if ShowsRoom(sys.left.ep.cfg.rcvWnd) && ShowsRoom(sys.right.ep.cfg.rcvWnd) {
      forall events ensures CanFinish(Run(Unbounded, sys, events)) {
        KcpEndToEnd.RunKeepsSystem(sys, events);
        RunKeepsConfigs(sys, events);
        EverythingArrives(Run(Unbounded, sys, events));
      }
    } else if !ShowsRoom(sys.right.ep.cfg.rcvWnd) {
      var t := CanClose(sys);
      var events :| Run(Unbounded, sys, events) == t;
      OneRunIsEnough(sys, events);
    } else {
      MirrorStarts(sys);
      var t := CanClose(Mirror(sys));
      var events :| Run(Unbounded, Mirror(sys), events) == t;
      RunMirrors(Unbounded, Mirror(sys), events);
      assert Mirror(Mirror(sys)) == sys && Mirror(Mirror(t)) == t;
      FinishMirrors(Run(Unbounded, sys, MirrorAll(events)));
      OneRunIsEnough(sys, MirrorAll(events));
    }
  }

  lemma MirrorStarts(sys: System)
    requires Start(sys)
    ensures Start(Mirror(sys)) && Runnable(Mirror(sys))
  {
  }
}
