/** The calls of the user: exactly when `ikcp_send` accepts a message, exactly when
    `ikcp_recv` returns one, and what each error code says. */
module KcpUser {
  import opened Arithmetic
  import opened Circular
  import opened KcpState
  import opened KcpInvariants
  import opened KcpMessages
  import opened KcpSystem
  import KcpEndToEnd
  import S = KcpSpec

  // ---------------------------------------------------------------- ikcp_send

  lemma CeilReaches(mss: int, len: int, k: int)
    requires 0 < mss < len && 1 < k
    ensures (len + mss - 1) / mss >= k <==> len > (k - 1) * mss
  {
    var x := len + mss - 1;
    DivMod(x, mss);
    assert (k - 1) * mss == k * mss - mss;
    if x / mss >= k {
      MulMonotone(k, x / mss, mss);
    } else {
      MulMonotone(x / mss + 1, k, mss);
      assert (x / mss + 1) * mss == x / mss * mss + mss;
    }
  }

  /** What a message has become in `snd_queue`: pieces that count down to 0 and join to the
      message, all of them full but the last. */
  ghost predicate CutUp(mss: int, fs: seq<Frag>, m: Message) {
    && |fs| > 0 && DataOfFrags(fs) == m
    && (forall i :: 0 <= i < |fs| ==> fs[i].frg == |fs| - 1 - i && |fs[i].data| <= mss)
    && (forall i :: 0 <= i < |fs| - 1 ==> |fs[i].data| == mss)
  }

  /** A message is accepted if and only if its length is not negative and fits one segment
      less than the default receive window; then it is queued in pieces behind what waits
      already, and its length is returned.  A refused message changes nothing. */
  lemma SendAcceptsExactly(mss: int, s: Sender, buffer: seq<byte>, len: int)
    requires 0 < mss && len <= |buffer|
    ensures var (t, ret) := S.Send(mss, s, buffer, len);
            && (ret >= 0 <==> 0 <= len <= (WND_RCV - 1) * mss)
            && (ret == -1 <==> len < 0)
            && (ret == -2 <==> (WND_RCV - 1) * mss < len)
            && (ret < 0 ==> t == s)
            && (ret >= 0 ==>
                && ret == len && s.queue <= t.queue && t == s.(queue := t.queue)
                && CutUp(mss, t.queue[|s.queue|..], buffer[..len]))
  {
    if len > mss {
      CeilReaches(mss, len, WND_RCV);
    } else {
      MulMonotone(1, WND_RCV - 1, mss);
    }
    if 0 <= len {
      FragmentShape(mss, buffer[..len]);
      var fs := S.Fragment(mss, buffer[..len]);
      assert (s.queue + fs)[|s.queue|..] == fs;
    }
  }

  /** The same as a step of the system. */
  lemma SendStepExactly(a: Arith, me: Node, network: seq<Datagram>, msg: Message)
    requires 0 < me.ep.cfg.mss
    ensures var t := NodeStep(a, me, network, Send(msg));
            && (|msg| <= (WND_RCV - 1) * me.ep.cfg.mss ==>
                && t == me.(ep := t.ep, sent := me.sent + [msg]) && t.ep == me.ep.(snd := t.ep.snd)
                && me.ep.snd.queue <= t.ep.snd.queue && t.ep.snd == me.ep.snd.(queue := t.ep.snd.queue)
                && CutUp(me.ep.cfg.mss, t.ep.snd.queue[|me.ep.snd.queue|..], msg))
            && ((WND_RCV - 1) * me.ep.cfg.mss < |msg| ==> t == me)
  {
    SendAcceptsExactly(me.ep.cfg.mss, me.ep.snd, msg, |msg|);
    assert msg[..|msg|] == msg;
  }

  // ---------------------------------------------------------------- ikcp_recv

  /** Moving segments over to the queue takes them from the front of `rcv_buf` to its tail. */
  lemma {:induction false} MoveReadyMoves(a: Arith, rcvWnd: int, r: Receiver)
    ensures var t := S.MoveReady(a, rcvWnd, r);
            && r.queue <= t.queue && t.queue + t.buf == r.queue + r.buf && t.acks == r.acks
    decreases |r.buf|
  {
    if |r.buf| > 0 && r.buf[0].sn == r.nxt && |r.queue| < rcvWnd {
      var t := r.(nxt := Norm(a, r.nxt + 1), queue := r.queue + [r.buf[0]], buf := r.buf[1..]);
      assert t.queue + t.buf == r.queue + r.buf;
      MoveReadyMoves(a, rcvWnd, t);
    }
  }

  /** A call of `ikcp_recv` with room for `len` bytes, or for `-len` when it only peeks: `m`
      is the first message of `s` not yet returned at `r`, and `k` its number of segments. */
  ghost predicate RecvExact(a: Arith, s: Node, r: Node, len: int)
    requires 0 < s.ep.cfg.mss
  {
    var q, room := r.ep.rcv.queue, if len < 0 then -len else len;
    var got := S.Recv(a, r.ep, len);
    && (got.ret == -1 <==> |q| == 0)
    && (got.ret < 0 || len < 0 ==> got.ep == r.ep)
    && (|q| > 0 ==>
          && |r.got| < |s.sent|
          && var m := s.sent[|r.got|];
             var k := |S.Fragment(s.ep.cfg.mss, m)|;
          && (got.ret == -2 <==> |q| < k)
          && (got.ret == -3 <==> k <= |q| && room < |m|)
          && (got.ret >= 0 <==> k <= |q| && |m| <= room)
          && (got.ret >= 0 ==> got.ret == |m| && got.data == m)
          && (got.ret >= 0 && len >= 0 ==> Consumed(r.ep, got.ep, k)))
  }

  /** `k` segments have left the queue at its front; what was ready moved in behind.  A queue
      that was full and has room again asks for a window update. */
  ghost predicate Consumed(e: Endpoint, t: Endpoint, k: nat) {
    && k <= |e.rcv.queue|
    && t == e.(rcv := t.rcv, probe := t.probe)
    && e.rcv.queue[k..] <= t.rcv.queue
    && t.rcv.queue + t.rcv.buf == e.rcv.queue[k..] + e.rcv.buf
    && t.rcv.acks == e.rcv.acks
    && Settled(e.cfg.rcvWnd, t.rcv)
    && t.probe == e.probe.(askTell := t.probe.askTell)
    && (t.probe.askTell <==>
        e.probe.askTell || (|e.rcv.queue| >= e.cfg.rcvWnd && |t.rcv.queue| < e.cfg.rcvWnd))
  }

  lemma PeekChangesNothing(a: Arith, e: Endpoint, len: int)
    requires Settled(e.cfg.rcvWnd, e.rcv) && len < 0
    ensures S.Recv(a, e, len).ep == e
  {
  }

  lemma RecvConsumes(a: Arith, e: Endpoint, len: int)
    requires EndpointOk(a, e) && len >= 0 && S.Recv(a, e, len).ret >= 0
    ensures Consumed(e, S.Recv(a, e, len).ep, S.MergeCount(e.rcv.queue))
  {
    hide S.MoveReady;
    hide S.PeekSize;
    hide Settled;
    var n := S.MergeCount(e.rcv.queue);
    MoveReadyMoves(a, e.cfg.rcvWnd, e.rcv.(queue := e.rcv.queue[n..]));
    RecvKeepsEndpoint(a, e, len);
  }

  lemma PairRecvExact(s: Node, r: Node, len: int)
    requires Pair(s, r)
    ensures RecvExact(Unbounded, s, r, len)
  {
    hide S.MoveReady;
    if |r.ep.rcv.queue| > 0 {
      KcpEndToEnd.HeadMessage(s, r);
      var m := s.sent[|r.got|];
      if |S.Fragment(s.ep.cfg.mss, m)| <= |r.ep.rcv.queue| {
        Reassembles(s.ep.cfg.mss, m, r.ep.rcv.queue);
      }
    }
    if len < 0 {
      PeekChangesNothing(Unbounded, r.ep, len);
    } else if S.Recv(Unbounded, r.ep, len).ret >= 0 {
      RecvConsumes(Unbounded, r.ep, len);
    }
  }

  /** In every reachable state and both directions: `ikcp_recv` returns the next message
      exactly when all its segments are in the queue and it fits; it fails with -1 exactly on
      an empty queue, with -2 exactly when part of the message is missing, with -3 exactly
      when only the room is.  Peeking and failing change nothing. */
  lemma RecvSucceedsExactly(sys: System, events: seq<Event>, len: int)
    requires Start(sys)
    ensures var end := Run(Unbounded, sys, events);
            && 0 < end.left.ep.cfg.mss && 0 < end.right.ep.cfg.mss
            && RecvExact(Unbounded, end.left, end.right, len) && RecvExact(Unbounded, end.right, end.left, len)
  {
    KcpEndToEnd.StartIsOk(sys);
    KcpEndToEnd.RunKeepsSystem(sys, events);
    var end := Run(Unbounded, sys, events);
    PairRecvExact(end.left, end.right, len);
    PairRecvExact(end.right, end.left, len);
  }
}
