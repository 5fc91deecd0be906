/** What one flush puts on the wire and what it leaves behind: which segments it numbers, which
    it sends, and what goes out in front of them. */
module KcpEmission {
  import opened Circular
  import opened KcpState
  import opened KcpWindows
  import opened KcpInvariants
  import opened KcpMessages
  import opened KcpSystem
  import opened KcpCodec
  import opened KcpArrival
  import KcpDelivery
  import KcpEndToEnd
  import S = KcpSpec

  // ---------------------------------------------------------------- numbering

  /** How many segments may be numbered: what the send window, the peer's window and, if it
      counts, the congestion window leave beyond the segments in flight. */
  function Room(e: Endpoint): nat {
    var w := Min(e.cfg.sndWnd, e.cong.rmtWnd);
    var open := (if e.cfg.noCwnd then w else Min(w, e.cong.cwnd)) - (e.snd.nxt - e.snd.una);
    Min(Max(open, 0), |e.snd.queue|)
  }

  /** Newly numbered segments: the next numbers, the front of the queue, never sent. */
  ghost predicate NewlyNumbered(buf: seq<Sent>, nxt: int, queue: seq<Frag>)
    requires |buf| <= |queue|
  {
    forall i :: 0 <= i < |buf| ==>
      && buf[i].pkt.cmd == CMD_PUSH && buf[i].pkt.sn == nxt + i && buf[i].xmit == 0
      && buf[i].pkt.frg == queue[i].frg && buf[i].pkt.data == queue[i].data
  }

  lemma {:induction false} AdmitExactly(x: S.Flusher, s: Sender, cwnd: int)
    ensures var t := S.Admit(Unbounded, x, s, cwnd);
            var k := Min(Max(cwnd - (s.nxt - s.una), 0), |s.queue|);
            && t.nxt == s.nxt + k && t.una == s.una && t.queue == s.queue[k..]
            && |t.buf| == |s.buf| + k && t.buf[..|s.buf|] == s.buf
            && NewlyNumbered(t.buf[|s.buf|..], s.nxt, s.queue)
    decreases |s.queue|
  {
    if s.nxt < s.una + cwnd && |s.queue| > 0 {
      var f := s.queue[0];
      var p := Packet(x.cfg.conv, CMD_PUSH, f.frg, x.wnd, x.now, s.nxt, x.rcvNxt, f.data);
      var s1 := s.(nxt := s.nxt + 1, queue := s.queue[1..], buf := s.buf + [Sent(p, x.now, x.rto, 0, 0)]);
      AdmitExactly(x, s1, cwnd);
      var t := S.Admit(Unbounded, x, s, cwnd);
      assert t == S.Admit(Unbounded, x, s1, cwnd);
      OneMoreNumbered(s, s1, t);
    }
  }

  lemma OneMoreNumbered(s: Sender, s1: Sender, t: Sender)
    requires |s.queue| > 0 && |s1.buf| == |s.buf| + 1 && s1.buf[..|s.buf|] == s.buf
    requires s1.nxt == s.nxt + 1 && s1.queue == s.queue[1..]
    requires NewlyNumbered(s1.buf[|s.buf|..], s.nxt, s.queue)
    requires |s1.buf| <= |t.buf| <= |s1.buf| + |s1.queue| && t.buf[..|s1.buf|] == s1.buf
    requires NewlyNumbered(t.buf[|s1.buf|..], s1.nxt, s1.queue)
    ensures t.buf[..|s.buf|] == s.buf
    ensures NewlyNumbered(t.buf[|s.buf|..], s.nxt, s.queue)
  {
    var n := |s.buf|;
    assert t.buf[..n] == t.buf[..n + 1][..n];
    var added := t.buf[n..];
    forall i | 0 <= i < |added|
      ensures added[i].pkt.cmd == CMD_PUSH && added[i].pkt.sn == s.nxt + i && added[i].xmit == 0
      ensures added[i].pkt.frg == s.queue[i].frg && added[i].pkt.data == s.queue[i].data
    {
      if i == 0 {
        assert added[0] == t.buf[..n + 1][n] == s1.buf[n..][0];
      } else {
        assert added[i] == t.buf[n + 1..][i - 1];
      }
    }
  }

  // ---------------------------------------------------------------- deciding

  predicate Overdue(now: int, s: Sent) { TimeDiff(now, s.resendts) >= 0 }

  /** Skipped as often as fast resend asks for, and not sent too often for it. */
  predicate SkippedEnough(cfg: Config, s: Sent) {
    && s.fastack >= (if cfg.fastResend > 0 then cfg.fastResend else 0xffff_ffff)
    && (cfg.fastLimit <= 0 || Signed(U32(s.xmit)) <= cfg.fastLimit)
  }

  /** A buffered segment is sent if it never was, if its time has come, or by fast resend. */
  predicate Due(cfg: Config, now: int, s: Sent) {
    s.xmit == 0 || Overdue(now, s) || SkippedEnough(cfg, s)
  }

  lemma VisitSends(x: S.Flusher, s: Sent)
    ensures S.Visit(x, s).send <==> Due(x.cfg, x.now, s)
    ensures S.Visit(x, s).timeout <==> s.xmit != 0 && Overdue(x.now, s)
    ensures S.Visit(x, s).fast <==> s.xmit != 0 && !Overdue(x.now, s) && SkippedEnough(x.cfg, s)
    ensures var p := S.Visit(x, s).seg.pkt;
            && p.sn == s.pkt.sn && p.frg == s.pkt.frg && p.data == s.pkt.data && p.cmd == s.pkt.cmd
            && (S.Visit(x, s).send ==> p.ts == x.now && p.una == x.rcvNxt && p.wnd == x.wnd)
  {
    hide S.Backoff;
  }

  /** `p` is what goes out for one of the visited segments. */
  ghost predicate GoesOut(vs: seq<S.Visited>, p: Packet) {
    exists v :: v in vs && v.send && p == Wire(v.seg.pkt)
  }

  lemma GoesOutSplit(vs: seq<S.Visited>, p: Packet)
    requires |vs| > 0
    ensures GoesOut(vs, p) <==> (vs[0].send && p == Wire(vs[0].seg.pkt)) || GoesOut(vs[1..], p)
  {
    assert vs == [vs[0]] + vs[1..];
    if GoesOut(vs[1..], p) {
      var v :| v in vs[1..] && v.send && p == Wire(v.seg.pkt);
      assert v in vs;
    }
    if vs[0].send && p == Wire(vs[0].seg.pkt) {
      assert vs[0] in vs;
    }
  }

  ghost predicate VisitsIncrease(vs: seq<S.Visited>) {
    forall i, j :: 0 <= i < j < |vs| ==> vs[i].seg.pkt.sn < vs[j].seg.pkt.sn
  }

  ghost predicate NumbersIncrease(ps: seq<Packet>) {
    forall i, j :: 0 <= i < j < |ps| ==> ps[i].sn < ps[j].sn
  }

  /** The packets of the visited segments that are sent, each once and in order. */
  lemma {:induction false} SentInOrder(vs: seq<S.Visited>)
    requires VisitsIncrease(vs)
    ensures forall p :: p in S.DataPackets(vs) <==> GoesOut(vs, p)
    ensures NumbersIncrease(S.DataPackets(vs))
  {
    hide GoesOut;
    if |vs| == 0 {
      NothingGoesOut(vs);
    } else {
      var rest := vs[1..];
      SentInOrder(rest);
      forall p ensures GoesOut(vs, p) <==> (vs[0].send && p == Wire(vs[0].seg.pkt)) || GoesOut(rest, p) {
        GoesOutSplit(vs, p);
      }
      forall q | q in S.DataPackets(rest) ensures vs[0].seg.pkt.sn < q.sn {
        OutIsLater(vs, q);
      }
    }
  }

  lemma NothingGoesOut(vs: seq<S.Visited>)
    requires |vs| == 0
    ensures forall p :: !GoesOut(vs, p)
  {
  }

  lemma OutIsLater(vs: seq<S.Visited>, q: Packet)
    requires |vs| > 0 && VisitsIncrease(vs) && GoesOut(vs[1..], q)
    ensures vs[0].seg.pkt.sn < q.sn
  {
    var rest := vs[1..];
    var v :| v in rest && v.send && q == Wire(v.seg.pkt);
    var i :| 0 <= i < |rest| && rest[i] == v;
    assert vs[i + 1] == v;
  }

  // ---------------------------------------------------------------- one flush

  /** The probe timer has run out on a window that the peer has closed. */
  predicate ProbeDue(e: Endpoint) {
    e.cong.rmtWnd == 0 && e.probe.wait != 0 && TimeDiff(e.clock.current, e.probe.ts) >= 0
  }

  /** What the header of every packet says about the own receiver. */
  predicate TellsReceiver(e: Endpoint, p: Packet) {
    p.una == e.rcv.nxt && p.wnd == Max(e.cfg.rcvWnd - |e.rcv.queue|, 0) % 0x1_0000
  }

  ghost predicate InPackets(ps: seq<Packet>, n: int) { exists p :: p in ps && p.sn == n }

  ghost predicate DueInBuf(e: Endpoint, n: int) {
    exists s :: s in e.snd.buf && s.pkt.sn == n && Due(e.cfg, e.clock.current, s)
  }

  /** The data part: each segment numbered by this flush and each one that is due goes out
      exactly once, in the order of the numbers and with the content of the log, and no other
      segment does. */
  ghost predicate DataExact(log: seq<Frag>, e: Endpoint, nxt: int, ps: seq<Packet>) {
    && NumbersIncrease(ps)
    && (forall n :: InPackets(ps, n) <==> e.snd.nxt <= n < nxt || DueInBuf(e, n))
    && (forall p :: p in ps ==>
          p.cmd == CMD_PUSH && Carries(log, p) && p.ts == e.clock.current && TellsReceiver(e, p))
  }

  /** The control part: every pending acknowledgement once and in order, with its time stamp,
      then a request for the peer's window and the own window, if they are asked for. */
  ghost predicate ControlExact(e: Endpoint, ps: seq<Packet>) {
    var a := |e.rcv.acks|;
    var asks, tells := e.probe.askSend || ProbeDue(e), e.probe.askTell;
    && |ps| == a + (if asks then 1 else 0) + (if tells then 1 else 0)
    && (forall i :: 0 <= i < a ==>
          ps[i].cmd == CMD_ACK && ps[i].sn == e.rcv.acks[i].sn && ps[i].ts == e.rcv.acks[i].ts)
    && (asks ==> ps[a].cmd == CMD_WASK)
    && (tells ==> ps[|ps| - 1].cmd == CMD_WINS)
    && (forall p :: p in ps ==> TellsReceiver(e, p) && p.data == [])
  }

  lemma {:induction false} AcksGoOut(e: Endpoint, acks: seq<Ack>)
    ensures var ps := S.AckPackets(S.FlusherOf(e), acks);
            && |ps| == |acks|
            && (forall i :: 0 <= i < |acks| ==>
                  ps[i].cmd == CMD_ACK && ps[i].sn == acks[i].sn && ps[i].ts == acks[i].ts)
            && (forall p :: p in ps ==> TellsReceiver(e, p) && p.data == [])
  {
    if |acks| == 0 {
    } else {
      AcksGoOut(e, acks[1..]);
    }
  }

  lemma ProbeAsks(e: Endpoint)
    ensures var p := S.TickProbe(e.cong.rmtWnd, e.clock.current, e.probe);
            (p.askSend <==> e.probe.askSend || ProbeDue(e)) && p.askTell == e.probe.askTell
  {
    hide TimeDiff;
  }

  lemma ProbesGoOut(e: Endpoint, p: Probe, last: Ack)
    ensures var ps := S.ProbePackets(S.FlusherOf(e), p, last);
            && |ps| == (if p.askSend then 1 else 0) + (if p.askTell then 1 else 0)
            && (p.askSend ==> ps[0].cmd == CMD_WASK) && (p.askTell ==> ps[|ps| - 1].cmd == CMD_WINS)
            && (forall q :: q in ps ==> TellsReceiver(e, q) && q.data == [])
  {
  }

  lemma ControlGoesOut(e: Endpoint)
    ensures var x := S.FlusherOf(e);
            var p := S.TickProbe(e.cong.rmtWnd, e.clock.current, e.probe);
            ControlExact(e, S.AckPackets(x, e.rcv.acks) + S.ProbePackets(x, p, S.LastAck(e.rcv.acks)))
  {
    hide S.AckPackets;
    hide S.LastAck;
    hide S.TickProbe;
    hide S.ProbePackets;
    hide ProbeDue;
    hide TellsReceiver;
    AcksGoOut(e, e.rcv.acks);
    ProbeAsks(e);
    ProbesGoOut(e, S.TickProbe(e.cong.rmtWnd, e.clock.current, e.probe), S.LastAck(e.rcv.acks));
  }

  /** The records that a flush visits: the buffered ones, then those it has just numbered. */
  lemma VisitedRecords(log: seq<Frag>, e: Endpoint, s: Sender)
    requires EndpointOk(Unbounded, e) && SendSide(log, e.snd)
    requires s == S.Admit(Unbounded, S.FlusherOf(e), e.snd, S.Window(e))
    ensures |s.buf| == |e.snd.buf| + Room(e) && s.buf[..|e.snd.buf|] == e.snd.buf
    ensures s.nxt == e.snd.nxt + Room(e) && s.una == e.snd.una && s.queue == e.snd.queue[Room(e)..]
    ensures NewlyNumbered(s.buf[|e.snd.buf|..], e.snd.nxt, e.snd.queue)
    ensures Increasing(s.buf) && SendSide(log, s)
  {
    hide S.Admit;
    AdmitExactly(S.FlusherOf(e), e.snd, S.Window(e));
    AdmitKeepsSender(Unbounded, S.FlusherOf(e), e.cfg.sndWnd, e.snd, S.Window(e));
    SenderIncreasing(e.cfg.sndWnd, s);
    KcpDelivery.AdmitTakesFromQueue(log, S.FlusherOf(e), e.snd, S.Window(e));
  }

  lemma VisitsInOrder(x: S.Flusher, buf: seq<Sent>)
    requires Increasing(buf)
    ensures VisitsIncrease(S.VisitAll(x, buf))
  {
  }

  /** Which numbers go out: those of the records that are due. */
  lemma NumbersOut(x: S.Flusher, buf: seq<Sent>, n: int)
    requires Increasing(buf)
    ensures InPackets(S.DataPackets(S.VisitAll(x, buf)), n)
       <==> exists i :: 0 <= i < |buf| && buf[i].pkt.sn == n && Due(x.cfg, x.now, buf[i])
  {
    hide Due;
    hide S.Visit;
    var vs := S.VisitAll(x, buf);
    VisitsInOrder(x, buf);
    SentInOrder(vs);
    if InPackets(S.DataPackets(vs), n) {
      var p :| p in S.DataPackets(vs) && p.sn == n;
      var v :| v in vs && v.send && p == Wire(v.seg.pkt);
      var i :| 0 <= i < |vs| && vs[i] == v;
      VisitSends(x, buf[i]);
    }
    if exists i :: 0 <= i < |buf| && buf[i].pkt.sn == n && Due(x.cfg, x.now, buf[i]) {
      var i :| 0 <= i < |buf| && buf[i].pkt.sn == n && Due(x.cfg, x.now, buf[i]);
      VisitSends(x, buf[i]);
      assert vs[i] in vs;
      assert GoesOut(vs, Wire(vs[i].seg.pkt));
    }
  }

  /** Buffered records that are due, and new ones. */
  lemma DueOrNew(e: Endpoint, buf: seq<Sent>, k: nat, n: int)
    requires k <= |e.snd.queue| && |buf| == |e.snd.buf| + k && buf[..|e.snd.buf|] == e.snd.buf
    requires NewlyNumbered(buf[|e.snd.buf|..], e.snd.nxt, e.snd.queue)
    ensures (exists i :: 0 <= i < |buf| && buf[i].pkt.sn == n && Due(e.cfg, e.clock.current, buf[i]))
       <==> e.snd.nxt <= n < e.snd.nxt + k || DueInBuf(e, n)
  {
    var b, added := |e.snd.buf|, buf[|e.snd.buf|..];
    if exists i :: 0 <= i < |buf| && buf[i].pkt.sn == n && Due(e.cfg, e.clock.current, buf[i]) {
      var i :| 0 <= i < |buf| && buf[i].pkt.sn == n && Due(e.cfg, e.clock.current, buf[i]);
      if i < b {
        assert buf[i] == e.snd.buf[i] && e.snd.buf[i] in e.snd.buf;
      } else {
        assert buf[i] == added[i - b];
      }
    }
    if e.snd.nxt <= n < e.snd.nxt + k {
      assert buf[b + (n - e.snd.nxt)] == added[n - e.snd.nxt];
    } else if DueInBuf(e, n) {
      var s :| s in e.snd.buf && s.pkt.sn == n && Due(e.cfg, e.clock.current, s);
      var i :| 0 <= i < b && e.snd.buf[i] == s;
      assert buf[i] == buf[..b][i];
    }
  }

  lemma ContentOut(log: seq<Frag>, e: Endpoint, s: Sender)
    requires SendSide(log, s) && KcpDelivery.SmallNumbers(log)
    ensures forall p :: p in S.DataPackets(S.VisitAll(S.FlusherOf(e), s.buf)) ==>
              p.cmd == CMD_PUSH && Carries(log, p) && p.ts == e.clock.current && TellsReceiver(e, p)
  {
    hide S.Visit;
    hide Due;
    hide Carries;
    var x := S.FlusherOf(e);
    var vs := S.VisitAll(x, s.buf);
    KcpDelivery.DataPacketsContents(vs);
    forall p | p in S.DataPackets(vs)
      ensures p.cmd == CMD_PUSH && Carries(log, p) && p.ts == e.clock.current && TellsReceiver(e, p)
    {
      var v :| v in vs && v.send && p == Wire(v.seg.pkt);
      var i :| 0 <= i < |vs| && vs[i] == v;
      assert s.buf[i] in s.buf;
      KcpDelivery.VisitCarries(log, x, s.buf[i]);
      VisitSends(x, s.buf[i]);
    }
  }

  lemma DataGoesOut(log: seq<Frag>, e: Endpoint)
    requires EndpointOk(Unbounded, e) && SendSide(log, e.snd) && KcpDelivery.SmallNumbers(log)
    ensures DataExact(log, e, e.snd.nxt + Room(e), S.DataPackets(S.FlushVisits(Unbounded, e)))
  {
    hide S.Admit;
    hide S.VisitAll;
    hide S.DataPackets;
    hide SendSide;
    hide Due;
    hide Carries;
    hide NewlyNumbered;
    hide InPackets;
    hide DueInBuf;
    var x := S.FlusherOf(e);
    var s := S.Admit(Unbounded, x, e.snd, S.Window(e));
    VisitedRecords(log, e, s);
    VisitsInOrder(x, s.buf);
    SentInOrder(S.VisitAll(x, s.buf));
    ContentOut(log, e, s);
    var ps := S.DataPackets(S.VisitAll(x, s.buf));
    forall n ensures InPackets(ps, n) <==> e.snd.nxt <= n < e.snd.nxt + Room(e) || DueInBuf(e, n) {
      NumbersOut(x, s.buf, n);
      DueOrNew(e, s.buf, Room(e), n);
    }
  }

  /** One flush: `t` is the endpoint after it and `out` all the packets it emits, in order. */
  ghost predicate FlushExact(log: seq<Frag>, e: Endpoint, t: Endpoint, out: seq<Packet>) {
    && t.snd.una == e.snd.una && t.snd.nxt == e.snd.nxt + Room(e) && t.snd.queue == e.snd.queue[Room(e)..]
    && t.rcv == e.rcv.(acks := [])
    && !t.probe.askSend && !t.probe.askTell
    && exists b :: 0 <= b <= |out| && ControlExact(e, out[..b]) && DataExact(log, e, t.snd.nxt, out[b..])
  }

  lemma FlushExactly(log: seq<Frag>, e: Endpoint)
    requires EndpointOk(Unbounded, e) && SendSide(log, e.snd) && KcpDelivery.SmallNumbers(log)
    ensures e.clock.updated ==>
              FlushExact(log, e, S.Flush(Unbounded, e).0, Flatten(S.Flush(Unbounded, e).1))
    ensures !e.clock.updated ==> S.Flush(Unbounded, e) == (e, [])
  {
    hide S.Admit;
    hide S.VisitAll;
    hide S.DataPackets;
    hide S.AckPackets;
    hide S.ProbePackets;
    hide S.Pack;
    hide ControlExact;
    hide DataExact;
    if e.clock.updated {
      var t := S.Flushed(Unbounded, e);
      var x := S.FlusherOf(e);
      var control := S.AckPackets(x, e.rcv.acks)
                     + S.ProbePackets(x, S.TickProbe(e.cong.rmtWnd, e.clock.current, e.probe), S.LastAck(e.rcv.acks));
      var data := S.DataPackets(S.FlushVisits(Unbounded, e));
      ControlGoesOut(e);
      DataGoesOut(log, e);
      VisitedRecords(log, e, S.Admit(Unbounded, x, e.snd, S.Window(e)));
      PackKeepsOrder(e.cfg.mtu, S.FlushPackets(Unbounded, e), []);
      var out := S.FlushPackets(Unbounded, e);
      assert [] + out == out && out == control + data;
      assert out[..|control|] == control && out[|control|..] == data;
    }
  }

  // ---------------------------------------------------------------- what a flush records

  /** The timeout after a retransmission on time: at least doubled in the normal mode, one and
      a half times itself or plus half of the estimate in the others, as long as it fits. */
  predicate BackedOff(cfg: Config, estimate: int, was: int, rto: int) {
    0 < was < 0x4000_0000 && 0 < estimate < 0x4000_0000 ==>
      if cfg.nodelay == 0 then rto >= 2 * was && rto >= was + estimate && (rto == 2 * was || rto == was + estimate)
      else if cfg.nodelay < 2 then 3 * was - 1 <= 2 * rto <= 3 * was
      else estimate - 1 <= 2 * (rto - was) <= estimate
  }

  lemma BackoffGrowth(x: S.Flusher, was: int)
    ensures BackedOff(x.cfg, x.rto, was, S.Backoff(x, was))
  {
    if 0 < was < 0x4000_0000 && 0 < x.rto < 0x4000_0000 {
      assert U32(was) == was && Signed(was) == was;
      var step :=
        if x.cfg.nodelay == 0 then Max(was, x.rto)
        else if x.cfg.nodelay < 2 then S.Quot(was, 2)
        else S.Quot(x.rto, 2);
      assert U32(was + step) == was + step;
    }
  }

  /** How the record `s` of a segment becomes `y`: untouched if it is not due; otherwise sent
      once more and scheduled one timeout ahead, with an eighth on top the first time. */
  predicate Handled(e: Endpoint, s: Sent, y: Sent) {
    var now := e.clock.current;
    && y.pkt.sn == s.pkt.sn && y.pkt.frg == s.pkt.frg && y.pkt.data == s.pkt.data
    && (!Due(e.cfg, now, s) ==> y == s)
    && (Due(e.cfg, now, s) ==>
        && y.xmit == U32(s.xmit + 1)
        && y.resendts == U32(now + y.rto + if s.xmit == 0 && e.cfg.nodelay == 0 then e.rtt.rto / 8 else 0)
        && (s.xmit == 0 ==> y.rto == e.rtt.rto && y.fastack == s.fastack)
        && (s.xmit != 0 && Overdue(now, s) ==> BackedOff(e.cfg, e.rtt.rto, s.rto, y.rto) && y.fastack == s.fastack)
        && (s.xmit != 0 && !Overdue(now, s) ==> y.rto == s.rto && y.fastack == 0))
  }

  lemma VisitHandles(e: Endpoint, s: Sent)
    ensures Handled(e, s, S.Visit(S.FlusherOf(e), s).seg)
  {
    hide S.Backoff;
    hide BackedOff;
    hide U32;
    hide TimeDiff;
    BackoffGrowth(S.FlusherOf(e), s.rto);
  }

  /** All records after the flush: the old ones in place, the new ones sent once. */
  ghost predicate RecordsExact(e: Endpoint, t: Endpoint) {
    && |t.snd.buf| == |e.snd.buf| + Room(e)
    && (forall i :: 0 <= i < |e.snd.buf| ==> Handled(e, e.snd.buf[i], t.snd.buf[i]))
    && (forall i :: 0 <= i < Room(e) ==>
          var y := t.snd.buf[|e.snd.buf| + i];
          && y.pkt.sn == e.snd.nxt + i
          && y.pkt.frg == e.snd.queue[i].frg && y.pkt.data == e.snd.queue[i].data
          && y.xmit == 1 && y.rto == e.rtt.rto
          && y.resendts == U32(e.clock.current + y.rto + if e.cfg.nodelay == 0 then e.rtt.rto / 8 else 0))
  }

  lemma FlushedRecords(e: Endpoint)
    ensures S.Flushed(Unbounded, e).snd.buf ==
            S.Segments(S.VisitAll(S.FlusherOf(e), S.Admit(Unbounded, S.FlusherOf(e), e.snd, S.Window(e)).buf))
  {
  }

  lemma FlushRecords(log: seq<Frag>, e: Endpoint)
    requires EndpointOk(Unbounded, e) && SendSide(log, e.snd)
    ensures RecordsExact(e, S.Flushed(Unbounded, e))
  {
    hide S.Admit;
    hide S.Visit;
    hide S.Flushed;
    hide Due;
    hide SendSide;
    hide EndpointOk;
    hide Handled;
    hide NewlyNumbered;
    hide Increasing;
    var x := S.FlusherOf(e);
    var s := S.Admit(Unbounded, x, e.snd, S.Window(e));
    VisitedRecords(log, e, s);
    FlushedRecords(e);
    var b, buf := |e.snd.buf|, S.Flushed(Unbounded, e).snd.buf;
    forall i | 0 <= i < b
      ensures Handled(e, e.snd.buf[i], buf[i])
    {
      VisitHandles(e, s.buf[i]);
      assert s.buf[i] == s.buf[..b][i];
    }
    forall i | 0 <= i < Room(e)
      ensures Handled(e, s.buf[b..][i], buf[b + i])
    {
      VisitHandles(e, s.buf[b + i]);
    }
    NewRecords(e, s.buf[b..], buf[b..]);
  }

  lemma NewRecords(e: Endpoint, added: seq<Sent>, after: seq<Sent>)
    requires |added| == |after| == Room(e) && NewlyNumbered(added, e.snd.nxt, e.snd.queue)
    requires forall i :: 0 <= i < |added| ==> Handled(e, added[i], after[i])
    ensures forall i :: 0 <= i < |added| ==>
              var y := after[i];
              && y.pkt.sn == e.snd.nxt + i
              && y.pkt.frg == e.snd.queue[i].frg && y.pkt.data == e.snd.queue[i].data
              && y.xmit == 1 && y.rto == e.rtt.rto
              && y.resendts == U32(e.clock.current + y.rto + if e.cfg.nodelay == 0 then e.rtt.rto / 8 else 0)
  {
    hide TimeDiff;
  }

  // ---------------------------------------------------------------- loss and congestion

  function CountOverdue(now: int, buf: seq<Sent>): nat {
    if |buf| == 0 then 0
    else (if buf[0].xmit != 0 && Overdue(now, buf[0]) then 1 else 0) + CountOverdue(now, buf[1..])
  }

  /** A segment sent before has reached its time, and a flush takes it for lost. */
  ghost predicate AnyLost(e: Endpoint) {
    exists s :: s in e.snd.buf && s.xmit != 0 && Overdue(e.clock.current, s)
  }

  ghost predicate AnyFastResent(e: Endpoint) {
    exists s :: s in e.snd.buf && s.xmit != 0 && !Overdue(e.clock.current, s) && SkippedEnough(e.cfg, s)
  }

  /** After a loss the window starts again at one segment, with half of it as threshold.  After
      a fast resend alone the threshold is half of what is in flight, and the window lies the
      resend limit above it.  Otherwise nothing changes, but that it is never 0. */
  ghost predicate CongestionExact(e: Endpoint, t: Endpoint) {
    var w := Min(e.cfg.sndWnd, e.cong.rmtWnd);
    var window := if e.cfg.noCwnd then w else Min(w, e.cong.cwnd);
    var half := Max((t.snd.nxt - t.snd.una) / 2, THRESH_MIN);
    var raised := U32(half + if e.cfg.fastResend > 0 then e.cfg.fastResend else 0xffff_ffff);
    var mss := e.cfg.mss;
    if AnyLost(e) then t.cong == Cong(1, mss, Max(window / 2, THRESH_MIN), e.cong.rmtWnd)
    else if AnyFastResent(e) then
      t.cong == if raised < 1 then Cong(1, mss, half, e.cong.rmtWnd)
                else Cong(raised, U32(raised * mss), half, e.cong.rmtWnd)
    else t.cong == if e.cong.cwnd < 1 then e.cong.(cwnd := 1, incr := mss) else e.cong
  }

  lemma {:induction false} TimeoutsAre(x: S.Flusher, buf: seq<Sent>)
    ensures S.Timeouts(S.VisitAll(x, buf)) == CountOverdue(x.now, buf)
  {
    hide S.Visit;
    hide TimeDiff;
    if |buf| == 0 {
    } else {
      VisitSends(x, buf[0]);
      assert S.VisitAll(x, buf)[1..] == S.VisitAll(x, buf[1..]);
      TimeoutsAre(x, buf[1..]);
    }
  }

  lemma {:induction false} CountSplit(now: int, a: seq<Sent>, b: seq<Sent>)
    ensures CountOverdue(now, a + b) == CountOverdue(now, a) + CountOverdue(now, b)
  {
    hide Overdue;
    if |a| == 0 {
      assert a + b == b;
    } else {
      assert (a + b)[1..] == a[1..] + b;
      CountSplit(now, a[1..], b);
    }
  }

  lemma {:induction false} NoneOverdue(now: int, buf: seq<Sent>)
    requires forall i :: 0 <= i < |buf| ==> buf[i].xmit == 0
    ensures CountOverdue(now, buf) == 0
  {
    if |buf| == 0 {
    } else {
      NoneOverdue(now, buf[1..]);
    }
  }

  lemma {:induction false} CountPositive(now: int, buf: seq<Sent>)
    ensures CountOverdue(now, buf) > 0 <==> exists s :: s in buf && s.xmit != 0 && Overdue(now, s)
  {
    hide Overdue;
    if |buf| == 0 {
    } else {
      assert buf == [buf[0]] + buf[1..];
      CountPositive(now, buf[1..]);
      assert buf[0] in buf;
    }
  }

  lemma FastResendsAre(e: Endpoint, buf: seq<Sent>, k: nat)
    requires |buf| == |e.snd.buf| + k && buf[..|e.snd.buf|] == e.snd.buf
    requires forall i :: |e.snd.buf| <= i < |buf| ==> buf[i].xmit == 0
    ensures S.AnyFast(S.VisitAll(S.FlusherOf(e), buf)) <==> AnyFastResent(e)
  {
    hide S.Visit;
    hide Overdue;
    hide SkippedEnough;
    var x := S.FlusherOf(e);
    var vs := S.VisitAll(x, buf);
    if S.AnyFast(vs) {
      var i :| 0 <= i < |vs| && vs[i].fast;
      VisitSends(x, buf[i]);
      assert buf[i] == buf[..|e.snd.buf|][i];
      assert e.snd.buf[i] in e.snd.buf;
    }
    if AnyFastResent(e) {
      var s :| s in e.snd.buf && s.xmit != 0 && !Overdue(e.clock.current, s) && SkippedEnough(e.cfg, s);
      var i :| 0 <= i < |e.snd.buf| && e.snd.buf[i] == s;
      assert buf[i] == buf[..|e.snd.buf|][i];
      VisitSends(x, buf[i]);
      assert vs[i].fast;
    }
  }

  /** The totals over the visited records, in terms of those that were there before. */
  lemma TotalsAre(log: seq<Frag>, e: Endpoint, s: Sender)
    requires EndpointOk(Unbounded, e) && SendSide(log, e.snd)
    requires s == S.Admit(Unbounded, S.FlusherOf(e), e.snd, S.Window(e))
    ensures var vs := S.VisitAll(S.FlusherOf(e), s.buf);
            && S.Timeouts(vs) == CountOverdue(e.clock.current, e.snd.buf)
            && (S.Timeouts(vs) > 0 <==> AnyLost(e)) && (S.AnyFast(vs) <==> AnyFastResent(e))
  {
    hide S.Admit;
    hide S.VisitAll;
    hide S.AnyFast;
    hide S.Timeouts;
    hide SendSide;
    hide EndpointOk;
    hide AnyFastResent;
    hide Overdue;
    var x := S.FlusherOf(e);
    VisitedRecords(log, e, s);
    var b := |e.snd.buf|;
    forall i | b <= i < |s.buf| ensures s.buf[i].xmit == 0 {
      assert s.buf[i] == s.buf[b..][i - b];
    }
    FastResendsAre(e, s.buf, Room(e));
    TimeoutsAre(x, s.buf);
    NoneOverdue(x.now, s.buf[b..]);
    CountSplit(x.now, s.buf[..b], s.buf[b..]);
    assert s.buf == s.buf[..b] + s.buf[b..];
    CountPositive(x.now, e.snd.buf);
  }

  lemma AdjustedExactly(e: Endpoint, t: Endpoint, fast: bool, lost: bool)
    requires (lost <==> AnyLost(e)) && (fast <==> AnyFastResent(e))
    requires t.cong == S.AdjustCwnd(e.cfg.mss, e.cong, S.FlusherOf(e).Resent(), t.snd.nxt - t.snd.una, S.Window(e),
                                    fast, lost)
    ensures CongestionExact(e, t)
  {
    hide AnyLost;
    hide AnyFastResent;
    hide U32;
  }

  /** What a flush makes of losses: the window and the total. */
  lemma FlushCounts(log: seq<Frag>, e: Endpoint)
    requires EndpointOk(Unbounded, e) && SendSide(log, e.snd)
    ensures var t := S.Flushed(Unbounded, e);
            CongestionExact(e, t) && t.xmit == U32(e.xmit + CountOverdue(e.clock.current, e.snd.buf))
  {
    hide S.Admit;
    hide S.VisitAll;
    hide S.AnyFast;
    hide S.AnyDead;
    hide S.Timeouts;
    hide S.Segments;
    hide S.AdjustCwnd;
    hide SendSide;
    hide EndpointOk;
    hide AnyLost;
    hide AnyFastResent;
    hide CountOverdue;
    hide CongestionExact;
    var x := S.FlusherOf(e);
    var s := S.Admit(Unbounded, x, e.snd, S.Window(e));
    TotalsAre(log, e, s);
    var vs := S.VisitAll(x, s.buf);
    AdjustedExactly(e, S.Flushed(Unbounded, e), S.AnyFast(vs), S.Timeouts(vs) > 0);
  }

  /** The link is declared dead exactly when some segment has now been sent `deadLink` times. */
  lemma FlushDeclaresDead(log: seq<Frag>, e: Endpoint)
    requires EndpointOk(Unbounded, e) && SendSide(log, e.snd)
    ensures var t := S.Flushed(Unbounded, e);
            && |e.snd.buf| <= |t.snd.buf|
            && (t.dead <==>
                || e.dead
                || exists i :: && 0 <= i < |t.snd.buf| && t.snd.buf[i].xmit >= e.cfg.deadLink
                               && (i < |e.snd.buf| ==> Due(e.cfg, e.clock.current, e.snd.buf[i])))
  {
    hide S.Admit;
    hide S.Visit;
    hide Due;
    hide SendSide;
    hide EndpointOk;
    var x := S.FlusherOf(e);
    var s := S.Admit(Unbounded, x, e.snd, S.Window(e));
    VisitedRecords(log, e, s);
    var vs, b := S.VisitAll(x, s.buf), |e.snd.buf|;
    forall i | 0 <= i < |s.buf|
      ensures vs[i].send <==> (i < b ==> Due(e.cfg, e.clock.current, e.snd.buf[i]))
    {
      VisitSends(x, s.buf[i]);
      if i < b {
        assert s.buf[i] == s.buf[..b][i];
      } else {
        assert s.buf[i] == s.buf[b..][i - b];
        NewIsDue(e, s.buf[i]);
      }
    }
  }

  lemma NewIsDue(e: Endpoint, s: Sent)
    requires s.xmit == 0
    ensures Due(e.cfg, e.clock.current, s)
  {
  }

  // ---------------------------------------------------------------- the probe timer

  /** While the peer's window is open the probe timer is off.  When it closes the first probe
      is due after seven seconds; each probe makes the next delay half as long again, up to
      two minutes. */
  lemma ProbeTimer(rmtWnd: int, now: int, p: Probe)
    ensures var q := S.TickProbe(rmtWnd, now, p);
            && q.askTell == p.askTell
            && (rmtWnd != 0 ==> q.wait == 0 && q.ts == 0 && q.askSend == p.askSend)
            && (rmtWnd == 0 && p.wait == 0 ==>
                q.wait == 7000 && q.ts == U32(now + q.wait) && q.askSend == p.askSend)
            && (rmtWnd == 0 && p.wait != 0 && TimeDiff(now, p.ts) < 0 ==> q == p)
            && (rmtWnd == 0 && p.wait != 0 && TimeDiff(now, p.ts) >= 0 ==>
                && q.askSend && q.ts == U32(now + q.wait)
                && (7000 <= p.wait <= 80000 ==> 3 * p.wait - 1 <= 2 * q.wait <= 3 * p.wait)
                && (p.wait > 80000 ==> q.wait == 120000)
                && (p.wait < 7000 ==> q.wait == 10500))
  {
    hide TimeDiff;
    hide U32;
  }

  // ---------------------------------------------------------------- cutting into datagrams

  /** The first segment of the next datagram was not let in by the code's own count. */
  predicate Follows(mtu: int, d: Datagram, next: Datagram) {
    |next| > 0 && S.WireSize(d) + OVERHEAD + |next[0].data| > mtu
  }

  /** No datagram is closed early. */
  ghost predicate Greedy(mtu: int, ds: seq<Datagram>) {
    forall i, j :: 0 <= i < j < |ds| && j == i + 1 ==> Follows(mtu, ds[i], ds[j])
  }

  lemma GreedyBefore(mtu: int, d: Datagram, ds: seq<Datagram>)
    requires Greedy(mtu, ds) && (|ds| > 0 ==> Follows(mtu, d, ds[0]))
    ensures Greedy(mtu, [d] + ds)
  {
    hide Follows;
    var all := [d] + ds;
    forall i, j | 0 <= i < j < |all| && j == i + 1
      ensures Follows(mtu, all[i], all[j])
    {
      assert all[j] == ds[i];
      if i > 0 {
        assert all[i] == ds[i - 1];
      }
    }
  }

  lemma {:induction false} PackIsGreedy(mtu: int, ps: seq<Packet>, cur: Datagram)
    ensures var ds := S.Pack(mtu, ps, cur);
            && Greedy(mtu, ds)
            && (|cur| > 0 ==> |ds| > 0 && cur <= ds[0])
            && (|cur| == 0 && |ps| > 0 ==> |ds| > 0 && |ds[0]| > 0 && ds[0][0] == ps[0])
    decreases |ps|
  {
    hide S.WireSize;
    hide Greedy;
    if |ps| == 0 {
      NoFollower(mtu, S.Pack(mtu, ps, cur));
    } else {
      PackIsGreedy(mtu, ps[1..], [ps[0]]);
      PackIsGreedy(mtu, ps[1..], cur + [ps[0]]);
      var rest := S.Pack(mtu, ps[1..], [ps[0]]);
      if |cur| > 0 && S.WireSize(cur) + OVERHEAD + |ps[0].data| > mtu {
        GreedyBefore(mtu, cur, rest);
      } else if |cur| == 0 {
        assert cur + [ps[0]] == [ps[0]];
        assert [] + rest == rest;
      }
    }
  }

  lemma NoFollower(mtu: int, ds: seq<Datagram>)
    requires |ds| <= 1
    ensures Greedy(mtu, ds)
  {
  }

  // ---------------------------------------------------------------- in every reachable state

  /** All of that for one node: what goes out, what is recorded, and how the window reacts. */
  ghost predicate FlushesExactly(me: Node)
    requires 0 < me.ep.cfg.mss
  {
    var e := me.ep;
    var (t, ds) := S.Flush(Unbounded, e);
    if e.clock.updated then
      && FlushExact(Log(e.cfg.mss, me.sent), e, t, Flatten(ds))
      && RecordsExact(e, t) && CongestionExact(e, t)
      && t.xmit == U32(e.xmit + CountOverdue(e.clock.current, e.snd.buf))
      && Greedy(e.cfg.mtu, ds)
    else t == e && ds == []
  }

  lemma NodeFlushes(me: Node)
    requires 0 < me.ep.cfg.mss && EndpointOk(Unbounded, me.ep) && SendSide(Log(me.ep.cfg.mss, me.sent), me.ep.snd)
    requires KcpDelivery.SmallNumbers(Log(me.ep.cfg.mss, me.sent))
    ensures FlushesExactly(me)
  {
    hide EndpointOk;
    hide Flatten;
    hide S.FlushPackets;
    hide KcpDelivery.SmallNumbers;
    hide SendSide;
    hide Log;
    hide S.Pack;
    hide S.Flushed;
    hide FlushExact;
    hide RecordsExact;
    hide CongestionExact;
    hide Greedy;
    hide CountOverdue;
    var log := Log(me.ep.cfg.mss, me.sent);
    FlushExactly(log, me.ep);
    FlushRecords(log, me.ep);
    FlushCounts(log, me.ep);
    PackIsGreedy(me.ep.cfg.mtu, S.FlushPackets(Unbounded, me.ep), []);
  }

  lemma PairFlushes(me: Node, peer: Node)
    requires Pair(me, peer)
    ensures FlushesExactly(me)
  {
    hide FlushesExactly;
    KcpEndToEnd.LogNumbersSmall(me.ep.cfg.mss, me.sent);
    NodeFlushes(me);
  }

  /** In every reachable state of the two endpoints. */
  lemma EveryFlush(sys: System, events: seq<Event>)
    requires Start(sys)
    ensures var end := Run(Unbounded, sys, events);
            && 0 < end.left.ep.cfg.mss && 0 < end.right.ep.cfg.mss
            && FlushesExactly(end.left) && FlushesExactly(end.right)
  {
    hide FlushesExactly;
    KcpEndToEnd.StartIsOk(sys);
    KcpEndToEnd.RunKeepsSystem(sys, events);
    var end := Run(Unbounded, sys, events);
    PairFlushes(end.left, end.right);
    PairFlushes(end.right, end.left);
  }

  /** What is in flight after a flush stays within each of the three windows, unless it was
      beyond already; and if something is left to send one of them is used up. */
  lemma WindowsLimit(log: seq<Frag>, e: Endpoint)
    requires EndpointOk(Unbounded, e) && SendSide(log, e.snd) && KcpDelivery.SmallNumbers(log) && e.clock.updated
    ensures var t := S.Flush(Unbounded, e).0;
            var before, after := e.snd.nxt - e.snd.una, t.snd.nxt - t.snd.una;
            && (after > before ==>
                && after <= e.cfg.sndWnd && after <= e.cong.rmtWnd
                && (!e.cfg.noCwnd ==> after <= e.cong.cwnd))
            && (|t.snd.queue| > 0 ==>
                || after >= e.cfg.sndWnd || after >= e.cong.rmtWnd
                || (!e.cfg.noCwnd && after >= e.cong.cwnd))
  {
    hide S.Flush;
    hide ControlExact;
    hide DataExact;
    hide SendSide;
    hide EndpointOk;
    hide KcpDelivery.SmallNumbers;
    FlushExactly(log, e);
  }
}
