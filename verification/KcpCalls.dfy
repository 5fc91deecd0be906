/** Any sequence of calls on one endpoint, with arbitrary datagrams arriving: nothing is
    assumed about the peer. */
module KcpCalls {
  import opened Circular
  import opened KcpState
  import opened KcpWindows
  import opened KcpInvariants
  import opened KcpCongestion
  import S = KcpSpec

  datatype Call = Send(buffer: seq<byte>, len: int) | Recv(len: int) | Input(ps: seq<Packet>, ok: bool)
                | Update(now: int) | Flush

  /** What the C interface and the header reader guarantee about arguments. */
  ghost predicate Proper(a: Arith, c: Call) {
    match c
    case Send(buffer, len) => len <= |buffer|
    case Input(ps, ok) => forall p :: p in ps ==> Readable(a, p) && p.wnd <= 0xffff
    case _ => true
  }

  function Do(a: Arith, e: Endpoint, c: Call): Endpoint
    requires 0 < e.cfg.mss && (c.Send? ==> c.len <= |c.buffer|)
  {
    match c
    case Send(buffer, len) => e.(snd := S.Send(e.cfg.mss, e.snd, buffer, len).0)
    case Recv(len) => S.Recv(a, e, len).ep
    case Input(ps, ok) => S.Input(a, e, ps, ok)
    case Update(now) => S.Update(a, e, now).0
    case Flush => S.Flush(a, e).0
  }

  /** The largest `cwnd` the configuration can lead to. */
  function CwndBound(cfg: Config): int {
    Max(0xffff, Max(cfg.sndWnd / 2, THRESH_MIN) + Max(cfg.fastResend, 0))
  }

  /** Everything kept by every call. */
  ghost predicate Healthy(a: Arith, e: Endpoint) {
    && EndpointOk(a, e)
    && Fits(e.cfg.mss, CwndBound(e.cfg))
    && Band(e.cfg.mss, e.cong)
    && e.cong.cwnd <= CwndBound(e.cfg) && e.cong.rmtWnd <= 0xffff
  }

  lemma {:induction false} PeerWindowFits(a: Arith, st: S.InState, ps: seq<Packet>)
    requires st.ep.cong.rmtWnd <= 0xffff && forall p :: p in ps ==> p.wnd <= 0xffff
    ensures S.OnPackets(a, st, ps).ep.cong.rmtWnd <= 0xffff
    ensures S.OnPackets(a, st, ps).ep.cong == st.ep.cong.(rmtWnd := S.OnPackets(a, st, ps).ep.cong.rmtWnd)
    decreases |ps|
  {
    if |ps| == 0 {
    } else {
      PeerWindowFits(a, S.OnPacket(a, st, ps[0]), ps[1..]);
    }
  }

  lemma InputKeepsHealth(a: Arith, e: Endpoint, ps: seq<Packet>, ok: bool)
    requires Healthy(a, e) && Proper(a, Input(ps, ok))
    ensures Healthy(a, S.Input(a, e, ps, ok))
    ensures S.Input(a, e, ps, ok).cong.cwnd <= e.cong.cwnd + 2
  {
    hide S.OnPackets;
    InputKeepsEndpoint(a, e, ps, ok);
    PeerWindowFits(a, S.InState(e, false, 0), ps);
    var st := S.OnPackets(a, S.InState(e, false, 0), ps);
    OnPacketsKeepEndpoint(a, S.InState(e, false, 0), ps);
    GrowKeepsBand(e.cfg.mss, CwndBound(e.cfg), st.ep.cong);
  }

  /** Without fast resend the addition wraps, and lands one below the threshold. */
  lemma ResentFits(cfg: Config, x: S.Flusher, inflight: int)
    requires x.cfg == cfg && 0 <= inflight <= cfg.sndWnd < HALF / 2 && cfg.fastResend < HALF
    ensures 0 <= U32(Max(inflight / 2, THRESH_MIN) + x.Resent()) <= CwndBound(cfg)
  {
  }

  lemma SegmentsKeepBand(a: Arith, x: S.Flusher, g: S.Sending, cwnd: int)
    requires ConfigOk(x.cfg) && SenderOk(a, x.cfg.sndWnd, g.snd) && 0 <= cwnd <= x.cfg.sndWnd
    requires Fits(x.cfg.mss, CwndBound(x.cfg)) && Band(x.cfg.mss, g.cong) && g.cong.cwnd <= CwndBound(x.cfg)
    ensures var c := S.SendSegments(a, x, g, cwnd).cong;
            Band(x.cfg.mss, c) && 1 <= c.cwnd <= CwndBound(x.cfg) && c.rmtWnd == g.cong.rmtWnd
  {
    hide S.Admit;
    hide S.VisitAll;
    hide S.Segments;
    hide S.Timeouts;
    hide S.AnyFast;
    hide S.DataPackets;
    var s := S.Admit(a, x, g.snd, cwnd);
    AdmitKeepsSender(a, x, x.cfg.sndWnd, g.snd, cwnd);
    var inflight := Norm(a, s.nxt - s.una);
    assert inflight == Off(a, s.una, s.nxt);
    var vs := S.VisitsOf(a, x, g.snd, cwnd);
    ResentFits(x.cfg, x, inflight);
    AdjustKeepsBand(x.cfg.mss, CwndBound(x.cfg), g.cong, x.Resent(), inflight, cwnd, S.AnyFast(vs), S.Timeouts(vs) > 0);
    AdjustCwndKeepsSign(x.cfg.mss, g.cong, x.Resent(), inflight, cwnd, S.AnyFast(vs), S.Timeouts(vs) > 0);
  }

  lemma FlushKeepsBand(a: Arith, e: Endpoint)
    requires Healthy(a, e)
    ensures var c := S.Flushed(a, e).cong;
            Band(e.cfg.mss, c) && 1 <= c.cwnd <= CwndBound(e.cfg) && c.rmtWnd == e.cong.rmtWnd
  {
    SegmentsKeepBand(a, S.FlusherOf(e), S.Sending(e.snd, e.cong, e.xmit, e.dead), S.Window(e));
  }

  lemma FlushKeepsHealth(a: Arith, e: Endpoint)
    requires Healthy(a, e)
    ensures Healthy(a, S.Flush(a, e).0)
    ensures e.clock.updated ==> S.Flush(a, e).0.cong.cwnd >= 1
  {
    FlushKeepsEndpoint(a, e);
    if e.clock.updated {
      FlushKeepsBand(a, e);
    }
  }

  lemma SendKeepsHealth(a: Arith, e: Endpoint, buffer: seq<byte>, len: int)
    requires Healthy(a, e) && Proper(a, Send(buffer, len))
    ensures Healthy(a, Do(a, e, Send(buffer, len)))
  {
    hide S.Send;
    SendKeepsEndpoint(a, e, buffer, len);
  }

  lemma RecvKeepsHealth(a: Arith, e: Endpoint, len: int)
    requires Healthy(a, e)
    ensures Healthy(a, S.Recv(a, e, len).ep)
    ensures S.Recv(a, e, len).ep.snd == e.snd && S.Recv(a, e, len).ep.cfg == e.cfg
  {
    hide S.MoveReady;
    RecvKeepsEndpoint(a, e, len);
  }

  lemma UpdateKeepsHealth(a: Arith, e: Endpoint, now: int)
    requires Healthy(a, e) && Proper(a, Update(now))
    ensures Healthy(a, S.Update(a, e, now).0)
  {
    hide S.Flush;
    var e1 := e.(clock := S.Tick(e.cfg.interval, e.clock, now).0);
    FlushKeepsHealth(a, e1);
    UpdateKeepsEndpoint(a, e, now);
  }

  /** One call keeps everything, and `snd_una` never moves back. */
  lemma CallKeepsHealth(a: Arith, e: Endpoint, c: Call)
    requires Healthy(a, e) && Proper(a, c)
    ensures Healthy(a, Do(a, e, c))
    ensures Do(a, e, c).cfg == e.cfg
    ensures Advanced(a, e.snd, Do(a, e, c).snd)
  {
    hide Fits;
    hide Band;
    hide S.Flush;
    hide S.Update;
    hide S.Input;
    hide S.Recv;
    assert Off(a, e.snd.una, e.snd.una) == 0;
    match c {
      case Send(buffer, len) =>
        SendKeepsHealth(a, e, buffer, len);
        SendKeepsEndpoint(a, e, buffer, len);
      case Recv(len) => RecvKeepsHealth(a, e, len);
      case Input(ps, ok) => InputKeepsHealth(a, e, ps, ok); InputKeepsEndpoint(a, e, ps, ok);
      case Update(now) => UpdateKeepsHealth(a, e, now); UpdateKeepsEndpoint(a, e, now);
      case Flush => FlushKeepsHealth(a, e); FlushKeepsEndpoint(a, e);
    }
  }

  ghost function DoAll(a: Arith, e: Endpoint, cs: seq<Call>): Endpoint
    requires Healthy(a, e) && forall c :: c in cs ==> Proper(a, c)
    decreases |cs|
  {
    if |cs| == 0 then e
    else
      CallKeepsHealth(a, e, cs[0]);
      DoAll(a, Do(a, e, cs[0]), cs[1..])
  }

  /** Over every sequence of calls on a freshly configured endpoint, in 32-bit or in
      unbounded arithmetic and whatever arrives from the network: the windows are ordered
      and in range, no list outgrows its window, nothing deliverable is held back, and the
      two congestion windows agree. */
  lemma {:induction false} EveryReachableEndpoint(a: Arith, e: Endpoint, cs: seq<Call>)
    requires Healthy(a, e) && forall c :: c in cs ==> Proper(a, c)
    ensures var t := DoAll(a, e, cs);
            && Healthy(a, t) && t.cfg == e.cfg
            && |t.snd.buf| <= t.cfg.sndWnd && |t.rcv.buf| <= t.cfg.rcvWnd && |t.rcv.queue| <= t.cfg.rcvWnd
    decreases |cs|
  {
    if |cs| == 0 {
      ListsFitWindows(a, e);
    } else {
      CallKeepsHealth(a, e, cs[0]);
      EveryReachableEndpoint(a, Do(a, e, cs[0]), cs[1..]);
    }
  }

  lemma FreshIsHealthy(a: Arith, cfg: Config)
    requires ConfigOk(cfg) && Fits(cfg.mss, CwndBound(cfg))
    ensures Healthy(a, S.Create(cfg.conv).(cfg := cfg))
    ensures Healthy(a, S.Create(cfg.conv))
  {
  }
}
