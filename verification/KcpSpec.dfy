/** What every operation of a KCP endpoint does to its state, as functions of the
    state.  The class in Kcp.dfy is proved against these functions under `Wrap32`;
    the invariants and the end-to-end theorem are proved about them. */
module KcpSpec {
  import opened Circular
  import opened KcpState

  // ---------------------------------------------------------------- sending

  /** The fragments of one message: full ones first, numbered down to 0. */
  function Fragment(mss: int, msg: Message): (fs: seq<Frag>)
    requires 0 < mss
    ensures |fs| > 0
    decreases |msg|
  {
    if |msg| <= mss then [Frag(0, msg)]
    else
      var rest := Fragment(mss, msg[mss..]);
      [Frag(|rest|, msg[..mss])] + rest
  }

  function FragmentCount(mss: int, len: int): int
    requires 0 < mss
  {
    if len <= mss then 1 else (len + mss - 1) / mss
  }

  /** Result code and new sender of `ikcp_send` (message mode). */
  function Send(mss: int, s: Sender, buffer: seq<byte>, len: int): (Sender, int)
    requires 0 < mss && len <= |buffer|
  {
    if len < 0 then (s, -1)
    else if FragmentCount(mss, len) >= WND_RCV then (s, -2)
    else (s.(queue := s.queue + Fragment(mss, buffer[..len])), len)
  }

  // ---------------------------------------------------------------- receiving

  /** How many segments the merge loop consumes: up to the first with `frg == 0`. */
  function MergeCount(q: seq<Packet>): (n: nat)
    ensures n <= |q|
    ensures |q| > 0 ==> n > 0
  {
    if |q| == 0 then 0
    else if q[0].frg == 0 then 1
    else 1 + MergeCount(q[1..])
  }

  function DataOf(q: seq<Packet>): seq<byte> {
    if |q| == 0 then [] else q[0].data + DataOf(q[1..])
  }

  /** `ikcp_peeksize`. */
  function PeekSize(q: seq<Packet>): int {
    if |q| == 0 then -1
    else if q[0].frg == 0 then |q[0].data|
    else if |q| < q[0].frg + 1 then -1
    else |DataOf(q[..MergeCount(q)])|
  }

  /** The loop that moves in-order segments from `rcv_buf` to `rcv_queue`. */
  function MoveReady(a: Arith, rcvWnd: int, r: Receiver): Receiver
    decreases |r.buf|
  {
    if |r.buf| > 0 && r.buf[0].sn == r.nxt && |r.queue| < rcvWnd then
      MoveReady(a, rcvWnd, r.(nxt := Norm(a, r.nxt + 1), queue := r.queue + [r.buf[0]], buf := r.buf[1..]))
    else r
  }

  datatype Received = Received(ep: Endpoint, ret: int, data: seq<byte>)

  /** `ikcp_recv`; a negative length peeks. */
  function Recv(a: Arith, e: Endpoint, len: int): Received {
    var q := e.rcv.queue;
    if |q| == 0 then Received(e, -1, [])
    else if PeekSize(q) < 0 then Received(e, -2, [])
    else if PeekSize(q) > (if len < 0 then -len else len) then Received(e, -3, [])
    else
      var n := MergeCount(q);
      var data := DataOf(q[..n]);
      var r := MoveReady(a, e.cfg.rcvWnd, e.rcv.(queue := if len < 0 then q else q[n..]));
      var recover := |q| >= e.cfg.rcvWnd && |r.queue| < e.cfg.rcvWnd;
      Received(e.(rcv := r, probe := e.probe.(askTell := e.probe.askTell || recover)), |data|, data)
  }

  /** Insertion into `rcv_buf`, scanning from its tail; duplicates are dropped. */
  function Insert(a: Arith, buf: seq<Packet>, p: Packet): seq<Packet> {
    if |buf| == 0 then [p]
    else
      var last := buf[|buf| - 1];
      if last.sn == p.sn then buf
      else if Diff(a, p.sn, last.sn) > 0 then buf + [p]
      else Insert(a, buf[..|buf| - 1], p) + [last]
  }

  /** `ikcp_parse_data`. */
  function ParseData(a: Arith, rcvWnd: int, r: Receiver, p: Packet): Receiver {
    if Diff(a, p.sn, Norm(a, r.nxt + rcvWnd)) >= 0 || Diff(a, p.sn, r.nxt) < 0 then r
    else MoveReady(a, rcvWnd, r.(buf := Insert(a, r.buf, p)))
  }

  /** The receiver's reaction to a data segment: acknowledge, then keep it if new. */
  function OnPush(a: Arith, rcvWnd: int, r: Receiver, p: Packet): Receiver {
    if Diff(a, p.sn, Norm(a, r.nxt + rcvWnd)) < 0 then
      var r1 := r.(acks := r.acks + [Ack(p.sn, p.ts)]);
      if Diff(a, p.sn, r.nxt) >= 0 then ParseData(a, rcvWnd, r1, p) else r1
    else r
  }

  // ---------------------------------------------------------------- acknowledgements

  /** `ikcp_parse_una`: drops the leading segments below `una`. */
  function DropBelow(a: Arith, buf: seq<Sent>, una: int): seq<Sent> {
    if |buf| > 0 && Diff(a, una, buf[0].pkt.sn) > 0 then DropBelow(a, buf[1..], una) else buf
  }

  /** `ikcp_shrink_buf`. */
  function Shrink(s: Sender): Sender {
    s.(una := if |s.buf| > 0 then s.buf[0].pkt.sn else s.nxt)
  }

  predicate InFlight(a: Arith, s: Sender, sn: int) {
    !(Diff(a, sn, s.una) < 0 || Diff(a, sn, s.nxt) >= 0)
  }

  function RemoveSn(a: Arith, buf: seq<Sent>, sn: int): seq<Sent> {
    if |buf| == 0 then []
    else if sn == buf[0].pkt.sn then buf[1..]
    else if Diff(a, sn, buf[0].pkt.sn) < 0 then buf
    else [buf[0]] + RemoveSn(a, buf[1..], sn)
  }

  /** `ikcp_parse_ack`. */
  function ParseAck(a: Arith, s: Sender, sn: int): Sender {
    if InFlight(a, s, sn) then s.(buf := RemoveSn(a, s.buf, sn)) else s
  }

  /** Counts one skip on every segment before `sn`. */
  function CountSkips(a: Arith, buf: seq<Sent>, sn: int): seq<Sent> {
    if |buf| == 0 || Diff(a, sn, buf[0].pkt.sn) < 0 then buf
    else
      var s := buf[0];
      [if sn != s.pkt.sn then s.(fastack := U32(s.fastack + 1)) else s] + CountSkips(a, buf[1..], sn)
  }

  /** `ikcp_parse_fastack`. */
  function ParseFastack(a: Arith, s: Sender, sn: int): Sender {
    if InFlight(a, s, sn) then s.(buf := CountSkips(a, s.buf, sn)) else s
  }

  /** Division as C does it, toward zero. */
  function Quot(x: int, d: int): int
    requires d > 0
  {
    if x >= 0 then x / d else -(-x / d)
  }

  /** `ikcp_update_ack`.  The larger of the interval and four deviations is taken on
      unsigned words. */
  function UpdateAck(cfg: Config, r: Rtt, rtt: int): Rtt {
    var srtt := if r.srtt == 0 then rtt else Max(Quot(7 * r.srtt + rtt, 8), 1);
    var delta := if rtt < r.srtt then r.srtt - rtt else rtt - r.srtt;
    var rttval := if r.srtt == 0 then Quot(rtt, 2) else Quot(3 * r.rttval + delta, 4);
    var rto := U32(srtt + Max(cfg.interval, U32(4 * rttval)));
    Rtt(srtt, rttval, Min(Max(cfg.minRto, rto), RTO_MAX))
  }

  // ---------------------------------------------------------------- input

  /** Where `ikcp_input` stands between two segments of a datagram. */
  datatype InState = InState(ep: Endpoint, acked: bool, maxAck: int)

  /** Every segment carries the peer's window and its `una`. */
  function Absorb(a: Arith, e: Endpoint, p: Packet): Endpoint {
    e.(cong := e.cong.(rmtWnd := p.wnd), snd := Shrink(e.snd.(buf := DropBelow(a, e.snd.buf, p.una))))
  }

  function OnPacket(a: Arith, st: InState, p: Packet): InState {
    var e := Absorb(a, st.ep, p);
    if p.cmd == CMD_ACK then
      var rtt := TimeDiff(e.clock.current, p.ts);
      InState(e.(rtt := if rtt >= 0 then UpdateAck(e.cfg, e.rtt, rtt) else e.rtt,
                 snd := Shrink(ParseAck(a, e.snd, p.sn))),
              true,
              if st.acked && Diff(a, p.sn, st.maxAck) <= 0 then st.maxAck else p.sn)
    else if p.cmd == CMD_PUSH then
      st.(ep := e.(rcv := OnPush(a, e.cfg.rcvWnd, e.rcv, p)))
    else if p.cmd == CMD_WASK then
      st.(ep := e.(probe := e.probe.(askTell := true)))
    else
      st.(ep := e)
  }

  function OnPackets(a: Arith, st: InState, ps: seq<Packet>): InState
    decreases |ps|
  {
    if |ps| == 0 then st else OnPackets(a, OnPacket(a, st, ps[0]), ps[1..])
  }

  /** One step of congestion avoidance, in bytes. */
  function Creep(mss: int, incr: int): (r: int)
    requires 0 < mss <= incr
    ensures 0 <= r < MODULUS
  {
    U32(incr + U32(mss * mss) / incr + mss / 16)
  }

  /** How many segments cover `incr` bytes. */
  function Segmented(mss: int, incr: int): (r: int)
    requires 0 < mss
    ensures 0 <= r
  {
    U32(incr + mss - 1) / mss
  }

  /** Slow start below `ssthresh`, congestion avoidance above it. */
  function OpenWindow(mss: int, c: Cong): Cong
    requires 0 < mss
  {
    if c.cwnd < c.ssthresh then c.(cwnd := U32(c.cwnd + 1), incr := U32(c.incr + mss))
    else
      var incr1 := Creep(mss, Max(c.incr, mss));
      if U32((c.cwnd + 1) * mss) <= incr1 then c.(cwnd := Segmented(mss, incr1), incr := incr1)
      else c.(incr := incr1)
  }

  /** Congestion window growth at the end of `ikcp_input`. */
  function GrowCwnd(mss: int, c: Cong): Cong
    requires 0 < mss
  {
    if c.cwnd < c.rmtWnd then
      var c1 := OpenWindow(mss, c);
      if c1.cwnd > c1.rmtWnd then c1.(cwnd := c1.rmtWnd, incr := U32(c1.rmtWnd * mss)) else c1
    else c
  }

  /** The tail of `ikcp_input`, reached when every segment was accepted. */
  function Finish(a: Arith, st: InState, prevUna: int): Endpoint
    requires 0 < st.ep.cfg.mss
  {
    var snd := if st.acked then ParseFastack(a, st.ep.snd, st.maxAck) else st.ep.snd;
    var cong := if Diff(a, snd.una, prevUna) > 0 then GrowCwnd(st.ep.cfg.mss, st.ep.cong) else st.ep.cong;
    st.ep.(snd := snd, cong := cong)
  }

  lemma OnPacketsKeepsConfig(a: Arith, st: InState, ps: seq<Packet>)
    ensures OnPackets(a, st, ps).ep.cfg == st.ep.cfg
    decreases |ps|
  {
    if |ps| > 0 {
      OnPacketsKeepsConfig(a, OnPacket(a, st, ps[0]), ps[1..]);
    }
  }

  /** `ikcp_input` on the segments read from a datagram; `ok` tells whether the reader
      reached the end of the datagram without an error. */
  function Input(a: Arith, e: Endpoint, ps: seq<Packet>, ok: bool): Endpoint
    requires 0 < e.cfg.mss
  {
    var st := OnPackets(a, InState(e, false, 0), ps);
    OnPacketsKeepsConfig(a, InState(e, false, 0), ps);
    if ok then Finish(a, st, e.snd.una) else st.ep
  }

  // ---------------------------------------------------------------- flush

  function UnusedWnd(e: Endpoint): int {
    if |e.rcv.queue| < e.cfg.rcvWnd then e.cfg.rcvWnd - |e.rcv.queue| else 0
  }

  /** What one flush reads: fixed for the whole call. */
  datatype Flusher = Flusher(cfg: Config, now: int, rto: int, wnd: int, rcvNxt: int) {
    function Resent(): int { if cfg.fastResend > 0 then cfg.fastResend else 0xffff_ffff }
    function RtoMin(): int { if cfg.nodelay == 0 then rto / 8 else 0 }
  }

  /** The header that `ikcp_flush` reuses for everything but data. */
  function Control(x: Flusher, cmd: int, ack: Ack): Packet {
    Wire(Packet(x.cfg.conv, cmd, 0, x.wnd, ack.ts, ack.sn, x.rcvNxt, []))
  }

  function AckPackets(x: Flusher, acks: seq<Ack>): seq<Packet> {
    if |acks| == 0 then [] else [Control(x, CMD_ACK, acks[0])] + AckPackets(x, acks[1..])
  }

  /** Probe commands carry whatever the last acknowledgement left in the header. */
  function LastAck(acks: seq<Ack>): Ack {
    if |acks| == 0 then Ack(0, 0) else acks[|acks| - 1]
  }

  /** The probe timer. */
  function TickProbe(rmtWnd: int, current: int, p: Probe): Probe {
    if rmtWnd == 0 then
      if p.wait == 0 then p.(wait := PROBE_INIT, ts := U32(current + PROBE_INIT))
      else if TimeDiff(current, p.ts) >= 0 then
        var w := Max(p.wait, PROBE_INIT);
        var wait := Min(w + w / 2, PROBE_LIMIT);
        p.(wait := wait, ts := U32(current + wait), askSend := true)
      else p
    else p.(ts := 0, wait := 0)
  }

  function ProbePackets(x: Flusher, p: Probe, last: Ack): seq<Packet> {
    (if p.askSend then [Control(x, CMD_WASK, last)] else []) +
    (if p.askTell then [Control(x, CMD_WINS, last)] else [])
  }

  /** The window in force: min of `snd_wnd`, the peer's window and, if enabled, `cwnd`. */
  function Window(e: Endpoint): int {
    var w := Min(e.cfg.sndWnd, e.cong.rmtWnd);
    if e.cfg.noCwnd then w else Min(e.cong.cwnd, w)
  }

  /** The loop that moves segments from `snd_queue` to `snd_buf`. */
  function Admit(a: Arith, x: Flusher, s: Sender, cwnd: int): Sender
    decreases |s.queue|
  {
    if Diff(a, s.nxt, Norm(a, s.una + cwnd)) < 0 && |s.queue| > 0 then
      var f := s.queue[0];
      var p := Packet(x.cfg.conv, CMD_PUSH, f.frg, x.wnd, x.now, s.nxt, x.rcvNxt, f.data);
      Admit(a, x, s.(nxt := Norm(a, s.nxt + 1), queue := s.queue[1..],
                     buf := s.buf + [Sent(p, x.now, x.rto, 0, 0)]), cwnd)
    else s
  }

  datatype Visited = Visited(seg: Sent, send: bool, timeout: bool, fast: bool)

  /** The timeout after a retransmission: doubled, or one and a half times in the no-delay modes. */
  function Backoff(x: Flusher, rto: int): int {
    if x.cfg.nodelay == 0 then U32(rto + Max(rto, x.rto))
    else if x.cfg.nodelay < 2 then U32(rto + Quot(Signed(U32(rto)), 2))
    else U32(rto + Quot(x.rto, 2))
  }

  /** The decision taken for one segment of `snd_buf`. */
  function Visit(x: Flusher, s: Sent): Visited {
    var t := s.(pkt := s.pkt.(ts := x.now, wnd := x.wnd, una := x.rcvNxt), xmit := U32(s.xmit + 1));
    if s.xmit == 0 then
      Visited(t.(rto := x.rto, resendts := U32(x.now + x.rto + x.RtoMin())), true, false, false)
    else if TimeDiff(x.now, s.resendts) >= 0 then
      Visited(t.(rto := Backoff(x, s.rto), resendts := U32(x.now + Backoff(x, s.rto))), true, true, false)
    else if s.fastack >= x.Resent() && (Signed(U32(s.xmit)) <= x.cfg.fastLimit || x.cfg.fastLimit <= 0) then
      Visited(t.(fastack := 0, resendts := U32(x.now + s.rto)), true, false, true)
    else Visited(s, false, false, false)
  }

  function VisitAll(x: Flusher, buf: seq<Sent>): (vs: seq<Visited>)
    ensures |vs| == |buf|
    ensures forall i :: 0 <= i < |vs| ==> vs[i] == Visit(x, buf[i])
  {
    seq(|buf|, i requires 0 <= i < |buf| => Visit(x, buf[i]))
  }

  function Segments(vs: seq<Visited>): (buf: seq<Sent>)
    ensures |buf| == |vs|
    ensures forall i :: 0 <= i < |vs| ==> buf[i] == vs[i].seg
  {
    seq(|vs|, i requires 0 <= i < |vs| => vs[i].seg)
  }

  /** The packets of the segments that are sent, in order. */
  function DataPackets(vs: seq<Visited>): seq<Packet> {
    if |vs| == 0 then []
    else (if vs[0].send then [Wire(vs[0].seg.pkt)] else []) + DataPackets(vs[1..])
  }

  function Timeouts(vs: seq<Visited>): nat {
    if |vs| == 0 then 0 else (if vs[0].timeout then 1 else 0) + Timeouts(vs[1..])
  }

  predicate AnyFast(vs: seq<Visited>) { exists i :: 0 <= i < |vs| && vs[i].fast }

  predicate AnyDead(deadLink: int, vs: seq<Visited>) {
    exists i :: 0 <= i < |vs| && vs[i].send && vs[i].seg.xmit >= deadLink
  }

  /** The congestion response at the end of `ikcp_flush`. */
  function AdjustCwnd(mss: int, c: Cong, resent: int, inflight: int, cwnd: int, change: bool, lost: bool): Cong {
    var c1 := if change then
                var thresh := Max(inflight / 2, THRESH_MIN);
                c.(ssthresh := thresh, cwnd := U32(thresh + resent), incr := U32(U32(thresh + resent) * mss))
              else c;
    var c2 := if lost then c1.(ssthresh := Max(cwnd / 2, THRESH_MIN), cwnd := 1, incr := mss) else c1;
    if c2.cwnd < 1 then c2.(cwnd := 1, incr := mss) else c2
  }

  function WireSize(ps: seq<Packet>): (n: nat)
    ensures |ps| > 0 ==> n > 0
  {
    if |ps| == 0 then 0 else WireSize(ps[..|ps| - 1]) + HEADER + |ps[|ps| - 1].data|
  }

  /** How a stream of segments is cut into datagrams; `cur` is the datagram being
      filled.  The test uses OVERHEAD although a header takes HEADER bytes. */
  function Pack(mtu: int, ps: seq<Packet>, cur: Datagram): seq<Datagram>
    decreases |ps|
  {
    if |ps| == 0 then (if |cur| > 0 then [cur] else [])
    else if WireSize(cur) + OVERHEAD + |ps[0].data| > mtu then
      (if |cur| > 0 then [cur] else []) + Pack(mtu, ps[1..], [ps[0]])
    else Pack(mtu, ps[1..], cur + [ps[0]])
  }

  /** The flush loops' parameters in endpoint `e`. */
  function FlusherOf(e: Endpoint): Flusher {
    Flusher(e.cfg, e.clock.current, e.rtt.rto, UnusedWnd(e), e.rcv.nxt)
  }

  /** The segments one `ikcp_flush` puts on the wire. */
  function FlushPackets(a: Arith, e: Endpoint): seq<Packet> {
    AckPackets(FlusherOf(e), e.rcv.acks) +
    ProbePackets(FlusherOf(e), TickProbe(e.cong.rmtWnd, e.clock.current, e.probe), LastAck(e.rcv.acks)) +
    DataPackets(FlushVisits(a, e))
  }

  function FlushVisits(a: Arith, e: Endpoint): seq<Visited> {
    VisitsOf(a, FlusherOf(e), e.snd, Window(e))
  }

  function VisitsOf(a: Arith, x: Flusher, s: Sender, cwnd: int): seq<Visited> {
    VisitAll(x, Admit(a, x, s, cwnd).buf)
  }

  /** What the data part of a flush changes. */
  datatype Sending = Sending(snd: Sender, cong: Cong, xmit: int, dead: bool)

  function SendSegments(a: Arith, x: Flusher, g: Sending, cwnd: int): Sending {
    var s := Admit(a, x, g.snd, cwnd);
    var vs := VisitsOf(a, x, g.snd, cwnd);
    Sending(s.(buf := Segments(vs)),
            AdjustCwnd(x.cfg.mss, g.cong, x.Resent(), Norm(a, s.nxt - s.una), cwnd, AnyFast(vs), Timeouts(vs) > 0),
            U32(g.xmit + Timeouts(vs)),
            g.dead || AnyDead(x.cfg.deadLink, vs))
  }

  /** After acknowledgements and probes have been written. */
  function ControlDone(e: Endpoint): Endpoint {
    e.(rcv := e.rcv.(acks := []),
       probe := TickProbe(e.cong.rmtWnd, e.clock.current, e.probe).(askSend := false, askTell := false))
  }

  function Flushed(a: Arith, e: Endpoint): Endpoint {
    var g := SendSegments(a, FlusherOf(e), Sending(e.snd, e.cong, e.xmit, e.dead), Window(e));
    ControlDone(e).(snd := g.snd, cong := g.cong, xmit := g.xmit, dead := g.dead)
  }

  /** `ikcp_flush`: the new state and the datagrams handed to the output callback. */
  function Flush(a: Arith, e: Endpoint): (Endpoint, seq<Datagram>) {
    if !e.clock.updated then (e, [])
    else (Flushed(a, e), Pack(e.cfg.mtu, FlushPackets(a, e), []))
  }

  // ---------------------------------------------------------------- timers

  /** The clock part of `ikcp_update`, and whether a flush is due. */
  function Tick(interval: int, c: Clock, current: int): (Clock, bool) {
    var ts0 := if c.updated then c.tsFlush else current;
    var slap0 := TimeDiff(current, ts0);
    var stale := slap0 >= 10000 || slap0 < -10000;
    var ts1 := if stale then current else ts0;
    if stale || slap0 >= 0 then
      var ts2 := U32(ts1 + interval);
      (Clock(current, if TimeDiff(current, ts2) >= 0 then U32(current + interval) else ts2, true), true)
    else (Clock(current, ts1, true), false)
  }

  /** `ikcp_update`. */
  function Update(a: Arith, e: Endpoint, current: int): (Endpoint, seq<Datagram>) {
    var (clock, due) := Tick(e.cfg.interval, e.clock, current);
    var e1 := e.(clock := clock);
    if due then Flush(a, e1) else (e1, [])
  }

  /** `ikcp_check`. */
  function Check(e: Endpoint, current: int): int {
    if !e.clock.updated then current
    else if TimeDiff(current, e.clock.tsFlush) >= 10000 || TimeDiff(current, e.clock.tsFlush) < -10000 then current
    else if TimeDiff(current, e.clock.tsFlush) >= 0 then current
    else if AnyDue(e.snd.buf, current) then current
    else U32(current + Min(Min(Soonest(e.snd.buf, current), TimeDiff(e.clock.tsFlush, current)), e.cfg.interval))
  }

  predicate AnyDue(buf: seq<Sent>, current: int) {
    exists i :: 0 <= i < |buf| && TimeDiff(buf[i].resendts, current) <= 0
  }

  /** Time to the earliest retransmission. */
  function Soonest(buf: seq<Sent>, current: int): int {
    if |buf| == 0 then 0x7fff_ffff
    else Min(Soonest(buf[..|buf| - 1], current), TimeDiff(buf[|buf| - 1].resendts, current))
  }

  /** `ikcp_create`. */
  function Create(conv: int): Endpoint {
    Endpoint(Config(conv, MTU_DEF, MTU_DEF - OVERHEAD, WND_SND, WND_RCV, RTO_MIN, INTERVAL, 0, 0,
                    FASTACK_LIMIT, false, DEADLINK),
             Sender(0, 0, [], []), Receiver(0, [], [], []), Rtt(0, 0, RTO_DEF),
             Cong(0, 0, THRESH_INIT, WND_RCV), Probe(false, false, 0, 0), Clock(0, INTERVAL, false), 0, false)
  }
}
