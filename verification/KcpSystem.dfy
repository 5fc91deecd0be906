/** Two endpoints and a network that loses, duplicates and reorders datagrams. */
module KcpSystem {
  import opened Circular
  import opened KcpState
  import S = KcpSpec
  import opened KcpInvariants
  import opened KcpMessages

  /** One endpoint, every datagram it ever emitted, the messages it accepted from its
      user and the messages it returned to its user. */
  datatype Node = Node(ep: Endpoint, out: seq<Datagram>, sent: seq<Message>, got: seq<Message>)

  datatype System = System(left: Node, right: Node)

  /** `Deliver(i)` hands over the i-th datagram the peer ever emitted; a datagram may be
      delivered never, once or many times, in any order. */
  datatype Action = Send(msg: Message) | Recv(len: int) | Deliver(i: nat) | Update(now: int) | Flush

  datatype Event = Event(atLeft: bool, act: Action)

  function NodeStep(a: Arith, me: Node, network: seq<Datagram>, act: Action): Node
    requires 0 < me.ep.cfg.mss
  {
    match act
    case Send(msg) =>
      var (snd, ret) := S.Send(me.ep.cfg.mss, me.ep.snd, msg, |msg|);
      me.(ep := me.ep.(snd := snd), sent := if ret >= 0 then me.sent + [msg] else me.sent)
    case Recv(len) =>
      var r := S.Recv(a, me.ep, len);
      me.(ep := r.ep, got := if r.ret >= 0 && len >= 0 then me.got + [r.data] else me.got)
    case Deliver(i) =>
      if i < |network| then me.(ep := S.Input(a, me.ep, network[i], true)) else me
    case Update(now) =>
      var (ep, out) := S.Update(a, me.ep, now);
      me.(ep := ep, out := me.out + out)
    case Flush =>
      var (ep, out) := S.Flush(a, me.ep);
      me.(ep := ep, out := me.out + out)
  }

  predicate Runnable(sys: System) {
    0 < sys.left.ep.cfg.mss && 0 < sys.right.ep.cfg.mss
  }

  function Step(a: Arith, sys: System, ev: Event): System
    requires Runnable(sys)
  {
    if ev.atLeft then sys.(left := NodeStep(a, sys.left, sys.right.out, ev.act))
    else sys.(right := NodeStep(a, sys.right, sys.left.out, ev.act))
  }

  /** Stepping never reconfigures an endpoint. */
  lemma StepKeepsConfig(a: Arith, me: Node, network: seq<Datagram>, act: Action)
    requires 0 < me.ep.cfg.mss
    ensures NodeStep(a, me, network, act).ep.cfg == me.ep.cfg
  {
    match act {
      case Deliver(i) =>
        if i < |network| { S.OnPacketsKeepsConfig(a, S.InState(me.ep, false, 0), network[i]); }
      case _ =>
    }
  }

  function Run(a: Arith, sys: System, events: seq<Event>): (end: System)
    requires Runnable(sys)
    ensures Runnable(end)
    decreases |events|
  {
    if |events| == 0 then sys
    else
      StepKeepsConfig(a, sys.left, sys.right.out, events[0].act);
      StepKeepsConfig(a, sys.right, sys.left.out, events[0].act);
      Run(a, Step(a, sys, events[0]), events[1..])
  }

  /** Two endpoints of one conversation, configured in any way before first use. */
  ghost predicate Start(sys: System) {
    && FreshNode(sys.left) && FreshNode(sys.right)
    && sys.left.ep.cfg.conv == sys.right.ep.cfg.conv
  }

  ghost predicate FreshNode(n: Node) {
    && ConfigOk(n.ep.cfg)
    && n == Node(S.Create(n.ep.cfg.conv).(cfg := n.ep.cfg), [], [], [])
  }

  // ---------------------------------------------------------------- invariant of one direction

  /** `snd_queue` is the part of the log without numbers yet, `snd_buf` carries the log. */
  ghost predicate SendSide(log: seq<Frag>, s: Sender) {
    && 0 <= s.una <= s.nxt <= |log|
    && s.queue == log[s.nxt..]
    && (forall x :: x in s.buf ==> Carries(log, x.pkt) && x.pkt.cmd == CMD_PUSH)
  }

  /** Data packets on the wire carry numbered fragments of the log. */
  ghost predicate DataWell(log: seq<Frag>, nxt: int, ps: seq<Packet>) {
    forall p :: p in ps && p.cmd == CMD_PUSH ==> Carries(log, p) && p.sn < nxt
  }

  ghost predicate RecvSide(log: seq<Frag>, nxt: int, r: Receiver) {
    && 0 <= r.nxt <= nxt
    && (forall p :: p in r.queue || p in r.buf ==> Carries(log, p) && p.sn < nxt)
  }

  /** The receiver has taken segment `n` over. */
  ghost predicate Has(r: Receiver, n: int) {
    0 <= n < r.nxt || exists p :: p in r.buf && p.sn == n
  }

  /** Acknowledgements name only what the receiver has. */
  ghost predicate AcksWell(r: Receiver, ps: seq<Packet>) {
    forall p :: p in ps ==> 0 <= p.una <= r.nxt && (p.cmd == CMD_ACK ==> Has(r, p.sn))
  }

  ghost predicate AckListWell(r: Receiver) {
    forall k :: k in r.acks ==> Has(r, k.sn)
  }

  /** No numbered segment is forgotten by both sides. */
  ghost predicate NoLoss(s: Sender, r: Receiver) {
    forall n :: 0 <= n < s.nxt ==> Has(r, n) || InBuf(s.buf, n)
  }

  ghost predicate InBuf(buf: seq<Sent>, n: int) {
    exists x :: x in buf && x.pkt.sn == n
  }

  /** The messages returned so far are the first ones accepted, and account for all
      segments consumed. */
  ghost predicate DeliveredOk(mss: int, sent: seq<Message>, got: seq<Message>, r: Receiver)
    requires 0 < mss
  {
    && got <= sent
    && |Log(mss, got)| == r.nxt - |r.queue|
  }

  /** Every accepted message has fewer fragments than the smallest receive window. */
  ghost predicate MessagesFit(mss: int, sent: seq<Message>)
    requires 0 < mss
  {
    forall m :: m in sent ==> |S.Fragment(mss, m)| < WND_RCV
  }

  /** The invariant of the direction from `s` to `r`. */
  ghost predicate Direction(s: Node, r: Node) {
    && 0 < s.ep.cfg.mss
    && var mss := s.ep.cfg.mss;
       var log := Log(mss, s.sent);
    && SendSide(log, s.ep.snd)
    && (forall d :: d in s.out ==> DataWell(log, s.ep.snd.nxt, d))
    && RecvSide(log, s.ep.snd.nxt, r.ep.rcv)
    && AckListWell(r.ep.rcv)
    && (forall d :: d in r.out ==> AcksWell(r.ep.rcv, d))
    && NoLoss(s.ep.snd, r.ep.rcv)
    && DeliveredOk(mss, s.sent, r.got, r.ep.rcv)
    && MessagesFit(mss, s.sent)
  }

  /** The invariant between two nodes. */
  ghost predicate Pair(me: Node, peer: Node) {
    && EndpointOk(Unbounded, me.ep) && EndpointOk(Unbounded, peer.ep)
    && Direction(me, peer) && Direction(peer, me)
    && WindowsWell(me.out) && WindowsWell(peer.out)
  }

  ghost predicate WindowsWell(out: seq<Datagram>) {
    forall d, p :: d in out && p in d ==> 0 <= p.wnd
  }

  /** The invariant of the whole system. */
  ghost predicate SystemOk(sys: System) {
    Pair(sys.left, sys.right)
  }
}
