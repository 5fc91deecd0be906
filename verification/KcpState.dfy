/** The data of one KCP endpoint (`IKCPSEG` and `IKCPCB`), as values.  The four
    intrusive lists are sequences; the control block is split into the parts that
    the operations touch independently of each other. */
module KcpState {
  import Bytes

  type byte = Bytes.byte

  const RTO_MIN := 100
  const RTO_DEF := 200
  const RTO_MAX := 60000
  const CMD_PUSH := 81
  const CMD_ACK := 82
  const CMD_WASK := 83
  const CMD_WINS := 84
  const WND_SND := 4096
  const WND_RCV := 8192
  const MTU_DEF := 1400
  const INTERVAL := 100
  const OVERHEAD := 24
  const HEADER := 26
  const DEADLINK := 20
  const THRESH_INIT := 2
  const THRESH_MIN := 2
  const PROBE_INIT := 7000
  const PROBE_LIMIT := 120000
  const FASTACK_LIMIT := 5

  /** The part of a segment that travels in a datagram. */
  datatype Packet = Packet(conv: int, cmd: int, frg: int, wnd: int, ts: int,
                           sn: int, una: int, data: seq<byte>)

  /** A segment of `snd_queue`: only its fragment number and content are set. */
  datatype Frag = Frag(frg: int, data: seq<byte>)

  /** A segment of `snd_buf`, with its retransmission bookkeeping. */
  datatype Sent = Sent(pkt: Packet, resendts: int, rto: int, fastack: int, xmit: int)

  /** An entry of `acklist`. */
  datatype Ack = Ack(sn: int, ts: int)

  type Datagram = seq<Packet>
  type Message = seq<byte>

  datatype Config = Config(conv: int, mtu: int, mss: int, sndWnd: int, rcvWnd: int,
                           minRto: int, interval: int, nodelay: int, fastResend: int,
                           fastLimit: int, noCwnd: bool, deadLink: int)

  datatype Sender = Sender(una: int, nxt: int, queue: seq<Frag>, buf: seq<Sent>)
  datatype Receiver = Receiver(nxt: int, queue: seq<Packet>, buf: seq<Packet>, acks: seq<Ack>)
  datatype Rtt = Rtt(srtt: int, rttval: int, rto: int)
  datatype Cong = Cong(cwnd: int, incr: int, ssthresh: int, rmtWnd: int)
  datatype Probe = Probe(askSend: bool, askTell: bool, ts: int, wait: int)
  datatype Clock = Clock(current: int, tsFlush: int, updated: bool)

  datatype Endpoint = Endpoint(cfg: Config, snd: Sender, rcv: Receiver, rtt: Rtt,
                               cong: Cong, probe: Probe, clock: Clock, xmit: int, dead: bool)

  /** The header keeps 16 bits of the fragment number and of the window. */
  function Wire(p: Packet): Packet {
    p.(frg := p.frg % 0x1_0000, wnd := p.wnd % 0x1_0000)
  }

  predicate KnownCommand(cmd: int) {
    cmd == CMD_PUSH || cmd == CMD_ACK || cmd == CMD_WASK || cmd == CMD_WINS
  }

  function Min(x: int, y: int): int { if x <= y then x else y }

  function Max(x: int, y: int): int { if x >= y then x else y }
}
