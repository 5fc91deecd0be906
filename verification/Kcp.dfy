/** The KCP control block as the program runs it: 32-bit sequence numbers, lists and
    counters updated in place, datagrams handed out as bytes.  Every method is proved to
    do what the functions of KcpSpec say. */
module Kcp {
  import opened Circular
  import opened KcpState
  import opened KcpCodec
  import M = KcpMessages
  import S = KcpSpec

  class ControlBlock {
    var cfg: Config
    var snd: Sender
    var rcv: Receiver
    var nsndQue: nat
    var nsndBuf: nat
    var nrcvQue: nat
    var nrcvBuf: nat
    var rtt: Rtt
    var cong: Cong
    var probe: Probe
    var clock: Clock
    var xmit: int
    var dead: bool
    /** Everything handed to the output callback, in order. */
    var outbox: seq<seq<byte>>

    /** The counters are the lengths of the lists. */
    predicate Valid()
      reads this
    {
      && 0 < cfg.mss
      && nsndQue == |snd.queue| && nsndBuf == |snd.buf| && nrcvQue == |rcv.queue| && nrcvBuf == |rcv.buf|
      && 0 <= xmit < MODULUS
    }

    function State(): Endpoint
      reads this
    {
      Endpoint(cfg, snd, rcv, rtt, cong, probe, clock, xmit, dead)
    }

    constructor (conv: int)
      ensures Valid() && State() == S.Create(conv) && outbox == []
    {
      cfg := Config(conv, MTU_DEF, MTU_DEF - OVERHEAD, WND_SND, WND_RCV, RTO_MIN, INTERVAL, 0, 0,
                    FASTACK_LIMIT, false, DEADLINK);
      snd, rcv := Sender(0, 0, [], []), Receiver(0, [], [], []);
      nsndQue, nsndBuf, nrcvQue, nrcvBuf := 0, 0, 0, 0;
      rtt, cong := Rtt(0, 0, RTO_DEF), Cong(0, 0, THRESH_INIT, WND_RCV);
      probe, clock := Probe(false, false, 0, 0), Clock(0, INTERVAL, false);
      xmit, dead, outbox := 0, false, [];
    }

    // -------------------------------------------------------------- user interface

    method PeekSize() returns (size: int)
      requires Valid()
      ensures size == S.PeekSize(rcv.queue)
    {
      if |rcv.queue| == 0 { return -1; }
      if rcv.queue[0].frg == 0 { return |rcv.queue[0].data|; }
      if nrcvQue < rcv.queue[0].frg + 1 { return -1; }
      var length, i := 0, 0;
      MergeCountMeaning(rcv.queue);
      while i < |rcv.queue|
        invariant i < S.MergeCount(rcv.queue)
        invariant length == |S.DataOf(rcv.queue[..i])|
        decreases |rcv.queue| - i
      {
        DataOfOneMore(rcv.queue, i);
        length := length + |rcv.queue[i].data|;
        if rcv.queue[i].frg == 0 || i + 1 == |rcv.queue| {
          return length;
        }
        i := i + 1;
      }
      size := length;
    }

    /** A negative `len` peeks; the caller's buffer holds |len| bytes. */
    method Recv(len: int) returns (ret: int, data: seq<byte>)
      requires Valid()
      modifies this
      ensures Valid()
      ensures var r := S.Recv(Wrap32, old(State()), len);
              State() == r.ep && ret == r.ret && data == r.data
      ensures ret >= 0 ==> ret == |data| <= (if len < 0 then -len else len)
      ensures outbox == old(outbox)
    {
      data := [];
      if |rcv.queue| == 0 { return -1, []; }
      var peekSize := PeekSize();
      if peekSize < 0 { return -2, []; }
      if peekSize > (if len < 0 then -len else len) { return -3, []; }
      M.PeekIsMergedLength(rcv.queue);
      data := TakeMessage(len < 0);
      ret := |data|;
    }

    /** The rest of `ikcp_recv`, once a message is known to be complete. */
    method TakeMessage(peek: bool) returns (data: seq<byte>)
      requires Valid() && |rcv.queue| > 0
      modifies this`rcv, this`nrcvQue, this`nrcvBuf, this`probe
      ensures Valid()
      ensures var n := S.MergeCount(old(rcv.queue));
              && data == S.DataOf(old(rcv.queue)[..n])
              && rcv == S.MoveReady(Wrap32, cfg.rcvWnd,
                  old(rcv).(queue := if peek then old(rcv.queue) else old(rcv.queue)[n..]))
      ensures probe == old(probe).(
                askTell := old(probe).askTell || (|old(rcv.queue)| >= cfg.rcvWnd && |rcv.queue| < cfg.rcvWnd))
    {
      var recover := nrcvQue >= cfg.rcvWnd;
      data := MergeFragments(peek);
      MoveReady();
      if nrcvQue < cfg.rcvWnd && recover {
        probe := probe.(askTell := true);
      }
    }

    /** The merge loop of `ikcp_recv`. */
    method MergeFragments(peek: bool) returns (data: seq<byte>)
      requires Valid() && |rcv.queue| > 0
      modifies this`rcv, this`nrcvQue
      ensures Valid()
      ensures var n := S.MergeCount(old(rcv.queue));
              && data == S.DataOf(old(rcv.queue)[..n])
              && rcv == old(rcv).(queue := if peek then old(rcv.queue) else old(rcv.queue)[n..])
    {
      hide S.MergeCount;
      var q := rcv.queue;
      var i := 0;
      data := [];
      assert S.MergeCount(q) > 0 && S.DataOf(q[..0]) == [];
      while i < |q|
        invariant i < S.MergeCount(q)
        invariant data == S.DataOf(q[..i])
        invariant rcv == old(rcv).(queue := if peek then q else q[i..])
        invariant Valid()
        decreases |q| - i
      {
        DataOfOneMore(q, i);
        MergeEnds(q, i);
        assert q[i..][1..] == q[i + 1..];
        data := data + q[i].data;
        if !peek {
          rcv := rcv.(queue := rcv.queue[1..]);
          nrcvQue := nrcvQue - 1;
        }
        if q[i].frg == 0 || i + 1 == |q| {
          return;
        }
        i := i + 1;
      }
    }

    /** Moves available segments from `rcv.buf` to `rcv.queue`. */
    method MoveReady()
      requires Valid()
      modifies this`rcv, this`nrcvQue, this`nrcvBuf
      ensures Valid()
      ensures rcv == S.MoveReady(Wrap32, cfg.rcvWnd, old(rcv))
    {
      while |rcv.buf| > 0
        invariant nrcvQue == |rcv.queue| && nrcvBuf == |rcv.buf|
        invariant S.MoveReady(Wrap32, cfg.rcvWnd, rcv) == S.MoveReady(Wrap32, cfg.rcvWnd, old(rcv))
        decreases |rcv.buf|
      {
        var seg := rcv.buf[0];
        if seg.sn == rcv.nxt && nrcvQue < cfg.rcvWnd {
          rcv := rcv.(buf := rcv.buf[1..]);
          nrcvBuf := nrcvBuf - 1;
          rcv := rcv.(queue := rcv.queue + [seg]);
          nrcvQue := nrcvQue + 1;
          rcv := rcv.(nxt := U32(rcv.nxt + 1));
        } else {
          break;
        }
      }
    }

    method Send(buffer: seq<byte>, len: int) returns (ret: int)
      requires Valid() && len <= |buffer|
      modifies this
      ensures Valid()
      ensures (snd, ret) == S.Send(cfg.mss, old(snd), buffer, len)
      ensures State() == old(State()).(snd := snd)
      ensures outbox == old(outbox)
    {
      if len < 0 { return -1; }
      var count := if len <= cfg.mss then 1 else (len + cfg.mss - 1) / cfg.mss;
      if count >= WND_RCV { return -2; }
      M.FragmentCountExact(cfg.mss, buffer[..len]);
      ghost var all := S.Fragment(cfg.mss, buffer[..len]);
      var i, rest := 0, buffer[..len];
      while i < count
        invariant 0 <= i <= count && 0 < cfg.mss
        invariant snd == old(snd).(queue := old(snd.queue) + all[..i])
        invariant i < count ==> S.Fragment(cfg.mss, rest) == all[i..]
        invariant |all| == count && Valid() && outbox == old(outbox)
        invariant State() == old(State()).(snd := snd)
      {
        var size := if |rest| > cfg.mss then cfg.mss else |rest|;
        assert all[i] == S.Fragment(cfg.mss, rest)[0] == Frag(count - i - 1, rest[..size]);
        snd := snd.(queue := snd.queue + [Frag(count - i - 1, rest[..size])]);
        nsndQue := nsndQue + 1;
        assert i + 1 < count ==> S.Fragment(cfg.mss, rest)[1..] == all[i + 1..];
        rest := rest[size..];
        i := i + 1;
      }
      assert all[..count] == all;
      ret := len;
    }

    // -------------------------------------------------------------- acknowledgements

    method ShrinkBuf()
      requires Valid()
      modifies this`snd
      ensures Valid() && snd == S.Shrink(old(snd))
    {
      if |snd.buf| > 0 {
        snd := snd.(una := snd.buf[0].pkt.sn);
      } else {
        snd := snd.(una := snd.nxt);
      }
    }

    method ParseAck(sn: int)
      requires Valid()
      modifies this`snd, this`nsndBuf
      ensures Valid() && snd == S.ParseAck(Wrap32, old(snd), sn)
    {
      hide S.RemoveSn;
      if TimeDiff(sn, snd.una) < 0 || TimeDiff(sn, snd.nxt) >= 0 { return; }
      RemoveSnNone(sn);
      var i := 0;
      while i < |snd.buf|
        invariant 0 <= i <= |snd.buf|
        invariant Valid() && snd == old(snd)
        invariant S.RemoveSn(Wrap32, snd.buf, sn) == snd.buf[..i] + S.RemoveSn(Wrap32, snd.buf[i..], sn)
      {
        var seg := snd.buf[i];
        RemoveSnUnrolled(snd.buf, i, sn);
        if sn == seg.pkt.sn {
          snd := snd.(buf := snd.buf[..i] + snd.buf[i + 1..]);
          nsndBuf := nsndBuf - 1;
          return;
        }
        if TimeDiff(sn, seg.pkt.sn) < 0 {
          return;
        }
        i := i + 1;
      }
      assert snd.buf[..i] == snd.buf && snd.buf[i..] == [];
    }

    method ParseUna(una: int)
      requires Valid()
      modifies this`snd, this`nsndBuf
      ensures Valid() && snd == old(snd).(buf := S.DropBelow(Wrap32, old(snd.buf), una))
    {
      while |snd.buf| > 0
        invariant Valid() && snd == old(snd).(buf := snd.buf)
        invariant S.DropBelow(Wrap32, snd.buf, una) == S.DropBelow(Wrap32, old(snd.buf), una)
        decreases |snd.buf|
      {
        if TimeDiff(una, snd.buf[0].pkt.sn) > 0 {
          snd := snd.(buf := snd.buf[1..]);
          nsndBuf := nsndBuf - 1;
        } else {
          break;
        }
      }
    }

    method ParseFastack(sn: int)
      requires Valid()
      modifies this`snd
      ensures Valid() && snd == S.ParseFastack(Wrap32, old(snd), sn)
    {
      if TimeDiff(sn, snd.una) < 0 || TimeDiff(sn, snd.nxt) >= 0 { return; }
      ghost var buf := snd.buf;
      var i := 0;
      while i < |snd.buf|
        invariant 0 <= i <= |snd.buf| == |buf| && snd == old(snd).(buf := snd.buf)
        invariant forall k :: 0 <= k < |buf| ==> snd.buf[k] == if k < i then Skipped(buf[k], sn) else buf[k]
        invariant forall k :: 0 <= k < i ==> TimeDiff(sn, buf[k].pkt.sn) >= 0
      {
        var seg := snd.buf[i];
        if TimeDiff(sn, seg.pkt.sn) < 0 {
          break;
        } else if sn != seg.pkt.sn {
          snd := snd.(buf := snd.buf[i := seg.(fastack := U32(seg.fastack + 1))]);
        }
        i := i + 1;
      }
      CountSkipsUpTo(buf, sn, i);
      assert snd.buf == S.CountSkips(Wrap32, buf, sn);
    }

    method UpdateAck(sample: int)
      requires Valid()
      modifies this`rtt
      ensures Valid() && rtt == S.UpdateAck(cfg, old(rtt), sample)
    {
      if rtt.srtt == 0 {
        rtt := rtt.(srtt := sample, rttval := S.Quot(sample, 2));
      } else {
        var delta := sample - rtt.srtt;
        if delta < 0 { delta := -delta; }
        rtt := rtt.(rttval := S.Quot(3 * rtt.rttval + delta, 4));
        rtt := rtt.(srtt := S.Quot(7 * rtt.srtt + sample, 8));
        if rtt.srtt < 1 { rtt := rtt.(srtt := 1); }
      }
      var rto := U32(rtt.srtt + Max(cfg.interval, U32(4 * rtt.rttval)));
      rtt := rtt.(rto := Min(Max(cfg.minRto, rto), RTO_MAX));
    }

    // -------------------------------------------------------------- incoming data

    /** Puts a segment into `rcv.buf`, looking for its place from the tail. */
    method InsertSegment(newSeg: Packet)
      requires Valid()
      modifies this`rcv, this`nrcvBuf
      ensures Valid() && rcv == old(rcv).(buf := S.Insert(Wrap32, old(rcv.buf), newSeg))
    {
      hide S.Insert;
      hide TimeDiff;
      InsertFirst(newSeg);
      var p := |rcv.buf|;
      assert rcv.buf[..p] == rcv.buf && rcv.buf[p..] == [];
      while p > 0
        invariant 0 <= p <= |rcv.buf|
        invariant rcv == old(rcv) && nrcvBuf == old(nrcvBuf)
        invariant S.Insert(Wrap32, rcv.buf, newSeg) == S.Insert(Wrap32, rcv.buf[..p], newSeg) + rcv.buf[p..]
      {
        InsertUnrolled(rcv.buf, p, newSeg);
        if rcv.buf[p - 1].sn == newSeg.sn {
          return;
        }
        if TimeDiff(newSeg.sn, rcv.buf[p - 1].sn) > 0 {
          break;
        }
        p := p - 1;
      }
      rcv := rcv.(buf := rcv.buf[..p] + [newSeg] + rcv.buf[p..]);
      nrcvBuf := nrcvBuf + 1;
    }

    method ParseData(newSeg: Packet)
      requires Valid()
      modifies this`rcv, this`nrcvQue, this`nrcvBuf
      ensures Valid() && rcv == S.ParseData(Wrap32, cfg.rcvWnd, old(rcv), newSeg)
    {
      var sn := newSeg.sn;
      if TimeDiff(sn, U32(rcv.nxt + cfg.rcvWnd)) >= 0 || TimeDiff(sn, rcv.nxt) < 0 { return; }
      InsertSegment(newSeg);
      MoveReady();
    }

    method OnPush(p: Packet)
      requires Valid()
      modifies this`rcv, this`nrcvQue, this`nrcvBuf
      ensures Valid() && rcv == S.OnPush(Wrap32, cfg.rcvWnd, old(rcv), p)
    {
      if TimeDiff(p.sn, U32(rcv.nxt + cfg.rcvWnd)) < 0 {
        rcv := rcv.(acks := rcv.acks + [Ack(p.sn, p.ts)]);
        if TimeDiff(p.sn, rcv.nxt) >= 0 {
          ParseData(p);
        }
      }
    }

    method OnAck(p: Packet)
      requires Valid()
      modifies this`snd, this`nsndBuf, this`rtt
      ensures Valid() && snd == S.Shrink(S.ParseAck(Wrap32, old(snd), p.sn))
      ensures rtt == if TimeDiff(clock.current, p.ts) >= 0
                     then S.UpdateAck(cfg, old(rtt), TimeDiff(clock.current, p.ts)) else old(rtt)
    {
      if TimeDiff(clock.current, p.ts) >= 0 {
        UpdateAck(TimeDiff(clock.current, p.ts));
      }
      ParseAck(p.sn);
      ShrinkBuf();
    }

    method Absorb(p: Packet)
      requires Valid()
      modifies this`cong, this`snd, this`nsndBuf
      ensures Valid() && State() == S.Absorb(Wrap32, old(State()), p)
    {
      cong := cong.(rmtWnd := p.wnd);
      ParseUna(p.una);
      ShrinkBuf();
    }

    /** The reaction to one segment inside the loop of `ikcp_input`. */
    method OnPacket(p: Packet, acked0: bool, maxAck0: int) returns (acked: bool, maxAck: int)
      requires Valid()
      modifies this`cong, this`snd, this`nsndBuf, this`rtt, this`probe, this`rcv, this`nrcvQue, this`nrcvBuf
      ensures Valid()
      ensures S.InState(State(), acked, maxAck) == S.OnPacket(Wrap32, S.InState(old(State()), acked0, maxAck0), p)
    {
      acked, maxAck := acked0, maxAck0;
      Absorb(p);
      if p.cmd == CMD_ACK {
        OnAck(p);
        if !acked {
          acked, maxAck := true, p.sn;
        } else if TimeDiff(p.sn, maxAck) > 0 {
          maxAck := p.sn;
        }
      } else if p.cmd == CMD_PUSH {
        OnPush(p);
      } else if p.cmd == CMD_WASK {
        probe := probe.(askTell := true);
      }
    }

    method GrowCwnd()
      requires Valid()
      modifies this`cong
      ensures Valid() && cong == S.GrowCwnd(cfg.mss, old(cong))
    {
      var mss := cfg.mss;
      if cong.cwnd < cong.rmtWnd {
        if cong.cwnd < cong.ssthresh {
          cong := cong.(cwnd := U32(cong.cwnd + 1));
          cong := cong.(incr := U32(cong.incr + mss));
        } else {
          if cong.incr < mss { cong := cong.(incr := mss); }
          cong := cong.(incr := U32(cong.incr + U32(mss * mss) / cong.incr + mss / 16));
          if U32((cong.cwnd + 1) * mss) <= cong.incr {
            cong := cong.(cwnd := U32(cong.incr + mss - 1) / mss);
          }
        }
        if cong.cwnd > cong.rmtWnd {
          cong := cong.(cwnd := cong.rmtWnd, incr := U32(cong.rmtWnd * mss));
        }
      }
    }

    /** The header loop of `ikcp_input`; `ret` is 0 when it reached the end. */
    method InputLoop(mem: seq<byte>, size0: int) returns (ret: int, acked: bool, maxAck: int)
      requires Valid() && Room(mem, 0, size0)
      modifies this`cong, this`snd, this`nsndBuf, this`rtt, this`probe, this`rcv, this`nrcvQue, this`nrcvBuf
      ensures Valid()
      ensures var r := Parse(cfg.conv, mem, 0, size0);
              ret == r.ret && S.InState(State(), acked, maxAck)
                           == S.OnPackets(Wrap32, S.InState(old(State()), false, 0), r.ps)
    {
      var conv := cfg.conv;
      var pos: nat, size := 0, size0;
      ret, acked, maxAck := 0, false, 0;
      ghost var st0 := S.InState(State(), false, 0);
      ghost var all := Parse(conv, mem, 0, size0);
      ghost var todo := all;
      while size >= OVERHEAD
        invariant Valid()
        invariant Remaining(conv, mem, pos, size, todo) && todo.ret == all.ret && ret == 0
        invariant S.OnPackets(Wrap32, S.InState(State(), acked, maxAck), todo.ps) == S.OnPackets(Wrap32, st0, all.ps)
        decreases size
      {
        ret := CheckHeader(conv, mem, pos, size);
        ParseStops(conv, mem, pos, size, todo);
        if ret != 0 { return; }
        var len := Word32(mem, pos + 22);
        var pos1: nat, size1 := pos + HEADER + len, size - OVERHEAD - len;
        var p := Decode(mem, pos, len);
        todo := ParseUnrolled(conv, mem, pos, size, pos1, size1, todo);
        OnPacketsFirst(S.InState(State(), acked, maxAck), p, [p] + todo.ps, todo.ps);
        acked, maxAck := OnPacket(p, acked, maxAck);
        pos, size := pos1, size1;
      }
      ParseStops(conv, mem, pos, size, todo);
    }

    /** `mem` is the receive buffer, `size` the length of the datagram at its start. */
    method Input(mem: seq<byte>, size: int) returns (ret: int)
      requires Valid() && Room(mem, 0, size)
      modifies this
      ensures Valid() && outbox == old(outbox)
      ensures var r := ReadDatagram(old(cfg.conv), mem, size);
              ret == r.ret && State() == S.Input(Wrap32, old(State()), r.ps, r.ret == 0)
    {
      var prevUna := snd.una;
      if size < OVERHEAD { return -1; }
      var acked, maxAck;
      ret, acked, maxAck := InputLoop(mem, size);
      if ret != 0 { return; }
      if acked {
        ParseFastack(maxAck);
      }
      if TimeDiff(snd.una, prevUna) > 0 {
        GrowCwnd();
      }
    }

    // -------------------------------------------------------------- flush

    /** Since the outbox held `base`, the datagrams of `c` were completed; `buffer` holds
        the one being filled. */
    ghost predicate Emitted(base: seq<seq<byte>>, c: Cut, buffer: seq<byte>)
      reads this`outbox
    {
      buffer == EncodeAll(c.cur) && outbox == base + EncodeEach(c.done)
    }

    /** `ikcp_output`: nothing happens for an empty buffer. */
    method Output(buffer: seq<byte>)
      modifies this`outbox
      ensures outbox == if |buffer| == 0 then old(outbox) else old(outbox) + [buffer]
    {
      if |buffer| == 0 { return; }
      outbox := outbox + [buffer];
    }

    /** Appends one segment to the output buffer, sending the buffer first if the segment
        would not fit. */
    method EncodeSeg(p: Packet, buffer0: seq<byte>, ghost base: seq<seq<byte>>, ghost c: Cut)
      returns (buffer: seq<byte>)
      requires Emitted(base, c, buffer0)
      modifies this`outbox
      ensures Emitted(base, AddToCut(cfg.mtu, c, Wire(p)), buffer)
    {
      buffer := buffer0;
      EncodedLength(c.cur);
      if |buffer| + OVERHEAD + |p.data| > cfg.mtu {
        Output(buffer);
        buffer := [];
      }
      buffer := buffer + Encode(Wire(p));
      EncodeAllAppend(c.cur, [Wire(p)]);
      assert EncodeAll([Wire(p)]) == Encode(Wire(p)) + EncodeAll([]);
      assert EncodeEach(c.done + [c.cur]) == EncodeEach(c.done) + [EncodeAll(c.cur)];
    }

    method FlushAcks(x: S.Flusher, ghost base: seq<seq<byte>>, ghost c0: Cut)
      returns (buffer: seq<byte>, last: Ack, ghost c: Cut)
      requires Valid() && outbox == base && c0 == Cut([], [])
      modifies this`outbox, this`rcv
      ensures Valid() && rcv == old(rcv).(acks := [])
      ensures c == AddAllToCut(cfg.mtu, c0, S.AckPackets(x, old(rcv.acks))) && Emitted(base, c, buffer)
      ensures last == S.LastAck(old(rcv.acks))
    {
      hide AddToCut;
      hide EncodeEach;
      c := c0;
      buffer, last := [], Ack(0, 0);
      var i := 0;
      assert EncodeEach([]) == [];
      while i < |rcv.acks|
        invariant 0 <= i <= |rcv.acks| && rcv == old(rcv)
        invariant AddAllToCut(cfg.mtu, c, S.AckPackets(x, rcv.acks[i..])) ==
          AddAllToCut(cfg.mtu, c0, S.AckPackets(x, rcv.acks))
        invariant Emitted(base, c, buffer)
        invariant last == if i == 0 then Ack(0, 0) else rcv.acks[i - 1]
      {
        last := rcv.acks[i];
        var p := Packet(x.cfg.conv, CMD_ACK, 0, x.wnd, last.ts, last.sn, x.rcvNxt, []);
        buffer := EncodeSeg(p, buffer, base, c);
        assert rcv.acks[i..][1..] == rcv.acks[i + 1..];
        c := AddToCut(cfg.mtu, c, Wire(p));
        i := i + 1;
      }
      rcv := rcv.(acks := []);
    }

    method TickProbe()
      requires Valid()
      modifies this`probe
      ensures Valid() && probe == S.TickProbe(cong.rmtWnd, clock.current, old(probe))
    {
      if cong.rmtWnd == 0 {
        if probe.wait == 0 {
          probe := probe.(wait := PROBE_INIT, ts := U32(clock.current + PROBE_INIT));
        } else if TimeDiff(clock.current, probe.ts) >= 0 {
          var wait := probe.wait;
          if wait < PROBE_INIT { wait := PROBE_INIT; }
          wait := wait + wait / 2;
          if wait > PROBE_LIMIT { wait := PROBE_LIMIT; }
          probe := probe.(wait := wait, ts := U32(clock.current + wait), askSend := true);
        }
      } else {
        probe := probe.(ts := 0, wait := 0);
      }
    }

    method FlushProbes(x: S.Flusher, buffer0: seq<byte>, last: Ack, ghost base: seq<seq<byte>>, ghost c0: Cut)
      returns (buffer: seq<byte>, ghost c: Cut)
      requires Valid() && Emitted(base, c0, buffer0)
      modifies this`outbox, this`probe
      ensures Valid() && probe == old(probe).(askSend := false, askTell := false)
      ensures c == AddAllToCut(cfg.mtu, c0, S.ProbePackets(x, old(probe), last)) && Emitted(base, c, buffer)
    {
      buffer, c := buffer0, c0;
      AddAllInTurn(cfg.mtu, c0, if probe.askSend then [S.Control(x, CMD_WASK, last)] else [],
                   if probe.askTell then [S.Control(x, CMD_WINS, last)] else []);
      if probe.askSend {
        AddOneToCut(cfg.mtu, c, S.Control(x, CMD_WASK, last));
        var p := Packet(x.cfg.conv, CMD_WASK, 0, x.wnd, last.ts, last.sn, x.rcvNxt, []);
        buffer := EncodeSeg(p, buffer, base, c);
        c := AddToCut(cfg.mtu, c, Wire(p));
      }
      if probe.askTell {
        AddOneToCut(cfg.mtu, c, S.Control(x, CMD_WINS, last));
        var p := Packet(x.cfg.conv, CMD_WINS, 0, x.wnd, last.ts, last.sn, x.rcvNxt, []);
        buffer := EncodeSeg(p, buffer, base, c);
        c := AddToCut(cfg.mtu, c, Wire(p));
      }
      probe := probe.(askSend := false, askTell := false);
    }

    /** Moves segments from `snd.queue` to `snd.buf` while the window allows. */
    method Admit(x: S.Flusher, cwnd: int)
      requires Valid() && x.cfg == cfg
      modifies this`snd, this`nsndQue, this`nsndBuf
      ensures Valid() && snd == S.Admit(Wrap32, x, old(snd), cwnd)
    {
      while TimeDiff(snd.nxt, U32(snd.una + cwnd)) < 0
        invariant Valid()
        invariant S.Admit(Wrap32, x, snd, cwnd) == S.Admit(Wrap32, x, old(snd), cwnd)
        decreases |snd.queue|
      {
        if |snd.queue| == 0 { break; }
        var f := snd.queue[0];
        snd := snd.(queue := snd.queue[1..]);
        var p := Packet(x.cfg.conv, CMD_PUSH, f.frg, x.wnd, x.now, snd.nxt, x.rcvNxt, f.data);
        snd := snd.(buf := snd.buf + [Sent(p, x.now, x.rto, 0, 0)]);
        nsndQue, nsndBuf := nsndQue - 1, nsndBuf + 1;
        snd := snd.(nxt := U32(snd.nxt + 1));
      }
    }

    /** Decides about segment `s`; returns its new record and what was decided. */
    method VisitSegment(x: S.Flusher, s: Sent) returns (v: S.Visited)
      ensures v == S.Visit(x, s)
    {
      var t := s;
      var needSend, timeout, fast := false, false, false;
      if t.xmit == 0 {
        needSend := true;
        t := t.(xmit := U32(t.xmit + 1), rto := x.rto);
        t := t.(resendts := U32(x.now + t.rto + x.RtoMin()));
      } else if TimeDiff(x.now, t.resendts) >= 0 {
        needSend, timeout := true, true;
        t := t.(xmit := U32(t.xmit + 1));
        if x.cfg.nodelay == 0 {
          t := t.(rto := U32(t.rto + Max(t.rto, x.rto)));
        } else {
          var step := if x.cfg.nodelay < 2 then Signed(U32(t.rto)) else x.rto;
          t := t.(rto := U32(t.rto + S.Quot(step, 2)));
        }
        t := t.(resendts := U32(x.now + t.rto));
      } else if t.fastack >= x.Resent() {
        if Signed(U32(t.xmit)) <= x.cfg.fastLimit || x.cfg.fastLimit <= 0 {
          needSend, fast := true, true;
          t := t.(xmit := U32(t.xmit + 1), fastack := 0);
          t := t.(resendts := U32(x.now + t.rto));
        }
      }
      if needSend {
        t := t.(pkt := t.pkt.(ts := x.now, wnd := x.wnd, una := x.rcvNxt));
      }
      v := S.Visited(t, needSend, timeout, fast);
    }

    /** One turn of the loop over `snd.buf`. */
    method FlushSegment(x: S.Flusher, i: nat, buffer0: seq<byte>, ghost base: seq<seq<byte>>, ghost c0: Cut)
      returns (buffer: seq<byte>, v: S.Visited, ghost c: Cut)
      requires i < |snd.buf| && 0 <= xmit < MODULUS && Emitted(base, c0, buffer0)
      modifies this`outbox, this`snd, this`xmit, this`dead
      ensures v == S.Visit(x, old(snd.buf)[i]) && snd == old(snd).(buf := old(snd.buf)[i := v.seg])
      ensures c == (if v.send then AddToCut(cfg.mtu, c0, Wire(v.seg.pkt)) else c0) && Emitted(base, c, buffer)
      ensures xmit == if v.timeout then U32(old(xmit) + 1) else old(xmit)
      ensures dead == (old(dead) || (v.send && v.seg.xmit >= cfg.deadLink))
    {
      buffer, c := buffer0, c0;
      v := VisitSegment(x, snd.buf[i]);
      snd := snd.(buf := snd.buf[i := v.seg]);
      if v.timeout { xmit := U32(xmit + 1); }
      if v.send {
        buffer := EncodeSeg(v.seg.pkt, buffer, base, c);
        c := AddToCut(cfg.mtu, c, Wire(v.seg.pkt));
        if v.seg.xmit >= cfg.deadLink { dead := true; }
      }
    }

    /** The loop over `snd.buf`. */
    method FlushData(x: S.Flusher, buffer0: seq<byte>, ghost base: seq<seq<byte>>, ghost c0: Cut)
      returns (buffer: seq<byte>, change: bool, lost: bool, ghost c: Cut)
      requires Valid() && Emitted(base, c0, buffer0)
      modifies this`outbox, this`snd, this`xmit, this`dead
      ensures Valid()
      ensures snd == old(snd).(buf := S.Segments(S.VisitAll(x, old(snd.buf))))
      ensures Tally(c, xmit, change, lost, dead)
           == TallyUp(cfg, Tally(c0, old(xmit), false, false, old(dead)), S.VisitAll(x, old(snd.buf)))
      ensures Emitted(base, c, buffer)
    {
      hide TallyUp;
      hide AddToCut;
      hide S.Visit;
      hide Emitted;
      ghost var vs := S.VisitAll(x, snd.buf);
      buffer, change, lost, c := buffer0, false, false, c0;
      var i := 0;
      assert vs[0..] == vs;
      ghost var t0 := Tally(c0, xmit, false, false, dead);
      while i < |snd.buf|
        invariant 0 <= i <= |snd.buf| == |vs| == nsndBuf && 0 <= xmit < MODULUS
        invariant snd == old(snd).(buf := snd.buf) && nsndQue == |snd.queue|
        invariant forall k :: 0 <= k < |vs| ==> snd.buf[k] == if k < i then vs[k].seg else old(snd.buf)[k]
        invariant Emitted(base, c, buffer)
        invariant TallyUp(cfg, Tally(c, xmit, change, lost, dead), vs[i..]) == TallyUp(cfg, t0, vs)
      {
        var v;
        ghost var t := Tally(c, xmit, change, lost, dead);
        buffer, v, c := FlushSegment(x, i, buffer, base, c);
        TallyUnrolled(cfg, t, vs, i);
        change, lost := change || v.fast, lost || v.timeout;
        i := i + 1;
      }
      TallyNone(cfg, Tally(c, xmit, change, lost, dead), vs[i..]);
    }

    /** The congestion response. */
    method AdjustCwnd(resent: int, cwnd: int, change: bool, lost: bool)
      requires Valid()
      modifies this`cong
      ensures Valid() && cong == S.AdjustCwnd(cfg.mss, old(cong), resent, U32(snd.nxt - snd.una), cwnd, change, lost)
    {
      if change {
        var inflight := U32(snd.nxt - snd.una);
        cong := cong.(ssthresh := inflight / 2);
        if cong.ssthresh < THRESH_MIN { cong := cong.(ssthresh := THRESH_MIN); }
        cong := cong.(cwnd := U32(cong.ssthresh + resent));
        cong := cong.(incr := U32(cong.cwnd * cfg.mss));
      }
      if lost {
        cong := cong.(ssthresh := cwnd / 2);
        if cong.ssthresh < THRESH_MIN { cong := cong.(ssthresh := THRESH_MIN); }
        cong := cong.(cwnd := 1, incr := cfg.mss);
      }
      if cong.cwnd < 1 {
        cong := cong.(cwnd := 1, incr := cfg.mss);
      }
    }

    /** Acknowledgements and probes. */
    method FlushControl(x: S.Flusher, ghost base: seq<seq<byte>>) returns (buffer: seq<byte>, ghost c: Cut)
      requires Valid() && outbox == base
      modifies this`outbox, this`rcv, this`probe
      ensures Valid() && rcv == old(rcv).(acks := [])
      ensures var p := S.TickProbe(cong.rmtWnd, clock.current, old(probe));
              && probe == p.(askSend := false, askTell := false)
              && c == AddAllToCut(cfg.mtu, Cut([], []), S.AckPackets(x, old(rcv.acks)) +
                S.ProbePackets(x, p, S.LastAck(old(rcv.acks))))
      ensures Emitted(base, c, buffer)
    {
      var last;
      buffer, last, c := FlushAcks(x, base, Cut([], []));
      TickProbe();
      AddAllInTurn(cfg.mtu, Cut([], []), S.AckPackets(x, old(rcv.acks)), S.ProbePackets(x, probe, last));
      buffer, c := FlushProbes(x, buffer, last, base, c);
    }

    function Sending(): S.Sending reads this { S.Sending(snd, cong, xmit, dead) }

    /** Numbers new segments and emits every segment that is due, the last datagram included. */
    method EmitSegments(x: S.Flusher, cwnd: int, buffer0: seq<byte>, ghost base: seq<seq<byte>>, ghost c0: Cut)
      returns (change: bool, lost: bool, ghost c: Cut)
      requires Valid() && x.cfg == cfg && Emitted(base, c0, buffer0)
      modifies this`snd, this`nsndQue, this`nsndBuf, this`outbox, this`xmit, this`dead
      ensures Valid()
      ensures var s := S.Admit(Wrap32, x, old(snd), cwnd);
              var vs := S.VisitAll(x, s.buf);
              && snd == s.(buf := S.Segments(vs))
              && xmit == U32(old(xmit) + S.Timeouts(vs)) && dead == (old(dead) || S.AnyDead(cfg.deadLink, vs))
              && change == S.AnyFast(vs) && lost == (S.Timeouts(vs) > 0)
              && c == AddAllToCut(cfg.mtu, c0, S.DataPackets(vs))
      ensures outbox == base + EncodeEach(Closed(c))
    {
      hide TallyUp;
      hide EncodeEach;
      hide EncodeAll;
      hide S.VisitAll;
      hide S.Admit;
      hide S.Segments;
      hide S.Timeouts;
      hide S.AnyFast;
      hide S.AnyDead;
      hide S.DataPackets;
      hide AddAllToCut;
      Admit(x, cwnd);
      ghost var s := snd;
      var buffer;
      TallyMeaning(cfg, Tally(c0, xmit, false, false, dead), S.VisitAll(x, s.buf));
      buffer, change, lost, c := FlushData(x, buffer0, base, c0);
      Output(buffer);
      ClosedBytes(c);
    }

    /** Data segments, the last datagram and the congestion response. */
    method FlushSegments(x: S.Flusher, cwnd: int, buffer0: seq<byte>, ghost base: seq<seq<byte>>, ghost c0: Cut)
      returns (ghost c: Cut)
      requires Valid() && x.cfg == cfg && Emitted(base, c0, buffer0)
      modifies this`snd, this`nsndQue, this`nsndBuf, this`outbox, this`xmit, this`dead, this`cong
      ensures Valid()
      ensures Sending() == S.SendSegments(Wrap32, x, old(Sending()), cwnd)
      ensures c == AddAllToCut(cfg.mtu, c0, S.DataPackets(S.VisitsOf(Wrap32, x, old(snd), cwnd)))
      ensures outbox == base + EncodeEach(Closed(c))
    {
      hide S.Admit;
      hide S.VisitAll;
      hide S.Segments;
      hide S.Timeouts;
      hide S.AnyFast;
      hide S.AnyDead;
      hide S.DataPackets;
      hide S.AdjustCwnd;
      hide AddAllToCut;
      hide EncodeEach;
      hide Emitted;
      ghost var g := Sending();
      var change, lost;
      change, lost, c := EmitSegments(x, cwnd, buffer0, base, c0);
      AdjustCwnd(x.Resent(), cwnd, change, lost);
      SegmentsSent(x, g, cwnd, Sending());
    }

    /** Everything `ikcp_flush` does after its guard. */
    method FlushNow()
      requires Valid()
      modifies this
      ensures Valid()
      ensures State() == S.Flushed(Wrap32, old(State()))
      ensures outbox == old(outbox) + EncodeEach(S.Pack(cfg.mtu, S.FlushPackets(Wrap32, old(State())), []))
    {
      hide S.Pack;
      hide S.VisitAll;
      hide S.Admit;
      hide S.DataPackets;
      hide S.Segments;
      hide S.AckPackets;
      hide S.Timeouts;
      hide S.AnyFast;
      hide S.AnyDead;
      hide EncodeEach;
      hide AddAllToCut;
      ghost var e, base := State(), outbox;
      var unused := if nrcvQue < cfg.rcvWnd then cfg.rcvWnd - nrcvQue else 0;
      var x := S.Flusher(cfg, clock.current, rtt.rto, unused, rcv.nxt);
      var cwnd := Min(cfg.sndWnd, cong.rmtWnd);
      if !cfg.noCwnd { cwnd := Min(cong.cwnd, cwnd); }
      assert x == S.FlusherOf(e) && cwnd == S.Window(e);
      ghost var c, c1;
      var buffer;
      buffer, c := FlushControl(x, base);
      assert State() == S.ControlDone(e);
      c1 := FlushSegments(x, cwnd, buffer, base, c);
      FlushPacked(cfg.mtu, e, c, c1);
    }

    /** `ikcp_flush`: the state afterwards and the bytes handed to the output callback. */
    method Flush()
      requires Valid()
      modifies this
      ensures Valid()
      ensures State() == S.Flush(Wrap32, old(State())).0
      ensures outbox == old(outbox) + EncodeEach(S.Flush(Wrap32, old(State())).1)
    {
      if !clock.updated {
        assert EncodeEach([]) == [];
        return;
      }
      FlushNow();
    }

    // -------------------------------------------------------------- timers

    /** The clock part of `ikcp_update`; tells whether a flush is due. */
    method TickClock(current: int) returns (due: bool)
      requires Valid()
      modifies this`clock
      ensures Valid() && (clock, due) == S.Tick(cfg.interval, old(clock), current)
    {
      clock := clock.(current := current);
      if !clock.updated {
        clock := clock.(updated := true, tsFlush := current);
      }
      var slap := TimeDiff(current, clock.tsFlush);
      if slap >= 10000 || slap < -10000 {
        clock := clock.(tsFlush := current);
        slap := 0;
      }
      due := slap >= 0;
      if due {
        clock := clock.(tsFlush := U32(clock.tsFlush + cfg.interval));
        if TimeDiff(current, clock.tsFlush) >= 0 {
          clock := clock.(tsFlush := U32(current + cfg.interval));
        }
      }
    }

    method Update(current: int)
      requires Valid()
      modifies this
      ensures Valid()
      ensures State() == S.Update(Wrap32, old(State()), current).0
      ensures outbox == old(outbox) + EncodeEach(S.Update(Wrap32, old(State()), current).1)
    {
      var due := TickClock(current);
      if due {
        Flush();
      } else {
        assert EncodeEach([]) == [];
      }
    }

    method Check(current: int) returns (t: int)
      requires Valid()
      ensures t == S.Check(State(), current)
    {
      if !clock.updated { return current; }
      var tsFlush := clock.tsFlush;
      if TimeDiff(current, tsFlush) >= 10000 || TimeDiff(current, tsFlush) < -10000 {
        tsFlush := current;
      }
      if TimeDiff(current, tsFlush) >= 0 { return current; }
      var tmFlush, tmPacket := TimeDiff(tsFlush, current), 0x7fff_ffff;
      var i := 0;
      while i < |snd.buf|
        invariant 0 <= i <= |snd.buf|
        invariant !S.AnyDue(snd.buf[..i], current) && tmPacket == S.Soonest(snd.buf[..i], current)
      {
        var diff := TimeDiff(snd.buf[i].resendts, current);
        assert snd.buf[..i + 1][..i] == snd.buf[..i];
        if diff <= 0 {
          assert S.AnyDue(snd.buf, current);
          return current;
        }
        if diff < tmPacket { tmPacket := diff; }
        i := i + 1;
      }
      assert snd.buf[..i] == snd.buf;
      var minimal := if tmPacket < tmFlush then tmPacket else tmFlush;
      if minimal >= cfg.interval { minimal := cfg.interval; }
      t := U32(current + minimal);
    }
  }

  // ---------------------------------------------------------------- facts about the loops

  lemma {:induction false} MergeCountMeaning(q: seq<Packet>)
    ensures forall i :: 0 <= i < S.MergeCount(q) - 1 ==> q[i].frg != 0
    ensures 0 < S.MergeCount(q) < |q| ==> q[S.MergeCount(q) - 1].frg == 0
  {
    if |q| > 0 && q[0].frg != 0 {
      MergeCountMeaning(q[1..]);
      assert forall i :: 0 < i < |q| ==> q[i] == q[1..][i - 1];
    }
  }

  /** The merge stops behind the first segment with fragment number 0, or at the end. */
  lemma {:induction false} MergeEnds(q: seq<Packet>, i: nat)
    requires i < S.MergeCount(q)
    ensures S.MergeCount(q) <= |q|
    ensures q[i].frg == 0 || i + 1 == |q| <==> S.MergeCount(q) == i + 1
    decreases |q|
  {
    if i > 0 {
      MergeEnds(q[1..], i - 1);
    } else if |q| > 1 && q[0].frg != 0 {
      assert S.MergeCount(q[1..]) > 0;
    }
  }

  lemma {:induction false} DataOfOneMore(q: seq<Packet>, i: nat)
    requires i < |q|
    ensures S.DataOf(q[..i + 1]) == S.DataOf(q[..i]) + q[i].data
  {
    if i == 0 {
      assert q[..1][1..] == [];
    } else {
      DataOfOneMore(q[1..], i - 1);
      assert q[..i + 1][1..] == q[1..][..i] && q[..i][1..] == q[1..][..i - 1];
    }
  }

  lemma RemoveSnNone(sn: int)
    ensures S.RemoveSn(Wrap32, [], sn) == []
  {
  }

  lemma RemoveSnUnrolled(buf: seq<Sent>, i: nat, sn: int)
    requires i < |buf|
    ensures buf[..i] + S.RemoveSn(Wrap32, buf[i..], sn) ==
              if sn == buf[i].pkt.sn then buf[..i] + buf[i + 1..]
              else if TimeDiff(sn, buf[i].pkt.sn) < 0 then buf
              else buf[..i + 1] + S.RemoveSn(Wrap32, buf[i + 1..], sn)
  {
    assert buf[i..][1..] == buf[i + 1..];
    assert buf[..i] + buf[i..] == buf;
    assert buf[..i + 1] == buf[..i] + [buf[i]];
  }

  function Skipped(s: Sent, sn: int): Sent {
    if sn != s.pkt.sn then s.(fastack := U32(s.fastack + 1)) else s
  }

  lemma {:induction false} CountSkipsUpTo(buf: seq<Sent>, sn: int, i: nat)
    requires i <= |buf| && (forall k :: 0 <= k < i ==> TimeDiff(sn, buf[k].pkt.sn) >= 0)
    requires i == |buf| || TimeDiff(sn, buf[i].pkt.sn) < 0
    ensures |S.CountSkips(Wrap32, buf, sn)| == |buf|
    ensures forall k :: 0 <= k < |buf| ==>
              S.CountSkips(Wrap32, buf, sn)[k] == if k < i then Skipped(buf[k], sn) else buf[k]
  {
    if i == 0 {
    } else {
      CountSkipsUpTo(buf[1..], sn, i - 1);
    }
  }

  /** `todo` is what the header loop will still read. */
  ghost predicate Remaining(conv: int, mem: seq<byte>, pos: nat, size: int, todo: Parsed) {
    Room(mem, pos, size) && todo == Parse(conv, mem, pos, size)
  }

  lemma ParseStops(conv: int, mem: seq<byte>, pos: nat, size: int, todo: Parsed)
    requires Remaining(conv, mem, pos, size, todo)
    ensures size < OVERHEAD ==> todo.ps == [] && todo.ret == 0
    ensures size >= OVERHEAD && CheckHeader(conv, mem, pos, size) != 0 ==>
              todo.ps == [] && todo.ret == CheckHeader(conv, mem, pos, size)
  {
  }

  lemma ParseUnrolled(conv: int, mem: seq<byte>, pos: nat, size: int, pos1: nat, size1: int, todo: Parsed)
      returns (rest: Parsed)
    requires Room(mem, pos, size) && OVERHEAD <= size && CheckHeader(conv, mem, pos, size) == 0
    requires pos1 == pos + HEADER + Word32(mem, pos + 22) && size1 == size - OVERHEAD - Word32(mem, pos + 22)
    requires Remaining(conv, mem, pos, size, todo)
    ensures Remaining(conv, mem, pos1, size1, rest)
    ensures todo.ps == [Decode(mem, pos, Word32(mem, pos + 22))] + rest.ps
    ensures todo.ret == rest.ret
  {
    rest := Parse(conv, mem, pos1, size1);
  }

  lemma OnPacketsFirst(st: S.InState, p: Packet, ps: seq<Packet>, rest: seq<Packet>)
    requires ps == [p] + rest
    ensures S.OnPackets(Wrap32, st, ps) == S.OnPackets(Wrap32, S.OnPacket(Wrap32, st, p), rest)
  {
    assert ps[1..] == rest;
  }

  lemma InsertFirst(seg: Packet)
    ensures S.Insert(Wrap32, [], seg) == [seg]
  {
  }

  lemma InsertUnrolled(buf: seq<Packet>, p: nat, seg: Packet)
    requires 0 < p <= |buf|
    ensures S.Insert(Wrap32, buf[..p], seg) + buf[p..] ==
              if buf[p - 1].sn == seg.sn then buf
              else if TimeDiff(seg.sn, buf[p - 1].sn) > 0 then buf[..p] + [seg] + buf[p..]
              else S.Insert(Wrap32, buf[..p - 1], seg) + buf[p - 1..]
  {
    assert buf[..p][..p - 1] == buf[..p - 1];
    assert buf[p - 1..] == [buf[p - 1]] + buf[p..];
    assert buf[..p] + buf[p..] == buf;
  }

  /** What the loop over `sndBuf` accumulates. */
  datatype Tally = Tally(c: Cut, xmit: int, change: bool, lost: bool, dead: bool)

  function TallyOne(cfg: Config, t: Tally, v: S.Visited): Tally {
    Tally(if v.send then AddToCut(cfg.mtu, t.c, Wire(v.seg.pkt)) else t.c,
          if v.timeout then U32(t.xmit + 1) else t.xmit,
          t.change || v.fast, t.lost || v.timeout,
          t.dead || (v.send && v.seg.xmit >= cfg.deadLink))
  }

  function TallyUp(cfg: Config, t: Tally, vs: seq<S.Visited>): Tally
    decreases |vs|
  {
    if |vs| == 0 then t else TallyUp(cfg, TallyOne(cfg, t, vs[0]), vs[1..])
  }

  lemma TallyNone(cfg: Config, t: Tally, vs: seq<S.Visited>)
    requires |vs| == 0
    ensures TallyUp(cfg, t, vs) == t
  {
  }

  lemma TallyOfNone(cfg: Config, t: Tally, vs: seq<S.Visited>)
    requires |vs| == 0 && 0 <= t.xmit < MODULUS
    ensures t == Tally(AddAllToCut(cfg.mtu, t.c, S.DataPackets(vs)), U32(t.xmit + S.Timeouts(vs)),
                       t.change || S.AnyFast(vs), t.lost || S.Timeouts(vs) > 0,
                       t.dead || S.AnyDead(cfg.deadLink, vs))
  {
  }

  lemma TallyUnrolled(cfg: Config, t: Tally, vs: seq<S.Visited>, i: nat)
    requires i < |vs|
    ensures TallyUp(cfg, t, vs[i..]) == TallyUp(cfg, TallyOne(cfg, t, vs[i]), vs[i + 1..])
  {
    assert vs[i..][1..] == vs[i + 1..];
  }

  lemma {:induction false} TallyMeaning(cfg: Config, t: Tally, vs: seq<S.Visited>)
    requires 0 <= t.xmit < MODULUS
    ensures TallyUp(cfg, t, vs) == Tally(AddAllToCut(cfg.mtu, t.c, S.DataPackets(vs)), U32(t.xmit + S.Timeouts(vs)),
                                         t.change || S.AnyFast(vs), t.lost || S.Timeouts(vs) > 0,
                                         t.dead || S.AnyDead(cfg.deadLink, vs))
    decreases |vs|
  {
    hide AddToCut;
    hide AddAllToCut;
    hide S.AnyFast;
    hide S.AnyDead;
    hide U32;
    if |vs| == 0 {
      TallyOfNone(cfg, t, vs);
    } else {
      var v, rest := vs[0], vs[1..];
      TallyMeaning(cfg, TallyOne(cfg, t, v), rest);
      AnyUnrolled(cfg.deadLink, vs);
      U32Plus(t.xmit + 1, S.Timeouts(rest));
      if v.send {
        AddAllInTurn(cfg.mtu, t.c, [Wire(v.seg.pkt)], S.DataPackets(rest));
        AddOneToCut(cfg.mtu, t.c, Wire(v.seg.pkt));
      } else {
        assert [] + S.DataPackets(rest) == S.DataPackets(rest);
      }
    }
  }

  lemma AnyUnrolled(deadLink: int, vs: seq<S.Visited>)
    requires |vs| > 0
    ensures S.AnyFast(vs) == (vs[0].fast || S.AnyFast(vs[1..]))
    ensures S.AnyDead(deadLink, vs) == ((vs[0].send && vs[0].seg.xmit >= deadLink) || S.AnyDead(deadLink, vs[1..]))
  {
    assert forall i :: 0 < i < |vs| ==> vs[i] == vs[1..][i - 1];
    assert forall i :: 0 <= i < |vs| - 1 ==> vs[1..][i] == vs[i + 1];
  }

  /** The stages together are the packing of all segments of the flush. */
  lemma FlushPacked(mtu: int, e: Endpoint, c: Cut, c1: Cut)
    requires var x := S.FlusherOf(e);
             c == AddAllToCut(mtu, Cut([], []), S.AckPackets(x, e.rcv.acks) +
                    S.ProbePackets(x, S.TickProbe(e.cong.rmtWnd, e.clock.current, e.probe), S.LastAck(e.rcv.acks)))
    requires c1 == AddAllToCut(mtu, c, S.DataPackets(S.FlushVisits(Wrap32, e)))
    ensures S.Pack(mtu, S.FlushPackets(Wrap32, e), []) == Closed(c1)
  {
    var x := S.FlusherOf(e);
    AddAllInTurn(mtu, Cut([], []),
      S.AckPackets(x, e.rcv.acks) +
        S.ProbePackets(x, S.TickProbe(e.cong.rmtWnd, e.clock.current, e.probe), S.LastAck(e.rcv.acks)),
      S.DataPackets(S.FlushVisits(Wrap32, e)));
    CutIsPack(mtu, Cut([], []), S.FlushPackets(Wrap32, e));
    assert [] + S.Pack(mtu, S.FlushPackets(Wrap32, e), []) == S.Pack(mtu, S.FlushPackets(Wrap32, e), []);
  }

  lemma ClosedBytes(c: Cut)
    ensures EncodeEach(Closed(c)) == EncodeEach(c.done) + (if |EncodeAll(c.cur)| > 0 then [EncodeAll(c.cur)] else [])
  {
    EncodedLength(c.cur);
  }

  lemma SegmentsSent(x: S.Flusher, g: S.Sending, cwnd: int, t: S.Sending)
    requires var s := S.Admit(Wrap32, x, g.snd, cwnd);
             var vs := S.VisitAll(x, s.buf);
             && t.snd == s.(buf := S.Segments(vs)) && t.xmit == U32(g.xmit + S.Timeouts(vs))
             && t.dead == (g.dead || S.AnyDead(x.cfg.deadLink, vs))
             && t.cong ==
               S.AdjustCwnd(x.cfg.mss, g.cong, x.Resent(), U32(s.nxt - s.una), cwnd, S.AnyFast(vs), S.Timeouts(vs) > 0)
    ensures t == S.SendSegments(Wrap32, x, g, cwnd)
  {
  }
}
