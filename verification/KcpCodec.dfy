/** The byte form of datagrams: the header codec, how a flush cuts its segments into
    datagrams, and how `ikcp_input` reads one back. */
module KcpCodec {
  import opened Circular
  import opened KcpState
  import opened KcpSpec

  // ---------------------------------------------------------------- encoding

  /** Little-endian words, truncated to their width. */
  function Le16(x: int): (b: seq<byte>)
    ensures |b| == 2
  {
    [x % 256, x / 256 % 256]
  }

  function Le32(x: int): (b: seq<byte>)
    ensures |b| == 4
  {
    [x % 256, x / 256 % 256, x / 0x1_0000 % 256, x / 0x100_0000 % 256]
  }

  function Word16(mem: seq<byte>, pos: nat): (x: int)
    requires pos + 2 <= |mem|
    ensures 0 <= x < 0x1_0000
  {
    mem[pos] as int + 256 * (mem[pos + 1] as int)
  }

  function Word32(mem: seq<byte>, pos: nat): (x: int)
    requires pos + 4 <= |mem|
    ensures 0 <= x < MODULUS
  {
    mem[pos] as int + 256 * (mem[pos + 1] as int) + 0x1_0000 * (mem[pos + 2] as int) +
      0x100_0000 * (mem[pos + 3] as int)
  }

  /** `ikcp_encode_seg`. */
  function Header(p: Packet): (b: seq<byte>)
    ensures |b| == HEADER
  {
    Le32(p.conv) + Le16(p.cmd) + Le16(p.frg) + Le16(p.wnd) +
    Le32(p.ts) + Le32(p.sn) + Le32(p.una) + Le32(|p.data|)
  }

  function Encode(p: Packet): (b: seq<byte>)
    ensures |b| == HEADER + |p.data|
  {
    Header(p) + p.data
  }

  function EncodeAll(ps: seq<Packet>): seq<byte> {
    if |ps| == 0 then [] else Encode(ps[0]) + EncodeAll(ps[1..])
  }

  lemma {:induction false} EncodeAllAppend(ps: seq<Packet>, qs: seq<Packet>)
    ensures EncodeAll(ps + qs) == EncodeAll(ps) + EncodeAll(qs)
  {
    if |ps| == 0 {
      assert ps + qs == qs;
    } else {
      assert (ps + qs)[1..] == ps[1..] + qs;
      EncodeAllAppend(ps[1..], qs);
    }
  }

  lemma {:induction false} EncodedLength(ps: seq<Packet>)
    ensures |EncodeAll(ps)| == WireSize(ps)
  {
    if |ps| == 0 {
    } else {
      var init, last := ps[..|ps| - 1], ps[|ps| - 1];
      assert ps == init + [last];
      EncodeAllAppend(init, [last]);
      assert EncodeAll([last]) == Encode(last) + EncodeAll([]);
      EncodedLength(init);
    }
  }

  // ---------------------------------------------------------------- reading

  /** The segments read, the result code, and how many headers were looked at. */
  datatype Parsed = Parsed(ps: seq<Packet>, ret: int, headers: nat)

  function Decode(mem: seq<byte>, pos: nat, len: nat): Packet
    requires pos + HEADER + len <= |mem|
  {
    Packet(Word32(mem, pos), Word16(mem, pos + 4), Word16(mem, pos + 6), Word16(mem, pos + 8),
           Word32(mem, pos + 10), Word32(mem, pos + 14), Word32(mem, pos + 18),
           mem[pos + HEADER..pos + HEADER + len])
  }

  /** Enough memory behind the datagram for the reader's count: it believes that a header
      takes OVERHEAD bytes while it consumes HEADER of them. */
  predicate Room(mem: seq<byte>, pos: nat, size: int) {
    pos <= |mem| && 12 * (|mem| - pos) >= 13 * size
  }

  /** The checks made on one header: conversation, length and command, in that order. */
  function CheckHeader(conv: int, mem: seq<byte>, pos: nat, size: int): (code: int)
    requires Room(mem, pos, size) && OVERHEAD <= size
  {
    if Word32(mem, pos) != conv then -1
    else if size - OVERHEAD < Word32(mem, pos + 22) || Signed(Word32(mem, pos + 22)) < 0 then -2
    else if !KnownCommand(Word16(mem, pos + 4)) then -3
    else 0
  }

  /** The header loop of `ikcp_input`: `size` is the loop's own count of what is left. */
  function Parse(conv: int, mem: seq<byte>, pos: nat, size: int): Parsed
    requires Room(mem, pos, size)
    decreases size
  {
    if size < OVERHEAD then Parsed([], 0, 0)
    else if CheckHeader(conv, mem, pos, size) != 0 then Parsed([], CheckHeader(conv, mem, pos, size), 1)
    else
      var len := Word32(mem, pos + 22);
      var rest := Parse(conv, mem, pos + HEADER + len, size - OVERHEAD - len);
      Parsed([Decode(mem, pos, len)] + rest.ps, rest.ret, 1 + rest.headers)
  }

  /** `ikcp_input` refuses anything shorter than its idea of a header. */
  function ReadDatagram(conv: int, mem: seq<byte>, size: int): Parsed
    requires Room(mem, 0, size)
  {
    if size < OVERHEAD then Parsed([], -1, 0) else Parse(conv, mem, 0, size)
  }

  /** A packet that fits its header and belongs to conversation `conv`. */
  ghost predicate OnWire(conv: int, p: Packet) {
    && p.conv == conv && 0 <= conv < MODULUS
    && KnownCommand(p.cmd)
    && 0 <= p.frg < 0x1_0000 && 0 <= p.wnd < 0x1_0000
    && 0 <= p.ts < MODULUS && 0 <= p.sn < MODULUS && 0 <= p.una < MODULUS
    && |p.data| < HALF
  }

  lemma Word16OfLe16(mem: seq<byte>, pos: nat, x: int)
    requires pos + 2 <= |mem| && mem[pos..pos + 2] == Le16(x) && 0 <= x < 0x1_0000
    ensures Word16(mem, pos) == x
  {
    assert mem[pos] == mem[pos..pos + 2][0] && mem[pos + 1] == mem[pos..pos + 2][1];
  }

  lemma Word32OfLe32(mem: seq<byte>, pos: nat, x: int)
    requires pos + 4 <= |mem| && mem[pos..pos + 4] == Le32(x) && 0 <= x < MODULUS
    ensures Word32(mem, pos) == x
  {
    var b := mem[pos..pos + 4];
    assert mem[pos] == b[0] && mem[pos + 1] == b[1] && mem[pos + 2] == b[2] && mem[pos + 3] == b[3];
    SumOfBytes(x);
  }

  lemma SumOfBytes(x: int)
    requires 0 <= x < MODULUS
    ensures x == x % 256 + 256 * (x / 256 % 256) + 0x1_0000 * (x / 0x1_0000 % 256)
                 + 0x100_0000 * (x / 0x100_0000 % 256)
  {
    var y, z, t := x / 256, x / 0x1_0000, x / 0x100_0000;
    assert y / 256 == z && z / 256 == t && t < 256;
  }

  lemma DecodeOfEncode(conv: int, mem: seq<byte>, pos: nat, p: Packet)
    requires OnWire(conv, p) && pos + HEADER + |p.data| <= |mem|
    requires mem[pos..pos + HEADER + |p.data|] == Encode(p)
    ensures Word32(mem, pos) == conv && Word16(mem, pos + 4) == p.cmd && Word32(mem, pos + 22) == |p.data|
    ensures Decode(mem, pos, |p.data|) == p
  {
    hide Le32;
    hide Le16;
    hide Word32;
    hide Word16;
    var e := Encode(p);
    Slice(mem, pos, e, 0, 4);   assert e[0..4] == Le32(p.conv);     Word32OfLe32(mem, pos, p.conv);
    Slice(mem, pos, e, 4, 6);   assert e[4..6] == Le16(p.cmd);      Word16OfLe16(mem, pos + 4, p.cmd);
    Slice(mem, pos, e, 6, 8);   assert e[6..8] == Le16(p.frg);      Word16OfLe16(mem, pos + 6, p.frg);
    Slice(mem, pos, e, 8, 10);  assert e[8..10] == Le16(p.wnd);     Word16OfLe16(mem, pos + 8, p.wnd);
    Slice(mem, pos, e, 10, 14); assert e[10..14] == Le32(p.ts);     Word32OfLe32(mem, pos + 10, p.ts);
    Slice(mem, pos, e, 14, 18); assert e[14..18] == Le32(p.sn);     Word32OfLe32(mem, pos + 14, p.sn);
    Slice(mem, pos, e, 18, 22); assert e[18..22] == Le32(p.una);    Word32OfLe32(mem, pos + 18, p.una);
    Slice(mem, pos, e, 22, 26); assert e[22..26] == Le32(|p.data|); Word32OfLe32(mem, pos + 22, |p.data|);
    Slice(mem, pos, e, 26, 26 + |p.data|);
    assert e[26..26 + |p.data|] == p.data;
  }

  lemma Slice(mem: seq<byte>, pos: nat, e: seq<byte>, i: nat, j: nat)
    requires i <= j <= |e| && pos + |e| <= |mem| && mem[pos..pos + |e|] == e
    ensures mem[pos + i..pos + j] == e[i..j]
  {
    forall k | i <= k < j ensures mem[pos + k] == e[k] {
      assert mem[pos..pos + |e|][k] == mem[pos + k];
    }
  }

  /** A reading result with the segments `ps` in front. */
  function After(ps: seq<Packet>, rest: Parsed): Parsed {
    Parsed(ps + rest.ps, rest.ret, |ps| + rest.headers)
  }

  lemma AfterCompose(ps: seq<Packet>, whole: Parsed, tail: Parsed, last: Parsed)
    requires |ps| > 0 && whole == After([ps[0]], tail) && tail == After(ps[1..], last)
    ensures whole == After(ps, last)
  {
    assert [ps[0]] + (ps[1..] + last.ps) == ps + last.ps;
  }

  /** The bytes at `pos` read as `p`. */
  ghost predicate ReadsAs(conv: int, mem: seq<byte>, pos: nat, p: Packet) {
    && pos + HEADER + |p.data| <= |mem| && |p.data| < HALF
    && Word32(mem, pos) == conv
    && KnownCommand(Word16(mem, pos + 4))
    && Word32(mem, pos + 22) == |p.data|
    && Decode(mem, pos, |p.data|) == p
  }

  lemma EncodedReads(conv: int, mem: seq<byte>, pos: nat, p: Packet)
    requires OnWire(conv, p) && pos + HEADER + |p.data| <= |mem|
    requires mem[pos..pos + HEADER + |p.data|] == Encode(p)
    ensures ReadsAs(conv, mem, pos, p)
  {
    DecodeOfEncode(conv, mem, pos, p);
  }

  lemma Accepted(conv: int, mem: seq<byte>, pos: nat, p: Packet, size: int)
    requires ReadsAs(conv, mem, pos, p) && Room(mem, pos, size) && size >= OVERHEAD + |p.data|
    ensures CheckHeader(conv, mem, pos, size) == 0
  {
    hide Word32;
    hide Word16;
    hide Decode;
  }

  lemma ParseOne(conv: int, mem: seq<byte>, pos: nat, pos1: nat, p: Packet, size: int, size1: int)
    requires ReadsAs(conv, mem, pos, p) && Room(mem, pos, size)
    requires size1 == size - OVERHEAD - |p.data| && 0 <= size1
    requires pos1 == pos + HEADER + |p.data|
    ensures Room(mem, pos1, size1)
    ensures Parse(conv, mem, pos, size) == After([p], Parse(conv, mem, pos1, size1))
  {
    hide CheckHeader;
    hide Decode;
    hide Word32;
    Accepted(conv, mem, pos, p, size);
    assert [p] + Parse(conv, mem, pos1, size1).ps == After([p], Parse(conv, mem, pos1, size1)).ps;
  }

  lemma EncodeAllSplit(mem: seq<byte>, pos: nat, ps: seq<Packet>)
    requires |ps| > 0 && pos + |EncodeAll(ps)| <= |mem| && mem[pos..pos + |EncodeAll(ps)|] == EncodeAll(ps)
    ensures var n := HEADER + |ps[0].data|;
            && |EncodeAll(ps)| == n + |EncodeAll(ps[1..])|
            && pos + n <= |mem| && mem[pos..pos + n] == Encode(ps[0])
            && mem[pos + n..pos + n + |EncodeAll(ps[1..])|] == EncodeAll(ps[1..])
  {
    var n, e := HEADER + |ps[0].data|, EncodeAll(ps);
    Slice(mem, pos, e, 0, n);
    Slice(mem, pos, e, n, |e|);
    assert e[0..n] == Encode(ps[0]) && e[n..|e|] == EncodeAll(ps[1..]);
  }

  /** The reader recovers encoded segments one by one, and its count drifts by the two
      bytes it overlooks in every header. */
  lemma {:induction false} ParseEncoded(conv: int, mem: seq<byte>, pos: nat, end: nat, ps: seq<Packet>, size: int,
      left: int)
    requires forall p :: p in ps ==> OnWire(conv, p)
    requires end == pos + |EncodeAll(ps)| <= |mem| && mem[pos..end] == EncodeAll(ps)
    requires end - pos <= size && Room(mem, pos, size)
    requires left == size - (end - pos) + 2 * |ps|
    ensures Room(mem, end, left)
    ensures Parse(conv, mem, pos, size) == After(ps, Parse(conv, mem, end, left))
    decreases |ps|
  {
    if |ps| > 0 {
      var p, rest := ps[0], ps[1..];
      var pos1, size1 := pos + HEADER + |p.data|, size - OVERHEAD - |p.data|;
      EncodeAllSplit(mem, pos, ps);
      EncodedReads(conv, mem, pos, p);
      ParseOne(conv, mem, pos, pos1, p, size, size1);
      ParseEncoded(conv, mem, pos1, end, rest, size1, left);
      AfterCompose(ps, Parse(conv, mem, pos, size), Parse(conv, mem, pos1, size1), Parse(conv, mem, end, left));
    } else {
      var rest := Parse(conv, mem, end, size);
      assert [] + rest.ps == rest.ps;
      assert Parse(conv, mem, pos, size) == After(ps, rest);
    }
  }

  /** `ikcp_input` recovers exactly the segments of a datagram that holds at most eleven,
      whatever bytes lie behind it; from twelve on it goes on reading past the end. */
  lemma DatagramRoundTrip(conv: int, ps: seq<Packet>, behind: seq<byte>)
    requires |ps| > 0 && forall p :: p in ps ==> OnWire(conv, p)
    requires Room(EncodeAll(ps) + behind, 0, |EncodeAll(ps)|)
    ensures var got := ReadDatagram(conv, EncodeAll(ps) + behind, |EncodeAll(ps)|);
            && (|ps| <= 11 ==> got == Parsed(ps, 0, |ps|))
            && (|ps| >= 12 ==> got.headers > |ps|)
            && ps <= got.ps
  {
    var e := EncodeAll(ps);
    var mem := e + behind;
    assert mem[0..|e|] == e;
    EncodeAllSplit(mem, 0, ps);
    ParseEncoded(conv, mem, 0, |e|, ps, |e|, 2 * |ps|);
    ParseStopsBelowHeader(conv, mem, |e|, 2 * |ps|);
    assert ps + [] == ps;
  }

  lemma ParseStopsBelowHeader(conv: int, mem: seq<byte>, pos: nat, size: int)
    requires Room(mem, pos, size)
    ensures size < OVERHEAD ==> Parse(conv, mem, pos, size) == Parsed([], 0, 0)
    ensures size >= OVERHEAD ==> Parse(conv, mem, pos, size).headers > 0
  {
  }

  /** Every segment read carries words of the widths in the header. */
  lemma {:induction false} ParsedAreOnWire(conv: int, mem: seq<byte>, pos: nat, size: int)
    requires Room(mem, pos, size)
    ensures forall p :: p in Parse(conv, mem, pos, size).ps ==>
              p.conv == conv && KnownCommand(p.cmd) && 0 <= p.wnd < 0x1_0000
              && 0 <= p.sn < MODULUS && 0 <= p.una < MODULUS && 0 <= p.ts < MODULUS
    decreases size
  {
    if size >= OVERHEAD && Parse(conv, mem, pos, size).ps != [] {
      var len := Word32(mem, pos + 22);
      ParsedAreOnWire(conv, mem, pos + HEADER + len, size - OVERHEAD - len);
    }
  }

  // ---------------------------------------------------------------- packing

  function Flatten(ds: seq<Datagram>): seq<Packet> {
    if |ds| == 0 then [] else ds[0] + Flatten(ds[1..])
  }

  lemma {:induction false} FlattenAppend(ds: seq<Datagram>, es: seq<Datagram>)
    ensures Flatten(ds + es) == Flatten(ds) + Flatten(es)
  {
    if |ds| == 0 {
      assert ds + es == es;
    } else {
      assert (ds + es)[1..] == ds[1..] + es;
      FlattenAppend(ds[1..], es);
    }
  }

  /** The datagrams of a flush are its segments in order, none lost, none split. */
  lemma {:induction false} PackKeepsOrder(mtu: int, ps: seq<Packet>, cur: Datagram)
    ensures Flatten(Pack(mtu, ps, cur)) == cur + ps
    ensures forall d :: d in Pack(mtu, ps, cur) ==> |d| > 0
    decreases |ps|
  {
    var done: seq<Datagram> := if |cur| > 0 then [cur] else [];
    assert Flatten(done) == cur by {
      if |cur| > 0 { assert Flatten([cur]) == cur + Flatten([]); }
    }
    if |ps| == 0 {
    } else {
      assert cur + ps == cur + [ps[0]] + ps[1..];
      PackKeepsOrder(mtu, ps[1..], [ps[0]]);
      PackKeepsOrder(mtu, ps[1..], cur + [ps[0]]);
      FlattenAppend(done, Pack(mtu, ps[1..], [ps[0]]));
    }
  }

  lemma WireSizeOfMore(cur: Datagram, p: Packet)
    ensures WireSize(cur + [p]) == WireSize(cur) + HEADER + |p.data|
  {
    assert (cur + [p])[..|cur|] == cur;
  }

  /** When no segment exceeds the mss, no datagram exceeds the mtu by more than the two
      bytes by which OVERHEAD understates a header. */
  lemma {:induction false} PackRespectsMtu(mtu: int, ps: seq<Packet>, cur: Datagram)
    requires forall p :: p in ps ==> |p.data| <= mtu - OVERHEAD
    requires WireSize(cur) <= mtu + 2
    ensures forall d :: d in Pack(mtu, ps, cur) ==> WireSize(d) <= mtu + 2
    decreases |ps|
  {
    if |ps| == 0 {
    } else {
      WireSizeOfMore([], ps[0]);
      assert [] + [ps[0]] == [ps[0]];
      WireSizeOfMore(cur, ps[0]);
      PackRespectsMtu(mtu, ps[1..], [ps[0]]);
      if WireSize(cur) + OVERHEAD + |ps[0].data| <= mtu {
        PackRespectsMtu(mtu, ps[1..], cur + [ps[0]]);
      }
    }
  }

  /** The datagrams completed, and the one being filled, after some segments. */
  datatype Cut = Cut(done: seq<Datagram>, cur: Datagram)

  function AddToCut(mtu: int, c: Cut, p: Packet): Cut {
    if WireSize(c.cur) + OVERHEAD + |p.data| > mtu then
      Cut(c.done + (if |c.cur| > 0 then [c.cur] else []), [p])
    else c.(cur := c.cur + [p])
  }

  function AddAllToCut(mtu: int, c: Cut, ps: seq<Packet>): Cut
    decreases |ps|
  {
    if |ps| == 0 then c else AddAllToCut(mtu, AddToCut(mtu, c, ps[0]), ps[1..])
  }

  lemma {:induction false} AddAllInTurn(mtu: int, c: Cut, ps: seq<Packet>, qs: seq<Packet>)
    ensures AddAllToCut(mtu, c, ps + qs) == AddAllToCut(mtu, AddAllToCut(mtu, c, ps), qs)
    decreases |ps|
  {
    if |ps| == 0 {
      assert ps + qs == qs;
    } else {
      assert (ps + qs)[1..] == ps[1..] + qs;
      AddAllInTurn(mtu, AddToCut(mtu, c, ps[0]), ps[1..], qs);
    }
  }

  lemma AddOneToCut(mtu: int, c: Cut, p: Packet)
    ensures AddAllToCut(mtu, c, [p]) == AddToCut(mtu, c, p)
  {
    assert [p][1..] == [];
  }

  /** The datagrams of a cut, counting the one being filled unless it is empty. */
  function Closed(c: Cut): seq<Datagram> {
    if |c.cur| > 0 then c.done + [c.cur] else c.done
  }

  /** Filling datagrams one segment at a time produces the packing. */
  lemma {:induction false} CutIsPack(mtu: int, c: Cut, ps: seq<Packet>)
    ensures Closed(AddAllToCut(mtu, c, ps)) == c.done + Pack(mtu, ps, c.cur)
    decreases |ps|
  {
    if |ps| == 0 {
    } else {
      CutIsPack(mtu, AddToCut(mtu, c, ps[0]), ps[1..]);
    }
  }

  function EncodeEach(ds: seq<Datagram>): (bs: seq<seq<byte>>)
    ensures |bs| == |ds| && forall i :: 0 <= i < |ds| ==> bs[i] == EncodeAll(ds[i])
  {
    seq(|ds|, i requires 0 <= i < |ds| => EncodeAll(ds[i]))
  }

  function Repeat(n: nat, p: Packet): (ps: Datagram)
    ensures |ps| == n && forall i :: 0 <= i < n ==> ps[i] == p
  {
    seq(n, _ => p)
  }

  lemma {:induction false} RepeatSize(n: nat, p: Packet)
    requires p.data == []
    ensures WireSize(Repeat(n, p)) == HEADER * n
  {
    if n == 0 {
    } else {
      RepeatSize(n - 1, p);
      assert Repeat(n, p)[..n - 1] == Repeat(n - 1, p);
    }
  }

  lemma {:induction false} RepeatFits(n: nat, k: nat, p: Packet)
    requires p.data == [] && HEADER * (k + n) <= MTU_DEF && k + n > 0
    ensures Pack(MTU_DEF, Repeat(n, p), Repeat(k, p)) == [Repeat(k + n, p)]
    decreases n
  {
    RepeatSize(k, p);
    if n == 0 {
    } else {
      RepeatFits(n - 1, k + 1, p);
      assert Repeat(n, p)[1..] == Repeat(n - 1, p);
      assert Repeat(k, p) + [p] == Repeat(k + 1, p);
    }
  }

  /** Acknowledgements alone reach that limit: a flush of twelve to fifty-three of them at
      the default mtu is one datagram, and the reader looks for one more header behind it. */
  lemma AckBurstOverruns(conv: int, p: Packet, n: nat, behind: seq<byte>)
    requires OnWire(conv, p) && p.data == [] && 12 <= n <= 53
    requires Room(EncodeAll(Repeat(n, p)) + behind, 0, |EncodeAll(Repeat(n, p))|)
    ensures Pack(MTU_DEF, Repeat(n, p), []) == [Repeat(n, p)]
    ensures ReadDatagram(conv, EncodeAll(Repeat(n, p)) + behind, |EncodeAll(Repeat(n, p))|).headers > n
  {
    RepeatFits(n, 0, p);
    DatagramRoundTrip(conv, Repeat(n, p), behind);
  }
}
