/** What a decoder learns from the units that the encoder packs: which unit it is, and in the
    parameter sets what the options asked for. */
module HevcAnnounce {
  import opened Arithmetic
  import opened HevcBits
  import opened HevcExpGolomb
  import opened HevcParamSets
  import opened HevcDecoder
  import opened HevcRoundTrip
  import opened HevcSpsRoundTrip
  import opened HevcPrinters
  import opened HevcBitstream
  import opened HevcFill
  import opened HevcOrder
  import opened HevcPoc
  import Encoder = HevcEncoder

  // ---------------------------------------------------------------- start code and header

  lemma StartRead(nalUnitType: nat, rest: seq<bool>)
    ensures ReadStart(ElemBits(StartCode(nalUnitType)) + rest) ==
            Got(if NALU_VPS <= nalUnitType <= NALU_AUD then 4 else 3, rest)
  {
    hide Bits;
    Pow2Of32();
    if NALU_VPS <= nalUnitType <= NALU_AUD {
      BitsSplit(1, 24, 8);
      ShrBelow(1, 0, 8);
      assert Shr(1, 8) == 0;
      assert Bits(1, 32) + rest == Bits(0, 24) + (Bits(1, 8) + rest);
      URoundTrip(24, 0, Bits(1, 8) + rest);
      URoundTrip(8, 1, rest);
    } else {
      URoundTrip(24, 1, rest);
    }
  }

  /** The head of a unit as the writer puts it in front. */
  function Head(nalUnitType: nat): seq<Elem> { [U(1, 0), U(6, nalUnitType), U(6, 0), U(3, 1)] }

  /** Start code and header are read back: the length that the standard asks of each kind of
      unit, its type, layer 0 and temporal level 0. */
  lemma UnitHeadBack(nalUnitType: nat, rest: seq<bool>)
    requires nalUnitType < 64
    ensures ReadUnitHead(AllBits([StartCode(nalUnitType)] + Head(nalUnitType)) + rest) ==
            Got(UnitHead(if NALU_VPS <= nalUnitType <= NALU_AUD then 4 else 3, nalUnitType, 0, 0), rest)
  {
    hide AllBits;
    hide ElemBits;
    hide ReadStart;
    hide Bits;
    hide ReadAll;
    SmallPowers(6);
    var head := Head(nalUnitType);
    AllBitsOfList(StartCode(nalUnitType), head);
    var more := AllBits(head) + rest;
    assert AllBits([StartCode(nalUnitType)] + head) + rest == ElemBits(StartCode(nalUnitType)) + more;
    StartRead(nalUnitType, more);
    assert Kinds(head) == [KU(1), KU(6), KU(6), KU(3)];
    HeadInRange(nalUnitType);
    ListRoundTrip(head, [KU(1), KU(6), KU(6), KU(3)], rest);
  }

  lemma HeadInRange(nalUnitType: nat)
    requires nalUnitType < 64
    ensures forall e :: e in Head(nalUnitType) && e.U? ==> e.val < Pow2(e.size)
  {
    hide Pow2;
    SmallPowers(6);
    SmallPowers(3);
  }

  /** So a packed unit says what it is, and its payload begins 48 bits in. */
  lemma UnitSaysItsType(nalUnitType: nat, payload: seq<Elem>)
    requires NALU_VPS <= nalUnitType <= NALU_AUD
    ensures |NalBits(nalUnitType, payload)| >= 48
    ensures ReadUnitHead(NalBits(nalUnitType, payload)) ==
            Got(UnitHead(4, nalUnitType, 0, 0), NalBits(nalUnitType, payload)[48..])
  {
    hide AllBits;
    hide ReadUnitHead;
    PayloadOf(nalUnitType, payload);
    var head := [StartCode(nalUnitType)] + Head(nalUnitType);
    var unit := Nal(nalUnitType, payload);
    var more := payload + [U(1, 1)] + Alignment(|AllBits(unit)|, 0);
    assert unit + Alignment(|AllBits(unit)|, 0) == head + more;
    AllBitsAppend(head, more);
    HeadCount(nalUnitType, head);
    UnitHeadBack(nalUnitType, AllBits(more));
    assert NalBits(nalUnitType, payload)[48..] == AllBits(more);
  }

  // ---------------------------------------------------------------- whole units

  function ReadVpsUnit(bs: seq<bool>): Read<(Vps, Profile)> {
    var (head, rest) :- ReadUnitHead(bs);
    if head != UnitHead(4, NALU_VPS, 0, 0) then Fail else ReadVps(rest)
  }

  function ReadSpsUnit(bs: seq<bool>): Read<(Sps, Profile)> {
    var (head, rest) :- ReadUnitHead(bs);
    if head != UnitHead(4, NALU_SPS, 0, 0) then Fail else ReadSps(rest)
  }

  function ReadPpsUnit(bs: seq<bool>): Read<Pps> {
    var (head, rest) :- ReadUnitHead(bs);
    if head != UnitHead(4, NALU_PPS, 0, 0) then Fail else ReadPps(rest)
  }

  // ---------------------------------------------------------------- what is announced

  /** The least multiple of `k` that is not below `n`. */
  predicate LeastMultiple(k: nat, n: nat, m: nat)
    requires k > 0
  {
    m % k == 0 && n <= m < n + k
  }

  /** The picture size that a decoder shows, behind the conformance window, in samples of a
      format whose chroma planes are half as wide and half as high (section 7.4.3.2.1). */
  function ShownSize(s: Size): (int, int) {
    match s.window
    case None => (s.width, s.height)
    case Some(w) => (s.width - 2 * (w.left + w.right), s.height - 2 * (w.top + w.bottom))
  }

  /** The picture of `width` by `height`: coded in whole blocks of 16, shown at its own size if
      that is even and with one more column or row if it is odd. */
  predicate AnnouncesSize(s: Size, width: nat, height: nat) {
    && LeastMultiple(16, width, s.width) && LeastMultiple(16, height, s.height)
    && ShownSize(s) == (width + width % 2, height + height % 2)
    && (s.window.None? <==> s.width == width && s.height == height)
    && (s.window.Some? ==> s.window.value.left == 0 && s.window.value.top == 0)
  }

  /** Main-tier, progressive frames of profile `idc`, compatible with that profile and no other,
      at level 4. */
  predicate AnnouncesProfile(p: Profile, idc: nat) {
    && p.space == 0 && p.tier == 0 && p.idc == idc && p.level == 4 * 30
    && |p.compatibility| == 32 && (forall i :: 0 <= i < 32 ==> (p.compatibility[i] == 1 <==> i == idc))
    && p.progressive == 1 && p.interlaced == 0 && p.frameOnly == 1
  }

  /** The decoder must hold two pictures if all are intra and seven otherwise, and reorder as
      many as lie between two anchors. */
  predicate AnnouncesOrdering(os: seq<Ordering>, intra: nat, ip: nat)
    requires ip >= 1
  {
    |os| == 1 && os[0] == Ordering(if intra == 1 then 1 else 6, ip - 1, 0)
  }

  predicate SpsAnnounces(s: Sps, p: Profile, idc: nat, id: nat, width: nat, height: nat, lsbMinus4: nat,
      intra: nat, ip: nat)
    requires ip >= 1
  {
    && AnnouncesProfile(p, idc)
    && s.head == SpsHead(0, 0, 1)
    && s.format.id == id && s.format.chroma == 1
    && AnnouncesSize(s.size, width, height)
    && s.depths.luma == 0 && s.depths.chroma == 0 && s.depths.log2MaxLsbMinus4 == lsbMinus4
    && AnnouncesOrdering(s.depths.ordering, intra, ip)
    && AnnouncesBlocks(s.coding, s.size)
    && |s.refSets| == ip && s.longTerm.None?
  }

  /** Coding blocks of 8 to 32 samples that divide the picture, transform blocks of 4 to 32. */
  predicate AnnouncesBlocks(c: Coding, s: Size) {
    && c.minCb + 3 == 3 && c.minCb + 3 + c.diffCb == 5 && c.minTb + 2 == 2 && c.minTb + 2 + c.diffTb == 5
    && s.width % 8 == 0 && s.height % 8 == 0
  }

  lemma AlignedSize(n: nat)
    ensures LeastMultiple(16, n, Align16(n)) && Align16(n) % 8 == 0
    ensures Align16(n) - 2 * ((Align16(n) - n) / 2) == n + n % 2
  {
    var q := (n + 15) / 16;
    assert 16 * q <= n + 15 < 16 * q + 16;
    assert Align16(n) == 16 * q;
    DivModUnique(16 * q, 16, q, 0);
    DivModUnique(16 * q, 8, 2 * q, 0);
  }

  lemma FilledAnnounces(idc: nat, id: nat, width: nat, height: nat, lsbMinus4: nat, intra: nat, ip: nat)
    requires idc < 32 && 1 <= ip
    ensures SpsAnnounces(SpsWritten(FilledSps(id, width, height, lsbMinus4, intra, ip)), FilledProfile(idc),
                         idc, id, width, height, lsbMinus4, intra, ip)
    ensures AnnouncesOrdering(VpsWritten(FilledVps(intra, ip)).ordering, intra, ip)
  {
    AlignedSize(width);
    AlignedSize(height);
    hide Align16;
  }

  /** The three units that the encoder packs, read by a decoder that starts at the first bit:
      each is of its type, refers to the others by their numbers, and announces what the
      options say.  In the sequence parameter set the sizes are the least multiples of 16, the
      window crops them to the frame, and there is one reference set for each position in a
      group; in the picture parameter set the initial quantiser is the one given. */
  lemma AnnouncedSets(idc: nat, id: nat, width: nat, height: nat, lsbMinus4: nat, intra: nat, ip: nat, qp: int)
    requires Options(idc, id, width, height, lsbMinus4, ip, qp)
    ensures var p := FilledProfile(idc);
            var vs := ReadVpsUnit(NalBits(NALU_VPS, VpsElems(FilledVps(intra, ip), p)));
            var ss := ReadSpsUnit(
              NalBits(NALU_SPS, SpsElems(FilledSps(id, width, height, lsbMinus4, intra, ip), p)));
            var qs := ReadPpsUnit(NalBits(NALU_PPS, PpsElems(FilledPps(id, id, qp))));
            && vs.Got? && ss.Got? && qs.Got?
            && AnnouncesProfile(vs.value.1, idc) && AnnouncesOrdering(vs.value.0.ordering, intra, ip)
            && vs.value.0.head.maxLayers == 0 && vs.value.0.head.maxSubLayers == 0
            && SpsAnnounces(ss.value.0, ss.value.1, idc, id, width, height, lsbMinus4, intra, ip)
            && ss.value.0.head.vpsId == vs.value.0.head.id
            && qs.value.head.id == id && qs.value.head.spsId == ss.value.0.format.id
            && qs.value.head.initQp + 26 == qp
            && qs.value.weights.tiles.None? && qs.value.head.qpDeltaDepth == Some(2)
  {
    hide NalBits;
    hide ReadUnitHead;
    hide ReadVps;
    hide ReadSps;
    hide ReadPps;
    hide VpsElems;
    hide SpsElems;
    hide PpsElems;
    hide SpsAnnounces;
    hide FilledSps;
    var p := FilledProfile(idc);
    var v, s, q := FilledVps(intra, ip), FilledSps(id, width, height, lsbMinus4, intra, ip), FilledPps(id, id, qp);
    FilledNumbers(id, width, height, lsbMinus4, intra, ip);
    FilledSetsReadBack(idc, id, width, height, lsbMinus4, intra, ip, qp);
    UnitSaysItsType(NALU_VPS, VpsElems(v, p));
    UnitSaysItsType(NALU_SPS, SpsElems(s, p));
    UnitSaysItsType(NALU_PPS, PpsElems(q));
    FilledAnnounces(idc, id, width, height, lsbMinus4, intra, ip);
  }

  lemma FilledNumbers(id: nat, width: nat, height: nat, lsbMinus4: nat, intra: nat, ip: nat)
    ensures var s := FilledSps(id, width, height, lsbMinus4, intra, ip);
            && s.head == SpsHead(0, 0, 1) && s.format.id == id && |s.depths.ordering| > 0
            && SpsWritten(s).head == s.head && SpsWritten(s).format == s.format
            && SpsWritten(s).refSets == FilledRefSets(ip, ip)
  {
  }

  /** The sets that a decoder has read are the ones that the frames of a run select: for every
      inter frame of every run, the set that the slice header's index picks from them names
      exactly the anchors around the frame, if and only if it is one of the first 64. */
  lemma DecodedSetsNameAnchors(p: Periods, e: nat, idc: nat, id: nat, width: nat, height: nat, lsbMinus4: nat, qp: int)
    requires p.Valid() && Gop(p, e) > 0 && p.intra != 1
    requires Options(idc, id, width, height, lsbMinus4, p.ip, qp)
    ensures var ss := ReadSpsUnit(
              NalBits(NALU_SPS, SpsElems(FilledSps(id, width, height, lsbMinus4, p.intra, p.ip), FilledProfile(idc))));
            var last, poc := LastAnchor(p, Gop(p, e)), TruePoc(p, e);
            && ss.Got? && |ss.value.0.refSets| == p.ip
            && (Encoder.NamedPocs(ss.value.0.refSets[poc % p.ip], poc) ==
                (if Order(p, e).1 == B then [last - p.ip, last] else [last])
                <==> poc % p.ip < Encoder.FILLED_SETS)
  {
    hide NalBits;
    hide ReadUnitHead;
    hide ReadSps;
    hide SpsElems;
    hide FilledSps;
    hide Gop;
    hide TruePoc;
    hide Order;
    hide LastAnchor;
    hide Encoder.NamedPocs;
    hide Encoder.RefSetFor;
    var s, prof := FilledSps(id, width, height, lsbMinus4, p.intra, p.ip), FilledProfile(idc);
    FilledNumbers(id, width, height, lsbMinus4, p.intra, p.ip);
    FilledSetsReadBack(idc, id, width, height, lsbMinus4, p.intra, p.ip, qp);
    UnitSaysItsType(NALU_SPS, SpsElems(s, prof));
    Encoder.SignalledReferencesAreHeld(p, e);
  }
}
