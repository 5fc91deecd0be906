/** The parameter sets that the encoder fills in: they are in range, and they need nothing
    that the printers drop, so every one of them is read back. */
module HevcFill {
  import opened HevcBits
  import opened HevcExpGolomb
  import opened HevcParamSets
  import opened HevcDecoder
  import opened HevcRoundTrip
  import opened HevcSpsRoundTrip
  import opened HevcPrinters
  import opened HevcBitstream
  import Encoder = HevcEncoder

  const MAX_TEMPORAL_SUBLAYERS := 8

  /** The length of the array of reference sets. */
  const SETS_ROOM := 66

  /** `fill_profile_tier_level`. */
  function FilledProfile(idc: nat): Profile
    requires idc < 32
  {
    Profile(0, 0, idc, seq(32, i => if i == idc then 1 else 0), 1, 0, 0, 1, 120)
  }

  function FilledOrdering(intra: nat, ip: nat): (os: seq<Ordering>)
    ensures |os| == MAX_TEMPORAL_SUBLAYERS
  {
    seq(MAX_TEMPORAL_SUBLAYERS, _ => Ordering(if intra == 1 then 1 else 6, if ip != 0 then ip - 1 else 0, 0))
  }

  /** `fill_vps_header`. */
  function FilledVps(intra: nat, ip: nat): Vps {
    Vps(VpsHead(0, 1, 1, 0, 0, 1), 0, FilledOrdering(intra, ip), 0, 0)
  }

  function Align16(n: nat): nat { (n + 15) / 16 * 16 }

  /** The reference sets, one for each position in a group of frames. */
  function FilledRefSets(ip: nat, n: nat): (rs: seq<RefSet>)
    requires n <= ip
    ensures |rs| == n && forall i :: 0 <= i < n ==> rs[i] == Encoder.RefSetFor(ip, i)
  {
    seq(n, i requires 0 <= i < n => Encoder.RefSetFor(ip, i))
  }

  /** `fill_sps_header`; the result of the logarithm for the POC bits is an input. */
  function FilledSps(id: nat, width: nat, height: nat, lsbMinus4: nat, intra: nat, ip: nat): Sps {
    var w, h := Align16(width), Align16(height);
    Sps(SpsHead(0, 0, 1), Format(id, 1, 0),
        Size(w, h, if w != width || h != height then Some(Window(0, (w - width) / 2, 0, (h - height) / 2)) else None),
        Depths(0, 0, lsbMinus4, 0, FilledOrdering(intra, ip)),
        Coding(0, 2, 0, 3, 2, 2, 1, 1, None),
        FilledRefSets(ip, ip), None, SpsTail(1, 0))
  }

  /** `fill_pps_header`. */
  function FilledPps(id: nat, spsId: nat, initialQp: int): Pps {
    Pps(PpsHead(id, spsId, 0, 0, 0, 0, 1, 0, 0, initialQp - 26, 0, 0, Some(2)),
        Weights(0, 0, 0, 0, 0, 0, 0, None), 0, Some(Deblocking(0, Some(Offsets(2, 0)))), PpsTail(0, 0, 0))
  }

  /** What the options allow: a profile number of five bits, no more reference sets than there
      is room for, sizes and numbers whose codes the writer can form. */
  predicate Options(idc: nat, id: nat, width: nat, height: nat, lsbMinus4: nat, ip: nat, qp: int) {
    && idc < 32 && 1 <= ip <= SETS_ROOM
    && width < 0x4000_0000 && height < 0x4000_0000
    && id < 0x4000_0000 && lsbMinus4 < 0x4000_0000 && -0x2000_0000 < qp < 0x2000_0000
  }

  lemma JoinFitting(a: seq<Elem>, b: seq<Elem>)
    requires AllFitting(a) && AllFitting(b)
    ensures AllFitting(a + b)
  {
  }

  lemma FlagPowers()
    ensures Pow2(1) == 2 && Pow2(2) == 4 && Pow2(3) == 8 && Pow2(4) == 16 && Pow2(5) == 32 && Pow2(6) == 64
    ensures Pow2(8) == 256 && Pow2(12) == 4096 && Pow2(16) == 0x1_0000
  {
    Pow2Of32();
    assert Pow2(6) == 64;
  }

  lemma ProfileFits(idc: nat)
    requires idc < 32
    ensures AllFitting(ProfileElems(FilledProfile(idc))) && ProfileShape(FilledProfile(idc))
  {
    hide Pow2;
    FlagPowers();
    var p := FilledProfile(idc);
    var tail := [U(1, p.progressive), U(1, p.interlaced), U(1, p.nonPacked), U(1, p.frameOnly), U(16, 0), U(16, 0),
      U(12, 0), U(8, p.level)];
    JoinFitting([U(2, p.space), U(1, p.tier), U(5, p.idc)], Flags(p.compatibility));
    JoinFitting([U(2, p.space), U(1, p.tier), U(5, p.idc)] + Flags(p.compatibility), tail);
  }

  lemma OrderingFits(intra: nat, ip: nat)
    requires ip <= SETS_ROOM
    ensures var os := Covered(0, 0, FilledOrdering(intra, ip)); |os| == 1 && AllFitting(OrderingElems(os))
  {
    var os := Covered(0, 0, FilledOrdering(intra, ip));
    assert os[1..] == [];
    var o := os[0];
    assert OrderingElems(os) == [Ue(o.maxDecBuffering), Ue(o.numReorder), Ue(o.maxLatency)];
  }

  lemma VpsFits(intra: nat, ip: nat, idc: nat)
    requires ip <= SETS_ROOM && idc < 32
    ensures AllFitting(VpsElems(FilledVps(intra, ip), FilledProfile(idc)))
  {
    hide ProfileElems;
    hide OrderingElems;
    hide Pow2;
    FlagPowers();
    ProfileFits(idc);
    OrderingFits(intra, ip);
    var v, p := FilledVps(intra, ip), FilledProfile(idc);
    var end := [U(1, 0), U(1, 0)];
    JoinFitting([U(1, 0)], OrderingElems(Covered(0, 0, v.ordering)));
    JoinFitting(VpsLayers(v), end);
    JoinFitting(VpsOrdering(v), VpsLayers(v) + end);
    JoinFitting(ProfileElems(p), VpsOrdering(v) + (VpsLayers(v) + end));
    JoinFitting(VpsHeadElems(v.head), ProfileElems(p) + (VpsOrdering(v) + (VpsLayers(v) + end)));
  }

  lemma {:induction false} RefSetsFit(ip: nat, rs: seq<RefSet>, first: bool)
    requires 1 <= ip <= SETS_ROOM
    requires forall r :: r in rs ==> exists i: nat :: i < ip && r == Encoder.RefSetFor(ip, i)
    ensures AllFitting(RefSetsElems(rs, first))
    decreases |rs|
  {
    hide RefSetElems;
    if |rs| == 0 {
    } else {
      assert rs[0] in rs;
      var i: nat :| i < ip && rs[0] == Encoder.RefSetFor(ip, i);
      RefSetFits(ip, i, first);
      assert forall r :: r in rs[1..] ==> r in rs;
      RefSetsFit(ip, rs[1..], false);
      JoinFitting(RefSetElems(rs[0], first), RefSetsElems(rs[1..], false));
    }
  }

  lemma RefSetFits(ip: nat, i: nat, first: bool)
    requires i < ip <= SETS_ROOM
    ensures AllFitting(RefSetElems(Encoder.RefSetFor(ip, i), first))
  {
    hide DeltaElems;
    hide Pow2;
    FlagPowers();
    var r := Encoder.RefSetFor(ip, i);
    DeltasFit(r.negative);
    DeltasFit(r.positive);
    var counts := [Ue(|r.negative|), Ue(|r.positive|)];
    JoinFitting(DeltaElems(r.negative), DeltaElems(r.positive));
    JoinFitting(counts, DeltaElems(r.negative) + DeltaElems(r.positive));
    JoinFitting(if first then [] else [U(1, 0)], counts + (DeltaElems(r.negative) + DeltaElems(r.positive)));
  }

  lemma DeltasFit(ds: seq<Delta>)
    requires |ds| <= 1 && forall d :: d in ds ==> d.pocMinus1 < SETS_ROOM && d.used == 1
    ensures AllFitting(DeltaElems(ds))
  {
    hide Pow2;
    FlagPowers();
    if |ds| == 1 {
      assert ds[0] in ds;
      assert DeltaElems(ds[1..]) == [];
    }
  }

  lemma SpsFits(idc: nat, id: nat, width: nat, height: nat, lsbMinus4: nat, intra: nat, ip: nat, qp: int)
    requires Options(idc, id, width, height, lsbMinus4, ip, qp)
    ensures var s := FilledSps(id, width, height, lsbMinus4, intra, ip);
            AllFitting(SpsElems(s, FilledProfile(idc))) && SpsShape(s, FilledProfile(idc))
  {
    hide SpsElems;
    hide Pow2;
    hide ProfileElems;
    hide OrderingElems;
    hide RefSetsElems;
    hide AllFitting;
    FlagPowers();
    ProfileFits(idc);
    OrderingFits(intra, ip);
    var s, p := FilledSps(id, width, height, lsbMinus4, intra, ip), FilledProfile(idc);
    RefSetsFit(ip, s.refSets, true);
    HeadAndTailFit(s);
    var depths := [Ue(0), Ue(0), Ue(lsbMinus4), U(1, 0)];
    JoinFitting(depths, OrderingElems(Covered(0, 0, s.depths.ordering)));
    JoinFitting([Ue(|s.refSets|)], RefSetsElems(s.refSets, true));
    SpsElemsInParts(s, p);
    var e := AfterSets(s);
    JoinFitting(LongElems(s.longTerm), SpsTailElems(s.tail));
    var d := SetsElems(s.refSets) + e;
    JoinFitting(SetsElems(s.refSets), e);
    var c := CodingElems(s.coding) + d;
    JoinFitting(CodingElems(s.coding), d);
    var b := DepthsElems(s.depths, 0) + c;
    JoinFitting(DepthsElems(s.depths, 0), c);
    JoinFitting(SizeElems(s.size), b);
    JoinFitting(FormatElems(s.format), SizeElems(s.size) + b);
    JoinFitting(ProfileElems(p), AfterProfile(s, e));
    JoinFitting(SpsHeadElems(s.head), ProfileElems(p) + AfterProfile(s, e));
  }

  /** The sections of fixed shape. */
  lemma HeadAndTailFit(s: Sps)
    requires s.head == SpsHead(0, 0, 1) && s.format.chroma == 1 && s.format.id < 0x4000_0000
    requires s.size.width < 0x4000_0010 && s.size.height < 0x4000_0010
    requires s.size.window.Some? ==>
               && s.size.window.value.left == 0 && s.size.window.value.right < 16
               && s.size.window.value.top == 0 && s.size.window.value.bottom < 16
    requires s.coding == Coding(0, 2, 0, 3, 2, 2, 1, 1, None) && s.longTerm.None? && s.tail == SpsTail(1, 0)
    requires s.depths.log2MaxLsbMinus4 < 0x4000_0000 && |s.refSets| <= SETS_ROOM
    ensures AllFitting(SpsHeadElems(s.head)) && AllFitting(FormatElems(s.format)) && AllFitting(SizeElems(s.size))
    ensures AllFitting([Ue(0), Ue(0), Ue(s.depths.log2MaxLsbMinus4), U(1, 0)]) && AllFitting([Ue(|s.refSets|)])
    ensures AllFitting(CodingElems(s.coding)) && AllFitting(LongElems(s.longTerm)) && AllFitting(SpsTailElems(s.tail))
  {
    hide Pow2;
    FlagPowers();
  }

  lemma PpsFits(id: nat, spsId: nat, qp: int)
    requires id < 0x4000_0000 && spsId < 0x4000_0000 && -0x2000_0000 < qp < 0x2000_0000
    ensures AllFitting(PpsElems(FilledPps(id, spsId, qp))) && PpsShape(FilledPps(id, spsId, qp))
  {
    hide PpsTailElems;
    hide DeblockingElems;
    hide WeightsElems;
    hide PpsHeadElems;
    hide Pow2;
    FlagPowers();
    var q := FilledPps(id, spsId, qp);
    PpsPartsFit(q);
    var d := DeblockingElems(q.deblocking) + PpsTailElems(q.tail);
    JoinFitting(DeblockingElems(q.deblocking), PpsTailElems(q.tail));
    JoinFitting([U(1, 0)], d);
    JoinFitting(WeightsElems(q.weights), [U(1, 0)] + d);
    JoinFitting(PpsHeadElems(q.head), WeightsElems(q.weights) + ([U(1, 0)] + d));
  }

  lemma PpsPartsFit(q: Pps)
    requires q == FilledPps(q.head.id, q.head.spsId, q.head.initQp + 26)
    requires q.head.id < 0x4000_0000 && q.head.spsId < 0x4000_0000 && -0x3000_0000 < q.head.initQp < 0x3000_0000
    ensures AllFitting(PpsHeadElems(q.head)) && AllFitting(WeightsElems(q.weights))
    ensures AllFitting(DeblockingElems(q.deblocking)) && AllFitting(PpsTailElems(q.tail))
  {
    hide Pow2;
    FlagPowers();
  }

  /** Whatever the options, the three sets that the encoder fills in and packs are recovered
      from their buffers by a decoder that follows the standard. */
  lemma FilledSetsReadBack(idc: nat, id: nat, width: nat, height: nat, lsbMinus4: nat, intra: nat, ip: nat, qp: int)
    requires Options(idc, id, width, height, lsbMinus4, ip, qp)
    ensures var p := FilledProfile(idc);
            var v, s, q := FilledVps(intra, ip), FilledSps(id, width, height, lsbMinus4, intra, ip),
              FilledPps(id, id, qp);
            && |NalBits(NALU_VPS, VpsElems(v, p))| >= 48
            && (exists z: nat ::
                ReadVps(NalBits(NALU_VPS, VpsElems(v, p))[48..]) ==
                Got((VpsWritten(v), p), [true] + Zeros(z)))
            && |NalBits(NALU_SPS, SpsElems(s, p))| >= 48
            && (exists z: nat ::
                ReadSps(NalBits(NALU_SPS, SpsElems(s, p))[48..]) ==
                Got((SpsWritten(s), p), [true] + Zeros(z)))
            && |NalBits(NALU_PPS, PpsElems(q))| >= 48
            && (exists z: nat :: ReadPps(NalBits(NALU_PPS, PpsElems(q))[48..]) == Got(q, [true] + Zeros(z)))
  {
    hide AllFitting;
    hide InRange;
    hide NalBits;
    hide ReadVps;
    hide ReadSps;
    hide ReadPps;
    hide VpsElems;
    hide SpsElems;
    hide PpsElems;
    var p := FilledProfile(idc);
    var v, s, q := FilledVps(intra, ip), FilledSps(id, width, height, lsbMinus4, intra, ip), FilledPps(id, id, qp);
    ProfileFits(idc);
    VpsFits(intra, ip, idc);
    SpsFits(idc, id, width, height, lsbMinus4, intra, ip, qp);
    PpsFits(id, id, qp);
    FittingInRange(VpsElems(v, p));
    FittingInRange(SpsElems(s, p));
    FittingInRange(PpsElems(q));
    assert VpsRead(v) == VpsWritten(v);
    UnitsReadBack(v, s, q, p);
  }
}
