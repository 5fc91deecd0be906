/** The parameter sets and what their printers write (sections 7.3.2.1 to 7.3.2.3, 7.3.3
    and 7.3.7 of ITU-T H.265 give the syntax they follow). */
module HevcParamSets {
  import opened HevcBits
  import opened HevcExpGolomb

  datatype Option<+T> = None | Some(value: T)

  function Present<T>(o: Option<T>): nat { if o.Some? then 1 else 0 }

  function Flags(fs: seq<nat>): (es: seq<Elem>)
    ensures |es| == |fs| && forall i :: 0 <= i < |fs| ==> es[i] == U(1, fs[i])
  {
    seq(|fs|, i requires 0 <= i < |fs| => U(1, fs[i]))
  }

  function Codes(vs: seq<nat>): (es: seq<Elem>)
    ensures |es| == |vs| && forall i :: 0 <= i < |vs| ==> es[i] == Ue(vs[i])
  {
    seq(|vs|, i requires 0 <= i < |vs| => Ue(vs[i]))
  }

  // ---------------------------------------------------------------- profile, tier and level

  datatype Profile = Profile(
    space: nat, tier: nat, idc: nat, compatibility: seq<nat>,
    progressive: nat, interlaced: nat, nonPacked: nat, frameOnly: nat, level: nat)

  /** `protier_rbsp`. */
  function ProfileElems(p: Profile): seq<Elem> {
    [U(2, p.space), U(1, p.tier), U(5, p.idc)] + Flags(p.compatibility) +
    [U(1, p.progressive), U(1, p.interlaced), U(1, p.nonPacked), U(1, p.frameOnly),
     U(16, 0), U(16, 0), U(12, 0), U(8, p.level)]
  }

  // ---------------------------------------------------------------- sub-layer ordering

  datatype Ordering = Ordering(maxDecBuffering: nat, numReorder: nat, maxLatency: nat)

  function OrderingElems(os: seq<Ordering>): seq<Elem> {
    if |os| == 0 then []
    else [Ue(os[0].maxDecBuffering), Ue(os[0].numReorder), Ue(os[0].maxLatency)] + OrderingElems(os[1..])
  }

  /** The entries the ordering loop covers. */
  function Covered(present: nat, maxSubLayers: nat, os: seq<Ordering>): seq<Ordering>
    requires maxSubLayers < |os|
  {
    os[if present != 0 then 0 else maxSubLayers..maxSubLayers + 1]
  }

  // ---------------------------------------------------------------- video parameter set

  datatype VpsHead = VpsHead(
    id: nat, baseInternal: nat, baseAvailable: nat, maxLayers: nat, maxSubLayers: nat, nesting: nat)

  /** `ordering` holds the three arrays; `numOpSets` stands where the standard has
      vps_num_layer_sets_minus1. */
  datatype Vps = Vps(head: VpsHead, orderingPresent: nat, ordering: seq<Ordering>, maxLayerId: nat, numOpSets: nat)

  /** Two flags and the layer count are written as constants. */
  function VpsHeadElems(h: VpsHead): seq<Elem> {
    [U(4, h.id), U(2, 3), U(6, 0), U(3, h.maxSubLayers), U(1, h.nesting), U(16, 0xffff)]
  }

  function VpsOrdering(v: Vps): seq<Elem>
    requires v.head.maxSubLayers < |v.ordering|
  {
    [U(1, v.orderingPresent)] + OrderingElems(Covered(v.orderingPresent, v.head.maxSubLayers, v.ordering))
  }

  function VpsLayers(v: Vps): seq<Elem> { [U(6, v.maxLayerId), Ue(v.numOpSets)] }

  /** `vps_rbsp`, with timing information off. */
  function VpsElems(v: Vps, p: Profile): seq<Elem>
    requires v.head.maxSubLayers < |v.ordering|
  {
    VpsHeadElems(v.head) + (ProfileElems(p) + (VpsOrdering(v) + (VpsLayers(v) + [U(1, 0), U(1, 0)])))
  }

  // ---------------------------------------------------------------- sequence parameter set

  datatype SpsHead = SpsHead(vpsId: nat, maxSubLayers: nat, nesting: nat)

  datatype Format = Format(id: nat, chroma: nat, separatePlanes: nat)

  datatype Window = Window(left: nat, right: nat, top: nat, bottom: nat)

  datatype Size = Size(width: nat, height: nat, window: Option<Window>)

  datatype Depths = Depths(luma: nat, chroma: nat, log2MaxLsbMinus4: nat, orderingPresent: nat, ordering: seq<Ordering>)

  datatype Pcm = Pcm(depthLuma: nat, depthChroma: nat, minCb: nat, diffCb: nat, loopFilter: nat)

  datatype Coding = Coding(
    minCb: nat, diffCb: nat, minTb: nat, diffTb: nat, depthInter: nat, depthIntra: nat,
    amp: nat, sao: nat, pcm: Option<Pcm>)

  datatype Delta = Delta(pocMinus1: nat, used: nat)

  datatype RefSet = RefSet(negative: seq<Delta>, positive: seq<Delta>)

  datatype LongTerm = LongTerm(lsb: nat, used: nat)

  datatype SpsTail = SpsTail(temporalMvp: nat, strongSmoothing: nat)

  datatype Sps = Sps(
    head: SpsHead, format: Format, size: Size, depths: Depths, coding: Coding,
    refSets: seq<RefSet>, longTerm: Option<seq<LongTerm>>, tail: SpsTail)

  function SpsHeadElems(h: SpsHead): seq<Elem> { [U(4, h.vpsId), U(3, h.maxSubLayers), U(1, h.nesting)] }

  function FormatElems(f: Format): seq<Elem> {
    [Ue(f.id), Ue(f.chroma)] + (if f.chroma == 3 then [U(1, f.separatePlanes)] else [])
  }

  function SizeElems(s: Size): seq<Elem> {
    [Ue(s.width), Ue(s.height), U(1, Present(s.window))] + WindowElems(s.window)
  }

  function WindowElems(w: Option<Window>): seq<Elem> {
    match w
    case None => []
    case Some(w) => [Ue(w.left), Ue(w.right), Ue(w.top), Ue(w.bottom)]
  }

  function DepthsElems(d: Depths, maxSubLayers: nat): seq<Elem>
    requires maxSubLayers < |d.ordering|
  {
    [Ue(d.luma), Ue(d.chroma), Ue(d.log2MaxLsbMinus4), U(1, d.orderingPresent)] +
    OrderingElems(Covered(d.orderingPresent, maxSubLayers, d.ordering))
  }

  function CodingElems(c: Coding): seq<Elem> {
    [Ue(c.minCb), Ue(c.diffCb), Ue(c.minTb), Ue(c.diffTb), Ue(c.depthInter), Ue(c.depthIntra),
     U(1, 0), U(1, c.amp), U(1, c.sao), U(1, Present(c.pcm))] + PcmElems(c.pcm)
  }

  function PcmElems(p: Option<Pcm>): seq<Elem> {
    match p
    case None => []
    case Some(p) => [U(4, p.depthLuma), U(4, p.depthChroma), Ue(p.minCb), Ue(p.diffCb), U(1, p.loopFilter)]
  }

  function DeltaElems(ds: seq<Delta>): seq<Elem> {
    if |ds| == 0 then [] else [Ue(ds[0].pocMinus1), U(1, ds[0].used)] + DeltaElems(ds[1..])
  }

  /** `pack_short_term_ref_pic_setp`. */
  function RefSetElems(r: RefSet, first: bool): seq<Elem> {
    (if first then [] else [U(1, 0)]) +
    ([Ue(|r.negative|), Ue(|r.positive|)] + (DeltaElems(r.negative) + DeltaElems(r.positive)))
  }

  function RefSetsElems(rs: seq<RefSet>, first: bool): seq<Elem> {
    if |rs| == 0 then [] else RefSetElems(rs[0], first) + RefSetsElems(rs[1..], false)
  }

  function SetsElems(rs: seq<RefSet>): seq<Elem> { [Ue(|rs|)] + RefSetsElems(rs, true) }

  /** The printer's long-term entries: ue(v) where the standard has u(v). */
  function LongTermElems(ls: seq<LongTerm>): seq<Elem> {
    if |ls| == 0 then [] else [Ue(ls[0].lsb), U(1, ls[0].used)] + LongTermElems(ls[1..])
  }

  function LongElems(l: Option<seq<LongTerm>>): seq<Elem> {
    match l
    case None => [U(1, 0)]
    case Some(ls) => [U(1, 1), Ue(|ls|)] + LongTermElems(ls)
  }

  function SpsTailElems(t: SpsTail): seq<Elem> { [U(1, t.temporalMvp), U(1, t.strongSmoothing), U(1, 0), U(1, 0)] }

  /** `sps_rbsp`, with scaling lists, VUI and extension off. */
  function SpsElems(s: Sps, p: Profile): seq<Elem>
    requires s.head.maxSubLayers < |s.depths.ordering|
  {
    SpsHeadElems(s.head) + (ProfileElems(p) + (FormatElems(s.format) + (SizeElems(s.size) +
    (DepthsElems(s.depths, s.head.maxSubLayers) + (CodingElems(s.coding) + (SetsElems(s.refSets) +
    (LongElems(s.longTerm) + SpsTailElems(s.tail))))))))
  }

  // ---------------------------------------------------------------- picture parameter set

  datatype PpsHead = PpsHead(
    id: nat, spsId: nat, dependentSlices: nat, outputFlag: nat, extraBits: nat, signHiding: nat, cabacInit: nat,
    l0: nat, l1: nat, initQp: int, constrainedIntra: nat, transformSkip: nat, qpDeltaDepth: Option<nat>)

  datatype Spacing = Spacing(widths: seq<nat>, heights: seq<nat>)

  datatype Tiles = Tiles(columns: nat, rows: nat, spacing: Option<Spacing>, loopFilter: nat)

  datatype Weights = Weights(
    cbQp: int, crQp: int, sliceChromaQp: nat, weightedPred: nat, weightedBipred: nat,
    transquantBypass: nat, entropySync: nat, tiles: Option<Tiles>)

  datatype Offsets = Offsets(beta: int, tc: int)

  datatype Deblocking = Deblocking(override: nat, offsets: Option<Offsets>)

  datatype PpsTail = PpsTail(listsModification: nat, mergeLevel: nat, sliceExtension: nat)

  datatype Pps = Pps(
    head: PpsHead, weights: Weights, loopFilterSlices: nat, deblocking: Option<Deblocking>, tail: PpsTail)

  function PpsFlags(h: PpsHead): seq<Elem> {
    [Ue(h.id), Ue(h.spsId), U(1, h.dependentSlices), U(1, h.outputFlag), U(3, h.extraBits), U(1, h.signHiding),
     U(1, h.cabacInit), Ue(h.l0), Ue(h.l1), Se(h.initQp), U(1, h.constrainedIntra), U(1, h.transformSkip),
     U(1, Present(h.qpDeltaDepth))]
  }

  function PpsHeadElems(h: PpsHead): seq<Elem> {
    PpsFlags(h) + (if h.qpDeltaDepth.Some? then [Ue(h.qpDeltaDepth.value)] else [])
  }

  function WeightFlags(w: Weights): seq<Elem> {
    [Se(w.cbQp), Se(w.crQp), U(1, w.sliceChromaQp), U(1, w.weightedPred), U(1, w.weightedBipred),
     U(1, w.transquantBypass), U(1, Present(w.tiles)), U(1, w.entropySync)]
  }

  function WeightsElems(w: Weights): seq<Elem> {
    WeightFlags(w) + (if w.tiles.Some? then TilesElems(w.tiles.value) else [])
  }

  function TilesElems(t: Tiles): seq<Elem> {
    [Ue(t.columns), Ue(t.rows), U(1, 1 - Present(t.spacing))] + (SpacingElems(t.spacing) + [U(1, t.loopFilter)])
  }

  function SpacingElems(s: Option<Spacing>): seq<Elem> {
    match s
    case None => []
    case Some(s) => Codes(s.widths + s.heights)
  }

  function DeblockingElems(d: Option<Deblocking>): seq<Elem> {
    match d
    case None => [U(1, 0)]
    case Some(d) => [U(1, 1), U(1, d.override), U(1, 1 - Present(d.offsets))] + OffsetsElems(d.offsets)
  }

  function OffsetsElems(o: Option<Offsets>): seq<Elem> {
    match o
    case None => []
    case Some(o) => [Se(o.beta), Se(o.tc)]
  }

  function PpsTailElems(t: PpsTail): seq<Elem> {
    [U(1, 0), U(1, t.listsModification), Ue(t.mergeLevel), U(1, t.sliceExtension), U(1, 0)]
  }

  /** `pps_rbsp`, with scaling lists and extensions off. */
  function PpsElems(p: Pps): seq<Elem> {
    PpsHeadElems(p.head) + (WeightsElems(p.weights) + ([U(1, p.loopFilterSlices)] +
    (DeblockingElems(p.deblocking) + PpsTailElems(p.tail))))
  }
}
