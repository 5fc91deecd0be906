/** Reading parameter sets: the syntax tables of sections 7.3.2.1 to 7.3.2.3, 7.3.3 and
    7.3.7 of ITU-T H.265. What is switched off in the printers is not decoded. */
module HevcDecoder {
  import opened HevcBits
  import opened HevcExpGolomb
  import opened HevcParamSets

  function Num(e: Elem): nat {
    match e
    case U(_, val) => val
    case Ue(val) => val
    case Se(_) => 0
  }

  function Nums(es: seq<Elem>): (ns: seq<nat>)
    ensures |ns| == |es| && forall i :: 0 <= i < |es| ==> ns[i] == Num(es[i])
  {
    seq(|es|, i requires 0 <= i < |es| => Num(es[i]))
  }

  function Repeat(k: Kind, n: nat): (ks: seq<Kind>)
    ensures |ks| == n && forall i :: 0 <= i < n ==> ks[i] == k
  {
    seq(n, _ => k)
  }

  // ---------------------------------------------------------------- byte stream and nal_unit_header

  /** The start of a unit in a byte stream (section B.2.1): three bytes that end in a one, with
      a zero byte in front or not. The result is its length. */
  function ReadStart(bs: seq<bool>): Read<nat> {
    var (n, bs1) :- ReadU(24, bs);
    if n == 1 then Got(3, bs1)
    else if n != 0 then Fail
    else
      var (one, bs2) :- ReadU(8, bs1);
      if one == 1 then Got(4, bs2) else Fail
  }

  datatype UnitHead = UnitHead(start: nat, nalType: nat, layer: nat, temporalId: nat)

  function ReadUnitHead(bs: seq<bool>): Read<UnitHead> {
    var (start, bs1) :- ReadStart(bs);
    var (es, bs2) :- ReadAll([KU(1), KU(6), KU(6), KU(3)], bs1);
    if Num(es[0]) != 0 || Num(es[3]) == 0 then Fail
    else Got(UnitHead(start, Num(es[1]), Num(es[2]), Num(es[3]) - 1), bs2)
  }

  // ---------------------------------------------------------------- profile_tier_level

  /** 43 constraint bits and one reserved bit lie between the flags and the level. */
  function ProfileKinds(): (ks: seq<Kind>)
    ensures |ks| == 42
  {
    [KU(2), KU(1), KU(5)] + Repeat(KU(1), 36) + [KU(43), KU(1), KU(8)]
  }

  function ProfileOf(es: seq<Elem>): Profile
    requires |es| == 42
  {
    Profile(Num(es[0]), Num(es[1]), Num(es[2]), Nums(es[3..35]),
            Num(es[35]), Num(es[36]), Num(es[37]), Num(es[38]), Num(es[41]))
  }

  /** What the sub-layer flags announce: 88 bits of profile, 8 bits of level. */
  function SubLayerBits(flags: seq<Elem>, n: nat): nat
    requires 2 * n <= |flags|
  {
    if n == 0 then 0 else SubLayerBits(flags, n - 1) + 88 * Num(flags[2 * n - 2]) + 8 * Num(flags[2 * n - 1])
  }

  function SkipSubLayers(maxSubLayers: nat, bs: seq<bool>): Read<()> {
    if maxSubLayers == 0 then Got((), bs)
    else if maxSubLayers > 7 then Fail
    else
      var (flags, bs1) :- ReadAll(Repeat(KU(1), 2 * maxSubLayers) + Repeat(KU(2), 8 - maxSubLayers), bs);
      var n := SubLayerBits(flags, maxSubLayers);
      if |bs1| < n then Fail else Got((), bs1[n..])
  }

  function ReadProfile(maxSubLayers: nat, bs: seq<bool>): Read<Profile> {
    var (es, bs1) :- ReadAll(ProfileKinds(), bs);
    var (_, bs2) :- SkipSubLayers(maxSubLayers, bs1);
    Got(ProfileOf(es), bs2)
  }

  // ---------------------------------------------------------------- sub-layer ordering

  function ReadOrderings(n: nat, bs: seq<bool>): (r: Read<seq<Ordering>>)
    ensures r.Got? ==> |r.value| == n
  {
    if n == 0 then Got([], bs)
    else
      var (es, bs1) :- ReadAll([KUe, KUe, KUe], bs);
      var (os, bs2) :- ReadOrderings(n - 1, bs1);
      Got([Ordering(Num(es[0]), Num(es[1]), Num(es[2]))] + os, bs2)
  }

  function OrderingCount(present: nat, maxSubLayers: nat): nat { if present != 0 then maxSubLayers + 1 else 1 }

  // ---------------------------------------------------------------- video_parameter_set_rbsp

  function ReadVpsHead(bs: seq<bool>): Read<VpsHead> {
    var (es, bs1) :- ReadAll([KU(4), KU(1), KU(1), KU(6), KU(3), KU(1), KU(16)], bs);
    Got(VpsHead(Num(es[0]), Num(es[1]), Num(es[2]), Num(es[3]), Num(es[4]), Num(es[5])), bs1)
  }

  /** The layer identifiers of `sets` further layer sets. */
  function SkipLayerSets(sets: nat, maxLayerId: nat, bs: seq<bool>): Read<()> {
    if sets == 0 then Got((), bs)
    else
      var (_, bs1) :- ReadAll(Repeat(KU(1), maxLayerId + 1), bs);
      SkipLayerSets(sets - 1, maxLayerId, bs1)
  }

  function ReadVps(bs: seq<bool>): Read<(Vps, Profile)> {
    var (head, bs1) :- ReadVpsHead(bs);
    var (profile, bs2) :- ReadProfile(head.maxSubLayers, bs1);
    var (present, bs3) :- ReadU(1, bs2);
    var (ordering, bs4) :- ReadOrderings(OrderingCount(present, head.maxSubLayers), bs3);
    var (layers, bs5) :- ReadAll([KU(6), KUe], bs4);
    var (_, bs6) :- SkipLayerSets(Num(layers[1]), Num(layers[0]), bs5);
    var (flags, bs7) :- ReadAll([KU(1), KU(1)], bs6);
    if Num(flags[0]) != 0 || Num(flags[1]) != 0 then Fail
    else Got((Vps(head, present, ordering, Num(layers[0]), Num(layers[1])), profile), bs7)
  }

  // ---------------------------------------------------------------- seq_parameter_set_rbsp

  function ReadSpsHead(bs: seq<bool>): Read<SpsHead> {
    var (es, bs1) :- ReadAll([KU(4), KU(3), KU(1)], bs);
    Got(SpsHead(Num(es[0]), Num(es[1]), Num(es[2])), bs1)
  }

  function ReadFormat(bs: seq<bool>): Read<Format> {
    var (es, bs1) :- ReadAll([KUe, KUe], bs);
    if Num(es[1]) != 3 then Got(Format(Num(es[0]), Num(es[1]), 0), bs1)
    else
      var (planes, bs2) :- ReadU(1, bs1);
      Got(Format(Num(es[0]), 3, planes), bs2)
  }

  function ReadSize(bs: seq<bool>): Read<Size> {
    var (es, bs1) :- ReadAll([KUe, KUe, KU(1)], bs);
    if Num(es[2]) == 0 then Got(Size(Num(es[0]), Num(es[1]), None), bs1)
    else
      var (ws, bs2) :- ReadAll(Repeat(KUe, 4), bs1);
      Got(Size(Num(es[0]), Num(es[1]), Some(Window(Num(ws[0]), Num(ws[1]), Num(ws[2]), Num(ws[3])))), bs2)
  }

  function ReadDepths(maxSubLayers: nat, bs: seq<bool>): Read<Depths> {
    var (es, bs1) :- ReadAll([KUe, KUe, KUe, KU(1)], bs);
    var (os, bs2) :- ReadOrderings(OrderingCount(Num(es[3]), maxSubLayers), bs1);
    Got(Depths(Num(es[0]), Num(es[1]), Num(es[2]), Num(es[3]), os), bs2)
  }

  function CodingKinds(): seq<Kind> { Repeat(KUe, 6) + Repeat(KU(1), 4) }

  function ReadCoding(bs: seq<bool>): Read<Coding> {
    var (es, bs1) :- ReadAll(CodingKinds(), bs);
    var (pcm, bs2) :- ReadPcm(Num(es[9]), bs1);
    if Num(es[6]) != 0 then Fail
    else Got(CodingOf(es, pcm), bs2)
  }

  function CodingOf(es: seq<Elem>, pcm: Option<Pcm>): Coding
    requires |es| == 10
  {
    Coding(Num(es[0]), Num(es[1]), Num(es[2]), Num(es[3]), Num(es[4]), Num(es[5]), Num(es[7]), Num(es[8]), pcm)
  }

  function ReadPcm(enabled: nat, bs: seq<bool>): Read<Option<Pcm>> {
    if enabled == 0 then Got(None, bs)
    else
      var (ps, bs1) :- ReadAll([KU(4), KU(4), KUe, KUe, KU(1)], bs);
      Got(Some(Pcm(Num(ps[0]), Num(ps[1]), Num(ps[2]), Num(ps[3]), Num(ps[4]))), bs1)
  }

  function ReadDeltas(n: nat, bs: seq<bool>): (r: Read<seq<Delta>>)
    ensures r.Got? ==> |r.value| == n
  {
    if n == 0 then Got([], bs)
    else
      var (es, bs1) :- ReadAll([KUe, KU(1)], bs);
      var (ds, bs2) :- ReadDeltas(n - 1, bs1);
      Got([Delta(Num(es[0]), Num(es[1]))] + ds, bs2)
  }

  /** st_ref_pic_set, without prediction from another set. */
  function ReadRefSet(first: bool, bs: seq<bool>): Read<RefSet> {
    var (inter, bs0) :- ReadAll(if first then [] else [KU(1)], bs);
    if !first && Num(inter[0]) != 0 then Fail
    else
      var (es, bs1) :- ReadAll([KUe, KUe], bs0);
      var (negative, bs2) :- ReadDeltas(Num(es[0]), bs1);
      var (positive, bs3) :- ReadDeltas(Num(es[1]), bs2);
      Got(RefSet(negative, positive), bs3)
  }

  function ReadRefSets(n: nat, first: bool, bs: seq<bool>): (r: Read<seq<RefSet>>)
    ensures r.Got? ==> |r.value| == n
    decreases n
  {
    if n == 0 then Got([], bs)
    else
      var (s, bs1) :- ReadRefSet(first, bs);
      var (ss, bs2) :- ReadRefSets(n - 1, false, bs1);
      Got([s] + ss, bs2)
  }

  function ReadSets(bs: seq<bool>): Read<seq<RefSet>> {
    var (n, bs1) :- ReadUe(bs);
    ReadRefSets(n, true, bs1)
  }

  /** lt_ref_pic_poc_lsb_sps is u(v), as wide as slice_pic_order_cnt_lsb. */
  function ReadLongTerms(n: nat, width: nat, bs: seq<bool>): (r: Read<seq<LongTerm>>)
    ensures r.Got? ==> |r.value| == n
    decreases n
  {
    if n == 0 then Got([], bs)
    else
      var (es, bs1) :- ReadAll([KU(width), KU(1)], bs);
      var (ls, bs2) :- ReadLongTerms(n - 1, width, bs1);
      Got([LongTerm(Num(es[0]), Num(es[1]))] + ls, bs2)
  }

  function ReadLong(width: nat, bs: seq<bool>): Read<Option<seq<LongTerm>>> {
    var (present, bs1) :- ReadU(1, bs);
    if present == 0 then Got(None, bs1)
    else
      var (n, bs2) :- ReadUe(bs1);
      var (ls, bs3) :- ReadLongTerms(n, width, bs2);
      Got(Some(ls), bs3)
  }

  function ReadSpsTail(bs: seq<bool>): Read<SpsTail> {
    var (es, bs1) :- ReadAll(Repeat(KU(1), 4), bs);
    if Num(es[2]) != 0 || Num(es[3]) != 0 then Fail
    else Got(SpsTail(Num(es[0]), Num(es[1])), bs1)
  }

  function ReadSps(bs: seq<bool>): Read<(Sps, Profile)> {
    var (head, bs1) :- ReadSpsHead(bs);
    var (profile, bs2) :- ReadProfile(head.maxSubLayers, bs1);
    var (format, bs3) :- ReadFormat(bs2);
    var (size, bs4) :- ReadSize(bs3);
    var (depths, bs5) :- ReadDepths(head.maxSubLayers, bs4);
    var (coding, bs6) :- ReadCoding(bs5);
    var (sets, bs7) :- ReadSets(bs6);
    var (long, bs8) :- ReadLong(depths.log2MaxLsbMinus4 + 4, bs7);
    var (tail, bs9) :- ReadSpsTail(bs8);
    Got((Sps(head, format, size, depths, coding, sets, long, tail), profile), bs9)
  }

  // ---------------------------------------------------------------- pic_parameter_set_rbsp

  function PpsHeadKinds(): seq<Kind> {
    [KUe, KUe, KU(1), KU(1), KU(3), KU(1), KU(1), KUe, KUe, KSe, KU(1), KU(1), KU(1)]
  }

  function Int(e: Elem): int { if e.Se? then e.sval else 0 }

  function ReadPpsHead(bs: seq<bool>): Read<PpsHead> {
    var (es, bs1) :- ReadAll(PpsHeadKinds(), bs);
    var (ds, bs2) :- ReadAll(if Num(es[12]) != 0 then [KUe] else [], bs1);
    Got(PpsHeadOf(es, if Num(es[12]) != 0 then Some(Num(ds[0])) else None), bs2)
  }

  function PpsHeadOf(es: seq<Elem>, depth: Option<nat>): PpsHead
    requires |es| == 13
  {
    PpsHead(Num(es[0]), Num(es[1]), Num(es[2]), Num(es[3]), Num(es[4]), Num(es[5]), Num(es[6]),
            Num(es[7]), Num(es[8]), Int(es[9]), Num(es[10]), Num(es[11]), depth)
  }

  function ReadTiles(bs: seq<bool>): Read<Tiles> {
    var (es, bs1) :- ReadAll([KUe, KUe, KU(1)], bs);
    var (columns, rows) := (Num(es[0]), Num(es[1]));
    var (ss, bs2) :- ReadAll(if Num(es[2]) == 0 then Repeat(KUe, columns + rows) else [], bs1);
    var (loopFilter, bs3) :- ReadU(1, bs2);
    Got(Tiles(columns, rows,
              if Num(es[2]) == 0 then Some(Spacing(Nums(ss[..columns]), Nums(ss[columns..]))) else None,
              loopFilter), bs3)
  }

  function ReadWeights(bs: seq<bool>): Read<Weights> {
    var (es, bs1) :- ReadAll([KSe, KSe] + Repeat(KU(1), 6), bs);
    if Num(es[6]) == 0 then Got(WeightsOf(es, None), bs1)
    else
      var (tiles, bs2) :- ReadTiles(bs1);
      Got(WeightsOf(es, Some(tiles)), bs2)
  }

  function WeightsOf(es: seq<Elem>, tiles: Option<Tiles>): Weights
    requires |es| == 8
  {
    Weights(Int(es[0]), Int(es[1]), Num(es[2]), Num(es[3]), Num(es[4]), Num(es[5]), Num(es[7]), tiles)
  }

  function ReadDeblocking(bs: seq<bool>): Read<Option<Deblocking>> {
    var (control, bs1) :- ReadU(1, bs);
    if control == 0 then Got(None, bs1)
    else
      var (es, bs2) :- ReadAll([KU(1), KU(1)], bs1);
      if Num(es[1]) != 0 then Got(Some(Deblocking(Num(es[0]), None)), bs2)
      else
        var (os, bs3) :- ReadAll([KSe, KSe], bs2);
        Got(Some(Deblocking(Num(es[0]), Some(Offsets(Int(os[0]), Int(os[1]))))), bs3)
  }

  function ReadPpsTail(bs: seq<bool>): Read<PpsTail> {
    var (es, bs1) :- ReadAll([KU(1), KU(1), KUe, KU(1), KU(1)], bs);
    if Num(es[0]) != 0 || Num(es[4]) != 0 then Fail
    else Got(PpsTail(Num(es[1]), Num(es[2]), Num(es[3])), bs1)
  }

  function ReadPps(bs: seq<bool>): Read<Pps> {
    var (head, bs1) :- ReadPpsHead(bs);
    var (weights, bs2) :- ReadWeights(bs1);
    var (loopFilter, bs3) :- ReadU(1, bs2);
    var (deblocking, bs4) :- ReadDeblocking(bs3);
    var (tail, bs5) :- ReadPpsTail(bs4);
    Got(Pps(head, weights, loopFilter, deblocking, tail), bs5)
  }
}
