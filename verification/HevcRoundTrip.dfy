/** Reading back what the printers wrote: it works for every picture parameter set, and for
    a video or sequence parameter set exactly when no field the printer drops or mis-codes
    is in use. */
module HevcRoundTrip {
  import opened HevcBits
  import opened HevcExpGolomb
  import opened HevcParamSets
  import opened HevcDecoder

  /** Every u(n) field fits its n bits. */
  predicate InRange(es: seq<Elem>) { forall e :: e in es && e.U? ==> e.val < Pow2(e.size) }

  lemma Split(a: seq<Elem>, b: seq<Elem>, rest: seq<bool>)
    ensures AllBits(a + b) + rest == AllBits(a) + (AllBits(b) + rest)
    ensures InRange(a + b) ==> InRange(a) && InRange(b)
  {
    hide AllBits;
    AllBitsAppend(a, b);
    assert forall e :: e in a ==> e in a + b;
    assert forall e :: e in b ==> e in a + b;
  }

  /** A run of elements followed by more. */
  lemma ReadRun(a: seq<Elem>, ks: seq<Kind>, b: seq<Elem>, rest: seq<bool>)
    requires InRange(a + b) && ks == Kinds(a)
    ensures InRange(b) && ReadAll(ks, AllBits(a + b) + rest) == Got(a, AllBits(b) + rest)
  {
    hide AllBits;
    hide ReadAll;
    Split(a, b, rest);
    ListRoundTrip(a, ks, AllBits(b) + rest);
  }

  lemma ReadOne(n: nat, v: nat, b: seq<Elem>, rest: seq<bool>)
    requires InRange([U(n, v)] + b)
    ensures InRange(b) && ReadU(n, AllBits([U(n, v)] + b) + rest) == Got(v, AllBits(b) + rest)
  {
    hide ReadU;
    hide AllBits;
    Split([U(n, v)], b, rest);
    AllBitsOf(U(n, v));
    assert U(n, v) in [U(n, v)] + b;
    URoundTrip(n, v, AllBits(b) + rest);
  }

  lemma ReadCode(v: nat, b: seq<Elem>, rest: seq<bool>)
    requires InRange([Ue(v)] + b)
    ensures InRange(b) && ReadUe(AllBits([Ue(v)] + b) + rest) == Got(v, AllBits(b) + rest)
  {
    hide ReadUe;
    hide AllBits;
    Split([Ue(v)], b, rest);
    AllBitsOf(Ue(v));
    UeRoundTrip(v, AllBits(b) + rest);
  }

  lemma AllBitsOf(e: Elem)
    ensures AllBits([e]) == ElemBits(e)
  {
    assert [e][1..] == [];
    assert ElemBits(e) + [] == ElemBits(e);
  }

  // ---------------------------------------------------------------- common parts

  predicate ProfileShape(p: Profile) { |p.compatibility| == 32 }

  /** The profile as the standard lays it out: the printer's 16 + 16 + 12 zeros are its 43 + 1. */
  function StandardProfile(p: Profile): seq<Elem> {
    [U(2, p.space), U(1, p.tier), U(5, p.idc)] + Flags(p.compatibility) +
    ([U(1, p.progressive), U(1, p.interlaced), U(1, p.nonPacked), U(1, p.frameOnly)] +
      [U(43, 0), U(1, 0), U(8, p.level)])
  }

  lemma AllBitsOfList(e: Elem, es: seq<Elem>)
    ensures AllBits([e] + es) == ElemBits(e) + AllBits(es)
  {
    assert ([e] + es)[1..] == es;
  }

  lemma ReservedBits(v: nat)
    ensures AllBits([U(16, 0), U(16, 0), U(12, 0), U(8, v)]) == AllBits([U(43, 0), U(1, 0), U(8, v)])
  {
    hide AllBits;
    hide Bits;
    var l := [U(8, v)];
    AllBitsOfList(U(12, 0), l);
    AllBitsOfList(U(16, 0), [U(12, 0)] + l);
    AllBitsOfList(U(16, 0), [U(16, 0)] + ([U(12, 0)] + l));
    AllBitsOfList(U(1, 0), l);
    AllBitsOfList(U(43, 0), [U(1, 0)] + l);
    BitsOfZero(16);
    BitsOfZero(12);
    BitsOfZero(43);
    BitsOfZero(1);
    assert [U(16, 0)] + ([U(16, 0)] + ([U(12, 0)] + l)) == [U(16, 0), U(16, 0), U(12, 0), U(8, v)];
    assert [U(43, 0)] + ([U(1, 0)] + l) == [U(43, 0), U(1, 0), U(8, v)];
    assert Zeros(16) + (Zeros(16) + (Zeros(12) + AllBits(l))) == Zeros(43) + (Zeros(1) + AllBits(l));
  }

  lemma SameProfileBits(p: Profile)
    ensures AllBits(ProfileElems(p)) == AllBits(StandardProfile(p))
    ensures InRange(ProfileElems(p)) ==> InRange(StandardProfile(p))
  {
    hide AllBits;
    var head := [U(2, p.space), U(1, p.tier), U(5, p.idc)] + Flags(p.compatibility);
    var flags := [U(1, p.progressive), U(1, p.interlaced), U(1, p.nonPacked), U(1, p.frameOnly)];
    var written, standard := [U(16, 0), U(16, 0), U(12, 0), U(8, p.level)], [U(43, 0), U(1, 0), U(8, p.level)];
    assert ProfileElems(p) == head + (flags + written);
    AllBitsAppend(head, flags + written);
    AllBitsAppend(flags, written);
    AllBitsAppend(head, flags + standard);
    AllBitsAppend(flags, standard);
    ReservedBits(p.level);
    assert forall e :: e in StandardProfile(p) ==> e in ProfileElems(p) || e == U(43, 0) || e == U(1, 0);
  }

  lemma ProfileBack(p: Profile, rest: seq<bool>)
    requires InRange(ProfileElems(p)) && ProfileShape(p)
    ensures ReadAll(ProfileKinds(), AllBits(ProfileElems(p)) + rest).Got?
    ensures ReadAll(ProfileKinds(), AllBits(ProfileElems(p)) + rest).rest == rest
    ensures ProfileOf(ReadAll(ProfileKinds(), AllBits(ProfileElems(p)) + rest).value) == p
  {
    hide AllBits;
    hide ReadAll;
    hide StandardProfile;
    hide ProfileElems;
    hide ProfileKinds;
    hide ProfileOf;
    SameProfileBits(p);
    StandardProfileIs(p);
    ListRoundTrip(StandardProfile(p), ProfileKinds(), rest);
  }

  lemma StandardProfileIs(p: Profile)
    requires ProfileShape(p)
    ensures Kinds(StandardProfile(p)) == ProfileKinds() && |StandardProfile(p)| == 42
    ensures ProfileOf(StandardProfile(p)) == p
  {
    assert Nums(StandardProfile(p)[3..35]) == p.compatibility;
  }

  lemma {:induction false} OrderingsBack(os: seq<Ordering>, rest: seq<bool>)
    ensures ReadOrderings(|os|, AllBits(OrderingElems(os)) + rest) == Got(os, rest)
    decreases |os|
  {
    hide ReadAll;
    hide AllBits;
    if |os| > 0 {
      var e := [Ue(os[0].maxDecBuffering), Ue(os[0].numReorder), Ue(os[0].maxLatency)];
      OnlyCodes(os);
      assert [KUe, KUe, KUe] == Kinds(e);
      ReadRun(e, [KUe, KUe, KUe], OrderingElems(os[1..]), rest);
      OrderingsBack(os[1..], rest);
      assert os == [Ordering(os[0].maxDecBuffering, os[0].numReorder, os[0].maxLatency)] + os[1..];
    } else {
      NoBits(rest);
    }
  }

  lemma NoBits(rest: seq<bool>)
    ensures AllBits([]) + rest == rest
  {
  }

  lemma {:induction false} OnlyCodes(os: seq<Ordering>)
    ensures InRange(OrderingElems(os))
    decreases |os|
  {
    if |os| == 0 {
    } else {
      OnlyCodes(os[1..]);
    }
  }

  // ---------------------------------------------------------------- picture parameter set

  predicate PpsShape(p: Pps) { p.weights.tiles.Some? ==> TilesShape(p.weights.tiles.value) }

  /** The printer's loops cover the whole of the two tile arrays. */
  predicate TilesShape(t: Tiles) {
    t.spacing.Some? ==> |t.spacing.value.widths| == t.columns && |t.spacing.value.heights| == t.rows
  }

  lemma PpsFlagsAre(h: PpsHead)
    ensures Kinds(PpsFlags(h)) == PpsHeadKinds()
    ensures PpsHeadOf(PpsFlags(h), h.qpDeltaDepth) == h && Num(PpsFlags(h)[12]) == Present(h.qpDeltaDepth)
  {
  }

  lemma PpsHeadBack(h: PpsHead, b: seq<Elem>, rest: seq<bool>)
    requires InRange(PpsHeadElems(h) + b)
    ensures InRange(b) && ReadPpsHead(AllBits(PpsHeadElems(h) + b) + rest) == Got(h, AllBits(b) + rest)
  {
    hide AllBits;
    hide ReadAll;
    hide PpsHeadOf;
    hide PpsFlags;
    hide PpsHeadKinds;
    var a := PpsFlags(h);
    PpsFlagsAre(h);
    var more := if h.qpDeltaDepth.Some? then [Ue(h.qpDeltaDepth.value)] else [];
    assert PpsHeadElems(h) + b == a + (more + b);
    ReadRun(a, PpsHeadKinds(), more + b, rest);
    var ks := if h.qpDeltaDepth.Some? then [KUe] else [];
    assert Kinds(more) == ks;
    ReadRun(more, ks, b, rest);
  }

  lemma TilesBack(t: Tiles, b: seq<Elem>, rest: seq<bool>)
    requires InRange(TilesElems(t) + b) && TilesShape(t)
    ensures InRange(b) && ReadTiles(AllBits(TilesElems(t) + b) + rest) == Got(t, AllBits(b) + rest)
  {
    hide AllBits;
    hide ReadAll;
    hide ReadU;
    var a := [Ue(t.columns), Ue(t.rows), U(1, 1 - Present(t.spacing))];
    var s, l := SpacingElems(t.spacing), [U(1, t.loopFilter)];
    assert TilesElems(t) + b == a + (s + (l + b));
    assert Kinds(a) == [KUe, KUe, KU(1)];
    ReadRun(a, [KUe, KUe, KU(1)], s + (l + b), rest);
    var ks := if t.spacing.Some? then Repeat(KUe, t.columns + t.rows) else [];
    assert Kinds(s) == ks;
    ReadRun(s, ks, l + b, rest);
    if t.spacing.Some? {
      assert Nums(s[..t.columns]) == t.spacing.value.widths;
      assert Nums(s[t.columns..]) == t.spacing.value.heights;
    }
    ReadOne(1, t.loopFilter, b, rest);
  }

  lemma WeightFlagsAre(w: Weights)
    ensures Kinds(WeightFlags(w)) == [KSe, KSe] + Repeat(KU(1), 6)
    ensures WeightsOf(WeightFlags(w), w.tiles) == w && Num(WeightFlags(w)[6]) == Present(w.tiles)
  {
  }

  lemma WeightsBack(w: Weights, b: seq<Elem>, rest: seq<bool>)
    requires InRange(WeightsElems(w) + b) && (w.tiles.Some? ==> TilesShape(w.tiles.value))
    ensures InRange(b) && ReadWeights(AllBits(WeightsElems(w) + b) + rest) == Got(w, AllBits(b) + rest)
  {
    hide AllBits;
    hide ReadAll;
    hide ReadTiles;
    hide WeightFlags;
    hide WeightsOf;
    var a := WeightFlags(w);
    WeightFlagsAre(w);
    var ts := if w.tiles.Some? then TilesElems(w.tiles.value) else [];
    assert WeightsElems(w) + b == a + (ts + b);
    ReadRun(a, [KSe, KSe] + Repeat(KU(1), 6), ts + b, rest);
    if w.tiles.Some? {
      TilesBack(w.tiles.value, b, rest);
    } else {
      assert ts + b == b;
    }
  }

  lemma DeblockingBack(d: Option<Deblocking>, b: seq<Elem>, rest: seq<bool>)
    requires InRange(DeblockingElems(d) + b)
    ensures InRange(b) && ReadDeblocking(AllBits(DeblockingElems(d) + b) + rest) == Got(d, AllBits(b) + rest)
  {
    hide AllBits;
    hide ReadAll;
    hide ReadU;
    if d.None? {
      ReadOne(1, 0, b, rest);
    } else {
      var flags := [U(1, d.value.override), U(1, 1 - Present(d.value.offsets))];
      var os := OffsetsElems(d.value.offsets);
      assert DeblockingElems(d) + b == [U(1, 1)] + (flags + (os + b));
      ReadOne(1, 1, flags + (os + b), rest);
      assert Kinds(flags) == [KU(1), KU(1)];
      ReadRun(flags, [KU(1), KU(1)], os + b, rest);
      if d.value.offsets.Some? {
        assert Kinds(os) == [KSe, KSe];
        ReadRun(os, [KSe, KSe], b, rest);
      } else {
        assert os + b == b;
      }
    }
  }

  lemma PpsTailBack(t: PpsTail, rest: seq<bool>)
    requires InRange(PpsTailElems(t))
    ensures ReadPpsTail(AllBits(PpsTailElems(t)) + rest) == Got(t, rest)
  {
    hide AllBits;
    hide ReadAll;
    var ks := [KU(1), KU(1), KUe, KU(1), KU(1)];
    assert Kinds(PpsTailElems(t)) == ks;
    ListRoundTrip(PpsTailElems(t), ks, rest);
  }

  /** Every picture parameter set that `pps_rbsp` prints without extensions is read back. */
  lemma PpsRoundTrip(p: Pps, rest: seq<bool>)
    requires InRange(PpsElems(p)) && PpsShape(p)
    ensures ReadPps(AllBits(PpsElems(p)) + rest) == Got(p, rest)
  {
    hide AllBits;
    hide ReadPpsHead;
    hide ReadWeights;
    hide ReadU;
    hide ReadDeblocking;
    hide ReadPpsTail;
    var d := DeblockingElems(p.deblocking) + PpsTailElems(p.tail);
    var c := [U(1, p.loopFilterSlices)] + d;
    var b := WeightsElems(p.weights) + c;
    assert PpsElems(p) == PpsHeadElems(p.head) + b;
    PpsHeadBack(p.head, b, rest);
    WeightsBack(p.weights, c, rest);
    ReadOne(1, p.loopFilterSlices, d, rest);
    DeblockingBack(p.deblocking, PpsTailElems(p.tail), rest);
    PpsTailBack(p.tail, rest);
  }

  // ---------------------------------------------------------------- video parameter set

  /** What a reader can know: the constants where the printer writes constants, and the
      ordering entries that were written. */
  function VpsRead(v: Vps): Vps
    requires v.head.maxSubLayers < |v.ordering|
  {
    v.(head := v.head.(baseInternal := 1, baseAvailable := 1, maxLayers := 0),
       ordering := Covered(v.orderingPresent, v.head.maxSubLayers, v.ordering))
  }

  predicate VpsShape(v: Vps, p: Profile) { v.head.maxSubLayers < |v.ordering| && ProfileShape(p) }

  function VpsHeadRead(h: VpsHead): VpsHead { h.(baseInternal := 1, baseAvailable := 1, maxLayers := 0) }

  function StandardVpsHead(h: VpsHead): seq<Elem> {
    [U(4, h.id), U(1, 1), U(1, 1), U(6, 0), U(3, h.maxSubLayers), U(1, h.nesting), U(16, 0xffff)]
  }

  lemma VpsHeadBits(h: VpsHead)
    ensures AllBits(VpsHeadElems(h)) == AllBits(StandardVpsHead(h))
  {
    hide AllBits;
    var tail := [U(6, 0), U(3, h.maxSubLayers), U(1, h.nesting), U(16, 0xffff)];
    AllBitsOfList(U(4, h.id), [U(2, 3)] + tail);
    AllBitsOfList(U(2, 3), tail);
    AllBitsOfList(U(4, h.id), [U(1, 1)] + ([U(1, 1)] + tail));
    AllBitsOfList(U(1, 1), [U(1, 1)] + tail);
    AllBitsOfList(U(1, 1), tail);
    assert VpsHeadElems(h) == [U(4, h.id)] + ([U(2, 3)] + tail);
    assert StandardVpsHead(h) == [U(4, h.id)] + ([U(1, 1)] + ([U(1, 1)] + tail));
    assert Bits(3, 2) == [true, true] && Bits(1, 1) == [true];
    assert [true, true] + AllBits(tail) == [true] + ([true] + AllBits(tail));
  }

  lemma VpsHeadBack(h: VpsHead, b: seq<Elem>, rest: seq<bool>)
    requires InRange(VpsHeadElems(h) + b)
    ensures InRange(b) && ReadVpsHead(AllBits(VpsHeadElems(h) + b) + rest) == Got(VpsHeadRead(h), AllBits(b) + rest)
  {
    hide AllBits;
    hide ReadAll;
    Split(VpsHeadElems(h), b, rest);
    VpsHeadBits(h);
    var es := StandardVpsHead(h);
    var ks := [KU(4), KU(1), KU(1), KU(6), KU(3), KU(1), KU(16)];
    assert Kinds(es) == ks;
    assert forall e :: e in es ==> e in VpsHeadElems(h) || e == U(1, 1);
    ListRoundTrip(es, ks, AllBits(b) + rest);
  }

  /** The profile, when there are no sub-layers to describe. */
  lemma ProfilePartBack(p: Profile, b: seq<Elem>, rest: seq<bool>)
    requires InRange(ProfileElems(p) + b) && ProfileShape(p)
    ensures InRange(b) && ReadProfile(0, AllBits(ProfileElems(p) + b) + rest) == Got(p, AllBits(b) + rest)
  {
    hide AllBits;
    hide ReadAll;
    hide ProfileOf;
    hide ProfileElems;
    hide ProfileKinds;
    Split(ProfileElems(p), b, rest);
    ProfileBack(p, AllBits(b) + rest);
  }

  lemma OrderingPartBack(os: seq<Ordering>, b: seq<Elem>, rest: seq<bool>)
    requires InRange(OrderingElems(os) + b)
    ensures InRange(b) && ReadOrderings(|os|, AllBits(OrderingElems(os) + b) + rest) == Got(os, AllBits(b) + rest)
  {
    hide AllBits;
    hide ReadOrderings;
    Split(OrderingElems(os), b, rest);
    OrderingsBack(os, AllBits(b) + rest);
  }

  lemma LayersBack(layers: nat, sets: nat, b: seq<Elem>, rest: seq<bool>)
    requires InRange([U(6, layers), Ue(sets)] + b)
    ensures InRange(b)
    ensures ReadAll([KU(6), KUe], AllBits([U(6, layers), Ue(sets)] + b) + rest) ==
            Got([U(6, layers), Ue(sets)], AllBits(b) + rest)
  {
    hide AllBits;
    hide ReadAll;
    assert Kinds([U(6, layers), Ue(sets)]) == [KU(6), KUe];
    ReadRun([U(6, layers), Ue(sets)], [KU(6), KUe], b, rest);
  }

  lemma VpsEndBack(rest: seq<bool>)
    ensures ReadAll([KU(1), KU(1)], AllBits([U(1, 0), U(1, 0)]) + rest) == Got([U(1, 0), U(1, 0)], rest)
  {
    hide AllBits;
    hide ReadAll;
    var es := [U(1, 0), U(1, 0)];
    assert Kinds(es) == [KU(1), KU(1)];
    ListRoundTrip(es, [KU(1), KU(1)], rest);
  }

  /** Without temporal sub-layers and further layer sets the reader gets everything back. */
  lemma VpsBack(v: Vps, p: Profile, rest: seq<bool>)
    requires VpsShape(v, p) && InRange(VpsElems(v, p))
    requires v.head.maxSubLayers == 0 && v.numOpSets == 0
    ensures ReadVps(AllBits(VpsElems(v, p)) + rest) == Got((VpsRead(v), p), rest)
  {
    hide AllBits;
    hide ReadAll;
    hide ReadVpsHead;
    hide ReadProfile;
    hide ReadOrderings;
    hide ReadU;
    hide ProfileElems;
    hide VpsHeadElems;
    hide OrderingElems;
    var end := [U(1, 0), U(1, 0)];
    var d := VpsLayers(v) + end;
    var os := Covered(v.orderingPresent, 0, v.ordering);
    var c := OrderingElems(os) + d;
    var b := [U(1, v.orderingPresent)] + c;
    assert VpsOrdering(v) + d == b;
    VpsHeadBack(v.head, ProfileElems(p) + b, rest);
    ProfilePartBack(p, b, rest);
    ReadOne(1, v.orderingPresent, c, rest);
    assert |os| == OrderingCount(v.orderingPresent, 0);
    OrderingPartBack(os, d, rest);
    LayersBack(v.maxLayerId, v.numOpSets, end, rest);
    VpsEndBack(rest);
  }

  // ---------------------------------------------------------------- how much is consumed

  function Width(ks: seq<Kind>): nat {
    if |ks| == 0 then 0 else (match ks[0] case KU(n) => n case _ => 0) + Width(ks[1..])
  }

  lemma {:induction false} WidthAppend(ks: seq<Kind>, ls: seq<Kind>)
    ensures Width(ks + ls) == Width(ks) + Width(ls)
  {
    if |ks| == 0 {
      assert ks + ls == ls;
    } else {
      assert (ks + ls)[1..] == ks[1..] + ls;
      WidthAppend(ks[1..], ls);
    }
  }

  lemma {:induction false} WidthRepeat(m: nat, n: nat)
    ensures Width(Repeat(KU(m), n)) == m * n
  {
    if n == 0 {
    } else {
      assert Repeat(KU(m), n)[1..] == Repeat(KU(m), n - 1);
      WidthRepeat(m, n - 1);
    }
  }

  /** A run that was read was there: it took exactly its own bits. */
  lemma TookList(ks: seq<Kind>, bs: seq<bool>)
    requires ReadAll(ks, bs).Got?
    ensures |bs| == |AllBits(ReadAll(ks, bs).value)| + |ReadAll(ks, bs).rest|
    ensures Kinds(ReadAll(ks, bs).value) == ks
  {
    hide AllBits;
    hide ReadAll;
    ListCanonical(ks, bs);
  }

  lemma {:induction false} FixedWidth(es: seq<Elem>)
    requires forall k :: k in Kinds(es) ==> k.KU?
    ensures |AllBits(es)| == Width(Kinds(es))
    decreases |es|
  {
    if |es| == 0 {
    } else {
      assert Kinds(es)[0] in Kinds(es);
      assert Kinds(es)[1..] == Kinds(es[1..]);
      assert forall k :: k in Kinds(es[1..]) ==> k in Kinds(es);
      FixedWidth(es[1..]);
    }
  }

  lemma ProfileWidth()
    ensures Width(ProfileKinds()) == 96
  {
    WidthRepeat(1, 36);
    WidthAppend([KU(2), KU(1), KU(5)], Repeat(KU(1), 36));
    WidthAppend([KU(2), KU(1), KU(5)] + Repeat(KU(1), 36), [KU(43), KU(1), KU(8)]);
    ShortWidths();
  }

  lemma ShortWidths()
    ensures Width([KU(2), KU(1), KU(5)]) == 8 && Width([KU(43), KU(1), KU(8)]) == 52
  {
    assert [KU(2), KU(1), KU(5)][1..] == [KU(1), KU(5)] && [KU(1), KU(5)][1..] == [KU(5)] && [KU(5)][1..] == [];
    assert [KU(43), KU(1), KU(8)][1..] == [KU(1), KU(8)] && [KU(1), KU(8)][1..] == [KU(8)] && [KU(8)][1..] == [];
  }

  lemma ProfileBitCount(p: Profile)
    requires ProfileShape(p)
    ensures |AllBits(ProfileElems(p))| == 96
  {
    hide AllBits;
    hide Width;
    hide StandardProfile;
    hide ProfileElems;
    SameProfileBits(p);
    StandardProfileIs(p);
    FixedWidth(StandardProfile(p));
    ProfileWidth();
  }

  lemma TookProfile(maxSubLayers: nat, bs: seq<bool>)
    requires ReadProfile(maxSubLayers, bs).Got?
    ensures |bs| >= 96 + |ReadProfile(maxSubLayers, bs).rest|
    ensures maxSubLayers > 0 ==> |bs| >= 112 + |ReadProfile(maxSubLayers, bs).rest|
  {
    hide AllBits;
    hide ReadAll;
    hide Width;
    hide ProfileOf;
    TookList(ProfileKinds(), bs);
    ProfileWidth();
    FixedWidth(ReadAll(ProfileKinds(), bs).value);
    TookSubLayers(maxSubLayers, ReadAll(ProfileKinds(), bs).rest);
  }

  lemma TookSubLayers(n: nat, bs: seq<bool>)
    requires SkipSubLayers(n, bs).Got?
    ensures |bs| >= |SkipSubLayers(n, bs).rest| + (if n > 0 then 16 else 0)
  {
    hide AllBits;
    hide ReadAll;
    hide Width;
    if n > 0 {
      var ks := Repeat(KU(1), 2 * n) + Repeat(KU(2), 8 - n);
      TookList(ks, bs);
      WidthRepeat(1, 2 * n);
      WidthRepeat(2, 8 - n);
      WidthAppend(Repeat(KU(1), 2 * n), Repeat(KU(2), 8 - n));
      FixedWidth(ReadAll(ks, bs).value);
    }
  }

  lemma {:induction false} TookOrderings(n: nat, bs: seq<bool>)
    requires ReadOrderings(n, bs).Got?
    ensures |bs| == |AllBits(OrderingElems(ReadOrderings(n, bs).value))| + |ReadOrderings(n, bs).rest|
  {
    hide AllBits;
    hide ReadAll;
    NoBits(bs);
    if n == 0 {
    } else {
      var ks := [KUe, KUe, KUe];
      TookList(ks, bs);
      var es := ReadAll(ks, bs).value;
      TookOrderings(n - 1, ReadAll(ks, bs).rest);
      var os := ReadOrderings(n, bs).value;
      assert Kinds(es)[0] == KUe && Kinds(es)[1] == KUe && Kinds(es)[2] == KUe;
      assert es == [Ue(os[0].maxDecBuffering), Ue(os[0].numReorder), Ue(os[0].maxLatency)];
      AllBitsAppend(es, OrderingElems(os[1..]));
    }
  }

  lemma {:induction false} TookLayerSets(sets: nat, layers: nat, bs: seq<bool>)
    requires SkipLayerSets(sets, layers, bs).Got?
    ensures |bs| >= |SkipLayerSets(sets, layers, bs).rest| + sets
    decreases sets
  {
    hide AllBits;
    hide ReadAll;
    hide Width;
    if sets == 0 {
    } else {
      var ks := Repeat(KU(1), layers + 1);
      TookList(ks, bs);
      WidthRepeat(1, layers + 1);
      FixedWidth(ReadAll(ks, bs).value);
      TookLayerSets(sets - 1, layers, ReadAll(ks, bs).rest);
    }
  }

  lemma TookLayers(bs: seq<bool>)
    requires ReadAll([KU(6), KUe], bs).Got?
    ensures var r := ReadAll([KU(6), KUe], bs);
            |bs| == |AllBits([U(6, Num(r.value[0])), Ue(Num(r.value[1]))])| + |r.rest|
  {
    hide AllBits;
    hide ReadAll;
    var ks := [KU(6), KUe];
    TookList(ks, bs);
    var es := ReadAll(ks, bs).value;
    assert Kinds(es)[0] == KU(6) && Kinds(es)[1] == KUe;
    assert es == [U(6, Num(es[0])), Ue(Num(es[1]))];
  }

  lemma TookFlags(bs: seq<bool>)
    requires ReadAll([KU(1), KU(1)], bs).Got?
    ensures |bs| == 2 + |ReadAll([KU(1), KU(1)], bs).rest|
  {
    hide AllBits;
    hide ReadAll;
    var ks := [KU(1), KU(1)];
    TookList(ks, bs);
    FixedWidth(ReadAll(ks, bs).value);
    assert ks[1..] == [KU(1)] && [KU(1)][1..] == [];
  }

  lemma VpsHeadCount(h: VpsHead)
    ensures |AllBits(VpsHeadElems(h))| == 32
  {
    hide AllBits;
    var es := VpsHeadElems(h);
    var ks := [KU(4), KU(2), KU(6), KU(3), KU(1), KU(16)];
    assert Kinds(es) == ks;
    FixedWidth(es);
    assert ks[1..] == [KU(2), KU(6), KU(3), KU(1), KU(16)] && ks[1..][1..] == [KU(6), KU(3), KU(1), KU(16)];
    assert [KU(6), KU(3), KU(1), KU(16)][1..] == [KU(3), KU(1), KU(16)];
    assert [KU(3), KU(1), KU(16)][1..] == [KU(1), KU(16)];
    assert [KU(1), KU(16)][1..] == [KU(16)] && [KU(16)][1..] == [];
  }

  lemma VpsBitCount(v: Vps, p: Profile)
    requires VpsShape(v, p)
    ensures |AllBits(VpsElems(v, p))| ==
            131 + |AllBits(OrderingElems(Covered(v.orderingPresent, v.head.maxSubLayers, v.ordering)))| +
            |AllBits(VpsLayers(v))|
  {
    hide AllBits;
    hide VpsHeadElems;
    hide ProfileElems;
    hide OrderingElems;
    hide VpsLayers;
    VpsHeadCount(v.head);
    ProfileBitCount(p);
    var end := [U(1, 0), U(1, 0)];
    var os := OrderingElems(Covered(v.orderingPresent, v.head.maxSubLayers, v.ordering));
    AllBitsAppend(VpsLayers(v), end);
    AllBitsAppend(VpsOrdering(v), VpsLayers(v) + end);
    AllBitsAppend(ProfileElems(p), VpsOrdering(v) + (VpsLayers(v) + end));
    AllBitsAppend(VpsHeadElems(v.head), ProfileElems(p) + (VpsOrdering(v) + (VpsLayers(v) + end)));
    AllBitsAppend([U(1, v.orderingPresent)], os);
    AllBitsOf(U(1, v.orderingPresent));
    AllBitsOfList(U(1, 0), [U(1, 0)]);
    AllBitsOf(U(1, 0));
    assert [U(1, 0)] + [U(1, 0)] == end;
  }

  /** Sub-layer flags and layer sets take bits that the printer never writes. */
  lemma VpsTook(v: Vps, p: Profile, w: Vps, bs: seq<bool>, rest: seq<bool>)
    requires ReadVps(bs) == Got((w, p), rest) && ReadVpsHead(bs).Got?
    requires |bs| == 32 + |ReadVpsHead(bs).rest|
    ensures |bs| >= 131 + |AllBits(OrderingElems(w.ordering))| + |AllBits(VpsLayers(w))| + |rest|
                    + (if w.head.maxSubLayers > 0 then 16 else 0) + w.numOpSets
  {
    hide AllBits;
    hide ReadAll;
    hide ReadVpsHead;
    hide ReadProfile;
    hide ReadOrderings;
    hide SkipLayerSets;
    hide ReadU;
    var (head, bs1) := ReadVpsHead(bs).Extract();
    TookProfile(head.maxSubLayers, bs1);
    var (_, bs2) := ReadProfile(head.maxSubLayers, bs1).Extract();
    var (present, bs3) := ReadU(1, bs2).Extract();
    TookU(1, bs2);
    TookOrderings(OrderingCount(present, head.maxSubLayers), bs3);
    var (_, bs4) := ReadOrderings(OrderingCount(present, head.maxSubLayers), bs3).Extract();
    TookLayers(bs4);
    var (layers, bs5) := ReadAll([KU(6), KUe], bs4).Extract();
    TookLayerSets(Num(layers[1]), Num(layers[0]), bs5);
    TookFlags(SkipLayerSets(Num(layers[1]), Num(layers[0]), bs5).rest);
  }

  lemma TookU(n: nat, bs: seq<bool>)
    requires ReadU(n, bs).Got?
    ensures |bs| == n + |ReadU(n, bs).rest|
  {
  }

  /** What can be recovered of a printed video parameter set: the entries that were written. */
  function VpsWritten(v: Vps): Vps
    requires v.head.maxSubLayers < |v.ordering|
  {
    v.(ordering := Covered(v.orderingPresent, v.head.maxSubLayers, v.ordering))
  }

  /** The printer drops temporal sub-layers and layer sets and fixes three fields; a video
      parameter set is read back exactly when it does not need them. */
  lemma VpsRoundTrip(v: Vps, p: Profile, rest: seq<bool>)
    requires VpsShape(v, p) && InRange(VpsElems(v, p))
    ensures ReadVps(AllBits(VpsElems(v, p)) + rest) == Got((VpsWritten(v), p), rest) <==>
            v.head.maxSubLayers == 0 && v.numOpSets == 0 &&
            v.head.baseInternal == 1 && v.head.baseAvailable == 1 && v.head.maxLayers == 0
  {
    hide AllBits;
    hide ReadVps;
    if v.head.maxSubLayers == 0 && v.numOpSets == 0 {
      VpsBack(v, p, rest);
    } else if ReadVps(AllBits(VpsElems(v, p)) + rest) == Got((VpsWritten(v), p), rest) {
      VpsNotRead(v, p, rest);
    }
  }

  lemma VpsNotRead(v: Vps, p: Profile, rest: seq<bool>)
    requires VpsShape(v, p) && InRange(VpsElems(v, p))
    requires v.head.maxSubLayers != 0 || v.numOpSets != 0
    ensures ReadVps(AllBits(VpsElems(v, p)) + rest) != Got((VpsWritten(v), p), rest)
  {
    hide AllBits;
    hide ReadVps;
    hide ReadVpsHead;
    hide VpsHeadElems;
    hide ProfileElems;
    hide OrderingElems;
    hide VpsLayers;
    var bs := AllBits(VpsElems(v, p)) + rest;
    var more := ProfileElems(p) + (VpsOrdering(v) + (VpsLayers(v) + [U(1, 0), U(1, 0)]));
    VpsHeadBack(v.head, more, rest);
    Split(VpsHeadElems(v.head), more, rest);
    VpsHeadCount(v.head);
    VpsBitCount(v, p);
    if ReadVps(bs) == Got((VpsWritten(v), p), rest) {
      SameLayers(v, VpsWritten(v));
      VpsTook(v, p, VpsWritten(v), bs, rest);
    }
  }

  lemma SameLayers(v: Vps, w: Vps)
    requires w.maxLayerId == v.maxLayerId && w.numOpSets == v.numOpSets
    ensures VpsLayers(w) == VpsLayers(v)
  {
  }
}
