/** The parameter-set printers as methods on the bit writer, and the packed buffers they
    fill. Fields are in range: u(n) fields fit n bits, ue(v) and se(v) codes stay below
    2^31 - 1. */
module HevcPrinters {
  import opened HevcBits
  import opened HevcExpGolomb
  import opened HevcParamSets
  import opened HevcDecoder
  import opened HevcRoundTrip
  import opened HevcSpsRoundTrip
  import opened HevcBitstream

  lemma FittingParts(a: seq<Elem>, b: seq<Elem>)
    requires AllFitting(a + b)
    ensures AllFitting(a) && AllFitting(b)
  {
    assert forall e :: e in a ==> e in a + b;
    assert forall e :: e in b ==> e in a + b;
  }

  lemma FittingAt(es: seq<Elem>, i: nat)
    requires AllFitting(es) && i < |es|
    ensures Fitting(es[i])
  {
    assert es[i] in es;
  }

  lemma FittingInRange(es: seq<Elem>)
    requires AllFitting(es)
    ensures InRange(es)
  {
  }

  method PutFlags(bs: Bitstream, fs: seq<nat>)
    requires bs.Valid() && AllFitting(Flags(fs))
    modifies bs
    ensures bs.Valid() && bs.elems == old(bs.elems) + Flags(fs)
  {
    hide Holds;
    hide Value;
    hide Pow2;
    hide AllBits;
    hide AllFitting;
    hide Bits;
    for i := 0 to |fs|
      invariant bs.Valid() && bs.elems == old(bs.elems) + Flags(fs)[..i]
    {
      FittingAt(Flags(fs), i);
      bs.PutUi(fs[i], 1);
      assert Flags(fs)[..i + 1] == Flags(fs)[..i] + [U(1, fs[i])];
    }
    assert Flags(fs)[..|fs|] == Flags(fs);
  }

  method PutCodes(bs: Bitstream, vs: seq<nat>)
    requires bs.Valid() && AllFitting(Codes(vs))
    modifies bs
    ensures bs.Valid() && bs.elems == old(bs.elems) + Codes(vs)
  {
    hide Holds;
    hide Value;
    hide AllBits;
    hide AllFitting;
    hide Bits;
    for i := 0 to |vs|
      invariant bs.Valid() && bs.elems == old(bs.elems) + Codes(vs)[..i]
    {
      FittingAt(Codes(vs), i);
      bs.PutUe(vs[i]);
      assert Codes(vs)[..i + 1] == Codes(vs)[..i] + [Ue(vs[i])];
    }
    assert Codes(vs)[..|vs|] == Codes(vs);
  }

  /** `protier_rbsp`. */
  method ProtierRbsp(bs: Bitstream, p: Profile)
    requires bs.Valid() && AllFitting(ProfileElems(p))
    modifies bs
    ensures bs.Valid() && bs.elems == old(bs.elems) + ProfileElems(p)
  {
    hide Holds;
    hide Value;
    hide Pow2;
    hide AllBits;
    hide AllFitting;
    hide Bits;
    ghost var a := [U(2, p.space), U(1, p.tier), U(5, p.idc)];
    ghost var b := [U(1, p.progressive), U(1, p.interlaced), U(1, p.nonPacked), U(1, p.frameOnly),
                    U(16, 0), U(16, 0), U(12, 0), U(8, p.level)];
    assert ProfileElems(p) == a + (Flags(p.compatibility) + b);
    FittingParts(a, Flags(p.compatibility) + b);
    FittingParts(Flags(p.compatibility), b);
    FittingAt(a, 0); FittingAt(a, 1); FittingAt(a, 2);
    bs.PutUi(p.space, 2);
    bs.PutUi(p.tier, 1);
    bs.PutUi(p.idc, 5);
    assert bs.elems == old(bs.elems) + a;
    PutFlags(bs, p.compatibility);
    ProtierConstraints(bs, p, b);
  }

  /** The flags and zeros behind the compatibility flags. */
  method ProtierConstraints(bs: Bitstream, p: Profile, ghost b: seq<Elem>)
    requires bs.Valid() && AllFitting(b)
    requires b == [U(1, p.progressive), U(1, p.interlaced), U(1, p.nonPacked), U(1, p.frameOnly),
                   U(16, 0), U(16, 0), U(12, 0), U(8, p.level)]
    modifies bs
    ensures bs.Valid() && bs.elems == old(bs.elems) + b
  {
    hide Holds;
    hide Value;
    hide Pow2;
    hide AllBits;
    hide AllFitting;
    hide Bits;
    FittingAt(b, 0); FittingAt(b, 1); FittingAt(b, 2); FittingAt(b, 3);
    FittingAt(b, 4); FittingAt(b, 6); FittingAt(b, 7);
    bs.PutUi(p.progressive, 1);
    bs.PutUi(p.interlaced, 1);
    bs.PutUi(p.nonPacked, 1);
    bs.PutUi(p.frameOnly, 1);
    bs.PutUi(0, 16);
    bs.PutUi(0, 16);
    bs.PutUi(0, 12);
    bs.PutUi(p.level, 8);
  }

  /** The sub-layer ordering loop of both sets. */
  method PutOrderings(bs: Bitstream, present: nat, maxSubLayers: nat, ordering: seq<Ordering>)
    requires bs.Valid() && maxSubLayers < |ordering|
    requires AllFitting(OrderingElems(Covered(present, maxSubLayers, ordering)))
    modifies bs
    ensures bs.Valid() && bs.elems == old(bs.elems) + OrderingElems(Covered(present, maxSubLayers, ordering))
  {
    hide Holds;
    hide Value;
    hide AllFitting;
    hide AllBits;
    hide OrderingEntry;
    hide Bits;
    var i := if present != 0 then 0 else maxSubLayers;
    ghost var from := i;
    ghost var all := OrderingElems(ordering[from..maxSubLayers + 1]);
    while i <= maxSubLayers
      invariant from <= i <= maxSubLayers + 1 && bs.Valid()
      invariant AllFitting(OrderingElems(ordering[i..maxSubLayers + 1]))
      invariant bs.elems + OrderingElems(ordering[i..maxSubLayers + 1]) == old(bs.elems) + all
    {
      ghost var rest := ordering[i..maxSubLayers + 1];
      ghost var more := ordering[i + 1..maxSubLayers + 1];
      assert rest[0] == ordering[i] && rest[1..] == more;
      OrderingElemsIs(rest);
      FittingParts(OrderingEntry(ordering[i]), OrderingElems(more));
      PutOrdering(bs, ordering[i]);
      i := i + 1;
    }
    assert ordering[i..maxSubLayers + 1] == [];
    assert bs.elems + [] == bs.elems;
  }

  lemma OrderingElemsIs(os: seq<Ordering>)
    requires |os| > 0
    ensures OrderingElems(os) == OrderingEntry(os[0]) + OrderingElems(os[1..])
  {
  }

  ghost function OrderingEntry(o: Ordering): seq<Elem> { [Ue(o.maxDecBuffering), Ue(o.numReorder), Ue(o.maxLatency)] }

  method PutOrdering(bs: Bitstream, o: Ordering)
    requires bs.Valid() && AllFitting(OrderingEntry(o))
    modifies bs
    ensures bs.Valid() && bs.elems == old(bs.elems) + OrderingEntry(o)
  {
    hide Holds;
    hide Value;
    hide AllBits;
    hide AllFitting;
    hide Bits;
    ghost var e := OrderingEntry(o);
    FittingAt(e, 0); FittingAt(e, 1); FittingAt(e, 2);
    bs.PutUe(o.maxDecBuffering);
    bs.PutUe(o.numReorder);
    bs.PutUe(o.maxLatency);
  }

  /** `vps_rbsp`. */
  method VpsRbsp(bs: Bitstream, v: Vps, p: Profile)
    requires bs.Valid() && v.head.maxSubLayers < |v.ordering| && AllFitting(VpsElems(v, p))
    modifies bs
    ensures bs.Valid() && bs.elems == old(bs.elems) + VpsElems(v, p)
  {
    hide Holds;
    hide Value;
    hide Pow2;
    hide OrderingElems;
    hide ProfileElems;
    hide AllBits;
    hide AllFitting;
    hide Bits;
    ghost var end := [U(1, 0), U(1, 0)];
    ghost var os := OrderingElems(Covered(v.orderingPresent, v.head.maxSubLayers, v.ordering));
    FittingParts(VpsHeadElems(v.head), ProfileElems(p) + (VpsOrdering(v) + (VpsLayers(v) + end)));
    FittingParts(ProfileElems(p), VpsOrdering(v) + (VpsLayers(v) + end));
    FittingParts(VpsOrdering(v), VpsLayers(v) + end);
    FittingParts([U(1, v.orderingPresent)], os);
    FittingParts(VpsLayers(v), end);
    VpsFixedPart(bs, v.head);
    ProtierRbsp(bs, p);
    FittingAt([U(1, v.orderingPresent)], 0);
    bs.PutUi(v.orderingPresent, 1);
    PutOrderings(bs, v.orderingPresent, v.head.maxSubLayers, v.ordering);
    ghost var before := bs.elems;
    assert before == old(bs.elems) + (VpsHeadElems(v.head) + (ProfileElems(p) + VpsOrdering(v)));
    FittingAt(VpsLayers(v), 0); FittingAt(VpsLayers(v), 1); FittingAt(end, 0);
    bs.PutUi(v.maxLayerId, 6);
    bs.PutUe(v.numOpSets);
    bs.PutUi(0, 1);
    bs.PutUi(0, 1);
    assert bs.elems == before + (VpsLayers(v) + end);
  }

  method VpsFixedPart(bs: Bitstream, h: VpsHead)
    requires bs.Valid() && AllFitting(VpsHeadElems(h))
    modifies bs
    ensures bs.Valid() && bs.elems == old(bs.elems) + VpsHeadElems(h)
  {
    hide Holds;
    hide Value;
    hide Pow2;
    hide AllBits;
    hide AllFitting;
    hide Bits;
    ghost var a := VpsHeadElems(h);
    FittingAt(a, 0); FittingAt(a, 1); FittingAt(a, 2); FittingAt(a, 3); FittingAt(a, 4); FittingAt(a, 5);
    bs.PutUi(h.id, 4);
    bs.PutUi(3, 2);
    bs.PutUi(0, 6);
    bs.PutUi(h.maxSubLayers, 3);
    bs.PutUi(h.nesting, 1);
    bs.PutUi(0xffff, 16);
  }

  method PutDeltas(bs: Bitstream, ds: seq<Delta>)
    requires bs.Valid() && AllFitting(DeltaElems(ds))
    modifies bs
    ensures bs.Valid() && bs.elems == old(bs.elems) + DeltaElems(ds)
  {
    hide Holds;
    hide Value;
    hide Pow2;
    hide AllBits;
    hide AllFitting;
    hide Bits;
    for i := 0 to |ds|
      invariant bs.Valid() && AllFitting(DeltaElems(ds[i..]))
      invariant bs.elems + DeltaElems(ds[i..]) == old(bs.elems) + DeltaElems(ds)
    {
      ghost var e, elems0 := [Ue(ds[i].pocMinus1), U(1, ds[i].used)], bs.elems;
      assert ds[i..][1..] == ds[i + 1..];
      assert DeltaElems(ds[i..]) == e + DeltaElems(ds[i + 1..]);
      FittingParts(e, DeltaElems(ds[i + 1..]));
      FittingAt(e, 0); FittingAt(e, 1);
      bs.PutUe(ds[i].pocMinus1);
      bs.PutUi(ds[i].used, 1);
      assert bs.elems == elems0 + e;
    }
    assert bs.elems + [] == bs.elems;
  }

  /** `pack_short_term_ref_pic_setp`. */
  method PackShortTermRefPicSet(bs: Bitstream, r: RefSet, first: bool)
    requires bs.Valid() && AllFitting(RefSetElems(r, first))
    modifies bs
    ensures bs.Valid() && bs.elems == old(bs.elems) + RefSetElems(r, first)
  {
    hide Holds;
    hide Value;
    hide Pow2;
    hide DeltaElems;
    hide AllBits;
    hide AllFitting;
    hide Bits;
    ghost var inter := if first then [] else [U(1, 0)];
    ghost var counts := [Ue(|r.negative|), Ue(|r.positive|)];
    FittingParts(inter, counts + (DeltaElems(r.negative) + DeltaElems(r.positive)));
    FittingParts(counts, DeltaElems(r.negative) + DeltaElems(r.positive));
    FittingParts(DeltaElems(r.negative), DeltaElems(r.positive));
    if !first {
      FittingAt(inter, 0);
      bs.PutUi(0, 1);
    }
    assert bs.elems == old(bs.elems) + inter;
    FittingAt(counts, 0); FittingAt(counts, 1);
    bs.PutUe(|r.negative|);
    bs.PutUe(|r.positive|);
    assert bs.elems == old(bs.elems) + (inter + counts);
    PutDeltas(bs, r.negative);
    PutDeltas(bs, r.positive);
  }

  method PutSets(bs: Bitstream, rs: seq<RefSet>)
    requires bs.Valid() && AllFitting(SetsElems(rs))
    modifies bs
    ensures bs.Valid() && bs.elems == old(bs.elems) + SetsElems(rs)
  {
    hide Holds;
    hide Value;
    hide RefSetElems;
    hide AllBits;
    hide AllFitting;
    hide Bits;
    FittingParts([Ue(|rs|)], RefSetsElems(rs, true));
    FittingAt([Ue(|rs|)], 0);
    bs.PutUe(|rs|);
    for i := 0 to |rs|
      invariant bs.Valid() && AllFitting(RefSetsElems(rs[i..], i == 0))
      invariant bs.elems + RefSetsElems(rs[i..], i == 0) == old(bs.elems) + SetsElems(rs)
    {
      ghost var elems0 := bs.elems;
      assert rs[i..][1..] == rs[i + 1..];
      FittingParts(RefSetElems(rs[i], i == 0), RefSetsElems(rs[i + 1..], false));
      PackShortTermRefPicSet(bs, rs[i], i == 0);
      assert bs.elems == elems0 + RefSetElems(rs[i], i == 0);
    }
    assert bs.elems + [] == bs.elems;
  }

  method PutFormat(bs: Bitstream, f: Format)
    requires bs.Valid() && AllFitting(FormatElems(f))
    modifies bs
    ensures bs.Valid() && bs.elems == old(bs.elems) + FormatElems(f)
  {
    hide Holds;
    hide Value;
    hide Pow2;
    hide AllBits;
    hide AllFitting;
    hide Bits;
    ghost var a := FormatElems(f);
    FittingAt(a, 0); FittingAt(a, 1);
    bs.PutUe(f.id);
    bs.PutUe(f.chroma);
    if f.chroma == 3 {
      FittingAt(a, 2);
      bs.PutUi(f.separatePlanes, 1);
    }
  }

  method PutSize(bs: Bitstream, s: Size)
    requires bs.Valid() && AllFitting(SizeElems(s))
    modifies bs
    ensures bs.Valid() && bs.elems == old(bs.elems) + SizeElems(s)
  {
    hide Holds;
    hide Value;
    hide Pow2;
    hide AllBits;
    hide AllFitting;
    hide Bits;
    ghost var a := SizeElems(s);
    FittingAt(a, 0); FittingAt(a, 1); FittingAt(a, 2);
    bs.PutUe(s.width);
    bs.PutUe(s.height);
    bs.PutUi(Present(s.window), 1);
    if s.window.Some? {
      FittingAt(a, 3); FittingAt(a, 4); FittingAt(a, 5); FittingAt(a, 6);
      bs.PutUe(s.window.value.left);
      bs.PutUe(s.window.value.right);
      bs.PutUe(s.window.value.top);
      bs.PutUe(s.window.value.bottom);
    }
  }

  method PutDepths(bs: Bitstream, d: Depths, maxSubLayers: nat)
    requires bs.Valid() && maxSubLayers < |d.ordering| && AllFitting(DepthsElems(d, maxSubLayers))
    modifies bs
    ensures bs.Valid() && bs.elems == old(bs.elems) + DepthsElems(d, maxSubLayers)
  {
    hide Holds;
    hide Value;
    hide Pow2;
    hide OrderingElems;
    hide AllBits;
    hide AllFitting;
    hide Bits;
    ghost var a := [Ue(d.luma), Ue(d.chroma), Ue(d.log2MaxLsbMinus4), U(1, d.orderingPresent)];
    FittingParts(a, OrderingElems(Covered(d.orderingPresent, maxSubLayers, d.ordering)));
    FittingAt(a, 0); FittingAt(a, 1); FittingAt(a, 2); FittingAt(a, 3);
    bs.PutUe(d.luma);
    bs.PutUe(d.chroma);
    bs.PutUe(d.log2MaxLsbMinus4);
    bs.PutUi(d.orderingPresent, 1);
    assert bs.elems == old(bs.elems) + a;
    PutOrderings(bs, d.orderingPresent, maxSubLayers, d.ordering);
  }

  method PutCoding(bs: Bitstream, c: Coding)
    requires bs.Valid() && AllFitting(CodingElems(c))
    modifies bs
    ensures bs.Valid() && bs.elems == old(bs.elems) + CodingElems(c)
  {
    hide Holds;
    hide Value;
    hide Pow2;
    hide PcmElems;
    hide AllBits;
    hide AllFitting;
    hide Bits;
    ghost var a := [Ue(c.minCb), Ue(c.diffCb), Ue(c.minTb), Ue(c.diffTb), Ue(c.depthInter), Ue(c.depthIntra)];
    ghost var b := [U(1, 0), U(1, c.amp), U(1, c.sao), U(1, Present(c.pcm))];
    assert CodingElems(c) == a + (b + PcmElems(c.pcm));
    FittingParts(a, b + PcmElems(c.pcm));
    FittingParts(b, PcmElems(c.pcm));
    PutBlocks(bs, c, a);
    FittingAt(b, 0); FittingAt(b, 1); FittingAt(b, 2); FittingAt(b, 3);
    bs.PutUi(0, 1);
    bs.PutUi(c.amp, 1);
    bs.PutUi(c.sao, 1);
    bs.PutUi(Present(c.pcm), 1);
    assert bs.elems == old(bs.elems) + (a + b);
    PutPcm(bs, c.pcm);
  }

  method PutBlocks(bs: Bitstream, c: Coding, ghost a: seq<Elem>)
    requires bs.Valid() && AllFitting(a)
    requires a == [Ue(c.minCb), Ue(c.diffCb), Ue(c.minTb), Ue(c.diffTb), Ue(c.depthInter), Ue(c.depthIntra)]
    modifies bs
    ensures bs.Valid() && bs.elems == old(bs.elems) + a
  {
    hide Holds;
    hide Value;
    hide AllBits;
    hide AllFitting;
    hide Bits;
    FittingAt(a, 0); FittingAt(a, 1); FittingAt(a, 2); FittingAt(a, 3); FittingAt(a, 4); FittingAt(a, 5);
    bs.PutUe(c.minCb);
    bs.PutUe(c.diffCb);
    bs.PutUe(c.minTb);
    bs.PutUe(c.diffTb);
    bs.PutUe(c.depthInter);
    bs.PutUe(c.depthIntra);
  }

  method PutPcm(bs: Bitstream, p: Option<Pcm>)
    requires bs.Valid() && AllFitting(PcmElems(p))
    modifies bs
    ensures bs.Valid() && bs.elems == old(bs.elems) + PcmElems(p)
  {
    hide Holds;
    hide Value;
    hide Pow2;
    hide AllBits;
    hide AllFitting;
    hide Bits;
    if p.Some? {
      ghost var a := PcmElems(p);
      FittingAt(a, 0); FittingAt(a, 1); FittingAt(a, 2); FittingAt(a, 3); FittingAt(a, 4);
      bs.PutUi(p.value.depthLuma, 4);
      bs.PutUi(p.value.depthChroma, 4);
      bs.PutUe(p.value.minCb);
      bs.PutUe(p.value.diffCb);
      bs.PutUi(p.value.loopFilter, 1);
    }
  }

  method PutLongTerms(bs: Bitstream, l: Option<seq<LongTerm>>)
    requires bs.Valid() && AllFitting(LongElems(l))
    modifies bs
    ensures bs.Valid() && bs.elems == old(bs.elems) + LongElems(l)
  {
    hide Holds;
    hide Value;
    hide Pow2;
    hide AllBits;
    hide AllFitting;
    hide Bits;
    ghost var all := LongElems(l);
    FittingAt(all, 0);
    if l.None? {
      bs.PutUi(0, 1);
      return;
    }
    var ls := l.value;
    bs.PutUi(1, 1);
    FittingAt(all, 1);
    bs.PutUe(|ls|);
    assert all == [U(1, 1), Ue(|ls|)] + LongTermElems(ls);
    FittingParts([U(1, 1), Ue(|ls|)], LongTermElems(ls));
    for i := 0 to |ls|
      invariant bs.Valid() && AllFitting(LongTermElems(ls[i..]))
      invariant bs.elems + LongTermElems(ls[i..]) == old(bs.elems) + all
    {
      ghost var e, elems0 := [Ue(ls[i].lsb), U(1, ls[i].used)], bs.elems;
      assert ls[i..][1..] == ls[i + 1..];
      assert LongTermElems(ls[i..]) == e + LongTermElems(ls[i + 1..]);
      FittingParts(e, LongTermElems(ls[i + 1..]));
      FittingAt(e, 0); FittingAt(e, 1);
      bs.PutUe(ls[i].lsb);
      bs.PutUi(ls[i].used, 1);
      assert bs.elems == elems0 + e;
    }
    assert bs.elems + [] == bs.elems;
  }

  /** `sps_rbsp`. */
  method SpsRbsp(bs: Bitstream, s: Sps, p: Profile)
    requires bs.Valid() && s.head.maxSubLayers < |s.depths.ordering| && AllFitting(SpsElems(s, p))
    modifies bs
    ensures bs.Valid() && bs.elems == old(bs.elems) + SpsElems(s, p)
  {
    hide Holds;
    hide Value;
    hide AllBits;
    hide ProfileElems;
    hide AllFitting;
    hide SpsElems;
    hide AfterProfile;
    hide Bits;
    SpsElemsInParts(s, p);
    ghost var more := AfterProfile(s, AfterSets(s));
    FittingParts(SpsHeadElems(s.head), ProfileElems(p) + more);
    FittingParts(ProfileElems(p), more);
    ghost var a := SpsHeadElems(s.head);
    FittingAt(a, 0); FittingAt(a, 1); FittingAt(a, 2);
    bs.PutUi(s.head.vpsId, 4);
    bs.PutUi(s.head.maxSubLayers, 3);
    bs.PutUi(s.head.nesting, 1);
    assert bs.elems == old(bs.elems) + a;
    ProtierRbsp(bs, p);
    SpsBody(bs, s);
  }

  method SpsBody(bs: Bitstream, s: Sps)
    requires bs.Valid() && s.head.maxSubLayers < |s.depths.ordering| && AllFitting(AfterProfile(s, AfterSets(s)))
    modifies bs
    ensures bs.Valid() && bs.elems == old(bs.elems) + AfterProfile(s, AfterSets(s))
  {
    hide Holds;
    hide Value;
    hide AllBits;
    hide AllFitting;
    hide FormatElems;
    hide SizeElems;
    hide DepthsElems;
    hide CodingElems;
    hide SetsElems;
    hide AfterSets;
    hide Bits;
    ghost var e := SetsElems(s.refSets) + AfterSets(s);
    ghost var d := CodingElems(s.coding) + e;
    ghost var c := DepthsElems(s.depths, s.head.maxSubLayers) + d;
    ghost var b := SizeElems(s.size) + c;
    FittingParts(FormatElems(s.format), b);
    FittingParts(SizeElems(s.size), c);
    FittingParts(DepthsElems(s.depths, s.head.maxSubLayers), d);
    FittingParts(CodingElems(s.coding), e);
    FittingParts(SetsElems(s.refSets), AfterSets(s));
    PutFormat(bs, s.format);
    PutSize(bs, s.size);
    PutDepths(bs, s.depths, s.head.maxSubLayers);
    PutCoding(bs, s.coding);
    PutSets(bs, s.refSets);
    SpsEnd(bs, s);
  }

  method SpsEnd(bs: Bitstream, s: Sps)
    requires bs.Valid() && AllFitting(AfterSets(s))
    modifies bs
    ensures bs.Valid() && bs.elems == old(bs.elems) + AfterSets(s)
  {
    hide Holds;
    hide Value;
    hide AllBits;
    hide LongElems;
    hide Pow2;
    hide AllFitting;
    hide Bits;
    FittingParts(LongElems(s.longTerm), SpsTailElems(s.tail));
    PutLongTerms(bs, s.longTerm);
    ghost var t, elems0 := SpsTailElems(s.tail), bs.elems;
    FittingAt(t, 0); FittingAt(t, 1); FittingAt(t, 2);
    bs.PutUi(s.tail.temporalMvp, 1);
    bs.PutUi(s.tail.strongSmoothing, 1);
    bs.PutUi(0, 1);
    bs.PutUi(0, 1);
    assert bs.elems == elems0 + t;
  }

  // ---------------------------------------------------------------- picture parameter set

  method PpsStart(bs: Bitstream, h: PpsHead)
    requires bs.Valid() && AllFitting(PpsHeadElems(h))
    modifies bs
    ensures bs.Valid() && bs.elems == old(bs.elems) + PpsHeadElems(h)
  {
    hide Holds;
    hide Value;
    hide Pow2;
    hide AllBits;
    hide AllFitting;
    hide Bits;
    ghost var a := [Ue(h.id), Ue(h.spsId), U(1, h.dependentSlices), U(1, h.outputFlag), U(3, h.extraBits),
                    U(1, h.signHiding), U(1, h.cabacInit)];
    ghost var b := [Ue(h.l0), Ue(h.l1), Se(h.initQp), U(1, h.constrainedIntra), U(1, h.transformSkip),
                    U(1, Present(h.qpDeltaDepth))] + (if h.qpDeltaDepth.Some? then [Ue(h.qpDeltaDepth.value)] else []);
    assert PpsHeadElems(h) == a + b;
    FittingParts(a, b);
    PpsIds(bs, h, a);
    PpsDefaults(bs, h, b);
  }

  method PpsIds(bs: Bitstream, h: PpsHead, ghost a: seq<Elem>)
    requires bs.Valid() && AllFitting(a)
    requires a == [Ue(h.id), Ue(h.spsId), U(1, h.dependentSlices), U(1, h.outputFlag), U(3, h.extraBits),
                   U(1, h.signHiding), U(1, h.cabacInit)]
    modifies bs
    ensures bs.Valid() && bs.elems == old(bs.elems) + a
  {
    hide Holds;
    hide Value;
    hide Pow2;
    hide AllBits;
    hide AllFitting;
    hide Bits;
    FittingAt(a, 0); FittingAt(a, 1); FittingAt(a, 2); FittingAt(a, 3);
    FittingAt(a, 4); FittingAt(a, 5); FittingAt(a, 6);
    bs.PutUe(h.id);
    bs.PutUe(h.spsId);
    bs.PutUi(h.dependentSlices, 1);
    bs.PutUi(h.outputFlag, 1);
    bs.PutUi(h.extraBits, 3);
    bs.PutUi(h.signHiding, 1);
    bs.PutUi(h.cabacInit, 1);
  }

  method PpsDefaults(bs: Bitstream, h: PpsHead, ghost b: seq<Elem>)
    requires bs.Valid() && AllFitting(b)
    requires b == [Ue(h.l0), Ue(h.l1), Se(h.initQp), U(1, h.constrainedIntra), U(1, h.transformSkip),
                   U(1, Present(h.qpDeltaDepth))] + (if h.qpDeltaDepth.Some? then [Ue(h.qpDeltaDepth.value)] else [])
    modifies bs
    ensures bs.Valid() && bs.elems == old(bs.elems) + b
  {
    hide Holds;
    hide Value;
    hide Pow2;
    hide AllBits;
    hide AllFitting;
    hide Bits;
    FittingAt(b, 0); FittingAt(b, 1); FittingAt(b, 2); FittingAt(b, 3); FittingAt(b, 4); FittingAt(b, 5);
    bs.PutUe(h.l0);
    bs.PutUe(h.l1);
    bs.PutSe(h.initQp);
    bs.PutUi(h.constrainedIntra, 1);
    bs.PutUi(h.transformSkip, 1);
    bs.PutUi(Present(h.qpDeltaDepth), 1);
    if h.qpDeltaDepth.Some? {
      FittingAt(b, 6);
      bs.PutUe(h.qpDeltaDepth.value);
    }
  }

  method PutWeights(bs: Bitstream, w: Weights)
    requires bs.Valid() && AllFitting(WeightsElems(w)) && (w.tiles.Some? ==> TilesShape(w.tiles.value))
    modifies bs
    ensures bs.Valid() && bs.elems == old(bs.elems) + WeightsElems(w)
  {
    hide Holds;
    hide Value;
    hide Pow2;
    hide TilesElems;
    hide WeightFlags;
    hide AllBits;
    hide AllFitting;
    hide Bits;
    ghost var a := WeightFlags(w);
    FittingParts(a, if w.tiles.Some? then TilesElems(w.tiles.value) else []);
    PutWeightFlags(bs, w);
    if w.tiles.Some? {
      PutTiles(bs, w.tiles.value);
    }
  }

  method PutWeightFlags(bs: Bitstream, w: Weights)
    requires bs.Valid() && AllFitting(WeightFlags(w))
    modifies bs
    ensures bs.Valid() && bs.elems == old(bs.elems) + WeightFlags(w)
  {
    hide Holds;
    hide Value;
    hide Pow2;
    hide AllBits;
    hide AllFitting;
    hide Bits;
    ghost var a := WeightFlags(w);
    FittingAt(a, 0); FittingAt(a, 1); FittingAt(a, 2); FittingAt(a, 3); FittingAt(a, 4); FittingAt(a, 5);
    FittingAt(a, 6); FittingAt(a, 7);
    bs.PutSe(w.cbQp);
    bs.PutSe(w.crQp);
    bs.PutUi(w.sliceChromaQp, 1);
    bs.PutUi(w.weightedPred, 1);
    bs.PutUi(w.weightedBipred, 1);
    bs.PutUi(w.transquantBypass, 1);
    bs.PutUi(Present(w.tiles), 1);
    bs.PutUi(w.entropySync, 1);
  }

  method PutTiles(bs: Bitstream, t: Tiles)
    requires bs.Valid() && AllFitting(TilesElems(t)) && TilesShape(t)
    modifies bs
    ensures bs.Valid() && bs.elems == old(bs.elems) + TilesElems(t)
  {
    hide Holds;
    hide Value;
    hide Pow2;
    hide SpacingElems;
    hide AllBits;
    hide AllFitting;
    hide Bits;
    ghost var a := [Ue(t.columns), Ue(t.rows), U(1, 1 - Present(t.spacing))];
    FittingParts(a, SpacingElems(t.spacing) + [U(1, t.loopFilter)]);
    FittingParts(SpacingElems(t.spacing), [U(1, t.loopFilter)]);
    PutTileCounts(bs, t, a);
    PutSpacing(bs, t.spacing);
    FittingAt([U(1, t.loopFilter)], 0);
    bs.PutUi(t.loopFilter, 1);
  }

  method PutTileCounts(bs: Bitstream, t: Tiles, ghost a: seq<Elem>)
    requires bs.Valid() && AllFitting(a) && a == [Ue(t.columns), Ue(t.rows), U(1, 1 - Present(t.spacing))]
    modifies bs
    ensures bs.Valid() && bs.elems == old(bs.elems) + a
  {
    hide Holds;
    hide Value;
    hide Pow2;
    hide AllBits;
    hide AllFitting;
    hide Bits;
    FittingAt(a, 0); FittingAt(a, 1); FittingAt(a, 2);
    bs.PutUe(t.columns);
    bs.PutUe(t.rows);
    bs.PutUi(1 - Present(t.spacing), 1);
  }

  method PutSpacing(bs: Bitstream, s: Option<Spacing>)
    requires bs.Valid() && AllFitting(SpacingElems(s))
    modifies bs
    ensures bs.Valid() && bs.elems == old(bs.elems) + SpacingElems(s)
  {
    hide Holds;
    hide Value;
    hide AllBits;
    hide AllFitting;
    hide Bits;
    if s.Some? {
      assert Codes(s.value.widths + s.value.heights) == Codes(s.value.widths) + Codes(s.value.heights);
      FittingParts(Codes(s.value.widths), Codes(s.value.heights));
      PutCodes(bs, s.value.widths);
      PutCodes(bs, s.value.heights);
    }
  }

  method PutDeblocking(bs: Bitstream, d: Option<Deblocking>)
    requires bs.Valid() && AllFitting(DeblockingElems(d))
    modifies bs
    ensures bs.Valid() && bs.elems == old(bs.elems) + DeblockingElems(d)
  {
    hide Holds;
    hide Value;
    hide Pow2;
    hide AllBits;
    hide AllFitting;
    hide Bits;
    ghost var a := DeblockingElems(d);
    FittingAt(a, 0);
    bs.PutUi(Present(d), 1);
    if d.Some? {
      FittingAt(a, 1); FittingAt(a, 2);
      bs.PutUi(d.value.override, 1);
      bs.PutUi(1 - Present(d.value.offsets), 1);
      if d.value.offsets.Some? {
        FittingAt(a, 3); FittingAt(a, 4);
        bs.PutSe(d.value.offsets.value.beta);
        bs.PutSe(d.value.offsets.value.tc);
      }
    }
  }

  /** `pps_rbsp`. */
  method PpsRbsp(bs: Bitstream, p: Pps)
    requires bs.Valid() && AllFitting(PpsElems(p)) && PpsShape(p)
    modifies bs
    ensures bs.Valid() && bs.elems == old(bs.elems) + PpsElems(p)
  {
    hide Holds;
    hide Value;
    hide AllBits;
    hide Pow2;
    hide PpsHeadElems;
    hide WeightsElems;
    hide DeblockingElems;
    hide AllFitting;
    hide Bits;
    ghost var t := PpsTailElems(p.tail);
    ghost var f := [U(1, p.loopFilterSlices)];
    FittingParts(PpsHeadElems(p.head), WeightsElems(p.weights) + (f + (DeblockingElems(p.deblocking) + t)));
    FittingParts(WeightsElems(p.weights), f + (DeblockingElems(p.deblocking) + t));
    FittingParts(f, DeblockingElems(p.deblocking) + t);
    FittingParts(DeblockingElems(p.deblocking), t);
    PpsStart(bs, p.head);
    PutWeights(bs, p.weights);
    FittingAt(f, 0);
    bs.PutUi(p.loopFilterSlices, 1);
    PutDeblocking(bs, p.deblocking);
    ghost var elems0 := bs.elems;
    assert elems0 ==
      old(bs.elems) + (PpsHeadElems(p.head) + (WeightsElems(p.weights) + (f + DeblockingElems(p.deblocking))));
    PpsEnd(bs, p.tail);
  }

  method PpsEnd(bs: Bitstream, t: PpsTail)
    requires bs.Valid() && AllFitting(PpsTailElems(t))
    modifies bs
    ensures bs.Valid() && bs.elems == old(bs.elems) + PpsTailElems(t)
  {
    hide Holds;
    hide Value;
    hide Pow2;
    hide AllBits;
    hide AllFitting;
    hide Bits;
    ghost var a := PpsTailElems(t);
    FittingAt(a, 0); FittingAt(a, 1); FittingAt(a, 2); FittingAt(a, 3);
    bs.PutUi(0, 1);
    bs.PutUi(t.listsModification, 1);
    bs.PutUe(t.mergeLevel);
    bs.PutUi(t.sliceExtension, 1);
    bs.PutUi(0, 1);
  }

  // ---------------------------------------------------------------- packed buffers

  /** Start code, NAL unit header, payload and trailing bits. */
  function Nal(nalUnitType: nat, payload: seq<Elem>): seq<Elem> {
    [StartCode(nalUnitType)] + ([U(1, 0), U(6, nalUnitType), U(6, 0), U(3, 1)] + (payload + [U(1, 1)]))
  }

  /** The bits of a packed buffer: the unit, then zeros up to a whole byte. */
  function NalBits(nalUnitType: nat, payload: seq<Elem>): (bits: seq<bool>) {
    var unit := Nal(nalUnitType, payload);
    AllBits(unit + Alignment(|AllBits(unit)|, 0))
  }

  /** The unit has been written and `End` called: memory holds its bits, most significant
      bit of the first byte first. */
  ghost predicate Packed(bs: Bitstream, nalUnitType: nat, payload: seq<Elem>)
    reads bs
  {
    && bs.bitOffset == |NalBits(nalUnitType, payload)| && bs.bitOffset % 8 == 0
    && 4 * |bs.buffer| * 8 >= bs.bitOffset
    && forall j :: 0 <= j < bs.bitOffset / 8 ==>
         MemoryByte(bs.buffer, j) == Value(NalBits(nalUnitType, payload)[8 * j..8 * j + 8])
  }

  method StartNal(nalUnitType: nat) returns (bs: Bitstream)
    requires nalUnitType < 64
    ensures fresh(bs) && bs.Valid()
    ensures bs.elems == [StartCode(nalUnitType)] + [U(1, 0), U(6, nalUnitType), U(6, 0), U(3, 1)]
  {
    hide Holds;
    hide Value;
    hide AllBits;
    hide AllFitting;
    hide Bits;
    bs := new Bitstream();
    bs.NalStartCodePrefix(nalUnitType);
    bs.NalHeader(nalUnitType);
  }

  method FinishNal(bs: Bitstream, nalUnitType: nat, ghost payload: seq<Elem>)
    requires bs.Valid()
    requires bs.elems == [StartCode(nalUnitType)] + [U(1, 0), U(6, nalUnitType), U(6, 0), U(3, 1)] + payload
    modifies bs
    ensures Packed(bs, nalUnitType, payload)
  {
    hide Holds;
    hide Value;
    hide AllBits;
    hide AllFitting;
    hide Bits;
    ghost var bits0, elems0 := bs.bits, bs.elems;
    bs.RbspTrailingBits();
    ghost var unit := Nal(nalUnitType, payload);
    assert unit == elems0 + [U(1, 1)];
    AllBitsAppend(elems0, [U(1, 1)]);
    AllBitsOf(U(1, 1));
    assert bs.bits == NalBits(nalUnitType, payload);
    bs.End();
    ghost var bits := bs.bits;
    forall j | 0 <= j < |bits| / 8
      ensures 4 * WordCount(|bits|) > j && MemoryByte(bs.buffer, j) == Value(bits[8 * j..8 * j + 8])
    {
      WholeByte(bits, j);
    }
    EnoughMemory(|bits|, |bs.buffer|);
  }

  lemma EnoughMemory(n: nat, words: nat)
    requires WordCount(n) <= words
    ensures 4 * words * 8 >= n
  {
  }

  lemma WholeByte(bits: seq<bool>, j: nat)
    requires |bits| % 8 == 0 && j < |bits| / 8
    ensures j < 4 * WordCount(|bits|) && PaddedByte(bits, j) == bits[8 * j..8 * j + 8]
  {
  }

  /** `build_packed_video_buffer`. */
  method BuildPackedVideoBuffer(v: Vps, p: Profile) returns (bs: Bitstream)
    requires v.head.maxSubLayers < |v.ordering| && AllFitting(VpsElems(v, p))
    ensures fresh(bs) && Packed(bs, NALU_VPS, VpsElems(v, p))
  {
    hide Holds;
    hide Value;
    hide VpsElems;
    hide Packed;
    hide AllBits;
    hide AllFitting;
    hide Bits;
    bs := StartNal(NALU_VPS);
    VpsRbsp(bs, v, p);
    FinishNal(bs, NALU_VPS, VpsElems(v, p));
  }

  /** `build_packed_seq_buffer`. */
  method BuildPackedSeqBuffer(s: Sps, p: Profile) returns (bs: Bitstream)
    requires s.head.maxSubLayers < |s.depths.ordering| && AllFitting(SpsElems(s, p))
    ensures fresh(bs) && Packed(bs, NALU_SPS, SpsElems(s, p))
  {
    hide Holds;
    hide Value;
    hide SpsElems;
    hide Packed;
    hide AllBits;
    hide AllFitting;
    hide Bits;
    bs := StartNal(NALU_SPS);
    SpsRbsp(bs, s, p);
    FinishNal(bs, NALU_SPS, SpsElems(s, p));
  }

  /** `build_packed_pic_buffer`. */
  method BuildPackedPicBuffer(p: Pps) returns (bs: Bitstream)
    requires PpsShape(p) && AllFitting(PpsElems(p))
    ensures fresh(bs) && Packed(bs, NALU_PPS, PpsElems(p))
  {
    hide Holds;
    hide Value;
    hide PpsElems;
    hide Packed;
    hide AllBits;
    hide AllFitting;
    hide Bits;
    bs := StartNal(NALU_PPS);
    PpsRbsp(bs, p);
    FinishNal(bs, NALU_PPS, PpsElems(p));
  }

  /** Behind the 48 bits of start code and header, a reader finds the payload's bits and
      then the trailing bits: a one and zeros. */
  lemma PayloadOf(nalUnitType: nat, payload: seq<Elem>)
    requires NALU_VPS <= nalUnitType <= NALU_AUD
    ensures |NalBits(nalUnitType, payload)| >= 48
    ensures exists zeros: nat :: zeros < 8 &&
              NalBits(nalUnitType, payload)[48..] == AllBits(payload) + ([true] + Zeros(zeros))
  {
    hide AllBits;
    hide Bits;
    var head := [StartCode(nalUnitType)] + [U(1, 0), U(6, nalUnitType), U(6, 0), U(3, 1)];
    var unit := Nal(nalUnitType, payload);
    var align := Alignment(|AllBits(unit)|, 0);
    assert unit + align == head + (payload + ([U(1, 1)] + align));
    AllBitsAppend(head, payload + ([U(1, 1)] + align));
    AllBitsAppend(payload, [U(1, 1)] + align);
    AllBitsOfList(U(1, 1), align);
    HeadCount(nalUnitType, head);
    AlignmentBits(|AllBits(unit)|);
    OneIsTrue();
    var zeros := |AllBits(align)|;
    assert NalBits(nalUnitType, payload)[48..] == AllBits(payload) + ([true] + Zeros(zeros));
  }

  /** From the packed buffers back to the records: behind start code and header, a reader
      gets the parameter set and is left with the trailing bits. */
  lemma UnitsReadBack(v: Vps, s: Sps, q: Pps, p: Profile)
    requires VpsShape(v, p) && InRange(VpsElems(v, p)) && v.head.maxSubLayers == 0 && v.numOpSets == 0
    requires SpsShape(s, p) && InRange(SpsElems(s, p)) && s.head.maxSubLayers == 0 && NoLongTerm(s.longTerm)
    requires PpsShape(q) && InRange(PpsElems(q))
    ensures |NalBits(NALU_VPS, VpsElems(v, p))| >= 48 && |NalBits(NALU_SPS, SpsElems(s, p))| >= 48
    ensures |NalBits(NALU_PPS, PpsElems(q))| >= 48
    ensures exists z: nat :: ReadVps(NalBits(NALU_VPS, VpsElems(v, p))[48..]) == Got((VpsRead(v), p), [true] + Zeros(z))
    ensures exists z: nat ::
        ReadSps(NalBits(NALU_SPS, SpsElems(s, p))[48..]) ==
        Got((SpsWritten(s), p), [true] + Zeros(z))
    ensures exists z: nat :: ReadPps(NalBits(NALU_PPS, PpsElems(q))[48..]) == Got(q, [true] + Zeros(z))
  {
    hide NalBits;
    hide AllBits;
    hide ReadVps;
    hide ReadSps;
    hide ReadPps;
    hide VpsElems;
    hide SpsElems;
    hide PpsElems;
    PayloadOf(NALU_VPS, VpsElems(v, p));
    var z0: nat :| NalBits(NALU_VPS, VpsElems(v, p))[48..] == AllBits(VpsElems(v, p)) + ([true] + Zeros(z0));
    VpsBack(v, p, [true] + Zeros(z0));
    PayloadOf(NALU_SPS, SpsElems(s, p));
    var z1: nat :| NalBits(NALU_SPS, SpsElems(s, p))[48..] == AllBits(SpsElems(s, p)) + ([true] + Zeros(z1));
    SpsBack(s, p, [true] + Zeros(z1));
    PayloadOf(NALU_PPS, PpsElems(q));
    var z2: nat :| NalBits(NALU_PPS, PpsElems(q))[48..] == AllBits(PpsElems(q)) + ([true] + Zeros(z2));
    PpsRoundTrip(q, [true] + Zeros(z2));
  }

  lemma OneIsTrue()
    ensures Bits(1, 1) == [true]
  {
  }

  lemma AlignmentBits(n: nat)
    ensures |AllBits(Alignment(n, 0))| < 8
    ensures AllBits(Alignment(n, 0)) == Zeros(|AllBits(Alignment(n, 0))|)
  {
    hide AllBits;
    if n % 8 != 0 {
      AllBitsOf(U(8 - n % 8, 0));
      BitsOfZero(8 - n % 8);
    } else {
      NoBits([]);
    }
  }

  lemma HeadCount(nalUnitType: nat, head: seq<Elem>)
    requires NALU_VPS <= nalUnitType <= NALU_AUD
    requires head == [StartCode(nalUnitType)] + [U(1, 0), U(6, nalUnitType), U(6, 0), U(3, 1)]
    ensures |AllBits(head)| == 48
  {
    hide AllBits;
    var ks := [KU(32), KU(1), KU(6), KU(6), KU(3)];
    assert Kinds(head) == ks;
    FixedWidth(head);
    assert ks[1..] == [KU(1), KU(6), KU(6), KU(3)] && ks[1..][1..] == [KU(6), KU(6), KU(3)];
    assert [KU(6), KU(6), KU(3)][1..] == [KU(6), KU(3)] && [KU(6), KU(3)][1..] == [KU(3)] && [KU(3)][1..] == [];
  }
}
