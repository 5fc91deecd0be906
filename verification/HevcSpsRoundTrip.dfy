/** Reading back a printed sequence parameter set, including its variable-length list of
    short-term reference sets. */
module HevcSpsRoundTrip {
  import opened HevcBits
  import opened HevcExpGolomb
  import opened HevcParamSets
  import opened HevcDecoder
  import opened HevcRoundTrip

  // ---------------------------------------------------------------- the parts, one by one

  lemma SpsHeadBack(h: SpsHead, b: seq<Elem>, rest: seq<bool>)
    requires InRange(SpsHeadElems(h) + b)
    ensures InRange(b) && ReadSpsHead(AllBits(SpsHeadElems(h) + b) + rest) == Got(h, AllBits(b) + rest)
  {
    hide AllBits;
    hide ReadAll;
    var ks := [KU(4), KU(3), KU(1)];
    assert Kinds(SpsHeadElems(h)) == ks;
    ReadRun(SpsHeadElems(h), ks, b, rest);
  }

  predicate FormatShape(f: Format) { f.chroma == 3 || f.separatePlanes == 0 }

  lemma FormatBack(f: Format, b: seq<Elem>, rest: seq<bool>)
    requires InRange(FormatElems(f) + b) && FormatShape(f)
    ensures InRange(b) && ReadFormat(AllBits(FormatElems(f) + b) + rest) == Got(f, AllBits(b) + rest)
  {
    hide AllBits;
    hide ReadAll;
    hide ReadU;
    var a := [Ue(f.id), Ue(f.chroma)];
    var planes := if f.chroma == 3 then [U(1, f.separatePlanes)] else [];
    assert FormatElems(f) + b == a + (planes + b);
    assert Kinds(a) == [KUe, KUe];
    ReadRun(a, [KUe, KUe], planes + b, rest);
    if f.chroma == 3 {
      ReadOne(1, f.separatePlanes, b, rest);
    } else {
      assert planes + b == b;
    }
  }

  lemma SizeBack(s: Size, b: seq<Elem>, rest: seq<bool>)
    requires InRange(SizeElems(s) + b)
    ensures InRange(b) && ReadSize(AllBits(SizeElems(s) + b) + rest) == Got(s, AllBits(b) + rest)
  {
    hide AllBits;
    hide ReadAll;
    var a := [Ue(s.width), Ue(s.height), U(1, Present(s.window))];
    var w := WindowElems(s.window);
    assert SizeElems(s) + b == a + (w + b);
    assert Kinds(a) == [KUe, KUe, KU(1)];
    ReadRun(a, [KUe, KUe, KU(1)], w + b, rest);
    if s.window.Some? {
      assert Kinds(w) == Repeat(KUe, 4);
      ReadRun(w, Repeat(KUe, 4), b, rest);
    } else {
      assert w + b == b;
    }
  }

  function CoveredDepths(d: Depths, maxSubLayers: nat): Depths
    requires maxSubLayers < |d.ordering|
  {
    d.(ordering := Covered(d.orderingPresent, maxSubLayers, d.ordering))
  }

  lemma DepthsBack(d: Depths, maxSubLayers: nat, b: seq<Elem>, rest: seq<bool>)
    requires maxSubLayers < |d.ordering| && InRange(DepthsElems(d, maxSubLayers) + b)
    ensures InRange(b)
    ensures ReadDepths(maxSubLayers, AllBits(DepthsElems(d, maxSubLayers) + b) + rest) ==
            Got(CoveredDepths(d, maxSubLayers), AllBits(b) + rest)
  {
    hide AllBits;
    hide ReadAll;
    hide ReadOrderings;
    hide OrderingElems;
    var a := [Ue(d.luma), Ue(d.chroma), Ue(d.log2MaxLsbMinus4), U(1, d.orderingPresent)];
    var os := Covered(d.orderingPresent, maxSubLayers, d.ordering);
    assert DepthsElems(d, maxSubLayers) + b == a + (OrderingElems(os) + b);
    var ks := [KUe, KUe, KUe, KU(1)];
    assert Kinds(a) == ks;
    ReadRun(a, ks, OrderingElems(os) + b, rest);
    assert |os| == OrderingCount(d.orderingPresent, maxSubLayers);
    OrderingPartBack(os, b, rest);
  }

  function CodingFlags(c: Coding): seq<Elem> {
    [Ue(c.minCb), Ue(c.diffCb), Ue(c.minTb), Ue(c.diffTb), Ue(c.depthInter), Ue(c.depthIntra),
     U(1, 0), U(1, c.amp), U(1, c.sao), U(1, Present(c.pcm))]
  }

  lemma CodingFlagsAre(c: Coding)
    ensures Kinds(CodingFlags(c)) == CodingKinds() && |CodingFlags(c)| == 10
    ensures Num(CodingFlags(c)[9]) == Present(c.pcm) && Num(CodingFlags(c)[6]) == 0
    ensures CodingOf(CodingFlags(c), c.pcm) == c
    ensures CodingElems(c) == CodingFlags(c) + PcmElems(c.pcm)
  {
  }

  lemma PcmBack(p: Option<Pcm>, b: seq<Elem>, rest: seq<bool>)
    requires InRange(PcmElems(p) + b)
    ensures InRange(b) && ReadPcm(Present(p), AllBits(PcmElems(p) + b) + rest) == Got(p, AllBits(b) + rest)
  {
    hide AllBits;
    hide ReadAll;
    if p.Some? {
      var ks := [KU(4), KU(4), KUe, KUe, KU(1)];
      assert Kinds(PcmElems(p)) == ks;
      ReadRun(PcmElems(p), ks, b, rest);
    } else {
      assert PcmElems(p) + b == b;
    }
  }

  lemma CodingBack(c: Coding, b: seq<Elem>, rest: seq<bool>)
    requires InRange(CodingElems(c) + b)
    ensures InRange(b) && ReadCoding(AllBits(CodingElems(c) + b) + rest) == Got(c, AllBits(b) + rest)
  {
    hide AllBits;
    hide ReadAll;
    hide ReadPcm;
    hide CodingKinds;
    hide CodingFlags;
    hide CodingElems;
    hide CodingOf;
    hide PcmElems;
    CodingFlagsAre(c);
    assert CodingElems(c) + b == CodingFlags(c) + (PcmElems(c.pcm) + b);
    ReadRun(CodingFlags(c), CodingKinds(), PcmElems(c.pcm) + b, rest);
    PcmBack(c.pcm, b, rest);
  }

  lemma {:induction false} DeltasBack(ds: seq<Delta>, b: seq<Elem>, rest: seq<bool>)
    requires InRange(DeltaElems(ds) + b)
    ensures InRange(b) && ReadDeltas(|ds|, AllBits(DeltaElems(ds) + b) + rest) == Got(ds, AllBits(b) + rest)
    decreases |ds|
  {
    hide AllBits;
    hide ReadAll;
    if |ds| > 0 {
      var a := [Ue(ds[0].pocMinus1), U(1, ds[0].used)];
      assert DeltaElems(ds) + b == a + (DeltaElems(ds[1..]) + b);
      assert Kinds(a) == [KUe, KU(1)];
      ReadRun(a, [KUe, KU(1)], DeltaElems(ds[1..]) + b, rest);
      DeltasBack(ds[1..], b, rest);
      assert ds == [Delta(ds[0].pocMinus1, ds[0].used)] + ds[1..];
    } else {
      assert DeltaElems(ds) + b == b;
    }
  }

  lemma RefSetBack(r: RefSet, first: bool, b: seq<Elem>, rest: seq<bool>)
    requires InRange(RefSetElems(r, first) + b)
    ensures InRange(b) && ReadRefSet(first, AllBits(RefSetElems(r, first) + b) + rest) == Got(r, AllBits(b) + rest)
  {
    hide AllBits;
    hide ReadAll;
    hide ReadDeltas;
    hide DeltaElems;
    var inter := if first then [] else [U(1, 0)];
    var counts := [Ue(|r.negative|), Ue(|r.positive|)];
    var n, p := DeltaElems(r.negative), DeltaElems(r.positive);
    assert RefSetElems(r, first) + b == inter + (counts + (n + (p + b)));
    var ks := if first then [] else [KU(1)];
    assert Kinds(inter) == ks;
    ReadRun(inter, ks, counts + (n + (p + b)), rest);
    assert Kinds(counts) == [KUe, KUe];
    ReadRun(counts, [KUe, KUe], n + (p + b), rest);
    DeltasBack(r.negative, p + b, rest);
    DeltasBack(r.positive, b, rest);
  }

  lemma {:induction false} RefSetsBack(rs: seq<RefSet>, first: bool, b: seq<Elem>, rest: seq<bool>)
    requires InRange(RefSetsElems(rs, first) + b)
    ensures InRange(b) && ReadRefSets(|rs|, first, AllBits(RefSetsElems(rs, first) + b) + rest) ==
      Got(rs, AllBits(b) + rest)
    decreases |rs|
  {
    hide AllBits;
    hide ReadRefSet;
    hide RefSetElems;
    if |rs| > 0 {
      var more := RefSetsElems(rs[1..], false) + b;
      assert RefSetsElems(rs, first) + b == RefSetElems(rs[0], first) + more;
      RefSetBack(rs[0], first, more, rest);
      RefSetsBack(rs[1..], false, b, rest);
      assert rs == [rs[0]] + rs[1..];
    } else {
      assert RefSetsElems(rs, first) + b == b;
    }
  }

  lemma SetsBack(rs: seq<RefSet>, b: seq<Elem>, rest: seq<bool>)
    requires InRange(SetsElems(rs) + b)
    ensures InRange(b) && ReadSets(AllBits(SetsElems(rs) + b) + rest) == Got(rs, AllBits(b) + rest)
  {
    hide AllBits;
    hide ReadUe;
    hide ReadRefSets;
    hide RefSetsElems;
    assert SetsElems(rs) + b == [Ue(|rs|)] + (RefSetsElems(rs, true) + b);
    ReadCode(|rs|, RefSetsElems(rs, true) + b, rest);
    RefSetsBack(rs, true, b, rest);
  }

  predicate NoLongTerm(l: Option<seq<LongTerm>>) { l.None? || |l.value| == 0 }

  /** The present flag, and the count behind it. */
  lemma LongFlagsBack(ls: seq<LongTerm>, b: seq<Elem>, rest: seq<bool>)
    requires InRange(LongElems(Some(ls)) + b)
    ensures var bs1 := AllBits([Ue(|ls|)] + (LongTermElems(ls) + b)) + rest;
            && InRange(LongTermElems(ls) + b)
            && ReadU(1, AllBits(LongElems(Some(ls)) + b) + rest) == Got(1, bs1)
            && ReadUe(bs1) == Got(|ls|, AllBits(LongTermElems(ls) + b) + rest)
  {
    hide AllBits;
    hide ReadU;
    hide ReadUe;
    hide LongTermElems;
    var more := LongTermElems(ls) + b;
    assert LongElems(Some(ls)) + b == [U(1, 1)] + ([Ue(|ls|)] + more);
    ReadOne(1, 1, [Ue(|ls|)] + more, rest);
    ReadCode(|ls|, more, rest);
  }

  lemma LongBack(l: Option<seq<LongTerm>>, width: nat, b: seq<Elem>, rest: seq<bool>)
    requires InRange(LongElems(l) + b) && NoLongTerm(l)
    ensures InRange(b) && ReadLong(width, AllBits(LongElems(l) + b) + rest) == Got(l, AllBits(b) + rest)
  {
    hide AllBits;
    hide ReadU;
    hide ReadUe;
    if l.None? {
      ReadOne(1, 0, b, rest);
    } else {
      LongFlagsBack(l.value, b, rest);
      assert LongTermElems(l.value) + b == b;
      assert l.value == [];
    }
  }

  lemma SpsTailBack(t: SpsTail, rest: seq<bool>)
    requires InRange(SpsTailElems(t))
    ensures ReadSpsTail(AllBits(SpsTailElems(t)) + rest) == Got(t, rest)
  {
    hide AllBits;
    hide ReadAll;
    assert Kinds(SpsTailElems(t)) == Repeat(KU(1), 4);
    ListRoundTrip(SpsTailElems(t), Repeat(KU(1), 4), rest);
  }

  // ---------------------------------------------------------------- the whole set

  predicate SpsShape(s: Sps, p: Profile) {
    s.head.maxSubLayers < |s.depths.ordering| && ProfileShape(p) && FormatShape(s.format)
  }

  /** What can be recovered: of the ordering arrays, the entries that were written. */
  function SpsWritten(s: Sps): Sps
    requires s.head.maxSubLayers < |s.depths.ordering|
  {
    s.(depths := CoveredDepths(s.depths, s.head.maxSubLayers))
  }

  /** What follows the profile, in two pieces. */
  function AfterSets(s: Sps): seq<Elem> { LongElems(s.longTerm) + SpsTailElems(s.tail) }

  function AfterProfile(s: Sps, b: seq<Elem>): seq<Elem>
    requires s.head.maxSubLayers < |s.depths.ordering|
  {
    FormatElems(s.format) + (SizeElems(s.size) + (DepthsElems(s.depths, s.head.maxSubLayers) +
    (CodingElems(s.coding) + (SetsElems(s.refSets) + b))))
  }

  /** The reader, cut in the same two pieces. */
  function ReadMiddle(maxSubLayers: nat, bs: seq<bool>): Read<(Format, Size, Depths, Coding, seq<RefSet>)> {
    var (format, bs3) :- ReadFormat(bs);
    var (size, bs4) :- ReadSize(bs3);
    var (depths, bs5) :- ReadDepths(maxSubLayers, bs4);
    var (coding, bs6) :- ReadCoding(bs5);
    var (sets, bs7) :- ReadSets(bs6);
    Got((format, size, depths, coding, sets), bs7)
  }

  lemma MiddleBack(s: Sps, b: seq<Elem>, rest: seq<bool>)
    requires s.head.maxSubLayers < |s.depths.ordering| && FormatShape(s.format)
    requires InRange(AfterProfile(s, b))
    ensures InRange(b)
    ensures ReadMiddle(s.head.maxSubLayers, AllBits(AfterProfile(s, b)) + rest) ==
            Got((s.format, s.size, CoveredDepths(s.depths, s.head.maxSubLayers), s.coding, s.refSets),
                AllBits(b) + rest)
  {
    hide AllBits;
    hide ReadFormat;
    hide ReadSize;
    hide ReadDepths;
    hide ReadCoding;
    hide ReadSets;
    hide FormatElems;
    hide SizeElems;
    hide DepthsElems;
    hide CodingElems;
    hide SetsElems;
    var e := SetsElems(s.refSets) + b;
    var d := CodingElems(s.coding) + e;
    var c := DepthsElems(s.depths, s.head.maxSubLayers) + d;
    var a := SizeElems(s.size) + c;
    FormatBack(s.format, a, rest);
    SizeBack(s.size, c, rest);
    DepthsBack(s.depths, s.head.maxSubLayers, d, rest);
    CodingBack(s.coding, e, rest);
    SetsBack(s.refSets, b, rest);
  }

  /** The reader in terms of its pieces. */
  lemma ReadSpsIs(bs: seq<bool>)
    ensures ReadSps(bs) == ReadSpsInParts(bs)
  {
    hide ReadFormat;
    hide ReadSize;
    hide ReadDepths;
    hide ReadCoding;
    hide ReadSets;
    hide ReadLong;
    hide ReadSpsTail;
    hide ReadSpsHead;
    hide ReadProfile;
  }

  function ReadSpsInParts(bs: seq<bool>): Read<(Sps, Profile)> {
    var (head, bs1) :- ReadSpsHead(bs);
    var (profile, bs2) :- ReadProfile(head.maxSubLayers, bs1);
    var (mid, bs7) :- ReadMiddle(head.maxSubLayers, bs2);
    var (long, bs8) :- ReadLong(mid.2.log2MaxLsbMinus4 + 4, bs7);
    var (tail, bs9) :- ReadSpsTail(bs8);
    Got((Sps(head, mid.0, mid.1, mid.2, mid.3, mid.4, long, tail), profile), bs9)
  }

  lemma SpsElemsInParts(s: Sps, p: Profile)
    requires s.head.maxSubLayers < |s.depths.ordering|
    ensures SpsElems(s, p) == SpsHeadElems(s.head) + (ProfileElems(p) + AfterProfile(s, AfterSets(s)))
  {
    hide SpsHeadElems;
    hide ProfileElems;
    hide FormatElems;
    hide SizeElems;
    hide DepthsElems;
    hide CodingElems;
    hide SetsElems;
    hide LongElems;
    hide SpsTailElems;
  }

  /** The reader behind the reference sets, with what has been read before. */
  function ReadSpsEnd(s: Sps, p: Profile, bs: seq<bool>): Read<(Sps, Profile)> {
    var (long, bs8) :- ReadLong(s.depths.log2MaxLsbMinus4 + 4, bs);
    var (tail, bs9) :- ReadSpsTail(bs8);
    Got((s.(longTerm := long, tail := tail), p), bs9)
  }

  lemma PartsGiven(s: Sps, p: Profile, bs: seq<bool>, bs1: seq<bool>, bs2: seq<bool>, bs7: seq<bool>)
    requires ReadSpsHead(bs) == Got(s.head, bs1)
    requires ReadProfile(s.head.maxSubLayers, bs1) == Got(p, bs2)
    requires ReadMiddle(s.head.maxSubLayers, bs2) == Got((s.format, s.size, s.depths, s.coding, s.refSets), bs7)
    ensures ReadSpsInParts(bs) == ReadSpsEnd(s, p, bs7)
  {
    hide ReadSpsHead;
    hide ReadProfile;
    hide ReadMiddle;
    hide ReadLong;
    hide ReadSpsTail;
  }

  /** Up to the reference sets everything is read back, if there are no sub-layers. */
  lemma SpsUpToSets(s: Sps, p: Profile, rest: seq<bool>)
    requires SpsShape(s, p) && InRange(SpsElems(s, p)) && s.head.maxSubLayers == 0
    ensures InRange(AfterSets(s))
    ensures ReadSps(AllBits(SpsElems(s, p)) + rest) == ReadSpsEnd(SpsWritten(s), p, AllBits(AfterSets(s)) + rest)
  {
    hide AllBits;
    hide ReadSpsHead;
    hide ReadProfile;
    hide ReadMiddle;
    hide ReadLong;
    hide ReadSpsTail;
    hide SpsHeadElems;
    hide ProfileElems;
    hide AfterProfile;
    hide AfterSets;
    hide ReadSps;
    hide ReadSpsInParts;
    hide ReadSpsEnd;
    SpsElemsInParts(s, p);
    var b := AfterProfile(s, AfterSets(s));
    var bs, t := AllBits(SpsElems(s, p)) + rest, SpsWritten(s);
    ReadSpsIs(bs);
    SpsHeadBack(s.head, ProfileElems(p) + b, rest);
    ProfilePartBack(p, b, rest);
    MiddleBack(s, AfterSets(s), rest);
    PartsGiven(t, p, bs, AllBits(ProfileElems(p) + b) + rest, AllBits(b) + rest, AllBits(AfterSets(s)) + rest);
  }

  lemma SpsBack(s: Sps, p: Profile, rest: seq<bool>)
    requires SpsShape(s, p) && InRange(SpsElems(s, p))
    requires s.head.maxSubLayers == 0 && NoLongTerm(s.longTerm)
    ensures ReadSps(AllBits(SpsElems(s, p)) + rest) == Got((SpsWritten(s), p), rest)
  {
    hide AllBits;
    hide ReadLong;
    hide ReadSpsTail;
    hide LongElems;
    hide SpsTailElems;
    hide ReadSps;
    hide SpsElems;
    hide InRange;
    hide ReadSpsEnd;
    SpsUpToSets(s, p, rest);
    LongBack(s.longTerm, s.depths.log2MaxLsbMinus4 + 4, SpsTailElems(s.tail), rest);
    SpsTailBack(s.tail, rest);
    EndGiven(SpsWritten(s), p, AllBits(AfterSets(s)) + rest, AllBits(SpsTailElems(s.tail)) + rest, rest);
  }

  lemma EndGiven(s: Sps, p: Profile, bs: seq<bool>, bs8: seq<bool>, rest: seq<bool>)
    requires ReadLong(s.depths.log2MaxLsbMinus4 + 4, bs) == Got(s.longTerm, bs8)
    requires ReadSpsTail(bs8) == Got(s.tail, rest)
    ensures ReadSpsEnd(s, p, bs) == Got((s, p), rest)
  {
    hide ReadLong;
    hide ReadSpsTail;
  }

  // ---------------------------------------------------------------- long-term entries

  lemma {:induction false} BitsOfSmall(v: nat, m: nat, n: nat)
    requires v < Pow2(n)
    ensures Bits(v, m + n) == Zeros(m) + Bits(v, n)
  {
    BitsSplit(v, m, n);
    ShrBelow(v, 0, n);
    BitsOfZero(m);
  }

  lemma {:induction false} ShrHalves(v: nat, k: nat)
    ensures Shr(v, k) <= v && (k > 0 ==> Shr(v, k) <= v / 2)
    decreases k
  {
    if k == 0 {
    } else {
      ShrHalves(v / 2, k - 1);
    }
  }

  /** If two codes of a and b agree on n bits, so do the numbers shifted to n bits. */
  lemma SamePrefix(a: nat, n: nat, b: nat, k: nat, r: seq<bool>, s: seq<bool>)
    requires a < Pow2(n) && b < Pow2(n + k) && Bits(a, n) + r == Bits(b, n + k) + s
    ensures a == Shr(b, k)
  {
    hide Bits;
    hide Shr;
    BitsSplit(b, n, k);
    assert (Bits(a, n) + r)[..n] == Bits(a, n);
    assert (Bits(b, n + k) + s)[..n] == Bits(Shr(b, k), n);
    ShrBelow(b, n, k);
    ValueOfBits(a, n);
    ValueOfBits(Shr(b, k), n);
  }

  lemma UeAsBits(x: nat, z: nat)
    requires z == BitLength(x + 1) - 1
    ensures UeBits(x) == Bits(x + 1, 2 * z + 1) && x + 1 < Pow2(2 * z + 1)
  {
    hide Bits;
    BitLengthBounds(x + 1);
    BitsOfSmall(x + 1, z, z + 1);
    Pow2Monotone(z + 1, 2 * z + 1);
    assert z + (z + 1) == 2 * z + 1;
  }

  /** A number below 2^n and its successor below 2^m start differently if n is at least 4. */
  lemma NoCommonCode(x: nat, n: nat, m: nat, r: seq<bool>, s: seq<bool>)
    requires x < Pow2(n) && x + 1 < Pow2(m) && n >= 4 && (x <= 1 ==> m <= 3)
    ensures Bits(x, n) + r != Bits(x + 1, m) + s
  {
    hide Bits;
    hide Shr;
    hide Pow2;
    if Bits(x, n) + r == Bits(x + 1, m) + s {
      if n <= m {
        var k := m - n;
        SamePrefix(x, n, x + 1, k, r, s);
        ShrHalves(x + 1, k);
        ShrZero(x + 1);
      } else {
        var k := n - m;
        SamePrefix(x + 1, m, x, k, s, r);
        ShrHalves(x, k);
      }
    }
  }

  /** An entry printed as ue(v) is never read back as a u(v) of four bits or more. */
  lemma UeIsNotU(x: nat, n: nat, r: seq<bool>)
    requires n >= 4 && ReadU(n, UeBits(x) + r).Got?
    ensures ReadU(n, UeBits(x) + r).value != x
  {
    hide Bits;
    hide UeBits;
    hide ReadU;
    hide BitLength;
    hide Pow2;
    BitLengthBounds(x + 1);
    var z := BitLength(x + 1) - 1;
    UeAsBits(x, z);
    SmallLength(x, z);
    UCanonical(n, UeBits(x) + r);
    if x < Pow2(n) {
      NoCommonCode(x, n, 2 * z + 1, ReadU(n, UeBits(x) + r).rest, r);
    }
  }

  lemma ShrZero(v: nat)
    ensures Shr(v, 0) == v
  {
  }

  lemma SmallLength(x: nat, z: nat)
    requires z == BitLength(x + 1) - 1
    ensures x <= 1 ==> z <= 1
  {
  }

  // ---------------------------------------------------------------- what is left of the input

  /** `t` is what is left of `bs` after some prefix. */
  predicate Suffix(t: seq<bool>, bs: seq<bool>) { |t| <= |bs| && bs[|bs| - |t|..] == t }

  lemma SuffixTwice(t: seq<bool>, u: seq<bool>, bs: seq<bool>)
    requires Suffix(t, u) && Suffix(u, bs)
    ensures Suffix(t, bs)
  {
    assert bs[|bs| - |t|..] == bs[|bs| - |u|..][|u| - |t|..];
  }

  lemma SuffixOf(a: seq<bool>, t: seq<bool>)
    ensures Suffix(t, a + t)
  {
  }

  lemma LeavesAll(ks: seq<Kind>, bs: seq<bool>)
    requires ReadAll(ks, bs).Got?
    ensures Suffix(ReadAll(ks, bs).rest, bs)
  {
    hide ReadAll;
    hide AllBits;
    ListCanonical(ks, bs);
  }

  lemma LeavesU(n: nat, bs: seq<bool>)
    requires ReadU(n, bs).Got?
    ensures Suffix(ReadU(n, bs).rest, bs)
  {
  }

  lemma LeavesProfile(maxSubLayers: nat, bs: seq<bool>)
    requires ReadProfile(maxSubLayers, bs).Got?
    ensures Suffix(ReadProfile(maxSubLayers, bs).rest, bs)
  {
    hide ReadAll;
    hide ProfileOf;
    LeavesAll(ProfileKinds(), bs);
    var bs1 := ReadAll(ProfileKinds(), bs).rest;
    LeavesSubLayers(maxSubLayers, bs1);
    SuffixTwice(SkipSubLayers(maxSubLayers, bs1).rest, bs1, bs);
  }

  lemma LeavesSubLayers(n: nat, bs: seq<bool>)
    requires SkipSubLayers(n, bs).Got?
    ensures Suffix(SkipSubLayers(n, bs).rest, bs)
  {
    hide ReadAll;
    hide SubLayerBits;
    if n > 0 {
      var ks := Repeat(KU(1), 2 * n) + Repeat(KU(2), 8 - n);
      LeavesAll(ks, bs);
      SuffixTwice(SkipSubLayers(n, bs).rest, ReadAll(ks, bs).rest, bs);
    }
  }

  lemma {:induction false} LeavesOrderings(n: nat, bs: seq<bool>)
    requires ReadOrderings(n, bs).Got?
    ensures Suffix(ReadOrderings(n, bs).rest, bs)
  {
    hide ReadAll;
    if n == 0 {
    } else {
      LeavesAll([KUe, KUe, KUe], bs);
      var bs1 := ReadAll([KUe, KUe, KUe], bs).rest;
      LeavesOrderings(n - 1, bs1);
      SuffixTwice(ReadOrderings(n - 1, bs1).rest, bs1, bs);
    }
  }

  lemma LeavesFormat(bs: seq<bool>)
    requires ReadFormat(bs).Got?
    ensures Suffix(ReadFormat(bs).rest, bs)
  {
    hide ReadAll;
    hide ReadU;
    LeavesAll([KUe, KUe], bs);
    var (es, bs1) := ReadAll([KUe, KUe], bs).Extract();
    if Num(es[1]) == 3 {
      LeavesU(1, bs1);
      SuffixTwice(ReadU(1, bs1).rest, bs1, bs);
    }
  }

  lemma LeavesSize(bs: seq<bool>)
    requires ReadSize(bs).Got?
    ensures Suffix(ReadSize(bs).rest, bs)
  {
    hide ReadAll;
    var ks := [KUe, KUe, KU(1)];
    LeavesAll(ks, bs);
    var (es, bs1) := ReadAll(ks, bs).Extract();
    if Num(es[2]) != 0 {
      LeavesAll(Repeat(KUe, 4), bs1);
      SuffixTwice(ReadAll(Repeat(KUe, 4), bs1).rest, bs1, bs);
    }
  }

  lemma LeavesDepths(n: nat, bs: seq<bool>)
    requires ReadDepths(n, bs).Got?
    ensures Suffix(ReadDepths(n, bs).rest, bs)
  {
    hide ReadAll;
    hide ReadOrderings;
    var ks := [KUe, KUe, KUe, KU(1)];
    LeavesAll(ks, bs);
    var (es, bs1) := ReadAll(ks, bs).Extract();
    LeavesOrderings(OrderingCount(Num(es[3]), n), bs1);
    SuffixTwice(ReadDepths(n, bs).rest, bs1, bs);
  }

  lemma LeavesCoding(bs: seq<bool>)
    requires ReadCoding(bs).Got?
    ensures Suffix(ReadCoding(bs).rest, bs)
  {
    hide ReadAll;
    hide CodingOf;
    LeavesAll(CodingKinds(), bs);
    var (es, bs1) := ReadAll(CodingKinds(), bs).Extract();
    if Num(es[9]) != 0 {
      LeavesAll([KU(4), KU(4), KUe, KUe, KU(1)], bs1);
      SuffixTwice(ReadCoding(bs).rest, bs1, bs);
    }
  }

  lemma {:induction false} LeavesDeltas(n: nat, bs: seq<bool>)
    requires ReadDeltas(n, bs).Got?
    ensures Suffix(ReadDeltas(n, bs).rest, bs)
  {
    hide ReadAll;
    if n == 0 {
    } else {
      LeavesAll([KUe, KU(1)], bs);
      var bs1 := ReadAll([KUe, KU(1)], bs).rest;
      LeavesDeltas(n - 1, bs1);
      SuffixTwice(ReadDeltas(n - 1, bs1).rest, bs1, bs);
    }
  }

  lemma LeavesRefSet(first: bool, bs: seq<bool>)
    requires ReadRefSet(first, bs).Got?
    ensures Suffix(ReadRefSet(first, bs).rest, bs)
  {
    hide ReadAll;
    hide ReadDeltas;
    var ks := if first then [] else [KU(1)];
    LeavesAll(ks, bs);
    var bs0 := ReadAll(ks, bs).rest;
    LeavesAll([KUe, KUe], bs0);
    var (es, bs1) := ReadAll([KUe, KUe], bs0).Extract();
    LeavesDeltas(Num(es[0]), bs1);
    var bs2 := ReadDeltas(Num(es[0]), bs1).rest;
    LeavesDeltas(Num(es[1]), bs2);
    SuffixTwice(ReadDeltas(Num(es[1]), bs2).rest, bs2, bs1);
    SuffixTwice(ReadDeltas(Num(es[1]), bs2).rest, bs1, bs0);
    SuffixTwice(ReadDeltas(Num(es[1]), bs2).rest, bs0, bs);
  }

  lemma {:induction false} LeavesRefSets(n: nat, first: bool, bs: seq<bool>)
    requires ReadRefSets(n, first, bs).Got?
    ensures Suffix(ReadRefSets(n, first, bs).rest, bs)
    decreases n
  {
    hide ReadRefSet;
    if n == 0 {
    } else {
      LeavesRefSet(first, bs);
      var bs1 := ReadRefSet(first, bs).rest;
      LeavesRefSets(n - 1, false, bs1);
      SuffixTwice(ReadRefSets(n - 1, false, bs1).rest, bs1, bs);
    }
  }

  lemma LeavesSets(bs: seq<bool>)
    requires ReadSets(bs).Got?
    ensures Suffix(ReadSets(bs).rest, bs)
  {
    hide UeBits;
    hide ReadUe;
    hide ReadRefSets;
    UeCanonical(bs);
    var (n, bs1) := ReadUe(bs).Extract();
    SuffixOf(UeBits(n), bs1);
    LeavesRefSets(n, true, bs1);
    SuffixTwice(ReadRefSets(n, true, bs1).rest, bs1, bs);
  }

  lemma LeavesMiddle(n: nat, bs: seq<bool>)
    requires ReadMiddle(n, bs).Got?
    ensures Suffix(ReadMiddle(n, bs).rest, bs)
  {
    hide Suffix;
    hide ReadFormat;
    hide ReadSize;
    hide ReadDepths;
    hide ReadCoding;
    hide ReadSets;
    LeavesFormat(bs);
    var bs3 := ReadFormat(bs).rest;
    LeavesSize(bs3);
    var bs4 := ReadSize(bs3).rest;
    LeavesDepths(n, bs4);
    var bs5 := ReadDepths(n, bs4).rest;
    LeavesCoding(bs5);
    var bs6 := ReadCoding(bs5).rest;
    LeavesSets(bs6);
    var bs7 := ReadSets(bs6).rest;
    SuffixTwice(bs7, bs6, bs5);
    SuffixTwice(bs7, bs5, bs4);
    SuffixTwice(bs7, bs4, bs3);
    SuffixTwice(bs7, bs3, bs);
  }

  // ---------------------------------------------------------------- the last long-term entry

  /** The last bit of the entry that ends `n` bits before the end of `bs`; its flag follows. */
  function LastBit(bs: seq<bool>, n: nat): bool
    requires n + 2 <= |bs|
  {
    bs[|bs| - n - 2]
  }

  lemma LastBitOfSuffix(t: seq<bool>, bs: seq<bool>, n: nat)
    requires Suffix(t, bs) && n + 2 <= |t|
    ensures n + 2 <= |bs| && LastBit(bs, n) == LastBit(t, n)
  {
    assert LastBit(t, n) == bs[|bs| - |t|..][|t| - n - 2];
  }

  lemma LastOfBits(v: nat, n: nat)
    requires n > 0
    ensures Bits(v, n)[n - 1] == (v % 2 == 1)
  {
  }

  /** A reader that takes long-term entries finds the low bit of the last number there. */
  lemma {:induction false} LastBitRead(n: nat, width: nat, bs: seq<bool>)
    requires n > 0 && width > 0 && ReadLongTerms(n, width, bs).Got?
    ensures var r := ReadLongTerms(n, width, bs);
            && Suffix(r.rest, bs) && |r.rest| + 2 <= |bs|
            && LastBit(bs, |r.rest|) == (r.value[n - 1].lsb % 2 == 1)
    decreases n
  {
    hide ReadAll;
    hide AllBits;
    hide Suffix;
    var ks := [KU(width), KU(1)];
    LeavesAll(ks, bs);
    var bs1 := ReadAll(ks, bs).rest;
    if n == 1 {
      EntryRead(width, bs);
    } else {
      LastBitRead(n - 1, width, bs1);
      var rest := ReadLongTerms(n - 1, width, bs1).rest;
      SuffixTwice(rest, bs1, bs);
      LastBitOfSuffix(bs1, bs, |rest|);
    }
  }

  lemma EntryRead(width: nat, bs: seq<bool>)
    requires width > 0 && ReadAll([KU(width), KU(1)], bs).Got?
    ensures var r := ReadAll([KU(width), KU(1)], bs);
            |r.rest| + 2 <= |bs| && LastBit(bs, |r.rest|) == (Num(r.value[0]) % 2 == 1)
  {
    hide ReadAll;
    hide AllBits;
    hide Bits;
    var ks := [KU(width), KU(1)];
    ListCanonical(ks, bs);
    var (es, rest) := ReadAll(ks, bs).Extract();
    var x, f := Num(es[0]), Num(es[1]);
    assert KindOf(es[0]) == ks[0] && KindOf(es[1]) == ks[1];
    assert es == [U(width, x)] + [U(1, f)];
    AllBitsOfList(U(width, x), [U(1, f)]);
    AllBitsOf(U(1, f));
    assert bs == Bits(x, width) + Bits(f, 1) + rest;
    LastOfBits(x, width);
  }

  /** The printer puts the low bit of the number plus one there. */
  lemma {:induction false} LastBitPrinted(ls: seq<LongTerm>, tail: seq<bool>)
    requires |ls| > 0
    ensures var bs := AllBits(LongTermElems(ls)) + tail;
            |tail| + 2 <= |bs| && LastBit(bs, |tail|) == ((ls[|ls| - 1].lsb + 1) % 2 == 1)
    decreases |ls|
  {
    hide AllBits;
    hide UeBits;
    hide Bits;
    var l, more := ls[0], LongTermElems(ls[1..]);
    AllBitsOfList(Ue(l.lsb), [U(1, l.used)] + more);
    AllBitsOfList(U(1, l.used), more);
    assert LongTermElems(ls) == [Ue(l.lsb)] + ([U(1, l.used)] + more);
    var head := UeBits(l.lsb) + Bits(l.used, 1);
    assert AllBits(LongTermElems(ls)) + tail == head + (AllBits(more) + tail);
    if |ls| == 1 {
      NoBits(tail);
      LastOfUe(l.lsb);
    } else {
      LastBitPrinted(ls[1..], tail);
      SuffixOf(head, AllBits(more) + tail);
      LastBitOfSuffix(AllBits(more) + tail, head + (AllBits(more) + tail), |tail|);
    }
  }

  lemma LastOfUe(v: nat)
    ensures |UeBits(v)| > 0 && UeBits(v)[|UeBits(v)| - 1] == ((v + 1) % 2 == 1)
  {
    BitLengthBounds(v + 1);
    LastOfBits(v + 1, BitLength(v + 1));
  }

  // ---------------------------------------------------------------- sub-layers

  lemma TookFormat(bs: seq<bool>)
    requires ReadFormat(bs).Got?
    ensures |bs| == |AllBits(FormatElems(ReadFormat(bs).value))| + |ReadFormat(bs).rest|
  {
    hide AllBits;
    hide ReadAll;
    var ks := [KUe, KUe];
    TookList(ks, bs);
    var (es, bs1) := ReadAll(ks, bs).Extract();
    assert Kinds(es)[0] == KUe && Kinds(es)[1] == KUe;
    assert es == [Ue(Num(es[0])), Ue(Num(es[1]))];
    if Num(es[1]) == 3 {
      var planes := ReadU(1, bs1).value;
      AllBitsAppend(es, [U(1, planes)]);
      AllBitsOf(U(1, planes));
    } else {
      assert es + [] == es;
    }
  }

  lemma TookSize(bs: seq<bool>)
    requires ReadSize(bs).Got?
    ensures |bs| == |AllBits(SizeElems(ReadSize(bs).value))| + |ReadSize(bs).rest|
  {
    hide AllBits;
    hide ReadAll;
    var ks := [KUe, KUe, KU(1)];
    TookList(ks, bs);
    var (es, bs1) := ReadAll(ks, bs).Extract();
    assert Kinds(es)[0] == KUe && Kinds(es)[1] == KUe && Kinds(es)[2] == KU(1);
    OneBit(ks, bs, 2);
    assert es == [Ue(Num(es[0])), Ue(Num(es[1])), U(1, Num(es[2]))];
    if Num(es[2]) == 0 {
      assert es + [] == es;
    } else {
      TookList(Repeat(KUe, 4), bs1);
      var ws := ReadAll(Repeat(KUe, 4), bs1).value;
      assert forall i :: 0 <= i < 4 ==> Kinds(ws)[i] == KUe;
      assert ws == WindowElems(ReadSize(bs).value.window);
      AllBitsAppend(es, ws);
    }
  }

  /** A flag that was read is 0 or 1. */
  lemma {:induction false} OneBit(ks: seq<Kind>, bs: seq<bool>, i: nat)
    requires ReadAll(ks, bs).Got? && i < |ks| && ks[i] == KU(1)
    ensures Num(ReadAll(ks, bs).value[i]) <= 1
    decreases |ks|
  {
    var (e, bs1) := ReadElem(ks[0], bs).Extract();
    if i == 0 {
      UCanonical(1, bs);
      assert Pow2(1) == 2;
    } else {
      OneBit(ks[1..], bs1, i - 1);
    }
  }

  function DepthsRead(d: Depths): seq<Elem> {
    [Ue(d.luma), Ue(d.chroma), Ue(d.log2MaxLsbMinus4), U(1, d.orderingPresent)] + OrderingElems(d.ordering)
  }

  lemma TookDepths(n: nat, bs: seq<bool>)
    requires ReadDepths(n, bs).Got?
    ensures |bs| == |AllBits(DepthsRead(ReadDepths(n, bs).value))| + |ReadDepths(n, bs).rest|
  {
    hide AllBits;
    hide ReadAll;
    hide ReadOrderings;
    hide OrderingElems;
    var ks := [KUe, KUe, KUe, KU(1)];
    TookList(ks, bs);
    var (es, bs1) := ReadAll(ks, bs).Extract();
    assert Kinds(es)[0] == KUe && Kinds(es)[1] == KUe && Kinds(es)[2] == KUe && Kinds(es)[3] == KU(1);
    assert es == [Ue(Num(es[0])), Ue(Num(es[1])), Ue(Num(es[2])), U(1, Num(es[3]))];
    TookOrderings(OrderingCount(Num(es[3]), n), bs1);
    AllBitsAppend(es, OrderingElems(ReadDepths(n, bs).value.ordering));
  }

  lemma TookPcm(enabled: nat, bs: seq<bool>)
    requires ReadPcm(enabled, bs).Got?
    ensures |bs| == |AllBits(PcmElems(ReadPcm(enabled, bs).value))| + |ReadPcm(enabled, bs).rest|
  {
    hide AllBits;
    hide ReadAll;
    NoBits(bs);
    if enabled != 0 {
      var ks := [KU(4), KU(4), KUe, KUe, KU(1)];
      TookList(ks, bs);
      var es := ReadAll(ks, bs).value;
      assert Kinds(es)[0] == KU(4) && Kinds(es)[1] == KU(4) && Kinds(es)[2] == KUe && Kinds(es)[3] == KUe
        && Kinds(es)[4] == KU(1);
      assert es == PcmElems(ReadPcm(enabled, bs).value);
    }
  }

  lemma CodingOfFlags(es: seq<Elem>, pcm: Option<Pcm>)
    requires Kinds(es) == CodingKinds() && |es| == 10 && Num(es[6]) == 0 && Num(es[9]) == Present(pcm)
    ensures CodingFlags(CodingOf(es, pcm)) == es
  {
    assert forall i :: 0 <= i < 6 ==> Kinds(es)[i] == KUe;
    assert forall i :: 6 <= i < 10 ==> Kinds(es)[i] == KU(1);
  }

  lemma TookCoding(bs: seq<bool>)
    requires ReadCoding(bs).Got?
    ensures |bs| == |AllBits(CodingElems(ReadCoding(bs).value))| + |ReadCoding(bs).rest|
  {
    hide AllBits;
    hide ReadAll;
    hide CodingElems;
    hide PcmElems;
    hide CodingFlags;
    TookList(CodingKinds(), bs);
    var (es, bs1) := ReadAll(CodingKinds(), bs).Extract();
    OneBit(CodingKinds(), bs, 9);
    TookPcm(Num(es[9]), bs1);
    var c := ReadCoding(bs).value;
    CodingOfFlags(es, c.pcm);
    CodingFlagsAre(c);
    AllBitsAppend(es, PcmElems(c.pcm));
  }

  lemma {:induction false} TookDeltas(n: nat, bs: seq<bool>)
    requires ReadDeltas(n, bs).Got?
    ensures |bs| == |AllBits(DeltaElems(ReadDeltas(n, bs).value))| + |ReadDeltas(n, bs).rest|
  {
    hide AllBits;
    hide ReadAll;
    NoBits(bs);
    if n == 0 {
    } else {
      var ks := [KUe, KU(1)];
      TookList(ks, bs);
      var (es, bs1) := ReadAll(ks, bs).Extract();
      TookDeltas(n - 1, bs1);
      var ds := ReadDeltas(n, bs).value;
      assert Kinds(es)[0] == KUe && Kinds(es)[1] == KU(1);
      assert es == [Ue(ds[0].pocMinus1), U(1, ds[0].used)];
      AllBitsAppend(es, DeltaElems(ds[1..]));
    }
  }

  lemma TookInter(first: bool, bs: seq<bool>)
    requires ReadAll(if first then [] else [KU(1)], bs).Got?
    requires var es := ReadAll(if first then [] else [KU(1)], bs).value; !first ==> Num(es[0]) == 0
    ensures |bs| == |AllBits(if first then [] else [U(1, 0)])| + |ReadAll(if first then [] else [KU(1)], bs).rest|
  {
    hide AllBits;
    hide ReadAll;
    var ks := if first then [] else [KU(1)];
    TookList(ks, bs);
    var es := ReadAll(ks, bs).value;
    if first {
      assert es == [];
    } else {
      assert Kinds(es)[0] == KU(1);
      assert es == [U(1, 0)];
    }
  }

  lemma TookCounts(bs: seq<bool>)
    requires ReadAll([KUe, KUe], bs).Got?
    ensures var r := ReadAll([KUe, KUe], bs);
            |bs| == |AllBits([Ue(Num(r.value[0])), Ue(Num(r.value[1]))])| + |r.rest|
  {
    hide AllBits;
    hide ReadAll;
    TookList([KUe, KUe], bs);
    var es := ReadAll([KUe, KUe], bs).value;
    assert Kinds(es)[0] == KUe && Kinds(es)[1] == KUe;
    assert es == [Ue(Num(es[0])), Ue(Num(es[1]))];
  }

  lemma TookRefSet(first: bool, bs: seq<bool>)
    requires ReadRefSet(first, bs).Got?
    ensures |bs| == |AllBits(RefSetElems(ReadRefSet(first, bs).value, first))| + |ReadRefSet(first, bs).rest|
  {
    hide AllBits;
    hide ReadAll;
    hide ReadDeltas;
    hide DeltaElems;
    TookInter(first, bs);
    var bs0 := ReadAll(if first then [] else [KU(1)], bs).rest;
    TookCounts(bs0);
    var (es, bs1) := ReadAll([KUe, KUe], bs0).Extract();
    TookDeltas(Num(es[0]), bs1);
    TookDeltas(Num(es[1]), ReadDeltas(Num(es[0]), bs1).rest);
    var r := ReadRefSet(first, bs).value;
    var counts := [Ue(Num(es[0])), Ue(Num(es[1]))];
    var n, p := DeltaElems(r.negative), DeltaElems(r.positive);
    AllBitsAppend(n, p);
    AllBitsAppend(counts, n + p);
    AllBitsAppend(if first then [] else [U(1, 0)], counts + (n + p));
  }

  lemma {:induction false} TookRefSets(n: nat, first: bool, bs: seq<bool>)
    requires ReadRefSets(n, first, bs).Got?
    ensures |bs| == |AllBits(RefSetsElems(ReadRefSets(n, first, bs).value, first))| + |ReadRefSets(n, first, bs).rest|
    decreases n
  {
    hide AllBits;
    hide ReadRefSet;
    hide RefSetElems;
    NoBits(bs);
    if n == 0 {
    } else {
      TookRefSet(first, bs);
      var (s, bs1) := ReadRefSet(first, bs).Extract();
      TookRefSets(n - 1, false, bs1);
      var ss := ReadRefSets(n - 1, false, bs1).value;
      assert ([s] + ss)[1..] == ss;
      AllBitsAppend(RefSetElems(s, first), RefSetsElems(ss, false));
    }
  }

  lemma TookSets(bs: seq<bool>)
    requires ReadSets(bs).Got?
    ensures |bs| == |AllBits(SetsElems(ReadSets(bs).value))| + |ReadSets(bs).rest|
  {
    hide AllBits;
    hide ReadRefSets;
    hide RefSetsElems;
    UeCanonical(bs);
    var (n, bs1) := ReadUe(bs).Extract();
    TookRefSets(n, true, bs1);
    AllBitsAppend([Ue(n)], RefSetsElems(ReadSets(bs).value, true));
    AllBitsOf(Ue(n));
  }

  lemma TookLong(width: nat, bs: seq<bool>)
    requires ReadLong(width, bs).Got? && NoLongTerm(ReadLong(width, bs).value)
    ensures |bs| == |AllBits(LongElems(ReadLong(width, bs).value))| + |ReadLong(width, bs).rest|
  {
    hide AllBits;
    hide ReadUe;
    hide ReadU;
    TookU(1, bs);
    OneFlag();
    var (present, bs1) := ReadU(1, bs).Extract();
    if present != 0 {
      UeCanonical(bs1);
      assert ReadLong(width, bs).value.value == [];
      assert LongElems(Some([])) == [U(1, 1), Ue(0)];
    }
  }

  lemma OneFlag()
    ensures |AllBits([U(1, 0)])| == 1 && |AllBits([U(1, 1), Ue(0)])| == 1 + |UeBits(0)|
  {
    hide AllBits;
    hide UeBits;
    AllBitsOf(U(1, 0));
    AllBitsOf(Ue(0));
    AllBitsOfList(U(1, 1), [Ue(0)]);
    assert [U(1, 1)] + [Ue(0)] == [U(1, 1), Ue(0)];
  }

  lemma TookSpsTail(bs: seq<bool>)
    requires ReadSpsTail(bs).Got?
    ensures |bs| == 4 + |ReadSpsTail(bs).rest|
  {
    hide AllBits;
    hide ReadAll;
    var ks := Repeat(KU(1), 4);
    TookList(ks, bs);
    FixedWidth(ReadAll(ks, bs).value);
    WidthRepeat(1, 4);
  }

  /** The bits of the middle part. */
  function MiddleBits(format: Format, size: Size, depths: Depths, coding: Coding, sets: seq<RefSet>): nat {
    |AllBits(FormatElems(format))| + |AllBits(SizeElems(size))| + |AllBits(DepthsRead(depths))| +
    |AllBits(CodingElems(coding))| + |AllBits(SetsElems(sets))|
  }

  lemma TookMiddle(n: nat, bs: seq<bool>)
    requires ReadMiddle(n, bs).Got?
    ensures var r := ReadMiddle(n, bs);
            |bs| == MiddleBits(r.value.0, r.value.1, r.value.2, r.value.3, r.value.4) + |r.rest|
  {
    hide AllBits;
    hide ReadFormat;
    hide ReadSize;
    hide ReadDepths;
    hide ReadCoding;
    hide ReadSets;
    hide FormatElems;
    hide SizeElems;
    hide DepthsRead;
    hide CodingElems;
    hide SetsElems;
    TookFormat(bs);
    var bs3 := ReadFormat(bs).rest;
    TookSize(bs3);
    var bs4 := ReadSize(bs3).rest;
    TookDepths(n, bs4);
    var bs5 := ReadDepths(n, bs4).rest;
    TookCoding(bs5);
    TookSets(ReadCoding(bs5).rest);
  }

  lemma MiddleBitCount(s: Sps, b: seq<Elem>)
    requires s.head.maxSubLayers < |s.depths.ordering|
    ensures |AllBits(AfterProfile(s, b))| ==
            MiddleBits(s.format, s.size, CoveredDepths(s.depths, s.head.maxSubLayers), s.coding, s.refSets) +
              |AllBits(b)|
  {
    hide AllBits;
    hide FormatElems;
    hide SizeElems;
    hide CodingElems;
    hide SetsElems;
    hide OrderingElems;
    var e := SetsElems(s.refSets) + b;
    var d := CodingElems(s.coding) + e;
    var c := DepthsElems(s.depths, s.head.maxSubLayers) + d;
    AllBitsAppend(SetsElems(s.refSets), b);
    AllBitsAppend(CodingElems(s.coding), e);
    AllBitsAppend(DepthsElems(s.depths, s.head.maxSubLayers), d);
    AllBitsAppend(SizeElems(s.size), c);
    AllBitsAppend(FormatElems(s.format), SizeElems(s.size) + c);
  }

  lemma SpsHeadCount(h: SpsHead)
    ensures |AllBits(SpsHeadElems(h))| == 8
  {
    hide AllBits;
    var ks := [KU(4), KU(3), KU(1)];
    assert Kinds(SpsHeadElems(h)) == ks;
    FixedWidth(SpsHeadElems(h));
    assert ks[1..] == [KU(3), KU(1)] && [KU(3), KU(1)][1..] == [KU(1)] && [KU(1)][1..] == [];
  }

  lemma SpsTailCount(t: SpsTail)
    ensures |AllBits(SpsTailElems(t))| == 4
  {
    hide AllBits;
    assert Kinds(SpsTailElems(t)) == Repeat(KU(1), 4);
    FixedWidth(SpsTailElems(t));
    WidthRepeat(1, 4);
  }

  lemma SpsBitCount(s: Sps, p: Profile)
    requires SpsShape(s, p)
    ensures |AllBits(SpsElems(s, p))| ==
            108 + MiddleBits(s.format, s.size, CoveredDepths(s.depths, s.head.maxSubLayers), s.coding, s.refSets)
            + |AllBits(LongElems(s.longTerm))|
  {
    hide AllBits;
    hide SpsHeadElems;
    hide ProfileElems;
    hide AfterProfile;
    hide MiddleBits;
    hide LongElems;
    hide SpsTailElems;
    SpsElemsInParts(s, p);
    var b := AfterProfile(s, AfterSets(s));
    AllBitsAppend(ProfileElems(p), b);
    AllBitsAppend(SpsHeadElems(s.head), ProfileElems(p) + b);
    AllBitsAppend(LongElems(s.longTerm), SpsTailElems(s.tail));
    MiddleBitCount(s, AfterSets(s));
    SpsHeadCount(s.head);
    SpsTailCount(s.tail);
    ProfileBitCount(p);
  }

  /** Reading a set with sub-layers takes at least 16 bits more than were printed. */
  lemma SpsTook(s: Sps, p: Profile, bs: seq<bool>, rest: seq<bool>)
    requires ReadSps(bs) == Got((s, p), rest) && NoLongTerm(s.longTerm) && s.head.maxSubLayers > 0
    requires ReadSpsHead(bs).Got? && |bs| == 8 + |ReadSpsHead(bs).rest|
    ensures |bs| >= 124 + MiddleBits(s.format, s.size, s.depths, s.coding, s.refSets)
                    + |AllBits(LongElems(s.longTerm))| + |rest|
  {
    hide AllBits;
    hide ReadSps;
    hide ReadSpsHead;
    hide ReadProfile;
    hide ReadMiddle;
    hide ReadLong;
    hide ReadSpsTail;
    hide MiddleBits;
    hide LongElems;
    ReadSpsIs(bs);
    var (head, bs1) := ReadSpsHead(bs).Extract();
    TookProfile(head.maxSubLayers, bs1);
    var (_, bs2) := ReadProfile(head.maxSubLayers, bs1).Extract();
    TookMiddle(head.maxSubLayers, bs2);
    var (mid, bs7) := ReadMiddle(head.maxSubLayers, bs2).Extract();
    TookLong(mid.2.log2MaxLsbMinus4 + 4, bs7);
    TookSpsTail(ReadLong(mid.2.log2MaxLsbMinus4 + 4, bs7).rest);
  }

  /** With temporal sub-layers a set is never read back either: the reader takes at least 16
      bits for them that were not printed. */
  lemma SubLayersNotBack(s: Sps, p: Profile, rest: seq<bool>)
    requires SpsShape(s, p) && InRange(SpsElems(s, p)) && s.head.maxSubLayers > 0
    ensures ReadSps(AllBits(SpsElems(s, p)) + rest) != Got((SpsWritten(s), p), rest)
  {
    hide AllBits;
    hide ReadSps;
    hide ReadSpsHead;
    hide SpsHeadElems;
    hide ProfileElems;
    hide AfterProfile;
    hide MiddleBits;
    if !NoLongTerm(s.longTerm) {
      LongTermsNotBack(s, p, rest);
      return;
    }
    var bs := AllBits(SpsElems(s, p)) + rest;
    var more := ProfileElems(p) + AfterProfile(s, AfterSets(s));
    SpsElemsInParts(s, p);
    SpsHeadBack(s.head, more, rest);
    Split(SpsHeadElems(s.head), more, rest);
    SpsHeadCount(s.head);
    SpsBitCount(s, p);
    if ReadSps(bs) == Got((SpsWritten(s), p), rest) {
      SpsTook(SpsWritten(s), p, bs, rest);
    }
  }

  /** The part of a printed set from its long-term entries on. */
  lemma PrintedEnd(s: Sps, p: Profile, ls: seq<LongTerm>, rest: seq<bool>)
    requires SpsShape(s, p) && s.longTerm == Some(ls)
    ensures var end := AllBits(SpsTailElems(s.tail)) + rest;
            |end| == 4 + |rest| && Suffix(AllBits(LongTermElems(ls)) + end, AllBits(SpsElems(s, p)) + rest)
  {
    hide AllBits;
    hide SpsHeadElems;
    hide ProfileElems;
    hide FormatElems;
    hide SizeElems;
    hide DepthsElems;
    hide CodingElems;
    hide SetsElems;
    hide LongTermElems;
    hide SpsTailElems;
    hide Suffix;
    var before := SpsHeadElems(s.head) + ProfileElems(p) + FormatElems(s.format) + SizeElems(s.size) +
                  DepthsElems(s.depths, s.head.maxSubLayers) + CodingElems(s.coding) + SetsElems(s.refSets) +
                  [U(1, 1), Ue(|ls|)];
    var tail := SpsTailElems(s.tail);
    assert SpsElems(s, p) == before + (LongTermElems(ls) + tail);
    AllBitsAppend(before, LongTermElems(ls) + tail);
    AllBitsAppend(LongTermElems(ls), tail);
    SpsTailCount(s.tail);
    var end := AllBits(tail) + rest;
    assert AllBits(SpsElems(s, p)) + rest == AllBits(before) + (AllBits(LongTermElems(ls)) + end);
    SuffixOf(AllBits(before), AllBits(LongTermElems(ls)) + end);
  }

  /** A set with long-term entries is read from a string that has the low bit of the last
      number six places before the rest. */
  lemma LastBitOfSps(s: Sps, p: Profile, ls: seq<LongTerm>, bs: seq<bool>, rest: seq<bool>)
    requires ReadSps(bs) == Got((s, p), rest) && s.longTerm == Some(ls) && |ls| > 0
    ensures |rest| + 6 <= |bs| && LastBit(bs, |rest| + 4) == (ls[|ls| - 1].lsb % 2 == 1)
  {
    hide ReadSps;
    hide ReadSpsHead;
    hide ReadProfile;
    hide ReadMiddle;
    hide ReadLongTerms;
    hide ReadSpsTail;
    hide ReadU;
    hide ReadUe;
    hide Suffix;
    hide LastBit;
    ReadSpsIs(bs);
    var (head, bs1) := ReadSpsHead(bs).Extract();
    LeavesHead(bs);
    LeavesProfile(head.maxSubLayers, bs1);
    var bs2 := ReadProfile(head.maxSubLayers, bs1).rest;
    LeavesMiddle(head.maxSubLayers, bs2);
    var (mid, bs7) := ReadMiddle(head.maxSubLayers, bs2).Extract();
    var width := mid.2.log2MaxLsbMinus4 + 4;
    LastBitOfLong(width, bs7);
    var bs8 := ReadLong(width, bs7).rest;
    TookSpsTail(bs8);
    SuffixTwice(bs7, bs2, bs1);
    SuffixTwice(bs7, bs1, bs);
    LastBitOfSuffix(bs7, bs, |bs8|);
  }

  lemma LeavesHead(bs: seq<bool>)
    requires ReadSpsHead(bs).Got?
    ensures Suffix(ReadSpsHead(bs).rest, bs)
  {
    hide ReadAll;
    LeavesAll([KU(4), KU(3), KU(1)], bs);
  }

  lemma LastBitOfLong(width: nat, bs: seq<bool>)
    requires width > 0 && ReadLong(width, bs).Got?
    ensures var r := ReadLong(width, bs);
            !NoLongTerm(r.value) ==>
              && |r.rest| + 2 <= |bs|
              && LastBit(bs, |r.rest|) == (r.value.value[|r.value.value| - 1].lsb % 2 == 1)
  {
    hide ReadUe;
    hide ReadU;
    hide ReadLongTerms;
    hide Suffix;
    hide LastBit;
    if !NoLongTerm(ReadLong(width, bs).value) {
      LeavesU(1, bs);
      var bs1 := ReadU(1, bs).rest;
      UeCanonical(bs1);
      var (n, bs2) := ReadUe(bs1).Extract();
      SuffixOf(UeBits(n), bs2);
      LastBitRead(n, width, bs2);
      SuffixTwice(bs2, bs1, bs);
      LastBitOfSuffix(bs2, bs, |ReadLongTerms(n, width, bs2).rest|);
    }
  }

  /** With long-term entries a set is never read back: the last bit of the last of them is
      printed as that of its successor. */
  lemma LongTermsNotBack(s: Sps, p: Profile, rest: seq<bool>)
    requires SpsShape(s, p) && InRange(SpsElems(s, p)) && !NoLongTerm(s.longTerm)
    ensures ReadSps(AllBits(SpsElems(s, p)) + rest) != Got((SpsWritten(s), p), rest)
  {
    hide AllBits;
    hide ReadSps;
    hide SpsElems;
    hide SpsTailElems;
    hide LongTermElems;
    hide LastBit;
    hide Suffix;
    var bs, ls := AllBits(SpsElems(s, p)) + rest, s.longTerm.value;
    PrintedEnd(s, p, ls, rest);
    var end := AllBits(SpsTailElems(s.tail)) + rest;
    LastBitPrinted(ls, end);
    LastBitOfSuffix(AllBits(LongTermElems(ls)) + end, bs, |end|);
    if ReadSps(bs) == Got((SpsWritten(s), p), rest) {
      LastBitOfSps(SpsWritten(s), p, ls, bs, rest);
    }
  }

  /** A sequence parameter set is read back, reference sets and all, if and only if it has
      neither temporal sub-layers nor long-term entries. */
  lemma SpsRoundTrip(s: Sps, p: Profile, rest: seq<bool>)
    requires SpsShape(s, p) && InRange(SpsElems(s, p))
    ensures ReadSps(AllBits(SpsElems(s, p)) + rest) == Got((SpsWritten(s), p), rest) <==>
            s.head.maxSubLayers == 0 && NoLongTerm(s.longTerm)
  {
    hide AllBits;
    hide ReadSps;
    if !NoLongTerm(s.longTerm) {
      LongTermsNotBack(s, p, rest);
    } else if s.head.maxSubLayers == 0 {
      SpsBack(s, p, rest);
    } else {
      SubLayersNotBack(s, p, rest);
    }
  }
}
