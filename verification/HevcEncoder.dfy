/** The per-frame part of the encoder: display order, the two POC calls, the reference lists
    of the slice, and the list of held reference frames. Surfaces are numbered by slot. */
module HevcEncoder {
  import opened Arithmetic
  import opened HevcOrder
  import opened HevcPoc
  import opened HevcSort
  import opened HevcParamSets

  const NUM_REF_FRAMES := 2
  const SURFACE_NUM := 16

  /** The picture at POC `x` of the block that is displayed from `base` on; the stored POC is
      doubled. */
  function PictureAt(base: nat, x: int): Picture { Picture((base + x) % SURFACE_NUM, 2 * x) }

  /** The frames a decoder holds for reference when frame `e` is coded: the last anchor and
      the one before, newest first. */
  function HeldRefs(p: Periods, e: nat): seq<Picture>
    requires p.Valid() && Gop(p, e) > 0
  {
    HeldAt(IdrDisplay(p, e), LastAnchor(p, Gop(p, e)), Step(p))
  }

  function HeldAt(base: nat, last: nat, step: nat): seq<Picture> {
    if last < step then [PictureAt(base, 0)] else [PictureAt(base, last), PictureAt(base, last - step)]
  }

  class Encoder {
    const periods: Periods
    var msbRef: int
    var lsbRef: int
    var frameType: FrameType
    var pktIdx: nat
    var idrDisplay: nat
    var numShortTerm: nat
    var current: Picture
    const referenceFrames: array<Picture>
    const list0P: array<Picture>
    const list0B: array<Picture>
    const list1B: array<Picture>

    ghost predicate Arrays() {
      && periods.Valid()
      && referenceFrames.Length == 16 && list0P.Length == 32 && list0B.Length == 32 && list1B.Length == 32
      && referenceFrames != list0P && referenceFrames != list0B && referenceFrames != list1B
      && list0P != list0B && list0P != list1B && list0B != list1B
    }

    /** The state in which frame `e` is coded next. */
    ghost predicate Ready(e: nat)
      reads this, referenceFrames
    {
      && Arrays()
      && PocState(msbRef, lsbRef) == Statics(periods, e)
      && (Gop(periods, e) > 0 ==>
            && idrDisplay == IdrDisplay(periods, e)
            && numShortTerm == |HeldRefs(periods, e)|
            && referenceFrames[..numShortTerm] == HeldRefs(periods, e))
    }

    constructor (p: Periods)
      requires p.Valid()
      ensures Ready(0) && periods == p && fresh(referenceFrames) && fresh(list0P) && fresh(list0B) && fresh(list1B)
    {
      periods := p;
      msbRef, lsbRef, pktIdx, idrDisplay, numShortTerm := 0, 0, 0, 0, 0;
      frameType := IDR;
      current := Picture(0, 0);
      referenceFrames := new Picture[16](_ => Picture(0, 0));
      list0P := new Picture[32](_ => Picture(0, 0));
      list0B := new Picture[32](_ => Picture(0, 0));
      list1B := new Picture[32](_ => Picture(0, 0));
    }

    /** `calc_poc`. */
    method CalcPoc(lsb: int) returns (poc: int)
      modifies `msbRef, `lsbRef
      ensures poc == Poc(frameType, old(PocState(msbRef, lsbRef)), lsb)
      ensures PocState(msbRef, lsbRef) == Next(frameType, old(PocState(msbRef, lsbRef)), lsb)
    {
      var prevMsb, prevLsb := 0, 0;
      if frameType != IDR {
        prevMsb, prevLsb := msbRef, lsbRef;
      }
      var msb;
      if lsb < prevLsb && prevLsb - lsb >= MAX_LSB / 2 {
        msb := prevMsb + MAX_LSB;
      } else if lsb > prevLsb && lsb - prevLsb > MAX_LSB / 2 {
        msb := prevMsb - MAX_LSB;
      } else {
        msb := prevMsb;
      }
      poc := msb + lsb;
      if frameType != B {
        msbRef, lsbRef := msb, lsb;
      }
    }

    /** `update_ReferenceFrames`: the current picture goes to the front, the oldest drops out. */
    method UpdateReferenceFrames()
      requires referenceFrames.Length == 16 && numShortTerm <= NUM_REF_FRAMES
      modifies `numShortTerm, referenceFrames
      ensures frameType == B ==> numShortTerm == old(numShortTerm) && referenceFrames[..] == old(referenceFrames[..])
      ensures frameType != B ==> numShortTerm == Min(old(numShortTerm) + 1, NUM_REF_FRAMES)
      ensures frameType != B ==>
                referenceFrames[..numShortTerm] == ([current] + old(referenceFrames[..]))[..numShortTerm]
    {
      if frameType == B {
        return;
      }
      numShortTerm := numShortTerm + 1;
      if numShortTerm > NUM_REF_FRAMES {
        numShortTerm := NUM_REF_FRAMES;
      }
      var i := numShortTerm - 1;
      while i > 0
        invariant 0 <= i <= numShortTerm - 1 && numShortTerm == Min(old(numShortTerm) + 1, NUM_REF_FRAMES)
        invariant forall k :: 0 <= k <= i ==> referenceFrames[k] == old(referenceFrames[k])
        invariant forall k :: i < k < numShortTerm ==> referenceFrames[k] == old(referenceFrames[k - 1])
      {
        referenceFrames[i] := referenceFrames[i - 1];
        i := i - 1;
      }
      referenceFrames[0] := current;
      ghost var refs := ([current] + old(referenceFrames[..]))[..numShortTerm];
      assert forall k :: 0 <= k < numShortTerm ==> referenceFrames[k] == refs[k];
      assert referenceFrames[..numShortTerm] == refs;
    }

    method CopyReferences(list: array<Picture>)
      requires list != referenceFrames && list.Length == 32 && numShortTerm <= referenceFrames.Length <= 32
      modifies list
      ensures list[..numShortTerm] == referenceFrames[..numShortTerm]
    {
      forall k | 0 <= k < numShortTerm {
        list[k] := referenceFrames[k];
      }
    }

    /** `update_RefPicList`, for a P frame that has a reference and for a B frame between two. */
    method UpdateRefPicList()
      requires Arrays() && numShortTerm <= 2
      requires frameType == P ==> numShortTerm >= 1
      requires frameType == P && numShortTerm == 2 ==> referenceFrames[0].poc > referenceFrames[1].poc
      requires frameType == B ==> numShortTerm == 2 && referenceFrames[0].poc > current.poc > referenceFrames[1].poc
      modifies list0P, list0B, list1B
      ensures frameType == P ==> list0P[..numShortTerm] == referenceFrames[..numShortTerm]
      ensures frameType == B ==>
                && list0B[..2] == [referenceFrames[1], referenceFrames[0]]
                && list1B[..2] == [referenceFrames[0], referenceFrames[1]]
    {
      ghost var refs := referenceFrames[..numShortTerm];
      if frameType == P {
        CopyReferences(list0P);
        ghost var before := list0P[..];
        SortOne(list0P, 0, numShortTerm - 1, false);
        SortedAlready(before, list0P[..], numShortTerm);
      }
      if frameType == B {
        SortForB(list0B, true);
        SortForB(list1B, false);
      }
    }

    /** One list of a B frame: past first if ascending, future first otherwise. */
    method SortForB(list: array<Picture>, ascending: bool)
      requires list != referenceFrames && list.Length == 32 && referenceFrames.Length == 16 && numShortTerm == 2
      requires referenceFrames[0].poc > current.poc > referenceFrames[1].poc
      modifies list
      ensures list[..2] == if ascending then [referenceFrames[1], referenceFrames[0]]
                           else [referenceFrames[0], referenceFrames[1]]
    {
      CopyReferences(list);
      ghost var before := list[..];
      assert list[0] == list[..2][0] == referenceFrames[..2][0] && list[1] == list[..2][1] == referenceFrames[..2][1];
      ghost var n := SortTwo(list, 0, numShortTerm - 1, current.poc, ascending, !ascending, ascending,
                             if ascending then 0 else 1, if ascending then 1 else 0);
      TwoSplit(before, list[..], n, current.poc, ascending);
    }

    /** The two calls for one frame: in `render_picture`, which also fixes the current
        picture, and in `fill_slice_header`. */
    method CallTwice(e: nat) returns (poc: int, slicePoc: int)
      requires periods.Valid() && PocState(msbRef, lsbRef) == Statics(periods, e) && Step(periods) <= 256
      requires frameType == Order(periods, e).1 && pktIdx == Display(periods, e) && idrDisplay == IdrDisplay(periods, e)
      modifies `msbRef, `lsbRef, `current
      ensures PocState(msbRef, lsbRef) == Statics(periods, e + 1)
      ensures poc == slicePoc == TruePoc(periods, e)
      ensures current == Picture(pktIdx % SURFACE_NUM, poc * 2)
    {
      hide Gop;
      hide Order;
      hide Display;
      hide Statics;
      hide IdrDisplay;
      hide MsbFor;
      poc := CalcPoc((pktIdx - idrDisplay) % MAX_LSB);
      current := Picture(pktIdx % SURFACE_NUM, poc * 2);
      slicePoc := CalcPoc((pktIdx - idrDisplay) % MAX_LSB);
      PocsAreTrue(periods, e);
      StaticsAfter(periods, e);
    }

    /** The body of the loop in `encode_frames`, without the calls into the driver. */
    method EncodeFrame(e: nat) returns (poc: int, slicePoc: int)
      requires Ready(e) && Step(periods) <= 256
      modifies this, referenceFrames, list0P, list0B, list1B
      ensures Ready(e + 1)
      ensures frameType == Order(periods, e).1 && pktIdx == Display(periods, e)
      ensures poc == slicePoc == TruePoc(periods, e)
      ensures frameType == P ==> Gop(periods, e) > 0 && list0P[..|HeldRefs(periods, e)|] == HeldRefs(periods, e)
      ensures frameType == B ==> InBetween(periods, e, list0B[..2], list1B[..2])
    {
      hide Gop;
      hide LastAnchor;
      hide Order;
      hide Display;
      hide Statics;
      hide TruePoc;
      hide IdrDisplay;
      hide HeldRefs;
      hide InBetween;
      var (display, t) := Order(periods, e);
      pktIdx, frameType := display, t;
      FrameFacts(periods, e);
      if frameType == IDR {
        numShortTerm, idrDisplay := 0, pktIdx;
      }
      poc, slicePoc := CallTwice(e);
      HeldRefsOrdered(periods, e);
      ghost var held := if frameType == IDR then [] else HeldRefs(periods, e);
      assert referenceFrames[..numShortTerm] == held;
      FirstRefs(referenceFrames[..], held);
      UpdateRefPicList();
      if frameType == B {
        Between(periods, e, list0B[..2], list1B[..2]);
      }
      UpdateReferenceFrames();
      HeldRefsNext(periods, e, held, current);
      Shifted(current, old(referenceFrames[..]), held);
    }

    /** The loop of `encode_frames`: every frame gets its true POC, twice. */
    method EncodeFrames(frameCount: nat) returns (pocs: seq<(int, int)>)
      requires Ready(0) && Step(periods) <= 256
      modifies this, referenceFrames, list0P, list0B, list1B
      ensures |pocs| == frameCount
      ensures forall e :: 0 <= e < frameCount ==> pocs[e] == (TruePoc(periods, e), TruePoc(periods, e))
    {
      pocs := [];
      for e := 0 to frameCount
        invariant Ready(e) && |pocs| == e
        invariant forall k :: 0 <= k < e ==> pocs[k] == (TruePoc(periods, k), TruePoc(periods, k))
      {
        var poc, slicePoc := EncodeFrame(e);
        pocs := pocs + [(poc, slicePoc)];
      }
    }
  }

  function Min(a: nat, b: nat): nat { if a < b then a else b }

  /** The lists of a B frame: list 0 names the anchor before it and then the one after it,
      list 1 the other way round. */
  ghost predicate InBetween(p: Periods, e: nat, list0: seq<Picture>, list1: seq<Picture>)
    requires p.Valid()
  {
    && Gop(p, e) > 0
    && var last, base := LastAnchor(p, Gop(p, e)), IdrDisplay(p, e);
    && 0 <= last - Step(p) < TruePoc(p, e) < last
    && list0 == [PictureAt(base, last - Step(p)), PictureAt(base, last)]
    && list1 == [PictureAt(base, last), PictureAt(base, last - Step(p))]
  }

  lemma SortedAlready(before: seq<Picture>, after: seq<Picture>, n: nat)
    requires 1 <= n <= 2 && n <= |before| && PermutedWithin(before, after, 0, n - 1)
    requires Sorted(after[..n], false) && (n == 2 ==> before[0].poc > before[1].poc)
    ensures after[..n] == before[..n]
  {
    var s, t := before[0..n], after[0..n];
    assert s == before[..n] && t == after[..n];
    SameMembers(s, t);
    assert s[0] == before[0] && t[0] in s && s[0] in t;
    if n == 2 {
      assert s[1] == before[1] && t[1] in s && s[1] in t;
    }
  }

  lemma TwoSplit(before: seq<Picture>, after: seq<Picture>, n: nat, key: int, ascending: bool)
    requires |before| >= 2 && PermutedWithin(before, after, 0, 1) && 0 < n <= 1
    requires HevcSort.Split(after, 0, n, 1, key, ascending) && before[0].poc > key > before[1].poc
    ensures after[..2] == if ascending then [before[1], before[0]] else [before[0], before[1]]
  {
    var s, t := before[0..2], after[0..2];
    SameMembers(s, t);
    assert s[0] == before[0] && s[1] == before[1] && t[0] == after[0] && t[1] == after[1];
    assert t[0] in s && t[1] in s;
  }

  lemma FrameFacts(p: Periods, e: nat)
    requires p.Valid()
    ensures Display(p, e) == Order(p, e).0 && Display(p, e) - IdrDisplay(p, e) == TruePoc(p, e)
    ensures Order(p, e).1 == IDR <==> Gop(p, e) == 0
    ensures Gop(p, e) == 0 ==> Display(p, e) == IdrDisplay(p, e) == e
  {
    DisplayIs(p, e);
  }

  /** The held pictures surround a B frame, and are newest first. */
  lemma HeldRefsOrdered(p: Periods, e: nat)
    requires p.Valid()
    ensures Gop(p, e) > 0 ==>
              var h := HeldRefs(p, e);
              && 1 <= |h| <= 2
              && (|h| == 2 ==> h[0].poc > h[1].poc)
              && (Order(p, e).1 == B ==> |h| == 2 && h[0].poc > 2 * TruePoc(p, e) > h[1].poc)
              && (Order(p, e).1 == B ==>
                0 <= LastAnchor(p, Gop(p, e)) - Step(p) < TruePoc(p, e) < LastAnchor(p, Gop(p, e)))
  {
    if Gop(p, e) > 0 {
      PocsAroundAnchors(p, e);
    }
  }

  lemma Between(p: Periods, e: nat, list0: seq<Picture>, list1: seq<Picture>)
    requires p.Valid() && Gop(p, e) > 0 && Order(p, e).1 == B && |HeldRefs(p, e)| == 2
    requires list0 == [HeldRefs(p, e)[1], HeldRefs(p, e)[0]] && list1 == [HeldRefs(p, e)[0], HeldRefs(p, e)[1]]
    ensures InBetween(p, e, list0, list1)
  {
    PocsAroundAnchors(p, e);
  }

  lemma Shifted(current: Picture, refs: seq<Picture>, held: seq<Picture>)
    requires |held| <= NUM_REF_FRAMES && |refs| == 16 && refs[..|held|] == held
    ensures var n := Min(|held| + 1, NUM_REF_FRAMES); ([current] + refs)[..n] == ([current] + held)[..n]
  {
  }

  lemma FirstRefs(refs: seq<Picture>, held: seq<Picture>)
    requires |held| <= |refs| && refs[..|held|] == held
    ensures forall k :: 0 <= k < |held| ==> refs[k] == held[k]
  {
  }

  /** Coding a frame turns the held references into those of the next frame. */
  lemma HeldRefsNext(p: Periods, e: nat, held: seq<Picture>, current: Picture)
    requires p.Valid() && current == Picture(Display(p, e) % SURFACE_NUM, TruePoc(p, e) * 2)
    requires held == if Order(p, e).1 == IDR then [] else HeldRefs(p, e)
    ensures Gop(p, e + 1) > 0 ==>
              && IdrDisplay(p, e + 1) == IdrDisplay(p, e)
              && HeldRefs(p, e + 1) == (if Order(p, e).1 == B then held
                                        else ([current] + held)[..Min(|held| + 1, NUM_REF_FRAMES)])
  {
    hide IdrDisplay;
    hide TruePoc;
    hide Display;
    hide Gop;
    hide LastAnchor;
    hide Order;
    hide Statics;
    if Gop(p, e + 1) > 0 {
      NextInBlock(p, e + 1);
      FrameFacts(p, e);
      var base, s, g := IdrDisplay(p, e), Step(p), Gop(p, e);
      assert base + TruePoc(p, e) == Display(p, e);
      assert HeldRefs(p, e + 1) == HeldAt(base, LastAnchor(p, g + 1), s);
      if g == 0 {
        FirstAnchor(p);
      } else {
        assert HeldRefs(p, e) == HeldAt(base, LastAnchor(p, g), s);
        PocsAroundAnchors(p, e);
        AnchorMultiple(p, g);
      }
    }
  }

  lemma AnchorMultiple(p: Periods, g: nat)
    requires p.ip >= 1 && g >= 1
    ensures LastAnchor(p, g) >= Step(p) || LastAnchor(p, g) == 0
  {
    Multiples(Groups(p, g), Step(p));
  }

  // ---------------------------------------------------------------- the announced reference sets

  /** Sets that are filled in; those from this number on stay zero. */
  const FILLED_SETS := 64

  /** `fill_short_term_ref_pic_header` for one active reference: set number `index`. */
  function RefSetFor(ip: nat, index: nat): RefSet
    requires index < ip
  {
    if index >= FILLED_SETS then RefSet([], [])
    else if index == 0 then RefSet([Delta(ip - 1, 1)], [])
    else RefSet([Delta(index - 1, 1)], [Delta(ip - 1 - index, 1)])
  }

  /** The POCs that a set names for a picture with POC `poc`, one in each direction (equations
      7-61 to 7-66 of ITU-T H.265, for sets of at most one picture a side). */
  function NamedPocs(r: RefSet, poc: int): seq<int> {
    (if |r.negative| > 0 then [poc - (r.negative[0].pocMinus1 + 1)] else []) +
    (if |r.positive| > 0 then [poc + (r.positive[0].pocMinus1 + 1)] else [])
  }

  /** The slice header's index selects, for every inter frame of every run, the set that names
      exactly the anchors around it, if and only if that set is one of those filled in; the
      pictures held for what a set names are those of `HeldRefs`. */
  lemma SignalledReferencesAreHeld(p: Periods, e: nat)
    requires p.Valid() && Gop(p, e) > 0 && p.intra != 1
    ensures var last, poc := LastAnchor(p, Gop(p, e)), TruePoc(p, e);
            NamedPocs(RefSetFor(p.ip, poc % p.ip), poc) ==
              (if Order(p, e).1 == B then [last - p.ip, last] else [last])
            <==> poc % p.ip < FILLED_SETS
    ensures forall poc :: poc in NamedPocs(RefSetFor(p.ip, TruePoc(p, e) % p.ip), TruePoc(p, e)) ==>
              PictureAt(IdrDisplay(p, e), poc) in HeldRefs(p, e)
  {
    hide Gop;
    hide TruePoc;
    hide Order;
    var g, s := Gop(p, e), Step(p);
    var q, r := Divide(g - 1, s);
    AnchorsAre(p, g, q, r);
    TruePocIs(p, e);
    PocsAroundAnchors(p, e);
    var poc := TruePoc(p, e);
    if r == 0 {
      DivModUnique(poc, s, q + 1, 0) by { Multiples(q, s); }
    } else {
      DivModUnique(poc, s, q, r);
    }
    AnchorMultiple(p, g);
  }
}
