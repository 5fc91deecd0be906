/** Picture order counts: reconstructing them from their low bits (section 8.3.1 of ITU-T
    H.265), over whole runs of the encoder. */
module HevcPoc {
  import opened Arithmetic
  import opened HevcOrder

  const MAX_LSB := 512

  /** The two statics of `calc_poc`: the split POC of the last frame that was not a B frame. */
  datatype PocState = PocState(msb: int, lsb: int)

  function Split(poc: int): PocState { PocState(poc - poc % MAX_LSB, poc % MAX_LSB) }

  /** The most significant part that `calc_poc` chooses. */
  function MsbFor(prev: PocState, lsb: int): int {
    if lsb < prev.lsb && prev.lsb - lsb >= MAX_LSB / 2 then prev.msb + MAX_LSB
    else if lsb > prev.lsb && lsb - prev.lsb > MAX_LSB / 2 then prev.msb - MAX_LSB
    else prev.msb
  }

  function Start(t: FrameType, s: PocState): PocState { if t == IDR then PocState(0, 0) else s }

  /** The result of `calc_poc`. */
  function Poc(t: FrameType, s: PocState, lsb: int): int { MsbFor(Start(t, s), lsb) + lsb }

  /** The statics after `calc_poc`. */
  function Next(t: FrameType, s: PocState, lsb: int): PocState {
    if t == B then s else PocState(MsbFor(Start(t, s), lsb), lsb)
  }

  /** A POC is recovered from its low bits exactly when it is less than half the modulus below
      the previous one, and at most half of it above. */
  lemma RecoveredIff(prev: int, poc: int)
    ensures MsbFor(Split(prev), poc % MAX_LSB) + poc % MAX_LSB == poc <==> -256 < poc - prev <= 256
  {
    var a, b := prev / MAX_LSB, poc / MAX_LSB;
    assert prev == a * MAX_LSB + prev % MAX_LSB && poc == b * MAX_LSB + poc % MAX_LSB;
  }

  // ---------------------------------------------------------------- the run of the encoder

  /** Display position of the last IDR frame. */
  function IdrDisplay(p: Periods, e: nat): nat { e - Gop(p, e) }

  /** The true POC: the display distance from the last IDR frame. */
  function TruePoc(p: Periods, e: nat): (d: int)
    requires p.Valid()
  {
    Display(p, e) - IdrDisplay(p, e)
  }

  /** What `calc_poc` is called with. */
  function Lsb(p: Periods, e: nat): int
    requires p.Valid()
  {
    TruePoc(p, e) % MAX_LSB
  }

  /** The statics when frame `e` is about to be coded; every frame calls `calc_poc` twice. */
  function Statics(p: Periods, e: nat): PocState
    requires p.Valid()
    decreases e
  {
    if e == 0 then PocState(0, 0)
    else
      var t, lsb := Order(p, e - 1).1, Lsb(p, e - 1);
      Next(t, Next(t, Statics(p, e - 1), lsb), lsb)
  }

  function FirstPoc(p: Periods, e: nat): int
    requires p.Valid()
  {
    Poc(Order(p, e).1, Statics(p, e), Lsb(p, e))
  }

  function SecondPoc(p: Periods, e: nat): int
    requires p.Valid()
  {
    var t := Order(p, e).1;
    Poc(t, Next(t, Statics(p, e), Lsb(p, e)), Lsb(p, e))
  }

  /** Display distance between anchors. */
  function Step(p: Periods): nat { if p.intra == 1 then 1 else p.ip }

  /** Groups of frames that have begun before position `g` of a block. */
  function Groups(p: Periods, g: nat): nat
    requires p.ip >= 1 && g >= 1
  {
    (g - 1 + Step(p) - 1) / Step(p)
  }

  /** The POC of the last anchor coded before position `g`. */
  function LastAnchor(p: Periods, g: nat): nat
    requires p.ip >= 1 && g >= 1
  {
    Groups(p, g) * Step(p)
  }

  lemma GroupsAre(p: Periods, g: nat, q: nat, r: nat)
    requires p.ip >= 1 && g >= 1 && g - 1 == q * Step(p) + r && 0 <= r < Step(p)
    ensures Groups(p, g) == if r == 0 then q else q + 1
    ensures Groups(p, g + 1) == q + 1
    ensures (g - 1) % Step(p) == r
  {
    var s := Step(p);
    DivModUnique(g - 1, s, q, r);
    assert (q + 1) * s == q * s + s;
    if r == 0 {
      DivModUnique(g - 1 + s - 1, s, q, s - 1);
    } else {
      DivModUnique(g - 1 + s - 1, s, q + 1, r - 1);
    }
    DivModUnique(g + s - 1, s, q + 1, r);
  }

  /** The true POC of a frame in terms of its position in the block. */
  lemma TruePocIs(p: Periods, e: nat)
    requires p.Valid() && Gop(p, e) > 0
    ensures var g := Gop(p, e);
            && (Order(p, e).1 == B <==> (g - 1) % Step(p) != 0)
            && TruePoc(p, e) == if Order(p, e).1 == B then g - 1 else g + Step(p) - 1
  {
    DisplayIs(p, e);
    if p.intra == 1 {
      ModOne(Gop(p, e) - 1);
    }
  }

  lemma Multiples(q: nat, s: nat)
    requires s >= 1
    ensures (q + 1) * s == q * s + s && q * s >= 0 && (q >= 1 ==> q * s >= s)
  {
    if q >= 1 {
      MulMonotone(1, q, s);
    }
    MulMonotone(0, q, s);
  }

  /** An anchor is one step after the last anchor; a B frame is less than one step before it. */
  lemma PocsAroundAnchors(p: Periods, e: nat)
    requires p.Valid() && Gop(p, e) > 0
    ensures var g, s := Gop(p, e), Step(p);
            if Order(p, e).1 == B
            then s >= 2 && LastAnchor(p, g) >= s && LastAnchor(p, g) - s < TruePoc(p, e) < LastAnchor(p, g)
                 && LastAnchor(p, g + 1) == LastAnchor(p, g)
            else TruePoc(p, e) == LastAnchor(p, g) + s && LastAnchor(p, g + 1) == TruePoc(p, e)
  {
    hide TruePoc;
    hide Order;
    hide Gop;
    hide LastAnchor;
    var q, r := Divide(Gop(p, e) - 1, Step(p));
    AnchorsAre(p, Gop(p, e), q, r);
    TruePocIs(p, e);
    Around(Gop(p, e), Step(p), q * Step(p), r, LastAnchor(p, Gop(p, e)), LastAnchor(p, Gop(p, e) + 1),
           TruePoc(p, e), Order(p, e).1 == B);
  }

  lemma Divide(x: nat, m: nat) returns (q: nat, r: nat)
    requires m > 0
    ensures x == q * m + r && r < m
  {
    DivMod(x, m);
    q, r := x / m, x % m;
  }

  lemma AnchorsAre(p: Periods, g: nat, q: nat, r: nat)
    requires p.ip >= 1 && g >= 1 && g - 1 == q * Step(p) + r && 0 <= r < Step(p)
    ensures q * Step(p) >= 0 && (g - 1) % Step(p) == r
    ensures LastAnchor(p, g) == if r == 0 then q * Step(p) else q * Step(p) + Step(p)
    ensures LastAnchor(p, g + 1) == q * Step(p) + Step(p)
  {
    hide Groups;
    GroupsAre(p, g, q, r);
    Multiples(q, Step(p));
  }

  lemma Around(g: nat, s: nat, qs: nat, r: nat, last: nat, next: nat, poc: int, b: bool)
    requires g - 1 == qs + r && r < s && (b <==> r != 0)
    requires last == (if r == 0 then qs else qs + s) && next == qs + s
    requires poc == if b then g - 1 else g + s - 1
    ensures if b then s >= 2 && last >= s && last - s < poc < last && next == last
            else poc == last + s && next == poc
  {
  }

  /** Consecutive frames of the same block. */
  lemma NextInBlock(p: Periods, e: nat)
    requires p.Valid() && e > 0 && Gop(p, e) > 0
    ensures Gop(p, e - 1) == Gop(p, e) - 1 && IdrDisplay(p, e - 1) == IdrDisplay(p, e)
  {
    if p.Repeats() {
      var l := p.Length();
      DivMod(e, l);
      DivModUnique(e - 1, l, e / l, e % l - 1);
    }
  }

  lemma IdrIsFirst(p: Periods, e: nat)
    requires p.Valid()
    ensures Order(p, e).1 == IDR <==> Gop(p, e) == 0
    ensures Gop(p, e) == 0 ==> TruePoc(p, e) == 0 && Lsb(p, e) == 0
  {
    DisplayIs(p, e);
  }

  lemma SplitZero()
    ensures Split(0) == PocState(0, 0)
  {
  }

  lemma FirstAnchor(p: Periods)
    requires p.ip >= 1
    ensures LastAnchor(p, 1) == 0
  {
    GroupsAre(p, 1, 0, 0);
  }

  /** One call: the right POC, and for an anchor the right statics. */
  lemma OneCall(t: FrameType, prev: int, poc: int)
    requires t != IDR && -256 < poc - prev <= 256
    ensures Poc(t, Split(prev), poc % MAX_LSB) == poc
    ensures Next(t, Split(prev), poc % MAX_LSB) == if t == B then Split(prev) else Split(poc)
  {
    RecoveredIff(prev, poc);
  }

  lemma StaticsAfter(p: Periods, e: nat)
    requires p.Valid()
    ensures var t := Order(p, e).1;
            Statics(p, e + 1) == Next(t, Next(t, Statics(p, e), Lsb(p, e)), Lsb(p, e))
  {
  }

  /** As long as groups have at most 256 frames the statics hold the last anchor's POC. */
  lemma {:induction false} StaticsHoldAnchor(p: Periods, e: nat)
    requires p.Valid() && Step(p) <= 256 && Gop(p, e) > 0
    ensures Statics(p, e) == Split(LastAnchor(p, Gop(p, e)))
    decreases e
  {
    hide Statics;
    hide Order;
    hide TruePoc;
    hide Gop;
    hide LastAnchor;
    hide Split;
    hide MsbFor;
    GopBound(p, e);
    NextInBlock(p, e);
    var f: nat := e - 1;
    StaticsAfter(p, f);
    var t, poc := Order(p, f).1, TruePoc(p, f);
    IdrIsFirst(p, f);
    if t == IDR {
      FirstAnchor(p);
      SplitZero();
      ZeroCall();
    } else {
      StaticsHoldAnchor(p, f);
      PocsAroundAnchors(p, f);
      var prev := LastAnchor(p, Gop(p, f));
      OneCall(t, prev, poc);
      OneCall(t, if t == B then prev else poc, poc);
    }
  }

  lemma GopBound(p: Periods, e: nat)
    ensures Gop(p, e) <= e
  {
  }

  lemma ZeroCall()
    ensures MsbFor(PocState(0, 0), 0) == 0
  {
  }

  /** Both calls for every frame of every run return the true POC. */
  lemma PocsAreTrue(p: Periods, e: nat)
    requires p.Valid() && Step(p) <= 256
    ensures FirstPoc(p, e) == TruePoc(p, e) && SecondPoc(p, e) == TruePoc(p, e)
  {
    IdrIsFirst(p, e);
    if Gop(p, e) > 0 {
      var t, poc := Order(p, e).1, TruePoc(p, e);
      StaticsHoldAnchor(p, e);
      PocsAroundAnchors(p, e);
      var prev := LastAnchor(p, Gop(p, e));
      OneCall(t, prev, poc);
      OneCall(t, if t == B then prev else poc, poc);
    }
  }

  /** With longer groups already the first anchor after the first IDR frame gets a wrong POC. */
  lemma LongGroupsFail(p: Periods)
    requires p.Valid() && Step(p) > 256
    ensures FirstPoc(p, 1) != TruePoc(p, 1)
  {
    FirstIsOne(p);
    IdrIsFirst(p, 0);
    IdrIsFirst(p, 1);
    PocsAroundAnchors(p, 1);
    FirstAnchor(p);
    assert Statics(p, 1) == PocState(0, 0);
    SplitZero();
    RecoveredIff(0, TruePoc(p, 1));
  }

  lemma FirstIsOne(p: Periods)
    requires p.Valid() && Step(p) > 256
    ensures Gop(p, 0) == 0 && Gop(p, 1) == 1
  {
    if p.Repeats() {
      ModSmall(0, p.Length());
      ModSmall(1, p.Length());
    }
  }

  ghost predicate AllPocsTrue(p: Periods)
    requires p.Valid()
  {
    forall e: nat :: FirstPoc(p, e) == TruePoc(p, e) && SecondPoc(p, e) == TruePoc(p, e)
  }

  /** `calc_poc` is right on every frame of every run if and only if anchors are at most 256
      frames apart. */
  lemma PocTheorem(p: Periods)
    requires p.Valid()
    ensures AllPocsTrue(p) <==> Step(p) <= 256
  {
    if Step(p) <= 256 {
      forall e: nat
        ensures FirstPoc(p, e) == TruePoc(p, e) && SecondPoc(p, e) == TruePoc(p, e)
      {
        PocsAreTrue(p, e);
      }
    } else {
      LongGroupsFail(p);
    }
  }
}
