/** When a placement raises columns beyond the block's own. Best-fit may push the
    block, as the search widens it, against a right edge and so cut a step in its
    middle; if the block itself ends inside that step, the rest of the step rises
    with it. It takes three columns of widening for that to happen. */
module Overshoot {
  import opened Arithmetic
  import opened Columns
  import opened Outline
  import opened Choice
  import opened Placement
  import opened Packer
  import opened PackerRuns
  import opened NodeSupply
  import opened Tightness
  import opened Floor

  /** The skyline rises to the top of the block on its own columns and nowhere else. */
  ghost predicate RaisesExactly(t: Target, w: nat, h: nat, x: int, y: int, t': Target)
    requires Ready(t)
  {
    && 0 <= x && x + w <= t.width && Spans(t'.outline, t'.width)
    && Cols(t') == Raise(Cols(t), x, w, y + h)
  }

  lemma NarrowlyWidened(t: Target, w: nat, h: nat, x: int, y: int, t': Target)
    requires Ready(t) && FloorLast(t.outline) && 0 < w && Request(t, w, h, At(x, y), t')
    requires !t.bestFit || AlignUp(w, t.align) <= w + 2
    ensures RaisesExactly(t, w, h, x, y, t')
  {
    var k := IndexFrom(t.outline, x, 0);
    RequestRaises(t, w, h, x, y, t');
    ChosenIffBest(t, w, h, x);
    if t.outline[k].x < x {
      BestInside(t, w, k, x);
    }
  }

  /** Left of the floor every column is above it. */
  lemma AboveFloor(t: Target, f: nat, c: nat)
    requires Ready(t) && FloorLast(t.outline) && t.outline[|t.outline| - 2] == Step(f, 0) && c < f < t.width
    ensures 0 < Cols(t)[c]
  {
    var o := t.outline;
    var k := IndexAt(o, t.width, c);
    assert Cols(t)[c] == o[k].y;
  }

  lemma OnFloorRests(t: Target, w: nat, f: nat)
    requires Ready(t) && t.outline[|t.outline| - 2] == Step(f, 0) && 0 < w && f + w <= t.width
    ensures Rest(Cols(t), f, w) == 0 && Waste(Cols(t), w, f) == 0
  {
    var o, cols := t.outline, Cols(t);
    Carried(t);
    assert Flat(cols, o[|o| - 2].x, o[|o| - 1].x, o[|o| - 2].y);
    FlatRests(cols, w, f, 0);
  }

  /** A block goes to the left end of the floor if it fits there. */
  lemma FloorPlaced(t: Target, w: nat, h: nat, f: nat)
    requires Ready(t) && FloorLast(t.outline) && t.outline[|t.outline| - 2] == Step(f, 0)
    requires 0 < w && h <= t.height && f + AlignUp(w, t.align) <= t.width
    ensures Rest(Cols(t), f, AlignUp(w, t.align)) == 0 && Chosen(t, w, h, f)
  {
    var cols, aw := Cols(t), AlignUp(w, t.align);
    Carried(t);
    OnFloorRests(t, aw, f);
    forall x: nat | x + aw <= |cols|
      ensures NoWorse(cols, aw, f, x)
      ensures 0 < Rest(cols, x, aw) || (0 == Rest(cols, x, aw) && f <= x)
    {
      WasteNotNegative(t.outline, cols, aw, x);
      RestsAtLeast(cols, aw, x, x);
      if x < f {
        AboveFloor(t, f, x);
      }
    }
    assert BestPlace(t, w, f);
    ChosenIffBest(t, w, h, f);
  }

  /** The target after a block has been put on the left end of the floor at f. */
  ghost function OnFloor(t: Target, w: nat, h: nat, f: nat): Target
    requires |t.outline| >= 2
  {
    var n := |t.outline|;
    t.(outline := t.outline[..n - 2] + [Step(f, h), Step(f + w, 0), t.outline[n - 1]])
  }

  lemma FloorRequest(t: Target, w: nat, h: nat, f: nat, t': Target)
    requires Ready(t) && FloorLast(t.outline) && t.outline[|t.outline| - 2] == Step(f, 0) && |t.outline| < t.nodes + 2
    requires 0 < w && 0 < h <= t.height && f + AlignUp(w, t.align) <= t.width && f + w < t.width
    requires t' == OnFloor(t, w, h, f)
    ensures Request(t, w, h, At(f, 0), t') && Ready(t') && FloorLast(t'.outline)
  {
    var o := t.outline;
    var n := |o|;
    FloorPlaced(t, w, h, f);
    OneStepPerColumn(o, f, n - 2, IndexFrom(o, f, 0));
    assert SkipCovered(o, n - 2, f + w) == n - 2;
    assert Placing(t, f, w, h).outline == t'.outline;
    RequestRaises(t, w, h, f, 0, t');
    RequestKeepsFloor(t, w, h, At(f, 0), t');
  }

  /** The widths at which a block overshoots need an alignment of at least four. */
  lemma Widened(w: nat, align: nat) returns (q: nat)
    requires 0 < align && 0 < w && w + 2 < AlignUp(w, align)
    ensures 0 < q && AlignUp(w, align) == q * align && 4 <= align && 4 <= q * align
  {
    q := AlignUp(w, align) / align;
    if q <= 0 {
      Product(q, 0, align);
    }
  }

  lemma AlignUpIs(w: nat, align: nat, q: nat)
    requires 0 < align && w <= q * align < w + align
    ensures AlignUp(w, align) == q * align
  {
    var n := w + align - 1;
    DivModUnique(n, align, q, n - q * align);
  }

  /** The target on which the overshoot is shown: aw columns, and as much again as
      three times the alignment. */
  function Ground(align: nat, q: nat, aw: nat): Target {
    Target(aw + 3 * align, 4, align, q + 3, true, [Step(0, 0), Step(aw + 3 * align, SENTINEL_Y)])
  }

  lemma GroundIsInitial(align: nat, q: nat, aw: nat)
    requires 0 < align && 0 < q && aw == q * align
    ensures Ground(align, q, aw) == Initial(aw + 3 * align, 4, q + 3, false).(bestFit := true)
  {
    var nodes := q + 3;
    assert nodes * align == aw + 3 * align;
    DivModUnique(nodes * align + nodes - 1, nodes, align, nodes - 1);
  }

  /** Its state after three blocks: a low one, a narrow one of height 3, and a high
      one that leaves too little floor for aw columns. */
  function Trap(align: nat, q: nat, aw: nat): Target
    requires 0 < aw
  {
    Ground(align, q, aw).(outline := [Step(0, 1), Step(aw - 1, 3), Step(aw + 1, 4), Step(aw + 1 + 2 * align, 0),
                                      Step(aw + 3 * align, SENTINEL_Y)])
  }

  /** The first n steps of the trap, and the floor. */
  function TrapAfter(align: nat, q: nat, aw: nat, n: nat): Target
    requires 0 < aw && n <= 3
  {
    var t := Trap(align, q, aw);
    t.(outline := t.outline[..n] + [Step(t.outline[n].x, 0), t.outline[4]])
  }

  /** The trap can be built: at each turn the block goes to the left end of the floor. */
  lemma TrapStep(align: nat, q: nat, aw: nat, n: nat, w: nat, h: nat, t: Target, t': Target)
    requires 4 <= align <= aw && 0 < q && n < 3 && t == TrapAfter(align, q, aw, n)
             && t' == TrapAfter(align, q, aw, n + 1)
    requires w == t'.outline[n + 1].x - t.outline[n].x && h == t'.outline[n].y && AlignUp(w, align) <= w + align - 2
    requires Ready(t) && FloorLast(t.outline)
    ensures Request(t, w, h, At(t.outline[n].x, 0), t') && Ready(t') && FloorLast(t'.outline)
  {
    FloorRequest(t, w, h, t.outline[n].x, t');
  }

  lemma TrapSteps(align: nat, q: nat, aw: nat, t0: Target, e1: Event, t1: Target, e2: Event, t2: Target, e3: Event,
                  t3: Target)
    requires 4 <= align <= aw && 0 < q && aw == q * align
    requires e1 == Event(aw - 1, 1, At(0, 0)) && e2 == Event(2, 3, At(aw - 1, 0))
             && e3 == Event(2 * align, 4, At(aw + 1, 0))
    requires t0 == TrapAfter(align, q, aw, 0) && t1 == TrapAfter(align, q, aw, 1)
    requires t2 == TrapAfter(align, q, aw, 2) && t3 == TrapAfter(align, q, aw, 3)
    ensures Ready(t0) && Request(t0, e1.w, e1.h, e1.r, t1) && Ready(t1) && Request(t1, e2.w, e2.h, e2.r, t2)
    ensures Ready(t2) && Request(t2, e3.w, e3.h, e3.r, t3) && Ready(t3) && FloorLast(t3.outline)
  {
    AlignUpIs(aw - 1, align, q);
    AlignUpIs(2, align, 1);
    AlignUpIs(2 * align, align, 2);
    TrapStep(align, q, aw, 0, aw - 1, 1, t0, t1);
    TrapStep(align, q, aw, 1, 2, 3, t1, t2);
    TrapStep(align, q, aw, 2, 2 * align, 4, t2, t3);
  }

  lemma TrapEnds(align: nat, q: nat, aw: nat)
    requires 0 < aw
    ensures TrapAfter(align, q, aw, 0) == Ground(align, q, aw) && TrapAfter(align, q, aw, 3) == Trap(align, q, aw)
  {
  }

  lemma TrapRun(align: nat, q: nat, aw: nat, ground: Target, trap: Target) returns (es: seq<Event>)
    requires 4 <= align <= aw && 0 < q && aw == q * align && ground == Ground(align, q, aw)
             && trap == Trap(align, q, aw)
    ensures Ready(ground) && Run(ground, es, trap)
    ensures Ready(trap) && FloorLast(trap.outline)
  {
    var t1, t2 := TrapAfter(align, q, aw, 1), TrapAfter(align, q, aw, 2);
    TrapEnds(align, q, aw);
    var e1, e2, e3 := Event(aw - 1, 1, At(0, 0)), Event(2, 3, At(aw - 1, 0)), Event(2 * align, 4, At(aw + 1, 0));
    TrapSteps(align, q, aw, ground, e1, t1, e2, t2, e3, trap);
    var one := [] + [e1];
    var two := one + [e2];
    es := two + [e3];
    ThreeEvents(ground, e1, t1, e2, t2, e3, trap, one, two, es);
  }

  lemma ThreeEvents(t0: Target, e1: Event, t1: Target, e2: Event, t2: Target, e3: Event, t3: Target,
                    one: seq<Event>, two: seq<Event>, es: seq<Event>)
    requires 0 < e1.w && 0 < e1.h && 0 < e2.w && 0 < e2.h && 0 < e3.w && 0 < e3.h
    requires Ready(t0) && Request(t0, e1.w, e1.h, e1.r, t1) && Ready(t1) && Request(t1, e2.w, e2.h, e2.r, t2)
    requires Ready(t2) && Request(t2, e3.w, e3.h, e3.r, t3) && one == [] + [e1] && two == one + [e2] && es == two + [e3]
    ensures Run(t0, es, t3)
  {
    RunSnoc(t0, [], t0, e1, t1);
    RunSnoc(t0, one, t1, e2, t2);
    RunSnoc(t0, two, t2, e3, t3);
  }

  lemma TrapColumns(align: nat, q: nat, aw: nat)
    requires 4 <= align <= aw && Ready(Trap(align, q, aw))
    ensures var cols := Cols(Trap(align, q, aw));
            && |cols| == aw + 3 * align
            && Flat(cols, 0, aw - 1, 1) && Flat(cols, aw - 1, aw + 1, 3) && Flat(cols, aw + 1, aw + 1 + 2 * align, 4)
  {
    var t := Trap(align, q, aw);
    var o, cols := t.outline, Cols(t);
    Carried(t);
    assert Flat(cols, o[0].x, o[1].x, o[0].y) && Flat(cols, o[1].x, o[2].x, o[1].y)
           && Flat(cols, o[2].x, o[3].x, o[2].y);
  }

  /** A block aw wide at column 0 or 1 rests at height 3, over more area at 0. */
  lemma TrapRests(cols: seq<int>, aw: nat)
    requires 4 <= aw && aw + 1 <= |cols| && Flat(cols, 0, aw - 1, 1) && Flat(cols, aw - 1, aw + 1, 3)
    ensures Rest(cols, 0, aw) == 3 && Rest(cols, 1, aw) == 3
    ensures Waste(cols, aw, 1) < Waste(cols, aw, 0)
  {
    assert cols[aw - 1] == 3 && cols[aw] == 3 && cols[0] == 1;
    HighestBounds(cols, 0, aw, 3);
    HighestBounds(cols, 1, 1 + aw, 3);
    GapMoves(cols, 0, aw, 3);
  }

  /** The next block goes to column 1. */
  lemma TrapTightest(align: nat, q: nat, aw: nat)
    requires 4 <= align <= aw && Ready(Trap(align, q, aw))
    ensures Tightest(Cols(Trap(align, q, aw)), aw, 1) && Rest(Cols(Trap(align, q, aw)), 1, aw) == 3
  {
    var cols := Cols(Trap(align, q, aw));
    TrapColumns(align, q, aw);
    TrapRests(cols, aw);
    forall x: nat | x + aw <= |cols|
      ensures NoWorse(cols, aw, 1, x)
    {
      if x >= 2 {
        var c := if x <= aw + 1 then aw + 1 else x;
        assert cols[c] == 4;
        RestsAtLeast(cols, aw, x, c);
      }
    }
  }

  /** There it raises the whole low step from column 1 on. */
  lemma TrapSprung(align: nat, q: nat, aw: nat, w: nat) returns (t': Target)
    requires 4 <= align <= aw && AlignUp(w, align) == aw && 0 < w && w + 2 < aw && 0 < q
    requires Ready(Trap(align, q, aw)) && FloorLast(Trap(align, q, aw).outline)
    ensures Request(Trap(align, q, aw), w, 1, At(1, 3), t') && !RaisesExactly(Trap(align, q, aw), w, 1, 1, 3, t')
  {
    var t := Trap(align, q, aw);
    TrapTightest(align, q, aw);
    TrapColumns(align, q, aw);
    assert BestPlace(t, w, 1) && Fits(Cols(t), aw, 1, t.height, 1);
    ChosenIffBest(t, w, 1, 1);
    t' := Placing(t, 1, w, 4);
    RequestRaises(t, w, 1, 1, 3, t');
    OneStepPerColumn(t.outline, 1, 0, IndexFrom(t.outline, 1, 0));
    assert Cols(t')[1 + w] == 4;
    assert Raise(Cols(t), 1, w, 4)[1 + w] == 1;
  }

  /** A run that ends in an overshoot. */
  lemma OvershootRun(align: nat, w: nat) returns (t: Target, t': Target)
    requires 0 < align && 0 < w && w + 2 < AlignUp(w, align)
    ensures Reached(t) && Ready(t) && t.align == align && t.bestFit
    ensures Request(t, w, 1, At(1, 3), t') && !RaisesExactly(t, w, 1, 1, 3, t')
  {
    var aw := AlignUp(w, align);
    var q := Widened(w, align);
    Product(1, q, align);
    t := Trap(align, q, aw);
    var es := TrapRun(align, q, aw, Ground(align, q, aw), t);
    GroundIsInitial(align, q, aw);
    assert RunFrom(aw + 3 * align, 4, q + 3, false, true, es, t);
    t' := TrapSprung(align, q, aw, w);
  }

  /** Blocks of one width always raise just their own columns, in every run on every
      target of one alignment, if and only if the search widens them by less than
      three columns. */
  lemma RaisesExactlyIff(align: nat, w: nat)
    requires 0 < align && 0 < w
    ensures AlignUp(w, align) <= w + 2 <==>
            forall t, h: nat, x, y, t' ::
              Reached(t) && Ready(t) && t.align == align && Request(t, w, h, At(x, y), t') ==>
                RaisesExactly(t, w, h, x, y, t')
  {
    if AlignUp(w, align) <= w + 2 {
      forall t, h: nat, x, y, t' | Reached(t) && Ready(t) && t.align == align && Request(t, w, h, At(x, y), t')
        ensures RaisesExactly(t, w, h, x, y, t')
      {
        ReachedIsReady(t);
        NarrowlyWidened(t, w, h, x, y, t');
      }
    } else {
      var t, t' := OvershootRun(align, w);
    }
  }
}
