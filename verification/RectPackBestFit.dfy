/** Best-fit's choice in terms of columns alone. Trying the edges of the steps is
    enough for it, too: sliding a block between two edges changes the area under
    it at a constant rate, so the least area is found at an edge. */
module Tightness {
  import opened Columns
  import opened Outline
  import opened Search
  import opened Choice

  /** The area lost under a block of width w that rests at x. */
  ghost function Waste(cols: seq<int>, w: nat, x: nat): int
    requires 0 < w && x + w <= |cols|
  {
    Gap(cols, x, x + w, Rest(cols, x, w))
  }

  /** Resting at x is lower than at x', or as low with less area lost, or equal to
      it in both and not right of it. */
  ghost predicate NoWorse(cols: seq<int>, w: nat, x: nat, x': nat)
    requires 0 < w && x + w <= |cols| && x' + w <= |cols|
  {
    || Rest(cols, x, w) < Rest(cols, x', w)
    || (Rest(cols, x, w) == Rest(cols, x', w)
        && (Waste(cols, w, x) < Waste(cols, w, x') || (Waste(cols, w, x) == Waste(cols, w, x') && x <= x')))
  }

  /** No place of the whole target is better than x. */
  ghost predicate Tightest(cols: seq<int>, w: nat, x: nat)
    requires 0 < w
  {
    x + w <= |cols| && forall x': nat :: x' + w <= |cols| ==> NoWorse(cols, w, x, x')
  }

  lemma TightestUnique(cols: seq<int>, w: nat, x: nat, x': nat)
    requires 0 < w && Tightest(cols, w, x) && Tightest(cols, w, x')
    ensures x == x'
  {
    assert NoWorse(cols, w, x, x') && NoWorse(cols, w, x', x);
  }

  lemma {:induction false} GapNotNegative(cols: seq<int>, lo: nat, hi: nat, level: int)
    requires lo <= hi <= |cols| && forall c :: lo <= c < hi ==> cols[c] <= level
    ensures Gap(cols, lo, hi, level) >= 0
    decreases hi
  {
    if lo < hi {
      GapNotNegative(cols, lo, hi - 1, level);
    }
  }

  /** Moving right by one column takes in the column beyond and gives up the first. */
  lemma GapMoves(cols: seq<int>, x: nat, w: nat, level: int)
    requires 0 < w && x + 1 + w <= |cols|
    ensures Gap(cols, x + 1, x + 1 + w, level) == Gap(cols, x, x + w, level) + cols[x] - cols[x + w]
  {
    GapSplits(cols, x, x + 1, x + 1 + w, level);
    assert Gap(cols, x, x, level) == 0;
    assert Gap(cols, x, x + 1, level) == level - cols[x];
  }

  lemma RestsAtLeast(cols: seq<int>, w: nat, x: nat, c: nat)
    requires 0 < w && x + w <= |cols| && x <= c < x + w
    ensures cols[c] <= Rest(cols, x, w)
  {
  }

  /** Where the column taken in is as high as the one beside it, the block does
      not rise. */
  lemma MovedLeft(cols: seq<int>, w: nat, x: nat)
    requires 0 < w && x + 1 + w <= |cols| && cols[x] == cols[x + 1]
    ensures Rest(cols, x, w) <= Rest(cols, x + 1, w)
  {
    var c :| x <= c < x + w && cols[c] == Rest(cols, x, w);
    RestsAtLeast(cols, w, x + 1, if c == x then x + 1 else c);
  }

  lemma MovedRight(cols: seq<int>, w: nat, x: nat)
    requires 0 < w && x + 1 + w <= |cols| && cols[x + w] == cols[x + w - 1]
    ensures Rest(cols, x + 1, w) <= Rest(cols, x, w)
  {
    var c :| x + 1 <= c < x + 1 + w && cols[c] == Rest(cols, x + 1, w);
    RestsAtLeast(cols, w, x, if c == x + w then x + w - 1 else c);
  }

  lemma LeftNoWorse(cols: seq<int>, w: nat, x: nat)
    requires 0 < w && x + 1 + w <= |cols| && cols[x] == cols[x + 1] && cols[x + w] <= cols[x]
    ensures NoWorse(cols, w, x, x + 1)
  {
    MovedLeft(cols, w, x);
    GapMoves(cols, x, w, Rest(cols, x, w));
  }

  lemma RightNoWorse(cols: seq<int>, w: nat, x: nat)
    requires 0 < w && x + 1 + w <= |cols| && cols[x + w] == cols[x + w - 1] && cols[x] < cols[x + w]
    ensures NoWorse(cols, w, x + 1, x)
  {
    MovedRight(cols, w, x);
    GapMoves(cols, x, w, Rest(cols, x, w));
  }

  lemma WasteNotNegative(o: seq<Step>, cols: seq<int>, w: nat, x: nat)
    requires Carries(o, cols) && Increasing(o) && NonNegative(o) && 0 < w && x + w <= |cols|
    ensures 0 <= Rest(cols, x, w) && 0 <= Waste(cols, w, x)
  {
    var k := StepUnder(o, cols, x, w);
    assert Flat(cols, o[k].x, o[k + 1].x, o[k].y);
    RestsAtLeast(cols, w, x, x);
    GapNotNegative(cols, x, x + w, Rest(cols, x, w));
  }

  /** Between two edges, one of the two neighbours of a place is better. */
  lemma BetterNeighbour(o: seq<Step>, cols: seq<int>, w: nat, x: nat) returns (x': nat)
    requires Carries(o, cols) && Increasing(o) && NonNegative(o) && 0 < w && x + w <= |cols| && !Candidate(o, w, x)
    ensures x' + w <= |cols| && NoWorse(cols, w, x', x) && x' != x
  {
    var k := StepUnder(o, cols, x, w);
    var j := IndexFrom(o, x + w - 1, 0);
    assert Flat(cols, o[k].x, o[k + 1].x, o[k].y) && Flat(cols, o[j].x, o[j + 1].x, o[j].y);
    assert o[k].x != x && o[j + 1].x != x + w;
    assert cols[x - 1] == cols[x] && cols[x + w - 1] == cols[x + w];
    if cols[x + w] <= cols[x] {
      LeftNoWorse(cols, w, x - 1);
    } else {
      RightNoWorse(cols, w, x);
    }
    x' := if cols[x + w] <= cols[x] then x - 1 else x + 1;
  }

  /** Some edge is no worse than any place. */
  lemma {:induction false} BestAtEdge(o: seq<Step>, cols: seq<int>, w: nat, x: nat) returns (e: nat)
    requires Carries(o, cols) && Increasing(o) && NonNegative(o) && 0 < w && x + w <= |cols|
    ensures Candidate(o, w, e) && NoWorse(cols, w, e, x)
    decreases Rest(cols, x, w), Waste(cols, w, x), x
  {
    if Candidate(o, w, x) {
      e := x;
    } else {
      var x' := BetterNeighbour(o, cols, w, x);
      WasteNotNegative(o, cols, w, x);
      e := BestAtEdge(o, cols, w, x');
    }
  }

  /** What best-fit is told at its candidates is true. */
  ghost predicate Truthful(o: seq<Step>, cols: seq<int>, w: nat)
    requires Carries(o, cols) && Increasing(o) && NonNegative(o) && 0 < w
  {
    forall x: nat :: x + w <= |cols| ==>
      ReportAt(o, w, x).minY == Rest(cols, x, w) && ReportAt(o, w, x).waste == Waste(cols, w, x)
  }

  /** Where the reports are true, best-fit's choice is the tightest of all places,
      and the tightest place, if the block fits there, is its choice. */
  lemma BestFitIsTightest(o: seq<Step>, cols: seq<int>, w: nat, h: nat, height: int, x: nat)
    requires Carries(o, cols) && Increasing(o) && NonNegative(o) && 0 < w && Truthful(o, cols, w)
    ensures BestFit(o, w, h, height, x) <==> Tightest(cols, w, x) && Fits(cols, w, h, height, x)
  {
    if BestFit(o, w, h, height, x) {
      BestFitIsLowest(o, cols, w, h, height, x);
      forall x': nat | x' + w <= |cols|
        ensures NoWorse(cols, w, x, x')
      {
        var e := BestAtEdge(o, cols, w, x');
        assert Rest(cols, x, w) <= Rest(cols, e, w);
      }
    } else if Tightest(cols, w, x) && Fits(cols, w, h, height, x) {
      var e := BestAtEdge(o, cols, w, x);
      assert NoWorse(cols, w, x, e);
      assert Candidate(o, w, x);
      forall x' | Candidate(o, w, x') && ReportAt(o, w, x').minY + h <= height
        ensures Prefers(ReportAt(o, w, x), x, ReportAt(o, w, x'), x')
      {
        assert NoWorse(cols, w, x, x');
      }
    }
  }

  lemma FlatRests(cols: seq<int>, w: nat, x: nat, y: int)
    requires 0 < w && Flat(cols, x, x + w, y)
    ensures Rest(cols, x, w) == y && Waste(cols, w, x) == 0
  {
    assert cols[x] == y;
    HighestBounds(cols, x, x + w, y);
    GapFlat(cols, x, x + w, y, y);
  }

  /** In a step that is wide enough for a block, the left edge is better than any
      other place. */
  lemma WideStepEdge(o: seq<Step>, cols: seq<int>, w: nat, k: nat, x: nat)
    requires Under(o, cols, k, x, w) && o[k].x < x && o[k].x + w <= o[k + 1].x
    ensures 0 <= o[k].x && !NoWorse(cols, w, x, o[k].x)
  {
    var l, y := o[k].x, o[k].y;
    assert Flat(cols, l, o[k + 1].x, y);
    FlatRests(cols, w, l, y);
    RestsAtLeast(cols, w, x, x);
    WasteNotNegative(o, cols, w, x);
  }

  /** A tightest place inside a step is there because the step is too narrow for
      the block. */
  lemma TightestInside(o: seq<Step>, cols: seq<int>, w: nat, k: nat, x: nat)
    requires Under(o, cols, k, x, w) && Tightest(cols, w, x)
    ensures o[k].x < x ==> o[k + 1].x < o[k].x + w
  {
    if o[k].x < x && o[k].x + w <= o[k + 1].x {
      WideStepEdge(o, cols, w, k, x);
    }
  }
}

/** The floor is met only under the last step, which is why the waste reported to
    best-fit is right in every run. */
module Floor {
  import opened Columns
  import opened Outline
  import opened Search
  import opened Choice
  import opened Placement
  import opened Packer
  import opened PackerRuns
  import opened NodeSupply
  import opened Tightness

  /** Every step but the last before the sentinel is above the floor. */
  ghost predicate FloorLast(o: seq<Step>) {
    forall i :: 0 <= i < |o| - 2 ==> 0 < o[i].y
  }

  lemma FloorReliable(o: seq<Step>, cols: seq<int>, k: nat, x: int, w: nat)
    requires FloorLast(o) && Under(o, cols, k, x, w)
    ensures WasteReliable(o, k, x, w) && WasteExact(o, cols, k, x, w)
  {
    ReliableIsExact(o, cols, k, x, w);
  }

  /** The heuristics' choices, by the columns alone. */
  ghost predicate BestPlace(t: Target, w: nat, x: nat)
    requires Ready(t) && 0 < w
  {
    if t.bestFit then Tightest(Cols(t), AlignUp(w, t.align), x) else BottomLeft(Cols(t), AlignUp(w, t.align), x)
  }

  lemma FloorTruthful(t: Target, w: nat)
    requires Ready(t) && FloorLast(t.outline) && 0 < w
    ensures Carries(t.outline, Cols(t)) && NonNegative(t.outline) && Truthful(t.outline, Cols(t), w)
  {
    var o, cols := t.outline, Cols(t);
    Carried(t);
    forall x: nat | x + w <= |cols|
      ensures ReportAt(o, w, x).minY == Rest(cols, x, w) && ReportAt(o, w, x).waste == Waste(cols, w, x)
    {
      FloorReliable(o, cols, IndexFrom(o, x, 0), x, w);
      ReportAtIsRest(o, cols, w, x);
    }
  }

  /** A place that fits is the heuristic's choice if and only if it is the best of
      all places of the target. */
  lemma ChosenIffBest(t: Target, w: nat, h: nat, x: nat)
    requires Ready(t) && FloorLast(t.outline) && 0 < w && Fits(Cols(t), AlignUp(w, t.align), h, t.height, x)
    ensures Chosen(t, w, h, x) <==> BestPlace(t, w, x)
  {
    FloorTruthful(t, AlignUp(w, t.align));
    if t.bestFit {
      BestFitIsTightest(t.outline, Cols(t), AlignUp(w, t.align), h, t.height, x);
    }
  }

  /** A block put strictly inside a step does not find room in it as the search
      widens it. */
  lemma BestInside(t: Target, w: nat, k: nat, x: nat)
    requires Ready(t) && 0 < w && BestPlace(t, w, x) && k + 1 < |t.outline| && t.outline[k].x < x < t.outline[k + 1].x
    ensures t.bestFit && t.outline[k + 1].x < t.outline[k].x + AlignUp(w, t.align)
  {
    if t.bestFit {
      TightestInTarget(t, AlignUp(w, t.align), k, x);
    } else {
      BottomLeftAtEdge(t, AlignUp(w, t.align), x);
      OneStepPerColumn(t.outline, x, k, IndexFrom(t.outline, x, 0));
    }
  }

  lemma TightestInTarget(t: Target, w: nat, k: nat, x: nat)
    requires Ready(t) && 0 < w && Tightest(Cols(t), w, x)
    requires k + 1 < |t.outline| && t.outline[k].x < x < t.outline[k + 1].x
    ensures t.outline[k + 1].x < t.outline[k].x + w
  {
    Carried(t);
    EdgesInside(t.outline, t.width, k);
    TightestInside(t.outline, Cols(t), w, k, x);
  }

  lemma PlaceKeepsFloor(o: seq<Step>, width: nat, height: nat, k: nat, x: int, w: nat, top: int)
    requires Placeable(o, width, height, k, x, w, top) && FloorLast(o) && 0 < top
    requires o[k].x == x || 0 < o[k].y
    ensures FloorLast(Place(o, k, x, w, top))
  {
    PlaceShape(o, width, height, k, x, w, top);
  }

  /** Every request keeps the floor last. */
  lemma RequestKeepsFloor(t: Target, w: nat, h: nat, r: Outcome, t': Target)
    requires Ready(t) && FloorLast(t.outline) && 0 < w && 0 < h && Request(t, w, h, r, t')
    ensures FloorLast(t'.outline)
  {
    if r.At? {
      var k := IndexFrom(t.outline, r.x, 0);
      RestsOnColumns(t, w, h, r.x, r.y, t');
      ChosenIffBest(t, w, h, r.x);
      if t.outline[k].x < r.x && t.outline[k].y <= 0 {
        BestInside(t, w, k, r.x);
        assert false;
      }
      PlaceKeepsFloor(t.outline, t.width, t.height, k, r.x, w, r.y + h);
    }
  }

  lemma {:induction false} RunKeepsFloor(t: Target, es: seq<Event>, t': Target)
    requires Ready(t) && FloorLast(t.outline) && Run(t, es, t')
    ensures Ready(t') && FloorLast(t'.outline)
    decreases |es|
  {
    RunKeepsPacked(t, es, t');
    if es != [] {
      var e, init := es[|es| - 1], es[..|es| - 1];
      var mid :| Run(t, init, mid) && Ready(mid) && Request(mid, e.w, e.h, e.r, t');
      RunKeepsFloor(t, init, mid);
      RequestKeepsFloor(mid, e.w, e.h, e.r, t');
    }
  }

  /** A target that a run on an initialised one has led to. */
  ghost predicate Reached(t: Target) {
    exists width: nat, height: nat, nodes: nat, allowOutOfMem: bool, es: seq<Event> ::
      0 < width && height < SENTINEL_Y && 0 < nodes && RunFrom(width, height, nodes, allowOutOfMem, t.bestFit, es, t)
  }

  /** es is a run from a target as initialised, under the given heuristic, to t. */
  ghost predicate RunFrom(width: nat, height: nat, nodes: nat, allowOutOfMem: bool, bestFit: bool, es: seq<Event>,
                          t: Target)
    requires 0 < width && height < SENTINEL_Y && 0 < nodes
  {
    AlignmentOne(width, nodes);
    Run(Initial(width, height, nodes, allowOutOfMem).(bestFit := bestFit), es, t)
  }

  lemma RunFromIsReady(width: nat, height: nat, nodes: nat, allowOutOfMem: bool, bestFit: bool, es: seq<Event>,
                       t: Target)
    requires 0 < width && height < SENTINEL_Y && 0 < nodes
             && RunFrom(width, height, nodes, allowOutOfMem, bestFit, es, t)
    ensures Ready(t) && FloorLast(t.outline)
  {
    AlignmentOne(width, nodes);
    RunKeepsFloor(Initial(width, height, nodes, allowOutOfMem).(bestFit := bestFit), es, t);
  }

  lemma ReachedIsReady(t: Target)
    requires Reached(t)
    ensures Ready(t) && FloorLast(t.outline)
  {
    var width: nat, height: nat, nodes: nat, allowOutOfMem: bool, es: seq<Event> :|
      0 < width && height < SENTINEL_Y && 0 < nodes && RunFrom(width, height, nodes, allowOutOfMem, t.bestFit, es, t);
    RunFromIsReady(width, height, nodes, allowOutOfMem, t.bestFit, es, t);
  }

  /** In every run the waste reported at every place is the exact area. */
  lemma WasteExactInRuns(t: Target, k: nat, x: nat, w: nat)
    requires Reached(t)
    ensures Ready(t)
    ensures 0 < w && x + w <= t.width && k + 1 < |t.outline| && t.outline[k].x <= x < t.outline[k + 1].x ==>
              Report(t.outline, k, x, w).waste == Waste(Cols(t), w, x)
  {
    ReachedIsReady(t);
    Carried(t);
    if 0 < w && x + w <= t.width && k + 1 < |t.outline| && t.outline[k].x <= x < t.outline[k + 1].x {
      FloorReliable(t.outline, Cols(t), k, x, w);
    }
  }

  /** In every run a granted block is put at the best of all places of the target. */
  lemma PlacedBest(t: Target, w: nat, h: nat, x: int, y: int, t': Target)
    requires Reached(t) && 0 < w
    ensures Ready(t)
    ensures Request(t, w, h, At(x, y), t') ==> 0 <= x && BestPlace(t, w, x)
  {
    ReachedIsReady(t);
    if Request(t, w, h, At(x, y), t') {
      ChosenIffBest(t, w, h, x);
    }
  }
}
