/** The two heuristics' choices, and that trying only edges loses nothing. */
module Choice {
  import opened Columns
  import opened Outline
  import opened Search

  /** From any place, sliding a block left to the edge of the step under its left
      side neither leaves the target nor raises the block. */
  lemma SlideLeft(o: seq<Step>, cols: seq<int>, k: nat, x: int, w: nat)
    requires Under(o, cols, k, x, w)
    ensures 0 <= o[k].x && o[k].x + w <= |cols|
    ensures Rest(cols, o[k].x, w) <= Rest(cols, x, w)
  {
    assert Flat(cols, o[k].x, o[k + 1].x, o[k].y);
    var c :| o[k].x <= c < o[k].x + w && cols[c] == Rest(cols, o[k].x, w);
    assert cols[c] == cols[if c < x then x else c];
  }

  /** The step under column x. */
  lemma StepUnder(o: seq<Step>, cols: seq<int>, x: int, w: nat) returns (k: nat)
    requires Carries(o, cols) && Increasing(o) && NonNegative(o) && 0 <= x && 0 < w && x + w <= |cols|
    ensures Under(o, cols, k, x, w)
  {
    k := IndexFrom(o, x, 0);
  }

  /** Edge k is the first of the lowest among the left edges a block fits at. */
  ghost predicate LowestEdge(o: seq<Step>, cols: seq<int>, w: nat, k: nat) {
    && Carries(o, cols) && Increasing(o) && NonNegative(o) && 0 < w && k + 1 < |o|
    && 0 <= o[k].x && o[k].x + w <= |cols|
    && forall i :: 0 <= i < |o| - 1 && 0 <= o[i].x && o[i].x + w <= |cols| ==>
         Rest(cols, o[k].x, w) < Rest(cols, o[i].x, w)
         || (Rest(cols, o[k].x, w) == Rest(cols, o[i].x, w) && k <= i)
  }

  /** The left edges suffice: the choice among them is the bottom-left place
      among all columns. */
  lemma LowestEdgeIsBottomLeft(o: seq<Step>, cols: seq<int>, w: nat, k: nat)
    requires LowestEdge(o, cols, w, k)
    ensures BottomLeft(cols, w, o[k].x)
  {
    forall x: nat | x + w <= |cols|
      ensures Rest(cols, o[k].x, w) < Rest(cols, x, w) || (Rest(cols, o[k].x, w) == Rest(cols, x, w) && o[k].x <= x)
    {
      var i := StepUnder(o, cols, x, w);
      SlideLeft(o, cols, i, x, w);
      assert k < i ==> Before(o, k, i);
    }
  }

  /** A place the best-fit search tries: a left edge, or a right edge against
      which the block is pushed. */
  ghost predicate Candidate(o: seq<Step>, w: nat, x: int) {
    && |o| >= 2 && 0 <= x && x + w <= o[|o| - 1].x
    && exists i :: 0 <= i < |o| && (o[i].x == x || o[i].x == x + w)
  }

  ghost function ReportAt(o: seq<Step>, w: nat, x: int): Walk
    requires |o| >= 2 && Increasing(o) && o[0].x == 0 && 0 < w && 0 <= x && x + w <= o[|o| - 1].x
  {
    Report(o, IndexFrom(o, x, 0), x, w)
  }

  /** The order in which best-fit prefers places: height, reported waste, x. */
  ghost predicate Prefers(a: Walk, x: int, b: Walk, x': int) {
    a.minY < b.minY || (a.minY == b.minY && (a.waste < b.waste || (a.waste == b.waste && x <= x')))
  }

  /** x is best-fit's choice for a block w wide and h high below `height`. */
  ghost predicate BestFit(o: seq<Step>, w: nat, h: nat, height: int, x: int)
    requires |o| >= 2 && Increasing(o) && o[0].x == 0 && 0 < w
  {
    && Candidate(o, w, x) && ReportAt(o, w, x).minY + h <= height
    && forall x' :: Candidate(o, w, x') && ReportAt(o, w, x').minY + h <= height ==>
         Prefers(ReportAt(o, w, x), x, ReportAt(o, w, x'), x')
  }

  lemma BestFitUnique(o: seq<Step>, w: nat, h: nat, height: int, x: int, x': int)
    requires |o| >= 2 && Increasing(o) && o[0].x == 0 && 0 < w
    requires BestFit(o, w, h, height, x) && BestFit(o, w, h, height, x')
    ensures x == x'
  {
    assert Prefers(ReportAt(o, w, x), x, ReportAt(o, w, x'), x');
  }

  /** A block rests at x with its top not above `height`. */
  ghost predicate Fits(cols: seq<int>, w: nat, h: nat, height: int, x: nat)
    requires 0 < w
  {
    x + w <= |cols| && Rest(cols, x, w) + h <= height
  }

  lemma ReportAtIsRest(o: seq<Step>, cols: seq<int>, w: nat, x: int)
    requires Carries(o, cols) && Increasing(o) && NonNegative(o) && 0 < w && 0 <= x && x + w <= |cols|
    ensures ReportAt(o, w, x).minY == Rest(cols, x, w)
  {
    ReportFindsHighest(o, cols, IndexFrom(o, x, 0), x, w);
  }

  /** Best-fit, too, puts a block as low as any place of the whole target. */
  lemma BestFitIsLowest(o: seq<Step>, cols: seq<int>, w: nat, h: nat, height: int, x: int)
    requires Carries(o, cols) && Increasing(o) && NonNegative(o) && 0 < w && BestFit(o, w, h, height, x)
    ensures Fits(cols, w, h, height, x)
    ensures forall x': nat :: x' + w <= |cols| ==> Rest(cols, x, w) <= Rest(cols, x', w)
  {
    ReportAtIsRest(o, cols, w, x);
    forall x': nat | x' + w <= |cols|
      ensures Rest(cols, x, w) <= Rest(cols, x', w)
    {
      var i := StepUnder(o, cols, x', w);
      SlideLeft(o, cols, i, x', w);
      ReportAtIsRest(o, cols, w, o[i].x);
      assert Candidate(o, w, o[i].x);
    }
  }

  /** When no candidate fits, no place fits. */
  lemma NoCandidateNoPlace(o: seq<Step>, cols: seq<int>, w: nat, h: nat, height: int)
    requires Carries(o, cols) && Increasing(o) && NonNegative(o) && 0 < w
    requires forall x :: Candidate(o, w, x) ==> ReportAt(o, w, x).minY + h > height
    ensures forall x: nat :: !Fits(cols, w, h, height, x)
  {
    forall x: nat
      ensures !Fits(cols, w, h, height, x)
    {
      if x + w <= |cols| {
        var i := StepUnder(o, cols, x, w);
        SlideLeft(o, cols, i, x, w);
        ReportAtIsRest(o, cols, w, o[i].x);
        assert Candidate(o, w, o[i].x);
      }
    }
  }

  /** Edge k is one the left-edge pass may choose. */
  ghost predicate Admitted(o: seq<Step>, bestFit: bool, w: nat, h: nat, height: int, k: nat)
    requires |o| >= 2
  {
    && k + 1 < |o| && o[k].x + w <= o[|o| - 1].x
    && (bestFit ==> Report(o, k, o[k].x, w).minY + h <= height)
  }

  /** What the left-edge pass prefers: bottom-left looks at heights alone. */
  ghost predicate AtLeastAsGood(bestFit: bool, a: Walk, x: int, b: Walk, x': int) {
    if bestFit then Prefers(a, x, b, x') else a.minY < b.minY || (a.minY == b.minY && x <= x')
  }

  /** k, if found, is the best among the edges before edge n. */
  ghost predicate BestOfLeft(o: seq<Step>, bestFit: bool, w: nat, h: nat, height: int, n: nat, found: bool, k: nat)
    requires |o| >= 2
  {
    && (found ==> k < n && Admitted(o, bestFit, w, h, height, k))
    && forall i :: 0 <= i < n && Admitted(o, bestFit, w, h, height, i) ==>
         found && AtLeastAsGood(bestFit, Report(o, k, o[k].x, w), o[k].x, Report(o, i, o[i].x, w), o[i].x)
  }

  /** One more edge: it replaces the best so far only if it is strictly better. */
  lemma BestOfLeftNext(o: seq<Step>, bestFit: bool, w: nat, h: nat, height: int, n: nat, found: bool, k: nat)
    requires |o| >= 2 && Increasing(o) && n + 1 < |o| && o[n].x + w <= o[|o| - 1].x
    requires BestOfLeft(o, bestFit, w, h, height, n, found, k)
    ensures var better := Admitted(o, bestFit, w, h, height, n)
              && (found ==> !AtLeastAsGood(bestFit, Report(o, k, o[k].x, w), o[k].x, Report(o, n, o[n].x, w), o[n].x));
            if better then BestOfLeft(o, bestFit, w, h, height, n + 1, true, n)
            else BestOfLeft(o, bestFit, w, h, height, n + 1, found, k)
  {
  }

  /** The edges right of those a block fits at need not be looked at. */
  lemma BestOfLeftDone(o: seq<Step>, bestFit: bool, w: nat, h: nat, height: int, n: nat, found: bool, k: nat)
    requires |o| >= 2 && Increasing(o) && n < |o| && o[n].x + w > o[|o| - 1].x
    requires BestOfLeft(o, bestFit, w, h, height, n, found, k)
    ensures BestOfLeft(o, bestFit, w, h, height, |o|, found, k)
  {
    forall i | n <= i < |o|
      ensures !Admitted(o, bestFit, w, h, height, i)
    {
      assert n < i ==> Before(o, n, i);
    }
  }

  lemma BestOfLeftIsLowest(o: seq<Step>, cols: seq<int>, w: nat, h: nat, height: int, k: nat)
    requires Carries(o, cols) && Increasing(o) && NonNegative(o) && 0 < w
    requires BestOfLeft(o, false, w, h, height, |o|, true, k)
    ensures LowestEdge(o, cols, w, k)
  {
    EdgesInside(o, |cols|, k);
    ReportFindsHighest(o, cols, k, o[k].x, w);
    forall i | 0 <= i < |o| - 1 && 0 <= o[i].x && o[i].x + w <= |cols|
      ensures Rest(cols, o[k].x, w) < Rest(cols, o[i].x, w)
              || (Rest(cols, o[k].x, w) == Rest(cols, o[i].x, w) && k <= i)
    {
      EdgesInside(o, |cols|, i);
      ReportFindsHighest(o, cols, i, o[i].x, w);
      assert Admitted(o, false, w, h, height, i);
      assert i < k ==> Before(o, i, k);
    }
  }

  /** A place the two best-fit passes have tried when the second stands at edge n. */
  ghost predicate Tried(o: seq<Step>, w: nat, n: nat, x: int)
    requires n <= |o|
  {
    && |o| >= 2 && 0 <= x && x + w <= o[|o| - 1].x
    && exists i :: 0 <= i < |o| && (o[i].x == x || (i < n && o[i].x == x + w))
  }

  ghost predicate BestOfTried(o: seq<Step>, w: nat, h: nat, height: int, n: nat, found: bool, x: int)
    requires |o| >= 2 && Increasing(o) && o[0].x == 0 && 0 < w && n <= |o|
  {
    && (found ==> Tried(o, w, n, x) && ReportAt(o, w, x).minY + h <= height)
    && forall x' :: Tried(o, w, n, x') && ReportAt(o, w, x').minY + h <= height ==>
         found && Prefers(ReportAt(o, w, x), x, ReportAt(o, w, x'), x')
  }

  lemma LeftPassTried(o: seq<Step>, w: nat, h: nat, height: int, found: bool, k: nat)
    requires |o| >= 2 && Increasing(o) && o[0].x == 0 && 0 < w
    requires BestOfLeft(o, true, w, h, height, |o|, found, k)
    ensures found ==> k + 1 < |o|
    ensures BestOfTried(o, w, h, height, 0, found, if found then o[k].x else 0)
  {
    forall i | 0 <= i < |o| - 1
      ensures 0 <= o[i].x < o[|o| - 1].x && IndexFrom(o, o[i].x, 0) == i
    {
      EdgeOrder(o, 0, i);
      EdgeOrder(o, i, i + 1);
      EdgeOrder(o, i, |o| - 1);
      OneStepPerColumn(o, o[i].x, i, IndexFrom(o, o[i].x, 0));
    }
    forall x' | Tried(o, w, 0, x') && ReportAt(o, w, x').minY + h <= height
      ensures found && Prefers(ReportAt(o, w, o[k].x), o[k].x, ReportAt(o, w, x'), x')
    {
      var i :| 0 <= i < |o| && o[i].x == x';
      assert Admitted(o, true, w, h, height, i);
    }
    if found {
      assert Tried(o, w, 0, o[k].x);
    }
  }

  /** One more right edge. */
  lemma BestOfTriedNext(o: seq<Step>, w: nat, h: nat, height: int, n: nat, found: bool, x: int)
    requires |o| >= 2 && Increasing(o) && o[0].x == 0 && 0 < w && n < |o| && w <= o[n].x <= o[|o| - 1].x
    requires BestOfTried(o, w, h, height, n, found, x)
    ensures var xpos := o[n].x - w;
            var better := ReportAt(o, w, xpos).minY + h <= height
              && (found ==> !Prefers(ReportAt(o, w, x), x, ReportAt(o, w, xpos), xpos));
            if better then BestOfTried(o, w, h, height, n + 1, true, xpos)
            else BestOfTried(o, w, h, height, n + 1, found, x)
  {
    var xpos := o[n].x - w;
    assert Tried(o, w, n + 1, xpos);
    forall x'
      ensures Tried(o, w, n + 1, x') <==> Tried(o, w, n, x') || x' == xpos
    {
      TriedNext(o, w, n, x');
    }
  }

  lemma TriedNext(o: seq<Step>, w: nat, n: nat, x': int)
    requires |o| >= 2 && n < |o| && w <= o[n].x <= o[|o| - 1].x
    ensures Tried(o, w, n + 1, x') <==> Tried(o, w, n, x') || x' == o[n].x - w
  {
  }

  /** Right edges closer than w to the left border give no place. */
  lemma BestOfTriedSkip(o: seq<Step>, w: nat, h: nat, height: int, n: nat, found: bool, x: int)
    requires |o| >= 2 && Increasing(o) && o[0].x == 0 && 0 < w && n < |o| && o[n].x < w
    requires BestOfTried(o, w, h, height, n, found, x)
    ensures BestOfTried(o, w, h, height, n + 1, found, x)
  {
    forall x'
      ensures Tried(o, w, n + 1, x') <==> Tried(o, w, n, x')
    {
    }
  }

  lemma TriedAll(o: seq<Step>, w: nat, h: nat, height: int, found: bool, x: int)
    requires |o| >= 2 && Increasing(o) && o[0].x == 0 && 0 < w
    requires BestOfTried(o, w, h, height, |o|, found, x)
    ensures found ==> BestFit(o, w, h, height, x)
    ensures !found ==> forall x' :: Candidate(o, w, x') ==> ReportAt(o, w, x').minY + h > height
  {
    forall x'
      ensures Tried(o, w, |o|, x') <==> Candidate(o, w, x')
    {
    }
  }

  /** The heights reported lie between the floor and the target's top. */
  lemma ReportInside(o: seq<Step>, width: nat, height: nat, k: nat, x: int, w: nat)
    requires WellFormed(o, width, height) && k + 1 < |o| && o[k].x <= x < o[k + 1].x && 0 < w && x + w <= width
    ensures 0 <= x && 0 <= Report(o, k, x, w).minY <= height
  {
    var cols := ToColumns(o, width);
    ColumnsCarried(o, width);
    EdgesInside(o, width, k);
    ReportFindsHighest(o, cols, k, x, w);
    var c :| x <= c < x + w && cols[c] == Rest(cols, x, w);
  }

  /** The best place found so far by a search: under step k, at x. */
  datatype Best = Nothing | Found(k: nat, x: int, y: int, waste: int)

  ghost function HeightOf(best: Best): int {
    if best.Nothing? then SENTINEL_Y else best.y
  }

  ghost function WasteOf(best: Best): int {
    if best.Nothing? then SENTINEL_Y else best.waste
  }

  /** The left-edge pass over the first n edges. */
  ghost function LeftBest(o: seq<Step>, bestFit: bool, w: nat, h: nat, height: int, n: nat): Best
    requires |o| >= 2 && n < |o| && (n > 0 ==> Increasing(o) && o[n - 1].x + w <= o[|o| - 1].x)
  {
    if n == 0 then Nothing
    else
      assert n > 1 ==> Before(o, n - 2, n - 1);
      var best := LeftBest(o, bestFit, w, h, height, n - 1);
      var r := Report(o, n - 1, o[n - 1].x, w);
      var better := if bestFit then
                      r.minY + h <= height && (r.minY < HeightOf(best)
                                               || (r.minY == HeightOf(best) && r.waste < WasteOf(best)))
                    else r.minY < HeightOf(best);
      if better then Found(n - 1, o[n - 1].x, r.minY, if bestFit then r.waste else SENTINEL_Y) else best
  }

  /** The better of the best so far and the place against right edge n. */
  ghost function TryRight(o: seq<Step>, w: nat, h: nat, height: int, n: nat, best: Best): Best
    requires |o| >= 2 && Increasing(o) && o[0].x == 0 && 0 < w && n < |o| && w <= o[n].x
  {
    EdgeOrder(o, n, |o| - 1);
    var x := o[n].x - w;
    var r := ReportAt(o, w, x);
    var better := r.minY + h <= height && r.minY <= HeightOf(best)
      && (r.minY < HeightOf(best) || r.waste < WasteOf(best)
          || (r.waste == WasteOf(best) && best.Found? && x < best.x));
    if better then Found(IndexFrom(o, x, 0), x, r.minY, r.waste) else best
  }

  /** The right-edge pass, from what the left-edge pass found, over the first n edges. */
  ghost function RightBest(o: seq<Step>, w: nat, h: nat, height: int, n: nat, left: Best): Best
    requires |o| >= 2 && Increasing(o) && o[0].x == 0 && 0 < w && n <= |o|
  {
    if n == 0 then left
    else
      var best := RightBest(o, w, h, height, n - 1, left);
      if o[n - 1].x < w then best else TryRight(o, w, h, height, n - 1, best)
  }

  lemma RightBestNext(o: seq<Step>, w: nat, h: nat, height: int, n: nat, left: Best)
    requires |o| >= 2 && Increasing(o) && o[0].x == 0 && 0 < w && n < |o| && w <= o[n].x
    ensures RightBest(o, w, h, height, n + 1, left) == TryRight(o, w, h, height, n, RightBest(o, w, h, height, n, left))
  {
  }

  lemma RightBestSkip(o: seq<Step>, w: nat, h: nat, height: int, n: nat, left: Best)
    requires |o| >= 2 && Increasing(o) && o[0].x == 0 && 0 < w && n < |o| && o[n].x < w
    ensures RightBest(o, w, h, height, n + 1, left) == RightBest(o, w, h, height, n, left)
  {
  }

  /** The best after 0, 1, .., |o| right edges. */
  ghost function RightBests(o: seq<Step>, w: nat, h: nat, height: int, left: Best): (rs: seq<Best>)
    requires |o| >= 2 && Increasing(o) && o[0].x == 0 && 0 < w
  {
    seq(|o| + 1, n requires 0 <= n <= |o| => RightBest(o, w, h, height, n, left))
  }

  /** `best` is the best of the places tried, and remembers their reports. */
  ghost predicate BestKept(o: seq<Step>, w: nat, h: nat, height: int, n: nat, best: Best)
    requires |o| >= 2 && Increasing(o) && o[0].x == 0 && 0 < w && n <= |o|
  {
    && BestOfTried(o, w, h, height, n, best.Found?, if best.Found? then best.x else 0)
    && (best.Found? ==> best.y == ReportAt(o, w, best.x).minY && best.waste == ReportAt(o, w, best.x).waste
                        && best.k == IndexFrom(o, best.x, 0))
  }

  lemma {:induction false} LeftBestIsBest(o: seq<Step>, width: nat, bestFit: bool, w: nat, h: nat, height: nat, n: nat)
    requires WellFormed(o, width, height) && height < SENTINEL_Y && 0 < w
    requires n < |o| && (n > 0 ==> o[n - 1].x + w <= width)
    ensures var b := LeftBest(o, bestFit, w, h, height, n);
            && BestOfLeft(o, bestFit, w, h, height, n, b.Found?, if b.Found? then b.k else 0)
            && (b.Found? ==> b.x == o[b.k].x && b.y == Report(o, b.k, b.x, w).minY)
            && (b.Found? && bestFit ==> b.waste == Report(o, b.k, b.x, w).waste)
            && (!bestFit && n > 0 ==> b.Found?)
  {
    if n > 0 {
      assert n > 1 ==> Before(o, n - 2, n - 1);
      EdgesInside(o, width, n - 1);
      LeftBestIsBest(o, width, bestFit, w, h, height, n - 1);
      var best := LeftBest(o, bestFit, w, h, height, n - 1);
      ReportInside(o, width, height, n - 1, o[n - 1].x, w);
      BestOfLeftNext(o, bestFit, w, h, height, n - 1, best.Found?, if best.Found? then best.k else 0);
      if best.Found? {
        assert Before(o, best.k, n - 1);
      }
    }
  }

  /** What the left-edge pass has found when it stops at edge n. */
  lemma LeftBestDone(o: seq<Step>, width: nat, bestFit: bool, w: nat, h: nat, height: nat, n: nat)
    requires WellFormed(o, width, height) && height < SENTINEL_Y && 0 < w
    requires 0 < n < |o| && o[n - 1].x + w <= width < o[n].x + w
    ensures var b := LeftBest(o, bestFit, w, h, height, n);
            && BestOfLeft(o, bestFit, w, h, height, |o|, b.Found?, if b.Found? then b.k else 0)
            && (!bestFit ==> b.Found?)
            && (b.Found? ==> && b.k + 1 < |o| && b.x == o[b.k].x && 0 <= b.x && b.x + w <= width
                             && b.k == IndexFrom(o, b.x, 0) && b.y == Report(o, b.k, b.x, w).minY)
            && (b.Found? && bestFit ==> b.waste == Report(o, b.k, b.x, w).waste)
  {
    var b := LeftBest(o, bestFit, w, h, height, n);
    LeftBestIsBest(o, width, bestFit, w, h, height, n);
    BestOfLeftDone(o, bestFit, w, h, height, n, b.Found?, if b.Found? then b.k else 0);
    if b.Found? {
      EdgesInside(o, width, b.k);
      OneStepPerColumn(o, b.x, b.k, IndexFrom(o, b.x, 0));
    }
  }

  lemma TryRightKeeps(o: seq<Step>, width: nat, w: nat, h: nat, height: nat, n: nat, best: Best)
    requires WellFormed(o, width, height) && height < SENTINEL_Y && 0 < w && n < |o| && w <= o[n].x
    requires BestKept(o, w, h, height, n, best)
    ensures BestKept(o, w, h, height, n + 1, TryRight(o, w, h, height, n, best))
  {
    var x := o[n].x - w;
    EdgesInside(o, width, n);
    ReportInside(o, width, height, IndexFrom(o, x, 0), x, w);
    BestOfTriedNext(o, w, h, height, n, best.Found?, if best.Found? then best.x else 0);
  }

  lemma SkipRightKeeps(o: seq<Step>, w: nat, h: nat, height: int, n: nat, best: Best)
    requires |o| >= 2 && Increasing(o) && o[0].x == 0 && 0 < w && n < |o| && o[n].x < w
    requires BestKept(o, w, h, height, n, best)
    ensures BestKept(o, w, h, height, n + 1, best)
  {
    BestOfTriedSkip(o, w, h, height, n, best.Found?, if best.Found? then best.x else 0);
  }

  lemma {:induction false} RightBestIsBest(o: seq<Step>, width: nat, w: nat, h: nat, height: nat, n: nat, left: Best)
      returns (b: Best)
    requires WellFormed(o, width, height) && height < SENTINEL_Y && 0 < w && n <= |o|
    requires BestKept(o, w, h, height, 0, left)
    ensures b == RightBest(o, w, h, height, n, left) && BestKept(o, w, h, height, n, b)
  {
    if n == 0 {
      b := left;
    } else {
      var best := RightBestIsBest(o, width, w, h, height, n - 1, left);
      if o[n - 1].x < w {
        RightBestSkip(o, w, h, height, n - 1, left);
        SkipRightKeeps(o, w, h, height, n - 1, best);
        b := best;
      } else {
        RightBestNext(o, w, h, height, n - 1, left);
        TryRightKeeps(o, width, w, h, height, n - 1, best);
        b := TryRight(o, w, h, height, n - 1, best);
      }
    }
  }
}
