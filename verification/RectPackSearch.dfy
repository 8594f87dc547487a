/** What the two searches of the packer look for, and why looking only at the
    nodes' edges is enough. */
module Search {
  import opened Columns
  import opened Outline

  /** Where the walk over the steps under a block stands: at step k, having met
      the height minY, passed `visited` columns and noted `waste`. */
  datatype Walk = Walk(k: nat, minY: int, visited: int, waste: int)

  /** One turn of the walk under a block of width w whose left edge is at x0. */
  ghost function Advance(o: seq<Step>, x0: int, w: nat, s: Walk): Walk
    requires s.k + 1 < |o|
  {
    var width := o[s.k + 1].x - o[s.k].x;
    if o[s.k].y > s.minY then
      Walk(s.k + 1, o[s.k].y, s.visited + (if o[s.k].x < x0 then o[s.k + 1].x - x0 else width),
           s.waste + s.visited * (o[s.k].y - s.minY))
    else
      var under := if width + s.visited > w then w - s.visited else width;
      Walk(s.k + 1, s.minY, s.visited + under, s.waste + under * (s.minY - o[s.k].y))
  }

  ghost function Scan(o: seq<Step>, x0: int, w: nat, s: Walk): Walk
    requires s.k < |o| && x0 + w <= o[|o| - 1].x
    decreases |o| - s.k
  {
    if o[s.k].x >= x0 + w then s else Scan(o, x0, w, Advance(o, x0, w, s))
  }

  /** What the search is told about the place x0, found under step k. */
  ghost function Report(o: seq<Step>, k: nat, x0: int, w: nat): Walk
    requires k < |o| && x0 + w <= o[|o| - 1].x
  {
    Scan(o, x0, w, Walk(k, 0, 0, 0))
  }

  ghost predicate NonNegative(o: seq<Step>) {
    forall i :: 0 <= i < |o| - 1 ==> 0 <= o[i].y
  }

  /** x0 lies under step k of an outline that carries `cols`, and a block of
      width w put there stays on the target. */
  ghost predicate Under(o: seq<Step>, cols: seq<int>, k: nat, x0: int, w: nat) {
    && Carries(o, cols) && Increasing(o) && NonNegative(o)
    && k + 1 < |o| && o[k].x <= x0 < o[k + 1].x
    && 0 <= x0 && 0 < w && x0 + w <= |cols|
  }

  /** How far the walk has got when it stands at step k. */
  ghost function Reached(o: seq<Step>, k: nat, x0: int, w: nat): int
    requires k < |o|
  {
    if o[k].x <= x0 then x0 else if o[k].x >= x0 + w then x0 + w else o[k].x
  }

  /** The walk has met exactly the greatest height of the columns passed. */
  ghost predicate HeightMet(o: seq<Step>, cols: seq<int>, x0: int, w: nat, s: Walk) {
    && s.k < |o| && (s.k + 1 < |o| ==> x0 < o[s.k + 1].x)
    && 0 <= x0 && 0 < w && x0 + w <= |cols|
    && var at := Reached(o, s.k, x0, w);
       s.minY == if at == x0 then 0 else Highest(cols, x0, at)
  }

  /** The walk has noted exactly the area of the columns passed. */
  ghost predicate AreaNoted(o: seq<Step>, cols: seq<int>, x0: int, w: nat, s: Walk)
    requires HeightMet(o, cols, x0, w, s)
  {
    && x0 <= o[s.k].x && (o[s.k].x < x0 + w ==> s.visited == o[s.k].x - x0)
    && s.waste == Gap(cols, x0, Reached(o, s.k, x0, w), s.minY)
  }

  /** The columns passed in one turn are the step's. */
  lemma TurnIsFlat(o: seq<Step>, cols: seq<int>, k: nat, x0: int, w: nat)
    requires Carries(o, cols) && Increasing(o) && NonNegative(o) && k < |o|
    requires 0 <= x0 && 0 < w && x0 + w <= |cols| && o[k].x < x0 + w
    requires k + 1 < |o| ==> x0 < o[k + 1].x
    ensures k + 1 < |o| && (k + 2 < |o| ==> x0 < o[k + 2].x) && o[k].y >= 0
    ensures Flat(cols, Reached(o, k, x0, w), Reached(o, k + 1, x0, w), o[k].y)
    ensures x0 <= Reached(o, k, x0, w) < Reached(o, k + 1, x0, w) <= x0 + w
  {
    assert Flat(cols, o[k].x, o[k + 1].x, o[k].y);
    EdgeOrder(o, k, k + 1);
    if k + 2 < |o| {
      EdgeOrder(o, k + 1, k + 2);
    }
  }

  lemma AdvanceMeets(o: seq<Step>, cols: seq<int>, x0: int, w: nat, s: Walk)
    requires Carries(o, cols) && Increasing(o) && NonNegative(o)
    requires HeightMet(o, cols, x0, w, s) && o[s.k].x < x0 + w
    ensures s.k + 1 < |o| && HeightMet(o, cols, x0, w, Advance(o, x0, w, s))
  {
    TurnIsFlat(o, cols, s.k, x0, w);
    HighestExtended(cols, x0, Reached(o, s.k, x0, w), Reached(o, s.k + 1, x0, w), o[s.k].y);
  }

  /** What a turn adds to the waste, when the visited width is right on. */
  lemma TurnWaste(o: seq<Step>, x0: int, w: nat, s: Walk)
    requires s.k + 1 < |o| && x0 <= o[s.k].x < x0 + w && o[s.k].x < o[s.k + 1].x
    requires s.visited == o[s.k].x - x0
    ensures var s' := Advance(o, x0, w, s);
            var at, to := Reached(o, s.k, x0, w), Reached(o, s.k + 1, x0, w);
            s'.waste == s.waste + (at - x0) * (s'.minY - s.minY) + (to - at) * (s'.minY - o[s.k].y)
            && (o[s.k + 1].x < x0 + w ==> s'.visited == o[s.k + 1].x - x0)
  {
  }

  lemma AdvanceNotes(o: seq<Step>, cols: seq<int>, x0: int, w: nat, s: Walk)
    requires Carries(o, cols) && Increasing(o) && NonNegative(o)
    requires HeightMet(o, cols, x0, w, s) && o[s.k].x < x0 + w && AreaNoted(o, cols, x0, w, s)
    ensures s.k + 1 < |o| && HeightMet(o, cols, x0, w, Advance(o, x0, w, s))
    ensures AreaNoted(o, cols, x0, w, Advance(o, x0, w, s))
  {
    AdvanceMeets(o, cols, x0, w, s);
    TurnIsFlat(o, cols, s.k, x0, w);
    TurnWaste(o, x0, w, s);
    GapAdvance(cols, x0, Reached(o, s.k, x0, w), Reached(o, s.k + 1, x0, w), o[s.k].y, s.minY,
               Advance(o, x0, w, s).minY);
  }

  /** The height found is the greatest column height under the block, whatever
      the walk has noted as visited width and waste. */
  lemma {:induction false} ScanFindsHighest(o: seq<Step>, cols: seq<int>, x0: int, w: nat, s: Walk)
    requires Carries(o, cols) && Increasing(o) && NonNegative(o)
    requires HeightMet(o, cols, x0, w, s)
    ensures Scan(o, x0, w, s).minY == Rest(cols, x0, w)
    decreases |o| - s.k
  {
    if o[s.k].x < x0 + w {
      AdvanceMeets(o, cols, x0, w, s);
      ScanFindsHighest(o, cols, x0, w, Advance(o, x0, w, s));
    }
  }

  lemma ReportFindsHighest(o: seq<Step>, cols: seq<int>, k: nat, x0: int, w: nat)
    requires Under(o, cols, k, x0, w)
    ensures Report(o, k, x0, w).minY == Rest(cols, x0, w)
  {
    ScanFindsHighest(o, cols, x0, w, Walk(k, 0, 0, 0));
  }

  /** From a walk whose notes are right on, the waste is the exact area. */
  lemma {:induction false} ScanMeasures(o: seq<Step>, cols: seq<int>, x0: int, w: nat, s: Walk)
    requires Carries(o, cols) && Increasing(o) && NonNegative(o)
    requires HeightMet(o, cols, x0, w, s) && AreaNoted(o, cols, x0, w, s)
    ensures Scan(o, x0, w, s).waste == Gap(cols, x0, x0 + w, Rest(cols, x0, w))
    decreases |o| - s.k
  {
    if o[s.k].x < x0 + w {
      AdvanceNotes(o, cols, x0, w, s);
      ScanMeasures(o, cols, x0, w, Advance(o, x0, w, s));
    }
  }

  /** What the search can see at the step the block's left edge is under, and
      what decides whether the waste it will be told can be trusted. */
  ghost predicate WasteReliable(o: seq<Step>, k: nat, x0: int, w: nat)
    requires k + 1 < |o|
  {
    x0 == o[k].x || o[k].y > 0 || o[k + 1].x >= x0 + w
  }

  ghost predicate WasteExact(o: seq<Step>, cols: seq<int>, k: nat, x0: int, w: nat)
    requires Under(o, cols, k, x0, w)
  {
    Report(o, k, x0, w).waste == Gap(cols, x0, x0 + w, Rest(cols, x0, w))
  }

  lemma FirstAdvance(o: seq<Step>, k: nat, x0: int, w: nat)
    requires k + 1 < |o| && o[k].x < x0 < o[k + 1].x && 0 <= o[k].y
    requires o[k].y > 0 || o[k + 1].x >= x0 + w
    ensures var s := Advance(o, x0, w, Walk(k, 0, 0, 0));
            s.k == k + 1 && s.minY == o[k].y && s.waste == 0 && (o[k + 1].x < x0 + w ==> s.visited == o[k + 1].x - x0)
  {
  }

  /** A first turn from inside step k that leaves the notes right on. */
  lemma FirstTurn(o: seq<Step>, cols: seq<int>, k: nat, x0: int, w: nat)
    requires Under(o, cols, k, x0, w)
    requires x0 != o[k].x && (o[k].y > 0 || o[k + 1].x >= x0 + w)
    ensures HeightMet(o, cols, x0, w, Advance(o, x0, w, Walk(k, 0, 0, 0)))
    ensures AreaNoted(o, cols, x0, w, Advance(o, x0, w, Walk(k, 0, 0, 0)))
  {
    AdvanceMeets(o, cols, x0, w, Walk(k, 0, 0, 0));
    TurnIsFlat(o, cols, k, x0, w);
    FirstAdvance(o, k, x0, w);
    GapFlat(cols, x0, Reached(o, k + 1, x0, w), o[k].y, o[k].y);
  }

  lemma ReliableIsExact(o: seq<Step>, cols: seq<int>, k: nat, x0: int, w: nat)
    requires Under(o, cols, k, x0, w) && WasteReliable(o, k, x0, w)
    ensures WasteExact(o, cols, k, x0, w)
  {
    if x0 == o[k].x {
      ScanMeasures(o, cols, x0, w, Walk(k, 0, 0, 0));
    } else {
      FirstTurn(o, cols, k, x0, w);
      ScanMeasures(o, cols, x0, w, Advance(o, x0, w, Walk(k, 0, 0, 0)));
    }
  }
}
