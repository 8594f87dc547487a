/** The packer as a state machine over outlines, and what holds over its runs. */
module Packer {
  import opened Arithmetic
  import opened Columns
  import opened Outline
  import opened Search
  import opened Choice
  import opened Placement

  /** A target in the middle of a run: its fixed settings and the active chain. */
  datatype Target = Target(width: nat, height: nat, align: nat, nodes: nat, bestFit: bool, outline: seq<Step>)

  datatype Outcome = Refused | At(x: int, y: int)

  datatype Box = Box(x: int, y: int, w: nat, h: nat)

  ghost predicate Ready(t: Target) {
    && 0 < t.width && 0 < t.align && 0 < t.nodes && t.height < SENTINEL_Y
    && WellFormed(t.outline, t.width, t.height)
    && |t.outline| <= t.nodes + 2
  }

  ghost function Cols(t: Target): (cols: seq<int>)
    requires Spans(t.outline, t.width)
  {
    ToColumns(t.outline, t.width)
  }

  /** w rounded up to a multiple of the target's alignment. */
  function AlignUp(w: nat, align: nat): (r: nat)
    requires 0 < align
    ensures w <= r < w + align && r % align == 0
  {
    RoundingUp(w + align - 1, align);
    w + align - 1 - (w + align - 1) % align
  }

  lemma RoundingUp(n: nat, align: nat)
    requires 0 < align
    ensures (n - n % align) % align == 0
  {
    DivModUnique(n - n % align, align, n / align, 0);
  }

  /** Some place of the target, above the skyline, has room for the block as the
      search widens it. */
  ghost predicate HasRoom(t: Target, w: nat, h: nat)
    requires Ready(t) && 0 < w
  {
    exists x: nat :: Fits(Cols(t), AlignUp(w, t.align), h, t.height, x)
  }

  /** The heuristic's choice of x for a block, among the places of the target. */
  ghost predicate Chosen(t: Target, w: nat, h: nat, x: int)
    requires Ready(t) && 0 < w
  {
    0 <= x &&
    if t.bestFit then BestFit(t.outline, AlignUp(w, t.align), h, t.height, x)
    else BottomLeft(Cols(t), AlignUp(w, t.align), x)
  }

  /** The target after a block has been put at x. */
  ghost function Placing(t: Target, x: int, w: nat, top: int): Target
    requires Spans(t.outline, t.width) && 0 <= x < t.width
  {
    t.(outline := Place(t.outline, IndexFrom(t.outline, x, 0), x, w, top))
  }

  /** One request: a block w wide and h high is placed or refused. */
  ghost predicate Request(t: Target, w: nat, h: nat, r: Outcome, t': Target)
    requires Ready(t) && 0 < w
  {
    match r
    case Refused =>
      t' == t && (!HasRoom(t, w, h) || |t.outline| == t.nodes + 2)
    case At(x, y) =>
      && |t.outline| < t.nodes + 2
      && Chosen(t, w, h, x)
      && Fits(Cols(t), AlignUp(w, t.align), h, t.height, x)
      && y == Rest(Cols(t), x, AlignUp(w, t.align))
      && t' == Placing(t, x, w, y + h)
  }

  lemma Carried(t: Target)
    requires Ready(t)
    ensures Carries(t.outline, Cols(t)) && NonNegative(t.outline)
  {
    ColumnsCarried(t.outline, t.width);
  }

  lemma HeightsInside(t: Target, c: nat)
    requires Ready(t) && c < t.width
    ensures 0 <= Cols(t)[c] <= t.height
  {
  }

  /** A block comes to rest on the columns under it, below the target's top. */
  lemma RestsOnColumns(t: Target, w: nat, h: nat, x: int, y: int, t': Target)
    requires Ready(t) && 0 < w && Request(t, w, h, At(x, y), t')
    ensures 0 <= x && x + w <= t.width && 0 <= y && y + h <= t.height
    ensures forall c :: x <= c < x + w ==> Cols(t)[c] <= y
  {
    var c :| x <= c < x + AlignUp(w, t.align) && Cols(t)[c] == y;
    HeightsInside(t, c);
  }

  /** What a placement does to the columns. */
  lemma PlacingRaises(t: Target, x: int, w: nat, top: int, t': Target)
    requires Ready(t) && |t.outline| < t.nodes + 2
    requires 0 <= x && 0 < w && x + w <= t.width && 0 <= top <= t.height
    requires t' == Placing(t, x, w, top)
    ensures Ready(t')
    ensures var rw := RaisedWidth(t.outline, IndexFrom(t.outline, x, 0), x, w);
            w <= rw && x + rw <= t.width && Cols(t') == Raise(Cols(t), x, rw, top)
  {
    var k := IndexFrom(t.outline, x, 0);
    Carried(t);
    PlaceWellFormed(t.outline, t.width, t.height, k, x, w, top);
    PlaceRaises(t.outline, t.width, t.height, k, x, w, top, Cols(t));
    ColumnsUnique(t'.outline, t.width, Raise(Cols(t), x, RaisedWidth(t.outline, k, x, w), top));
    PlaceShape(t.outline, t.width, t.height, k, x, w, top);
  }

  lemma RequestRaises(t: Target, w: nat, h: nat, x: int, y: int, t': Target)
    requires Ready(t) && 0 < w && Request(t, w, h, At(x, y), t')
    ensures Ready(t') && 0 <= x
    ensures var rw := RaisedWidth(t.outline, IndexFrom(t.outline, x, 0), x, w);
            w <= rw && x + rw <= t.width && Cols(t') == Raise(Cols(t), x, rw, y + h)
  {
    RestsOnColumns(t, w, h, x, y, t');
    PlacingRaises(t, x, w, y + h, t');
  }

  lemma SameStep(t: Target, k: nat, c: nat, c': nat)
    requires Ready(t) && k + 1 < |t.outline| && t.outline[k].x <= c < t.outline[k + 1].x
             && t.outline[k].x <= c' < t.outline[k + 1].x
    ensures c < t.width && c' < t.width && Cols(t)[c] == Cols(t)[c']
  {
    EdgesInside(t.outline, t.width, k);
    Carried(t);
    assert Flat(Cols(t), t.outline[k].x, t.outline[k + 1].x, t.outline[k].y);
  }

  /** The columns that rise were not above the block's bottom, not even those
      best-fit raises beyond the block's own. */
  lemma RaisedFromBelow(t: Target, w: nat, h: nat, x: int, y: int, t': Target, c: nat)
    requires Ready(t) && 0 < w && Request(t, w, h, At(x, y), t') && 0 <= x < t.width
    requires x <= c < x + RaisedWidth(t.outline, IndexFrom(t.outline, x, 0), x, w) && c < t.width
    ensures Cols(t)[c] <= y
  {
    var k := IndexFrom(t.outline, x, 0);
    RestsOnColumns(t, w, h, x, y, t');
    if c >= x + w {
      SameStep(t, k, x, c);
    }
  }

  /** No column ever falls. */
  lemma SkylineNeverFalls(t: Target, w: nat, h: nat, r: Outcome, t': Target, c: nat)
    requires Ready(t) && 0 < w && Request(t, w, h, r, t') && c < t.width
    ensures Ready(t') && Cols(t)[c] <= Cols(t')[c]
  {
    if r.At? {
      RequestRaises(t, w, h, r.x, r.y, t');
      if r.x <= c < r.x + RaisedWidth(t.outline, IndexFrom(t.outline, r.x, 0), r.x, w) {
        RaisedFromBelow(t, w, h, r.x, r.y, t', c);
      }
    }
  }

  /** Bottom-left puts a block at the left edge of a step. */
  lemma BottomLeftAtEdge(t: Target, w: nat, x: nat)
    requires Ready(t) && 0 < w && BottomLeft(Cols(t), w, x)
    ensures x < t.width && t.outline[IndexFrom(t.outline, x, 0)].x == x
  {
    Carried(t);
    var k := IndexFrom(t.outline, x, 0);
    SlideLeft(t.outline, Cols(t), k, x, w);
    assert Rest(Cols(t), x, w) <= Rest(Cols(t), t.outline[k].x, w);
    assert x <= t.outline[k].x;
  }

  /** In bottom-left mode the columns change on exactly the block's own columns. */
  lemma BottomLeftRaisesExactly(t: Target, w: nat, h: nat, x: int, y: int, t': Target)
    requires Ready(t) && 0 < w && Request(t, w, h, At(x, y), t') && !t.bestFit
    ensures Ready(t') && 0 <= x && x + w <= t.width && Cols(t') == Raise(Cols(t), x, w, y + h)
  {
    BottomLeftAtEdge(t, AlignUp(w, t.align), x);
    RequestRaises(t, w, h, x, y, t');
  }

  lemma ChosenOnce(t: Target, w: nat, h: nat, x: int, x': int)
    requires Ready(t) && 0 < w && Chosen(t, w, h, x) && Chosen(t, w, h, x')
    ensures x == x'
  {
    if t.bestFit {
      BestFitUnique(t.outline, AlignUp(w, t.align), h, t.height, x, x');
    } else {
      BottomLeftUnique(Cols(t), AlignUp(w, t.align), x, x');
    }
  }

  lemma PlacedOnce(t: Target, w: nat, h: nat, x: int, y: int, t1: Target, x': int, y': int, t2: Target)
    requires Ready(t) && 0 < w && Request(t, w, h, At(x, y), t1) && Request(t, w, h, At(x', y'), t2)
    ensures x == x' && y == y' && t1 == t2
  {
    ChosenOnce(t, w, h, x, x');
  }

  /** An outcome is determined by the state and the request. */
  lemma RequestDetermined(t: Target, w: nat, h: nat, r1: Outcome, t1: Target, r2: Outcome, t2: Target)
    requires Ready(t) && 0 < w && Request(t, w, h, r1, t1) && Request(t, w, h, r2, t2)
    ensures r1 == r2 && t1 == t2
  {
    if r1.At? {
      PlacedOnce(t, w, h, r1.x, r1.y, t1, r2.x, r2.y, t2);
    }
  }

  /** Either heuristic puts a block at the least height any place offers. */
  lemma PlacedLowest(t: Target, w: nat, h: nat, x: int, y: int, t': Target, x': nat)
    requires Ready(t) && 0 < w && Request(t, w, h, At(x, y), t') && x' + AlignUp(w, t.align) <= t.width
    ensures y <= Rest(Cols(t), x', AlignUp(w, t.align))
  {
    Carried(t);
    if t.bestFit {
      BestFitIsLowest(t.outline, Cols(t), AlignUp(w, t.align), h, t.height, x);
    }
  }
}

/** The searches' results, as choices of the heuristics. */
module Searched {
  import opened Columns
  import opened Outline
  import opened Search
  import opened Choice
  import opened Packer

  /** What the two passes find, as the packer runs them: n is where the first stops. */
  ghost function FoundBest(t: Target, w: nat, h: nat, n: nat): Best
    requires Ready(t) && 0 < w && n < |t.outline| && (n > 0 ==> t.outline[n - 1].x + w <= t.width)
  {
    var left := LeftBest(t.outline, t.bestFit, w, h, t.height, n);
    if t.bestFit then RightBests(t.outline, w, h, t.height, left)[|t.outline|] else left
  }

  lemma LeftIsBottomLeft(t: Target, w: nat, h: nat, n: nat)
    requires Ready(t) && !t.bestFit && 0 < w <= t.width
    requires 0 < n < |t.outline| && t.outline[n - 1].x + w <= t.width < t.outline[n].x + w
    ensures var b := FoundBest(t, w, h, n);
            && b.Found? && 0 <= b.x && b.x + w <= t.width && b.k == IndexFrom(t.outline, b.x, 0)
            && BottomLeft(Cols(t), w, b.x) && b.y == Rest(Cols(t), b.x, w)
  {
    var o, cols := t.outline, Cols(t);
    var b := FoundBest(t, w, h, n);
    Carried(t);
    LeftBestDone(o, t.width, false, w, h, t.height, n);
    BestOfLeftIsLowest(o, cols, w, h, t.height, b.k);
    LowestEdgeIsBottomLeft(o, cols, w, b.k);
    ReportFindsHighest(o, cols, b.k, b.x, w);
  }

  lemma PassesAreBestFit(t: Target, w: nat, h: nat, n: nat)
    requires Ready(t) && t.bestFit && 0 < w <= t.width
    requires 0 < n < |t.outline| && t.outline[n - 1].x + w <= t.width < t.outline[n].x + w
    ensures var b := FoundBest(t, w, h, n);
            && (b.Nothing? ==> forall x: nat :: !Fits(Cols(t), w, h, t.height, x))
            && (b.Found? ==> 0 <= b.x && b.x + w <= t.width && b.k == IndexFrom(t.outline, b.x, 0)
                             && BestFit(t.outline, w, h, t.height, b.x) && b.y == Rest(Cols(t), b.x, w))
  {
    var o, cols := t.outline, Cols(t);
    var left := LeftBest(o, true, w, h, t.height, n);
    Carried(t);
    LeftBestDone(o, t.width, true, w, h, t.height, n);
    LeftPassTried(o, w, h, t.height, left.Found?, if left.Found? then left.k else 0);
    var b := RightBestIsBest(o, t.width, w, h, t.height, |o|, left);
    TriedAll(o, w, h, t.height, b.Found?, if b.Found? then b.x else 0);
    if b.Nothing? {
      NoCandidateNoPlace(o, cols, w, h, t.height);
    } else {
      ReportAtIsRest(o, cols, w, b.x);
    }
  }

  /** What the searches find is the heuristic's choice; what they do not find is
      not there. */
  lemma FoundIsChosen(t: Target, w: nat, h: nat, n: nat)
    requires Ready(t) && 0 < w && 0 < AlignUp(w, t.align) <= t.width
    requires var aw := AlignUp(w, t.align);
             0 < n < |t.outline| && t.outline[n - 1].x + aw <= t.width < t.outline[n].x + aw
    ensures var b := FoundBest(t, AlignUp(w, t.align), h, n);
            && (b.Nothing? || b.y + h > t.height ==> !HasRoom(t, w, h))
            && (b.Found? ==> Chosen(t, w, h, b.x) && b.x + AlignUp(w, t.align) <= t.width
                             && b.k == IndexFrom(t.outline, b.x, 0) && b.y == Rest(Cols(t), b.x, AlignUp(w, t.align)))
  {
    if t.bestFit {
      PassesAreBestFit(t, AlignUp(w, t.align), h, n);
      var b := FoundBest(t, AlignUp(w, t.align), h, n);
      if b.Found? {
        Carried(t);
        BestFitIsLowest(t.outline, Cols(t), AlignUp(w, t.align), h, t.height, b.x);
      }
    } else {
      LeftIsBottomLeft(t, AlignUp(w, t.align), h, n);
    }
  }

  /** Where the left-edge pass stops. */
  lemma {:induction false} PassStops(o: seq<Step>, width: nat, w: nat, k: nat) returns (n: nat)
    requires Spans(o, width) && 0 < w && k < |o| && o[k].x + w <= width
    ensures 0 < n < |o| && o[n - 1].x + w <= width < o[n].x + w
    decreases |o| - k
  {
    if o[k + 1].x + w > width {
      n := k + 1;
    } else {
      n := PassStops(o, width, w, k + 1);
    }
  }

  /** Where there is room, the heuristic has a choice. */
  lemma RoomIsChosen(t: Target, w: nat, h: nat)
    requires Ready(t) && 0 < w && HasRoom(t, w, h)
    ensures exists x :: Chosen(t, w, h, x) && Fits(Cols(t), AlignUp(w, t.align), h, t.height, x)
  {
    var aw := AlignUp(w, t.align);
    var n := PassStops(t.outline, t.width, aw, 0);
    FoundIsChosen(t, w, h, n);
    assert Fits(Cols(t), aw, h, t.height, FoundBest(t, aw, h, n).x);
  }

  datatype Response = Response(outcome: Outcome, target: Target)

  /** The response to a request. */
  ghost function Next(t: Target, w: nat, h: nat): Response
    requires Ready(t) && 0 < w
  {
    if HasRoom(t, w, h) && |t.outline| < t.nodes + 2 then
      RoomIsChosen(t, w, h);
      var x :| Chosen(t, w, h, x) && Fits(Cols(t), AlignUp(w, t.align), h, t.height, x);
      var y := Rest(Cols(t), x, AlignUp(w, t.align));
      Response(At(x, y), Placing(t, x, w, y + h))
    else Response(Refused, t)
  }

  /** Every request has exactly one response. */
  lemma RequestIffNext(t: Target, w: nat, h: nat, r: Outcome, t': Target)
    requires Ready(t) && 0 < w
    ensures Request(t, w, h, r, t') <==> Response(r, t') == Next(t, w, h)
  {
    var next := Next(t, w, h);
    assert Request(t, w, h, next.outcome, next.target);
    if Request(t, w, h, r, t') {
      RequestDetermined(t, w, h, r, t', next.outcome, next.target);
    }
  }
}

/** Whole runs of requests on one target. */
module PackerRuns {
  import opened Packer

  predicate Apart(a: Box, b: Box) {
    a.x + a.w <= b.x || b.x + b.w <= a.x || a.y + a.h <= b.y || b.y + b.h <= a.y
  }

  predicate Inside(b: Box, width: nat, height: nat) {
    0 <= b.x && b.x + b.w <= width && 0 <= b.y && b.y + b.h <= height
  }

  /** The skyline passes over the box. */
  ghost predicate Buried(b: Box, cols: seq<int>) {
    0 <= b.x && b.x + b.w <= |cols| && forall c :: b.x <= c < b.x + b.w ==> b.y + b.h <= cols[c]
  }

  /** A box that starts on top of the columns is apart from every buried one. */
  lemma OnTopIsApart(b: Box, n: Box, cols: seq<int>)
    requires Buried(b, cols) && 0 < b.w && 0 < n.w
    requires 0 <= n.x && n.x + n.w <= |cols| && forall c :: n.x <= c < n.x + n.w ==> cols[c] <= n.y
    ensures Apart(b, n) && Apart(n, b)
  {
    var c := if b.x < n.x then n.x else b.x;
    assert b.x <= c < b.x + b.w && n.x <= c < n.x + n.w ==> b.y + b.h <= cols[c] <= n.y;
  }

  lemma StaysBuried(b: Box, t: Target, w: nat, h: nat, r: Outcome, t': Target)
    requires Ready(t) && 0 < w && Request(t, w, h, r, t') && Buried(b, Cols(t))
    ensures Ready(t') && Buried(b, Cols(t'))
  {
    if r.At? {
      RequestRaises(t, w, h, r.x, r.y, t');
    }
    forall c | b.x <= c < b.x + b.w
      ensures b.y + b.h <= Cols(t')[c]
    {
      SkylineNeverFalls(t, w, h, r, t', c);
    }
  }

  /** The boxes placed so far: non-empty, on the target, apart, under the skyline. */
  ghost predicate Packed(bs: set<Box>, t: Target)
    requires Ready(t)
  {
    && (forall b :: b in bs ==> 0 < b.w && 0 < b.h && Inside(b, t.width, t.height) && Buried(b, Cols(t)))
    && forall a, b :: a in bs && b in bs && a != b ==> Apart(a, b)
  }

  /** Placing one more box: it is new, and everything stays packed. */
  lemma RequestKeepsPacked(bs: set<Box>, t: Target, w: nat, h: nat, x: int, y: int, t': Target)
    requires Ready(t) && 0 < w && 0 < h && Packed(bs, t) && Request(t, w, h, At(x, y), t')
    ensures Ready(t') && Box(x, y, w, h) !in bs && Packed(bs + {Box(x, y, w, h)}, t')
  {
    var n := Box(x, y, w, h);
    RestsOnColumns(t, w, h, x, y, t');
    RequestRaises(t, w, h, x, y, t');
    assert Buried(n, Cols(t'));
    forall b | b in bs
      ensures Apart(b, n) && Apart(n, b) && Buried(b, Cols(t'))
    {
      OnTopIsApart(b, n, Cols(t));
      StaysBuried(b, t, w, h, At(x, y), t');
    }
    assert !Apart(n, n);
  }

  datatype Event = Event(w: nat, h: nat, r: Outcome)

  /** A run: the requests made in order, with their outcomes. */
  ghost predicate Run(t: Target, es: seq<Event>, t': Target)
    requires Ready(t)
    decreases |es|
  {
    if es == [] then t' == t
    else
      var e := es[|es| - 1];
      0 < e.w && 0 < e.h &&
      exists mid :: Run(t, es[..|es| - 1], mid) && Ready(mid) && Request(mid, e.w, e.h, e.r, t')
  }

  lemma RunSnoc(t: Target, es: seq<Event>, mid: Target, e: Event, t': Target)
    requires Ready(t) && Run(t, es, mid) && Ready(mid) && 0 < e.w && 0 < e.h && Request(mid, e.w, e.h, e.r, t')
    ensures Run(t, es + [e], t')
  {
    assert (es + [e])[..|es|] == es;
  }

  ghost function BoxOf(e: Event): Box
    requires e.r.At?
  {
    Box(e.r.x, e.r.y, e.w, e.h)
  }

  ghost function Boxes(es: seq<Event>): set<Box> {
    set i | 0 <= i < |es| && es[i].r.At? :: BoxOf(es[i])
  }

  lemma BoxesSnoc(es: seq<Event>)
    requires |es| > 0
    ensures var e := es[|es| - 1];
            Boxes(es) == Boxes(es[..|es| - 1]) + (if e.r.At? then {BoxOf(e)} else {})
  {
    var init := es[..|es| - 1];
    forall b | b in Boxes(es)
      ensures b in Boxes(init) || (es[|es| - 1].r.At? && b == BoxOf(es[|es| - 1]))
    {
      var i :| 0 <= i < |es| && es[i].r.At? && b == BoxOf(es[i]);
      assert i < |es| - 1 ==> init[i] == es[i];
    }
    forall b | b in Boxes(init)
      ensures b in Boxes(es)
    {
      var i :| 0 <= i < |init| && init[i].r.At? && b == BoxOf(init[i]);
      assert es[i] == init[i];
    }
  }

  ghost predicate DistinctBoxes(es: seq<Event>) {
    forall i, j :: 0 <= i < j < |es| && es[i].r.At? && es[j].r.At? ==> BoxOf(es[i]) != BoxOf(es[j])
  }

  lemma DistinctSnoc(es: seq<Event>)
    requires |es| > 0 && DistinctBoxes(es[..|es| - 1])
    requires es[|es| - 1].r.At? ==> BoxOf(es[|es| - 1]) !in Boxes(es[..|es| - 1])
    ensures DistinctBoxes(es)
  {
    var n := |es| - 1;
    var init := es[..n];
    forall i, j | 0 <= i < j < |es| && es[i].r.At? && es[j].r.At?
      ensures BoxOf(es[i]) != BoxOf(es[j])
    {
      assert init[i] == es[i];
      assert BoxOf(init[i]) in Boxes(init);
      if j < n {
        assert init[j] == es[j];
      }
    }
  }

  lemma StepKeepsPacked(bs: set<Box>, t: Target, w: nat, h: nat, r: Outcome, t': Target)
    requires Ready(t) && 0 < w && 0 < h && Packed(bs, t) && Request(t, w, h, r, t')
    ensures Ready(t') && t' == t.(outline := t'.outline)
    ensures r.At? ==> Box(r.x, r.y, w, h) !in bs
    ensures Packed(bs + (if r.At? then {Box(r.x, r.y, w, h)} else {}), t')
  {
    if r.At? {
      RequestKeepsPacked(bs, t, w, h, r.x, r.y, t');
    }
  }

  lemma {:induction false} RunKeepsPacked(t: Target, es: seq<Event>, t': Target)
    requires Ready(t) && Run(t, es, t')
    ensures Ready(t') && t' == t.(outline := t'.outline)
    ensures Packed(Boxes(es), t') && DistinctBoxes(es)
    decreases |es|
  {
    if es != [] {
      var e, init := es[|es| - 1], es[..|es| - 1];
      var mid :| Run(t, init, mid) && Ready(mid) && Request(mid, e.w, e.h, e.r, t');
      RunKeepsPacked(t, init, mid);
      BoxesSnoc(es);
      StepKeepsPacked(Boxes(init), mid, e.w, e.h, e.r, t');
      DistinctSnoc(es);
    }
  }

  /** Safety over whole runs: whatever is requested, under either heuristic, the
      placed blocks lie on the target and no two of them overlap. */
  lemma RunSafe(t: Target, es: seq<Event>, t': Target, i: nat, j: nat)
    requires Ready(t) && Run(t, es, t')
    requires i < j < |es| && es[i].r.At? && es[j].r.At?
    ensures Apart(BoxOf(es[i]), BoxOf(es[j]))
    ensures Inside(BoxOf(es[i]), t.width, t.height) && Inside(BoxOf(es[j]), t.width, t.height)
  {
    RunKeepsPacked(t, es, t');
    assert BoxOf(es[i]) in Boxes(es) && BoxOf(es[j]) in Boxes(es);
  }
}
