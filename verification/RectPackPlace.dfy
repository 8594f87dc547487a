/** The surgery on the chain that places a block, as a function on outlines. */
module Placement {
  import opened Columns
  import opened Outline

  /** The first step, from step j on, that is not swallowed by a block reaching r. */
  ghost function SkipCovered(o: seq<Step>, j: nat, r: int): (k: nat)
    requires j < |o|
    ensures j <= k < |o|
    decreases |o| - j
  {
    if j + 1 < |o| && o[j + 1].x <= r then SkipCovered(o, j + 1, r) else j
  }

  /** Whether the step under the block's left side survives to its left. */
  predicate KeepsLeft(o: seq<Step>, k: nat, x: int)
    requires k < |o|
  {
    o[k].x < x
  }

  /** The first step the surgery may swallow. */
  function FirstCovered(o: seq<Step>, k: nat, x: int): nat
    requires k < |o|
  {
    if KeepsLeft(o, k, x) then k + 1 else k
  }

  /** o with `top` put in for the steps from `start` to before j, and step j
      starting at x1 at the earliest. */
  ghost function Sewn(o: seq<Step>, start: nat, j: nat, top: Step, x1: int): seq<Step>
    requires start <= j < |o|
  {
    seq(|o| + start + 1 - j, i requires 0 <= i < |o| + start + 1 - j =>
      if i < start then o[i]
      else if i == start then top
      else if i == start + 1 && o[j].x < x1 then Step(x1, o[j].y)
      else o[i + j - start - 1])
  }

  /** The chain after a block of width w with its top at `top` is put at x, over step k. */
  ghost function Place(o: seq<Step>, k: nat, x: int, w: nat, top: int): (o': seq<Step>)
    requires k + 1 < |o|
  {
    var start := FirstCovered(o, k, x);
    Sewn(o, start, SkipCovered(o, start, x + w), Step(x, top), x + w)
  }

  lemma PlaceIsSewn(o: seq<Step>, k: nat, x: int, w: nat, top: int, o': seq<Step>)
    requires k + 1 < |o| && o' == Place(o, k, x, w, top)
    ensures var start := FirstCovered(o, k, x);
            o' == Sewn(o, start, SkipCovered(o, start, x + w), Step(x, top), x + w)
  {
  }

  /** The width over which the skyline really rises. */
  function RaisedWidth(o: seq<Step>, k: nat, x: int, w: nat): int
    requires k + 1 < |o|
  {
    if KeepsLeft(o, k, x) && o[k + 1].x > x + w then o[k + 1].x - x else w
  }

  /** Where a block can be put: over step k, on the target. */
  ghost predicate Placeable(o: seq<Step>, width: nat, height: nat, k: nat, x: int, w: nat, top: int) {
    && WellFormed(o, width, height) && k + 1 < |o|
    && o[k].x <= x < o[k + 1].x && 0 < w && x + w <= width && 0 <= top <= height
  }

  lemma {:induction false} SkipCoveredStops(o: seq<Step>, j: nat, r: int)
    requires j < |o| && Increasing(o)
    ensures var k := SkipCovered(o, j, r);
            && (forall i :: j < i <= k ==> o[i].x <= r)
            && (forall i :: k < i < |o| ==> r < o[i].x)
    decreases |o| - j
  {
    if j + 1 < |o| && o[j + 1].x <= r {
      SkipCoveredStops(o, j + 1, r);
    } else {
      forall i | j < i < |o|
        ensures r < o[i].x
      {
        EdgeOrder(o, j + 1, i);
      }
    }
  }

  lemma PlaceShape(o: seq<Step>, width: nat, height: nat, k: nat, x: int, w: nat, top: int)
    requires Placeable(o, width, height, k, x, w, top)
    ensures var start := FirstCovered(o, k, x);
            var j := SkipCovered(o, start, x + w);
            var o' := Place(o, k, x, w, top);
            && start <= j < |o| && start < |o'|
            && |o'| == |o| + start + 1 - j
            && (forall i :: 0 <= i < start ==> o'[i] == o[i] && o[i].x < x)
            && o'[start] == Step(x, top)
            && o'[start + 1].y == o[j].y && o'[start + 1].x == (if o[j].x < x + w then x + w else o[j].x)
            && (forall i :: start + 1 < i < |o'| ==> o'[i] == o[i + j - start - 1] && x + w < o'[i].x)
  {
    SkipCoveredStops(o, FirstCovered(o, k, x), x + w);
    forall i | 0 <= i < FirstCovered(o, k, x)
      ensures o[i].x < x
    {
      EdgeOrder(o, i, k);
    }
  }

  ghost predicate Ascends(o: seq<Step>, i: int) {
    Before(o, i, i + 1)
  }

  lemma {:induction false} IncreasingFrom(o: seq<Step>, i: nat, j: nat)
    requires forall k :: 0 <= k < |o| - 1 ==> Ascends(o, k)
    requires i < j < |o|
    ensures Before(o, i, j)
    decreases j
  {
    if i + 1 < j {
      IncreasingFrom(o, i, j - 1);
    }
    assert Ascends(o, j - 1);
  }

  lemma PlaceIncreasing(o: seq<Step>, width: nat, height: nat, k: nat, x: int, w: nat, top: int)
    requires Placeable(o, width, height, k, x, w, top)
    ensures Increasing(Place(o, k, x, w, top))
  {
    var o' := Place(o, k, x, w, top);
    var start := FirstCovered(o, k, x);
    var j := SkipCovered(o, start, x + w);
    PlaceShape(o, width, height, k, x, w, top);
    forall i | 0 <= i < |o'| - 1
      ensures Ascends(o', i)
    {
      if i + 1 < start {
        EdgeOrder(o, i, i + 1);
      } else if i > start + 1 {
        EdgeOrder(o, i + j - start - 1, i + j - start);
      } else if i == start + 1 {
        EdgeOrder(o, j, j + 1);
      }
    }
    forall i, j | 0 <= i < j < |o'|
      ensures Before(o', i, j)
    {
      IncreasingFrom(o', i, j);
    }
  }

  /** The surgery keeps the chain well formed. */
  lemma PlaceWellFormed(o: seq<Step>, width: nat, height: nat, k: nat, x: int, w: nat, top: int)
    requires Placeable(o, width, height, k, x, w, top)
    ensures WellFormed(Place(o, k, x, w, top), width, height)
  {
    PlaceShape(o, width, height, k, x, w, top);
    PlaceIncreasing(o, width, height, k, x, w, top);
  }

  /** A step that already ends beyond r swallows nothing. */
  lemma SkipStays(o: seq<Step>, j: nat, r: int)
    requires j < |o| && Increasing(o)
    ensures r < o[j].x ==> SkipCovered(o, j, r) == j
  {
    if j + 1 < |o| {
      EdgeOrder(o, j, j + 1);
    }
  }

  /** Where the surgery's new steps meet the columns. */
  lemma PlaceJoints(o: seq<Step>, width: nat, height: nat, k: nat, x: int, w: nat, top: int)
    requires Placeable(o, width, height, k, x, w, top)
    ensures var o' := Place(o, k, x, w, top);
            var start := FirstCovered(o, k, x);
            && start + 1 < |o'| && 0 <= x && w <= RaisedWidth(o, k, x, w)
            && o'[0].x == 0 && o'[|o'| - 1] == o[|o| - 1]
            && o'[start].x == x && o'[start + 1].x == x + RaisedWidth(o, k, x, w) <= width
  {
    var start := FirstCovered(o, k, x);
    PlaceShape(o, width, height, k, x, w, top);
    PlaceWellFormed(o, width, height, k, x, w, top);
    SkipCoveredStops(o, start, x + w);
    EdgesInside(o, width, k);
    SkipStays(o, start, x + w);
    EdgesInside(Place(o, k, x, w, top), width, start + 1);
  }

  /** The steps left of the block stay, the last of them cut at x. */
  lemma PlaceLeftPart(o: seq<Step>, width: nat, height: nat, k: nat, x: int, w: nat, top: int, i: nat)
    requires Placeable(o, width, height, k, x, w, top) && i < FirstCovered(o, k, x)
    ensures var o' := Place(o, k, x, w, top);
            && i + 1 < |o'| && i + 1 < |o| && o'[i] == o[i]
            && o[i].x < o'[i + 1].x <= o[i + 1].x && o'[i + 1].x <= x
  {
    PlaceShape(o, width, height, k, x, w, top);
    PlaceIncreasing(o, width, height, k, x, w, top);
    EdgeOrder(o, i, i + 1);
    if i + 1 < FirstCovered(o, k, x) {
      EdgeOrder(o, i + 1, k);
    } else {
      assert Place(o, k, x, w, top)[i + 1] == Step(x, top);
    }
  }

  /** The step of o that a step right of the block comes from. */
  lemma PlaceRightPart(o: seq<Step>, width: nat, height: nat, k: nat, x: int, w: nat, top: int, i: nat)
    requires Placeable(o, width, height, k, x, w, top)
    requires FirstCovered(o, k, x) < i && i + 1 < |Place(o, k, x, w, top)|
    ensures var o' := Place(o, k, x, w, top);
            var from := i + SkipCovered(o, FirstCovered(o, k, x), x + w) - FirstCovered(o, k, x) - 1;
            && 0 <= from && from + 1 < |o| && o'[i].y == o[from].y
            && o[from].x <= o'[i].x < o'[i + 1].x == o[from + 1].x
            && x + RaisedWidth(o, k, x, w) <= o'[i].x
  {
    var o' := Place(o, k, x, w, top);
    PlaceShape(o, width, height, k, x, w, top);
    PlaceIncreasing(o, width, height, k, x, w, top);
    PlaceJoints(o, width, height, k, x, w, top);
    EdgeOrder(o', FirstCovered(o, k, x) + 1, i);
    EdgeOrder(o', i, i + 1);
  }

  /** The surgery raises exactly the columns x .. x+RaisedWidth-1, to `top`. */
  lemma PlaceRaises(o: seq<Step>, width: nat, height: nat, k: nat, x: int, w: nat, top: int, cols: seq<int>)
    requires Placeable(o, width, height, k, x, w, top) && Carries(o, cols)
    ensures 0 <= x && w <= RaisedWidth(o, k, x, w) && x + RaisedWidth(o, k, x, w) <= |cols|
    ensures Carries(Place(o, k, x, w, top), Raise(cols, x, RaisedWidth(o, k, x, w), top))
  {
    var o', start, rw := Place(o, k, x, w, top), FirstCovered(o, k, x), RaisedWidth(o, k, x, w);
    PlaceJoints(o, width, height, k, x, w, top);
    var cols' := Raise(cols, x, rw, top);
    forall i | 0 <= i < |o'| - 1
      ensures Flat(cols', o'[i].x, o'[i + 1].x, o'[i].y)
    {
      if i < start {
        PlaceLeftPart(o, width, height, k, x, w, top, i);
        FlatBeside(cols, x, rw, top, o[i].x, o[i + 1].x, o[i].y, o'[i].x, o'[i + 1].x);
      } else if i > start {
        PlaceRightPart(o, width, height, k, x, w, top, i);
        var from := i + SkipCovered(o, start, x + w) - start - 1;
        FlatBeside(cols, x, rw, top, o[from].x, o[from + 1].x, o[from].y, o'[i].x, o'[i + 1].x);
      } else {
        PlaceShape(o, width, height, k, x, w, top);
      }
    }
  }

  /** The skyline rises on exactly the block's own columns if and only if the
      block's right end is not strictly inside the step its left side is. */
  lemma PlaceExactIff(o: seq<Step>, width: nat, height: nat, k: nat, x: int, w: nat, top: int, cols: seq<int>)
    requires Placeable(o, width, height, k, x, w, top) && Carries(o, cols) && o[k].y < top
    ensures 0 <= x
    ensures Carries(Place(o, k, x, w, top), Raise(cols, x, w, top)) <==> !(o[k].x < x && x + w < o[k + 1].x)
  {
    PlaceRaises(o, width, height, k, x, w, top, cols);
    if o[k].x < x && x + w < o[k + 1].x {
      var o' := Place(o, k, x, w, top);
      PlaceShape(o, width, height, k, x, w, top);
      assert Flat(cols, o[k].x, o[k + 1].x, o[k].y);
      assert Raise(cols, x, w, top)[x + w] == o[k].y;
      assert o'[k + 1] == Step(x, top) && o'[k + 2] == o[k + 1];
    }
  }

  /** A chain of distinct whole-numbered edges on a target has at most one step
      per column, and the sentinel. */
  lemma {:induction false} EdgeAtLeastIndex(o: seq<Step>, width: nat, i: nat)
    requires Spans(o, width) && i < |o|
    ensures i <= o[i].x
  {
    if i > 0 {
      EdgeOrder(o, i - 1, i);
      EdgeAtLeastIndex(o, width, i - 1);
    }
  }

  lemma AtMostOneStepPerColumn(o: seq<Step>, width: nat)
    requires Spans(o, width)
    ensures |o| <= width + 1
  {
    EdgeAtLeastIndex(o, width, |o| - 1);
  }
}
