/** The skyline of the rectangle packer, seen as values.

    `Columns` is the reference view: one height per unit column of the target.
    `Outline` is the view the packer stores: the x and y of the nodes of the
    active chain, in chain order, the sentinel at the target's right edge last. */
module Columns {

  /** The greatest height among the columns lo, lo+1, .., hi-1. */
  ghost function Highest(cols: seq<int>, lo: nat, hi: nat): (m: int)
    requires lo < hi <= |cols|
    ensures forall c :: lo <= c < hi ==> cols[c] <= m
    ensures exists c :: lo <= c < hi && cols[c] == m
    decreases hi - lo
  {
    if lo + 1 == hi then cols[lo]
    else
      var rest := Highest(cols, lo + 1, hi);
      if cols[lo] > rest then cols[lo] else rest
  }

  /** The area between the columns lo .. hi-1 and a line at `level`. */
  ghost function Gap(cols: seq<int>, lo: nat, hi: nat, level: int): int
    requires lo <= hi <= |cols|
    decreases hi - lo
  {
    if lo == hi then 0 else level - cols[hi - 1] + Gap(cols, lo, hi - 1, level)
  }

  /** The columns lo .. hi-1 all have height y. */
  ghost predicate Flat(cols: seq<int>, lo: int, hi: int, y: int) {
    0 <= lo <= hi <= |cols| && forall c :: lo <= c < hi ==> cols[c] == y
  }

  /** The height at which a block of width w comes to rest with its left edge at x. */
  ghost function Rest(cols: seq<int>, x: nat, w: nat): int
    requires 0 < w && x + w <= |cols|
  {
    Highest(cols, x, x + w)
  }

  /** x is the leftmost of the lowest resting places of a block of width w. */
  ghost predicate BottomLeft(cols: seq<int>, w: nat, x: nat)
    requires 0 < w
  {
    && x + w <= |cols|
    && forall x': nat :: x' + w <= |cols| ==>
         Rest(cols, x, w) < Rest(cols, x', w) || (Rest(cols, x, w) == Rest(cols, x', w) && x <= x')
  }

  /** The columns after those from x to x+w-1 have been raised to `top`. */
  ghost function Raise(cols: seq<int>, x: nat, w: nat, top: int): (r: seq<int>)
    requires x + w <= |cols|
  {
    seq(|cols|, c requires 0 <= c < |cols| => if x <= c < x + w then top else cols[c])
  }

  lemma HighestBounds(cols: seq<int>, lo: nat, hi: nat, m: int)
    requires lo < hi <= |cols|
    requires forall c :: lo <= c < hi ==> cols[c] <= m
    requires exists c :: lo <= c < hi && cols[c] == m
    ensures Highest(cols, lo, hi) == m
  {
  }

  lemma {:induction false} GapSplits(cols: seq<int>, lo: nat, mid: nat, hi: nat, level: int)
    requires lo <= mid <= hi <= |cols|
    ensures Gap(cols, lo, hi, level) == Gap(cols, lo, mid, level) + Gap(cols, mid, hi, level)
    decreases hi
  {
    if mid < hi {
      GapSplits(cols, lo, mid, hi - 1, level);
    }
  }

  lemma {:induction false} GapFlat(cols: seq<int>, lo: nat, hi: nat, y: int, level: int)
    requires Flat(cols, lo, hi, y)
    ensures Gap(cols, lo, hi, level) == (hi - lo) * (level - y)
    decreases hi
  {
    if lo < hi {
      GapFlat(cols, lo, hi - 1, y, level);
    }
  }

  /** Raising the line by d adds d for every column. */
  lemma {:induction false} GapRaised(cols: seq<int>, lo: nat, hi: nat, level: int, level': int)
    requires lo <= hi <= |cols|
    ensures Gap(cols, lo, hi, level') == Gap(cols, lo, hi, level) + (hi - lo) * (level' - level)
    decreases hi
  {
    if lo < hi {
      GapRaised(cols, lo, hi - 1, level, level');
    }
  }

  /** Going on over the flat columns mid .. hi-1, the line moving up to level'. */
  lemma GapAdvance(cols: seq<int>, lo: nat, mid: nat, hi: nat, y: int, level: int, level': int)
    requires lo <= mid && Flat(cols, mid, hi, y)
    ensures Gap(cols, lo, hi, level')
         == Gap(cols, lo, mid, level) + (mid - lo) * (level' - level) + (hi - mid) * (level' - y)
  {
    GapSplits(cols, lo, mid, hi, level');
    GapFlat(cols, mid, hi, y, level');
    GapRaised(cols, lo, mid, level, level');
  }

  lemma HighestExtended(cols: seq<int>, lo: nat, mid: nat, hi: nat, y: int)
    requires lo <= mid < hi && Flat(cols, mid, hi, y)
    ensures lo == mid ==> Highest(cols, lo, hi) == y
    ensures lo < mid && y <= Highest(cols, lo, mid) ==> Highest(cols, lo, hi) == Highest(cols, lo, mid)
    ensures lo < mid && y > Highest(cols, lo, mid) ==> Highest(cols, lo, hi) == y
  {
    assert cols[mid] == y;
    if lo == mid {
      HighestBounds(cols, lo, hi, y);
    } else {
      HighestBounds(cols, lo, hi, if y <= Highest(cols, lo, mid) then Highest(cols, lo, mid) else y);
    }
  }

  /** A flat part that the raised columns do not touch stays as it is. */
  lemma FlatBeside(cols: seq<int>, x: nat, w: nat, top: int, a: int, b: int, y: int, a': int, b': int)
    requires x + w <= |cols| && Flat(cols, a, b, y) && a <= a' <= b' <= b
    requires b' <= x || x + w <= a'
    ensures Flat(Raise(cols, x, w, top), a', b', y)
  {
  }

  /** The bottom-left place is unique. */
  lemma BottomLeftUnique(cols: seq<int>, w: nat, x: nat, x': nat)
    requires 0 < w && BottomLeft(cols, w, x) && BottomLeft(cols, w, x')
    ensures x == x'
  {
    assert Rest(cols, x, w) <= Rest(cols, x', w) <= Rest(cols, x, w);
  }
}

module Outline {
  import opened Columns

  const SENTINEL_Y := 0x4000_0000

  datatype Step = Step(x: int, y: int)

  ghost predicate Before(o: seq<Step>, i: int, j: int) {
    0 <= i < |o| && 0 <= j < |o| && o[i].x < o[j].x
  }

  ghost predicate Increasing(o: seq<Step>) {
    forall i, j :: 0 <= i < j < |o| ==> Before(o, i, j)
  }

  ghost predicate WellFormed(o: seq<Step>, width: nat, height: nat) {
    && |o| >= 2
    && o[0].x == 0
    && o[|o| - 1] == Step(width, SENTINEL_Y)
    && Increasing(o)
    && forall i :: 0 <= i < |o| - 1 ==> 0 <= o[i].y <= height
  }

  /** The outline is a chain of at least two steps from 0 to `width`. */
  ghost predicate Spans(o: seq<Step>, width: nat) {
    |o| >= 2 && o[0].x == 0 && o[|o| - 1].x == width && Increasing(o)
  }

  /** The index of the step that carries column c, searching from step k on. */
  ghost function IndexFrom(o: seq<Step>, c: int, k: nat): (i: nat)
    requires Increasing(o) && k + 1 < |o| && o[k].x <= c < o[|o| - 1].x
    ensures k <= i < |o| - 1 && o[i].x <= c < o[i + 1].x
    decreases |o| - k
  {
    if c < o[k + 1].x then k else IndexFrom(o, c, k + 1)
  }

  ghost function IndexAt(o: seq<Step>, width: nat, c: nat): (i: nat)
    requires Spans(o, width) && c < width
    ensures i < |o| - 1 && o[i].x <= c < o[i + 1].x
  {
    IndexFrom(o, c, 0)
  }

  ghost function ToColumns(o: seq<Step>, width: nat): (cols: seq<int>)
    requires Spans(o, width)
  {
    seq(width, c requires 0 <= c < width => o[IndexAt(o, width, c)].y)
  }

  /** `cols` has, under each step of o, that step's height, and nothing else. */
  ghost predicate Carries(o: seq<Step>, cols: seq<int>) {
    && |o| >= 2 && o[0].x == 0 && |cols| == o[|o| - 1].x
    && forall i :: 0 <= i < |o| - 1 ==> Flat(cols, o[i].x, o[i + 1].x, o[i].y)
  }

  lemma EdgeOrder(o: seq<Step>, i: nat, j: nat)
    requires Increasing(o) && i <= j < |o|
    ensures o[i].x <= o[j].x && (i < j ==> o[i].x < o[j].x)
  {
    assert i < j ==> Before(o, i, j);
  }

  lemma EdgesInside(o: seq<Step>, width: nat, k: nat)
    requires Spans(o, width) && k < |o|
    ensures 0 <= o[k].x <= width
    ensures k + 1 < |o| ==> o[k].x < o[k + 1].x <= width
  {
    EdgeOrder(o, 0, k);
    EdgeOrder(o, k, |o| - 1);
    if k + 1 < |o| {
      EdgeOrder(o, k, k + 1);
      EdgeOrder(o, k + 1, |o| - 1);
    }
  }

  lemma OneStepPerColumn(o: seq<Step>, c: int, i: nat, k: nat)
    requires Increasing(o) && i + 1 < |o| && k + 1 < |o|
    requires o[i].x <= c < o[i + 1].x && o[k].x <= c < o[k + 1].x
    ensures i == k
  {
    assert i + 1 < k ==> Before(o, i + 1, k);
    assert k + 1 < i ==> Before(o, k + 1, i);
  }

  lemma ColumnsCarried(o: seq<Step>, width: nat)
    requires Spans(o, width)
    ensures Carries(o, ToColumns(o, width))
  {
    var cols := ToColumns(o, width);
    forall i | 0 <= i < |o| - 1
      ensures Flat(cols, o[i].x, o[i + 1].x, o[i].y)
    {
      EdgesInside(o, width, i);
      forall c | o[i].x <= c < o[i + 1].x
        ensures cols[c] == o[i].y
      {
        OneStepPerColumn(o, c, i, IndexAt(o, width, c));
      }
    }
  }

  /** Only one profile of columns fits an outline. */
  lemma ColumnsUnique(o: seq<Step>, width: nat, cols: seq<int>)
    requires Spans(o, width) && Carries(o, cols)
    ensures cols == ToColumns(o, width)
  {
    forall c | 0 <= c < width
      ensures cols[c] == ToColumns(o, width)[c]
    {
      var i := IndexAt(o, width, c);
      assert Flat(cols, o[i].x, o[i + 1].x, o[i].y);
    }
  }
}
