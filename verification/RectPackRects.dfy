/** The array of rectangles, as the packer's callers pass it. */
module Rects {
  import opened Packer
  import opened PackerRuns
  import Sorting
  import opened Permutations

  const MAXVAL := 0x7fff_ffff

  datatype Rect = Rect(id: int, w: nat, h: nat, x: int, y: int, wasPacked: int)

  type Comparison = (Rect, Rect) -> int

  /** cmp orders rectangles, ties allowed. */
  ghost predicate Orders(cmp: Comparison) {
    && (forall p, q :: cmp(p, q) <= 0 || cmp(q, p) <= 0)
    && (forall p, q, r :: cmp(p, q) <= 0 && cmp(q, r) <= 0 ==> cmp(p, r) <= 0)
  }

  ghost predicate SortedBy(s: seq<Rect>, cmp: Comparison) {
    forall i, j :: 0 <= i < j < |s| ==> cmp(s[i], s[j]) <= 0
  }

  /** Taller first, then wider first. */
  function HeightCompare(p: Rect, q: Rect): int {
    if p.h > q.h then -1
    else if p.h < q.h then 1
    else if p.w > q.w then -1
    else if p.w < q.w then 1
    else 0
  }

  /** The taller before the lower, and of the same height the wider before the narrower. */
  ghost predicate TallestFirst(s: seq<Rect>) {
    forall i, j :: 0 <= i < j < |s| ==> s[i].h > s[j].h || (s[i].h == s[j].h && s[i].w >= s[j].w)
  }

  lemma SortedIsTallestFirst(s: seq<Rect>)
    requires SortedBy(s, HeightCompare)
    ensures TallestFirst(s)
  {
    forall i, j | 0 <= i < j < |s|
      ensures s[i].h > s[j].h || (s[i].h == s[j].h && s[i].w >= s[j].w)
    {
      assert HeightCompare(s[i], s[j]) <= 0;
    }
  }

  function OriginalOrder(p: Rect, q: Rect): int {
    if p.wasPacked < q.wasPacked then -1
    else if p.wasPacked > q.wasPacked then 1
    else 0
  }

  /** The C library's sort: some permutation in order; nothing else is relied on. */
  method Qsort(rects: array<Rect>, cmp: Comparison)
    requires Orders(cmp)
    modifies rects
    ensures multiset(rects[..]) == old(multiset(rects[..])) && SortedBy(rects[..], cmp)
  {
    var s := Sorting.Sort(rects[..], (p, q) => cmp(p, q) <= 0);
    SortIsInOrder(rects[..], cmp, (p, q) => cmp(p, q) <= 0);
    assert |s| == |multiset(s)| == |multiset(rects[..])| == rects.Length;
    forall i | 0 <= i < rects.Length {
      rects[i] := s[i];
    }
    assert rects[..] == s;
  }

  lemma SortIsInOrder(s: seq<Rect>, cmp: Comparison, leq: (Rect, Rect) -> bool)
    requires Orders(cmp) && forall p, q :: leq(p, q) <==> cmp(p, q) <= 0
    ensures multiset(Sorting.Sort(s, leq)) == multiset(s) && SortedBy(Sorting.Sort(s, leq), cmp)
  {
    assert forall p, q :: leq(p, q) || leq(q, p);
    assert forall p, q, r :: leq(p, q) && leq(q, r) ==> leq(p, r);
    Sorting.SortAdds(s, leq);
    Sorting.SortAscends(s, leq);
  }

  /** Whether a rectangle was placed or needed no place. */
  predicate Settled(r: Rect) {
    !(r.x == MAXVAL && r.y == MAXVAL)
  }

  predicate Empty(r: Rect) {
    r.w == 0 || r.h == 0
  }

  /** The request a non-empty rectangle stands for, with its outcome. */
  function EventOf(r: Rect): Event {
    Event(r.w, r.h, if Settled(r) then At(r.x, r.y) else Refused)
  }

  /** The requests the rectangles stand for, in order. */
  ghost function Events(s: seq<Rect>): (es: seq<Event>) {
    if s == [] then []
    else Events(s[..|s| - 1]) + if Empty(s[|s| - 1]) then [] else [EventOf(s[|s| - 1])]
  }

  lemma EventsSnoc(s: seq<Rect>, r: Rect)
    ensures Events(s + [r]) == Events(s) + if Empty(r) then [] else [EventOf(r)]
  {
    assert (s + [r])[..|s|] == s;
  }

  /** The same rectangle, apart from where it was put. */
  predicate SameInput(r: Rect, q: Rect) {
    r.id == q.id && r.w == q.w && r.h == q.h && r.wasPacked == q.wasPacked
  }

  /** An empty rectangle lies at the origin. */
  ghost predicate Laid(r: Rect) {
    Empty(r) ==> r.x == 0 && r.y == 0
  }

  function Flagged(r: Rect): Rect {
    r.(wasPacked := if Settled(r) then 1 else 0)
  }

  ghost predicate UniqueKeys(s: seq<Rect>) {
    forall i, j :: 0 <= i < j < |s| ==> s[i].wasPacked != s[j].wasPacked
  }

  lemma UniqueInPermutation(a: seq<Rect>, b: seq<Rect>)
    requires multiset(a) == multiset(b) && UniqueKeys(b)
    ensures |a| == |b| && UniqueKeys(a)
  {
    SameLength(a, b);
    forall i, j | 0 <= i < j < |a|
      ensures a[i].wasPacked != a[j].wasPacked
    {
      var p, q := PairIn(a, b, i, j);
    }
  }

  lemma {:induction false} KeyAtLeast(s: seq<Rect>, i: nat)
    requires i < |s| && UniqueKeys(s) && SortedBy(s, OriginalOrder)
    requires forall i :: 0 <= i < |s| ==> 0 <= s[i].wasPacked
    ensures i <= s[i].wasPacked
  {
    if i > 0 {
      KeyAtLeast(s, i - 1);
      assert OriginalOrder(s[i - 1], s[i]) <= 0;
    }
  }

  lemma {:induction false} KeyAtMost(s: seq<Rect>, i: nat)
    requires i < |s| && UniqueKeys(s) && SortedBy(s, OriginalOrder)
    requires forall i :: 0 <= i < |s| ==> s[i].wasPacked < |s|
    ensures s[i].wasPacked <= i
    decreases |s| - i
  {
    if i + 1 < |s| {
      KeyAtMost(s, i + 1);
      assert OriginalOrder(s[i], s[i + 1]) <= 0;
    }
  }

  /** Sorting back: inputs that were noted with their places 0 .. n-1, permuted
      and sorted by these notes, are in their places again. */
  lemma BackInPlace(noted: seq<Rect>, sorted: seq<Rect>, laid: seq<Rect>, back: seq<Rect>)
    requires forall i :: 0 <= i < |noted| ==> noted[i].wasPacked == i
    requires multiset(sorted) == multiset(noted)
    requires |laid| == |sorted| && forall i :: 0 <= i < |laid| ==> SameInput(laid[i], sorted[i])
    requires multiset(back) == multiset(laid) && SortedBy(back, OriginalOrder)
    ensures |back| == |noted| && forall i :: 0 <= i < |back| ==> SameInput(back[i], noted[i])
  {
    UniqueInPermutation(sorted, noted);
    UniqueInPermutation(back, laid);
    forall i | 0 <= i < |back|
      ensures 0 <= back[i].wasPacked < |noted| && SameInput(back[i], noted[back[i].wasPacked])
    {
      var k := IndexIn(back, laid, i);
      var m := IndexIn(sorted, noted, k);
    }
    forall i | 0 <= i < |back|
      ensures back[i].wasPacked == i
    {
      KeyAtLeast(back, i);
      KeyAtMost(back, i);
    }
  }

  ghost function AllFlagged(s: seq<Rect>): (f: seq<Rect>)
    ensures |f| == |s| && forall i :: 0 <= i < |s| ==> f[i] == Flagged(s[i])
  {
    seq(|s|, i requires 0 <= i < |s| => Flagged(s[i]))
  }

  /** Flagging respects permutations. */
  lemma {:induction false} FlaggedPermutation(a: seq<Rect>, b: seq<Rect>)
    requires multiset(a) == multiset(b)
    ensures multiset(AllFlagged(a)) == multiset(AllFlagged(b))
    decreases |a|
  {
    assert |a| == |multiset(a)| == |multiset(b)| == |b|;
    if a == [] {
      assert AllFlagged(a) == AllFlagged(b);
    } else {
      var k := IndexIn(a, b, 0);
      FirstOut(a, b, k);
      FlaggedPermutation(a[1..], b[..k] + b[k + 1..]);
      assert AllFlagged(a) == [Flagged(a[0])] + AllFlagged(a[1..]);
      FlaggedWithout(b, k);
    }
  }

  lemma Without(b: seq<Rect>, k: nat)
    requires k < |b|
    ensures multiset(b) == multiset(b[..k] + b[k + 1..]) + multiset{b[k]}
  {
    assert b == b[..k] + [b[k]] + b[k + 1..];
  }

  /** Permutations stay permutations when the same element is taken out of both. */
  lemma FirstOut(a: seq<Rect>, b: seq<Rect>, k: nat)
    requires multiset(a) == multiset(b) && 0 < |a| && k < |b| && a[0] == b[k]
    ensures multiset(a[1..]) == multiset(b[..k] + b[k + 1..])
  {
    var rest, others := multiset(a[1..]), multiset(b[..k] + b[k + 1..]);
    Without(b, k);
    assert a == [a[0]] + a[1..];
    SameRest(rest, others, a[0]);
  }

  lemma SameRest(p: multiset<Rect>, q: multiset<Rect>, r: Rect)
    requires p + multiset{r} == q + multiset{r}
    ensures p == q
  {
    assert p == (p + multiset{r}) - multiset{r};
    assert q == (q + multiset{r}) - multiset{r};
  }

  lemma FlaggedWithout(b: seq<Rect>, k: nat)
    requires k < |b|
    ensures multiset(AllFlagged(b)) == multiset(AllFlagged(b[..k] + b[k + 1..])) + multiset{Flagged(b[k])}
  {
    var f, c := AllFlagged(b), b[..k] + b[k + 1..];
    assert f == f[..k] + [f[k]] + f[k + 1..];
    assert AllFlagged(c) == f[..k] + f[k + 1..];
  }

  /** The flags do not matter to the requests. */
  lemma {:induction false} EventsFlagged(s: seq<Rect>)
    ensures Events(AllFlagged(s)) == Events(s)
  {
    if s != [] {
      EventsFlagged(s[..|s| - 1]);
      assert AllFlagged(s)[..|s| - 1] == AllFlagged(s[..|s| - 1]);
    }
  }

  /** A rectangle that takes up room on the target. */
  predicate TakesRoom(r: Rect) {
    !Empty(r) && Settled(r)
  }

  function BoxAt(r: Rect): Box {
    Box(r.x, r.y, r.w, r.h)
  }

  lemma {:induction false} BoxAmongEvents(s: seq<Rect>, i: nat)
    requires i < |s| && TakesRoom(s[i])
    ensures BoxAt(s[i]) in Boxes(Events(s))
    decreases |s|
  {
    var init, last := s[..|s| - 1], s[|s| - 1];
    EventsSnoc(init, last);
    assert s == init + [last];
    if !Empty(last) {
      BoxesSnoc(Events(init) + [EventOf(last)]);
      assert (Events(init) + [EventOf(last)])[..|Events(init)|] == Events(init);
    } else {
      assert Events(init) + [] == Events(init);
    }
    if i < |s| - 1 {
      BoxAmongEvents(init, i);
    }
  }

  /** Requests of rectangles made in a run put them apart, on the target, and
      where nothing was before. */
  lemma {:induction false} RunPutsApart(placed0: set<Box>, t0: Target, s: seq<Rect>, t: Target)
    requires Ready(t0) && Packed(placed0, t0) && Run(t0, Events(s), t)
    ensures Ready(t) && t == t0.(outline := t.outline) && Packed(placed0 + Boxes(Events(s)), t)
    ensures forall i :: 0 <= i < |s| && TakesRoom(s[i]) ==> BoxAt(s[i]) !in placed0
    ensures forall i, j :: 0 <= i < j < |s| && TakesRoom(s[i]) && TakesRoom(s[j]) ==> BoxAt(s[i]) != BoxAt(s[j])
    decreases |s|, 0
  {
    if s == [] {
      assert placed0 + Boxes(Events(s)) == placed0;
    } else {
      var init, r := s[..|s| - 1], s[|s| - 1];
      assert s == init + [r];
      EventsSnoc(init, r);
      if Empty(r) {
        assert Events(init) + [] == Events(init);
        RunPutsApart(placed0, t0, init, t);
      } else {
        LastPutsApart(placed0, t0, init, r, t);
      }
      forall i, j | 0 <= i < j < |s| && TakesRoom(s[i]) && TakesRoom(s[j])
        ensures BoxAt(s[i]) != BoxAt(s[j])
      {
        assert s[i] == init[i];
        BoxAmongEvents(init, i);
        if j < |s| - 1 {
          assert s[j] == init[j];
        }
      }
    }
  }

  lemma {:induction false} LastPutsApart(placed0: set<Box>, t0: Target, init: seq<Rect>, r: Rect, t: Target)
    requires Ready(t0) && Packed(placed0, t0) && !Empty(r) && Run(t0, Events(init) + [EventOf(r)], t)
    ensures Ready(t) && t == t0.(outline := t.outline) && Packed(placed0 + Boxes(Events(init) + [EventOf(r)]), t)
    ensures forall i :: 0 <= i < |init| && TakesRoom(init[i]) ==> BoxAt(init[i]) !in placed0
    ensures forall i, j :: 0 <= i < j < |init| && TakesRoom(init[i]) && TakesRoom(init[j]) ==>
            BoxAt(init[i]) != BoxAt(init[j])
    ensures Settled(r) ==> BoxAt(r) !in placed0 + Boxes(Events(init))
    decreases |init|, 1
  {
    var mid := LastRequest(t0, Events(init), EventOf(r), t);
    RunPutsApart(placed0, t0, init, mid);
    RequestAdds(placed0, Events(init), r, mid, t);
  }

  lemma LastRequest(t0: Target, es: seq<Event>, e: Event, t: Target) returns (mid: Target)
    requires Ready(t0) && Run(t0, es + [e], t)
    ensures Run(t0, es, mid) && Ready(mid) && Request(mid, e.w, e.h, e.r, t) && 0 < e.w && 0 < e.h
  {
    assert (es + [e])[..|es|] == es;
    mid :| Run(t0, es, mid) && Ready(mid) && Request(mid, e.w, e.h, e.r, t);
  }

  lemma RequestAdds(placed0: set<Box>, es: seq<Event>, r: Rect, mid: Target, t: Target)
    requires Ready(mid) && Packed(placed0 + Boxes(es), mid) && !Empty(r)
    requires Request(mid, r.w, r.h, EventOf(r).r, t)
    ensures Ready(t) && t == mid.(outline := t.outline) && Packed(placed0 + Boxes(es + [EventOf(r)]), t)
    ensures Settled(r) ==> BoxAt(r) !in placed0 + Boxes(es)
  {
    StepKeepsPacked(placed0 + Boxes(es), mid, r.w, r.h, EventOf(r).r, t);
    BoxesSnoc(es + [EventOf(r)]);
    assert (es + [EventOf(r)])[..|es|] == es;
    assert placed0 + Boxes(es + [EventOf(r)]) == placed0 + Boxes(es) + if Settled(r) then {BoxAt(r)} else {};
  }

  /** Distinct boxes stay distinct in any permutation. */
  lemma DistinctInPermutation(a: seq<Rect>, b: seq<Rect>, i: nat, j: nat)
    requires multiset(a) == multiset(b) && i < j < |a| && TakesRoom(a[i]) && TakesRoom(a[j])
    requires forall p, q :: 0 <= p < q < |b| && TakesRoom(b[p]) && TakesRoom(b[q]) ==> BoxAt(b[p]) != BoxAt(b[q])
    ensures BoxAt(a[i]) != BoxAt(a[j])
  {
    var p, q := PairIn(a, b, i, j);
  }
}
