/** Packing an array of rectangles: sort, pack one by one, sort back. */
module PackRects {
  import opened Permutations
  import opened Packer
  import opened Searched
  import opened PackerRuns
  import opened Rects
  import opened NodeChain
  import opened RectPack

  lemma HeightOrders()
    ensures Orders(HeightCompare)
  {
  }

  lemma OriginalOrders()
    ensures Orders(OriginalOrder)
  {
  }

  /** Note each rectangle's place in the array. */
  method NoteOrder(rects: array<Rect>)
    modifies rects
    ensures forall i :: 0 <= i < rects.Length ==> rects[i] == old(rects[i]).(wasPacked := i)
  {
    for i := 0 to rects.Length
      invariant forall k :: 0 <= k < i ==> rects[k] == old(rects[k]).(wasPacked := k)
      invariant forall k :: i <= k < rects.Length ==> rects[k] == old(rects[k])
    {
      rects[i] := rects[i].(wasPacked := i);
    }
  }

  /** Set the flags from the places; 1 if all rectangles were packed, else 0. */
  method SetFlags(rects: array<Rect>) returns (allPacked: int)
    modifies rects
    ensures forall i :: 0 <= i < rects.Length ==> rects[i] == Flagged(old(rects[i]))
    ensures allPacked == if (forall i :: 0 <= i < rects.Length ==> Settled(old(rects[i]))) then 1 else 0
  {
    allPacked := 1;
    for i := 0 to rects.Length
      invariant forall k :: 0 <= k < i ==> rects[k] == Flagged(old(rects[k]))
      invariant forall k :: i <= k < rects.Length ==> rects[k] == old(rects[k])
      invariant allPacked == if (forall k :: 0 <= k < i ==> Settled(old(rects[k]))) then 1 else 0
    {
      rects[i] := rects[i].(wasPacked := if !(rects[i].x == MAXVAL && rects[i].y == MAXVAL) then 1 else 0);
      if rects[i].wasPacked == 0 {
        allPacked := 0;
      }
    }
  }

  /** Pack one rectangle. */
  method PackOne(context: Context, r: Rect) returns (r': Rect)
    requires context.Valid()
    modifies context, context.active, context.free
    ensures context.Valid() && SameInput(r', r) && Laid(r')
    ensures context.placed == old(context.placed) + if Empty(r) || !Settled(r') then {} else {Box(r'.x, r'.y, r.w, r.h)}
    ensures multiset(context.active + context.free) == old(multiset(context.active + context.free))
    ensures if Empty(r) then context.State() == old(context.State())
            else Request(old(context.State()), r.w, r.h, EventOf(r').r, context.State())
  {
    if r.w == 0 || r.h == 0 {
      r' := r.(x := 0, y := 0);
    } else {
      ghost var t := context.State();
      var fr := context.PackRectangle(r.w, r.h);
      RequestIffNext(t, r.w, r.h, OutcomeOf(fr), context.State());
      if !fr.link.NoLink? {
        RestsOnColumns(t, r.w, r.h, fr.x, fr.y, context.State());
        r' := r.(x := fr.x, y := fr.y);
      } else {
        r' := r.(x := MAXVAL, y := MAXVAL);
      }
    }
  }

  /** The chains hold no other nodes than those of `mine`. */
  ghost predicate Within(active: seq<Node>, free: seq<Node>, mine: set<Node>) {
    (forall i :: 0 <= i < |active| ==> active[i] in mine) && forall i :: 0 <= i < |free| ==> free[i] in mine
  }

  lemma StillWithin(active: seq<Node>, free: seq<Node>, active0: seq<Node>, free0: seq<Node>, mine: set<Node>)
    requires multiset(active + free) == multiset(active0 + free0) && Within(active0, free0, mine)
    ensures Within(active, free, mine)
  {
    var now, before := active + free, active0 + free0;
    forall i | 0 <= i < |now|
      ensures now[i] in mine
    {
      assert now[i] in multiset(before);
      var j :| 0 <= j < |before| && before[j] == now[i];
    }
    forall i | 0 <= i < |active|
      ensures active[i] in mine
    {
      assert now[i] == active[i];
    }
    forall i | 0 <= i < |free|
      ensures free[i] in mine
    {
      assert now[|active| + i] == free[i];
    }
  }

  /** One rectangle more: the run and the boxes grow by its request. */
  lemma OneMore(t0: Target, before: seq<Rect>, t: Target, r: Rect, t': Target, placed0: set<Box>)
    requires Ready(t0) && Run(t0, Events(before), t) && Ready(t)
    requires if Empty(r) then t' == t else Request(t, r.w, r.h, EventOf(r).r, t')
    ensures Run(t0, Events(before + [r]), t')
    ensures placed0 + Boxes(Events(before + [r]))
         == placed0 + Boxes(Events(before)) + if Empty(r) || !Settled(r) then {} else {Box(r.x, r.y, r.w, r.h)}
  {
    EventsSnoc(before, r);
    var es := Events(before);
    if Empty(r) {
      assert es + [] == es;
    } else {
      RunSnoc(t0, es, t, EventOf(r), t');
      BoxesSnoc(es + [EventOf(r)]);
      assert (es + [EventOf(r)])[..|es|] == es;
    }
  }

  /** `laid` are the rectangles of s that have had their turn. */
  ghost predicate LaidSoFar(laid: seq<Rect>, s: seq<Rect>) {
    |laid| <= |s| && forall k :: 0 <= k < |laid| ==> SameInput(laid[k], s[k]) && Laid(laid[k])
  }

  lemma OneMoreLaid(laid: seq<Rect>, s: seq<Rect>, r: Rect, now: seq<Rect>)
    requires LaidSoFar(laid, s) && |laid| < |s| && SameInput(r, s[|laid|]) && Laid(r)
    requires now == (laid + s[|laid|..])[|laid| := r]
    ensures LaidSoFar(laid + [r], s) && now == (laid + [r]) + s[|laid| + 1..]
  {
  }

  /** Pack the rectangle at place i. */
  method PackNth(context: Context, rects: array<Rect>, i: nat, ghost laid: seq<Rect>, ghost s: seq<Rect>)
      returns (ghost r: Rect)
    requires context.Valid() && i == |laid| < rects.Length == |s| && LaidSoFar(laid, s) && rects[..] == laid + s[i..]
    modifies rects, context, context.active, context.free
    ensures context.Valid() && LaidSoFar(laid + [r], s) && rects[..] == (laid + [r]) + s[i + 1..]
    ensures context.placed == old(context.placed) + if Empty(r) || !Settled(r) then {} else {Box(r.x, r.y, r.w, r.h)}
    ensures multiset(context.active + context.free) == old(multiset(context.active + context.free))
    ensures if Empty(r) then context.State() == old(context.State())
            else Request(old(context.State()), r.w, r.h, EventOf(r).r, context.State())
  {
    assert rects[i] == s[i] by { assert rects[..][i] == s[i]; }
    var r' := PackOne(context, rects[i]);
    rects[i] := r';
    r := r';
    OneMoreLaid(laid, s, r, rects[..]);
  }

  /** The rectangles of s that have had their turn, and what their run has led to. */
  ghost predicate Turned(laid: seq<Rect>, s: seq<Rect>, now: seq<Rect>, t0: Target, t: Target, placed0: set<Box>,
                         placed: set<Box>) {
    && LaidSoFar(laid, s) && now == laid + s[|laid|..]
    && Ready(t0) && Run(t0, Events(laid), t) && placed == placed0 + Boxes(Events(laid))
  }

  lemma NoneTurned(s: seq<Rect>, t: Target, placed: set<Box>)
    requires Ready(t)
    ensures Turned([], s, s, t, t, placed, placed)
  {
    assert Boxes([]) == {};
  }

  /** One turn of the loop: the run goes on by the rectangle at place i. */
  method PackTurn(context: Context, rects: array<Rect>, i: nat, ghost laid: seq<Rect>, ghost s: seq<Rect>,
                  ghost t0: Target, ghost placed0: set<Box>, ghost mine: set<Node>) returns (ghost laid': seq<Rect>)
    requires context.Valid() && i == |laid| < rects.Length == |s|
    requires Turned(laid, s, rects[..], t0, context.State(), placed0, context.placed)
    requires Within(context.active, context.free, mine)
    modifies rects, context, mine
    ensures context.Valid() && |laid'| == i + 1
    ensures Turned(laid', s, rects[..], t0, context.State(), placed0, context.placed)
    ensures Within(context.active, context.free, mine)
    ensures multiset(context.active + context.free) == old(multiset(context.active + context.free))
  {
    ghost var t, active0, free0 := context.State(), context.active, context.free;
    assert Ready(t);
    ghost var r := PackNth(context, rects, i, laid, s);
    OneMore(t0, laid, t, r, context.State(), placed0);
    StillWithin(context.active, context.free, active0, free0, mine);
    laid' := laid + [r];
  }

  /** Pack the rectangles in the order in which they stand. */
  method PackInOrder(context: Context, rects: array<Rect>)
    requires context.Valid()
    modifies rects, context, context.active, context.free
    ensures context.Valid()
    ensures Turned(rects[..], old(rects[..]), rects[..], old(context.State()), context.State(), old(context.placed),
                   context.placed)
    ensures multiset(context.active + context.free) == old(multiset(context.active + context.free))
  {
    ghost var t0, placed0 := context.State(), context.placed;
    ghost var mine := (set n | n in context.active) + set n | n in context.free;
    ghost var s, laid := rects[..], [];
    NoneTurned(s, t0, placed0);
    for i := 0 to rects.Length
      invariant context.Valid() && |laid| == i
      invariant Turned(laid, s, rects[..], t0, context.State(), placed0, context.placed)
      invariant Within(context.active, context.free, mine)
      invariant multiset(context.active + context.free) == old(multiset(context.active + context.free))
    {
      laid := PackTurn(context, rects, i, laid, s, t0, placed0, mine);
    }
    assert laid == rects[..];
  }

  /** What the caller of PackRects sees in the array afterwards. */
  ghost predicate Reported(final: seq<Rect>, given: seq<Rect>) {
    && |final| == |given|
    && forall i :: 0 <= i < |final| ==>
         && final[i].id == given[i].id && final[i].w == given[i].w && final[i].h == given[i].h
         && final[i].wasPacked == (if final[i].x == 0x7fff_ffff && final[i].y == 0x7fff_ffff then 0 else 1)
         && (final[i].w == 0 || final[i].h == 0 ==> final[i].x == 0 && final[i].y == 0)
  }

  /** Every rectangle that was given room lies on the target, as one of the blocks
      placed, apart from the others and from everything placed before. */
  ghost predicate PutApart(final: seq<Rect>, placed0: set<Box>, placed: set<Box>, width: nat, height: nat) {
    && (forall i :: 0 <= i < |final| && GivenRoom(final[i]) ==> Settles(final[i], placed0, placed, width, height))
    && forall i, j :: 0 <= i < j < |final| && GivenRoom(final[i]) && GivenRoom(final[j]) ==>
      Apart(Box(final[i].x, final[i].y, final[i].w, final[i].h), Box(final[j].x, final[j].y, final[j].w, final[j].h))
  }

  ghost predicate GivenRoom(r: Rect) {
    r.w > 0 && r.h > 0 && !(r.x == 0x7fff_ffff && r.y == 0x7fff_ffff)
  }

  ghost predicate Settles(r: Rect, placed0: set<Box>, placed: set<Box>, width: nat, height: nat) {
    && 0 <= r.x && r.x + r.w <= width && 0 <= r.y && r.y + r.h <= height
    && Box(r.x, r.y, r.w, r.h) in placed
    && forall b :: b in placed0 ==> Apart(b, Box(r.x, r.y, r.w, r.h))
  }

  /** A rectangle of the run, wherever it stands in the end. */
  lemma AmongPlaced(placed0: set<Box>, t0: Target, processed: seq<Rect>, t: Target, final: seq<Rect>, i: nat)
    requires Ready(t0) && Packed(placed0, t0) && Run(t0, Events(processed), t)
    requires multiset(final) == multiset(processed) && i < |final| && GivenRoom(final[i])
    ensures BoxAt(final[i]) in Boxes(Events(processed)) && BoxAt(final[i]) !in placed0
  {
    RunPutsApart(placed0, t0, processed, t);
    var k := IndexIn(final, processed, i);
    assert TakesRoom(processed[k]);
    BoxAmongEvents(processed, k);
  }

  lemma FinalSettles(placed0: set<Box>, t0: Target, processed: seq<Rect>, t: Target, final: seq<Rect>, i: nat)
    requires Ready(t0) && Packed(placed0, t0) && Run(t0, Events(processed), t)
    requires multiset(final) == multiset(processed) && i < |final| && GivenRoom(final[i])
    ensures Settles(final[i], placed0, placed0 + Boxes(Events(processed)), t0.width, t0.height)
  {
    AmongPlaced(placed0, t0, processed, t, final, i);
    RunPutsApart(placed0, t0, processed, t);
  }

  lemma TwoDistinct(placed0: set<Box>, t0: Target, processed: seq<Rect>, t: Target, final: seq<Rect>, i: nat, j: nat)
    requires Ready(t0) && Packed(placed0, t0) && Run(t0, Events(processed), t)
    requires multiset(final) == multiset(processed) && i < j < |final| && GivenRoom(final[i]) && GivenRoom(final[j])
    ensures BoxAt(final[i]) != BoxAt(final[j])
    ensures Ready(t) && Packed(placed0 + Boxes(Events(processed)), t)
  {
    RunPutsApart(placed0, t0, processed, t);
    assert TakesRoom(final[i]) && TakesRoom(final[j]);
    DistinctInPermutation(final, processed, i, j);
  }

  lemma TwoApart(placed0: set<Box>, t0: Target, processed: seq<Rect>, t: Target, final: seq<Rect>, i: nat, j: nat)
    requires Ready(t0) && Packed(placed0, t0) && Run(t0, Events(processed), t)
    requires multiset(final) == multiset(processed) && i < j < |final| && GivenRoom(final[i]) && GivenRoom(final[j])
    ensures Apart(BoxAt(final[i]), BoxAt(final[j]))
  {
    AmongPlaced(placed0, t0, processed, t, final, i);
    AmongPlaced(placed0, t0, processed, t, final, j);
    TwoDistinct(placed0, t0, processed, t, final, i, j);
    ApartWithin(placed0 + Boxes(Events(processed)), t, BoxAt(final[i]), BoxAt(final[j]));
  }

  lemma ApartWithin(bs: set<Box>, t: Target, a: Box, b: Box)
    requires Ready(t) && Packed(bs, t) && a in bs && b in bs && a != b
    ensures Apart(a, b)
  {
  }

  lemma FinalPutsApart(placed0: set<Box>, t0: Target, processed: seq<Rect>, t: Target, final: seq<Rect>)
    requires Ready(t0) && Packed(placed0, t0) && Run(t0, Events(processed), t)
    requires multiset(final) == multiset(processed)
    ensures PutApart(final, placed0, placed0 + Boxes(Events(processed)), t0.width, t0.height)
  {
    forall i | 0 <= i < |final| && GivenRoom(final[i])
      ensures Settles(final[i], placed0, placed0 + Boxes(Events(processed)), t0.width, t0.height)
    {
      FinalSettles(placed0, t0, processed, t, final, i);
    }
    forall i, j | 0 <= i < j < |final| && GivenRoom(final[i]) && GivenRoom(final[j])
      ensures Apart(BoxAt(final[i]), BoxAt(final[j]))
    {
      TwoApart(placed0, t0, processed, t, final, i, j);
    }
  }

  /** The rectangles in their places again, with their flags. */
  lemma BackReported(given: seq<Rect>, noted: seq<Rect>, sorted: seq<Rect>, laid: seq<Rect>, back: seq<Rect>)
    requires |noted| == |given| && forall i :: 0 <= i < |noted| ==> noted[i] == given[i].(wasPacked := i)
    requires multiset(sorted) == multiset(noted)
    requires LaidSoFar(laid, sorted) && |laid| == |sorted|
    requires multiset(back) == multiset(laid) && SortedBy(back, OriginalOrder)
    ensures Reported(AllFlagged(back), given)
  {
    BackInPlace(noted, sorted, laid, back);
    forall i | 0 <= i < |back|
      ensures Laid(back[i])
    {
      var k := IndexIn(back, laid, i);
    }
  }

  /** The order of the turns survives laying and flagging. */
  lemma TurnsSorted(sorted: seq<Rect>, laid: seq<Rect>)
    requires TallestFirst(sorted) && LaidSoFar(laid, sorted) && |laid| == |sorted|
    ensures TallestFirst(AllFlagged(laid)) && Events(AllFlagged(laid)) == Events(laid)
  {
    EventsFlagged(laid);
  }

  /** Note the order and sort by height; the context takes no part in it. */
  method SortByHeight(rects: array<Rect>, ghost context: Context) returns (ghost noted: seq<Rect>)
    requires context.Valid()
    modifies rects
    ensures context.Valid() && context.State() == old(context.State())
    ensures |noted| == |old(rects[..])| && forall i :: 0 <= i < |noted| ==> noted[i] == old(rects[i]).(wasPacked := i)
    ensures multiset(rects[..]) == multiset(noted) && TallestFirst(rects[..])
  {
    NoteOrder(rects);
    noted := rects[..];
    HeightOrders();
    Qsort(rects, HeightCompare);
    SortedIsTallestFirst(rects[..]);
  }

  /** Sort by height and pack in that order. */
  method SortAndPack(context: Context, rects: array<Rect>) returns (ghost noted: seq<Rect>, ghost sorted: seq<Rect>)
    requires context.Valid()
    modifies rects, context, context.active, context.free
    ensures context.Valid()
    ensures |noted| == |old(rects[..])| && forall i :: 0 <= i < |noted| ==> noted[i] == old(rects[i]).(wasPacked := i)
    ensures multiset(sorted) == multiset(noted) && TallestFirst(sorted)
    ensures Turned(rects[..], sorted, rects[..], old(context.State()), context.State(), old(context.placed),
                   context.placed)
    ensures multiset(context.active + context.free) == old(multiset(context.active + context.free))
  {
    noted := SortByHeight(rects, context);
    sorted := rects[..];
    PackInOrder(context, rects);
  }

  /** Sort back and set the flags; the context takes no part in it. */
  method SortBack(rects: array<Rect>, ghost context: Context) returns (allPacked: int, ghost back: seq<Rect>)
    requires context.Valid()
    modifies rects
    ensures context.Valid() && context.State() == old(context.State())
    ensures multiset(back) == old(multiset(rects[..])) && SortedBy(back, OriginalOrder) && rects[..] == AllFlagged(back)
    ensures allPacked == if (forall i :: 0 <= i < rects.Length ==> rects[i].wasPacked == 1) then 1 else 0
  {
    OriginalOrders();
    Qsort(rects, OriginalOrder);
    back := rects[..];
    allPacked := SetFlags(rects);
    assert rects[..] == AllFlagged(back);
    assert forall i :: 0 <= i < rects.Length ==> (rects[i].wasPacked == 1 <==> Settled(back[i]));
  }

  /** What the three phases leave in the array, and what their order was. */
  ghost predicate Phases(given: seq<Rect>, noted: seq<Rect>, sorted: seq<Rect>, laid: seq<Rect>, back: seq<Rect>) {
    && |noted| == |given| && (forall i :: 0 <= i < |noted| ==> noted[i] == given[i].(wasPacked := i))
    && multiset(sorted) == multiset(noted) && TallestFirst(sorted)
    && LaidSoFar(laid, sorted) && |laid| == |sorted|
    && multiset(back) == multiset(laid) && SortedBy(back, OriginalOrder)
  }

  /** The caller sees its own rectangles, in place and flagged, each on room of its own. */
  lemma PhasesReported(given: seq<Rect>, noted: seq<Rect>, sorted: seq<Rect>, laid: seq<Rect>, back: seq<Rect>,
                       placed0: set<Box>, t0: Target, t: Target)
    requires Phases(given, noted, sorted, laid, back)
    requires Ready(t0) && Packed(placed0, t0) && Run(t0, Events(laid), t)
    ensures Reported(AllFlagged(back), given)
    ensures multiset(AllFlagged(laid)) == multiset(AllFlagged(back)) && TallestFirst(AllFlagged(laid))
    ensures Events(AllFlagged(laid)) == Events(laid)
    ensures PutApart(AllFlagged(back), placed0, placed0 + Boxes(Events(laid)), t0.width, t0.height)
  {
    BackReported(given, noted, sorted, laid, back);
    TurnsSorted(sorted, laid);
    FlaggedPermutation(back, laid);
    FinalPutsApart(placed0, t0, AllFlagged(laid), t, AllFlagged(back));
  }

  /** Sort, pack, sort back. */
  method SortPackSort(context: Context, rects: array<Rect>)
    returns (allPacked: int, ghost noted: seq<Rect>, ghost sorted: seq<Rect>, ghost laid: seq<Rect>,
             ghost back: seq<Rect>)
    requires context.Valid()
    modifies rects, context, context.active, context.free
    ensures context.Valid() && Phases(old(rects[..]), noted, sorted, laid, back) && rects[..] == AllFlagged(back)
    ensures allPacked == if (forall i :: 0 <= i < rects.Length ==> rects[i].wasPacked == 1) then 1 else 0
    ensures Run(old(context.State()), Events(laid), context.State())
    ensures context.placed == old(context.placed) + Boxes(Events(laid))
    ensures multiset(context.active + context.free) == old(multiset(context.active + context.free))
  {
    ghost var given := rects[..];
    noted, sorted := SortAndPack(context, rects);
    laid := rects[..];
    allPacked, back := SortBack(rects, context);
  }

  /** Pack an array of rectangles; `processed` are the rectangles in the order in
      which they had their turn. */
  method PackRects(context: Context, rects: array<Rect>) returns (allPacked: int, ghost processed: seq<Rect>)
    requires context.Valid()
    modifies rects, context, context.active, context.free
    ensures context.Valid() && Reported(rects[..], old(rects[..]))
    ensures allPacked == if (forall i :: 0 <= i < rects.Length ==> rects[i].wasPacked == 1) then 1 else 0
    ensures multiset(processed) == multiset(rects[..]) && TallestFirst(processed)
    ensures Run(old(context.State()), Events(processed), context.State())
    ensures context.placed == old(context.placed) + Boxes(Events(processed))
    ensures PutApart(rects[..], old(context.placed), context.placed, old(context.width), old(context.height))
    ensures multiset(context.active + context.free) == old(multiset(context.active + context.free))
  {
    ghost var t0, placed0, given := context.State(), context.placed, rects[..];
    assert Ready(t0) && Packed(placed0, t0);
    ghost var noted, sorted, laid, back;
    allPacked, noted, sorted, laid, back := SortPackSort(context, rects);
    processed := AllFlagged(laid);
    PhasesReported(given, noted, sorted, laid, back, placed0, t0, context.State());
  }
}
