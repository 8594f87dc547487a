/** What a pair of colliders is told over a whole run of frames. */
module CollisionRuns {
  import opened Folds
  import opened Unsigned
  import opened Collisions

  /** The kinds of the events in which x is told about y. */
  function Received(es: seq<Event>, x: U32, y: U32): seq<Kind> {
    if es == [] then []
    else
      var e := es[|es| - 1];
      Received(es[..|es| - 1], x, y) + if e.receiver == x && e.other == y then [e.kind] else []
  }

  lemma {:induction false} ReceivedOfBoth(es: seq<Event>, es': seq<Event>, x: U32, y: U32)
    ensures Received(es + es', x, y) == Received(es, x, y) + Received(es', x, y)
    decreases |es'|
  {
    if es' == [] {
      assert es + es' == es;
    } else {
      var init := es'[..|es'| - 1];
      assert (es + es')[..|es + es'| - 1] == es + init;
      ReceivedOfBoth(es, init, x, y);
    }
  }

  lemma ReceivedFromPair(kinds: seq<Kind>, l: U32, r: U32, x: U32, y: U32)
    requires |kinds| <= 1 && l != r
    ensures Received(Both(kinds, l, r), x, y) == if (x == l && y == r) || (x == r && y == l) then kinds else []
  {
    var es := Both(kinds, l, r);
    if kinds != [] {
      assert es[..1] == [es[0]] && es[..1][..0] == [];
      assert Received(es[..1], x, y) == if x == l && y == r then kinds else [];
    }
  }

  lemma PairTold(es: seq<Event>, kinds: seq<Kind>, l: U32, r: U32, x: U32, y: U32)
    requires |kinds| <= 1 && l != r && ((x == l && y == r) || (x == r && y == l))
    ensures Received(es + Both(kinds, l, r), x, y) == Received(es, x, y) + kinds
  {
    ReceivedFromPair(kinds, l, r, x, y);
    ReceivedOfBoth(es, Both(kinds, l, r), x, y);
  }

  lemma PairSilent(es: seq<Event>, kinds: seq<Kind>, l: U32, r: U32, x: U32, y: U32)
    requires |kinds| <= 1 && l != r && !(x == l && y == r) && !(x == r && y == l)
    ensures Received(es + Both(kinds, l, r), x, y) == Received(es, x, y)
  {
    ReceivedFromPair(kinds, l, r, x, y);
    ReceivedOfBoth(es, Both(kinds, l, r), x, y);
  }

  ghost function After(f: Frame, m: map<nat, bool>): map<nat, bool> {
    MapBefore(f, m, |f.colliders|)
  }

  ghost function Events(f: Frame, m: map<nat, bool>): seq<Event> {
    Flat(Rows(f, m), |f.colliders|)
  }

  /** x and y are the ids of colliders i and j, in either order. */
  ghost predicate IdsAt(f: Frame, i: nat, j: nat, x: U32, y: U32) {
    i < j < |f.colliders| &&
    var l, r := f.colliders[i].id, f.colliders[j].id;
    (x == l && y == r) || (x == r && y == l)
  }

  /** What comparing colliders i and j tells them. */
  function Verdict(f: Frame, m: map<nat, bool>, i: nat, j: nat): seq<Kind>
    requires i < j < |f.colliders|
  {
    if Compared(f, i, j) then Told(Look(m, f.colliders[i].id, f.colliders[j].id), Touch(f, i, j)) else []
  }

  /** One comparison tells x and y something only if it compares them. */
  lemma ComparisonTells(f: Frame, m: map<nat, bool>, i: nat, j: nat, a: nat, b: nat, x: U32, y: U32, before: seq<Event>,
                        kinds: seq<Kind>)
    requires Distinct(f) && i < j < |f.colliders| && IdsAt(f, a, b, x, y) && |kinds| <= 1
    ensures Received(before + Both(kinds, f.colliders[i].id, f.colliders[j].id), x, y)
         == Received(before, x, y) + if i == a && j == b then kinds else []
  {
    var l, r := f.colliders[i].id, f.colliders[j].id;
    OtherId(f, i, j);
    SamePair(f, i, j, a, b, x, y);
    if i == a && j == b {
      PairTold(before, kinds, l, r, x, y);
    } else {
      PairSilent(before, kinds, l, r, x, y);
    }
  }

  /** One row tells x and y something only where it compares them. */
  lemma {:induction false} RowTells(f: Frame, m: map<nat, bool>, i: nat, n: nat, a: nat, b: nat, x: U32, y: U32)
    requires Distinct(f) && i < |f.colliders| && n <= |f.colliders| && IdsAt(f, a, b, x, y)
    ensures Received(RowEvents(f, m, i, n), x, y) == if i == a && b < n then Verdict(f, m, a, b) else []
    decreases n
  {
    if n > i + 1 {
      var j: nat := n - 1;
      RowTells(f, m, i, j, a, b, x, y);
      NextTells(f, m, i, j, n, a, b, x, y);
      NothingAdded(Verdict(f, m, i, j));
    }
  }

  lemma NextTells(f: Frame, m: map<nat, bool>, i: nat, j: nat, n: nat, a: nat, b: nat, x: U32, y: U32)
    requires Distinct(f) && i < j < |f.colliders| && n == j + 1 && IdsAt(f, a, b, x, y)
    ensures Received(RowEvents(f, m, i, n), x, y)
         == Received(RowEvents(f, m, i, j), x, y) + if i == a && j == b then Verdict(f, m, i, j) else []
  {
    var before, kinds := RowEvents(f, m, i, j), Verdict(f, m, i, j);
    assert RowEvents(f, m, i, n) == before + Both(kinds, f.colliders[i].id, f.colliders[j].id);
    ComparisonTells(f, m, i, j, a, b, x, y, before, kinds);
  }

  lemma SamePair(f: Frame, i: nat, j: nat, a: nat, b: nat, x: U32, y: U32)
    requires Distinct(f) && i < j < |f.colliders| && IdsAt(f, a, b, x, y)
    ensures IdsAt(f, i, j, x, y) <==> i == a && j == b
  {
    OtherId(f, i, a);
    OtherId(f, i, b);
    OtherId(f, j, a);
    OtherId(f, j, b);
  }

  lemma NothingAdded(ks: seq<Kind>)
    ensures ks + [] == ks && [] + ks == ks
  {
  }

  /** If only part a tells x something about y, all parts together tell just that. */
  lemma {:induction false} OnePartTells(parts: seq<seq<Event>>, n: nat, a: nat, told: seq<Kind>, x: U32, y: U32)
    requires n <= |parts| && forall i :: 0 <= i < |parts| ==> Received(parts[i], x, y) == if i == a then told else []
    ensures Received(Flat(parts, n), x, y) == if a < n then told else []
    decreases n
  {
    if n > 0 {
      OnePartTells(parts, n - 1, a, told, x, y);
      ReceivedOfBoth(Flat(parts, n - 1), parts[n - 1], x, y);
      NothingAdded(Received(Flat(parts, n - 1), x, y));
      NothingAdded(Received(parts[n - 1], x, y));
    }
  }

  lemma FrameTells(f: Frame, m: map<nat, bool>, a: nat, b: nat, x: U32, y: U32)
    requires Distinct(f) && IdsAt(f, a, b, x, y)
    ensures Received(Events(f, m), x, y) == Verdict(f, m, a, b)
  {
    var rows := Rows(f, m);
    forall i | 0 <= i < |rows|
      ensures Received(rows[i], x, y) == if i == a then Verdict(f, m, a, b) else []
    {
      RowTells(f, m, i, |f.colliders|, a, b, x, y);
    }
    OnePartTells(rows, |rows|, a, Verdict(f, m, a, b), x, y);
  }

  /** x and y are not both in the frame. */
  ghost predicate Absent(f: Frame, x: U32, y: U32) {
    forall i, j :: 0 <= i < j < |f.colliders| ==> !IdsAt(f, i, j, x, y)
  }

  lemma {:induction false} RowSilent(f: Frame, m: map<nat, bool>, i: nat, n: nat, x: U32, y: U32)
    requires Distinct(f) && i < |f.colliders| && n <= |f.colliders| && Absent(f, x, y)
    ensures Received(RowEvents(f, m, i, n), x, y) == []
    decreases n
  {
    if n > i + 1 {
      RowSilent(f, m, i, n - 1, x, y);
      var l, r := f.colliders[i].id, f.colliders[n - 1].id;
      if Compared(f, i, n - 1) {
        OtherId(f, i, n - 1);
        var kinds := Told(Look(m, l, r), Touch(f, i, n - 1));
        assert !IdsAt(f, i, n - 1, x, y);
        PairSilent(RowEvents(f, m, i, n - 1), kinds, l, r, x, y);
      }
    }
  }

  lemma FrameSilent(f: Frame, m: map<nat, bool>, x: U32, y: U32)
    requires Distinct(f) && Absent(f, x, y)
    ensures Received(Events(f, m), x, y) == []
  {
    var rows := Rows(f, m);
    forall i | 0 <= i < |rows|
      ensures Received(rows[i], x, y) == []
    {
      RowSilent(f, m, i, |f.colliders|, x, y);
    }
    OnePartTells(rows, |rows|, |rows|, [], x, y);
  }

  // What is registered afterwards.

  lemma {:induction false} RowRegisters(f: Frame, m: map<nat, bool>, i: nat, n: nat, j: nat)
    requires Distinct(f) && i < j < n <= |f.colliders| && Compared(f, i, j)
    ensures Look(RowMap(f, m, i, n), f.colliders[i].id, f.colliders[j].id) == Touch(f, i, j)
    decreases n
  {
    if j < n - 1 {
      RowRegisters(f, m, i, n - 1, j);
      KeyInjective(f.colliders[i].id, f.colliders[j].id, f.colliders[i].id, f.colliders[n - 1].id);
    }
  }

  lemma {:induction false} FrameRegisters(f: Frame, m: map<nat, bool>, n: nat, i: nat, j: nat)
    requires Distinct(f) && i < n <= |f.colliders| && i < j < |f.colliders| && Compared(f, i, j)
    ensures Look(MapBefore(f, m, n), f.colliders[i].id, f.colliders[j].id) == Touch(f, i, j)
    decreases n
  {
    if i < n - 1 {
      FrameRegisters(f, m, n - 1, i, j);
      OtherId(f, n - 1, i);
      RowKeeps(f, MapBefore(f, m, n - 1), n - 1, |f.colliders|, f.colliders[i].id, f.colliders[j].id);
    } else {
      RowRegisters(f, MapBefore(f, m, i), i, |f.colliders|, j);
    }
  }

  lemma {:induction false} RowSkips(f: Frame, m: map<nat, bool>, i: nat, n: nat, l: U32, r: U32)
    requires Distinct(f) && i < |f.colliders| && n <= |f.colliders|
    requires forall j :: i < j < n && f.colliders[i].id == l && f.colliders[j].id == r ==> !Compared(f, i, j)
    ensures Look(RowMap(f, m, i, n), l, r) == Look(m, l, r)
    decreases n
  {
    if n > i + 1 {
      RowSkips(f, m, i, n - 1, l, r);
      KeyInjective(l, r, f.colliders[i].id, f.colliders[n - 1].id);
    }
  }

  /** A pair that is not compared keeps what is registered for it. */
  lemma {:induction false} FrameSkips(f: Frame, m: map<nat, bool>, n: nat, l: U32, r: U32)
    requires Distinct(f) && n <= |f.colliders|
    requires forall i, j :: 0 <= i < j < |f.colliders| && f.colliders[i].id == l && f.colliders[j].id == r ==>
             !Compared(f, i, j)
    ensures Look(MapBefore(f, m, n), l, r) == Look(m, l, r)
    decreases n
  {
    if n > 0 {
      FrameSkips(f, m, n - 1, l, r);
      RowSkips(f, MapBefore(f, m, n - 1), n - 1, |f.colliders|, l, r);
    }
  }

  // A frame, as far as x and y are concerned.

  datatype Comparison = Unseen | Seen(xFirst: bool, touching: bool)

  ghost predicate Meet(f: Frame, x: U32, y: U32) {
    exists i: nat, j: nat :: IdsAt(f, i, j, x, y) && Compared(f, i, j)
  }

  /** How x and y are compared in a frame, if they are. */
  ghost function ComparisonOf(f: Frame, x: U32, y: U32): Comparison {
    if Meet(f, x, y) then
      var i: nat, j: nat :| IdsAt(f, i, j, x, y) && Compared(f, i, j);
      Seen(f.colliders[i].id == x, Touch(f, i, j))
    else Unseen
  }

  lemma ComparisonIs(f: Frame, x: U32, y: U32, i: nat, j: nat)
    requires Distinct(f) && IdsAt(f, i, j, x, y) && Compared(f, i, j)
    ensures ComparisonOf(f, x, y) == Seen(f.colliders[i].id == x, Touch(f, i, j))
  {
    assert Meet(f, x, y);
    var a: nat, b: nat :| IdsAt(f, a, b, x, y) && Compared(f, a, b)
                          && ComparisonOf(f, x, y) == Seen(f.colliders[a].id == x, Touch(f, a, b));
    SamePair(f, i, j, a, b, x, y);
  }

  function Left(first: bool, x: U32, y: U32): U32 {
    if first then x else y
  }

  /** A pair that is compared is told once, both alike, and registered as found. */
  lemma SeenLaw(f: Frame, m: map<nat, bool>, x: U32, y: U32)
    requires Distinct(f) && x != y && ComparisonOf(f, x, y).Seen?
    ensures var c := ComparisonOf(f, x, y);
            var l, r := Left(c.xFirst, x, y), Left(c.xFirst, y, x);
            && Received(Events(f, m), x, y) == Told(Look(m, l, r), c.touching)
            && Look(After(f, m), l, r) == c.touching
            && Look(After(f, m), r, l) == Look(m, r, l)
  {
    var i: nat, j: nat :| IdsAt(f, i, j, x, y) && Compared(f, i, j);
    ComparisonIs(f, x, y, i, j);
    FrameTells(f, m, i, j, x, y);
    FrameRegisters(f, m, |f.colliders|, i, j);
    OtherIds(f, i);
    OtherIds(f, j);
    FrameSkips(f, m, |f.colliders|, f.colliders[j].id, f.colliders[i].id);
  }

  /** A pair that is not compared hears nothing, and nothing changes for it. */
  lemma UnseenLaw(f: Frame, m: map<nat, bool>, x: U32, y: U32)
    requires Distinct(f) && x != y && ComparisonOf(f, x, y).Unseen?
    ensures Received(Events(f, m), x, y) == []
    ensures Look(After(f, m), x, y) == Look(m, x, y)
  {
    if Absent(f, x, y) {
      FrameSilent(f, m, x, y);
    } else {
      var i: nat, j: nat :| i < j < |f.colliders| && IdsAt(f, i, j, x, y);
      assert !Compared(f, i, j);
      FrameTells(f, m, i, j, x, y);
    }
    forall i, j | 0 <= i < j < |f.colliders| && f.colliders[i].id == x && f.colliders[j].id == y
      ensures !Compared(f, i, j)
    {
      assert IdsAt(f, i, j, x, y);
    }
    FrameSkips(f, m, |f.colliders|, x, y);
  }

  lemma ComparisonFlips(f: Frame, x: U32, y: U32)
    requires Distinct(f) && x != y
    ensures ComparisonOf(f, y, x)
         == match ComparisonOf(f, x, y) case Unseen => Unseen case Seen(first, now) => Seen(!first, now)
  {
    if Meet(f, y, x) {
      MeetFlips(f, y, x);
    }
    if Meet(f, x, y) {
      var i: nat, j: nat :| IdsAt(f, i, j, x, y) && Compared(f, i, j);
      ComparisonIs(f, x, y, i, j);
      ComparisonIs(f, y, x, i, j);
    }
  }

  lemma MeetFlips(f: Frame, x: U32, y: U32)
    requires Meet(f, x, y)
    ensures Meet(f, y, x)
  {
    var i: nat, j: nat :| IdsAt(f, i, j, x, y) && Compared(f, i, j);
    assert IdsAt(f, i, j, y, x);
  }

  /** One frame, as far as x and y are concerned. */
  lemma OneFrame(f: Frame, m: map<nat, bool>, x: U32, y: U32, c: Comparison)
    requires Distinct(f) && x != y && c == ComparisonOf(f, x, y)
    ensures Received(Events(f, m), x, y)
         == match c case Unseen => [] case Seen(first, now) => Told(if first then Look(m, x, y) else Look(m, y, x), now)
    ensures Look(After(f, m), x, y) == if c.Seen? && c.xFirst then c.touching else Look(m, x, y)
    ensures Look(After(f, m), y, x) == if c.Seen? && !c.xFirst then c.touching else Look(m, y, x)
  {
    if c.Seen? {
      SeenLaw(f, m, x, y);
    } else {
      ComparisonFlips(f, x, y);
      UnseenLaw(f, m, x, y);
      UnseenLaw(f, m, y, x);
    }
  }

  /** Both objects of a pair are told the same. */
  lemma BothTold(f: Frame, m: map<nat, bool>, x: U32, y: U32)
    requires Distinct(f) && x != y
    ensures Received(Events(f, m), x, y) == Received(Events(f, m), y, x) && |Received(Events(f, m), x, y)| <= 1
  {
    ComparisonFlips(f, x, y);
    if ComparisonOf(f, x, y).Seen? {
      SeenLaw(f, m, x, y);
      SeenLaw(f, m, y, x);
    } else {
      UnseenLaw(f, m, x, y);
      UnseenLaw(f, m, y, x);
    }
  }

  /** What a frame does with colliders i and j: if both are active, both are told
      alike that they enter, stay in or leave contact, and the contact is noted under
      their ids; otherwise neither hears anything, and what was noted stays. */
  lemma PairLaw(f: Frame, m: map<nat, bool>, i: nat, j: nat)
    requires Distinct(f) && i < j < |f.colliders|
    ensures var p, q := f.colliders[i], f.colliders[j];
            var key, compared := p.id + 0x1_0000_0000 * q.id, p.active && q.active;
            var was, now := key in m && m[key], (p.id, q.id) in f.touching;
            && Received(Events(f, m), p.id, q.id)
               == (if compared && now then [if was then Stay else Enter] else if compared && was then [Exit] else [])
            && Received(Events(f, m), q.id, p.id) == Received(Events(f, m), p.id, q.id)
            && ((key in After(f, m) && After(f, m)[key]) == if compared then now else was)
  {
    var p, q := f.colliders[i], f.colliders[j];
    OtherId(f, i, j);
    BothTold(f, m, p.id, q.id);
    ComparisonLaw(f, i, j);
    assert IdsAt(f, i, j, p.id, q.id);
    FrameTells(f, m, i, j, p.id, q.id);
    OneFrame(f, m, p.id, q.id, ComparisonOf(f, p.id, q.id));
  }

  /** Colliders i and j are compared just if both are active, the earlier one first. */
  lemma ComparisonLaw(f: Frame, i: nat, j: nat)
    requires Distinct(f) && i < j < |f.colliders|
    ensures var p, q := f.colliders[i], f.colliders[j];
            ComparisonOf(f, p.id, q.id)
              == if p.active && q.active then Seen(true, (p.id, q.id) in f.touching) else Unseen
  {
    var p, q := f.colliders[i], f.colliders[j];
    assert IdsAt(f, i, j, p.id, q.id);
    if p.active && q.active {
      ComparisonIs(f, p.id, q.id, i, j);
    } else if Meet(f, p.id, q.id) {
      var a: nat, b: nat :| IdsAt(f, a, b, p.id, q.id) && Compared(f, a, b);
      SamePair(f, a, b, i, j, p.id, q.id);
    }
  }

  // Whole runs.

  /** Frame i of a run: from what is registered before it to what is registered
      after it, with the events it delivers. */
  ghost predicate Plays(fs: seq<Frame>, ms: seq<map<nat, bool>>, es: seq<seq<Event>>, i: nat)
    requires i < |fs| == |es| && |ms| == |fs| + 1
  {
    Distinct(fs[i]) && ms[i + 1] == After(fs[i], ms[i]) && es[i] == Events(fs[i], ms[i])
  }

  /** A run: what is registered before and after each frame, and what each delivers. */
  ghost predicate Run(fs: seq<Frame>, ms: seq<map<nat, bool>>, es: seq<seq<Event>>) {
    && |fs| == |es| && |ms| == |fs| + 1 && ms[0] == map[]
    && forall i :: 0 <= i < |fs| ==> Plays(fs, ms, es, i)
  }

  /** The scene, frame by frame, from when it was entered. */
  method Play(scene: Scene, fs: seq<Frame>) returns (ghost ms: seq<map<nat, bool>>, ghost es: seq<seq<Event>>)
    requires scene.mapColInfo == map[] && forall i :: 0 <= i < |fs| ==> Distinct(fs[i])
    modifies scene
    ensures Run(fs, ms, es) && scene.mapColInfo == ms[|fs|]
    ensures scene.delivered == old(scene.delivered) + Flat(es, |fs|)
  {
    ms, es := [map[]], [];
    for n := 0 to |fs|
      invariant |es| == n && Run(fs[..n], ms, es) && scene.mapColInfo == ms[n]
      invariant scene.delivered == old(scene.delivered) + Flat(es, n)
    {
      ghost var m := scene.mapColInfo;
      scene.CheckCollision(fs[n]);
      RunSnoc(fs[..n], ms, es, fs[n], After(fs[n], m), Events(fs[n], m));
      FlatSnoc(es, Events(fs[n], m));
      assert fs[..n + 1] == fs[..n] + [fs[n]];
      ms, es := ms + [After(fs[n], m)], es + [Events(fs[n], m)];
    }
    assert fs[..|fs|] == fs;
  }

  lemma RunSnoc(fs: seq<Frame>, ms: seq<map<nat, bool>>, es: seq<seq<Event>>, f: Frame, m: map<nat, bool>,
                e: seq<Event>)
    requires Run(fs, ms, es) && Distinct(f) && m == After(f, ms[|fs|]) && e == Events(f, ms[|fs|])
    ensures Run(fs + [f], ms + [m], es + [e])
  {
    forall i | 0 <= i <= |fs|
      ensures Plays(fs + [f], ms + [m], es + [e], i)
    {
      assert i < |fs| ==> Plays(fs, ms, es, i);
    }
  }

  lemma FlatSnoc(es: seq<seq<Event>>, e: seq<Event>)
    ensures Flat(es + [e], |es| + 1) == Flat(es, |es|) + e
  {
    FlatPrefix(es, e, |es|);
  }

  lemma {:induction false} FlatPrefix(es: seq<seq<Event>>, e: seq<Event>, n: nat)
    requires n <= |es|
    ensures Flat(es + [e], n) == Flat(es, n)
    decreases n
  {
    if n > 0 {
      FlatPrefix(es, e, n - 1);
    }
  }

  ghost function Comparisons(fs: seq<Frame>, x: U32, y: U32): seq<Comparison> {
    seq(|fs|, i requires 0 <= i < |fs| => ComparisonOf(fs[i], x, y))
  }

  /** Whether the last of the first n comparisons in the given order found contact. */
  function Last(cs: seq<Comparison>, n: nat, first: bool): bool
    requires n <= |cs|
  {
    if n == 0 then false
    else match cs[n - 1]
      case Unseen => Last(cs, n - 1, first)
      case Seen(f, now) => if f == first then now else Last(cs, n - 1, first)
  }

  /** What the first n comparisons tell: each, whether it differs from the last one
      in the same order. */
  function Trace(cs: seq<Comparison>, n: nat): seq<Kind>
    requires n <= |cs|
  {
    if n == 0 then []
    else match cs[n - 1]
      case Unseen => Trace(cs, n - 1)
      case Seen(first, now) => Trace(cs, n - 1) + Told(Last(cs, n - 1, first), now)
  }

  /** Over any run, what is registered for a pair is its last comparison in that order. */
  lemma {:induction false} RunRegisters(fs: seq<Frame>, ms: seq<map<nat, bool>>, es: seq<seq<Event>>, n: nat, x: U32,
                                        y: U32)
    requires Run(fs, ms, es) && n <= |fs| && x != y
    ensures Look(ms[n], x, y) == Last(Comparisons(fs, x, y), n, true)
    ensures Look(ms[n], y, x) == Last(Comparisons(fs, x, y), n, false)
    decreases n
  {
    if n > 0 {
      RunRegisters(fs, ms, es, n - 1, x, y);
      assert Plays(fs, ms, es, n - 1);
      OneFrame(fs[n - 1], ms[n - 1], x, y, Comparisons(fs, x, y)[n - 1]);
    }
  }

  lemma TraceNext(cs: seq<Comparison>, n: nat, told: seq<Kind>)
    requires n < |cs|
    requires told == match cs[n] case Unseen => [] case Seen(first, now) => Told(Last(cs, n, first), now)
    ensures Trace(cs, n + 1) == Trace(cs, n) + told
  {
    NothingAdded(Trace(cs, n));
  }

  /** Frame n tells what comparison n adds to the trace. */
  ghost predicate Traced(cs: seq<Comparison>, es: seq<seq<Event>>, n: nat, x: U32, y: U32)
    requires n < |cs| == |es|
  {
    Trace(cs, n + 1) == Trace(cs, n) + Received(es[n], x, y)
  }

  lemma FrameTraced(fs: seq<Frame>, ms: seq<map<nat, bool>>, es: seq<seq<Event>>, n: nat, x: U32, y: U32)
    requires Run(fs, ms, es) && n < |fs| && x != y
    ensures Traced(Comparisons(fs, x, y), es, n, x, y)
  {
    var cs := Comparisons(fs, x, y);
    RunRegisters(fs, ms, es, n, x, y);
    assert Plays(fs, ms, es, n);
    OneFrame(fs[n], ms[n], x, y, cs[n]);
    TraceNext(cs, n, Received(es[n], x, y));
  }

  lemma {:induction false} FlatTraced(cs: seq<Comparison>, es: seq<seq<Event>>, n: nat, x: U32, y: U32)
    requires n <= |cs| == |es| && forall i :: 0 <= i < |cs| ==> Traced(cs, es, i, x, y)
    ensures Received(Flat(es, n), x, y) == Trace(cs, n)
    decreases n
  {
    if n > 0 {
      FlatTraced(cs, es, n - 1, x, y);
      assert Traced(cs, es, n - 1, x, y);
      ReceivedOfBoth(Flat(es, n - 1), es[n - 1], x, y);
    }
  }

  /** Over any run, what x is told about y depends on their comparisons alone. */
  lemma RunTells(fs: seq<Frame>, ms: seq<map<nat, bool>>, es: seq<seq<Event>>, n: nat, x: U32, y: U32)
    requires Run(fs, ms, es) && n <= |fs| && x != y
    ensures Received(Flat(es, n), x, y) == Trace(Comparisons(fs, x, y), n)
  {
    forall i | 0 <= i < |fs|
      ensures Traced(Comparisons(fs, x, y), es, i, x, y)
    {
      FrameTraced(fs, ms, es, i, x, y);
    }
    FlatTraced(Comparisons(fs, x, y), es, n, x, y);
  }

  /** Enter is right at the beginning and after an Exit, and nowhere else. */
  predicate InPlace(ks: seq<Kind>, k: nat)
    requires k < |ks|
  {
    ks[k] == Enter <==> k == 0 || ks[k - 1] == Exit
  }

  /** Every contact begins with Enter, goes on with Stay and ends with Exit before
      the next one begins. */
  ghost predicate Orderly(ks: seq<Kind>) {
    forall k :: 0 <= k < |ks| ==> InPlace(ks, k)
  }

  lemma OrderlyThen(ks: seq<Kind>, k: Kind)
    requires Orderly(ks) && (k == Enter <==> ks == [] || ks[|ks| - 1] == Exit)
    ensures Orderly(ks + [k])
  {
    var es := ks + [k];
    forall j | 0 <= j < |es|
      ensures InPlace(es, j)
    {
      if j < |ks| {
        assert InPlace(ks, j);
      }
    }
  }

  predicate InContact(ks: seq<Kind>) {
    ks != [] && ks[|ks| - 1] != Exit
  }

  lemma OrderlyTold(ks: seq<Kind>, was: bool, now: bool)
    requires Orderly(ks) && InContact(ks) == was
    ensures Orderly(ks + Told(was, now)) && InContact(ks + Told(was, now)) == now
  {
    var told := Told(was, now);
    if told == [] {
      assert ks + told == ks;
    } else {
      OrderlyThen(ks, told[0]);
      assert ks + told == ks + [told[0]];
    }
  }

  /** Colliders that keep their order hear of one contact after the other, whatever
      they touch and whenever they are switched off and on. */
  lemma {:induction false} SameOrderIsOrderly(cs: seq<Comparison>, n: nat, first: bool)
    requires n <= |cs| && forall i :: 0 <= i < n && cs[i].Seen? ==> cs[i].xFirst == first
    ensures Orderly(Trace(cs, n)) && InContact(Trace(cs, n)) == Last(cs, n, first)
  {
    if n > 0 {
      SameOrderIsOrderly(cs, n - 1, first);
      if cs[n - 1].Seen? {
        OrderlyTold(Trace(cs, n - 1), Last(cs, n - 1, first), cs[n - 1].touching);
      }
    }
  }

  /** Over any run in which two colliders keep their order, what one is told about
      the other is one contact after the other, and so is what the other is told. */
  lemma RunIsOrderly(fs: seq<Frame>, ms: seq<map<nat, bool>>, es: seq<seq<Event>>, x: U32, y: U32, first: bool)
    requires Run(fs, ms, es) && x != y
    requires forall i :: 0 <= i < |fs| && ComparisonOf(fs[i], x, y).Seen? ==> ComparisonOf(fs[i], x, y).xFirst == first
    ensures var told := Received(Flat(es, |fs|), x, y);
            Orderly(told) && InContact(told) == Last(Comparisons(fs, x, y), |fs|, first)
  {
    RunTells(fs, ms, es, |fs|, x, y);
    SameOrderIsOrderly(Comparisons(fs, x, y), |fs|, first);
  }

  // What happens when two colliders change places.

  /** How a frame meets a pair: not at all, or in one of its two orders. */
  datatype Order = Away | Met(xFirst: bool)

  function OrderOf(c: Comparison): Order {
    match c
    case Unseen => Away
    case Seen(first, _) => Met(first)
  }

  ghost function OrdersOf(fs: seq<Frame>, x: U32, y: U32): seq<Order> {
    seq(|fs|, i requires 0 <= i < |fs| => OrderOf(ComparisonOf(fs[i], x, y)))
  }

  ghost predicate Constant(orders: seq<Order>, n: nat)
    requires n <= |orders|
  {
    forall i, j :: 0 <= i < j < n && orders[i].Met? && orders[j].Met? ==> orders[i] == orders[j]
  }

  /** A frame in which x and y are compared as given. */
  function FrameFor(c: Comparison, x: U32, y: U32): Frame {
    match c
    case Unseen => Frame([], {})
    case Seen(first, now) =>
      var l, r := Left(first, x, y), Left(first, y, x);
      Frame([Collider(l, true), Collider(r, true)], if now then {(l, r)} else {})
  }

  lemma FrameForCompares(c: Comparison, x: U32, y: U32)
    requires x != y
    ensures Distinct(FrameFor(c, x, y)) && ComparisonOf(FrameFor(c, x, y), x, y) == c
  {
    var f := FrameFor(c, x, y);
    if c.Seen? {
      ComparisonIs(f, x, y, 0, 1);
    }
  }

  lemma {:induction false} FramesRun(fs: seq<Frame>) returns (ms: seq<map<nat, bool>>, es: seq<seq<Event>>)
    requires forall i :: 0 <= i < |fs| ==> Distinct(fs[i])
    ensures Run(fs, ms, es)
  {
    ms, es := [map[]], [];
    if fs != [] {
      var init, last := fs[..|fs| - 1], fs[|fs| - 1];
      ms, es := FramesRun(init);
      var m := ms[|init|];
      RunSnoc(init, ms, es, last, After(last, m), Events(last, m));
      ms, es := ms + [After(last, m)], es + [Events(last, m)];
      assert fs == init + [last];
    }
  }

  /** Every sequence of comparisons happens in some run. */
  lemma ComparisonsHappen(cs: seq<Comparison>, x: U32, y: U32)
      returns (fs: seq<Frame>, ms: seq<map<nat, bool>>, es: seq<seq<Event>>)
    requires x != y
    ensures Run(fs, ms, es) && Comparisons(fs, x, y) == cs && Received(Flat(es, |fs|), x, y) == Trace(cs, |cs|)
  {
    fs := seq(|cs|, i requires 0 <= i < |cs| => FrameFor(cs[i], x, y));
    forall i | 0 <= i < |cs|
      ensures Distinct(fs[i]) && ComparisonOf(fs[i], x, y) == cs[i]
    {
      FrameForCompares(cs[i], x, y);
    }
    ms, es := FramesRun(fs);
    assert Comparisons(fs, x, y) == cs;
    RunTells(fs, ms, es, |fs|, x, y);
  }

  /** Comparisons in these orders, each of which finds contact. */
  function Touching(orders: seq<Order>): seq<Comparison> {
    seq(|orders|, i requires 0 <= i < |orders| =>
      match orders[i] case Away => Unseen case Met(first) => Seen(first, true))
  }

  lemma {:induction false} NotYet(orders: seq<Order>, n: nat, first: bool)
    requires n <= |orders| && forall i :: 0 <= i < n && orders[i].Met? ==> orders[i].xFirst != first
    ensures !Last(Touching(orders), n, first)
    decreases n
  {
    if n > 0 {
      NotYet(orders, n - 1, first);
    }
  }

  /** In constant contact no one is told of an Exit, and the first thing told is Enter. */
  lemma {:induction false} NeverExit(orders: seq<Order>, n: nat)
    requires n <= |orders|
    ensures Exit !in Trace(Touching(orders), n)
    ensures Trace(Touching(orders), n) == [] <==> forall i :: 0 <= i < n ==> orders[i].Away?
    ensures Trace(Touching(orders), n) != [] ==> Trace(Touching(orders), n)[0] == Enter
    decreases n
  {
    if n > 0 {
      NeverExit(orders, n - 1);
      if orders[n - 1].Met? && Trace(Touching(orders), n - 1) == [] {
        NotYet(orders, n - 1, orders[n - 1].xFirst);
      }
    }
  }

  lemma {:induction false} TraceGrows(cs: seq<Comparison>, n: nat, m: nat)
    requires n <= m <= |cs|
    ensures Trace(cs, n) <= Trace(cs, m)
    decreases m
  {
    if n < m {
      TraceGrows(cs, n, m - 1);
    }
  }

  /** The first frame that meets the pair in another order than the frames before. */
  lemma {:induction false} FirstChange(orders: seq<Order>, n: nat) returns (k: nat)
    requires n <= |orders| && Constant(orders, n) && !Constant(orders, |orders|)
    ensures k < |orders| && Constant(orders, k) && !Constant(orders, k + 1)
    decreases |orders| - n
  {
    k := n;
    if n < |orders| && Constant(orders, n + 1) {
      k := FirstChange(orders, n + 1);
    }
  }

  /** Enter is told twice, and no Exit. */
  ghost predicate EntersTwice(ks: seq<Kind>) {
    Exit !in ks && exists i, j :: 0 <= i < j < |ks| && ks[i] == ks[j] == Enter
  }

  lemma EnterAgain(ks: seq<Kind>, all: seq<Kind>)
    requires ks != [] && ks[0] == Enter && Exit !in all && ks + [Enter] <= all
    ensures EntersTwice(all) && !Orderly(all)
  {
    var n := |ks|;
    assert all[0] == (ks + [Enter])[0] && all[n] == (ks + [Enter])[n];
    assert all[n - 1] in all;
    assert !InPlace(all, n);
  }

  /** Up to the change the pair is told of one contact, then of another. */
  lemma ToldAtChange(orders: seq<Order>, k: nat, cs: seq<Comparison>)
    requires k < |orders| && Constant(orders, k) && !Constant(orders, k + 1) && cs == Touching(orders)
    ensures Trace(cs, k) != [] && Trace(cs, k)[0] == Enter && Trace(cs, k + 1) == Trace(cs, k) + [Enter]
  {
    assert orders[k].Met? && exists i :: 0 <= i < k && orders[i].Met?;
    NotYet(orders, k, orders[k].xFirst);
    NeverExit(orders, k);
  }

  /** A pair that changes places while it touches enters contact twice. */
  lemma ChangeIsDisorder(orders: seq<Order>)
    requires !Constant(orders, |orders|)
    ensures EntersTwice(Trace(Touching(orders), |orders|)) && !Orderly(Trace(Touching(orders), |orders|))
  {
    var k := FirstChange(orders, 0);
    DisorderFrom(orders, k, k + 1, |orders|, Touching(orders));
  }

  lemma DisorderFrom(orders: seq<Order>, k: nat, k': nat, n: nat, cs: seq<Comparison>)
    requires k < n == |orders| && k' == k + 1 && cs == Touching(orders)
    requires Constant(orders, k) && !Constant(orders, k')
    ensures EntersTwice(Trace(cs, n)) && !Orderly(Trace(cs, n))
  {
    ToldAtChange(orders, k, cs);
    NeverExit(orders, n);
    TraceGrows(cs, k', n);
    EnterAgain(Trace(cs, k), Trace(cs, n));
  }

  /** Order matters: a pair hears of one contact after the other, in every run that
      meets it in the given orders, if and only if they are all the same. */
  lemma OrderlyIff(x: U32, y: U32, orders: seq<Order>)
    requires x != y
    ensures Constant(orders, |orders|) <==>
            forall fs, ms, es :: Run(fs, ms, es) && OrdersOf(fs, x, y) == orders ==>
                Orderly(Received(Flat(es, |fs|), x, y))
  {
    if Constant(orders, |orders|) {
      forall fs, ms, es | Run(fs, ms, es) && OrdersOf(fs, x, y) == orders
        ensures Orderly(Received(Flat(es, |fs|), x, y))
      {
        OrderlyInOneOrder(fs, ms, es, x, y, orders);
      }
    } else {
      var fs, ms, es := ChangeHappens(x, y, orders);
    }
  }

  /** Some run in the given orders is not orderly, if they are not all the same. */
  lemma ChangeHappens(x: U32, y: U32, orders: seq<Order>)
      returns (fs: seq<Frame>, ms: seq<map<nat, bool>>, es: seq<seq<Event>>)
    requires x != y && !Constant(orders, |orders|)
    ensures Run(fs, ms, es) && OrdersOf(fs, x, y) == orders && !Orderly(Received(Flat(es, |fs|), x, y))
  {
    fs, ms, es := ComparisonsHappen(Touching(orders), x, y);
    ChangeIsDisorder(orders);
    TouchingOrders(fs, x, y, orders);
  }

  lemma TouchingOrders(fs: seq<Frame>, x: U32, y: U32, orders: seq<Order>)
    requires Comparisons(fs, x, y) == Touching(orders)
    ensures OrdersOf(fs, x, y) == orders
  {
    assert |fs| == |Comparisons(fs, x, y)| == |orders|;
    assert forall i :: 0 <= i < |fs| ==> ComparisonOf(fs[i], x, y) == Comparisons(fs, x, y)[i] == Touching(orders)[i];
  }

  lemma OrderlyInOneOrder(fs: seq<Frame>, ms: seq<map<nat, bool>>, es: seq<seq<Event>>, x: U32, y: U32,
                          orders: seq<Order>)
    requires Run(fs, ms, es) && x != y && orders == OrdersOf(fs, x, y) && Constant(orders, |orders|)
    ensures Orderly(Received(Flat(es, |fs|), x, y))
  {
    var first := exists i :: 0 <= i < |orders| && orders[i] == Met(true);
    forall i | 0 <= i < |fs| && ComparisonOf(fs[i], x, y).Seen?
      ensures ComparisonOf(fs[i], x, y).xFirst == first
    {
      assert orders[i].Met?;
    }
    RunIsOrderly(fs, ms, es, x, y, first);
  }
}
