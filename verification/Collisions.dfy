/** The scene's collision check: pairs of colliders are compared each frame, and
    both objects are told when they enter, stay in or leave contact. */
module Collisions {
  import opened Arithmetic
  import opened Folds
  import opened Unsigned

  datatype Kind = Enter | Stay | Exit

  /** A call of one object's handler with the other as argument. */
  datatype Event = Event(kind: Kind, receiver: U32, other: U32)

  datatype Collider = Collider(id: U32, active: bool)

  /** What one frame brings: the colliders in their order, and which of them intersect. */
  datatype Frame = Frame(colliders: seq<Collider>, touching: set<(U32, U32)>)

  /** A pair of places (named so that it can serve as a trigger). */
  predicate Ordered(i: nat, j: nat) {
    i < j
  }

  /** Every collider has an id of its own. */
  ghost predicate Distinct(f: Frame) {
    forall i: nat, j: nat {:trigger Ordered(i, j)} :: Ordered(i, j) && j < |f.colliders| ==>
        f.colliders[i].id != f.colliders[j].id
  }

  lemma OtherId(f: Frame, i: nat, j: nat)
    requires Distinct(f) && i < |f.colliders| && j < |f.colliders|
    ensures f.colliders[i].id == f.colliders[j].id ==> i == j
  {
    assert i < j ==> Ordered(i, j);
    assert j < i ==> Ordered(j, i);
  }

  lemma OtherIds(f: Frame, i: nat)
    requires Distinct(f) && i < |f.colliders|
    ensures forall k :: 0 <= k < |f.colliders| && k != i ==> f.colliders[k].id != f.colliders[i].id
  {
    forall k | 0 <= k < |f.colliders| && k != i
      ensures f.colliders[k].id != f.colliders[i].id
    {
      OtherId(f, k, i);
    }
  }

  /** The two ids of a pair, read as one 64-bit number. */
  function Key(left: U32, right: U32): nat {
    left + 0x1_0000_0000 * right
  }

  lemma KeyInjective(l: U32, r: U32, l': U32, r': U32)
    ensures Key(l, r) == Key(l', r') <==> l == l' && r == r'
  {
    if Key(l, r) == Key(l', r') {
      DivModUnique(Key(l, r), 0x1_0000_0000, r, l);
      DivModUnique(Key(l', r'), 0x1_0000_0000, r', l');
    }
  }

  /** Whether a pair is registered as touching. */
  predicate Look(m: map<nat, bool>, l: U32, r: U32) {
    Key(l, r) in m && m[Key(l, r)]
  }

  /** Colliders i and j are compared: both are active. */
  predicate Compared(f: Frame, i: nat, j: nat) {
    i < j < |f.colliders| && f.colliders[i].active && f.colliders[j].active
  }

  predicate Touch(f: Frame, i: nat, j: nat)
    requires i < j < |f.colliders|
  {
    (f.colliders[i].id, f.colliders[j].id) in f.touching
  }

  /** What a comparison tells each of the two. */
  function Told(was: bool, now: bool): seq<Kind> {
    if now then if was then [Stay] else [Enter] else if was then [Exit] else []
  }

  function Both(kinds: seq<Kind>, l: U32, r: U32): seq<Event>
    requires |kinds| <= 1
  {
    if kinds == [] then [] else [Event(kinds[0], l, r), Event(kinds[0], r, l)]
  }

  /** The events of collider i's comparisons with those before j, given what was
      registered before the frame. */
  function RowEvents(f: Frame, m: map<nat, bool>, i: nat, j: nat): seq<Event>
    requires i < |f.colliders| && j <= |f.colliders|
  {
    if j <= i + 1 then []
    else
      var before, l, r := RowEvents(f, m, i, j - 1), f.colliders[i].id, f.colliders[j - 1].id;
      if Compared(f, i, j - 1) then before + Both(Told(Look(m, l, r), Touch(f, i, j - 1)), l, r) else before
  }

  /** The events of a frame, row by row. */
  function Rows(f: Frame, m: map<nat, bool>): seq<seq<Event>> {
    seq(|f.colliders|, i requires 0 <= i < |f.colliders| => RowEvents(f, m, i, |f.colliders|))
  }

  function RowMap(f: Frame, m: map<nat, bool>, i: nat, j: nat): map<nat, bool>
    requires i < |f.colliders| && j <= |f.colliders|
  {
    if j <= i + 1 then m
    else
      var before := RowMap(f, m, i, j - 1);
      if Compared(f, i, j - 1) then before[Key(f.colliders[i].id, f.colliders[j - 1].id) := Touch(f, i, j - 1)]
          else before
  }

  function MapBefore(f: Frame, m: map<nat, bool>, i: nat): map<nat, bool>
    requires i <= |f.colliders|
  {
    if i == 0 then m else RowMap(f, MapBefore(f, m, i - 1), i - 1, |f.colliders|)
  }

  /** A row does not touch what is registered for other pairs. */
  lemma {:induction false} RowKeeps(f: Frame, m: map<nat, bool>, i: nat, j: nat, l: U32, r: U32)
    requires i < |f.colliders| && j <= |f.colliders|
    requires l != f.colliders[i].id || forall k :: i < k < j ==> r != f.colliders[k].id
    ensures Look(RowMap(f, m, i, j), l, r) == Look(m, l, r)
  {
    if j > i + 1 {
      RowKeeps(f, m, i, j - 1, l, r);
      KeyInjective(l, r, f.colliders[i].id, f.colliders[j - 1].id);
    }
  }

  lemma {:induction false} RowsKeep(f: Frame, m: map<nat, bool>, i: nat, l: U32, r: U32)
    requires i <= |f.colliders| && forall k :: 0 <= k < i ==> l != f.colliders[k].id
    ensures Look(MapBefore(f, m, i), l, r) == Look(m, l, r)
  {
    if i > 0 {
      RowsKeep(f, m, i - 1, l, r);
      RowKeeps(f, MapBefore(f, m, i - 1), i - 1, |f.colliders|, l, r);
    }
  }

  /** When a pair is compared, what is registered for it is from before the frame. */
  lemma NotYetCompared(f: Frame, m: map<nat, bool>, i: nat, j: nat)
    requires Distinct(f) && i < j < |f.colliders|
    ensures Look(RowMap(f, MapBefore(f, m, i), i, j), f.colliders[i].id, f.colliders[j].id)
            == Look(m, f.colliders[i].id, f.colliders[j].id)
  {
    OtherIds(f, i);
    OtherIds(f, j);
    RowKeeps(f, MapBefore(f, m, i), i, j, f.colliders[i].id, f.colliders[j].id);
    RowsKeep(f, m, i, f.colliders[i].id, f.colliders[j].id);
  }

  class Scene {
    var mapColInfo: map<nat, bool>
    ghost var delivered: seq<Event>

    constructor ()
      ensures mapColInfo == map[] && delivered == []
    {
      mapColInfo, delivered := map[], [];
    }

    /** Compare every pair of active colliders. */
    method CheckCollision(f: Frame)
      requires Distinct(f)
      modifies this
      ensures mapColInfo == MapBefore(f, old(mapColInfo), |f.colliders|)
      ensures delivered == old(delivered) + Flat(Rows(f, old(mapColInfo)), |f.colliders|)
    {
      ghost var m, log := mapColInfo, delivered;
      var colliders := f.colliders;
      var idx := 0;
      while idx < |colliders|
        invariant idx <= |colliders|
        invariant mapColInfo == MapBefore(f, m, idx) && delivered == log + Flat(Rows(f, m), idx)
      {
        CheckRow(f, idx, m, log);
        idx := idx + 1;
      }
    }

    /** Compare collider idx with the later ones. */
    method CheckRow(f: Frame, idx: nat, ghost m: map<nat, bool>, ghost log: seq<Event>)
      requires Distinct(f) && idx < |f.colliders|
      requires mapColInfo == MapBefore(f, m, idx) && delivered == log + Flat(Rows(f, m), idx)
      modifies this
      ensures mapColInfo == MapBefore(f, m, idx + 1) && delivered == log + Flat(Rows(f, m), idx + 1)
    {
      ghost var m0, log0 := mapColInfo, delivered;
      var colliders := f.colliders;
      if !colliders[idx].active {
        IdleRow(f, m, idx, |colliders|);
        IdleRow(f, m0, idx, |colliders|);
        return;
      }
      var jdx := idx + 1;
      while jdx < |colliders|
        invariant idx < jdx <= |colliders|
        invariant mapColInfo == RowMap(f, m0, idx, jdx) && delivered == log0 + RowEvents(f, m, idx, jdx)
      {
        var other := colliders[jdx];
        if other.active {
          NotYetCompared(f, m, idx, jdx);
          Compare(colliders[idx].id, other.id, (colliders[idx].id, other.id) in f.touching);
        }
        jdx := jdx + 1;
      }
    }

    /** Compare two active colliders: register what is found, and tell both. */
    method Compare(l: U32, r: U32, intersects: bool)
      modifies this
      ensures mapColInfo == old(mapColInfo)[Key(l, r) := intersects]
      ensures delivered == old(delivered) + Both(Told(Look(old(mapColInfo), l, r), intersects), l, r)
    {
      var id := Key(l, r);
      if id !in mapColInfo {
        mapColInfo := mapColInfo[id := false];
      }
      if intersects {
        if !mapColInfo[id] {
          Deliver(Enter, l, r);
          Deliver(Enter, r, l);
          mapColInfo := mapColInfo[id := true];
        } else {
          Deliver(Stay, l, r);
          Deliver(Stay, r, l);
        }
      } else {
        if mapColInfo[id] {
          Deliver(Exit, l, r);
          Deliver(Exit, r, l);
          mapColInfo := mapColInfo[id := false];
        }
      }
    }

    /** Call a handler of the receiver's object. */
    method Deliver(kind: Kind, receiver: U32, other: U32)
      modifies this`delivered
      ensures delivered == old(delivered) + [Event(kind, receiver, other)]
    {
      delivered := delivered + [Event(kind, receiver, other)];
    }
  }

  lemma {:induction false} IdleRow(f: Frame, m: map<nat, bool>, i: nat, j: nat)
    requires i < |f.colliders| && j <= |f.colliders| && !f.colliders[i].active
    ensures RowEvents(f, m, i, j) == [] && RowMap(f, m, i, j) == m
  {
    if j > i + 1 {
      IdleRow(f, m, i, j - 1);
    }
  }
}
