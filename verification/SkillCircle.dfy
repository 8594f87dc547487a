/** The skill circle's double buffer: contacts are collected during the collision
    phase and published when the frame ends. */
module SkillCircle {
  import opened Unsigned

  /** The circle's fields. */
  datatype Circle = Circle(damageFlag: bool, objects: set<U32>, snapshot: set<U32>)

  class BiancaESkillCircle {
    var damageFlag: bool
    var objects: set<U32>
    var collisionSnapshot: set<U32>

    constructor ()
      ensures Value() == Circle(false, {}, {})
    {
      damageFlag, objects, collisionSnapshot := false, {}, {};
    }

    function Value(): Circle
      reads this
    {
      Circle(damageFlag, objects, collisionSnapshot)
    }

    method LateUpdate()
      modifies this
      ensures Value() == Published(old(Value()))
      ensures Value() == Circle(old(damageFlag), {}, old(objects))
    {
      collisionSnapshot, objects := objects, collisionSnapshot;
      objects := {};
    }

    method OnCollision(other: U32)
      modifies this
      ensures Value() == Collected(old(Value()), [other], 1)
      ensures Value() == Circle(old(damageFlag), old(objects) + if old(damageFlag) then {other} else {},
                                old(collisionSnapshot))
    {
      if damageFlag {
        objects := objects + {other};
      }
    }

    method DamageFlag(value: bool)
      modifies this
      ensures Value() == Acted(old(Value()), [SetFlag(value)], 1)
      ensures Value() == Circle(value, {}, {})
    {
      damageFlag := value;
      objects := {};
      collisionSnapshot := {};
    }

    method GetCollisionObjects() returns (seen: set<U32>)
      ensures seen == Value().snapshot && seen == collisionSnapshot
    {
      seen := collisionSnapshot;
    }
  }

  /** What components do to the circle while they update, in the order in which
      they update. */
  datatype Action = Read | SetFlag(value: bool)

  /** The circle after the first n actions. */
  function Acted(c: Circle, actions: seq<Action>, n: nat): Circle
    requires n <= |actions|
  {
    if n == 0 then c
    else match actions[n - 1]
      case Read => Acted(c, actions, n - 1)
      case SetFlag(v) => Circle(v, {}, {})
  }

  /** The circle after the first n contacts of the collision phase. */
  function Collected(c: Circle, contacts: seq<U32>, n: nat): Circle
    requires n <= |contacts|
  {
    if n == 0 then c
    else
      var before := Collected(c, contacts, n - 1);
      if before.damageFlag then before.(objects := before.objects + {contacts[n - 1]}) else before
  }

  function Published(c: Circle): Circle {
    Circle(c.damageFlag, {}, c.objects)
  }

  /** One frame: updates, collision phase, late update. */
  function Framed(c: Circle, actions: seq<Action>, contacts: seq<U32>): Circle {
    var updated := Acted(c, actions, |actions|);
    Published(Collected(updated, contacts, |contacts|))
  }

  /** What a component sees that reads the snapshot after the first n actions of a frame. */
  function Seen(c: Circle, actions: seq<Action>, n: nat): set<U32>
    requires n <= |actions|
  {
    Acted(c, actions, n).snapshot
  }

  function SetOf(contacts: seq<U32>, n: nat): set<U32>
    requires n <= |contacts|
  {
    set i | 0 <= i < n :: contacts[i]
  }

  ghost predicate NoFlagSet(actions: seq<Action>, n: nat)
    requires n <= |actions|
  {
    forall i :: 0 <= i < n ==> actions[i].Read?
  }

  lemma {:induction false} ReadsKeep(c: Circle, actions: seq<Action>, n: nat)
    requires n <= |actions|
    ensures Acted(c, actions, n).snapshot == if NoFlagSet(actions, n) then c.snapshot else {}
    ensures c.objects == {} ==> Acted(c, actions, n).objects == {}
  {
    if n > 0 {
      ReadsKeep(c, actions, n - 1);
    }
  }

  /** The flag is as it was last set, or as it was before. */
  lemma {:induction false} FlagAsLastSet(c: Circle, actions: seq<Action>, n: nat, k: nat)
    requires n <= |actions|
    ensures NoFlagSet(actions, n) ==> Acted(c, actions, n).damageFlag == c.damageFlag
    ensures k < n && actions[k].SetFlag? && (forall i :: k < i < n ==> actions[i].Read?) ==>
              Acted(c, actions, n).damageFlag == actions[k].value
  {
    if n > 0 {
      FlagAsLastSet(c, actions, n - 1, k);
    }
  }

  lemma {:induction false} CollectsContacts(c: Circle, contacts: seq<U32>, n: nat)
    requires n <= |contacts|
    ensures Collected(c, contacts, n).damageFlag == c.damageFlag
    ensures Collected(c, contacts, n).objects == if c.damageFlag then c.objects + SetOf(contacts, n) else c.objects
  {
    if n > 0 {
      CollectsContacts(c, contacts, n - 1);
      assert SetOf(contacts, n) == SetOf(contacts, n - 1) + {contacts[n - 1]};
    }
  }

  /** Between frames no contact is pending: none older than a frame survives. */
  lemma FramePublishes(c: Circle, actions: seq<Action>, contacts: seq<U32>)
    requires c.objects == {}
    ensures var next := Framed(c, actions, contacts);
            next.objects == {}
            && next.snapshot == if Acted(c, actions, |actions|).damageFlag then SetOf(contacts, |contacts|) else {}
  {
    ReadsKeep(c, actions, |actions|);
    CollectsContacts(Acted(c, actions, |actions|), contacts, |contacts|);
  }

  /** What a component sees in the next frame after n of its actions. */
  lemma SeenNext(c: Circle, actions: seq<Action>, contacts: seq<U32>, next: seq<Action>, n: nat)
    requires c.objects == {} && n <= |next|
    ensures Seen(Framed(c, actions, contacts), next, n)
         == if Acted(c, actions, |actions|).damageFlag && NoFlagSet(next, n) then SetOf(contacts, |contacts|) else {}
  {
    FramePublishes(c, actions, contacts);
    ReadsKeep(Framed(c, actions, contacts), next, n);
  }

  /** A component sees exactly the contacts of the frame before, whatever they are,
      if and only if the flag was set in that frame's collision phase and nothing
      has set it anew before the component's turn. */
  lemma SeesContactsIff(c: Circle, actions: seq<Action>, next: seq<Action>, n: nat)
    requires c.objects == {} && n <= |next|
    ensures (forall contacts: seq<U32> {:trigger Framed(c, actions, contacts)} ::
              Seen(Framed(c, actions, contacts), next, n) == SetOf(contacts, |contacts|))
       <==> Acted(c, actions, |actions|).damageFlag && NoFlagSet(next, n)
  {
    forall contacts: seq<U32>
      ensures Seen(Framed(c, actions, contacts), next, n)
           == if Acted(c, actions, |actions|).damageFlag && NoFlagSet(next, n) then SetOf(contacts, |contacts|) else {}
    {
      SeenNext(c, actions, contacts, next, n);
    }
    var one: seq<U32> := [0];
    assert one[0] in SetOf(one, |one|);
    assert Seen(Framed(c, actions, one), next, n)
        == if Acted(c, actions, |actions|).damageFlag && NoFlagSet(next, n) then SetOf(one, |one|) else {};
  }
}

/** The circle in a run of the scene: what its snapshot holds in terms of overlaps. */
module CircleInScene {
  import opened Unsigned
  import opened Collisions
  import opened CollisionRuns
  import opened SkillCircle

  /** The objects with which OnCollision of x's object is called, in order. */
  function Contacts(es: seq<Event>, x: U32, n: nat): seq<U32>
    requires n <= |es|
  {
    if n == 0 then []
    else
      var before, e := Contacts(es, x, n - 1), es[n - 1];
      if e.kind == Stay && e.receiver == x then before + [e.other] else before
  }

  lemma {:induction false} ContactsReceived(es: seq<Event>, x: U32, y: U32, n: nat)
    requires n <= |es|
    ensures y in Contacts(es, x, n) <==> Stay in Received(es[..n], x, y)
  {
    if n > 0 {
      ContactsReceived(es, x, y, n - 1);
      assert es[..n][..n - 1] == es[..n - 1];
    }
  }

  /** x and y overlap in frame k and overlapped when they were last compared before, in that order. */
  ghost predicate StayInTouch(fs: seq<Frame>, k: nat, x: U32, y: U32)
    requires k < |fs|
  {
    var c := ComparisonOf(fs[k], x, y);
    c.Seen? && c.touching && Last(Comparisons(fs, x, y), k, c.xFirst)
  }

  lemma StayReceivedIff(fs: seq<Frame>, ms: seq<map<nat, bool>>, es: seq<seq<Event>>, k: nat, x: U32, y: U32)
    requires Run(fs, ms, es) && k < |fs| && x != y
    ensures Stay in Received(es[k], x, y) <==> StayInTouch(fs, k, x, y)
  {
    var c := ComparisonOf(fs[k], x, y);
    RunRegisters(fs, ms, es, k, x, y);
    assert Plays(fs, ms, es, k);
    OneFrame(fs[k], ms[k], x, y, c);
  }

  /** Whatever order components update in, what they see of the circle x in frame
      k+1 are exactly the objects that overlapped it in frame k and when they were
      last compared before, provided the flag was on and is not set anew. */
  lemma SnapshotHolds(fs: seq<Frame>, ms: seq<map<nat, bool>>, es: seq<seq<Event>>, k: nat, x: U32, y: U32,
                      c: Circle, actions: seq<Action>, next: seq<Action>, n: nat)
    requires Run(fs, ms, es) && k < |fs| && x != y
    requires c.objects == {} && Acted(c, actions, |actions|).damageFlag && n <= |next| && NoFlagSet(next, n)
    ensures y in SkillCircle.Seen(Framed(c, actions, Contacts(es[k], x, |es[k]|)), next, n)
            <==> StayInTouch(fs, k, x, y)
  {
    var contacts := Contacts(es[k], x, |es[k]|);
    SeenNext(c, actions, contacts, next, n);
    ContactsReceived(es[k], x, y, |es[k]|);
    assert es[k][..|es[k]|] == es[k];
    StayReceivedIff(fs, ms, es, k, x, y);
    assert y in SetOf(contacts, |contacts|) <==> y in contacts;
  }
}
