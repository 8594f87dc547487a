/** When the packer can run out of nodes. Rounding widths up to a multiple of the
    alignment is meant to rule it out for any number of nodes; it does not, since
    only the search sees the rounded width and the surgery cuts at the real one. */
module NodeShortage {
  import opened Columns
  import opened Outline
  import opened Choice
  import opened Packer
  import opened PackerRuns
  import opened NodeSupply
  import opened Floor
  import opened Overshoot

  /** A target as initialised, under the given heuristic. */
  function Start(width: nat, height: nat, nodes: nat, allowOutOfMem: bool, bestFit: bool): Target
    requires 0 < nodes
  {
    Initial(width, height, nodes, allowOutOfMem).(bestFit := bestFit)
  }

  /** The target after unit blocks have been put at columns 0 .. k-1. */
  ghost function Stage(t: Target, k: nat): Target {
    t.(outline := seq(k, i => Step(i, 1)) + [Step(k, 0), Step(t.width, SENTINEL_Y)])
  }

  lemma StageReady(t: Target, k: nat)
    requires 0 < t.height < SENTINEL_Y && 0 < t.align && k <= t.nodes && 0 < t.nodes && k < t.width
    ensures Ready(Stage(t, k)) && FloorLast(Stage(t, k).outline) && |Stage(t, k).outline| == k + 2
    ensures forall c :: 0 <= c < t.width ==> Cols(Stage(t, k))[c] == if c < k then 1 else 0
  {
    var o := Stage(t, k).outline;
    assert forall i :: 0 <= i < |o| - 1 ==> o[i] == Step(i, if i < k then 1 else 0);
    forall c | 0 <= c < t.width
      ensures Cols(Stage(t, k))[c] == if c < k then 1 else 0
    {
      var i := IndexAt(o, t.width, c);
      assert i < k ==> o[i + 1].x == i + 1;
    }
  }

  lemma AlignUpOne(align: nat)
    requires 0 < align
    ensures AlignUp(1, align) == align
  {
  }

  /** The next unit block goes to column k, on the floor, under either heuristic. */
  lemma UnitRequest(t: Target, k: nat)
    requires 0 < t.height < SENTINEL_Y && 0 < t.align && k < t.nodes && k + t.align <= t.width && k + 1 < t.width
    ensures Ready(Stage(t, k)) && Request(Stage(t, k), 1, 1, At(k, 0), Stage(t, k + 1))
  {
    StageReady(t, k);
    AlignUpOne(t.align);
    assert Stage(t, k + 1).outline == OnFloor(Stage(t, k), 1, 1, k).outline;
    FloorRequest(Stage(t, k), 1, 1, k, Stage(t, k + 1));
  }

  ghost function Units(k: nat): (es: seq<Event>) {
    seq(k, i => Event(1, 1, At(i, 0)))
  }

  lemma UnitsSnoc(k: nat)
    ensures Units(k + 1) == Units(k) + [Event(1, 1, At(k, 0))]
  {
  }

  lemma UnitRunStep(t: Target, start: Target, k: nat)
    requires 0 < t.height < SENTINEL_Y && 0 < t.align && k < t.nodes && k + t.align <= t.width
    requires k + 1 < t.width
    requires Ready(start) && Run(start, Units(k), Stage(t, k))
    ensures Run(start, Units(k + 1), Stage(t, k + 1))
  {
    UnitRequest(t, k);
    UnitsSnoc(k);
    RunSnoc(start, Units(k), Stage(t, k), Event(1, 1, At(k, 0)), Stage(t, k + 1));
  }

  lemma {:induction false} UnitRun(t: Target, k: nat)
    requires 0 < t.height < SENTINEL_Y && 0 < t.align
    requires 0 < t.nodes < t.width && t.nodes - 1 + t.align <= t.width && k <= t.nodes
    ensures Ready(Stage(t, 0)) && Run(Stage(t, 0), Units(k), Stage(t, k))
  {
    StageReady(t, 0);
    if k == 0 {
      assert Units(0) == [];
    } else {
      UnitRun(t, k - 1);
      UnitRunStep(t, Stage(t, 0), k - 1);
    }
  }

  /** Under either heuristic a node is free after every run on a fresh target if and
      only if there is a node for every column; quantising the widths changes nothing
      about it. */
  lemma NodesSufficeIff(width: nat, height: nat, nodes: nat, allowOutOfMem: bool, bestFit: bool)
    requires 0 < width && 0 < height < SENTINEL_Y && 0 < nodes
    ensures Ready(Start(width, height, nodes, allowOutOfMem, bestFit))
    ensures nodes >= width <==>
            forall es, t' :: Run(Start(width, height, nodes, allowOutOfMem, bestFit), es, t') ==>
              |t'.outline| < nodes + 2
  {
    var t := Start(width, height, nodes, allowOutOfMem, bestFit);
    AlignmentOne(width, nodes);
    assert Stage(t, 0) == t;
    StageReady(t, 0);
    if nodes >= width {
      forall es, t' | Run(t, es, t')
        ensures |t'.outline| < nodes + 2
      {
        EnoughNodes(t, es, t');
      }
    } else {
      RoomForUnits(width, nodes, allowOutOfMem);
      UnitRun(t, nodes);
      assert Run(t, Units(nodes), Stage(t, nodes));
      StageReady(t, nodes);
    }
  }

  lemma UnitHasRoom(t: Target, k: nat)
    requires 1 < t.height < SENTINEL_Y && 0 < t.align <= t.width && 0 < k <= t.nodes && k < t.width
    ensures Ready(Stage(t, k)) && HasRoom(Stage(t, k), 1, 1)
  {
    StageReady(t, k);
    AlignUpOne(t.align);
    var cols := Cols(Stage(t, k));
    assert cols[0] == 1;
    HighestBounds(cols, 0, t.align, 1);
    assert Fits(cols, AlignUp(1, t.align), 1, t.height, 0);
  }

  /** With too few nodes, a run of unit blocks, under either heuristic, ends where a
      block that has room is refused all the same. */
  lemma RefusedThoughRoom(width: nat, height: nat, nodes: nat, allowOutOfMem: bool, bestFit: bool)
    requires 0 < nodes < width && 1 < height < SENTINEL_Y
    ensures var t := Start(width, height, nodes, allowOutOfMem, bestFit);
            var full := Stage(t, nodes);
            && Ready(t) && Run(t, Units(nodes), full) && Ready(full)
            && HasRoom(full, 1, 1)
            && forall r, t' :: Request(full, 1, 1, r, t') ==> r == Refused
  {
    var t := Start(width, height, nodes, allowOutOfMem, bestFit);
    RoomForUnits(width, nodes, allowOutOfMem);
    UnitRun(t, nodes);
    assert Stage(t, 0) == t;
    UnitHasRoom(t, nodes);
    forall r, t' | Request(Stage(t, nodes), 1, 1, r, t')
      ensures r == Refused
    {
      StageReady(t, nodes);
    }
  }
}
