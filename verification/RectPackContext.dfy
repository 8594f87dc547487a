/** The packer itself: a chain of nodes that is cut and re-stitched in place, and
    a free list, tied step by step to the outline. */
module RectPack {
  import opened Columns
  import opened Outline
  import opened Search
  import opened Choice
  import opened Placement
  import opened Packer
  import opened PackerRuns
  import opened NodeSupply
  import opened Searched
  import opened NodeChain
  import opened Floor

  /** A place that holds a link to a node: the context's active_head or a node's next. */
  datatype Link = NoLink | HeadLink | NextOf(node: Node)

  /** What a search has found so far: the link to the node the block goes over,
      its place, and the waste there. */
  datatype FindResult = FindResult(link: Link, x: int, y: int, waste: int)

  class Context {
    var width: int
    var height: int
    var align: int
    var bestFit: bool
    var numNodes: int
    var activeHead: Node?
    var freeHead: Node?
    const extra0: Node
    const extra1: Node
    ghost var active: seq<Node>
    ghost var free: seq<Node>
    ghost var placed: set<Box>

    constructor ()
      ensures fresh(extra0) && fresh(extra1) && extra0 != extra1
    {
      extra0 := new Node();
      extra1 := new Node();
      width, height, align, bestFit, numNodes := 0, 0, 0, false, 0;
      activeHead, freeHead, active, free, placed := null, null, [], [], {};
    }

    /** The chains are what the ghost sequences say, and share no node. */
    ghost predicate Chains()
      reads this, active, free
    {
      && Chain(activeHead, active) && Chain(freeHead, free)
      && NoDuplicates(active + free)
      && |active| + |free| == numNodes + 2
    }

    ghost predicate Settings()
      reads this
    {
      0 < width <= 0x7fff_ffff && 0 <= height && 0 < align && 0 < numNodes
    }

    ghost function Setup(): (int, int, int, int, bool)
      reads `width, `height, `align, `numNodes, `bestFit
    {
      (width, height, align, numNodes, bestFit)
    }

    ghost function State(): Target
      requires Settings()
      reads this, active
    {
      Target(width, height, align, numNodes, bestFit, OutlineOf(active))
    }

    ghost predicate Valid()
      reads this, active, free
    {
      Settings() && Chains() && Ready(State()) && FloorLast(State().outline) && Packed(placed, State())
    }

    /** Start on a target of the given size, with `nodes` as the free nodes. */
    method InitTarget(width: int, height: int, nodes: seq<Node>)
      requires 0 < width <= 0x7fff_ffff && 0 <= height < SENTINEL_Y && 0 < |nodes|
      requires NoDuplicates([extra0, extra1] + nodes)
      modifies this, nodes, extra0, extra1
      ensures Valid()
      ensures State() == Initial(width, height, |nodes|, false)
      ensures placed == {} && active == [extra0, extra1] && free == nodes
      ensures this.width == width && this.height == height && numNodes == |nodes| && bestFit == false
      ensures JustCovers(align, numNodes, width)
      ensures extra0.x == 0 && extra0.y == 0 && extra1.x == width && extra1.y == 0x4000_0000
    {
      Distinct([extra0, extra1], nodes);
      StillOnce([extra0, extra1], nodes);
      LinkUp(nodes);
      bestFit := false;
      freeHead := nodes[0];
      activeHead := extra0;
      this.width := width;
      this.height := height;
      numNodes := |nodes|;
      SetupAllowOutOfMem(false);
      placed := {};
      ghost var t := Initial(width, height, |nodes|, false);
      InitialReady(width, height, |nodes|);
      LayFloor(nodes, t);
      Established(t);
      FloorIs(t.outline, extra0, extra1);
    }

    lemma FloorIs(o: seq<Step>, first: Node, last: Node)
      requires o == OutlineOf([first, last])
      ensures o == [Step(first.x, first.y), Step(last.x, last.y)]
    {
    }

    lemma Established(t: Target)
      requires Settings() && Chains() && State() == t && Ready(t) && FloorLast(t.outline) && Packed(placed, t)
      ensures Valid()
    {
    }

    /** Node 0 is the full width, node 1 the sentinel. */
    method LayFloor(ghost nodes: seq<Node>, ghost t: Target)
      requires NoDuplicates([extra0, extra1] + nodes)
      requires Chain(freeHead, nodes) && activeHead == extra0 && numNodes == |nodes| && Settings()
      requires Setup() == (t.width, t.height, t.align, t.nodes, t.bestFit)
      requires t.outline == [Step(0, 0), Step(width, SENTINEL_Y)]
      modifies this`active, this`free, extra0, extra1
      ensures Chains() && active == [extra0, extra1] && free == nodes
      ensures Settings() && State() == t
    {
      Distinct([extra0, extra1], nodes);
      assert [extra0, extra1][0] != [extra0, extra1][1];
      extra0.x, extra0.y, extra0.next := 0, 0, extra1;
      extra1.x, extra1.y, extra1.next := width, SENTINEL_Y, null;
      active, free := [extra0, extra1], nodes;
      assert OutlineOf(active) == [Step(0, 0), Step(width, SENTINEL_Y)];
    }

    method SetupAllowOutOfMem(allowOutOfMem: bool)
      requires 0 < width && 0 < numNodes
      modifies this`align
      ensures align == Alignment(width, numNodes, allowOutOfMem) && 0 < align
      ensures if allowOutOfMem then align == 1 else JustCovers(align, numNodes, width)
      ensures old(Valid()) ==> Valid()
    {
      AlignmentOne(width, numNodes);
      if allowOutOfMem {
        align := 1;
      } else {
        align := (width + numNodes - 1) / numNodes;
        AlignmentCovers(width, numNodes);
      }
    }

    method SetupHeuristic(bestFit: bool)
      modifies this`bestFit
      ensures this.bestFit == bestFit
      ensures old(Valid()) ==> Valid()
    {
      this.bestFit := bestFit;
    }

    /** The link that leads to the active node number k. */
    ghost function LinkTo(k: nat): Link
      reads this
    {
      if 0 < k <= |active| then NextOf(active[k - 1]) else HeadLink
    }

    /** What a pass that found b keeps. */
    ghost function ResultOf(b: Best): FindResult
      reads this
    {
      match b
      case Nothing => FindResult(NoLink, 0, SENTINEL_Y, SENTINEL_Y)
      case Found(k, x, y, waste) => FindResult(LinkTo(k), x, y, waste)
    }

    /** The pass over the left edges; n is where it stops. */
    method TryLeftEdges(w: nat, h: nat, ghost o: seq<Step>) returns (best: FindResult, ghost n: nat)
      requires 0 <= height && 0 < w <= width
      requires Chain(activeHead, active) && o == OutlineOf(active) && WellFormed(o, width, height)
      ensures 0 < n < |o| && o[n - 1].x + w <= width < o[n].x + w
      ensures best == ResultOf(LeftBest(o, bestFit, w, h, height, n))
    {
      best, n := FindResult(NoLink, 0, SENTINEL_Y, SENTINEL_Y), 0;
      var node, prev := activeHead, HeadLink;
      assert active[|active| - 1].x == o[|o| - 1].x == width;
      while node.x + w <= width
        invariant n < |o| && node == active[n] && prev == LinkTo(n)
        invariant n > 0 ==> o[n - 1].x + w <= width
        invariant !bestFit ==> best.waste == SENTINEL_Y
        invariant best == ResultOf(LeftBest(o, bestFit, w, h, height, n))
        decreases |o| - n
      {
        ghost var n' := n + 1;
        best := CompareLeft(w, h, o, n, n', node, prev, best);
        prev := NextOf(node);
        node := node.next;
        n := n';
      }
    }

    /** Whether the place at the left edge of `node`, to which `prev` leads, is better. */
    method CompareLeft(w: nat, h: nat, ghost o: seq<Step>, ghost n: nat, ghost n': nat, node: Node, prev: Link,
                       soFar: FindResult)
        returns (best: FindResult)
      requires 0 <= height && 0 < w <= width && n' == n + 1 < |active|
      requires Linked(active, 0) && o == OutlineOf(active) && WellFormed(o, width, height)
      requires node == active[n] && prev == LinkTo(n) && o[n].x + w <= width
      requires n > 0 ==> o[n - 1].x + w <= width
      requires soFar == ResultOf(LeftBest(o, bestFit, w, h, height, n)) && (!bestFit ==> soFar.waste == SENTINEL_Y)
      ensures best == ResultOf(LeftBest(o, bestFit, w, h, height, n')) && (!bestFit ==> best.waste == SENTINEL_Y)
    {
      best := soFar;
      var y, waste := FindMinY(active, n, node, node.x, w);
      if !bestFit {
        if y < best.y {
          best := FindResult(prev, node.x, y, best.waste);
        }
      } else {
        if y + h <= height {
          if y < best.y || (y == best.y && waste < best.waste) {
            best := FindResult(prev, node.x, y, waste);
          }
        }
      }
    }

    /** Best-fit's pass over the right edges, after the left-edge pass found b. */
    method TryRightEdges(w: nat, h: nat, ghost o: seq<Step>, ghost b: Best, ghost rs: seq<Best>, left: FindResult)
        returns (best: FindResult)
      requires 0 <= height && 0 < w <= width && bestFit
      requires Chain(activeHead, active) && o == OutlineOf(active) && WellFormed(o, width, height)
      requires rs == RightBests(o, w, h, height, b) && left == ResultOf(b)
      ensures best == ResultOf(rs[|o|])
    {
      best := left;
      var tail: Node?;
      ghost var j: nat;
      tail, j := FirstTail(w, h, o, b, rs);
      var node, prev := activeHead, HeadLink;
      ghost var i: nat := 0;
      while tail != null
        invariant j <= |o| && tail == if j < |o| then active[j] else null
        invariant i + 1 < |o| && node == active[i] && prev == LinkTo(i)
        invariant j < |o| ==> w <= o[j].x && o[i].x <= o[j].x - w
        invariant o == OutlineOf(active) && Linked(active, 0) && rs == RightBests(o, w, h, height, b)
        invariant best == ResultOf(rs[j])
        decreases |o| - j
      {
        best, node, prev, i := TryRightEdge(w, h, o, j, i, tail, node, prev, b, rs, best);
        assert j + 1 < |o| ==> tail.next == active[j + 1] && Before(o, j, j + 1);
        j := j + 1;
        assert best == ResultOf(rs[j]);
        tail := tail.next;
      }
    }

    /** The first node a block of width w can be pushed against from the left. */
    method FirstTail(w: nat, h: nat, ghost o: seq<Step>, ghost b: Best, ghost rs: seq<Best>)
        returns (tail: Node, ghost j: nat)
      requires 0 <= height && 0 < w <= width
      requires Chain(activeHead, active) && o == OutlineOf(active) && WellFormed(o, width, height)
      requires rs == RightBests(o, w, h, height, b)
      ensures j < |o| && tail == active[j] && w <= o[j].x && rs[j] == b
      ensures o == OutlineOf(active) && Linked(active, 0)
    {
      tail, j := activeHead, 0;
      while tail.x < w
        invariant j < |o| && tail == active[j] && rs[j] == b
        decreases |o| - j
      {
        assert j < |o| - 1 && active[j].next == active[j + 1];
        tail := tail.next;
        j := j + 1;
      }
    }

    /** One turn of that pass: the place that ends at `tail`; node0, to which
        prev0 leads, is not right of it. */
    method TryRightEdge(w: nat, h: nat, ghost o: seq<Step>, ghost j: nat, ghost k: nat, tail: Node, node0: Node,
                        prev0: Link,
                        ghost b: Best, ghost rs: seq<Best>, soFar: FindResult)
        returns (best: FindResult, node: Node, prev: Link, ghost i: nat)
      requires 0 <= width && 0 < w && bestFit
      requires Linked(active, 0) && o == OutlineOf(active) && Spans(o, width)
      requires j < |o| && tail == active[j] && w <= o[j].x
      requires k + 1 < |o| && node0 == active[k] && prev0 == LinkTo(k) && o[k].x <= o[j].x - w
      requires rs == RightBests(o, w, h, height, b) && soFar == ResultOf(rs[j])
      ensures best == ResultOf(rs[j + 1])
      ensures i + 1 < |o| && node == active[i] && prev == LinkTo(i) && o[i].x <= o[j].x - w
      ensures o == OutlineOf(active) && Linked(active, 0) && rs == RightBests(o, w, h, height, b)
    {
      EdgesInside(o, width, j);
      node, prev, i := FindLeft(o, node0, prev0, tail.x - w, k);
      assert rs[j + 1] == TryRight(o, w, h, height, j, rs[j]) by {
        RightBestNext(o, w, h, height, j, b);
      }
      best := CompareRight(w, h, o, j, i, tail.x - w, node, prev, rs[j], soFar);
      assert best == ResultOf(rs[j + 1]);
    }

    /** Whether the place xpos, under the node to which `prev` leads, is better. */
    method CompareRight(w: nat, h: nat, ghost o: seq<Step>, ghost j: nat, ghost i: nat, xpos: int, node: Node,
                        prev: Link,
                        ghost b: Best, soFar: FindResult)
        returns (best: FindResult)
      requires 0 <= width && 0 < w && bestFit
      requires Linked(active, 0) && o == OutlineOf(active) && Spans(o, width)
      requires j < |o| && 0 <= xpos && xpos + w == o[j].x <= width
      requires i + 1 < |o| && node == active[i] && prev == LinkTo(i) && o[i].x <= xpos < o[i + 1].x
      requires soFar == ResultOf(b)
      ensures best == ResultOf(TryRight(o, w, h, height, j, b))
    {
      OneStepPerColumn(o, xpos, i, IndexFrom(o, xpos, 0));
      assert active[|active| - 1].x == o[|o| - 1].x;
      best := soFar;
      var y, waste := FindMinY(active, i, node, xpos, w);
      if y + h <= height {
        if y <= best.y {
          if y < best.y || waste < best.waste || (waste == best.waste && xpos < best.x) {
            best := FindResult(prev, xpos, y, waste);
          }
        }
      }
    }

    /** The last active node, from node k on, at or left of xpos. */
    method FindLeft(ghost o: seq<Step>, node0: Node, prev0: Link, xpos: int, ghost k: nat)
        returns (node: Node, prev: Link, ghost i: nat)
      requires Linked(active, 0) && o == OutlineOf(active) && k + 1 < |o| && node0 == active[k] && prev0 == LinkTo(k)
      requires o[k].x <= xpos < o[|o| - 1].x
      ensures k <= i && i + 1 < |o| && node == active[i] && prev == LinkTo(i)
      ensures o[i].x <= xpos < o[i + 1].x
    {
      node, prev, i := node0, prev0, k;
      while node.next.x <= xpos
        invariant k <= i && i + 1 < |o| && node == active[i] && prev == LinkTo(i)
        invariant o[i].x <= xpos && node.next == active[i + 1]
        decreases |o| - i
      {
        prev := NextOf(node);
        node := node.next;
        i := i + 1;
      }
    }

    /** Where the heuristic puts a block of the given size, over active node k. */
    method FindBestPos(w: nat, h: nat) returns (fr: FindResult, ghost k: nat)
      requires Valid() && 0 < w
      ensures fr.link.NoLink? || fr.y + h > height ==> !HasRoom(State(), w, h)
      ensures !fr.link.NoLink? ==>
                && Chosen(State(), w, h, fr.x) && fr.x + AlignUp(w, align) <= width
                && k == IndexFrom(OutlineOf(active), fr.x, 0) && fr.link == LinkTo(k)
                && fr.y == Rest(Cols(State()), fr.x, AlignUp(w, align))
    {
      k := 0;
      var blockWidth := w + align - 1;
      blockWidth := blockWidth - blockWidth % align;
      assert blockWidth == AlignUp(w, align);
      if blockWidth > width || h > height {
        TooLarge(State(), w, h);
        return FindResult(NoLink, 0, 0, 0), 0;
      }
      ghost var n;
      fr, k, n := Search(blockWidth, h);
      FoundIsChosen(State(), w, h, n);
    }

    /** The passes of the heuristic in force, for a block already widened. */
    method Search(w: nat, h: nat) returns (fr: FindResult, ghost k: nat, ghost n: nat)
      requires Valid() && 0 < w <= width
      ensures 0 < n < |active| && OutlineOf(active)[n - 1].x + w <= width < OutlineOf(active)[n].x + w
      ensures var b := FoundBest(State(), w, h, n);
              fr == ResultOf(b) && (b.Found? ==> k == b.k)
    {
      ghost var o := OutlineOf(active);
      fr, n := TryLeftEdges(w, h, o);
      ghost var b := LeftBest(o, bestFit, w, h, height, n);
      if bestFit {
        ghost var rs := RightBests(o, w, h, height, b);
        fr := TryRightEdges(w, h, o, b, rs, fr);
        b := rs[|o|];
      }
      k := if b.Found? then b.k else 0;
    }

    /** Take the first node off the free list, and give it its place. */
    method TakeNode(ghost o: seq<Step>, x: int, y: int) returns (node: Node)
      requires Chains() && freeHead != null && Shows(active, o)
      modifies this`freeHead, this`free, free`x, free`y
      ensures Setup() == old(Setup())
      ensures old(free) == [node] + free && Chain(freeHead, free) && Chain(activeHead, active)
      ensures NoDuplicates(active + ([node] + free))
      ensures Shows(active, o) && node.x == x && node.y == y && |active| + |free| + 1 == numNodes + 2
    {
      Distinct(active, free);
      node := freeHead;
      node.x := x;
      node.y := y;
      freeHead := node.next;
      free := free[1..];
    }

    /** The chain leads over ns[0], .., ns[start-1] to node. */
    ghost predicate LeadsTo(ns: seq<Node>, start: nat, node: Node)
      requires start <= |ns|
      reads this, ns
    {
      && activeHead == (if start == 0 then node else ns[0])
      && (start > 0 ==> ns[start - 1].next == node)
      && forall i {:trigger ns[i].next} :: 0 <= i < start - 1 ==> ns[i].next == ns[i + 1]
    }

    /** Hang `node` into the chain at x, at or behind the node to which `link` leads. */
    method HangIn(link: Link, ghost k: nat, ghost o: seq<Step>, node: Node, x: int) returns (cur: Node)
      requires Chain(activeHead, active) && Chain(freeHead, free) && NoDuplicates(active + ([node] + free))
      requires k + 1 < |active| && link == LinkTo(k) && Shows(active, o)
      modifies this`activeHead, active`next
      ensures Setup() == old(Setup()) && LeadsTo(active, FirstCovered(o, k, x), node)
      ensures cur == active[FirstCovered(o, k, x)] && Linked(active, FirstCovered(o, k, x))
      ensures Chain(freeHead, free) && Shows(active, o)
      ensures freeHead == old(freeHead) && node.x == old(node.x) && node.y == old(node.y)
    {
      Distinct(active, [node] + free);
      assert forall i :: 0 <= i < |free| ==> ([node] + free)[i + 1] == free[i];
      cur := if link.NextOf? then link.node.next else activeHead;
      assert cur == active[k] && cur.next == active[k + 1];
      if cur.x < x {
        var next := cur.next;
        cur.next := node;
        cur := next;
      } else if link.NextOf? {
        link.node.next := node;
      } else {
        activeHead := node;
      }
    }

    /** Put a node on the free list. */
    method PutNode(node: Node)
      requires Chain(freeHead, free) && forall i :: 0 <= i < |free| ==> free[i] != node
      modifies this`freeHead, this`free, node`next
      ensures free == [node] + old(free) && Chain(freeHead, free)
    {
      node.next := freeHead;
      freeHead := node;
      free := [node] + free;
    }

    /** Move the nodes of ns, from node `start` on, that a block reaching r covers
        to the free list. */
    method FreeCovered(ghost ns: seq<Node>, ghost o: seq<Step>, ghost start: nat, first: Node, ghost node: Node, r: int)
        returns (cur: Node, ghost j: nat)
      requires start < |ns| && Shows(ns, o) && first == ns[start] && Linked(ns, start) && LeadsTo(ns, start, node)
      requires Chain(freeHead, free) && NoDuplicates(ns + ([node] + free))
      modifies this`freeHead, this`free, ns[start..]`next
      ensures j == SkipCovered(o, start, r) && cur == ns[j] && Linked(ns, j) && LeadsTo(ns, start, node)
      ensures free == Onto(ns, start, j, old(free)) && Chain(freeHead, free) && Shows(ns, o) && Setup() == old(Setup())
    {
      ghost var free0, end := free, SkipCovered(o, start, r);
      cur, j := first, start;
      while cur.next != null && cur.next.x <= r
        invariant start <= j < |ns| && cur == ns[j] && Linked(ns, j) && LeadsTo(ns, start, node)
        invariant SkipCovered(o, j, r) == end
        invariant free == Onto(ns, start, j, free0) && Chain(freeHead, free)
        decreases |ns| - j
      {
        ghost var j' := j + 1;
        assert cur.next == ns[j'] && cur.next.x == o[j'].x;
        assert SkipCovered(o, j', r) == end;
        cur := FreeOne(ns, start, j, j', cur, node, free0);
        j := j';
      }
    }

    /** Move node j of ns to the free list. */
    method FreeOne(ghost ns: seq<Node>, ghost start: nat, ghost j: nat, ghost j': nat, cur: Node, ghost node: Node,
                   ghost free0: seq<Node>)
        returns (next: Node)
      requires start <= j && j' == j + 1 < |ns| && cur == ns[j] && Linked(ns, j) && LeadsTo(ns, start, node)
               && cur.next == ns[j']
      requires Chain(freeHead, free) && NoDuplicates(ns + ([node] + free0)) && free == Onto(ns, start, j, free0)
      modifies this`freeHead, this`free, cur`next
      ensures next == ns[j'] && Linked(ns, j') && LeadsTo(ns, start, node)
      ensures free == Onto(ns, start, j', free0) && Chain(freeHead, free)
    {
      Distinct(ns, [node] + free0);
      assert forall i :: 0 <= i < |free0| ==> ([node] + free0)[i + 1] == free0[i];
      next := cur.next;
      OntoFresh(ns, start, j, free0);
      PutNode(cur);
    }

    /** Link `node` to `cur`, which starts at x1 at the earliest. */
    method LinkOn(ghost ns: seq<Node>, ghost o: seq<Step>, ghost start: nat, ghost j: nat, ghost top: Step, node: Node,
                  cur: Node, x1: int)
      requires start <= j < |ns| && Shows(ns, o) && cur == ns[j] && NoDuplicates(Replaced(ns, start, j, node) + free)
      requires LeadsTo(ns, start, node) && Linked(ns, j) && Chain(freeHead, free) && top == Step(node.x, node.y)
      modifies this`active, node`next, cur`x
      ensures active == Replaced(ns, start, j, node) && Chain(activeHead, active) && Chain(freeHead, free)
      ensures Shows(active, Sewn(o, start, j, top, x1)) && Setup() == old(Setup())
    {
      Distinct(Replaced(ns, start, j, node), free);
      ReplacedAt(ns, start, j, node, start);
      ReplacedAt(ns, start, j, node, start + 1);
      node.next := cur;
      if cur.x < x1 {
        cur.x := x1;
      }
      active := Replaced(ns, start, j, node);
    }

    /** Stitch the chain up again, from `node` on to `cur`. */
    method CloseUp(ghost ns: seq<Node>, ghost rest: seq<Node>, ghost o: seq<Step>, ghost start: nat, ghost j: nat,
                   ghost top: Step,
                   node: Node, cur: Node, x1: int)
      requires start <= j < |ns| && Shows(ns, o) && cur == ns[j]
      requires NoDuplicates(ns + ([node] + rest)) && free == Onto(ns, start, j, rest)
               && |ns| + |rest| + 1 == numNodes + 2
      requires LeadsTo(ns, start, node) && Linked(ns, j) && Chain(freeHead, free) && top == Step(node.x, node.y)
      modifies this`active, node`next, cur`x
      ensures Chains() && multiset(active + free) == multiset(ns + ([node] + rest))
      ensures Shows(active, Sewn(o, start, j, top, x1)) && Setup() == old(Setup())
    {
      Redistributed(ns, rest, node, start, j);
      StillNoDuplicates(ns + ([node] + rest), Replaced(ns, start, j, node) + free);
      LinkOn(ns, o, start, j, top, node, cur, x1);
    }

    /** Put a free node into the chain at x, over active node k. */
    method CutOpen(link: Link, ghost k: nat, ghost o: seq<Step>, x: int, top: int) returns (node: Node, cur: Node)
      requires Chains() && freeHead != null && Shows(active, o)
      requires k + 1 < |active| && link == LinkTo(k)
      modifies this`activeHead, this`freeHead, this`free, active`next, free`x, free`y
      ensures old(free) == [node] + free && Chain(freeHead, free) && NoDuplicates(active + ([node] + free))
      ensures Setup() == old(Setup()) && LeadsTo(active, FirstCovered(o, k, x), node)
      ensures cur == active[FirstCovered(o, k, x)] && Linked(active, FirstCovered(o, k, x))
      ensures Shows(active, o) && node.x == x && node.y == top && |active| + |free| + 1 == numNodes + 2
    {
      node := TakeNode(o, x, top);
      cur := HangIn(link, k, o, node, x);
    }

    /** Free the nodes a block reaching x1 covers and close the chain again. */
    method SewUp(ghost o: seq<Step>, ghost o': seq<Step>, ghost start: nat, ghost top: Step, first: Node, node: Node,
                 x1: int)
      requires Chain(freeHead, free) && NoDuplicates(active + ([node] + free))
      requires start < |active| && LeadsTo(active, start, node) && first == active[start] && Linked(active, start)
      requires Shows(active, o) && top == Step(node.x, node.y)
               && o' == Sewn(o, start, SkipCovered(o, start, x1), top, x1)
      requires |active| + |free| + 1 == numNodes + 2
      modifies this`freeHead, this`free, this`active, active`next, active`x, node`next
      ensures Shows(active, o') && Chains() && Setup() == old(Setup())
      ensures multiset(active + free) == old(multiset(active + ([node] + free)))
    {
      ghost var ns, rest := active, free;
      var cur;
      ghost var j;
      cur, j := FreeCovered(ns, o, start, first, node, x1);
      CloseUp(ns, rest, o, start, j, top, node, cur, x1);
    }

    /** Cut the chain open at x, put in a free node for a block of width w with its
        top at `top`, free the nodes it covers and stitch the chain up again. */
    method Stitch(link: Link, ghost k: nat, ghost o: seq<Step>, ghost o': seq<Step>, x: int, w: nat, top: int)
      requires Chains() && freeHead != null && Shows(active, o)
      requires k + 1 < |active| && link == LinkTo(k) && o' == Place(o, k, x, w, top)
      modifies this`activeHead, this`freeHead, this`active, this`free, active`x, active`next, free`x, free`y, free`next
      ensures Chains() && multiset(active + free) == old(multiset(active + free))
      ensures Shows(active, o') && Setup() == old(Setup())
    {
      PlaceIsSewn(o, k, x, w, top, o');
      var node, cur := CutOpen(link, k, o, x, top);
      SewUp(o, o', FirstCovered(o, k, x), Step(x, top), cur, node, x + w);
    }

    /** Whether and where a block can be placed; t is the state. */
    method Decide(ghost t: Target, w: nat, h: nat) returns (fr: FindResult, ghost k: nat)
      requires Valid() && t == State() && 0 < w && 0 < h
      ensures Valid() && t == State() && OutcomeOf(fr) == Next(t, w, h).outcome
      ensures !fr.link.NoLink? ==>
                && 0 <= fr.x < t.width && k == StepOver(t, fr.x) && fr.link == LinkTo(k) && freeHead != null
                && t.outline == OutlineOf(active) && Setup() == (t.width, t.height, t.align, t.nodes, t.bestFit)
    {
      fr, k := FindBestPos(w, h);
      if fr.link.NoLink? || fr.y + h > height || freeHead == null {
        RefusedResponse(t, w, h);
        fr := fr.(link := NoLink);
      } else {
        AcceptedResponse(t, w, h, fr.x, fr.y);
      }
    }

    /** Place a block, or refuse it and change nothing. */
    method PackRectangle(w: nat, h: nat) returns (fr: FindResult)
      requires Valid() && 0 < w && 0 < h
      modifies this`activeHead, this`freeHead, this`active, this`free, this`placed, active`x, active`next, free`x,
               free`y, free`next
      ensures Valid() && Response(OutcomeOf(fr), State()) == Next(old(State()), w, h)
      ensures fr.link.NoLink? <==> !HasRoom(old(State()), w, h) || old(free) == []
      ensures !fr.link.NoLink? ==> PlacedAsBest(old(State()), w, fr.x, fr.y)
      ensures placed == old(placed) + if fr.link.NoLink? then {} else {Box(fr.x, fr.y, w, h)}
      ensures multiset(active + free) == old(multiset(active + free))
    {
      ghost var t := State();
      ghost var k;
      NextMeans(t, w, h);
      fr, k := Decide(t, w, h);
      if fr.link.NoLink? {
        NextShape(placed, t, w, h);
      } else {
        Commit(fr.link, k, t, fr.x, fr.y, w, h);
      }
    }

    /** Carry out what was decided. */
    method Commit(link: Link, ghost k: nat, ghost t: Target, x: int, y: int, w: nat, h: nat)
      requires Ready(t) && 0 < w && 0 < h && Next(t, w, h).outcome == At(x, y)
      requires Valid() && State() == t && freeHead != null
      requires 0 <= x < t.width && k == StepOver(t, x) && link == LinkTo(k)
      requires t.outline == OutlineOf(active) && Setup() == (t.width, t.height, t.align, t.nodes, t.bestFit)
      modifies this`activeHead, this`freeHead, this`active, this`free, this`placed, active`x, active`next, free`x,
               free`y, free`next
      ensures Valid() && State() == Next(t, w, h).target && placed == old(placed) + {Box(x, y, w, h)}
      ensures multiset(active + free) == old(multiset(active + free))
    {
      ghost var bs := placed;
      assert Ready(t) && FloorLast(t.outline) && Packed(bs, t);
      ghost var o' := PlacedOutline(bs, t, w, h, x, y, k);
      ShowsOutline(active, t.outline);
      PlaceAt(link, k, t.outline, o', x, y, w, h);
      Arrived(bs, t, w, h, x, y, o');
    }

    /** Put a block where it was decided: at x, over active node k. */
    method PlaceAt(link: Link, ghost k: nat, ghost o: seq<Step>, ghost o': seq<Step>, x: int, y: int, w: nat, h: nat)
      requires Chains() && freeHead != null && Shows(active, o)
      requires k + 1 < |active| && link == LinkTo(k) && o' == Place(o, k, x, w, y + h)
      modifies this`activeHead, this`freeHead, this`active, this`free, this`placed, active`x, active`next, free`x,
               free`y, free`next
      ensures Chains() && Shows(active, o') && placed == old(placed) + {Box(x, y, w, h)}
      ensures Setup() == old(Setup())
      ensures multiset(active + free) == old(multiset(active + free))
    {
      Stitch(link, k, o, o', x, w, y + h);
      placed := placed + {Box(x, y, w, h)};
    }

    /** The context stands in the state it has been brought to. */
    lemma Arrived(bs: set<Box>, t: Target, w: nat, h: nat, x: int, y: int, o': seq<Step>)
      requires Settings() && Chains() && Ready(t) && FloorLast(t.outline) && Packed(bs, t)
      requires 0 < w && 0 < h && Next(t, w, h).outcome == At(x, y) && placed == bs + {Box(x, y, w, h)}
      requires Shows(active, o') && o' == Next(t, w, h).target.outline
      requires Setup() == (t.width, t.height, t.align, t.nodes, t.bestFit)
      ensures Valid() && State() == Next(t, w, h).target
    {
      NextShape(bs, t, w, h);
      ShowsOutline(active, o');
      Established(Next(t, w, h).target);
    }
  }

  /** The number of the step over column x. */
  ghost function StepOver(t: Target, x: int): nat {
    if Ready(t) && 0 <= x < t.width then IndexFrom(t.outline, x, 0) else 0
  }

  function OutcomeOf(fr: FindResult): Outcome {
    if fr.link.NoLink? then Refused else At(fr.x, fr.y)
  }

  lemma RefusedResponse(t: Target, w: nat, h: nat)
    requires Ready(t) && 0 < w && (!HasRoom(t, w, h) || |t.outline| == t.nodes + 2)
    ensures Next(t, w, h) == Response(Refused, t)
  {
  }

  lemma AcceptedRequest(t: Target, w: nat, h: nat, x: int, y: int, t': Target)
    requires Ready(t) && 0 < w && |t.outline| < t.nodes + 2
    requires Chosen(t, w, h, x) && x + AlignUp(w, t.align) <= t.width && y == Rest(Cols(t), x, AlignUp(w, t.align))
    requires y + h <= t.height && t' == Placing(t, x, w, y + h)
    ensures Request(t, w, h, At(x, y), t')
  {
  }

  lemma AcceptedResponse(t: Target, w: nat, h: nat, x: int, y: int)
    requires Ready(t) && 0 < w && |t.outline| < t.nodes + 2
    requires Chosen(t, w, h, x) && x + AlignUp(w, t.align) <= t.width && y == Rest(Cols(t), x, AlignUp(w, t.align))
    requires y + h <= t.height
    ensures Next(t, w, h).outcome == At(x, y)
  {
    var t' := Placing(t, x, w, y + h);
    AcceptedRequest(t, w, h, x, y, t');
    RequestIffNext(t, w, h, At(x, y), t');
  }

  lemma PlacedOutline(bs: set<Box>, t: Target, w: nat, h: nat, x: int, y: int, k: nat) returns (o': seq<Step>)
    requires Ready(t) && FloorLast(t.outline) && 0 < w && 0 < h && Packed(bs, t) && Next(t, w, h).outcome == At(x, y)
    requires 0 <= x < t.width && k == StepOver(t, x)
    ensures k + 1 < |t.outline| && o' == Place(t.outline, k, x, w, y + h) && o' == Next(t, w, h).target.outline
  {
    var t' := Next(t, w, h).target;
    NextShape(bs, t, w, h);
    assert t' == Placing(t, x, w, y + h);
    o' := t'.outline;
  }

  /** What the next state is like. */
  lemma NextShape(bs: set<Box>, t: Target, w: nat, h: nat)
    requires Ready(t) && FloorLast(t.outline) && 0 < w && 0 < h && Packed(bs, t)
    ensures var next := Next(t, w, h);
            match next.outcome
            case Refused => next.target == t
            case At(x, y) =>
              && 0 <= x < t.width && next.target == Placing(t, x, w, y + h)
              && Ready(next.target) && FloorLast(next.target.outline) && Packed(bs + {Box(x, y, w, h)}, next.target)
  {
    var next := Next(t, w, h);
    assert Request(t, w, h, next.outcome, next.target) by {
      RequestIffNext(t, w, h, next.outcome, next.target);
    }
    StepKeepsPacked(bs, t, w, h, next.outcome, next.target);
    RequestKeepsFloor(t, w, h, next.outcome, next.target);
  }

  /** (x, y) is where a block rests at the best of all places. */
  ghost predicate PlacedAsBest(t: Target, w: nat, x: int, y: int)
    requires Ready(t) && 0 < w
  {
    0 <= x && BestPlace(t, w, x) && y == Rest(Cols(t), x, AlignUp(w, t.align))
  }

  /** What the specified response means in terms of columns and nodes. */
  lemma NextMeans(t: Target, w: nat, h: nat)
    requires Ready(t) && FloorLast(t.outline) && 0 < w
    ensures match Next(t, w, h).outcome
            case Refused => !HasRoom(t, w, h) || |t.outline| == t.nodes + 2
            case At(x, y) => HasRoom(t, w, h) && |t.outline| < t.nodes + 2 && PlacedAsBest(t, w, x, y)
  {
    var next := Next(t, w, h);
    if next.outcome.At? {
      ChosenIffBest(t, w, h, next.outcome.x);
    }
  }

  lemma OntoFresh(ns: seq<Node>, i: nat, j: nat, rest: seq<Node>)
    requires i <= j < |ns| && forall k :: 0 <= k < j ==> ns[k] != ns[j]
    requires forall k :: 0 <= k < |rest| ==> rest[k] != ns[j]
    ensures forall k :: 0 <= k < |Onto(ns, i, j, rest)| ==> Onto(ns, i, j, rest)[k] != ns[j]
  {
    OntoAvoids(ns, i, j, rest, ns[j]);
  }

  lemma {:induction false} OntoAvoids(ns: seq<Node>, i: nat, j: nat, rest: seq<Node>, n: Node)
    requires i <= j <= |ns| && forall k :: 0 <= k < j ==> ns[k] != n
    requires forall k :: 0 <= k < |rest| ==> rest[k] != n
    ensures forall k :: 0 <= k < |Onto(ns, i, j, rest)| ==> Onto(ns, i, j, rest)[k] != n
    decreases j
  {
    if i < j {
      OntoAvoids(ns, i, j - 1, rest, n);
    }
  }

  lemma TooLarge(t: Target, w: nat, h: nat)
    requires Ready(t) && 0 < w && (AlignUp(w, t.align) > t.width || h > t.height)
    ensures !HasRoom(t, w, h)
  {
    forall x: nat | x + AlignUp(w, t.align) <= t.width
      ensures Rest(Cols(t), x, AlignUp(w, t.align)) >= 0
    {
      HeightsInside(t, x);
      assert Cols(t)[x] <= Rest(Cols(t), x, AlignUp(w, t.align));
    }
  }

  lemma InitialReady(width: nat, height: nat, nodes: nat)
    requires 0 < width && height < SENTINEL_Y && 0 < nodes
    ensures Ready(Initial(width, height, nodes, false)) && Packed({}, Initial(width, height, nodes, false))
  {
    AlignmentOne(width, nodes);
  }

  /** Walk the chain ns from its node k on, under a block of width w at x0. */
  method FindMinY(ghost ns: seq<Node>, ghost k: nat, first: Node, x0: int, w: nat) returns (minY: int, waste: int)
    requires Linked(ns, 0) && k < |ns| && first == ns[k] && x0 + w <= ns[|ns| - 1].x
    ensures minY == Report(OutlineOf(ns), k, x0, w).minY
    ensures waste == Report(OutlineOf(ns), k, x0, w).waste
  {
    ghost var o := OutlineOf(ns);
    var node := first;
    var x1 := x0 + w;
    ghost var i := k;
    minY, waste := 0, 0;
    var visitedWidth := 0;
    while node.x < x1
      invariant k <= i < |ns| && node == ns[i]
      invariant Scan(o, x0, w, Walk(i, minY, visitedWidth, waste)) == Report(o, k, x0, w)
      decreases |ns| - i
    {
      if node.y > minY {
        waste := waste + visitedWidth * (node.y - minY);
        minY := node.y;
        if node.x < x0 {
          visitedWidth := visitedWidth + (node.next.x - x0);
        } else {
          visitedWidth := visitedWidth + (node.next.x - node.x);
        }
      } else {
        var underWidth := node.next.x - node.x;
        if underWidth + visitedWidth > w {
          underWidth := w - visitedWidth;
        }
        waste := waste + underWidth * (minY - node.y);
        visitedWidth := visitedWidth + underWidth;
      }
      node := node.next;
      i := i + 1;
    }
  }
}
