/** Chains of nodes, as sequences: the order the links give, each node once. */
module NodeChain {
  import opened Outline

  class Node {
    var x: int
    var y: int
    var next: Node?

    constructor ()
      ensures x == 0 && y == 0 && next == null
    {
      x, y, next := 0, 0, null;
    }
  }

  /** No node stands twice in ns. */
  ghost predicate NoDuplicates(ns: seq<Node>) {
    forall n :: n in multiset(ns) ==> multiset(ns)[n] == 1
  }

  /** The nodes ns[k..] are linked one to the next and end the chain. */
  ghost predicate Linked(ns: seq<Node>, k: nat)
    reads ns
  {
    && (forall i {:trigger ns[i].next} :: k <= i < |ns| - 1 ==> ns[i].next == ns[i + 1])
    && (k < |ns| ==> ns[|ns| - 1].next == null)
  }

  ghost predicate Chain(head: Node?, ns: seq<Node>)
    reads ns
  {
    (if ns == [] then head == null else head == ns[0]) && Linked(ns, 0)
  }

  ghost function OutlineOf(ns: seq<Node>): (o: seq<Step>)
    reads ns
    ensures |o| == |ns|
  {
    seq(|ns|, i requires 0 <= i < |ns| reads ns => Step(ns[i].x, ns[i].y))
  }

  /** The nodes of ns show the steps of o. */
  ghost predicate Shows(ns: seq<Node>, o: seq<Step>)
    reads ns
  {
    |ns| == |o| && forall i :: 0 <= i < |ns| ==> Step(ns[i].x, ns[i].y) == o[i]
  }

  lemma ShowsOutline(ns: seq<Node>, o: seq<Step>)
    ensures Shows(ns, o) <==> o == OutlineOf(ns)
  {
  }

  /** The nodes ns[i], .., ns[j-1] put one after the other in front of `rest`. */
  ghost function Onto(ns: seq<Node>, i: nat, j: nat, rest: seq<Node>): seq<Node>
    requires i <= j <= |ns|
    decreases j
  {
    if j == i then rest else [ns[j - 1]] + Onto(ns, i, j - 1, rest)
  }

  /** The chain without the nodes ns[i..j], and with `node` in their place. */
  ghost function Replaced(ns: seq<Node>, i: nat, j: nat, node: Node): (active: seq<Node>)
    requires i <= j <= |ns|
    ensures |active| == i + 1 + |ns| - j
  {
    ns[..i] + [node] + ns[j..]
  }

  lemma ReplacedAt(ns: seq<Node>, i: nat, j: nat, node: Node, k: nat)
    requires i <= j <= |ns| && k < i + 1 + |ns| - j
    ensures Replaced(ns, i, j, node)[k] == if k < i then ns[k] else if k == i then node else ns[k - i - 1 + j]
  {
  }

  lemma {:induction false} OntoHas(ns: seq<Node>, i: nat, j: nat, rest: seq<Node>)
    requires i <= j <= |ns|
    ensures |Onto(ns, i, j, rest)| == j - i + |rest|
    ensures multiset(Onto(ns, i, j, rest)) == multiset(ns[i..j]) + multiset(rest)
    decreases j
  {
    if i < j {
      OntoHas(ns, i, j - 1, rest);
      assert ns[i..j] == ns[i..j - 1] + [ns[j - 1]];
    } else {
      assert ns[i..j] == [];
    }
  }

  /** Nodes are conserved when ns[i..j] go to the free list and `node` comes from it. */
  lemma Redistributed(ns: seq<Node>, rest: seq<Node>, node: Node, i: nat, j: nat)
    requires i <= j <= |ns|
    ensures multiset(Replaced(ns, i, j, node) + Onto(ns, i, j, rest)) == multiset(ns + ([node] + rest))
    ensures |Replaced(ns, i, j, node)| + |Onto(ns, i, j, rest)| == |ns| + |rest| + 1
  {
    OntoHas(ns, i, j, rest);
    var a, b, c := ns[..i], ns[i..j], ns[j..];
    assert multiset(ns) == multiset(a) + multiset(b) + multiset(c) by {
      assert ns == a + b + c;
    }
    Gathered(a, b, c, node, rest, Onto(ns, i, j, rest));
  }

  lemma Gathered(a: seq<Node>, b: seq<Node>, c: seq<Node>, node: Node, rest: seq<Node>, onto: seq<Node>)
    requires multiset(onto) == multiset(b) + multiset(rest)
    ensures multiset(a + [node] + c + onto) == multiset(a) + multiset(b) + multiset(c) + multiset([node] + rest)
  {
  }

  /** The same nodes, the same number of times each. */
  lemma StillNoDuplicates(a: seq<Node>, b: seq<Node>)
    requires NoDuplicates(a) && multiset(a) == multiset(b)
    ensures NoDuplicates(b)
  {
  }

  lemma StillOnce(a: seq<Node>, b: seq<Node>)
    requires NoDuplicates(a + b)
    ensures NoDuplicates(b)
  {
    assert multiset(a + b) == multiset(a) + multiset(b);
    forall n | n in multiset(b)
      ensures multiset(b)[n] == 1
    {
      assert multiset(a + b)[n] == multiset(a)[n] + multiset(b)[n];
    }
  }

  lemma CountTwice(ns: seq<Node>, i: nat, j: nat)
    requires i < j < |ns| && NoDuplicates(ns)
    ensures ns[i] != ns[j]
  {
    assert ns == ns[..i] + [ns[i]] + ns[i + 1..j] + [ns[j]] + ns[j + 1..];
    assert multiset(ns) == multiset(ns[..i]) + multiset{ns[i]} + multiset(ns[i + 1..j]) + multiset{ns[j]}
           + multiset(ns[j + 1..]);
    assert multiset(ns)[ns[i]] >= if ns[i] == ns[j] then 2 else 1;
  }

  /** Node by node: no two places of a hold the same node, and none holds a node of b. */
  lemma Distinct(a: seq<Node>, b: seq<Node>)
    requires NoDuplicates(a + b)
    ensures forall i, j :: 0 <= i < j < |a| ==> a[i] != a[j]
    ensures forall i, j :: 0 <= i < j < |b| ==> b[i] != b[j]
    ensures forall i, j :: 0 <= i < |a| && 0 <= j < |b| ==> a[i] != b[j]
  {
    var c := a + b;
    forall i, j | 0 <= i < j < |a|
      ensures a[i] != a[j]
    {
      CountTwice(c, i, j);
      assert c[i] == a[i] && c[j] == a[j];
    }
    forall i, j | 0 <= i < j < |b|
      ensures b[i] != b[j]
    {
      CountTwice(c, |a| + i, |a| + j);
      assert c[|a| + i] == b[i] && c[|a| + j] == b[j];
    }
    forall i, j | 0 <= i < |a| && 0 <= j < |b|
      ensures a[i] != b[j]
    {
      CountTwice(c, i, |a| + j);
      assert c[i] == a[i] && c[|a| + j] == b[j];
    }
  }

  /** Link the given nodes one to the next. */
  method LinkUp(nodes: seq<Node>)
    requires 0 < |nodes| && NoDuplicates(nodes)
    modifies nodes
    ensures Chain(nodes[0], nodes)
  {
    assert nodes + [] == nodes;
    Distinct(nodes, []);
    var i := 0;
    while i < |nodes| - 1
      invariant 0 <= i <= |nodes| - 1
      invariant forall k {:trigger nodes[k].next} :: 0 <= k < i ==> nodes[k].next == nodes[k + 1]
    {
      nodes[i].next := nodes[i + 1];
      i := i + 1;
    }
    nodes[i].next := null;
  }
}
