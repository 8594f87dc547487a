/** How many nodes the packer is given, and the alignment that goes with it. */
module NodeSupply {
  import opened Arithmetic
  import opened Outline
  import opened Placement
  import opened Packer
  import opened PackerRuns

  /** The alignment of a target: quantised so that align * nodes >= width, or 1. */
  function Alignment(width: nat, nodes: nat, allowOutOfMem: bool): (align: nat)
    requires 0 < nodes
    ensures width <= align * nodes || allowOutOfMem
  {
    if allowOutOfMem then 1 else (width + nodes - 1) / nodes
  }

  /** A target as initialised. */
  function Initial(width: nat, height: nat, nodes: nat, allowOutOfMem: bool): Target
    requires 0 < nodes
  {
    Target(width, height, Alignment(width, nodes, allowOutOfMem), nodes, false, [Step(0, 0), Step(width, SENTINEL_Y)])
  }

  /** The alignment is 1 exactly when there is a node for every column. */
  lemma AlignmentOne(width: nat, nodes: nat)
    requires 0 < width && 0 < nodes
    ensures Alignment(width, nodes, false) == 1 <==> nodes >= width
    ensures 0 < Alignment(width, nodes, false)
  {
    var q := (width + nodes - 1) / nodes;
    if q <= 0 {
      Product(q, 0, nodes);
    } else if q >= 2 {
      Product(2, q, nodes);
    }
  }

  /** The alignment is the smallest for which the nodes are enough, or 1. */
  lemma LeastAlignment(width: nat, nodes: nat, a: nat)
    requires 0 < width && 0 < nodes
    ensures Alignment(width, nodes, false) <= a <==> width <= a * nodes
    ensures Alignment(width, nodes, true) == 1
  {
    var q := (width + nodes - 1) / nodes;
    if q <= a {
      Product(q, a, nodes);
    } else {
      Product(a, q - 1, nodes);
    }
  }

  /** Blocks of this width cover the target with the nodes there are, and narrower ones do not. */
  ghost predicate JustCovers(align: int, nodes: int, width: int) {
    (align - 1) * nodes < width <= align * nodes
  }

  lemma AlignmentCovers(width: nat, nodes: nat)
    requires 0 < width && 0 < nodes
    ensures JustCovers(Alignment(width, nodes, false), nodes, width)
  {
    var a := Alignment(width, nodes, false);
    AlignmentOne(width, nodes);
    LeastAlignment(width, nodes, a);
    LeastAlignment(width, nodes, a - 1);
  }

  /** Quantised blocks still leave room for one block at each of the first
      `nodes` columns. */
  lemma RoomForUnits(width: nat, nodes: nat, allowOutOfMem: bool)
    requires 0 < nodes < width
    ensures 0 < Alignment(width, nodes, allowOutOfMem)
    ensures nodes - 1 + Alignment(width, nodes, allowOutOfMem) <= width
  {
    if !allowOutOfMem {
      AlignmentOne(width, nodes);
      var q, m := (width + nodes - 1) / nodes, width - nodes;
      if q >= m + 2 {
        Product(m + 2, q, nodes);
        Product(1, nodes, m);
      }
    }
  }

  /** In every run, from every target, under either heuristic: with a node for
      every column a node is always free. */
  lemma EnoughNodes(t: Target, es: seq<Event>, t': Target)
    requires Ready(t) && t.nodes >= t.width && Run(t, es, t')
    ensures |t'.outline| < t.nodes + 2
  {
    RunKeepsPacked(t, es, t');
    AtMostOneStepPerColumn(t'.outline, t'.width);
  }
}
