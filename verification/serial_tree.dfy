/** Construction of a serial tree's storage: the node stack, the persistent and the
    generated coefficient stacks (both sized like the node stack), the block
    pointer tables, and one node slot per root box entry. */
module SerialTree {
  import opened Outcome
  import opened Slots
  import NodeStack
  import CoeffStack

  datatype Arena = Arena(
    nodes: NodeStack.Stack,
    coeff: CoeffStack.Stack,
    gen: CoeffStack.Stack,
    coeffBlocks: seq<int>,
    genBlocks: seq<int>,
    roots: seq<nat>)

  /** `k` successive one-slot allocations, as the constructor does for the roots:
      fatal iff the k slots do not fit; otherwise the ranks are consecutive from
      the old mark and exactly those slots become occupied. */
  function AllocRoots(s: NodeStack.Stack, k: nat): (r: Result<(NodeStack.Stack, seq<nat>)>)
    requires 0 <= s.nNodes <= NodeStack.MaxNodes(s)
    ensures r.Fatal? <==> s.nNodes + k > NodeStack.MaxNodes(s)
    ensures r.Ok? ==>
      && r.value.0.nNodes == s.nNodes + k
      && |r.value.1| == k
      && (forall i :: 0 <= i < k ==> r.value.1[i] == s.nNodes + i)
      && |r.value.0.status| == |s.status|
      && (forall i :: s.nNodes <= i < s.nNodes + k ==> r.value.0.status[i] == OCCUPIED)
      && (forall i :: 0 <= i < |s.status| && !(s.nNodes <= i < s.nNodes + k) ==>
            r.value.0.status[i] == s.status[i])
    decreases k
  {
    if k == 0 then Ok((s, []))
    else
      var prev :- AllocRoots(s, k - 1);
      var next :- NodeStack.Alloc(prev.0, 1);
      Ok((next.0, prev.1 + [next.1]))
  }

  /** The SerialTree constructor for a tree of the given order in `dim` dimensions
      with `rootCount` root boxes: all capacities equal maxNodes; every status slot
      below its capacity is free and the slot at the capacity is the sentinel; both
      coefficient counters are -1; block i of each coefficient area starts i block
      strides after the area's base; then the roots take ranks 0..rootCount-1. */
  function New(maxNodes: nat, rootCount: nat, order: nat, dim: nat, coeffBase: int, genBase: int)
    : (r: Result<Arena>)
    ensures r.Fatal? <==> rootCount > maxNodes
    ensures r.Ok? ==>
      var a := r.value;
      && NodeStack.Valid(a.nodes) && CoeffStack.Valid(a.coeff) && CoeffStack.Valid(a.gen)
      && NodeStack.MaxNodes(a.nodes) == maxNodes
      && a.nodes.nNodes == rootCount
      && (forall i :: 0 <= i < rootCount ==> a.nodes.status[i] == OCCUPIED)
      && (forall i :: rootCount <= i < maxNodes ==> a.nodes.status[i] == FREE)
      && a.nodes.status[maxNodes] == UNAVAILABLE
      && a.roots == seq(rootCount, i => i)
      && CoeffStack.MaxBlocks(a.coeff) == maxNodes && CoeffStack.MaxBlocks(a.gen) == maxNodes
      && a.coeff.top == -1 && a.gen.top == -1
      && (forall i :: 0 <= i < maxNodes ==> a.coeff.status[i] == FREE && a.gen.status[i] == FREE)
      && a.coeff.status[maxNodes] == UNAVAILABLE && a.gen.status[maxNodes] == UNAVAILABLE
      && |a.coeffBlocks| == maxNodes && |a.genBlocks| == maxNodes
      && (forall i :: 0 <= i < maxNodes ==>
            a.coeffBlocks[i] == coeffBase + i * CoeffStack.BlockStride(order, dim) &&
            a.genBlocks[i] == genBase + i * CoeffStack.BlockStride(order, dim))
  {
    var stride := CoeffStack.BlockStride(order, dim);
    var nodes :- AllocRoots(NodeStack.Fresh(maxNodes), rootCount);
    Ok(Arena(
      nodes.0,
      CoeffStack.Fresh(maxNodes),
      CoeffStack.Fresh(maxNodes),
      CoeffStack.BlockAddresses(coeffBase, stride, maxNodes),
      CoeffStack.BlockAddresses(genBase, stride, maxNodes),
      nodes.1))
  }
}
