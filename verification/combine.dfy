/** The two-tree combiner SerialTreeAdd: A := A + c B over two function trees
    walked in lockstep.

    The walk starts from the paired root nodes. Where exactly one of the two nodes
    of a pair has children, the other one first grows generated children
    (GenS_nodes), whose scaling coefficients the reconstruction kernel fills from
    the parent and whose wavelet part is left unset; the children pairs are then
    pushed. Every visited pair is combined by a per-case rule, the node of A is
    flagged as having wavelet coefficients, and the squared norms of A's leaves are
    summed into the tree's squared norm.

    Three dimensions are modelled: every node holds 8 blocks of nGen scaling
    coefficients (N_Coeff = 8 N_GenCoeff) and has either no children or 8. The
    numeric content of the generated children (the kernel) and the node norm
    (calcNorms) are not visible and are parameters. */
module Combine {
  import opened Outcome
  import Transform

  /** The per-node state the combiner reads and writes: the coefficient block and
      the hasWCoefs flag. */
  datatype Node = Node(coefs: seq<real>, hasW: bool)

  /** A node with its children. */
  datatype Tree = Tree(node: Node, kids: seq<Tree>)

  /** The number of coefficients of a node: 2^D blocks of N_GenCoeff. */
  function NCoeff(nGen: nat): nat {
    Transform.TDim * nGen
  }

  /** Every node holds a full coefficient block and has 0 or 2^D children. */
  predicate WellFormed(t: Tree, nGen: nat)
    decreases t
  {
    && |t.node.coefs| == NCoeff(nGen)
    && (|t.kids| == 0 || |t.kids| == Transform.TDim)
    && forall i :: 0 <= i < |t.kids| ==> WellFormed(t.kids[i], nGen)
  }

  /** The child generator makes 2^D children with full blocks and without wavelet
      coefficients. */
  ghost predicate GenWellFormed(gen: Node -> seq<Node>, nGen: nat) {
    forall n: Node :: |gen(n)| == Transform.TDim
      && forall k :: 0 <= k < |gen(n)| ==> |gen(n)[k].coefs| == NCoeff(nGen) && !gen(n)[k].hasW
  }

  /* ------------------------------------------------------------------ */
  /* The combination rule                                                */
  /* ------------------------------------------------------------------ */

  /** One visited pair: the first N_GenCoeff coefficients always get cA += c cB.
      The rest get cA += c cB when both nodes have wavelet coefficients, are kept
      when only A has them, become c cB when only B has them, and are kept when
      neither has them. A is then flagged as having wavelet coefficients. */
  function CombineNodes(c: real, a: Node, b: Node, nGen: nat): (r: Node)
    requires |a.coefs| == NCoeff(nGen) && |b.coefs| == NCoeff(nGen)
    ensures r.hasW && |r.coefs| == NCoeff(nGen)
    ensures forall i :: 0 <= i < nGen ==> r.coefs[i] == a.coefs[i] + c * b.coefs[i]
    ensures a.hasW && b.hasW ==> forall i :: 0 <= i < NCoeff(nGen) ==> r.coefs[i] == a.coefs[i] + c * b.coefs[i]
    ensures a.hasW && !b.hasW ==> forall i :: nGen <= i < NCoeff(nGen) ==> r.coefs[i] == a.coefs[i]
    ensures !a.hasW && b.hasW ==> forall i :: nGen <= i < NCoeff(nGen) ==> r.coefs[i] == c * b.coefs[i]
    ensures !a.hasW && !b.hasW ==> forall i :: nGen <= i < NCoeff(nGen) ==> r.coefs[i] == a.coefs[i]
  {
    var n := NCoeff(nGen);
    Node(seq(n, i requires 0 <= i < n =>
               if i < nGen || (a.hasW && b.hasW) then a.coefs[i] + c * b.coefs[i]
               else if b.hasW then c * b.coefs[i]
               else a.coefs[i]),
         true)
  }

  /** The coefficients a node stands for: a node without wavelet coefficients
      counts as having zero wavelet detail. */
  function Padded(a: Node, nGen: nat): (p: seq<real>)
    requires |a.coefs| == NCoeff(nGen)
    ensures |p| == NCoeff(nGen)
  {
    var n := NCoeff(nGen);
    seq(n, i requires 0 <= i < n => if i < nGen || a.hasW then a.coefs[i] else 0.0)
  }

  /** Whenever at least one of the two nodes has wavelet coefficients, the rule is
      plain A + c B on the padded coefficients: the per-case branches are exactly
      what treating a missing wavelet part as zero gives. */
  lemma CombineIsPaddedSum(c: real, a: Node, b: Node, nGen: nat)
    requires |a.coefs| == NCoeff(nGen) && |b.coefs| == NCoeff(nGen)
    requires a.hasW || b.hasW
    ensures var r, pa, pb := CombineNodes(c, a, b, nGen).coefs, Padded(a, nGen), Padded(b, nGen);
            forall i :: 0 <= i < NCoeff(nGen) ==> r[i] == pa[i] + c * pb[i]
  {
  }

  /* ------------------------------------------------------------------ */
  /* The combined tree                                                   */
  /* ------------------------------------------------------------------ */

  function Size(t: Tree): nat
    decreases t
  {
    1 + SizeOf(t.kids)
  }

  /** The number of nodes of a forest. */
  function SizeOf(ts: seq<Tree>): nat
    decreases ts
  {
    if |ts| == 0 then 0 else Size(ts[0]) + SizeOf(ts[1..])
  }

  lemma {:induction false} KidSmaller(ts: seq<Tree>, i: nat)
    requires i < |ts|
    ensures Size(ts[i]) <= SizeOf(ts)
    decreases ts
  {
    if i > 0 {
      KidSmaller(ts[1..], i - 1);
    }
  }

  /** The children of t once the walk has visited the pair (t, other): generated
      leaves when t is a leaf and other is not, its own children otherwise. */
  function Expand(t: Tree, other: Tree, gen: Node -> seq<Node>): seq<Tree> {
    if |t.kids| == 0 && |other.kids| > 0 then
      seq(|gen(t.node)|, k requires 0 <= k < |gen(t.node)| => Tree(gen(t.node)[k], []))
    else t.kids
  }

  lemma ExpandLength(a: Tree, b: Tree, nGen: nat, gen: Node -> seq<Node>)
    requires WellFormed(a, nGen) && WellFormed(b, nGen) && GenWellFormed(gen, nGen)
    ensures |Expand(a, b, gen)| == |Expand(b, a, gen)|
    ensures |Expand(a, b, gen)| == 0 <==> |a.kids| == 0 && |b.kids| == 0
  {
  }

  /** The expanded children are well formed and each child pair is smaller than
      the parent pair. */
  lemma ExpandStep(a: Tree, b: Tree, nGen: nat, gen: Node -> seq<Node>, i: nat)
    requires WellFormed(a, nGen) && WellFormed(b, nGen) && GenWellFormed(gen, nGen)
    requires i < |Expand(a, b, gen)| && i < |Expand(b, a, gen)|
    ensures WellFormed(Expand(a, b, gen)[i], nGen) && WellFormed(Expand(b, a, gen)[i], nGen)
    ensures Size(Expand(a, b, gen)[i]) + Size(Expand(b, a, gen)[i]) < Size(a) + Size(b)
  {
    var ak, bk := Expand(a, b, gen), Expand(b, a, gen);
    if |a.kids| == 0 {
      assert Size(ak[i]) == 1;
      KidSmaller(b.kids, i);
    } else if |b.kids| == 0 {
      assert Size(bk[i]) == 1;
      KidSmaller(a.kids, i);
    } else {
      KidSmaller(a.kids, i);
      KidSmaller(b.kids, i);
    }
  }

  /** The tree A becomes when the walk starts from the pair (a, b). */
  function AddTree(c: real, a: Tree, b: Tree, nGen: nat, gen: Node -> seq<Node>): Tree
    requires WellFormed(a, nGen) && WellFormed(b, nGen) && GenWellFormed(gen, nGen)
    decreases Size(a) + Size(b)
  {
    var ak, bk := Expand(a, b, gen), Expand(b, a, gen);
    ExpandLength(a, b, nGen, gen);
    Tree(CombineNodes(c, a.node, b.node, nGen),
         seq(|ak|, i requires 0 <= i < |ak| =>
               ExpandStep(a, b, nGen, gen, i);
               AddTree(c, ak[i], bk[i], nGen, gen)))
  }

  /** Every pair of root nodes combined, in root-box order. */
  function AddRoots(c: real, treeA: seq<Tree>, treeB: seq<Tree>, nGen: nat, gen: Node -> seq<Node>): (r: seq<Tree>)
    requires |treeA| == |treeB| && GenWellFormed(gen, nGen)
    requires forall i :: 0 <= i < |treeA| ==> WellFormed(treeA[i], nGen) && WellFormed(treeB[i], nGen)
    ensures |r| == |treeA|
  {
    seq(|treeA|, i requires 0 <= i < |treeA| => AddTree(c, treeA[i], treeB[i], nGen, gen))
  }

  /* ------------------------------------------------------------------ */
  /* Properties of the combined tree                                     */
  /* ------------------------------------------------------------------ */

  /** The branching pattern of a tree, without its data. */
  datatype Shape = Shape(kids: seq<Shape>)

  function ShapeOf(t: Tree): Shape
    decreases t
  {
    Shape(seq(|t.kids|, i requires 0 <= i < |t.kids| => ShapeOf(t.kids[i])))
  }

  /** The union of two shapes: a leaf takes the other side's subtree; two inner
      nodes are joined child by child (trees that branch by 2^D have equally many
      children). */
  function Union(s: Shape, t: Shape): Shape
    decreases s
  {
    if |s.kids| == 0 then t
    else if |t.kids| == 0 then s
    else Shape(seq(|s.kids|, i requires 0 <= i < |s.kids| =>
                     if i < |t.kids| then Union(s.kids[i], t.kids[i]) else s.kids[i]))
  }

  /** Branching by 0 or 2^D children, carried to the shape. */
  lemma ShapeBranching(t: Tree, nGen: nat)
    requires WellFormed(t, nGen)
    ensures |ShapeOf(t).kids| == |t.kids|
    ensures forall i :: 0 <= i < |t.kids| ==> ShapeOf(t).kids[i] == ShapeOf(t.kids[i])
  {
  }

  /** The combined tree has the union of the two shapes: A grows exactly the
      nodes that B has and A lacks. */
  lemma {:induction false} AddShapeIsUnion(c: real, a: Tree, b: Tree, nGen: nat, gen: Node -> seq<Node>)
    requires WellFormed(a, nGen) && WellFormed(b, nGen) && GenWellFormed(gen, nGen)
    ensures ShapeOf(AddTree(c, a, b, nGen, gen)) == Union(ShapeOf(a), ShapeOf(b))
    decreases Size(a) + Size(b)
  {
    var r := AddTree(c, a, b, nGen, gen);
    var ak, bk := Expand(a, b, gen), Expand(b, a, gen);
    ExpandLength(a, b, nGen, gen);
    ShapeBranching(a, nGen);
    ShapeBranching(b, nGen);
    forall i | 0 <= i < |ak|
      ensures ShapeOf(r.kids[i]) == Union(ShapeOf(ak[i]), ShapeOf(bk[i]))
    {
      ExpandStep(a, b, nGen, gen, i);
      AddShapeIsUnion(c, ak[i], bk[i], nGen, gen);
    }
    var u := Union(ShapeOf(a), ShapeOf(b));
    if |a.kids| == 0 && |b.kids| == 0 {
    } else if |a.kids| == 0 {
      forall i | 0 <= i < |ak|
        ensures ShapeOf(r.kids[i]) == ShapeOf(b.kids[i])
      {
        assert ShapeOf(ak[i]).kids == [];
      }
      assert ShapeOf(r).kids == ShapeOf(b).kids;
    } else if |b.kids| == 0 {
      forall i | 0 <= i < |ak|
        ensures ShapeOf(r.kids[i]) == ShapeOf(a.kids[i])
      {
        assert ShapeOf(bk[i]).kids == [];
      }
      assert ShapeOf(r).kids == ShapeOf(a).kids;
    } else {
      forall i | 0 <= i < |ak|
        ensures ShapeOf(r).kids[i] == u.kids[i]
      {
        ExpandStep(a, b, nGen, gen, i);
        ShapeBranching(a.kids[i], nGen);
        ShapeBranching(b.kids[i], nGen);
      }
      assert ShapeOf(r).kids == u.kids;
    }
  }

  /** Every node of a tree has wavelet coefficients. */
  predicate AllHaveW(t: Tree)
    decreases t
  {
    t.node.hasW && forall i :: 0 <= i < |t.kids| ==> AllHaveW(t.kids[i])
  }

  /** After the walk every node of A, generated ones included, is flagged as
      having wavelet coefficients. */
  lemma {:induction false} AddFlagsEveryNode(c: real, a: Tree, b: Tree, nGen: nat, gen: Node -> seq<Node>)
    requires WellFormed(a, nGen) && WellFormed(b, nGen) && GenWellFormed(gen, nGen)
    ensures AllHaveW(AddTree(c, a, b, nGen, gen))
    decreases Size(a) + Size(b)
  {
    var r := AddTree(c, a, b, nGen, gen);
    var ak, bk := Expand(a, b, gen), Expand(b, a, gen);
    ExpandLength(a, b, nGen, gen);
    forall i | 0 <= i < |r.kids|
      ensures AllHaveW(r.kids[i])
    {
      ExpandStep(a, b, nGen, gen, i);
      AddFlagsEveryNode(c, ak[i], bk[i], nGen, gen);
    }
  }

  /** The same shape with every coefficient zero and every node flagged. */
  function Zeroed(t: Tree): (z: Tree)
    decreases t
  {
    Tree(Node(seq(|t.node.coefs|, _ => 0.0), true),
         seq(|t.kids|, i requires 0 <= i < |t.kids| => Zeroed(t.kids[i])))
  }

  /** Adding -1 times a tree to itself cancels every coefficient and keeps the
      shape: no child is generated when both trees branch alike. */
  lemma {:induction false} SubtractSelfIsZero(t: Tree, nGen: nat, gen: Node -> seq<Node>)
    requires WellFormed(t, nGen) && GenWellFormed(gen, nGen) && AllHaveW(t)
    ensures AddTree(-1.0, t, t, nGen, gen) == Zeroed(t)
    decreases t
  {
    var r := AddTree(-1.0, t, t, nGen, gen);
    var z := Zeroed(t);
    assert Expand(t, t, gen) == t.kids;
    assert r.node.coefs == z.node.coefs;
    forall i | 0 <= i < |t.kids|
      ensures r.kids[i] == z.kids[i]
    {
      SubtractSelfIsZero(t.kids[i], nGen, gen);
    }
    assert r.kids == z.kids;
  }

  /** A norm that gives 0 to every all-zero coefficient vector. */
  ghost predicate NormOfZeroIsZero(norm: seq<real> -> real) {
    forall c: seq<real> :: (forall j :: 0 <= j < |c| ==> c[j] == 0.0) ==> norm(c) == 0.0
  }

  /** Under such a norm, a zeroed tree has square norm 0. */
  lemma {:induction false} ZeroedNormIsZero(t: Tree, norm: seq<real> -> real)
    requires NormOfZeroIsZero(norm)
    ensures LeafNorm(Zeroed(t), norm) == 0.0
    decreases t
  {
    var z := Zeroed(t);
    if |t.kids| == 0 {
      assert norm(z.node.coefs) == 0.0;
    } else {
      ZeroedNormOfIsZero(z.kids, t.kids, norm);
    }
  }

  lemma {:induction false} ZeroedNormOfIsZero(zs: seq<Tree>, ts: seq<Tree>, norm: seq<real> -> real)
    requires NormOfZeroIsZero(norm)
    requires |zs| == |ts| && forall i :: 0 <= i < |ts| ==> zs[i] == Zeroed(ts[i])
    ensures LeafNormOf(zs, norm) == 0.0
    decreases ts
  {
    if |ts| > 0 {
      ZeroedNormIsZero(ts[0], norm);
      ZeroedNormOfIsZero(zs[1..], ts[1..], norm);
    }
  }

  /** Subtracting a tree from itself leaves square norm 0, for any norm that gives 0
      to an all-zero coefficient vector. */
  lemma SubtractSelfNormIsZero(t: Tree, nGen: nat, gen: Node -> seq<Node>, norm: seq<real> -> real)
    requires WellFormed(t, nGen) && GenWellFormed(gen, nGen) && AllHaveW(t)
    requires NormOfZeroIsZero(norm)
    ensures LeafNorm(AddTree(-1.0, t, t, nGen, gen), norm) == 0.0
  {
    SubtractSelfIsZero(t, nGen, gen);
    ZeroedNormIsZero(t, norm);
  }

  /* ------------------------------------------------------------------ */
  /* The walk                                                            */
  /* ------------------------------------------------------------------ */

  /** The squared norm of a tree: the node norms of its leaves, summed. */
  function LeafNorm(t: Tree, norm: seq<real> -> real): real
    decreases t
  {
    if |t.kids| == 0 then norm(t.node.coefs) else LeafNormOf(t.kids, norm)
  }

  function LeafNormOf(ts: seq<Tree>, norm: seq<real> -> real): real
    decreases ts
  {
    if |ts| == 0 then 0.0 else LeafNorm(ts[0], norm) + LeafNormOf(ts[1..], norm)
  }

  lemma {:induction false} SumsAppend(x: seq<Tree>, y: seq<Tree>, norm: seq<real> -> real)
    ensures LeafNormOf(x + y, norm) == LeafNormOf(x, norm) + LeafNormOf(y, norm)
    ensures SizeOf(x + y) == SizeOf(x) + SizeOf(y)
    decreases |x|
  {
    if |x| > 0 {
      assert (x + y)[1..] == x[1..] + y;
      SumsAppend(x[1..], y, norm);
    } else {
      assert x + y == y;
    }
  }

  /** Every pair on a stack is a pair of well-formed trees. */
  predicate StackWellFormed(stack: seq<(Tree, Tree)>, nGen: nat) {
    forall i :: 0 <= i < |stack| ==> WellFormed(stack[i].0, nGen) && WellFormed(stack[i].1, nGen)
  }

  /** The children pairs the walk pushes after visiting (a, b), child 0 first. */
  function KidPairs(a: Tree, b: Tree, nGen: nat, gen: Node -> seq<Node>): (r: seq<(Tree, Tree)>)
    requires WellFormed(a, nGen) && WellFormed(b, nGen) && GenWellFormed(gen, nGen)
    ensures |r| == |Expand(a, b, gen)| && StackWellFormed(r, nGen)
    ensures |r| == 0 <==> |a.kids| == 0 && |b.kids| == 0
  {
    var ak, bk := Expand(a, b, gen), Expand(b, a, gen);
    ExpandLength(a, b, nGen, gen);
    var r := seq(|ak|, i requires 0 <= i < |ak| => (ak[i], bk[i]));
    assert StackWellFormed(r, nGen) by {
      forall i | 0 <= i < |r|
        ensures WellFormed(r[i].0, nGen) && WellFormed(r[i].1, nGen)
      {
        ExpandStep(a, b, nGen, gen, i);
      }
    }
    r
  }

  /** The combined trees of the pairs still on the stack. */
  ghost function Pending(c: real, stack: seq<(Tree, Tree)>, nGen: nat, gen: Node -> seq<Node>): (r: seq<Tree>)
    requires GenWellFormed(gen, nGen) && StackWellFormed(stack, nGen)
    ensures |r| == |stack|
  {
    seq(|stack|, i requires 0 <= i < |stack| => AddTree(c, stack[i].0, stack[i].1, nGen, gen))
  }

  lemma PendingAppend(c: real, x: seq<(Tree, Tree)>, y: seq<(Tree, Tree)>, nGen: nat, gen: Node -> seq<Node>)
    requires GenWellFormed(gen, nGen) && StackWellFormed(x, nGen) && StackWellFormed(y, nGen)
    ensures StackWellFormed(x + y, nGen)
    ensures Pending(c, x + y, nGen, gen) == Pending(c, x, nGen, gen) + Pending(c, y, nGen, gen)
  {
    assert StackWellFormed(x + y, nGen) by {
      forall i | 0 <= i < |x + y|
        ensures WellFormed((x + y)[i].0, nGen) && WellFormed((x + y)[i].1, nGen)
      {
        if i >= |x| { assert (x + y)[i] == y[i - |x|]; }
      }
    }
  }

  /** The pushed children pairs stand for exactly the children of the combined
      node. */
  lemma PendingKids(c: real, a: Tree, b: Tree, nGen: nat, gen: Node -> seq<Node>)
    requires WellFormed(a, nGen) && WellFormed(b, nGen) && GenWellFormed(gen, nGen)
    ensures Pending(c, KidPairs(a, b, nGen, gen), nGen, gen) == AddTree(c, a, b, nGen, gen).kids
  {
  }

  /** One pop: the popped pair's combined tree is replaced on the pending list by
      its children, and the totals move accordingly. */
  lemma PopPair(c: real, stack: seq<(Tree, Tree)>, nGen: nat, gen: Node -> seq<Node>, norm: seq<real> -> real)
    requires GenWellFormed(gen, nGen) && StackWellFormed(stack, nGen) && |stack| > 0
    ensures var a, b, rest := stack[|stack| - 1].0, stack[|stack| - 1].1, stack[..|stack| - 1];
            var kids := KidPairs(a, b, nGen, gen);
            && StackWellFormed(rest + kids, nGen)
            && LeafNormOf(Pending(c, stack, nGen, gen), norm)
                 == LeafNormOf(Pending(c, rest + kids, nGen, gen), norm)
                    + (if |kids| == 0 then norm(CombineNodes(c, a.node, b.node, nGen).coefs) else 0.0)
            && SizeOf(Pending(c, stack, nGen, gen)) == SizeOf(Pending(c, rest + kids, nGen, gen)) + 1
  {
    var a, b, rest := stack[|stack| - 1].0, stack[|stack| - 1].1, stack[..|stack| - 1];
    var kids := KidPairs(a, b, nGen, gen);
    var t := AddTree(c, a, b, nGen, gen);
    assert stack == rest + [(a, b)];
    assert StackWellFormed(rest, nGen);
    PendingAppend(c, rest, [(a, b)], nGen, gen);
    PendingAppend(c, rest, kids, nGen, gen);
    PendingKids(c, a, b, nGen, gen);
    var pr := Pending(c, rest, nGen, gen);
    assert Pending(c, [(a, b)], nGen, gen) == [t];
    SumsAppend(pr, [t], norm);
    SumsAppend(pr, t.kids, norm);
    assert [t][1..] == [];
  }

  /** SerialTreeAdd: unequal root counts are fatal; otherwise the walk visits every
      node of the combined tree once and returns the sum of its leaves' squared
      norms (stored as the tree's squareNorm) together with the number of visited
      pairs. */
  method SerialTreeAdd(c: real, treeA: seq<Tree>, treeB: seq<Tree>, nGen: nat,
                       gen: Node -> seq<Node>, norm: seq<real> -> real)
    returns (r: Result<(real, nat)>)
    requires GenWellFormed(gen, nGen)
    requires forall i :: 0 <= i < |treeA| ==> WellFormed(treeA[i], nGen)
    requires forall i :: 0 <= i < |treeB| ==> WellFormed(treeB[i], nGen)
    ensures r.Fatal? <==> |treeA| != |treeB|
    ensures r.Ok? ==> r.value.0 == LeafNormOf(AddRoots(c, treeA, treeB, nGen, gen), norm)
    ensures r.Ok? ==> r.value.1 == SizeOf(AddRoots(c, treeA, treeB, nGen, gen))
  {
    if |treeA| != |treeB| {
      return Fatal("Number of root nodes must be equal for now");
    }
    var stack := seq(|treeA|, i requires 0 <= i < |treeA| => (treeA[i], treeB[i]));
    ghost var result := AddRoots(c, treeA, treeB, nGen, gen);
    assert Pending(c, stack, nGen, gen) == result;
    var tsum, visited := 0.0, 0;
    while |stack| > 0
      invariant StackWellFormed(stack, nGen)
      invariant tsum + LeafNormOf(Pending(c, stack, nGen, gen), norm) == LeafNormOf(result, norm)
      invariant visited + SizeOf(Pending(c, stack, nGen, gen)) == SizeOf(result)
      decreases SizeOf(Pending(c, stack, nGen, gen))
    {
      PopPair(c, stack, nGen, gen, norm);
      var a, b := stack[|stack| - 1].0, stack[|stack| - 1].1;
      var kids := KidPairs(a, b, nGen, gen);
      var node := CombineNodes(c, a.node, b.node, nGen);
      if |kids| == 0 {
        tsum := tsum + norm(node.coefs);
      }
      visited := visited + 1;
      stack := stack[..|stack| - 1] + kids;
    }
    return Ok((tsum, visited));
  }
}
