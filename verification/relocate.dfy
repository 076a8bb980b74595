/** RewritePointers: after a serial tree's bytes have been copied to a new base
    address, every pointer stored in the node slots still holds an address of the
    source copy. Starting from the roots, an explicit stack walk shifts every child
    and parent pointer by one displacement, re-derives each coefficient pointer from
    the node's block index, points the tree back-reference at the local tree, and
    recounts the tree's nodes.

    Memory is a map from the (local) address of a node slot to its contents; all
    addresses are counted in doubles, the unit of the displacement `d_p_shift`. */
module Relocate {

  const NULL: int := 0

  /** The pointer-valued fields of a node slot, plus its coefficient block index. */
  datatype Node = Node(parent: int, children: seq<int>, coeffIx: int, coefAddr: int, tree: int)

  type Memory = map<int, Node>

  /** The address of coefficient block ix in an area starting at firstCoeff whose
      blocks are stride doubles apart. */
  function BlockAddress(firstCoeff: int, ix: int, stride: int): int {
    firstCoeff + ix * stride
  }

  /** d_p_shift as written: the local start of the coefficient area minus the
      coefficient pointer recorded in the first root. This is the displacement only
      when the first root's coefficients sit in block 0. */
  function DisplacementAsWritten(mem: Memory, roots: seq<int>, firstCoeff: int): int
    requires |roots| > 0 && roots[0] in mem
  {
    firstCoeff - mem[roots[0]].coefAddr
  }

  /** d_p_shift with the first root's block index taken into account: the local
      address of that root's coefficient block minus the pointer it recorded. */
  function Displacement(mem: Memory, roots: seq<int>, firstCoeff: int, stride: int): int
    requires |roots| > 0 && roots[0] in mem
  {
    BlockAddress(firstCoeff, mem[roots[0]].coeffIx, stride) - mem[roots[0]].coefAddr
  }

  /** The two displacements agree exactly when the first root's block starts the
      coefficient area (block 0, or a zero stride). */
  lemma DisplacementAsWrittenNeedsBlockZero(mem: Memory, roots: seq<int>, firstCoeff: int, stride: int)
    requires |roots| > 0 && roots[0] in mem
    ensures DisplacementAsWritten(mem, roots, firstCoeff) == Displacement(mem, roots, firstCoeff, stride)
        <==> mem[roots[0]].coeffIx * stride == 0
  {
  }

  /** A one-node tree whose root owns block 1 (stride 64, coefficient area at 1000),
      copied 8 doubles further on: the copy's root reads 1064 and its coefficient
      area starts at 1008. As written, d_p_shift is -56; the bytes moved by 8. */
  lemma DisplacementAsWrittenMissesShift()
    ensures var cp := Copy(map[100 := Node(NULL, [], 1, 1064, 1)], 8);
      && 108 in cp
      && DisplacementAsWritten(cp, [108], 1008) == -56
      && Displacement(cp, [108], 1008, 64) == 8
  {
    var mem := map[100 := Node(NULL, [], 1, 1064, 1)];
    CopyHas(mem, Copy(mem, 8), 8, 100);
  }

  /** A stored parent pointer seen from the local copy; a null parent stays null. */
  function ShiftParent(p: int, d: int): int {
    if p == NULL then NULL else p + d
  }

  /** A sequence of stored addresses, each moved by d. */
  function ShiftAll(ptrs: seq<int>, d: int): (r: seq<int>)
    ensures |r| == |ptrs|
    ensures forall i {:trigger r[i]} :: 0 <= i < |ptrs| ==> r[i] == ptrs[i] + d
  {
    seq(|ptrs|, i requires 0 <= i < |ptrs| => ptrs[i] + d)
  }

  /** The rewrite applied to each visited node. */
  function RelocateNode(n: Node, d: int, firstCoeff: int, stride: int, tree: int): (m: Node)
    ensures m.parent == (if n.parent == NULL then NULL else n.parent + d)
    ensures |m.children| == |n.children|
    ensures forall i :: 0 <= i < |n.children| ==> m.children[i] - n.children[i] == d
    ensures m.coefAddr == BlockAddress(firstCoeff, n.coeffIx, stride)
    ensures m.coeffIx == n.coeffIx && m.tree == tree
  {
    Node(ShiftParent(n.parent, d), ShiftAll(n.children, d),
         n.coeffIx, BlockAddress(firstCoeff, n.coeffIx, stride), tree)
  }

  /** The rewrite of each visited node as written: the parent pointer is shifted
      unconditionally, so the null parent of a root becomes d. */
  function RelocateNodeAsWritten(n: Node, d: int, firstCoeff: int, stride: int, tree: int): (m: Node)
    ensures m.parent == n.parent + d
    ensures m.children == RelocateNode(n, d, firstCoeff, stride, tree).children
    ensures m.coefAddr == RelocateNode(n, d, firstCoeff, stride, tree).coefAddr
  {
    Node(n.parent + d, ShiftAll(n.children, d),
         n.coeffIx, BlockAddress(firstCoeff, n.coeffIx, stride), tree)
  }

  /** The i-th stored child pointer of the node at `a`, shifted by d, names a present
      node whose stored parent is the stored address of `a`. */
  ghost predicate ChildLinked(mem: Memory, a: int, i: int, d: int)
    requires a in mem && 0 <= i < |mem[a].children|
  {
    var c := mem[a].children[i] + d;
    c in mem && mem[c].parent == a - d
  }

  /** The slot at `a`, with `d` the displacement from stored to local addresses:
      its stored address would not be null; every stored child pointer, shifted,
      names a present node whose stored parent is this node's stored address; no
      child is listed twice. */
  ghost predicate SlotShaped(mem: Memory, a: int, d: int)
    requires a in mem
  {
    && a - d != NULL
    && (forall i :: 0 <= i < |mem[a].children| ==> ChildLinked(mem, a, i, d))
    && (forall i, j :: 0 <= i < j < |mem[a].children| ==> mem[a].children[i] != mem[a].children[j])
  }

  /** What the walk relies on: distinct roots present with null parents, and every
      slot shaped. */
  ghost predicate TreeShaped(mem: Memory, roots: seq<int>, d: int) {
    && |roots| > 0
    && (forall i, j :: 0 <= i < j < |roots| ==> roots[i] != roots[j])
    && (forall i :: 0 <= i < |roots| ==> roots[i] in mem && mem[roots[i]].parent == NULL)
    && (forall a :: a in mem ==> SlotShaped(mem, a, d))
  }

  lemma CardRemoveOne(s: set<int>, v: set<int>, x: int)
    requires x in s && x !in v
    ensures |s - (v + {x})| < |s - v|
  {
    assert s - (v + {x}) == (s - v) - {x};
  }

  /** The parent of the node at x, as a local address. */
  function Par(mem: Memory, x: int, d: int): int
    requires x in mem
  {
    mem[x].parent + d
  }

  /** The k-th visited node is a root, or its parent (seen from the local copy) was
      visited before it. */
  ghost predicate ReachedViaParent(mem: Memory, roots: seq<int>, order: seq<int>, k: int, d: int)
    requires 0 <= k < |order| && order[k] in mem
  {
    order[k] in roots || Par(mem, order[k], d) in order[..k]
  }

  /** Every child of a visited node, as a local address, was visited too. */
  ghost predicate ChildrenVisited(mem: Memory, order: seq<int>, d: int) {
    forall x, i :: x in order && x in mem && 0 <= i < |mem[x].children| ==> mem[x].children[i] + d in order
  }

  /** The k-th visited node is present, and is a root or was reached from its parent. */
  ghost predicate ReachedAt(mem: Memory, roots: seq<int>, order: seq<int>, k: int, d: int)
    requires 0 <= k < |order|
  {
    order[k] in mem && ReachedViaParent(mem, roots, order, k, d)
  }

  /** Every visited node is a root or was reached from a parent visited before it. */
  ghost predicate ParentsFirst(mem: Memory, roots: seq<int>, order: seq<int>, d: int) {
    forall k :: 0 <= k < |order| ==> ReachedAt(mem, roots, order, k, d)
  }

  /** z is a child of the node at y: one of y's stored child pointers, shifted by d,
      names z. */
  ghost predicate ChildOf(mem: Memory, y: int, z: int, d: int) {
    y in mem && exists i :: 0 <= i < |mem[y].children| && mem[y].children[i] + d == z
  }

  /** The k-th visited node is a root or a child of a node visited before it. */
  ghost predicate ViaChild(mem: Memory, roots: seq<int>, order: seq<int>, k: int, d: int)
    requires 0 <= k < |order|
  {
    order[k] in roots || exists j :: 0 <= j < k && ChildOf(mem, order[j], order[k], d)
  }

  /** The i-th stacked node is a root or a child of a visited node. */
  ghost predicate StackedViaChild(mem: Memory, roots: seq<int>, stack: seq<int>, order: seq<int>, i: int, d: int)
    requires 0 <= i < |stack|
  {
    stack[i] in roots || exists j :: 0 <= j < |order| && ChildOf(mem, order[j], stack[i], d)
  }

  /** Every visited node was reached through a child pointer (or is a root). */
  ghost predicate ChildrenFirst(mem: Memory, roots: seq<int>, order: seq<int>, d: int) {
    forall k :: 0 <= k < |order| ==> ViaChild(mem, roots, order, k, d)
  }

  /** The reachability half of the walk's bookkeeping: everything visited or stacked
      is a root or was reached through a child pointer of a visited node. */
  ghost predicate ChildInv(mem: Memory, roots: seq<int>, d: int, stack: seq<int>, order: seq<int>) {
    && ChildrenFirst(mem, roots, order, d)
    && (forall i :: 0 <= i < |stack| ==> StackedViaChild(mem, roots, stack, order, i, d))
  }

  /** One iteration keeps the reachability half: the popped node was stacked, and
      the children it pushes are its children. */
  lemma StepViaChild(mem: Memory, roots: seq<int>, d: int, stack: seq<int>, order: seq<int>, x: int)
    requires ChildInv(mem, roots, d, stack + [x], order)
    requires x in mem
    ensures ChildInv(mem, roots, d, stack + ShiftAll(mem[x].children, d), order + [x])
  {
    var st := stack + [x];
    var kids := ShiftAll(mem[x].children, d);
    var st' := stack + kids;
    var order' := order + [x];
    forall k | 0 <= k < |order'|
      ensures ViaChild(mem, roots, order', k, d)
    {
      if k < |order| {
        assert ViaChild(mem, roots, order, k, d);
        if order[k] !in roots {
          var j :| 0 <= j < k && ChildOf(mem, order[j], order[k], d);
          assert order'[j] == order[j];
        }
      } else {
        assert st[|stack|] == x;
        assert StackedViaChild(mem, roots, st, order, |stack|, d);
        if x !in roots {
          var j :| 0 <= j < |order| && ChildOf(mem, order[j], x, d);
          assert order'[j] == order[j];
        }
      }
    }
    forall i | 0 <= i < |st'|
      ensures StackedViaChild(mem, roots, st', order', i, d)
    {
      if i < |stack| {
        assert st[i] == stack[i] == st'[i];
        assert StackedViaChild(mem, roots, st, order, i, d);
        if st[i] !in roots {
          var j :| 0 <= j < |order| && ChildOf(mem, order[j], st[i], d);
          assert order'[j] == order[j];
        }
      } else {
        var m := i - |stack|;
        assert st'[i] == kids[m] == mem[x].children[m] + d;
        assert order'[|order|] == x;
        assert ChildOf(mem, order'[|order|], st'[i], d);
      }
    }
  }

  /** The bookkeeping of the walk between iterations: `order` lists the visited set
      without repetition, each visited node reached through its parent; the stack
      holds distinct unvisited nodes whose parents are visited; every root and every
      child of a visited node is visited or on the stack. */
  ghost predicate WalkInv(mem: Memory, roots: seq<int>, d: int, stack: seq<int>, order: seq<int>, visited: set<int>) {
    && (forall x :: x in visited <==> x in order)
    && (forall i, j :: 0 <= i < j < |order| ==> order[i] != order[j])
    && (forall k :: 0 <= k < |order| ==> order[k] in mem && ReachedViaParent(mem, roots, order, k, d))
    && (forall x :: x in visited ==> x in mem && (x in roots || Par(mem, x, d) in visited))
    && (forall i, j :: 0 <= i < j < |stack| ==> stack[i] != stack[j])
    && (forall i :: 0 <= i < |stack| ==> stack[i] in mem && stack[i] !in visited)
    && (forall i :: 0 <= i < |stack| ==> stack[i] in roots || Par(mem, stack[i], d) in visited)
    && (forall i :: 0 <= i < |roots| ==> roots[i] in visited || roots[i] in stack)
    && (forall x, i :: x in visited && 0 <= i < |mem[x].children| ==>
          mem[x].children[i] + d in visited || mem[x].children[i] + d in stack)
  }

  /** The children pushed when x is popped are present, unvisited, not on the stack,
      not roots, and have x as parent. */
  lemma KidsFresh(mem: Memory, roots: seq<int>, d: int, stack: seq<int>, order: seq<int>,
                  visited: set<int>, x: int, i: int)
    requires TreeShaped(mem, roots, d)
    requires WalkInv(mem, roots, d, stack + [x], order, visited)
    requires x in mem && 0 <= i < |mem[x].children|
    ensures var c := mem[x].children[i] + d;
      c in mem && c !in visited && c !in stack && c != x && c !in roots && Par(mem, c, d) == x
  {
    var c := mem[x].children[i] + d;
    var st := stack + [x];
    assert st[|stack|] == x;
    assert ChildLinked(mem, x, i, d);
    forall j | 0 <= j < |roots|
      ensures roots[j] != c
    {
      assert mem[roots[j]].parent == NULL;
    }
    assert x !in visited && Par(mem, c, d) == x;
    assert c !in visited;
    forall j | 0 <= j < |stack|
      ensures stack[j] != c
    {
      assert st[j] == stack[j];
      assert st[j] in roots || Par(mem, st[j], d) in visited;
    }
    assert st[|stack|] in roots || Par(mem, st[|stack|], d) in visited;
  }

  lemma PopSplit(s: seq<int>)
    requires |s| > 0
    ensures s == s[..|s| - 1] + [s[|s| - 1]]
  {
  }

  /** The node popped from the stack is present and not yet visited. */
  lemma TopUnvisited(mem: Memory, roots: seq<int>, d: int, stack: seq<int>, order: seq<int>,
                     visited: set<int>, x: int)
    requires WalkInv(mem, roots, d, stack + [x], order, visited)
    ensures x in mem && x !in visited
  {
    assert (stack + [x])[|stack|] == x;
  }

  /** One iteration of the walk keeps its bookkeeping. */
  lemma WalkStep(mem: Memory, roots: seq<int>, d: int, stack: seq<int>, order: seq<int>,
                 visited: set<int>, x: int)
    requires TreeShaped(mem, roots, d)
    requires WalkInv(mem, roots, d, stack + [x], order, visited)
    requires x in mem
    ensures var kids := ShiftAll(mem[x].children, d);
      WalkInv(mem, roots, d, stack + kids, order + [x], visited + {x})
  {
    StepStack(mem, roots, d, stack, order, visited, x);
    StepOrder(mem, roots, d, stack, order, visited, x);
    StepCover(mem, roots, d, stack, order, visited, x);
  }

  /** After the step the stack still holds distinct unvisited nodes whose parents
      are visited. */
  lemma StepStack(mem: Memory, roots: seq<int>, d: int, stack: seq<int>, order: seq<int>,
                  visited: set<int>, x: int)
    requires TreeShaped(mem, roots, d)
    requires WalkInv(mem, roots, d, stack + [x], order, visited)
    requires x in mem
    ensures var st' := stack + ShiftAll(mem[x].children, d);
      && (forall i, j :: 0 <= i < j < |st'| ==> st'[i] != st'[j])
      && (forall i :: 0 <= i < |st'| ==> st'[i] in mem && st'[i] !in visited + {x})
      && (forall i :: 0 <= i < |st'| ==> st'[i] in roots || Par(mem, st'[i], d) in visited + {x})
  {
    var st := stack + [x];
    assert st[|stack|] == x;
    var kids := ShiftAll(mem[x].children, d);
    var st' := stack + kids;
    var visited' := visited + {x};
    forall i | 0 <= i < |kids|
      ensures kids[i] in mem && kids[i] !in visited && kids[i] !in stack && kids[i] != x
      ensures kids[i] !in roots && Par(mem, kids[i], d) == x
    {
      KidsFresh(mem, roots, d, stack, order, visited, x, i);
    }
    forall i | 0 <= i < |stack|
      ensures stack[i] in mem && stack[i] !in visited' && (stack[i] in roots || Par(mem, stack[i], d) in visited')
    {
      assert st[i] == stack[i];
    }
    forall i, j | 0 <= i < j < |st'|
      ensures st'[i] != st'[j]
    {
      if j < |stack| {
        assert st[i] == stack[i] && st[j] == stack[j];
      } else if i < |stack| {
        assert st'[j] == kids[j - |stack|];
      } else {
        assert ChildLinked(mem, x, i - |stack|, d);
      }
    }
    forall i | 0 <= i < |st'|
      ensures st'[i] in mem && st'[i] !in visited' && (st'[i] in roots || Par(mem, st'[i], d) in visited')
    {
      if i >= |stack| {
        assert st'[i] == kids[i - |stack|];
      }
    }
  }

  /** After the step the visit order gains x, still without repetition and each
      entry reached through its parent. */
  lemma StepOrder(mem: Memory, roots: seq<int>, d: int, stack: seq<int>, order: seq<int>,
                  visited: set<int>, x: int)
    requires WalkInv(mem, roots, d, stack + [x], order, visited)
    requires x in mem
    ensures var order', visited' := order + [x], visited + {x};
      && (forall y :: y in visited' <==> y in order')
      && (forall i, j :: 0 <= i < j < |order'| ==> order'[i] != order'[j])
      && (forall k :: 0 <= k < |order'| ==> order'[k] in mem && ReachedViaParent(mem, roots, order', k, d))
      && (forall y :: y in visited' ==> y in mem && (y in roots || Par(mem, y, d) in visited'))
  {
    var st := stack + [x];
    assert st[|stack|] == x;
    var order' := order + [x];
    assert x !in visited;
    forall k | 0 <= k < |order'|
      ensures order'[k] in mem && ReachedViaParent(mem, roots, order', k, d)
    {
      if k < |order| {
        assert order'[..k] == order[..k];
        assert ReachedViaParent(mem, roots, order, k, d);
      } else {
        assert order'[..k] == order;
        if x !in roots {
          assert Par(mem, st[|stack|], d) in visited;
        }
      }
    }
  }

  /** After the step every root and every child of a visited node is still visited
      or on the stack. */
  lemma StepCover(mem: Memory, roots: seq<int>, d: int, stack: seq<int>, order: seq<int>,
                  visited: set<int>, x: int)
    requires WalkInv(mem, roots, d, stack + [x], order, visited)
    requires x in mem
    ensures var st', visited' := stack + ShiftAll(mem[x].children, d), visited + {x};
      && (forall i :: 0 <= i < |roots| ==> roots[i] in visited' || roots[i] in st')
      && (forall y, i :: y in visited' && 0 <= i < |mem[y].children| ==>
            mem[y].children[i] + d in visited' || mem[y].children[i] + d in st')
  {
    var st := stack + [x];
    var st' := stack + ShiftAll(mem[x].children, d);
    var visited' := visited + {x};
    forall i | 0 <= i < |roots|
      ensures roots[i] in visited' || roots[i] in st'
    {
      if roots[i] !in visited && roots[i] != x {
        assert roots[i] in st;
        var j :| 0 <= j < |st| && st[j] == roots[i];
        assert j < |stack|;
        assert st'[j] == roots[i];
      }
    }
    forall y, i | y in visited' && 0 <= i < |mem[y].children|
      ensures mem[y].children[i] + d in visited' || mem[y].children[i] + d in st'
    {
      var c := mem[y].children[i] + d;
      if y == x {
        assert st'[|stack| + i] == c;
      } else if c !in visited && c != x {
        assert c in st;
        var j :| 0 <= j < |st| && st[j] == c;
        assert j < |stack|;
        assert st'[j] == c;
      }
    }
  }

  /** The slots rewritten so far: exactly the visited ones, each by RelocateNode. */
  ghost predicate RewrittenExactly(mem: Memory, mem': Memory, visited: set<int>, d: int,
                                   firstCoeff: int, stride: int, tree: int) {
    && mem'.Keys == mem.Keys
    && (forall x :: x in mem ==>
          mem'[x] == (if x in visited then RelocateNode(mem[x], d, firstCoeff, stride, tree) else mem[x]))
  }

  /** Rewriting one more unvisited slot. */
  lemma RewriteOne(mem: Memory, mem': Memory, visited: set<int>, d: int,
                   firstCoeff: int, stride: int, tree: int, x: int)
    requires RewrittenExactly(mem, mem', visited, d, firstCoeff, stride, tree)
    requires x in mem && x !in visited
    ensures mem'[x] == mem[x]
    ensures RewrittenExactly(mem, mem'[x := RelocateNode(mem[x], d, firstCoeff, stride, tree)],
                             visited + {x}, d, firstCoeff, stride, tree)
  {
  }

  /** When the stack is empty, the visit order is closed under children and
      contains every root. */
  lemma WalkDone(mem: Memory, roots: seq<int>, d: int, stack: seq<int>, order: seq<int>, visited: set<int>)
    requires WalkInv(mem, roots, d, stack, order, visited) && |stack| == 0
    ensures forall i, j :: 0 <= i < j < |order| ==> order[i] != order[j]
    ensures forall i :: 0 <= i < |roots| ==> roots[i] in order
    ensures forall x :: x in order ==> x in mem
    ensures forall x, i :: x in order && 0 <= i < |mem[x].children| ==> mem[x].children[i] + d in order
    ensures forall k :: 0 <= k < |order| ==> order[k] in mem && ReachedViaParent(mem, roots, order, k, d)
  {
    forall i | 0 <= i < |roots|
      ensures roots[i] in order
    {
      var r := roots[i];
      assert r !in stack;
      assert r in visited;
      assert r in order;
    }
  }

  /** RewritePointers. The walk visits each node reachable from the roots exactly
      once (`order`): every root is visited, every child of a visited node is
      visited, and every visited non-root is a child of a node visited earlier
      (`ChildrenFirst`) whose address its parent pointer holds (`ParentsFirst`). The node count becomes the number of visits; each visited node gets
      the rewrite of RelocateNode and no other slot changes. */
  method RewritePointers(mem: Memory, roots: seq<int>, firstCoeff: int, stride: int, tree: int)
    returns (mem': Memory, treeNodes: nat, order: seq<int>)
    requires |roots| > 0 && roots[0] in mem
    requires TreeShaped(mem, roots, Displacement(mem, roots, firstCoeff, stride))
    ensures var d := Displacement(mem, roots, firstCoeff, stride);
      && mem'.Keys == mem.Keys
      && treeNodes == |order|
      && (forall i, j :: 0 <= i < j < |order| ==> order[i] != order[j])
      && (forall i :: 0 <= i < |roots| ==> roots[i] in order)
      && (forall x :: x in order ==> x in mem)
      && ChildrenVisited(mem, order, d)
      && ParentsFirst(mem, roots, order, d)
      && ChildrenFirst(mem, roots, order, d)
      && (forall x :: x in mem ==>
            mem'[x] == (if x in order then RelocateNode(mem[x], d, firstCoeff, stride, tree) else mem[x]))
  {
    var d := Displacement(mem, roots, firstCoeff, stride);
    var stack := roots;
    mem' := mem;
    treeNodes := 0;
    order := [];
    ghost var visited: set<int> := {};
    while |stack| > 0
      invariant treeNodes == |order|
      invariant WalkInv(mem, roots, d, stack, order, visited)
      invariant ChildInv(mem, roots, d, stack, order)
      invariant RewrittenExactly(mem, mem', visited, d, firstCoeff, stride, tree)
      decreases |mem.Keys - visited|
    {
      ghost var full := stack;
      var x := stack[|stack| - 1];
      stack := stack[..|stack| - 1];
      PopSplit(full);
      TopUnvisited(mem, roots, d, stack, order, visited, x);
      RewriteOne(mem, mem', visited, d, firstCoeff, stride, tree, x);
      var n := mem'[x];
      var kids := ShiftAll(n.children, d);
      WalkStep(mem, roots, d, stack, order, visited, x);
      StepViaChild(mem, roots, d, stack, order, x);
      CardRemoveOne(mem.Keys, visited, x);
      stack := stack + kids;
      mem' := mem'[x := RelocateNode(n, d, firstCoeff, stride, tree)];
      order := order + [x];
      visited := visited + {x};
      treeNodes := treeNodes + 1;
    }
    WalkDone(mem, roots, d, stack, order, visited);
  }

  /** The first k visited nodes lie in any set that holds the roots and is closed
      under children. */
  lemma {:induction false} PrefixWithinClosed(mem: Memory, roots: seq<int>, order: seq<int>, d: int,
                                              s: set<int>, k: nat)
    requires ChildrenFirst(mem, roots, order, d)
    requires forall i :: 0 <= i < |roots| ==> roots[i] in s
    requires forall y, i :: y in s && y in mem && 0 <= i < |mem[y].children| ==> mem[y].children[i] + d in s
    requires k <= |order|
    ensures forall j :: 0 <= j < k ==> order[j] in s
    decreases k
  {
    if k > 0 {
      PrefixWithinClosed(mem, roots, order, d, s, k - 1);
      var z := order[k - 1];
      assert ViaChild(mem, roots, order, k - 1, d);
      if z !in roots {
        var j :| 0 <= j < k - 1 && ChildOf(mem, order[j], z, d);
        var i :| 0 <= i < |mem[order[j]].children| && mem[order[j]].children[i] + d == z;
        assert order[j] in s;
      }
    }
  }

  /** The nodes the walk visits form the least set that holds the roots and is
      closed under children: they lie in every such set. */
  lemma VisitedWithinClosed(mem: Memory, roots: seq<int>, order: seq<int>, d: int, s: set<int>)
    requires ChildrenFirst(mem, roots, order, d)
    requires forall i :: 0 <= i < |roots| ==> roots[i] in s
    requires forall y, i :: y in s && y in mem && 0 <= i < |mem[y].children| ==> mem[y].children[i] + d in s
    ensures forall x :: x in order ==> x in s
  {
    PrefixWithinClosed(mem, roots, order, d, s, |order|);
  }

  /** A sequence without repetition has as many elements as entries. */
  lemma {:induction false} DistinctCard(a: seq<int>)
    requires forall i, j :: 0 <= i < j < |a| ==> a[i] != a[j]
    ensures |(set x | x in a)| == |a|
    decreases |a|
  {
    if |a| > 0 {
      var a' := a[..|a| - 1];
      var last := a[|a| - 1];
      assert forall i :: 0 <= i < |a'| ==> a'[i] == a[i];
      DistinctCard(a');
      assert (set x | x in a) == (set x | x in a') + {last};
      assert last !in (set x | x in a');
    }
  }

  /** Any two visit orders with the walk's guarantees hold the same nodes and have
      the same length: the node count the walk leaves is fixed by the tree. */
  lemma WalkCountDetermined(mem: Memory, roots: seq<int>, o1: seq<int>, o2: seq<int>, d: int)
    requires forall i, j :: 0 <= i < j < |o1| ==> o1[i] != o1[j]
    requires forall i, j :: 0 <= i < j < |o2| ==> o2[i] != o2[j]
    requires forall i :: 0 <= i < |roots| ==> roots[i] in o1 && roots[i] in o2
    requires ChildrenVisited(mem, o1, d) && ChildrenVisited(mem, o2, d)
    requires ChildrenFirst(mem, roots, o1, d) && ChildrenFirst(mem, roots, o2, d)
    ensures forall x :: x in o1 <==> x in o2
    ensures |o1| == |o2|
  {
    var s1 := set x | x in o1;
    var s2 := set x | x in o2;
    VisitedWithinClosed(mem, roots, o1, d, s2);
    VisitedWithinClosed(mem, roots, o2, d, s1);
    assert s1 == s2;
    DistinctCard(o1);
    DistinctCard(o2);
  }

  /** A slot whose parent pointer names the root, but which the root does not list
      as a child, cannot be among the visits. */
  lemma UnlistedSlotNotVisited()
    ensures var mem := map[100 := Node(NULL, [], 0, 1000, 1), 200 := Node(100, [], 0, 1000, 1)];
      && ChildrenFirst(mem, [100], [100], 0)
      && !ChildrenFirst(mem, [100], [100, 200], 0)
  {
    var mem := map[100 := Node(NULL, [], 0, 1000, 1), 200 := Node(100, [], 0, 1000, 1)];
    assert ViaChild(mem, [100], [100], 0, 0);
    assert !ChildOf(mem, 100, 200, 0);
    assert !ViaChild(mem, [100], [100, 200], 1, 0);
  }

  /** `cp` is a verbatim byte copy of the node area `mem` to a base `delta` doubles
      further on: every slot moves, its stored pointers do not change. */
  ghost predicate IsCopy(cp: Memory, mem: Memory, delta: int) {
    forall b :: (b in cp <==> b - delta in mem) && (b in cp ==> cp[b] == mem[b - delta])
  }

  /** The copy of the node area to a base `delta` doubles further on. */
  function Copy(mem: Memory, delta: int): (cp: Memory)
    ensures IsCopy(cp, mem, delta)
  {
    var ks := set a | a in mem.Keys :: a + delta;
    var cp := map b | b in ks :: mem[b - delta];
    assert IsCopy(cp, mem, delta) by {
      forall b | b - delta in mem
        ensures b in ks
      {
        var a := b - delta;
        assert a + delta in ks;
      }
    }
    cp
  }

  /** The same node as it should read in a tree built at the new base directly:
      every non-null pointer moved by delta, tree back-reference local. */
  function TranslateNode(n: Node, delta: int, tree: int): Node {
    Node(ShiftParent(n.parent, delta), ShiftAll(n.children, delta),
         n.coeffIx, n.coefAddr + delta, tree)
  }

  /** Coefficient pointers in the source copy agree with the block indices. */
  ghost predicate CoeffConsistent(mem: Memory, firstCoeff: int, stride: int) {
    forall a :: a in mem ==> mem[a].coefAddr == BlockAddress(firstCoeff, mem[a].coeffIx, stride)
  }

  /** A tree shaped in its own address space is, once copied by delta, shaped for
      a walk with displacement delta. */
  lemma CopyKeepsShape(mem: Memory, roots: seq<int>, cp: Memory, delta: int)
    requires TreeShaped(mem, roots, 0) && IsCopy(cp, mem, delta)
    ensures TreeShaped(cp, ShiftAll(roots, delta), delta)
  {
    CopyRootsShaped(mem, roots, cp, delta);
    forall b | b in cp
      ensures SlotShaped(cp, b, delta)
    {
      CopySlotShaped(mem, roots, cp, delta, b);
    }
  }

  /** The moved roots are distinct slots of the copy with null parents. */
  lemma CopyRootsShaped(mem: Memory, roots: seq<int>, cp: Memory, delta: int)
    requires TreeShaped(mem, roots, 0) && IsCopy(cp, mem, delta)
    ensures var roots' := ShiftAll(roots, delta);
      && (forall i, j :: 0 <= i < j < |roots'| ==> roots'[i] != roots'[j])
      && (forall i :: 0 <= i < |roots'| ==> roots'[i] in cp && cp[roots'[i]].parent == NULL)
  {
    var roots' := ShiftAll(roots, delta);
    forall i | 0 <= i < |roots'|
      ensures roots'[i] in cp && cp[roots'[i]].parent == NULL
    {
      CopyHas(mem, cp, delta, roots[i]);
    }
  }

  /** The slot at b of the copy is shaped like its source slot. */
  lemma CopySlotShaped(mem: Memory, roots: seq<int>, cp: Memory, delta: int, b: int)
    requires TreeShaped(mem, roots, 0) && IsCopy(cp, mem, delta) && b in cp
    ensures SlotShaped(cp, b, delta)
  {
    var a := b - delta;
    assert a in mem && cp[b] == mem[a];
    assert SlotShaped(mem, a, 0);
    forall i | 0 <= i < |cp[b].children|
      ensures ChildLinked(cp, b, i, delta)
    {
      CopyChildLinked(mem, roots, cp, delta, b, i);
    }
  }

  /** A slot of the original is found, unchanged, delta further on in the copy. */
  lemma CopyHas(mem: Memory, cp: Memory, delta: int, a: int)
    requires IsCopy(cp, mem, delta) && a in mem
    ensures a + delta in cp && cp[a + delta] == mem[a]
  {
    var b := a + delta;
    assert b - delta == a;
    assert b in cp <==> b - delta in mem;
  }

  /** A slot of the copy holds the source slot delta before it. */
  lemma CopySlot(mem: Memory, cp: Memory, delta: int, b: int)
    requires IsCopy(cp, mem, delta) && b in cp
    ensures b - delta in mem && cp[b] == mem[b - delta]
  {
  }

  /** One child link of the copy, read back through the original. */
  lemma CopyChildLinked(mem: Memory, roots: seq<int>, cp: Memory, delta: int, b: int, i: int)
    requires TreeShaped(mem, roots, 0) && IsCopy(cp, mem, delta)
    requires b in cp && 0 <= i < |cp[b].children|
    ensures ChildLinked(cp, b, i, delta)
  {
    var a := b - delta;
    assert cp[b] == mem[a];
    assert SlotShaped(mem, a, 0);
    assert ChildLinked(mem, a, i, 0);
    var c := mem[a].children[i];
    CopyHas(mem, cp, delta, c);
  }

  /** For a copy of a consistent tree, the walk's displacement is exactly the
      distance the bytes were moved, whichever block the first root owns. */
  lemma CopyDisplacement(mem: Memory, roots: seq<int>, cp: Memory, firstCoeff: int, stride: int, delta: int)
    requires |roots| > 0 && roots[0] in mem && IsCopy(cp, mem, delta)
    requires CoeffConsistent(mem, firstCoeff, stride)
    ensures ShiftAll(roots, delta)[0] in cp
    ensures Displacement(cp, ShiftAll(roots, delta), firstCoeff + delta, stride) == delta
  {
    CopyHas(mem, cp, delta, roots[0]);
  }

  /** The relocation round trip. Take a tree that is consistent in its own address
      space (pointers equal addresses, coefficient pointers derived from block
      indices of the persistent area), copy it verbatim by any delta,
      negative and zero included: the copy satisfies the walk's precondition, the
      walk's displacement is delta, and the rewrite of every slot of the copy equals
      its source slot translated by delta, as if the tree had been built at the new
      base. */
  lemma RelocateCopyRoundTrip(mem: Memory, roots: seq<int>, firstCoeff: int, stride: int,
                              delta: int, tree: int)
    requires TreeShaped(mem, roots, 0) && CoeffConsistent(mem, firstCoeff, stride)
    ensures var cp := Copy(mem, delta);
      && ShiftAll(roots, delta)[0] in cp
      && Displacement(cp, ShiftAll(roots, delta), firstCoeff + delta, stride) == delta
      && TreeShaped(cp, ShiftAll(roots, delta), delta)
      && (forall b :: b in cp ==>
            RelocateNode(cp[b], delta, firstCoeff + delta, stride, tree) == TranslateNode(mem[b - delta], delta, tree))
  {
    var cp := Copy(mem, delta);
    CopyKeepsShape(mem, roots, cp, delta);
    CopyDisplacement(mem, roots, cp, firstCoeff, stride, delta);
    CopyRelocatesToTranslation(mem, cp, firstCoeff, stride, delta, tree);
  }

  /** Slot by slot: the rewrite of a copied consistent node is its translation. */
  lemma CopyRelocatesToTranslation(mem: Memory, cp: Memory, firstCoeff: int, stride: int, delta: int, tree: int)
    requires CoeffConsistent(mem, firstCoeff, stride) && IsCopy(cp, mem, delta)
    ensures forall b :: b in cp ==>
      b - delta in mem &&
      RelocateNode(cp[b], delta, firstCoeff + delta, stride, tree) == TranslateNode(mem[b - delta], delta, tree)
  {
    forall b | b in cp
      ensures b - delta in mem
      ensures RelocateNode(cp[b], delta, firstCoeff + delta, stride, tree) == TranslateNode(mem[b - delta], delta, tree)
    {
      RelocateConsistentNode(mem[b - delta], firstCoeff, stride, delta, tree);
    }
  }

  /** A node whose coefficient pointer agrees with its block index relocates to its
      translation when the coefficient area moved by the displacement. */
  lemma RelocateConsistentNode(n: Node, firstCoeff: int, stride: int, delta: int, tree: int)
    requires n.coefAddr == BlockAddress(firstCoeff, n.coeffIx, stride)
    ensures RelocateNode(n, delta, firstCoeff + delta, stride, tree) == TranslateNode(n, delta, tree)
  {
    var m := RelocateNode(n, delta, firstCoeff + delta, stride, tree);
    var t := TranslateNode(n, delta, tree);
    assert m.children == t.children;
    assert m.coefAddr == t.coefAddr;
  }

  /** As written, relocating the copy of a one-node tree moved by 8 doubles turns
      the root's null parent into 8, while the translated tree keeps it null. */
  lemma RelocateAsWrittenBreaksRootParent()
    ensures var root := Node(NULL, [], 0, 100, 1);
      RelocateNodeAsWritten(root, 8, 108, 64, 2).parent == 8 &&
      TranslateNode(root, 8, 2).parent == NULL &&
      RelocateNode(root, 8, 108, 64, 2) == TranslateNode(root, 8, 2)
  {
  }

  /** Slot by slot, a walk with displacement delta over the copy of a consistent
      memory leaves every visited slot holding its source node translated by delta. */
  lemma WalkOnCopyVisited(mem: Memory, cp: Memory, cp': Memory, order: seq<int>,
                          firstCoeff: int, stride: int, delta: int, tree: int)
    requires IsCopy(cp, mem, delta) && CoeffConsistent(mem, firstCoeff, stride)
    requires cp'.Keys == cp.Keys && forall x :: x in order ==> x in cp
    requires forall x :: x in cp ==>
      cp'[x] == (if x in order then RelocateNode(cp[x], delta, firstCoeff + delta, stride, tree) else cp[x])
    ensures forall b :: b in order ==>
      b - delta in mem && b in cp' && cp'[b] == TranslateNode(mem[b - delta], delta, tree)
  {
    forall b | b in order
      ensures b - delta in mem && b in cp' && cp'[b] == TranslateNode(mem[b - delta], delta, tree)
    {
      assert b in cp;
      assert cp'[b] == RelocateNode(cp[b], delta, firstCoeff + delta, stride, tree);
      CopySlot(mem, cp, delta, b);
      RelocateConsistentNode(mem[b - delta], firstCoeff, stride, delta, tree);
    }
  }

  /** The same walk leaves every slot it did not visit holding its verbatim copy. */
  lemma WalkOnCopyUnvisited(mem: Memory, cp: Memory, cp': Memory, order: seq<int>, delta: int)
    requires IsCopy(cp, mem, delta) && cp'.Keys == cp.Keys
    requires forall x :: x in cp && x !in order ==> cp'[x] == cp[x]
    ensures forall b :: b in cp' && b !in order ==> b - delta in mem && cp'[b] == mem[b - delta]
  {
    forall b | b in cp' && b !in order
      ensures b - delta in mem && cp'[b] == mem[b - delta]
    {
      assert b in cp;
      assert cp'[b] == cp[b];
      CopySlot(mem, cp, delta, b);
    }
  }

  /** The walk over a copy `cp` shaped for the walk with displacement delta, with
      the walk's guarantees stated for that displacement. */
  method WalkCopyRaw(cp: Memory, roots': seq<int>, firstCoeff: int, stride: int, delta: int, tree: int)
    returns (cp': Memory, treeNodes: nat, order: seq<int>)
    requires |roots'| > 0 && roots'[0] in cp && Displacement(cp, roots', firstCoeff + delta, stride) == delta
    requires TreeShaped(cp, roots', delta)
    ensures cp'.Keys == cp.Keys
    ensures treeNodes == |order|
    ensures forall i, j :: 0 <= i < j < |order| ==> order[i] != order[j]
    ensures forall i :: 0 <= i < |roots'| ==> roots'[i] in order
    ensures forall x :: x in order ==> x in cp
    ensures ChildrenVisited(cp, order, delta)
    ensures ParentsFirst(cp, roots', order, delta)
    ensures ChildrenFirst(cp, roots', order, delta)
    ensures forall x :: x in cp ==>
      cp'[x] == (if x in order then RelocateNode(cp[x], delta, firstCoeff + delta, stride, tree) else cp[x])
  {
    cp', treeNodes, order := RewritePointers(cp, roots', firstCoeff + delta, stride, tree);
  }

  /** The i-th child of the source node at `a`, moved by delta, was visited. */
  ghost predicate SourceChildVisited(mem: Memory, order: seq<int>, a: int, i: int, delta: int)
    requires a in mem && 0 <= i < |mem[a].children|
  {
    mem[a].children[i] + delta in order
  }

  /** Closure under children, read back through the copy: a child of a visited
      node, moved by delta, was visited too. */
  lemma ClosedOnSource(mem: Memory, cp: Memory, order: seq<int>, delta: int)
    requires IsCopy(cp, mem, delta)
    requires ChildrenVisited(cp, order, delta)
    ensures forall a, i :: a in mem && a + delta in order && 0 <= i < |mem[a].children| ==>
      SourceChildVisited(mem, order, a, i, delta)
  {
    forall a, i | a in mem && a + delta in order && 0 <= i < |mem[a].children|
      ensures SourceChildVisited(mem, order, a, i, delta)
    {
      var b := a + delta;
      CopySlot(mem, cp, delta, b);
      assert b - delta == a;
      assert cp[b].children[i] == mem[a].children[i];
    }
  }

  /** The k-th node visited in the copy, read back at its source address `order[k] - delta`:
      a source node that is a root, or whose parent, moved by delta, was visited before it. */
  ghost predicate SourceReachedAt(mem: Memory, roots: seq<int>, order: seq<int>, k: int, delta: int)
    requires 0 <= k < |order|
  {
    var a := order[k] - delta;
    a in mem && (a in roots || mem[a].parent + delta in order[..k])
  }

  /** The k-th node visited in the copy, read back at the source: a moved root, or
      a child (moved by delta) of a source node visited before it. */
  ghost predicate SourceViaChild(mem: Memory, roots: seq<int>, order: seq<int>, k: int, delta: int)
    requires 0 <= k < |order|
  {
    order[k] - delta in roots || exists j :: 0 <= j < k && ChildOf(mem, order[j] - delta, order[k], delta)
  }

  /** Reached through a child pointer, read back through the copy. */
  lemma ViaChildOnSource(mem: Memory, cp: Memory, roots: seq<int>, order: seq<int>, delta: int)
    requires IsCopy(cp, mem, delta)
    requires ChildrenFirst(cp, ShiftAll(roots, delta), order, delta)
    ensures forall k :: 0 <= k < |order| ==> SourceViaChild(mem, roots, order, k, delta)
  {
    var roots' := ShiftAll(roots, delta);
    forall k | 0 <= k < |order|
      ensures SourceViaChild(mem, roots, order, k, delta)
    {
      assert ViaChild(cp, roots', order, k, delta);
      if order[k] in roots' {
        var r :| 0 <= r < |roots'| && roots'[r] == order[k];
        assert roots[r] == order[k] - delta;
      } else {
        var j :| 0 <= j < k && ChildOf(cp, order[j], order[k], delta);
        var i :| 0 <= i < |cp[order[j]].children| && cp[order[j]].children[i] + delta == order[k];
        CopySlot(mem, cp, delta, order[j]);
        assert ChildOf(mem, order[j] - delta, order[k], delta);
      }
    }
  }

  /** Reached via the parent, read back through the copy: every visited node is a
      moved root, or its source parent, moved by delta, was visited before it. */
  lemma ReachedOnSource(mem: Memory, cp: Memory, roots: seq<int>, order: seq<int>, delta: int)
    requires IsCopy(cp, mem, delta)
    requires ParentsFirst(cp, ShiftAll(roots, delta), order, delta)
    ensures forall k :: 0 <= k < |order| ==> SourceReachedAt(mem, roots, order, k, delta)
  {
    var roots' := ShiftAll(roots, delta);
    forall k | 0 <= k < |order|
      ensures SourceReachedAt(mem, roots, order, k, delta)
    {
      var b := order[k];
      assert ReachedAt(cp, roots', order, k, delta);
      CopySlot(mem, cp, delta, b);
      if b in roots' {
        var j :| 0 <= j < |roots'| && roots'[j] == b;
        assert roots[j] == b - delta;
      }
    }
  }

  /** The walk over a copy `cp` of a consistent memory, moved by delta and shaped
      for the walk with displacement delta, read back at the source addresses. */
  method WalkCopy(mem: Memory, cp: Memory, roots: seq<int>, firstCoeff: int, stride: int, delta: int, tree: int)
    returns (cp': Memory, treeNodes: nat, order: seq<int>)
    requires IsCopy(cp, mem, delta) && CoeffConsistent(mem, firstCoeff, stride)
    requires |roots| > 0 && ShiftAll(roots, delta)[0] in cp
    requires Displacement(cp, ShiftAll(roots, delta), firstCoeff + delta, stride) == delta
    requires TreeShaped(cp, ShiftAll(roots, delta), delta)
    ensures cp'.Keys == cp.Keys
    ensures forall i :: 0 <= i < |roots| ==> roots[i] + delta in order
    ensures treeNodes == |order|
    ensures forall i, j :: 0 <= i < j < |order| ==> order[i] != order[j]
    ensures forall b :: b in order ==>
      b - delta in mem && b in cp' && cp'[b] == TranslateNode(mem[b - delta], delta, tree)
    ensures forall b :: b in cp' && b !in order ==> b - delta in mem && cp'[b] == mem[b - delta]
    ensures forall a, i :: a in mem && a + delta in order && 0 <= i < |mem[a].children| ==>
      SourceChildVisited(mem, order, a, i, delta)
    ensures forall k :: 0 <= k < |order| ==> SourceReachedAt(mem, roots, order, k, delta)
    ensures forall k :: 0 <= k < |order| ==> SourceViaChild(mem, roots, order, k, delta)
  {
    var roots' := ShiftAll(roots, delta);
    cp', treeNodes, order := WalkCopyRaw(cp, roots', firstCoeff, stride, delta, tree);
    WalkOnCopyVisited(mem, cp, cp', order, firstCoeff, stride, delta, tree);
    WalkOnCopyUnvisited(mem, cp, cp', order, delta);
    forall i | 0 <= i < |roots|
      ensures roots[i] + delta in order
    {
      assert roots'[i] == roots[i] + delta;
    }
    ClosedOnSource(mem, cp, order, delta);
    ReachedOnSource(mem, cp, roots, order, delta);
    ViaChildOnSource(mem, cp, roots, order, delta);
  }

  /** The whole relocation: copy a consistent tree by delta and run the walk on the
      copy. Every node reachable from the moved roots ends up as its source node
      translated by delta (as if built at the new base), every root is reached, the
      walk counts each reachable node once, and every other slot keeps its copy. */
  method RelocateCopy(mem: Memory, roots: seq<int>, firstCoeff: int, stride: int, delta: int, tree: int)
    returns (cp': Memory, treeNodes: nat, order: seq<int>)
    requires TreeShaped(mem, roots, 0) && CoeffConsistent(mem, firstCoeff, stride)
    ensures forall i :: 0 <= i < |roots| ==> roots[i] + delta in order
    ensures treeNodes == |order|
    ensures forall i, j :: 0 <= i < j < |order| ==> order[i] != order[j]
    ensures forall b :: b in order ==>
      b - delta in mem && b in cp' && cp'[b] == TranslateNode(mem[b - delta], delta, tree)
    ensures forall b :: b in cp' && b !in order ==> b - delta in mem && cp'[b] == mem[b - delta]
    ensures forall a, i :: a in mem && a + delta in order && 0 <= i < |mem[a].children| ==>
      SourceChildVisited(mem, order, a, i, delta)
    ensures forall k :: 0 <= k < |order| ==> SourceReachedAt(mem, roots, order, k, delta)
    ensures forall k :: 0 <= k < |order| ==> SourceViaChild(mem, roots, order, k, delta)
    ensures forall b :: b in cp' <==> b - delta in mem
  {
    var cp := Copy(mem, delta);
    CopyKeepsShape(mem, roots, cp, delta);
    CopyDisplacement(mem, roots, cp, firstCoeff, stride, delta);
    cp', treeNodes, order := WalkCopy(mem, cp, roots, firstCoeff, stride, delta, tree);
  }
}
