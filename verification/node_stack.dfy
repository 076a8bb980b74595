/** The node-slot allocator of a serial tree: the status array `NodeStackStatus`
    (maxNodes ordinary slots followed by one sentinel) and the high-water mark
    `nNodes`, the number of slots up to and including the highest occupied one,
    and the free pointer `lastNode`, kept here as the slot index `last` it points at
    (slot k lies at firstNode + k*sizeNodeMeta; slot maxNodes is firstNodeCoeff).
    allocNodes and allocGenNodes share this one stack; DeAllocNodes frees a slot and
    lets the mark retreat only when the top slot is freed. */
module NodeStack {
  import opened Outcome
  import opened Slots

  datatype Stack = Stack(status: seq<int>, nNodes: int, last: int)

  /** The capacity maxNodes: every slot except the trailing sentinel. */
  function MaxNodes(s: Stack): int {
    |s.status| - 1
  }

  /** The state the allocator keeps between calls: a sentinel at index maxNodes,
      0/1 flags below it, no occupied slot at or above the mark, and the slot just
      below the mark occupied unless the mark is 0. Slots below the mark may be free.
      The free pointer stands at the mark, so a new node is built at its own rank. */
  ghost predicate Valid(s: Stack) {
    && |s.status| >= 1
    && s.status[|s.status| - 1] == UNAVAILABLE
    && (forall i :: 0 <= i < |s.status| - 1 ==> s.status[i] == FREE || s.status[i] == OCCUPIED)
    && 0 <= s.nNodes <= |s.status| - 1
    && (forall i :: s.nNodes <= i < |s.status| - 1 ==> s.status[i] == FREE)
    && (s.nNodes == 0 || s.status[s.nNodes - 1] == OCCUPIED)
    && s.last == s.nNodes
  }

  /** The stack as the SerialTree constructor leaves it before allocating roots. */
  function Fresh(maxNodes: nat): (s: Stack)
    ensures Valid(s) && s.nNodes == 0 && MaxNodes(s) == maxNodes
    ensures forall i :: 0 <= i < maxNodes ==> s.status[i] == FREE
  {
    Stack(seq(maxNodes, _ => FREE) + [UNAVAILABLE], 0, 0)
  }

  /** `status` with every in-range index of [lo, hi) set to OCCUPIED. */
  function Mark(status: seq<int>, lo: int, hi: int): (r: seq<int>)
    ensures |r| == |status|
    ensures forall i :: 0 <= i < |status| && lo <= i < hi ==> r[i] == OCCUPIED
    ensures forall i :: 0 <= i < |status| && !(lo <= i < hi) ==> r[i] == status[i]
  {
    seq(|status|, i requires 0 <= i < |status| => if lo <= i < hi then OCCUPIED else status[i])
  }

  /** allocNodes(n) / allocGenNodes(n) with the slot range the allocator means to
      reserve: the mark advances by n, exceeding maxNodes is fatal, and the n slots
      from the old mark on are flagged. The result carries the new stack and the
      rank of the first new slot; the node is built at the slot of that rank, and the
      free pointer moves to the new mark. A slot that was already flagged is only
      logged. */
  function Alloc(s: Stack, n: nat): (r: Result<(Stack, nat)>)
    requires 0 <= s.nNodes
    ensures r.Fatal? <==> s.nNodes + n > MaxNodes(s)
    ensures r.Ok? ==>
      && r.value.1 == s.nNodes
      && r.value.0.nNodes == s.nNodes + n
      && r.value.0.last == r.value.0.nNodes
      && |r.value.0.status| == |s.status|
      && (forall i :: s.nNodes <= i < s.nNodes + n ==> r.value.0.status[i] == OCCUPIED)
      && (forall i :: 0 <= i < |s.status| && !(s.nNodes <= i < s.nNodes + n) ==>
            r.value.0.status[i] == s.status[i])
  {
    var top := s.nNodes + n;
    if top > MaxNodes(s) then
      Fatal("maxNodes exceeded")
    else
      Ok((Stack(Mark(s.status, s.nNodes, top), top, top), s.nNodes))
  }

  /** Allocation from a valid stack hands out slots that were free, keeps the
      sentinel, and leaves a valid stack: no two live nodes ever share a rank. */
  lemma AllocKeepsValid(s: Stack, n: nat)
    requires Valid(s)
    requires Alloc(s, n).Ok?
    ensures Valid(Alloc(s, n).value.0)
    ensures forall i :: s.nNodes <= i < s.nNodes + n ==> s.status[i] == FREE
    ensures Alloc(s, n).value.0.status[MaxNodes(s)] == UNAVAILABLE
  {
  }

  /** The allocation boundary: on a valid stack a single allocation fails exactly
      when all maxNodes slots lie below the mark. */
  lemma AllocBoundary(s: Stack)
    requires Valid(s)
    ensures Alloc(s, 1).Fatal? <==> s.nNodes == MaxNodes(s)
  {
  }

  /** allocNodes(n) exactly as written: the mark is advanced before the loop, so the
      loop flags indices old+n-1 .. old+2n-2 and every iteration overwrites the rank
      of the same returned node, leaving old+2n-2. Indices past the array (which
      the C++ writes out of bounds) are dropped here. The node returned is the one
      at the free pointer, which advances by n and is never moved back. The result
      carries the new stack, the rank stamped on the node and the slot it is at. */
  function AllocAsWritten(s: Stack, n: nat): (r: Result<(Stack, int, int)>)
    requires 0 <= s.nNodes && n >= 1
    ensures r.Fatal? <==> s.nNodes + n > MaxNodes(s)
    ensures r.Ok? ==>
      && r.value.1 == s.nNodes + 2 * n - 2
      && r.value.2 == s.last
      && r.value.0.nNodes == s.nNodes + n
      && r.value.0.last == s.last + n
      && |r.value.0.status| == |s.status|
      && (forall i :: 0 <= i < |s.status| ==>
            r.value.0.status[i] ==
              (if s.nNodes + n - 1 <= i < s.nNodes + 2 * n - 1 then OCCUPIED else s.status[i]))
  {
    var top := s.nNodes + n;
    if top > MaxNodes(s) then
      Fatal("maxNodes exceeded")
    else
      Ok((Stack(Mark(s.status, top - 1, top - 1 + n), top, s.last + n), top + n - 2, s.last))
  }

  /** One slot at a time (the only use in the constructor) the code as written and
      the intended allocation flag the same slot and stamp the same rank; the node
      lies at that rank's slot exactly when the free pointer stood at the mark. */
  lemma AllocAsWrittenSingle(s: Stack)
    requires 0 <= s.nNodes
    ensures AllocAsWritten(s, 1).Fatal? <==> Alloc(s, 1).Fatal?
    ensures AllocAsWritten(s, 1).Ok? ==>
      && AllocAsWritten(s, 1).value.0.status == Alloc(s, 1).value.0.status
      && AllocAsWritten(s, 1).value.0.nNodes == Alloc(s, 1).value.0.nNodes
      && AllocAsWritten(s, 1).value.1 == Alloc(s, 1).value.1
      && (AllocAsWritten(s, 1).value.2 == AllocAsWritten(s, 1).value.1 <==> s.last == s.nNodes)
  {
  }

  /** Two slots requested from an empty stack of capacity 2: the code as written
      leaves slot 0 free, flags slots 1 and 2 (overwriting the sentinel) and gives
      the node rank 2, whereas slots 0 and 1 with rank 0 were meant. */
  lemma AllocAsWrittenOverwritesSentinel()
    ensures AllocAsWritten(Stack([FREE, FREE, UNAVAILABLE], 0, 0), 2)
         == Ok((Stack([FREE, OCCUPIED, OCCUPIED], 2, 2), 2, 0))
    ensures Alloc(Stack([FREE, FREE, UNAVAILABLE], 0, 0), 2)
         == Ok((Stack([OCCUPIED, OCCUPIED, UNAVAILABLE], 2, 2), 0))
    ensures !Valid(AllocAsWritten(Stack([FREE, FREE, UNAVAILABLE], 0, 0), 2).value.0)
  {
    var st := [FREE, FREE, UNAVAILABLE];
    assert Mark(st, 1, 3) == [FREE, OCCUPIED, OCCUPIED];
    assert Mark(st, 0, 2) == [OCCUPIED, OCCUPIED, UNAVAILABLE];
  }

  /** The mark after the top slot at t-1 is freed: walk down past every trailing
      free slot, stopping at 0. */
  function Retreat(status: seq<int>, t: int): (r: int)
    requires 0 <= t <= |status|
    ensures 0 <= r <= t
    ensures forall k :: r <= k < t ==> status[k] == FREE
    ensures r == 0 || status[r - 1] != FREE
    decreases t
  {
    if t > 0 && status[t - 1] == FREE then Retreat(status, t - 1) else t
  }

  /** The retreat loop of DeAllocNodes run iteratively computes the same mark. */
  method RetreatLoop(status: seq<int>, t: int) returns (top: int)
    requires 0 <= t <= |status|
    ensures top == Retreat(status, t)
  {
    top := t;
    while top > 0 && status[top - 1] == FREE
      invariant 0 <= top <= t
      invariant Retreat(status, top) == Retreat(status, t)
      decreases top
    {
      top := top - 1;
    }
  }

  /** DeAllocNodes(r): a negative mark is first bumped by one (and logged); the slot
      is marked free; only when it was the top slot (r == nNodes-1) does the mark
      retreat past the trailing run of free slots. */
  function DeAlloc(s: Stack, r: nat): (s': Stack)
    requires r < |s.status|
    ensures |s'.status| == |s.status| && s'.status[r] == FREE
    ensures s'.last == s'.nNodes
    ensures forall i :: 0 <= i < |s.status| && i != r ==> s'.status[i] == s.status[i]
    ensures var n0 := if s.nNodes < 0 then s.nNodes + 1 else s.nNodes;
      if r == n0 - 1 then
        && 0 <= s'.nNodes <= r
        && (forall k :: s'.nNodes <= k < n0 ==> s'.status[k] == FREE)
        && (s'.nNodes == 0 || s'.status[s'.nNodes - 1] != FREE)
      else
        s'.nNodes == n0
  {
    var n0 := if s.nNodes < 0 then s.nNodes + 1 else s.nNodes;
    var st := s.status[r := FREE];
    var top := if r == n0 - 1 then Retreat(st, n0) else n0;
    Stack(st, top, top)
  }

  /** DeAllocNodes as written: the same flags and mark as DeAlloc, but the free
      pointer lastNode is left where it was. */
  function DeAllocAsWritten(s: Stack, r: nat): (s': Stack)
    requires r < |s.status|
    ensures s'.status == DeAlloc(s, r).status && s'.nNodes == DeAlloc(s, r).nNodes
    ensures s'.last == s.last
  {
    DeAlloc(s, r).(last := s.last)
  }

  /** Once the top node is freed, the code as written leaves the free pointer above
      the mark, so the next node is built at a slot other than its rank: the rank
      records a slot the node does not occupy. */
  lemma AllocAsWrittenAfterTopFree(s: Stack)
    requires Valid(s) && 1 <= s.nNodes
    ensures var d := DeAllocAsWritten(s, s.nNodes - 1);
      && d.last > d.nNodes
      && (AllocAsWritten(d, 1).Ok? ==> AllocAsWritten(d, 1).value.2 != AllocAsWritten(d, 1).value.1)
  {
  }

  /** Capacity 2: allocate two nodes, free the second and allocate again. As written,
      the node stamped rank 1 is built at slot 2, which is firstNodeCoeff, the start
      of the coefficient area; the intended allocator builds it at slot 1. */
  lemma AllocAsWrittenOverrunsNodeArea()
    ensures var s1 := AllocAsWritten(Fresh(2), 1).value.0;
      var s2 := AllocAsWritten(s1, 1).value.0;
      var r := AllocAsWritten(DeAllocAsWritten(s2, 1), 1);
      r.Ok? && r.value.1 == 1 && r.value.2 == 2 && r.value.2 == MaxNodes(Fresh(2))
    ensures var s1 := Alloc(Fresh(2), 1).value.0;
      var s2 := Alloc(s1, 1).value.0;
      var r := Alloc(DeAlloc(s2, 1), 1);
      r.Ok? && r.value.1 == 1 && r.value.0.last == 2
  {
    var s0 := Fresh(2);
    assert s0.status == [FREE, FREE, UNAVAILABLE];
    var s1 := AllocAsWritten(s0, 1).value.0;
    var s2 := AllocAsWritten(s1, 1).value.0;
    assert s2.status[1] == OCCUPIED && s2.status[0] == OCCUPIED;
    var t1 := Alloc(s0, 1).value.0;
    var t2 := Alloc(t1, 1).value.0;
    assert t2.status[0] == OCCUPIED;
  }

  /** Freeing a live slot (not the sentinel) keeps the stack valid. */
  lemma DeAllocKeepsValid(s: Stack, r: nat)
    requires Valid(s) && r < MaxNodes(s)
    ensures Valid(DeAlloc(s, r))
    ensures DeAlloc(s, r).nNodes <= s.nNodes
  {
  }

  /** The indices read by the retreat loop as written, whose condition evaluates
      `status[TopStack-1]` before `TopStack > 0`: when the loop reaches 0 it reads
      index -1, one slot before the array. */
  function RetreatReadsAsWritten(status: seq<int>, t: int): (reads_: seq<int>)
    requires 0 <= t <= |status|
    ensures |reads_| >= 1 && reads_[0] == t - 1
    decreases t
  {
    if t == 0 then [-1]
    else if status[t - 1] == FREE then [t - 1] + RetreatReadsAsWritten(status, t - 1)
    else [t - 1]
  }

  /** The indices read by the retreat loop with the bound tested first. */
  function RetreatReads(status: seq<int>, t: int): (reads_: seq<int>)
    requires 0 <= t <= |status|
    ensures forall k :: 0 <= k < |reads_| ==> 0 <= reads_[k] < t
    decreases t
  {
    if t == 0 then []
    else if status[t - 1] == FREE then [t - 1] + RetreatReads(status, t - 1)
    else [t - 1]
  }

  /** The loop as written reads out of bounds exactly when it retreats all the way
      to 0, and otherwise reads what the bound-first loop reads. */
  lemma {:induction false} RetreatReadsAsWrittenOutOfBounds(status: seq<int>, t: int)
    requires 0 <= t <= |status|
    ensures RetreatReadsAsWritten(status, t) ==
      RetreatReads(status, t) + (if Retreat(status, t) == 0 then [-1] else [])
    ensures (-1 in RetreatReadsAsWritten(status, t)) <==> Retreat(status, t) == 0
    decreases t
  {
    if t > 0 && status[t - 1] == FREE {
      RetreatReadsAsWrittenOutOfBounds(status, t - 1);
    }
    var rs := RetreatReads(status, t);
    assert forall k :: 0 <= k < |rs| ==> rs[k] != -1;
  }

  /** Freeing the only node of a one-slot stack: the loop as written reads index -1. */
  lemma DeAllocSingleReadsBeforeArray()
    ensures RetreatReadsAsWritten([FREE, UNAVAILABLE], 1) == [0, -1]
    ensures RetreatReads([FREE, UNAVAILABLE], 1) == [0]
  {
  }
}
