/** The two coefficient-block allocators of a serial tree: `CoeffStackStatus` with
    counter `nNodesCoeff` for persistent nodes, and `GenCoeffStackStatus` with
    counter `nGenNodesCoeff` for generated nodes. Unlike the node stack, the counter
    is the index of the last block handed out; it starts at -1 and is incremented
    before each allocation. Every block holds the coefficients of 2^D children. */
module CoeffStack {
  import opened Outcome
  import opened Slots

  datatype Stack = Stack(status: seq<int>, top: int)

  /** What an allocation hands back: a block index, or the null pointer returned
      when the slot at the advanced counter is not free. */
  datatype Grant = Granted(stack: Stack, index: nat) | Null(stack: Stack)

  /** What a free leaves: the new stack and whether the "already unallocated"
      anomaly was logged. */
  datatype Freed = Freed(stack: Stack, anomaly: bool)

  /** The capacity maxNodesCoeff (resp. maxGenNodesCoeff): all slots but the sentinel. */
  function MaxBlocks(s: Stack): int {
    |s.status| - 1
  }

  function Pow(b: nat, e: nat): nat {
    if e == 0 then 1 else b * Pow(b, e - 1)
  }

  /** Doubles per block: 2^D children times (order+1)^D coefficients each. */
  function BlockStride(order: nat, dim: nat): nat {
    Pow(2, dim) * Pow(order + 1, dim)
  }

  /** The allocator state between calls: sentinel at maxBlocks, 0/1 flags below it,
      counter in -1..maxBlocks, every slot above the counter free, and the counter's
      own slot in use unless the counter is -1 or 0. */
  ghost predicate Valid(s: Stack) {
    && |s.status| >= 1
    && s.status[|s.status| - 1] == UNAVAILABLE
    && (forall i :: 0 <= i < |s.status| - 1 ==> s.status[i] == FREE || s.status[i] == OCCUPIED)
    && -1 <= s.top <= |s.status| - 1
    && (forall k :: s.top < k < |s.status| - 1 ==> s.status[k] == FREE)
    && (s.top <= 0 || s.status[s.top] != FREE)
  }

  /** The stack as constructed: all slots free, sentinel set, counter -1. */
  function Fresh(maxBlocks: nat): (s: Stack)
    ensures Valid(s) && s.top == -1 && MaxBlocks(s) == maxBlocks
    ensures forall i :: 0 <= i < maxBlocks ==> s.status[i] == FREE
  {
    Stack(seq(maxBlocks, _ => FREE) + [UNAVAILABLE], -1)
  }

  /** The block pointer table `CoeffStack`: block i starts `stride` doubles after block i-1. */
  function BlockAddresses(base: int, stride: nat, count: nat): (a: seq<int>)
    ensures |a| == count
    ensures forall i :: 0 <= i < count ==> a[i] - base == i * stride
  {
    seq(count, i => base + i * stride)
  }

  /** Distinct blocks never overlap, so no coefficient is shared by two blocks. */
  lemma BlocksDisjoint(base: int, stride: nat, count: nat, i: nat, j: nat)
    requires i < j < count
    ensures BlockAddresses(base, stride, count)[i] + stride <= BlockAddresses(base, stride, count)[j]
  {
    var a := BlockAddresses(base, stride, count);
    assert a[j] - a[i] == (j - i) * stride;
    assert (j - i) * stride >= stride by {
      assert j - i >= 1;
    }
  }

  /** allocCoeff / allocGenCoeff: a request for anything but one block of 2^D
      children is fatal; the counter is advanced; passing maxBlocks is fatal; a slot
      that is not free gives the null pointer (the counter stays advanced, nothing
      is flagged); otherwise the slot is flagged and its index handed out. */
  function AllocBlock(s: Stack, nAlloc: int, dim: nat): (r: Result<Grant>)
    requires -1 <= s.top
    ensures r.Fatal? <==> nAlloc != Pow(2, dim) || s.top + 1 > MaxBlocks(s)
    ensures r.Ok? && r.value.Granted? ==>
      && r.value.index == s.top + 1
      && s.status[r.value.index] == FREE
      && r.value.stack == Stack(s.status[r.value.index := OCCUPIED], s.top + 1)
    ensures r.Ok? && r.value.Null? ==>
      && s.status[s.top + 1] != FREE
      && r.value.stack == Stack(s.status, s.top + 1)
  {
    if nAlloc != Pow(2, dim) then
      Fatal("Only 2**D implemented now!")
    else
      var t := s.top + 1;
      if t > MaxBlocks(s) then Fatal("maxNodesCoeff exceeded")
      else if s.status[t] != FREE then Ok(Null(Stack(s.status, t)))
      else Ok(Granted(Stack(s.status[t := OCCUPIED], t), t))
  }

  /** On a valid stack the null pointer comes back only from the sentinel: a block
      request of the right size is granted exactly while the counter is below
      maxBlocks-1, and the stack stays valid either way. */
  lemma AllocBlockOnValid(s: Stack, dim: nat)
    requires Valid(s)
    ensures var r := AllocBlock(s, Pow(2, dim), dim);
      && (r.Ok? && r.value.Granted? <==> s.top + 1 < MaxBlocks(s))
      && (r.Ok? && r.value.Null? <==> s.top + 1 == MaxBlocks(s))
      && (r.Ok? ==> Valid(r.value.stack))
  {
  }

  /** The counter after freeing its own slot t: move down past free slots, never below 0. */
  function Retreat(probe: seq<int>, t: int): (r: int)
    requires 0 <= t < |probe|
    ensures 0 <= r <= t
    ensures forall k :: r < k <= t ==> probe[k] == FREE
    ensures r == 0 || probe[r] != FREE
    decreases t
  {
    if probe[t] == FREE && t > 0 then Retreat(probe, t - 1) else t
  }

  /** The retreat loop of DeAllocCoeff run iteratively computes the same counter. */
  method RetreatLoop(probe: seq<int>, t: int) returns (top: int)
    requires 0 <= t < |probe|
    ensures top == Retreat(probe, t)
  {
    top := t;
    while probe[top] == FREE && top > 0
      invariant 0 <= top <= t
      invariant Retreat(probe, top) == Retreat(probe, t)
      decreases top
    {
      top := top - 1;
    }
  }

  /** DeAllocCoeff(ix): freeing a free slot is logged but the flag is cleared anyway;
      a free of the counter's own slot moves the counter down past free slots. */
  function DeAllocCoeff(s: Stack, ix: nat): (r: Freed)
    requires ix < |s.status|
    ensures r.anomaly <==> s.status[ix] == FREE
    ensures r.stack.status == s.status[ix := FREE]
    ensures ix != s.top ==> r.stack.top == s.top
    ensures ix == s.top ==>
      && 0 <= r.stack.top <= ix
      && (forall k :: r.stack.top < k <= ix ==> r.stack.status[k] == FREE)
      && (r.stack.top == 0 || r.stack.status[r.stack.top] != FREE)
  {
    var st := s.status[ix := FREE];
    Freed(if ix == s.top then Stack(st, Retreat(st, ix)) else Stack(st, s.top), s.status[ix] == FREE)
  }

  /** Freeing a block (not the sentinel) keeps the persistent stack valid. */
  lemma DeAllocCoeffKeepsValid(s: Stack, ix: nat)
    requires Valid(s) && ix < MaxBlocks(s)
    ensures Valid(DeAllocCoeff(s, ix).stack)
  {
  }

  /** DeAllocGenCoeff(ix) with the retreat reading the generated stack's own flags:
      freeing a free slot changes nothing; otherwise as DeAllocCoeff. */
  function DeAllocGenCoeff(s: Stack, ix: nat): (r: Freed)
    requires ix < |s.status|
    ensures r.anomaly <==> s.status[ix] == FREE
    ensures r.anomaly ==> r.stack == s
    ensures !r.anomaly ==> r.stack == DeAllocCoeff(s, ix).stack
  {
    if s.status[ix] == FREE then Freed(s, true)
    else
      var st := s.status[ix := FREE];
      Freed(if ix == s.top then Stack(st, Retreat(st, ix)) else Stack(st, s.top), false)
  }

  /** Freeing a generated block keeps the generated stack valid. */
  lemma DeAllocGenCoeffKeepsValid(s: Stack, ix: nat)
    requires Valid(s) && ix < MaxBlocks(s)
    ensures Valid(DeAllocGenCoeff(s, ix).stack)
  {
  }

  /** DeAllocGenCoeff exactly as written: its retreat loop tests the persistent
      stack's flags `coeffStatus` instead of the generated stack's. */
  function DeAllocGenCoeffAsWritten(s: Stack, coeffStatus: seq<int>, ix: nat): (r: Freed)
    requires ix < |s.status| && |coeffStatus| == |s.status|
    ensures r.anomaly <==> s.status[ix] == FREE
    ensures r.anomaly ==> r.stack == s
    ensures !r.anomaly ==> r.stack.status == s.status[ix := FREE]
    ensures !r.anomaly && ix == s.top ==> r.stack.top == Retreat(coeffStatus, ix)
  {
    if s.status[ix] == FREE then Freed(s, true)
    else
      var st := s.status[ix := FREE];
      Freed(if ix == s.top then Stack(st, Retreat(coeffStatus, ix)) else Stack(st, s.top), false)
  }

  /** Three generated blocks in use, no persistent block in use, the top one freed:
      as written the counter drops to 0 below the still-used block 1, and the next
      request gets the null pointer at index 1 with two slots of capacity left.
      Reading the generated flags instead stops the counter at 1. */
  lemma DeAllocGenCoeffAsWrittenLosesBlock()
    ensures var s := Stack([OCCUPIED, OCCUPIED, OCCUPIED, UNAVAILABLE], 2);
      var bad := DeAllocGenCoeffAsWritten(s, [FREE, FREE, FREE, UNAVAILABLE], 2).stack;
      && Valid(s)
      && bad.top == 0
      && !Valid(bad)
      && AllocBlock(bad, 8, 3) == Ok(Null(Stack(bad.status, 1)))
      && DeAllocGenCoeff(s, 2).stack.top == 1
      && Valid(DeAllocGenCoeff(s, 2).stack)
  {
    var s := Stack([OCCUPIED, OCCUPIED, OCCUPIED, UNAVAILABLE], 2);
    var probe := [FREE, FREE, FREE, UNAVAILABLE];
    assert Retreat(probe, 2) == 0 by {
      assert Retreat(probe, 0) == 0;
    }
    assert Pow(2, 3) == 8;
    DeAllocGenCoeffKeepsValid(s, 2);
  }
}
