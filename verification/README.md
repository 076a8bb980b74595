# Serial tree storage and multiwavelet filter bank of MRCPP

This project models two pieces of MRCPP, the multiresolution multiwavelet
library, and proves properties of the models in Dafny.

**The serial tree storage engine (`SerialTree.cpp`).** A function tree keeps all
of its nodes and coefficients in one flat buffer, handed out by three stack
allocators: one for node slots and two for coefficient blocks. The model has one
module per part:

- `NodeStack`: the node slots, with a status array ending in a `-1` sentinel, a
  high-water mark `nNodes`, and the free pointer `lastNode` (kept as the slot
  index it points at).
- `CoeffStack`: the persistent and the generated coefficient blocks. Each has its
  own status array with a sentinel and a counter that starts at `-1`.
  `SerialTree.New` builds the initial state of all three allocators and
  allocates the root nodes.
- `Relocate`: after the buffer has been copied byte by byte to another address,
  `RewritePointers` walks the tree from its roots. It re-derives each node's
  coefficient pointer from its block index and shifts each parent and child
  pointer by one displacement.
- `Combine`: `SerialTreeAdd` walks two trees in lockstep and computes
  `A := A + c·B`. Where one tree is finer, it first grows generated children on
  the other side. The node pair is combined by a per-case rule that depends on
  which nodes hold wavelet coefficients. At the end the leaf squared norms are
  summed.
- `Transform`: the selection structure of the separable 3-D kernels
  `S_mwTransform` (reconstruction, parent to 8 children) and `S_mwTransformBack`
  (compression, 8 children to parent). In each of the three passes it fixes
  which output block reads which input block, with which of the 4 sub-filters,
  from which buffer and at which offset, and whether the result overwrites or
  accumulates. The floating-point work of `applyFilter` is not modelled. A kernel
  is described by the sequence of filter applications it performs.

**The filter bank (`src/core/MWFilter.cpp`, module `MWFilter`).** A filter of
order `k` is a `2K × 2K` matrix with `K = k + 1`, made of four `K × K` blocks
G0, G1, H0 and H1. The module models:

- both constructors and their order and type checks;
- the search path for the filter files;
- the symmetry rules that derive G1 and H1 from the G0 and H0 read from disk;
- the block cache and its transposes;
- the sub-filter getters;
- the dimension checks of `apply` and `applyInverse`.

Matrices are `seq<seq<real>>`.

`Outcome` holds `Result` (`Ok` or `Fatal`, the latter standing for
`MSG_FATAL` and `INVALID_ARG_ABORT`) and `Option`. `Slots` holds the status
constants 0 (free), 1 (occupied) and -1 (unavailable).

Addresses are integers counted in doubles, not bytes. The allocators are pure
functions on immutable states. The loops of the source appear twice: as
recursive reference functions, and as iterative methods proved equal to them.

## Model

| member | source | states |
|---|---|---|
| NodeStack.Fresh | SerialTree.cpp:70-83 | every one of the maxNodes slots is free, the slot at maxNodes is the sentinel, the mark and the free pointer are 0, and the state satisfies the allocator invariant |
| NodeStack.Alloc | SerialTree.cpp:735-755 | the corrected allocNodes/allocGenNodes of n slots: fatal exactly when the mark would pass maxNodes; otherwise the rank returned is the old mark and the node is built at that rank's slot, the mark grows by n and the free pointer follows it, exactly slots old..old+n-1 become occupied and no other slot changes |
| NodeStack.AllocKeepsValid | SerialTree.cpp:748-753 | on a valid stack the slots handed out were free, the sentinel survives and the allocator invariant is preserved |
| NodeStack.AllocBoundary | SerialTree.cpp:737-742 | a one-slot allocation on a valid stack fails exactly when the mark has reached maxNodes |
| NodeStack.AllocAsWritten | SerialTree.cpp:735-755 | the code as written marks the slots among old+n-1..old+2n-2 that lie within the status array and leaves the node stamped with rank old+2n-2, while the mark grows by n; the node returned is the one at the free pointer, which advances by n whatever the mark is |
| NodeStack.AllocAsWrittenSingle | SerialTree.cpp:107 | for one slot, the only size the constructor requests, the code as written and the intended allocation agree in verdict, flags, mark and rank, and the node lies at its rank's slot exactly when the free pointer stood at the mark |
| NodeStack.AllocAsWrittenOverwritesSentinel | SerialTree.cpp:749-752 | a two-slot request on an empty two-slot stack overwrites the sentinel, leaves slot 0 free and breaks the invariant, where the intended allocation takes slots 0 and 1 |
| NodeStack.Retreat | SerialTree.cpp:765-768 | the retreated mark is at most the old one, every slot between them is free, and the slot just below it is not free unless the mark reached 0 |
| NodeStack.RetreatLoop | SerialTree.cpp:765-769 | the top-of-stack loop computes the same mark as the reference retreat |
| NodeStack.DeAlloc | SerialTree.cpp:758-771 | the corrected DeAllocNodes clears exactly slot r; when r is the top slot the mark retreats past the trailing free slots, otherwise it is unchanged (after the repair of a negative mark); the free pointer follows the mark |
| NodeStack.DeAllocAsWritten | SerialTree.cpp:758-771 | DeAllocNodes as written sets the same flags and mark but never moves the free pointer back |
| NodeStack.AllocAsWrittenAfterTopFree | SerialTree.cpp:744-746 | once the top node of a valid stack is freed, the free pointer as written stays above the mark, and the next node is built at a slot other than the rank stamped on it |
| NodeStack.AllocAsWrittenOverrunsNodeArea | SerialTree.cpp:72-73 | on a two-slot stack, allocate twice, free the second node and allocate again: as written the node of rank 1 is built at slot 2, the start of the coefficient area; the corrected allocator builds it at slot 1 |
| NodeStack.DeAllocKeepsValid | SerialTree.cpp:763-770 | freeing a slot keeps the allocator invariant and never raises the mark |
| NodeStack.RetreatReadsAsWritten | SerialTree.cpp:766 | the loop as written reads status[TopStack-1] before testing TopStack > 0, so its first read is one below the mark |
| NodeStack.RetreatReads | SerialTree.cpp:766 | with the tests in the intended order every status read is inside 0..mark-1 |
| NodeStack.RetreatReadsAsWrittenOutOfBounds | SerialTree.cpp:766 | the reads as written are the intended reads plus one read of index -1, present exactly when the retreat reaches 0 |
| NodeStack.DeAllocSingleReadsBeforeArray | SerialTree.cpp:764-768 | freeing the only node of a one-slot stack reads index -1 |
| CoeffStack.Fresh | SerialTree.cpp:85-89 | every block slot is free, the sentinel is at maxNodesCoeff, the counter is -1, and the invariant holds |
| CoeffStack.BlockAddresses | SerialTree.cpp:86 | block pointer i lies exactly i strides past the start of the coefficient area |
| CoeffStack.BlocksDisjoint | SerialTree.cpp:92 | two different blocks of the pointer table never overlap |
| CoeffStack.AllocBlock | SerialTree.cpp:798-816 | fatal exactly for a request other than 2^D or a counter pushed past maxNodesCoeff; otherwise the counter advances by one and either the free slot there is flagged and returned, or a slot that is not free yields the null pointer with nothing flagged |
| CoeffStack.AllocBlockOnValid | SerialTree.cpp:806-811 | on a valid stack the null pointer comes back exactly when the counter reaches the sentinel, a block is granted exactly below it, and the invariant holds afterwards |
| CoeffStack.Retreat | SerialTree.cpp:826-828 | the retreated counter is at most the old one, every slot above it up to the old one is free, and its own slot is not free unless it is 0 |
| CoeffStack.RetreatLoop | SerialTree.cpp:825-829 | the top-of-stack loop computes the same counter as the reference retreat |
| CoeffStack.DeAllocCoeff | SerialTree.cpp:820-831 | the "already unallocated" anomaly is reported exactly for a free slot, the slot is cleared either way, and only a free of the top block moves the counter, down past the trailing free slots but never below 0 |
| CoeffStack.DeAllocCoeffKeepsValid | SerialTree.cpp:823-830 | freeing a block keeps the coefficient allocator invariant |
| CoeffStack.DeAllocGenCoeff | SerialTree.cpp:858-872 | freeing an already free generated block changes nothing; otherwise it behaves as the persistent free on the generated stack's own flags |
| CoeffStack.DeAllocGenCoeffKeepsValid | SerialTree.cpp:863-870 | freeing a generated block keeps the invariant |
| CoeffStack.DeAllocGenCoeffAsWritten | SerialTree.cpp:866 | as written the retreat of the generated counter is steered by the persistent stack's flags |
| CoeffStack.DeAllocGenCoeffAsWrittenLosesBlock | SerialTree.cpp:864-869 | with three generated blocks in use and no persistent ones, freeing the top one drops the counter to 0 and breaks the invariant, after which the next request returns the null pointer; the intended free stops at 1 |
| SerialTree.AllocRoots | SerialTree.cpp:103-109 | k root allocations fail exactly when k slots do not fit; otherwise the roots get consecutive ranks from the old mark and exactly those slots become occupied |
| SerialTree.New | SerialTree.cpp:76-109 | construction fails exactly when the root box is larger than maxNodes; otherwise all three allocators are valid, the roots have ranks 0..k-1 in root-box order and every other node slot is free; the coefficient allocators are as lines 85-95 leave them (every slot free, each sentinel -1, both counters -1, block i of either table at its base plus i strides), since the node constructor that runs next is not part of this model |
| Relocate.ShiftAll | SerialTree.cpp:168-171 | every stored child pointer is moved by exactly the displacement |
| Relocate.RelocateNode | SerialTree.cpp:169-177 | the corrected per-node rewrite: non-null parent and every child moved by d, a null parent kept, the coefficient pointer re-derived as firstNodeCoeff + index·stride whatever it was, and the tree back-reference set to the local tree |
| Relocate.RelocateNodeAsWritten | SerialTree.cpp:174 | as written the parent pointer is shifted unconditionally, so the null parent of a root becomes d |
| Relocate.RelocateAsWrittenBreaksRootParent | SerialTree.cpp:174 | for a root copied 8 doubles further on, the rewrite as written gives parent 8 instead of null, while the corrected rewrite matches the tree built at the new base |
| Relocate.WalkStep | SerialTree.cpp:164-172 | one pop-and-push step keeps the walk's bookkeeping: visits without repetition, each reached through its parent, and every root and every child of a visited node either visited or on the stack |
| Relocate.WalkDone | SerialTree.cpp:164 | when the stack empties, the visit order contains every root and is closed under children |
| Relocate.DisplacementAsWrittenNeedsBlockZero | SerialTree.cpp:150 | d_p_shift as written equals the block-aware displacement exactly when the first root's block starts the coefficient area |
| Relocate.DisplacementAsWrittenMissesShift | SerialTree.cpp:150 | a one-node tree whose root owns block 1, copied 8 doubles on: d_p_shift as written is -56, the block-aware displacement is 8 |
| Relocate.StepViaChild | SerialTree.cpp:164-172 | one pop-and-push step keeps every visited and every stacked node a root or a child of a node visited before it |
| Relocate.VisitedWithinClosed | SerialTree.cpp:160-172 | the nodes the walk visits lie in every set that holds the roots and is closed under children: they are the nodes reachable from the roots through child pointers |
| Relocate.UnlistedSlotNotVisited | SerialTree.cpp:164-172 | a slot whose parent pointer names the root but which the root does not list as a child cannot be visited: the order [root] meets the child-reachability clause and [root, slot] does not |
| Relocate.WalkCountDetermined | SerialTree.cpp:163-172 | any two visit orders with the walk's guarantees hold the same nodes and have the same length, so the node count the walk leaves is fixed by the tree |
| Relocate.RewritePointers | SerialTree.cpp:118-184 | the walk visits exactly the nodes reachable from the roots through child pointers: every root, every child of a visited node, and nothing else, since each visited node is a root or a child of a node visited before it; each is visited once and after its parent; the tree's node count (lines 163-165, not the allocator's nNodes) becomes the number of visits; every visited slot is rewritten by RelocateNode with the block-aware displacement and every other slot is untouched |
| Relocate.Copy | SerialTree.cpp:145-150 | the byte copy moves every slot by delta and keeps its stored pointers verbatim |
| Relocate.CopyKeepsShape | SerialTree.cpp:160-172 | a tree well linked at its own address is, once copied, well linked for a walk with displacement delta |
| Relocate.CopyDisplacement | SerialTree.cpp:150 | for a tree whose coefficient pointers all lie in the persistent area at their block index (no generated nodes), the block-aware displacement computed from the first root equals the distance the buffer was moved, whichever block that root owns |
| Relocate.RelocateCopyRoundTrip | SerialTree.cpp:150-181 | for such a tree copied by any delta, the copy meets the walk's precondition with displacement delta, and the per-slot rewrite of every slot of the copy equals its source slot as it would have been built at the new base |
| Relocate.WalkOnCopyVisited | SerialTree.cpp:164-181 | a walk with displacement delta over such a copy leaves every visited slot equal to its source node translated by delta |
| Relocate.WalkOnCopyUnvisited | SerialTree.cpp:164-181 | the same walk leaves every slot it does not visit holding its verbatim copy |
| Relocate.ClosedOnSource | SerialTree.cpp:164-172 | the walk's closure under children, read back through the copy: every child of a visited source node, moved by delta, is visited too |
| Relocate.ViaChildOnSource | SerialTree.cpp:164-172 | reachability through child pointers, read back through the copy: every visited node is a moved source root or a child, moved by delta, of a source node visited before it |
| Relocate.ReachedOnSource | SerialTree.cpp:160-172 | the walk's parent-first order, read back through the copy: every visited node is a moved source root, or its source parent moved by delta was visited before it |
| Relocate.WalkCopy | SerialTree.cpp:160-181 | the walk over such a copy, stated at the source addresses: every moved root is visited; each visited node is counted once; the visits are closed under children and each non-root comes after its parent and is a moved child of a source node visited before it; every visited slot becomes its translated source node; every other slot stays as copied |
| Relocate.RelocateCopy | SerialTree.cpp:145-181 | copy a consistent tree by any delta and run the walk. Every moved root is visited. The visits are closed under children: each child of a visited source node, moved by delta, is visited. So every node reachable from the roots is visited. Each visited node is a moved root, or a moved child of a source node visited before it, so nothing else is visited. Each non-root also comes after its moved parent. Each is counted once and becomes its source node as built at the new base. The slots are exactly the source slots moved by delta, and unvisited ones keep their copy |
| Relocate.CopyRelocatesToTranslation | SerialTree.cpp:169-177 | every slot of a copy, rewritten, equals its source slot translated to the new base |
| Relocate.RelocateConsistentNode | SerialTree.cpp:177 | re-deriving the coefficient pointer from the block index agrees with shifting it, whenever the stored pointer matched its index |
| Combine.CombineNodes | SerialTree.cpp:244-260 | the scaling part always becomes a + c·b; the wavelet part becomes a + c·b when both nodes have wavelets, stays a when only A has them, becomes c·b when only B has them, and stays a when neither has; A is then flagged |
| Combine.CombineIsPaddedSum | SerialTree.cpp:250-259 | whenever either node carries wavelets, the combined node is exactly a + c·b with a missing wavelet part read as zero |
| Combine.ExpandLength | SerialTree.cpp:223-241 | both sides of a pair get the same number of children after generation, and none exactly when neither had children |
| Combine.AddShapeIsUnion | SerialTree.cpp:218-242 | the combined tree has the union of the two trees' shapes: a leaf facing an inner node grows its children |
| Combine.AddFlagsEveryNode | SerialTree.cpp:260 | every node of the combined tree has its wavelet flag set |
| Combine.SubtractSelfIsZero | SerialTree.cpp:244-260 | adding -1 times a tree with wavelets everywhere to itself gives the same shape with all coefficients 0 |
| Combine.ZeroedNormIsZero | SerialTree.cpp:261-262 | under a norm that gives 0 to an all-zero coefficient vector, the leaf norms of a tree whose coefficients are all 0 sum to 0 |
| Combine.SubtractSelfNormIsZero | SerialTree.cpp:244-262 | under such a norm, adding -1 times a tree with wavelets everywhere to itself gives a tree whose square norm is 0 |
| Combine.PopPair | SerialTree.cpp:218-263 | popping a pair and pushing its children splits the pending work exactly: the norm sum and node count before the pop equal those after it plus the popped pair's own share (its combined norm if it is a leaf, and one node) |
| Combine.SerialTreeAdd | SerialTree.cpp:188-270 | fatal exactly when the root counts differ; otherwise the square norm returned is the sum of the leaf norms of the combined tree and the number of pairs visited is its node count |
| Transform.FilterIndex | SerialTree.cpp:530 | the sub-filter index is 2·bit_i(gt) + bit_i(ft) and always lies in 0..3 |
| Transform.MatchesIffOtherBitsAgree | SerialTree.cpp:528 | (gt \| mask) == (ft \| mask) holds exactly when gt and ft agree on both other directions |
| Transform.MatchesPartners | SerialTree.cpp:528 | every output block pairs with exactly two input blocks in a pass, itself with bit i cleared and set, and the pairing is symmetric |
| Transform.FilterIndexSwap | SerialTree.cpp:530 | exchanging output and input block swaps the two bits of the sub-filter index |
| Transform.PassAppliesSpec | SerialTree.cpp:522-540 | a pass applies exactly the matching pairs below its limit (1, 2, 4 in scaling-only reconstruction, 8 otherwise), each with its sub-filter index, offsets and overwrite flag, and the flag is set exactly when the bit-cleared partner has already written the block |
| Transform.ScalingOnlyReadsScalingBlock | SerialTree.cpp:512-533 | with read-only scaling coefficients the first reconstruction pass reads only the parent's scaling block at offset 0 and writes only blocks 0 and 1 |
| Transform.ReadsWereWritten | SerialTree.cpp:543-579 | passes 1 and 2 read only blocks that the previous pass replaced at the same place, in both modes and both directions, so uninitialised scratch is never read |
| Transform.ReconstructionWritesEveryChild | SerialTree.cpp:562-579 | the last reconstruction pass writes all 8 children, child gt at gt·Children_Stride of the output |
| Transform.CompressionReadsEveryChild | SerialTree.cpp:673-689 | the first compression pass reads all 8 children, child ft at ft·Children_Stride of the input |
| Transform.ReversedStep | SerialTree.cpp:679-681 | for every pair the compression pass applies, the full reconstruction pass applies the reversed pair, and its sub-filter index is the bit-swapped one |
| Transform.CompressionAppliesAdjointTaps | SerialTree.cpp:682 | for the filter bank cut from any 2K × 2K matrix, every compression step fetches the transpose of the sub-filter that the reversed reconstruction step fetches |
| Transform.Transform | SerialTree.cpp:497 | a kernel is fatal exactly when D is not 3; otherwise it performs the three passes of the reference schedule |
| Transform.RunBlock | SerialTree.cpp:524-539 | the inner loop over input blocks performs exactly the reference applications for one output block |
| Transform.RunPass | SerialTree.cpp:522-540 | the loop over output blocks performs exactly the reference applications of the pass |
| MWFilter.Block | src/core/MWFilter.cpp:96 | a block has the requested shape, and entry (i, j) is the filter's entry (r0+i, c0+j) |
| MWFilter.Transpose | src/core/MWFilter.cpp:100 | the transpose has swapped dimensions and entry (i, j) equal to (j, i) |
| MWFilter.TransposeInvolutive | src/core/MWFilter.cpp:100-103 | transposing twice gives the original matrix |
| MWFilter.AssembleThenQuadrants | src/core/MWFilter.cpp:94-99 | cutting an assembled 2K × 2K matrix gives back G0, G1, H0 and H1 |
| MWFilter.QuadrantsThenAssemble | src/core/MWFilter.cpp:94-99 | reassembling the four quadrants of a 2K × 2K filter gives back the filter |
| MWFilter.FillFilterBlocks | src/core/MWFilter.cpp:94-104 | the cached blocks are the filter's four quadrants and their transposes; kind, order, matrix and paths are kept |
| MWFilter.CompressionSubFilter | src/core/MWFilter.cpp:141-154 | defined exactly for indices 0..3; any other index is fatal with "Filter index out of bounds" |
| MWFilter.ReconstructionSubFilter | src/core/MWFilter.cpp:156-169 | defined exactly for indices 0..3; any other index is fatal with "Filter index out of bounds" |
| MWFilter.SubFilter | src/core/MWFilter.cpp:106-139 | defined exactly for a known operation and an index in 0..3 |
| MWFilter.SubFilterAgrees | src/core/MWFilter.cpp:106-169 | the generic getter returns what the two specific getters return, and any other operation code is fatal with "Invalid wavelet transformation" |
| MWFilter.SubFiltersAreQuadrants | src/core/MWFilter.cpp:108-134 | reconstruction index i is the quadrant (1 - i mod 2, i div 2), i.e. H0, G0, H1, G1; compression index i is the transpose of quadrant (1 - i div 2, i mod 2), i.e. H0t, H1t, G0t, G1t |
| MWFilter.CompressionIsAdjointOfReconstruction | src/core/MWFilter.cpp:108-134 | compression sub-filter i is the transpose of reconstruction sub-filter swapbits(i), with 1 and 2 exchanged and 0 and 3 fixed |
| MWFilter.G1FromG0 | src/core/MWFilter.cpp:244-260 | Interpol: G1(i, j) = (-1)^(i+K)·G0(i, K-1-j); Legendre: G1(i, j) = (-1)^(i+j+K)·G0(i, j) |
| MWFilter.H1FromH0 | src/core/MWFilter.cpp:244-260 | Interpol: H1 is H0 turned by 180 degrees; Legendre: H1(i, j) = (-1)^(i+j)·H0(i, j) |
| MWFilter.SymmetryInvolutive | src/core/MWFilter.cpp:243-261 | each symmetry rule applied twice gives back its input, so the derived half determines the stored half |
| MWFilter.ReadFilterBin | src/core/MWFilter.cpp:216-261 | a missing H file is fatal first, then a missing G file, each naming the path; otherwise the G0 and H0 quadrants are the row-major file contents and G1 and H1 follow by symmetry |
| MWFilter.ParseNatToString | src/core/MWFilter.cpp:192-194 | the decimal text of the order parses back to the order |
| MWFilter.FilterPaths | src/core/MWFilter.cpp:191-214 | succeeds exactly for the Interpol and Legendre types; any other type is fatal with "Invalid filter type" |
| MWFilter.PathsShape | src/core/MWFilter.cpp:197-210 | the library is lib when non-empty and the default otherwise, and the paths are that library + "/I_H0_" or "/L_H0_" (resp. G0) + the order |
| MWFilter.PathsDetermineFilter | src/core/MWFilter.cpp:202-210 | the H and G paths differ, and within one library the H path determines both the type and the order |
| MWFilter.NextDefaultLibAsWritten | src/core/MWFilter.cpp:61-62 | as written a set MRCPP_FILTER_DIR replaces the default library by a one-character string |
| MWFilter.NextDefaultLib | src/core/MWFilter.cpp:61-62 | the corrected default: the variable's whole value when set, the previous default when not |
| MWFilter.DefaultLibAsWrittenTruncates | src/core/MWFilter.cpp:62 | as written and corrected agree exactly when the variable is unset or one character long; "/opt/filters" becomes "/" |
| MWFilter.FromFile | src/core/MWFilter.cpp:50-71 | succeeds exactly for order in 1..MaxOrder, a known type and both files present, and an order outside that range is fatal; the filter is 2K × 2K, the paths are those of setFilterPaths taken in the default library of the corrected line 62 (NextDefaultLib, see Findings), G0 and H0 are the file contents, G1 and H1 follow by symmetry, and the block cache is consistent |
| MWFilter.LoadedHalvesDetermineEachOther | src/core/MWFilter.cpp:243-261 | in a filter read from disk, G0 and H0 are recovered from G1 and H1 by the same rules |
| MWFilter.FromMatrix | src/core/MWFilter.cpp:73-87 | the order is cols/2 - 1; it succeeds exactly when that lies in 0..MaxOrder, any type being accepted; the matrix is kept and the block cache is consistent |
| MWFilter.FromMatrixOfLoaded | src/core/MWFilter.cpp:73-87 | rebuilding a loaded filter from its own matrix gives the same filter, without the paths |
| MWFilter.Apply | src/core/MWFilter.cpp:171-174 | aborts exactly when the data's row count is not the filter's column count; otherwise the result is the matrix product, entry by entry |
| MWFilter.ApplyVector | src/core/MWFilter.cpp:181-184 | aborts exactly when the vector's length is not the filter's column count; otherwise the result has one entry per filter row, entry i being the inner product of filter row i with the vector |
| MWFilter.ApplyVectorIdentity | src/core/MWFilter.cpp:181-184 | the identity filter leaves a vector of matching length unchanged |
| MWFilter.ApplyActsColumnwise | src/core/MWFilter.cpp:171-184 | applying to a matrix succeeds exactly when applying to each of its columns does, and column j of the result is the filter applied to column j |
| MWFilter.ApplyIdentity | src/core/MWFilter.cpp:171-174 | the identity filter leaves the data unchanged |
| MWFilter.ApplyInverseAsWritten | src/core/MWFilter.cpp:176-179 | as written the dimension test compares the data rows with the filter's columns, so a non-square filter passes data for which the transposed product is undefined |
| MWFilter.ApplyInverse | src/core/MWFilter.cpp:176-179 | the corrected test aborts exactly when the data rows differ from the filter rows; otherwise the result is the transpose of the filter times the data |
| MWFilter.ApplyInverseIsApplyOfTranspose | src/core/MWFilter.cpp:178 | applyInverse is apply with the transposed filter |
| MWFilter.ApplyInverseAsWrittenOnSquare | src/core/MWFilter.cpp:176-179 | on a square filter, the only kind the file constructor builds, the dimension test as written and the corrected one agree |
| MWFilter.ApplyInverseAsWrittenCounterexample | src/core/MWFilter.cpp:177 | a 6 × 4 filter from the matrix constructor lets 4-row data through to an undefined product and rejects 6-row data that the transpose accepts |

## Left out

- `src/utils/Plotter.cpp` is not part of this model. It is visualisation: file
  output and floating-point grid generation.
- The numeric content of `MathUtils::applyFilter`, `GenS_nodes` and `calcNorms`
  is left out. These are floating point and not visible. In `Combine`, the
  generated children are a function parameter `gen` and the node norm is a
  parameter `norm`. In `Transform`, the filter steps are data, not arithmetic.
- Byte sizes, `sizeof`, alignment to 16 bytes, placement `new` and pointer casts
  are left out (SerialTree.cpp:35-73, 150-153). Addresses are integers counted in
  doubles, block strides are `2^D (k+1)^D`, and the node metadata layout is a
  record.
- Logging, `Timer`s and the MPI send are left out. Anomalies that the source only
  logs are returned as a flag (`CoeffStack.Freed.anomaly`) or not returned at all.
- `SerialTreeAdd_Up`, `S_mwTreeTransformUp` and the destructor are not modelled.
  They are traversal control over external node operations, and memory release.
- The `RewritePointers` stack is bounded by `DepthMax*8` entries in the source.
  The model's stack is unbounded.
- NodeStack.AllocAsWritten: for n >= 3 the loop writes past the end of
  `NodeStackStatus` (index maxNodes is the sentinel, beyond it is not the
  array). The model drops those out-of-bounds writes and states only the flags
  within the array.
- Relocate.RewritePointers: requires every slot of the node area to be shaped
  (`TreeShaped`), not only those reachable from the roots. The source walks only
  the reachable nodes and never reads stale slots left by freed nodes. The model
  therefore promises nothing for a buffer whose unreachable slots hold
  inconsistent links.
- Relocate.RewritePointers: the rebuild of the tree's end-node table
  (`resetEndNodeTable`, SerialTree.cpp:182) is not modelled. The table lives in
  the tree object, outside the node area the walk rewrites. The same holds for
  the calls at lines 111 and 276, after the constructor and after
  `SerialTreeAdd`.
- Relocate.RelocateNode: the reset of each node's `coefs` pointer to the address
  of its own `coefvec` member (SerialTree.cpp:180) is not modelled. The model's
  node record has no field for it. `coefAddr` is the coefficient pointer that
  `coefvec` holds (line 177).
- Relocate.CopyDisplacement, Relocate.RelocateCopyRoundTrip and
  Relocate.RelocateCopy: only trees whose every coefficient pointer lies in the
  persistent area at its block index (`CoeffConsistent`) are covered. Generated
  nodes keep their coefficients in `GenCoeffArray`, outside the copied buffer,
  and line 177 would repoint them into the persistent area; that case is not
  modelled.
- SerialTree.New: the `ProjectedNode` constructor run on each root slot
  (SerialTree.cpp:107) is not visible. Whatever it takes from the coefficient
  allocators is not modelled, so the coefficient state stated is the one lines
  85-95 leave.
- `readFilterBin` is left out at the byte level. Files are a map from path to
  their doubles in row-major order, and `FilesHold` requires every file to hold
  at least K² values. A short file is not modelled, because Eigen's stream read
  would leave the entries undefined.
- `getenv` is a parameter (`Option<string>`). `MaxOrder` comes from a header
  that is not shown, so it is a parameter too. `setDefaultLibrary` is not
  modelled.
- MWFilter.FromFile: the "Unknown filter type" message of the constructor is only
  logged. The model shows it through the fatal path of `FilterPaths`, which is
  what stops construction.
- MWFilter.FromMatrix requires at least 2K rows when the order is in range,
  because Eigen's `block` assumes it. Fewer rows is undefined behaviour in
  release builds, not an error the source reports.
- Error messages are kept without the numbers the source appends to them.
- Combine.SerialTreeAdd returns the square norm and the number of pairs visited.
  It does not return the combined tree's buffer, and it does not return the
  children generated on the B side. Three dimensions are modelled: 8 children
  per node.
- Combine.SerialTreeAdd: the two stacks hold `DepthMax*8` = 800 entries
  (SerialTree.cpp:190-194), and the pushes at lines 239-240 do not check that
  bound. The model's stacks are unbounded, so it says nothing about a tree wide
  enough to overflow them.
- Combine.SerialTreeAdd: `Tsum` is a double-precision sum accumulated in pop
  order (SerialTree.cpp:262). The model's norm sum is an exact real sum, which
  does not depend on order, so rounding is not modelled.
- Transform.Transform models only the selection: pairs, sub-filter indices,
  buffers, offsets and overwrite flags. It does not model the values written.
- The vector overload of `applyInverse` (src/core/MWFilter.cpp:186-189) is not
  modelled separately. Its dimension test and product are those of the matrix overload,
  applied to one column.

## Findings

| source | as written | input that shows it | evidently intended | confidence | as-written member | corrected member |
|---|---|---|---|---|---|---|
| SerialTree.cpp:866 | the retreat loop of DeAllocGenCoeff tests `CoeffStackStatus` (the persistent stack) | three generated blocks in use, no persistent ones, free generated block 2: the counter drops to 0 and the next request returns null | test `GenCoeffStackStatus`, so the counter stops at 1 | high, not executed | CoeffStack.DeAllocGenCoeffAsWrittenLosesBlock | CoeffStack.DeAllocGenCoeff |
| SerialTree.cpp:174 | every parent pointer is shifted by `d_p_shift`, including the null parent of a root | a root copied 8 doubles further on gets parent 8 | leave a null parent null | medium, not executed | Relocate.RelocateAsWrittenBreaksRootParent | Relocate.RelocateNode |
| SerialTree.cpp:749-752 | allocNodes/allocGenNodes mark slots `nNodes+i-1` after `nNodes` was already raised by nAlloc | two slots on an empty two-slot stack: slot 0 stays free and the sentinel becomes 1 | mark slots old..old+nAlloc-1 | high for nAlloc > 1, not executed; harmless for nAlloc = 1 | NodeStack.AllocAsWrittenOverwritesSentinel | NodeStack.Alloc |
| SerialTree.cpp:766 | `NodeStackStatus[TopStack-1]` is read before `TopStack>0` is tested | freeing the only node of a one-slot stack reads index -1 | test `TopStack>0` first | high, not executed | NodeStack.RetreatReadsAsWrittenOutOfBounds | NodeStack.RetreatReads |
| src/core/MWFilter.cpp:62 | `default_filter_lib = *ep` assigns one character | MRCPP_FILTER_DIR=/opt/filters gives the library "/" | assign the whole string `ep` | high, not executed | MWFilter.DefaultLibAsWrittenTruncates | MWFilter.NextDefaultLib |
| SerialTree.cpp:744-746 | allocNodes/allocGenNodes return the node at `lastNode`, which only advances; DeAllocNodes lowers `nNodes` but never moves `lastNode` back | capacity 2: allocate two nodes, free the second, allocate again: the node of rank 1 is built at slot 2, which is `firstNodeCoeff`, the start of the coefficient area | build the node at `firstNode + rank·sizeNodeMeta`, or move `lastNode` back with the mark | medium (needs a free of the top node followed by an allocation; the callers of DeAllocNodes are outside this model), not executed | NodeStack.AllocAsWrittenOverrunsNodeArea | NodeStack.Alloc |
| SerialTree.cpp:150 | `d_p_shift` is `firstNodeCoeff` minus the first root's coefficient pointer, which is the shift only if that root owns block 0 | a one-node tree whose root owns block 1 (stride 64), copied 8 doubles on: `d_p_shift` is -56 | subtract the first root's block offset, `firstNodeCoeff + NodeCoeffIx·stride` minus its pointer | low (the root allocated first probably owns block 0, but the node constructor that takes the block is not visible), not executed | Relocate.DisplacementAsWrittenMissesShift | Relocate.CopyDisplacement |
| src/core/MWFilter.cpp:177 | applyInverse tests the data rows against the filter's columns | a 6 × 4 matrix-built filter with 4-row data | compare with the rows of the filter, which are the columns of its transpose | low (only non-square filters), not executed | MWFilter.ApplyInverseAsWrittenCounterexample | MWFilter.ApplyInverse |
