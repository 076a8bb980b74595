/** The selection structure of the separable three-dimensional wavelet transform
    kernels S_mwTransform (reconstruction: parent to its 8 children) and
    S_mwTransformBack (compression: 8 children to their parent).

    Each kernel runs three passes, one per direction i = 0, 1, 2. In pass i every
    output block `gt` (0..7) receives a filtered copy of every input block `ft`
    below the pass's limit that agrees with `gt` on all bits but bit i. The numeric
    work (MathUtils::applyFilter) is not modelled: the kernels are described by the
    sequence of filter applications they perform, in execution order. */
module Transform {
  import opened Outcome
  import MWFilter

  /** The number of children of a node in three dimensions, 1 << D. */
  const TDim: nat := 8

  /** The bit tested in pass p, 1 << p. */
  function Mask(p: nat): bv8
    requires p < 3
  {
    (1 as bv8) << p
  }

  /** The value of that bit, as an integer. */
  function Weight(p: nat): (w: nat)
    requires p < 3
    ensures w == 1 || w == 2 || w == 4
  {
    Mask(p) as nat
  }

  /** The pass-p pairing test: gt and ft are equal once bit p is set in both. */
  predicate Matches(gt: nat, ft: nat, p: nat)
    requires gt < TDim && ft < TDim && p < 3
  {
    (gt as bv8 | Mask(p)) == (ft as bv8 | Mask(p))
  }

  /** Bit p of x, computed as (x >> p) & 1. */
  function BitOf(x: nat, p: nat): (b: nat)
    requires x < TDim && p < 3
    ensures b == 0 || b == 1
  {
    (((x as bv8) >> p) & 1) as nat
  }

  /** x with bit p cleared. */
  function ClearBit(x: nat, p: nat): (c: nat)
    requires x < TDim && p < 3
    ensures c < TDim
  {
    ((x as bv8) & !Mask(p)) as nat
  }

  /** x with bit p set. */
  function SetBit(x: nat, p: nat): (c: nat)
    requires x < TDim && p < 3
    ensures c < TDim
  {
    ((x as bv8) | Mask(p)) as nat
  }

  /** The sub-filter of a pair: 2 * bit_p(gt) + bit_p(ft). */
  function FilterIndex(gt: nat, ft: nat, p: nat): (k: nat)
    requires gt < TDim && ft < TDim && p < 3
    ensures k < 4
    ensures k == 2 * BitOf(gt, p) + BitOf(ft, p)
  {
    2 * BitOf(gt, p) + BitOf(ft, p)
  }

  /** The shift-and-mask bit agrees with the arithmetic digit. */
  lemma BitOfIsBinaryDigit(x: nat, p: nat)
    requires x < TDim && p < 3
    ensures BitOf(x, p) == (x / Weight(p)) % 2
  {
  }

  /** Clearing and setting bit p are x minus or plus its weight. */
  lemma ClearSetArith(x: nat, p: nat)
    requires x < TDim && p < 3
    ensures ClearBit(x, p) == x - BitOf(x, p) * Weight(p)
    ensures SetBit(x, p) == ClearBit(x, p) + Weight(p)
  {
  }

  /** The pairing test holds exactly when the two blocks agree on the two other
      directions. */
  lemma MatchesIffOtherBitsAgree(gt: nat, ft: nat, p: nat)
    requires gt < TDim && ft < TDim && p < 3
    ensures Matches(gt, ft, p) <==> (forall j :: 0 <= j < 3 && j != p ==> BitOf(gt, j) == BitOf(ft, j))
  {
    var a, b := (p + 1) % 3, (p + 2) % 3;
    assert Matches(gt, ft, p) <==> BitOf(gt, a) == BitOf(ft, a) && BitOf(gt, b) == BitOf(ft, b);
    forall j | 0 <= j < 3 && j != p && Matches(gt, ft, p)
      ensures BitOf(gt, j) == BitOf(ft, j)
    {
      assert j == a || j == b;
    }
  }

  /** Every output block has exactly two partners in each pass: itself with bit p
      cleared and itself with bit p set. The relation is symmetric. */
  lemma MatchesPartners(gt: nat, ft: nat, p: nat)
    requires gt < TDim && ft < TDim && p < 3
    ensures Matches(gt, ft, p) <==> ft == ClearBit(gt, p) || ft == SetBit(gt, p)
    ensures Matches(gt, ft, p) <==> Matches(ft, gt, p)
    ensures ClearBit(gt, p) < SetBit(gt, p)
  {
  }

  /** Swapping the roles of the two blocks swaps the two bits of the sub-filter
      index: 1 and 2 trade places, 0 and 3 stay. */
  lemma FilterIndexSwap(gt: nat, ft: nat, p: nat)
    requires gt < TDim && ft < TDim && p < 3
    ensures FilterIndex(ft, gt, p) == 2 * (FilterIndex(gt, ft, p) % 2) + FilterIndex(gt, ft, p) / 2
  {
  }

  /** The three coefficient buffers a kernel touches: its input, its output, and
      the local scratch array tmpcoeff. */
  datatype Buffer = CoeffIn | CoeffOut | Scratch

  /** One pass: input blocks below `lim` are read from `src` at `srcStride`
      doubles apart; output blocks are written to `dst` at `dstStride` apart. */
  datatype Pass = Pass(lim: nat, src: Buffer, srcStride: int, dst: Buffer, dstStride: int)

  /** One call of applyFilter: output block gt of pass `pass` receives sub-filter
      `filterIx` applied to input block ft; `accumulate` is the overwrite factor
      1.0 (add to the block) as opposed to 0.0 (replace it). Offsets are in doubles
      from the start of the buffer. */
  datatype Apply = Apply(pass: nat, gt: nat, ft: nat, filterIx: nat, src: Buffer, srcOff: int,
                         dst: Buffer, dstOff: int, accumulate: bool)

  /** The filter application for the pair (gt, ft) in pass p. */
  function ApplyOf(p: nat, ps: Pass, gt: nat, ft: nat, accumulate: bool): (a: Apply)
    requires gt < TDim && ft < TDim && p < 3
    ensures a.filterIx < 4
  {
    Apply(p, gt, ft, FilterIndex(gt, ft, p), ps.src, ft * ps.srcStride, ps.dst, gt * ps.dstStride, accumulate)
  }

  /** The passes of S_mwTransform. With read-only scaling coefficients only the
      parent's scaling block is meaningful, and the limits 1, 2, 4 keep every pass
      from reading blocks the previous pass did not write. The last pass writes the
      children `childStride` doubles apart. */
  function ReconstructionPass(p: nat, kp1d: int, scalingOnly: bool, childStride: int): (ps: Pass)
    requires p < 3
    ensures ps.lim <= TDim
  {
    var lim := if scalingOnly then Weight(p) else TDim;
    if p == 0 then Pass(lim, CoeffIn, kp1d, CoeffOut, kp1d)
    else if p == 1 then Pass(lim, CoeffOut, kp1d, Scratch, kp1d)
    else Pass(lim, Scratch, kp1d, CoeffOut, childStride)
  }

  /** The passes of S_mwTransformBack: the children are read `childStride` doubles
      apart, the parent is written contiguously. */
  function CompressionPass(p: nat, kp1d: int, childStride: int): (ps: Pass)
    requires p < 3
    ensures ps.lim == TDim
  {
    if p == 0 then Pass(TDim, CoeffIn, childStride, CoeffOut, kp1d)
    else if p == 1 then Pass(TDim, CoeffOut, kp1d, Scratch, kp1d)
    else Pass(TDim, Scratch, kp1d, CoeffOut, kp1d)
  }

  function PassOf(op: MWFilter.Operation, p: nat, kp1d: int, scalingOnly: bool, childStride: int): (ps: Pass)
    requires p < 3
    ensures ps.lim <= TDim
  {
    if op.Reconstruction? then ReconstructionPass(p, kp1d, scalingOnly, childStride)
    else CompressionPass(p, kp1d, childStride)
  }

  /** The applications for output block gt over input blocks ft.., with `started`
      the overwrite flag carried between them. */
  function BlockApplies(p: nat, ps: Pass, gt: nat, ft: nat, started: bool): (r: seq<Apply>)
    requires p < 3 && gt < TDim && ps.lim <= TDim && ft <= ps.lim
    ensures forall a :: a in r ==> a.gt == gt && ft <= a.ft < ps.lim
    decreases ps.lim - ft
  {
    if ft == ps.lim then []
    else if Matches(gt, ft, p) then [ApplyOf(p, ps, gt, ft, started)] + BlockApplies(p, ps, gt, ft + 1, true)
    else BlockApplies(p, ps, gt, ft + 1, started)
  }

  /** The applications of pass p for output blocks gt.. in order; each output
      block starts with the overwrite flag cleared. */
  function PassApplies(p: nat, ps: Pass, gt: nat): (r: seq<Apply>)
    requires p < 3 && gt <= TDim && ps.lim <= TDim
    ensures forall a :: a in r ==> gt <= a.gt < TDim && a.ft < ps.lim
    decreases TDim - gt
  {
    if gt == TDim then [] else BlockApplies(p, ps, gt, 0, false) + PassApplies(p, ps, gt + 1)
  }

  /** The whole kernel: pass 0, then pass 1, then pass 2. */
  function Schedule(op: MWFilter.Operation, kp1d: int, scalingOnly: bool, childStride: int): seq<Apply> {
    PassApplies(0, PassOf(op, 0, kp1d, scalingOnly, childStride), 0)
      + PassApplies(1, PassOf(op, 1, kp1d, scalingOnly, childStride), 0)
      + PassApplies(2, PassOf(op, 2, kp1d, scalingOnly, childStride), 0)
  }

  /** What an application of pass p means: an in-range pair that passes the test,
      its sub-filter index, its offsets, and an overwrite flag that is set exactly
      when bit p of the input block is set, i.e. when the bit-cleared partner has
      already written the output block. */
  ghost predicate WellFormed(a: Apply, p: nat, ps: Pass)
    requires p < 3
  {
    && a.pass == p && a.gt < TDim && a.ft < ps.lim && a.ft < TDim
    && Matches(a.gt, a.ft, p)
    && a.filterIx == FilterIndex(a.gt, a.ft, p)
    && a.src == ps.src && a.srcOff == a.ft * ps.srcStride
    && a.dst == ps.dst && a.dstOff == a.gt * ps.dstStride
    && a.accumulate == (BitOf(a.ft, p) == 1)
  }

  /** Inside one output block every application is well formed and concerns gt
      and an input block at or after ft. The flag argument is right when it
      records whether the bit-cleared partner lies before ft. */
  lemma {:induction false} BlockAppliesSound(p: nat, ps: Pass, gt: nat, ft: nat, started: bool)
    requires p < 3 && gt < TDim && ps.lim <= TDim && ft <= ps.lim
    requires started == (ClearBit(gt, p) < ft)
    ensures forall a :: a in BlockApplies(p, ps, gt, ft, started) ==>
      WellFormed(a, p, ps) && a.gt == gt && ft <= a.ft
    decreases ps.lim - ft
  {
    if ft < ps.lim {
      MatchesPartners(gt, ft, p);
      if Matches(gt, ft, p) {
        BlockAppliesSound(p, ps, gt, ft + 1, true);
        assert started == (BitOf(ft, p) == 1) by {
          ClearSetArith(gt, p);
          ClearSetArith(ft, p);
        }
      } else {
        BlockAppliesSound(p, ps, gt, ft + 1, started);
      }
    }
  }

  /** Inside one output block every matching input block from ft on is applied. */
  lemma {:induction false} BlockAppliesComplete(p: nat, ps: Pass, gt: nat, ft: nat, started: bool)
    requires p < 3 && gt < TDim && ps.lim <= TDim && ft <= ps.lim
    requires started == (ClearBit(gt, p) < ft)
    ensures forall f :: ft <= f < ps.lim && Matches(gt, f, p) ==>
      ApplyOf(p, ps, gt, f, BitOf(f, p) == 1) in BlockApplies(p, ps, gt, ft, started)
    decreases ps.lim - ft
  {
    if ft < ps.lim {
      MatchesPartners(gt, ft, p);
      if Matches(gt, ft, p) {
        BlockAppliesComplete(p, ps, gt, ft + 1, true);
        assert started == (BitOf(ft, p) == 1) by {
          ClearSetArith(gt, p);
          ClearSetArith(ft, p);
        }
      } else {
        BlockAppliesComplete(p, ps, gt, ft + 1, started);
      }
    }
  }

  /** A pass applies exactly the matching in-range pairs, each well formed. */
  lemma {:induction false} PassAppliesSpec(p: nat, ps: Pass, gt: nat)
    requires p < 3 && gt <= TDim && ps.lim <= TDim
    ensures forall a :: a in PassApplies(p, ps, gt) ==> WellFormed(a, p, ps) && gt <= a.gt
    ensures forall g, f :: gt <= g < TDim && 0 <= f < ps.lim && Matches(g, f, p) ==>
      ApplyOf(p, ps, g, f, BitOf(f, p) == 1) in PassApplies(p, ps, gt)
    decreases TDim - gt
  {
    if gt < TDim {
      BlockAppliesSound(p, ps, gt, 0, false);
      BlockAppliesComplete(p, ps, gt, 0, false);
      PassAppliesSpec(p, ps, gt + 1);
      forall g, f | gt <= g < TDim && 0 <= f < ps.lim && Matches(g, f, p)
        ensures ApplyOf(p, ps, g, f, BitOf(f, p) == 1) in PassApplies(p, ps, gt)
      {
        if g == gt {
          assert ApplyOf(p, ps, g, f, BitOf(f, p) == 1) in BlockApplies(p, ps, gt, 0, false);
        } else {
          assert ApplyOf(p, ps, g, f, BitOf(f, p) == 1) in PassApplies(p, ps, gt + 1);
        }
      }
    }
  }

  /** Every application of a pass is well formed. */
  lemma AppliedIsWellFormed(p: nat, ps: Pass, a: Apply)
    requires p < 3 && ps.lim <= TDim && a in PassApplies(p, ps, 0)
    ensures WellFormed(a, p, ps)
  {
    PassAppliesSpec(p, ps, 0);
  }

  /** Every matching in-range pair is applied in its pass. */
  lemma PairIsApplied(p: nat, ps: Pass, gt: nat, ft: nat)
    requires p < 3 && ps.lim <= TDim && gt < TDim && ft < ps.lim && Matches(gt, ft, p)
    ensures ApplyOf(p, ps, gt, ft, BitOf(ft, p) == 1) in PassApplies(p, ps, 0)
  {
    PassAppliesSpec(p, ps, 0);
  }

  /** With read-only scaling coefficients, the first reconstruction pass reads
      only the parent's scaling block (input block 0 at offset 0) and writes only
      output blocks 0 and 1. */
  lemma ScalingOnlyReadsScalingBlock(kp1d: int, childStride: int)
    ensures forall a :: a in PassApplies(0, ReconstructionPass(0, kp1d, true, childStride), 0) ==>
      a.ft == 0 && a.src == CoeffIn && a.srcOff == 0 && a.gt < 2
  {
    var ps := ReconstructionPass(0, kp1d, true, childStride);
    forall a | a in PassApplies(0, ps, 0)
      ensures a.ft == 0 && a.src == CoeffIn && a.srcOff == 0 && a.gt < 2
    {
      AppliedIsWellFormed(0, ps, a);
      MatchesPartners(a.gt, a.ft, 0);
    }
  }

  /** The application of pass p - 1 that replaces block ft: its bit-cleared
      contribution, with the overwrite factor 0. */
  function Writer(op: MWFilter.Operation, kp1d: int, scalingOnly: bool, childStride: int, p: nat, ft: nat): Apply
    requires (p == 1 || p == 2) && ft < TDim
  {
    ApplyOf(p - 1, PassOf(op, p - 1, kp1d, scalingOnly, childStride), ft, ClearBit(ft, p - 1), false)
  }

  /** Passes 1 and 2 read only blocks the previous pass wrote: for every block read
      in pass p, pass p - 1 replaced that block at the same place. This holds for
      both operations and in both reconstruction modes, so no uninitialised scratch
      block is read. */
  lemma ReadsWereWritten(op: MWFilter.Operation, kp1d: int, scalingOnly: bool, childStride: int, p: nat)
    requires p == 1 || p == 2
    ensures forall a :: a in PassApplies(p, PassOf(op, p, kp1d, scalingOnly, childStride), 0) ==>
      a.ft < TDim && ReadIsWritten(op, kp1d, scalingOnly, childStride, p, a)
  {
    forall a | a in PassApplies(p, PassOf(op, p, kp1d, scalingOnly, childStride), 0)
      ensures a.ft < TDim && ReadIsWritten(op, kp1d, scalingOnly, childStride, p, a)
    {
      AppliedIsWellFormed(p, PassOf(op, p, kp1d, scalingOnly, childStride), a);
      ReadWasWrittenBefore(op, kp1d, scalingOnly, childStride, p, a);
    }
  }

  /** The writer of a's input block is an application of pass p - 1 whose output is
      a's input, at the same offset. */
  ghost predicate ReadIsWritten(op: MWFilter.Operation, kp1d: int, scalingOnly: bool, childStride: int, p: nat, a: Apply)
    requires (p == 1 || p == 2) && a.ft < TDim
  {
    var w := Writer(op, kp1d, scalingOnly, childStride, p, a.ft);
    w in PassApplies(p - 1, PassOf(op, p - 1, kp1d, scalingOnly, childStride), 0)
      && w.dst == a.src && w.dstOff == a.srcOff
  }

  /** A well-formed application of pass p and the application of pass p - 1 that
      wrote its input block. */
  lemma ReadWasWrittenBefore(op: MWFilter.Operation, kp1d: int, scalingOnly: bool, childStride: int, p: nat, a: Apply)
    requires p == 1 || p == 2
    requires WellFormed(a, p, PassOf(op, p, kp1d, scalingOnly, childStride))
    ensures ReadIsWritten(op, kp1d, scalingOnly, childStride, p, a)
  {
    var prev := PassOf(op, p - 1, kp1d, scalingOnly, childStride);
    var f := ClearBit(a.ft, p - 1);
    ReadWasWritten(op, kp1d, scalingOnly, childStride, p, a);
    PairIsApplied(p - 1, prev, a.ft, f);
    assert Writer(op, kp1d, scalingOnly, childStride, p, a.ft) == ApplyOf(p - 1, prev, a.ft, f, BitOf(f, p - 1) == 1);
  }

  /** One read of pass p and the write of pass p - 1 that provides it. */
  lemma ReadWasWritten(op: MWFilter.Operation, kp1d: int, scalingOnly: bool, childStride: int, p: nat, a: Apply)
    requires p == 1 || p == 2
    requires WellFormed(a, p, PassOf(op, p, kp1d, scalingOnly, childStride))
    ensures var prev := PassOf(op, p - 1, kp1d, scalingOnly, childStride);
      var f := ClearBit(a.ft, p - 1);
      && f < prev.lim && Matches(a.ft, f, p - 1) && BitOf(f, p - 1) == 0
      && ApplyOf(p - 1, prev, a.ft, f, false).dst == a.src
      && ApplyOf(p - 1, prev, a.ft, f, false).dstOff == a.srcOff
  {
    var prev := PassOf(op, p - 1, kp1d, scalingOnly, childStride);
    var f := ClearBit(a.ft, p - 1);
    MatchesPartners(a.ft, f, p - 1);
    ClearSetArith(a.ft, p - 1);
    ClearSetArith(f, p - 1);
  }

  /** Reconstruction: the last pass writes every child block 0..7, each at
      gt * childStride of the output. */
  lemma ReconstructionWritesEveryChild(kp1d: int, scalingOnly: bool, childStride: int)
    ensures var ps := ReconstructionPass(2, kp1d, scalingOnly, childStride);
      forall gt :: 0 <= gt < TDim ==>
        var w := ApplyOf(2, ps, gt, ClearBit(gt, 2), false);
        w in PassApplies(2, ps, 0) && w.dst == CoeffOut && w.dstOff == gt * childStride
  {
    var ps := ReconstructionPass(2, kp1d, scalingOnly, childStride);
    forall gt | 0 <= gt < TDim
      ensures var w := ApplyOf(2, ps, gt, ClearBit(gt, 2), false);
        w in PassApplies(2, ps, 0) && w.dst == CoeffOut && w.dstOff == gt * childStride
    {
      var f := ClearBit(gt, 2);
      MatchesPartners(gt, f, 2);
      ClearSetArith(gt, 2);
      ClearSetArith(f, 2);
      PairIsApplied(2, ps, gt, f);
    }
  }

  /** Compression: the first pass reads every child block 0..7, each at
      ft * childStride of the input. */
  lemma CompressionReadsEveryChild(kp1d: int, childStride: int)
    ensures var ps := CompressionPass(0, kp1d, childStride);
      forall ft :: 0 <= ft < TDim ==>
        var r := ApplyOf(0, ps, ft, ft, BitOf(ft, 0) == 1);
        r in PassApplies(0, ps, 0) && r.src == CoeffIn && r.srcOff == ft * childStride
  {
    var ps := CompressionPass(0, kp1d, childStride);
    forall ft | 0 <= ft < TDim
      ensures var r := ApplyOf(0, ps, ft, ft, BitOf(ft, 0) == 1);
        r in PassApplies(0, ps, 0) && r.src == CoeffIn && r.srcOff == ft * childStride
    {
      assert Matches(ft, ft, 0);
      PairIsApplied(0, ps, ft, ft);
    }
  }

  /** The reversed step of a compression application. For every pair the
      compression pass p applies (from ft into gt), the full reconstruction pass p
      applies the reversed pair (from gt into ft), and its sub-filter index is the
      compression index with its two bits exchanged. */
  lemma ReversedStep(kp1d: int, childStride: int, p: nat, gt: nat, ft: nat)
    requires p < 3 && gt < TDim && ft < TDim && Matches(gt, ft, p)
    ensures var a := ApplyOf(p, CompressionPass(p, kp1d, childStride), gt, ft, BitOf(ft, p) == 1);
            var b := ApplyOf(p, ReconstructionPass(p, kp1d, false, childStride), ft, gt, BitOf(gt, p) == 1);
            && a in PassApplies(p, CompressionPass(p, kp1d, childStride), 0)
            && b in PassApplies(p, ReconstructionPass(p, kp1d, false, childStride), 0)
            && b.filterIx == MWFilter.SwapBits(a.filterIx)
  {
    PairIsApplied(p, CompressionPass(p, kp1d, childStride), gt, ft);
    assert Matches(ft, gt, p) by {
      MatchesPartners(gt, ft, p);
    }
    PairIsApplied(p, ReconstructionPass(p, kp1d, false, childStride), ft, gt);
    assert FilterIndex(ft, gt, p) == MWFilter.SwapBits(FilterIndex(gt, ft, p)) by {
      FilterIndexSwap(gt, ft, p);
    }
  }

  /** Compression uses the adjoints of the reconstruction taps. For the filter
      bank built from any 2K x 2K matrix and every pair the compression pass p
      applies (from ft into gt), the sub-filter it fetches is the transpose of
      the one the full reconstruction pass p fetches for the reversed pair. */
  lemma CompressionAppliesAdjointTaps(kind: MWFilter.FilterType, order: nat, m: MWFilter.Mat,
                                      kp1d: int, childStride: int, p: nat, gt: nat, ft: nat)
    requires MWFilter.Fits(m, order + 1)
    requires p < 3 && gt < TDim && ft < TDim && Matches(gt, ft, p)
    ensures var f := MWFilter.FillFilterBlocks(kind, order, m, "", "");
            var a := ApplyOf(p, CompressionPass(p, kp1d, childStride), gt, ft, BitOf(ft, p) == 1);
            var b := ApplyOf(p, ReconstructionPass(p, kp1d, false, childStride), ft, gt, BitOf(gt, p) == 1);
            && MWFilter.ReconstructionSubFilter(f, b.filterIx).Ok?
            && MWFilter.Valid(MWFilter.ReconstructionSubFilter(f, b.filterIx).value)
            && MWFilter.SubFilter(f, a.filterIx, MWFilter.Given(MWFilter.Compression))
                 == Ok(MWFilter.Transpose(MWFilter.ReconstructionSubFilter(f, b.filterIx).value))
  {
    var f := MWFilter.FillFilterBlocks(kind, order, m, "", "");
    var a := ApplyOf(p, CompressionPass(p, kp1d, childStride), gt, ft, BitOf(ft, p) == 1);
    ReversedStep(kp1d, childStride, p, gt, ft);
    MWFilter.CompressionIsAdjointOfReconstruction(f, a.filterIx);
    MWFilter.SubFilterAgrees(f, a.filterIx, 0);
  }

  /** S_mwTransform (operation Reconstruction) and S_mwTransformBack (operation
      Compression): only D = 3 is implemented. The three passes run as nested loops
      over output block gt and input block ft, with the overwrite factor reset for
      every output block and set after its first application. */
  method Transform(op: MWFilter.Operation, dim: int, kp1: nat, scalingOnly: bool, childStride: int)
    returns (r: Result<seq<Apply>>)
    ensures r.Fatal? <==> dim != 3
    ensures r.Ok? ==> r.value == Schedule(op, kp1 * kp1 * kp1, scalingOnly, childStride)
  {
    if dim != 3 {
      return Fatal("S_mwtransform Only D=3 implemented now!");
    }
    var kp1d := kp1 * kp1 * kp1;
    var s0 := RunPass(0, PassOf(op, 0, kp1d, scalingOnly, childStride));
    var s1 := RunPass(1, PassOf(op, 1, kp1d, scalingOnly, childStride));
    var s2 := RunPass(2, PassOf(op, 2, kp1d, scalingOnly, childStride));
    return Ok(s0 + s1 + s2);
  }

  lemma AppendAssoc(a: seq<Apply>, b: seq<Apply>, c: seq<Apply>)
    ensures (a + b) + c == a + (b + c)
  {
  }

  /** One output block of a pass as the kernels run it: the overwrite factor starts
      cleared and is set after the first application. */
  method RunBlock(p: nat, ps: Pass, gt: nat) returns (applies: seq<Apply>)
    requires p < 3 && ps.lim <= TDim && gt < TDim
    ensures applies == BlockApplies(p, ps, gt, 0, false)
  {
    applies := [];
    var overwrite := false;
    var ft := 0;
    while ft < ps.lim
      invariant ft <= ps.lim
      invariant applies + BlockApplies(p, ps, gt, ft, overwrite) == BlockApplies(p, ps, gt, 0, false)
    {
      ghost var rest := BlockApplies(p, ps, gt, ft, overwrite);
      if Matches(gt, ft, p) {
        var a := ApplyOf(p, ps, gt, ft, overwrite);
        assert rest == [a] + BlockApplies(p, ps, gt, ft + 1, true);
        AppendAssoc(applies, [a], BlockApplies(p, ps, gt, ft + 1, true));
        applies := applies + [a];
        overwrite := true;
      } else {
        assert rest == BlockApplies(p, ps, gt, ft + 1, overwrite);
      }
      ft := ft + 1;
    }
  }

  /** One pass as the kernels run it. */
  method RunPass(p: nat, ps: Pass) returns (applies: seq<Apply>)
    requires p < 3 && ps.lim <= TDim
    ensures applies == PassApplies(p, ps, 0)
  {
    applies := [];
    var gt := 0;
    while gt < TDim
      invariant gt <= TDim
      invariant applies + PassApplies(p, ps, gt) == PassApplies(p, ps, 0)
    {
      var block := RunBlock(p, ps, gt);
      AppendAssoc(applies, block, PassApplies(p, ps, gt + 1));
      applies := applies + block;
      gt := gt + 1;
    }
  }
}
