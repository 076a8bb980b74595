/** The multiwavelet filter bank (MWFilter).

    For filter order k there are K = k + 1 scaling functions per node, and the
    filter is a 2K x 2K real matrix laid out as [[G0, G1], [H0, H1]]: the top rows
    hold the G (wavelet) blocks and the bottom rows the H (scaling) blocks. The
    filter is either read from two binary files holding H0 and G0, the other two
    blocks following by a symmetry rule, or handed in as a ready matrix. The four
    blocks and their transposes are cached; the transform kernels pick one of them
    per pair of child blocks through the sub-filter getters.

    Matrices are modelled over the reals; the byte layout of the files and
    floating-point rounding are not modelled. */
module MWFilter {
  import opened Outcome

  /* ------------------------------------------------------------------ */
  /* Dense matrices                                                      */
  /* ------------------------------------------------------------------ */

  /** A dense matrix stored row by row. */
  datatype Mat = Mat(rows: nat, cols: nat, e: seq<seq<real>>)

  /** The stored rows agree with the declared shape. */
  predicate Valid(m: Mat) {
    |m.e| == m.rows && forall i :: 0 <= i < |m.e| ==> |m.e[i]| == m.cols
  }

  /** A K x K matrix. */
  predicate Square(m: Mat, K: nat) {
    Valid(m) && m.rows == K && m.cols == K
  }

  /** Two matrices of one shape with the same entries are the same matrix. */
  lemma MatEq(a: Mat, b: Mat)
    requires Valid(a) && Valid(b) && a.rows == b.rows && a.cols == b.cols
    requires forall i, j :: 0 <= i < a.rows && 0 <= j < a.cols ==> a.e[i][j] == b.e[i][j]
    ensures a == b
  {
    forall i | 0 <= i < a.rows
      ensures a.e[i] == b.e[i]
    {
      assert |a.e[i]| == |b.e[i]|;
    }
    assert a.e == b.e;
  }

  /** The nr x nc sub-matrix starting at row r0 and column c0 (Eigen's `block`). */
  function Block(m: Mat, r0: nat, c0: nat, nr: nat, nc: nat): (b: Mat)
    requires Valid(m) && r0 + nr <= m.rows && c0 + nc <= m.cols
    ensures Valid(b) && b.rows == nr && b.cols == nc
    ensures forall i, j :: 0 <= i < nr && 0 <= j < nc ==> b.e[i][j] == m.e[r0 + i][c0 + j]
  {
    Mat(nr, nc, seq(nr, i requires 0 <= i < nr => m.e[r0 + i][c0 .. c0 + nc]))
  }

  /** The transposed matrix. */
  function Transpose(m: Mat): (t: Mat)
    requires Valid(m)
    ensures Valid(t) && t.rows == m.cols && t.cols == m.rows
    ensures forall i, j :: 0 <= i < t.rows && 0 <= j < t.cols ==> t.e[i][j] == m.e[j][i]
  {
    Mat(m.cols, m.rows,
        seq(m.cols, j requires 0 <= j < m.cols =>
          seq(m.rows, i requires 0 <= i < m.rows => m.e[i][j])))
  }

  /** Transposing twice gives the matrix back. */
  lemma TransposeInvolutive(m: Mat)
    requires Valid(m)
    ensures Transpose(Transpose(m)) == m
  {
    MatEq(Transpose(Transpose(m)), m);
  }

  /** Column j as a sequence. */
  function Column(m: Mat, j: nat): (c: seq<real>)
    requires Valid(m) && j < m.cols
    ensures |c| == m.rows
    ensures forall i :: 0 <= i < m.rows ==> c[i] == m.e[i][j]
  {
    seq(m.rows, i requires 0 <= i < m.rows => m.e[i][j])
  }

  /** The inner product of two vectors of one length. */
  function Dot(u: seq<real>, v: seq<real>): real
    requires |u| == |v|
    decreases |u|
  {
    if |u| == 0 then 0.0 else u[0] * v[0] + Dot(u[1..], v[1..])
  }

  /** The matrix product a * b. */
  function MatMul(a: Mat, b: Mat): (c: Mat)
    requires Valid(a) && Valid(b) && a.cols == b.rows
    ensures Valid(c) && c.rows == a.rows && c.cols == b.cols
    ensures forall i, j :: 0 <= i < c.rows && 0 <= j < c.cols ==> c.e[i][j] == Dot(a.e[i], Column(b, j))
  {
    Mat(a.rows, b.cols,
        seq(a.rows, i requires 0 <= i < a.rows =>
          seq(b.cols, j requires 0 <= j < b.cols => Dot(a.e[i], Column(b, j)))))
  }

  /** Row i of the n x n identity. */
  function UnitRow(n: nat, i: nat): (u: seq<real>)
    ensures |u| == n
    ensures forall k :: 0 <= k < n ==> u[k] == if k == i then 1.0 else 0.0
  {
    seq(n, k => if k == i then 1.0 else 0.0)
  }

  /** The n x n identity matrix. */
  function Identity(n: nat): (m: Mat)
    ensures Square(m, n)
    ensures forall i, j :: 0 <= i < n && 0 <= j < n ==> m.e[i][j] == if i == j then 1.0 else 0.0
  {
    Mat(n, n, seq(n, i requires 0 <= i < n => UnitRow(n, i)))
  }

  /** A unit row picks one entry: e_i . v == v[i]. */
  lemma {:induction false} DotUnit(n: nat, i: nat, v: seq<real>)
    requires |v| == n
    ensures i < n ==> Dot(UnitRow(n, i), v) == v[i]
    ensures i >= n ==> Dot(UnitRow(n, i), v) == 0.0
    decreases n
  {
    if n > 0 {
      var u := UnitRow(n, i);
      if i == 0 {
        assert u[1..] == UnitRow(n - 1, n);
        DotUnit(n - 1, n, v[1..]);
      } else {
        assert u[1..] == UnitRow(n - 1, i - 1);
        DotUnit(n - 1, i - 1, v[1..]);
      }
    }
  }

  /* ------------------------------------------------------------------ */
  /* The four blocks                                                     */
  /* ------------------------------------------------------------------ */

  /** The matrix has room for the four K x K blocks. */
  predicate Fits(m: Mat, K: nat) {
    Valid(m) && 2 * K <= m.rows && 2 * K <= m.cols
  }

  /** The first row or column of block row/column r (0 or 1). */
  function Offset(r: nat, K: nat): (o: nat)
    requires r < 2
    ensures o + K <= 2 * K
  {
    if r == 0 then 0 else K
  }

  /** Block (r, c) of the 2 x 2 block layout: (0, 0) is G0, (0, 1) G1, (1, 0) H0,
      (1, 1) H1. */
  function Quadrant(m: Mat, K: nat, r: nat, c: nat): (q: Mat)
    requires Fits(m, K) && r < 2 && c < 2
    ensures Square(q, K)
  {
    Block(m, Offset(r, K), Offset(c, K), K, K)
  }

  /** The filter matrix from its four K x K blocks. */
  function Assemble(g0: Mat, g1: Mat, h0: Mat, h1: Mat, K: nat): (f: Mat)
    requires Square(g0, K) && Square(g1, K) && Square(h0, K) && Square(h1, K)
    ensures Fits(f, K) && f.rows == 2 * K && f.cols == 2 * K
  {
    Mat(2 * K, 2 * K,
        seq(2 * K, i requires 0 <= i < 2 * K => if i < K then g0.e[i] + g1.e[i] else h0.e[i - K] + h1.e[i - K]))
  }

  /** The block that sits at block row r and block column c of the layout. */
  function BlockAt(g0: Mat, g1: Mat, h0: Mat, h1: Mat, r: nat, c: nat): Mat
    requires r < 2 && c < 2
  {
    if r == 0 then (if c == 0 then g0 else g1) else (if c == 0 then h0 else h1)
  }

  /** Each quadrant of an assembled filter is the block it was built from. */
  lemma QuadrantOfAssembled(g0: Mat, g1: Mat, h0: Mat, h1: Mat, K: nat, r: nat, c: nat)
    requires Square(g0, K) && Square(g1, K) && Square(h0, K) && Square(h1, K) && r < 2 && c < 2
    ensures Quadrant(Assemble(g0, g1, h0, h1, K), K, r, c) == BlockAt(g0, g1, h0, h1, r, c)
  {
    var f := Assemble(g0, g1, h0, h1, K);
    var q := Quadrant(f, K, r, c);
    var b := BlockAt(g0, g1, h0, h1, r, c);
    var left, right := BlockAt(g0, g1, h0, h1, r, 0), BlockAt(g0, g1, h0, h1, r, 1);
    forall i, j | 0 <= i < K && 0 <= j < K
      ensures q.e[i][j] == b.e[i][j]
    {
      var row := f.e[Offset(r, K) + i];
      assert row == left.e[i] + right.e[i];
      assert q.e[i][j] == row[Offset(c, K) + j];
    }
    MatEq(q, b);
  }

  /** Splitting an assembled filter gives back the four blocks it was built from. */
  lemma AssembleThenQuadrants(g0: Mat, g1: Mat, h0: Mat, h1: Mat, K: nat)
    requires Square(g0, K) && Square(g1, K) && Square(h0, K) && Square(h1, K)
    ensures var f := Assemble(g0, g1, h0, h1, K);
            Quadrant(f, K, 0, 0) == g0 && Quadrant(f, K, 0, 1) == g1
            && Quadrant(f, K, 1, 0) == h0 && Quadrant(f, K, 1, 1) == h1
  {
    QuadrantOfAssembled(g0, g1, h0, h1, K, 0, 0);
    QuadrantOfAssembled(g0, g1, h0, h1, K, 0, 1);
    QuadrantOfAssembled(g0, g1, h0, h1, K, 1, 0);
    QuadrantOfAssembled(g0, g1, h0, h1, K, 1, 1);
  }

  /** Re-assembling the four blocks of a 2K x 2K filter gives the filter back. */
  lemma QuadrantsThenAssemble(f: Mat, K: nat)
    requires Valid(f) && f.rows == 2 * K && f.cols == 2 * K
    ensures Assemble(Quadrant(f, K, 0, 0), Quadrant(f, K, 0, 1),
                     Quadrant(f, K, 1, 0), Quadrant(f, K, 1, 1), K) == f
  {
    var g0, g1 := Quadrant(f, K, 0, 0), Quadrant(f, K, 0, 1);
    var h0, h1 := Quadrant(f, K, 1, 0), Quadrant(f, K, 1, 1);
    var a := Assemble(g0, g1, h0, h1, K);
    forall i, j | 0 <= i < 2 * K && 0 <= j < 2 * K
      ensures a.e[i][j] == f.e[i][j]
    {
      if i < K {
        assert a.e[i] == g0.e[i] + g1.e[i];
        if j < K { assert a.e[i][j] == g0.e[i][j]; } else { assert a.e[i][j] == g1.e[i][j - K]; }
      } else {
        assert a.e[i] == h0.e[i - K] + h1.e[i - K];
        if j < K { assert a.e[i][j] == h0.e[i - K][j]; } else { assert a.e[i][j] == h1.e[i - K][j - K]; }
      }
    }
    MatEq(a, f);
  }

  /* ------------------------------------------------------------------ */
  /* The filter object                                                   */
  /* ------------------------------------------------------------------ */

  /** The scaling basis the filter belongs to; any other type code is invalid. */
  datatype FilterType = Interpol | Legendre | OtherType(code: int)

  /** The two transform directions. */
  datatype Operation = Compression | Reconstruction

  /** The operation argument of getSubFilter: one of the two directions, or any
      other integer code. */
  datatype OperationArg = Given(op: Operation) | Unrecognised(code: int)

  /** A constructed filter: the matrix, its cached blocks and their transposes, and
      the two file paths (empty when built from a matrix). */
  datatype Filter = Filter(kind: FilterType, order: int, filter: Mat,
                           g0: Mat, g1: Mat, h0: Mat, h1: Mat,
                           g0t: Mat, g1t: Mat, h0t: Mat, h1t: Mat,
                           hPath: string, gPath: string)

  /** The cached blocks are the quadrants of the filter and their transposes. */
  predicate Consistent(f: Filter) {
    && f.order >= 0
    && Fits(f.filter, f.order + 1)
    && f.g0 == Quadrant(f.filter, f.order + 1, 0, 0)
    && f.g1 == Quadrant(f.filter, f.order + 1, 0, 1)
    && f.h0 == Quadrant(f.filter, f.order + 1, 1, 0)
    && f.h1 == Quadrant(f.filter, f.order + 1, 1, 1)
    && f.g0t == Transpose(f.g0) && f.g1t == Transpose(f.g1)
    && f.h0t == Transpose(f.h0) && f.h1t == Transpose(f.h1)
  }

  /** fillFilterBlocks: cut the filter into its blocks and cache their transposes. */
  function FillFilterBlocks(kind: FilterType, order: nat, filter: Mat, hPath: string, gPath: string): (f: Filter)
    requires Fits(filter, order + 1)
    ensures Consistent(f)
    ensures f.kind == kind && f.order == order && f.filter == filter
    ensures f.hPath == hPath && f.gPath == gPath
  {
    var K := order + 1;
    var g0, g1 := Quadrant(filter, K, 0, 0), Quadrant(filter, K, 0, 1);
    var h0, h1 := Quadrant(filter, K, 1, 0), Quadrant(filter, K, 1, 1);
    Filter(kind, order, filter, g0, g1, h0, h1,
           Transpose(g0), Transpose(g1), Transpose(h0), Transpose(h1), hPath, gPath)
  }

  /* ------------------------------------------------------------------ */
  /* Sub-filter selection                                                */
  /* ------------------------------------------------------------------ */

  /** getCompressionSubFilter: H0t, H1t, G0t, G1t for indices 0..3. */
  function CompressionSubFilter(f: Filter, i: int): (r: Result<Mat>)
    ensures r.Ok? <==> 0 <= i < 4
    ensures r.Fatal? ==> r.reason == "Filter index out of bounds"
  {
    match i
    case 0 => Ok(f.h0t)
    case 1 => Ok(f.h1t)
    case 2 => Ok(f.g0t)
    case 3 => Ok(f.g1t)
    case _ => Fatal("Filter index out of bounds")
  }

  /** getReconstructionSubFilter: H0, G0, H1, G1 for indices 0..3. */
  function ReconstructionSubFilter(f: Filter, i: int): (r: Result<Mat>)
    ensures r.Ok? <==> 0 <= i < 4
    ensures r.Fatal? ==> r.reason == "Filter index out of bounds"
  {
    match i
    case 0 => Ok(f.h0)
    case 1 => Ok(f.g0)
    case 2 => Ok(f.h1)
    case 3 => Ok(f.g1)
    case _ => Fatal("Filter index out of bounds")
  }

  /** getSubFilter: the selection by operation and index, with its own switch. */
  function SubFilter(f: Filter, i: int, oper: OperationArg): (r: Result<Mat>)
    ensures r.Ok? <==> oper.Given? && 0 <= i < 4
  {
    match oper
    case Unrecognised(_) => Fatal("Invalid wavelet transformation")
    case Given(Compression) =>
      (match i
       case 0 => Ok(f.h0t)
       case 1 => Ok(f.h1t)
       case 2 => Ok(f.g0t)
       case 3 => Ok(f.g1t)
       case _ => Fatal("Filter index out of bounds"))
    case Given(Reconstruction) =>
      (match i
       case 0 => Ok(f.h0)
       case 1 => Ok(f.g0)
       case 2 => Ok(f.h1)
       case 3 => Ok(f.g1)
       case _ => Fatal("Filter index out of bounds"))
  }

  /** The general getter agrees with the two direction-specific ones, and an
      unrecognised operation is fatal whatever the index. */
  lemma SubFilterAgrees(f: Filter, i: int, code: int)
    ensures SubFilter(f, i, Given(Compression)) == CompressionSubFilter(f, i)
    ensures SubFilter(f, i, Given(Reconstruction)) == ReconstructionSubFilter(f, i)
    ensures SubFilter(f, i, Unrecognised(code)) == Fatal("Invalid wavelet transformation")
  {
  }

  /** Which quadrant each index selects. Writing i = 2a + b, reconstruction index i
      is the quadrant in block row 1 - b and block column a; compression index i is
      the transpose of the quadrant in block row 1 - a and block column b. */
  lemma SubFiltersAreQuadrants(f: Filter, i: int)
    requires Consistent(f) && 0 <= i < 4
    ensures ReconstructionSubFilter(f, i) == Ok(Quadrant(f.filter, f.order + 1, 1 - i % 2, i / 2))
    ensures CompressionSubFilter(f, i) == Ok(Transpose(Quadrant(f.filter, f.order + 1, 1 - i / 2, i % 2)))
  {
  }

  /** The index with its two bits exchanged: 1 and 2 trade places. */
  function SwapBits(i: int): (s: int)
    requires 0 <= i < 4
    ensures 0 <= s < 4
  {
    2 * (i % 2) + i / 2
  }

  /** Compression uses the adjoints of the reconstruction taps: compression
      sub-filter i is the transpose of reconstruction sub-filter SwapBits(i). */
  lemma CompressionIsAdjointOfReconstruction(f: Filter, i: int)
    requires Consistent(f) && 0 <= i < 4
    ensures ReconstructionSubFilter(f, SwapBits(i)).Ok? && Valid(ReconstructionSubFilter(f, SwapBits(i)).value)
    ensures CompressionSubFilter(f, i) == Ok(Transpose(ReconstructionSubFilter(f, SwapBits(i)).value))
  {
    SubFiltersAreQuadrants(f, i);
    SubFiltersAreQuadrants(f, SwapBits(i));
  }

  /* ------------------------------------------------------------------ */
  /* Reading from files and the symmetry fill                            */
  /* ------------------------------------------------------------------ */

  /** pow(-1.0, n) for a non-negative integer exponent. */
  function Sign(n: nat): (s: real)
    ensures s == 1.0 || s == -1.0
    ensures s * s == 1.0
  {
    if n % 2 == 0 then 1.0 else -1.0
  }

  /** Every filter file holds at least K x K doubles; the source reads K rows of K
      values without checking how many were read. */
  predicate FilesHold(files: map<string, seq<real>>, K: int) {
    forall p :: p in files ==> |files[p]| >= K * K
  }

  lemma RowMajorBound(i: nat, j: nat, K: nat)
    requires i < K && j < K
    ensures i * K + j < K * K
  {
    assert i * K + j < i * K + K == (i + 1) * K;
    assert (i + 1) * K <= K * K;
  }

  /** The value at row i, column j of a K x K block stored row by row. */
  function RowMajor(data: seq<real>, K: nat, i: nat, j: nat): real
    requires |data| >= K * K && i < K && j < K
  {
    RowMajorBound(i, j, K);
    data[i * K + j]
  }

  /** The K x K block read row by row from the start of a file. */
  function ReadBlock(data: seq<real>, K: nat): (b: Mat)
    requires |data| >= K * K
    ensures Square(b, K)
    ensures forall i, j :: 0 <= i < K && 0 <= j < K ==> b.e[i][j] == RowMajor(data, K, i, j)
  {
    Mat(K, K, seq(K, i requires 0 <= i < K => seq(K, j requires 0 <= j < K => RowMajor(data, K, i, j))))
  }

  /** A filter type the symmetry fill and the path naming know. */
  predicate Known(kind: FilterType) {
    kind.Interpol? || kind.Legendre?
  }

  /** G1 from G0. Interpolating basis: G1(i, j) = (-1)^(i+K) G0(i, K-1-j), a
      column mirror with alternating row signs. Legendre basis:
      G1(i, j) = (-1)^(i+j+K) G0(i, j). */
  function G1FromG0(kind: FilterType, g0: Mat, K: nat): (g1: Mat)
    requires Known(kind) && Square(g0, K)
    ensures Square(g1, K)
    ensures kind.Interpol? ==> forall i, j :: 0 <= i < K && 0 <= j < K ==> g1.e[i][j] == Sign(i + K) * g0.e[i][K - 1 - j]
    ensures kind.Legendre? ==> forall i, j :: 0 <= i < K && 0 <= j < K ==> g1.e[i][j] == Sign(i + j + K) * g0.e[i][j]
  {
    Mat(K, K, seq(K, i requires 0 <= i < K => seq(K, j requires 0 <= j < K =>
      if kind.Interpol? then Sign(i + K) * g0.e[i][K - 1 - j] else Sign(i + j + K) * g0.e[i][j])))
  }

  /** H1 from H0. Interpolating basis: H1 is H0 turned by half a turn,
      H1(i, j) = H0(K-1-i, K-1-j). Legendre basis: H1(i, j) = (-1)^(i+j) H0(i, j). */
  function H1FromH0(kind: FilterType, h0: Mat, K: nat): (h1: Mat)
    requires Known(kind) && Square(h0, K)
    ensures Square(h1, K)
    ensures kind.Interpol? ==> forall i, j :: 0 <= i < K && 0 <= j < K ==> h1.e[i][j] == h0.e[K - 1 - i][K - 1 - j]
    ensures kind.Legendre? ==> forall i, j :: 0 <= i < K && 0 <= j < K ==> h1.e[i][j] == Sign(i + j) * h0.e[i][j]
  {
    Mat(K, K, seq(K, i requires 0 <= i < K => seq(K, j requires 0 <= j < K =>
      if kind.Interpol? then h0.e[K - 1 - i][K - 1 - j] else Sign(i + j) * h0.e[i][j])))
  }

  /** The symmetry rules are their own inverses: the same rule recovers G0 from G1
      and H0 from H1, so either half of a stored filter determines the other. */
  lemma SymmetryInvolutive(kind: FilterType, m: Mat, K: nat)
    requires Known(kind) && Square(m, K)
    ensures G1FromG0(kind, G1FromG0(kind, m, K), K) == m
    ensures H1FromH0(kind, H1FromH0(kind, m, K), K) == m
  {
    G1Involutive(kind, m, K);
    H1Involutive(kind, m, K);
  }

  /** The G half of SymmetryInvolutive. */
  lemma G1Involutive(kind: FilterType, m: Mat, K: nat)
    requires Known(kind) && Square(m, K)
    ensures G1FromG0(kind, G1FromG0(kind, m, K), K) == m
  {
    var g := G1FromG0(kind, m, K);
    var gg := G1FromG0(kind, g, K);
    forall i, j | 0 <= i < K && 0 <= j < K
      ensures gg.e[i][j] == m.e[i][j]
    {
      if kind.Interpol? {
        assert gg.e[i][j] == Sign(i + K) * (Sign(i + K) * m.e[i][j]);
      } else {
        assert gg.e[i][j] == Sign(i + j + K) * (Sign(i + j + K) * m.e[i][j]);
      }
    }
    MatEq(gg, m);
  }

  /** The H half of SymmetryInvolutive. */
  lemma H1Involutive(kind: FilterType, m: Mat, K: nat)
    requires Known(kind) && Square(m, K)
    ensures H1FromH0(kind, H1FromH0(kind, m, K), K) == m
  {
    var h := H1FromH0(kind, m, K);
    var hh := H1FromH0(kind, h, K);
    forall i, j | 0 <= i < K && 0 <= j < K
      ensures hh.e[i][j] == m.e[i][j]
    {
      if kind.Legendre? {
        assert hh.e[i][j] == Sign(i + j) * (Sign(i + j) * m.e[i][j]);
      }
    }
    MatEq(hh, m);
  }

  /** readFilterBin: open the H file, then the G file (a missing one is fatal, H
      first); read H0 and G0; fill H1 and G1 by symmetry. */
  function ReadFilterBin(kind: FilterType, K: nat, hPath: string, gPath: string,
                         files: map<string, seq<real>>): (r: Result<Mat>)
    requires Known(kind) && FilesHold(files, K)
    ensures r.Ok? <==> hPath in files && gPath in files
    ensures hPath !in files ==> r == Fatal("Could not open filter: " + hPath)
    ensures hPath in files && gPath !in files ==> r == Fatal("Could not open filter: " + gPath)
    ensures r.Ok? ==> Valid(r.value) && r.value.rows == 2 * K && r.value.cols == 2 * K
    ensures r.Ok? ==>
              var g0, h0 := ReadBlock(files[gPath], K), ReadBlock(files[hPath], K);
              && Quadrant(r.value, K, 0, 0) == g0
              && Quadrant(r.value, K, 1, 0) == h0
              && Quadrant(r.value, K, 0, 1) == G1FromG0(kind, g0, K)
              && Quadrant(r.value, K, 1, 1) == H1FromH0(kind, h0, K)
  {
    if hPath !in files then Fatal("Could not open filter: " + hPath)
    else if gPath !in files then Fatal("Could not open filter: " + gPath)
    else
      var g0, h0 := ReadBlock(files[gPath], K), ReadBlock(files[hPath], K);
      var g1, h1 := G1FromG0(kind, g0, K), H1FromH0(kind, h0, K);
      AssembleThenQuadrants(g0, g1, h0, h1, K);
      Ok(Assemble(g0, g1, h0, h1, K))
  }

  /* ------------------------------------------------------------------ */
  /* File names                                                          */
  /* ------------------------------------------------------------------ */

  predicate IsDigit(c: char) {
    '0' <= c <= '9'
  }

  function Digit(d: nat): (c: char)
    requires d < 10
    ensures IsDigit(c) && c as int - '0' as int == d
  {
    ('0' as int + d) as char
  }

  /** The decimal text of n, as an output string stream writes it. */
  function NatToString(n: nat): (s: string)
    ensures |s| >= 1 && forall k :: 0 <= k < |s| ==> IsDigit(s[k])
    decreases n
  {
    if n < 10 then [Digit(n)] else NatToString(n / 10) + [Digit(n % 10)]
  }

  /** The value of a string of decimal digits. */
  function ParseNat(s: string): nat
    requires forall k :: 0 <= k < |s| ==> IsDigit(s[k])
    decreases |s|
  {
    if |s| == 0 then 0
    else
      var c := s[|s| - 1];
      assert IsDigit(c);
      ParseNat(s[..|s| - 1]) * 10 + (c as int - '0' as int)
  }

  /** Reading back the decimal text of n gives n. */
  lemma {:induction false} ParseNatToString(n: nat)
    ensures ParseNat(NatToString(n)) == n
    decreases n
  {
    var s := NatToString(n);
    if n < 10 {
      assert s[..0] == [];
    } else {
      var t := NatToString(n / 10);
      assert s[..|s| - 1] == t;
      ParseNatToString(n / 10);
    }
  }

  /** setFilterPaths: the H and G file names for the filter type and order inside
      the library directory (the default one when `lib` is empty); a type other than
      the two known ones is fatal. */
  function FilterPaths(kind: FilterType, order: nat, lib: string, defaultLib: string): (r: Result<(string, string)>)
    ensures r.Ok? <==> Known(kind)
    ensures r.Fatal? ==> r.reason == "Invalid filter type"
  {
    var ordr := NatToString(order);
    var flib := if |lib| == 0 then defaultLib else lib;
    match kind
    case Interpol => Ok((flib + "/I_H0_" + ordr, flib + "/I_G0_" + ordr))
    case Legendre => Ok((flib + "/L_H0_" + ordr, flib + "/L_G0_" + ordr))
    case OtherType(_) => Fatal("Invalid filter type")
  }

  /** The name after the library directory: "/", the basis letter, "_", the block
      letter, "0_" and the order. */
  function FileTail(kind: FilterType, block: char, order: nat): string
    requires Known(kind)
  {
    ['/', if kind.Interpol? then 'I' else 'L', '_', block, '0', '_'] + NatToString(order)
  }

  lemma PathsShape(kind: FilterType, order: nat, lib: string, defaultLib: string)
    requires Known(kind)
    ensures var flib := if |lib| == 0 then defaultLib else lib;
            FilterPaths(kind, order, lib, defaultLib)
              == Ok((flib + FileTail(kind, 'H', order), flib + FileTail(kind, 'G', order)))
  {
    var ordr := NatToString(order);
    var flib := if |lib| == 0 then defaultLib else lib;
    if kind.Interpol? {
      assert flib + "/I_H0_" + ordr == flib + FileTail(kind, 'H', order);
      assert flib + "/I_G0_" + ordr == flib + FileTail(kind, 'G', order);
    } else {
      assert flib + "/L_H0_" + ordr == flib + FileTail(kind, 'H', order);
      assert flib + "/L_G0_" + ordr == flib + FileTail(kind, 'G', order);
    }
  }

  /** Within one library directory the H file name determines the filter type and
      the order, and the H and G files of one filter are different files. */
  lemma PathsDetermineFilter(k1: FilterType, o1: nat, k2: FilterType, o2: nat, lib: string, defaultLib: string)
    requires Known(k1) && Known(k2)
    ensures FilterPaths(k1, o1, lib, defaultLib).value.0 != FilterPaths(k1, o1, lib, defaultLib).value.1
    ensures FilterPaths(k1, o1, lib, defaultLib).value.0 == FilterPaths(k2, o2, lib, defaultLib).value.0
            ==> k1 == k2 && o1 == o2
  {
    var flib := if |lib| == 0 then defaultLib else lib;
    PathsShape(k1, o1, lib, defaultLib);
    PathsShape(k2, o2, lib, defaultLib);
    var h1, g1, h2 := flib + FileTail(k1, 'H', o1), flib + FileTail(k1, 'G', o1), flib + FileTail(k2, 'H', o2);
    assert h1[|flib| + 3] == 'H' && g1[|flib| + 3] == 'G';
    if h1 == h2 {
      assert FileTail(k1, 'H', o1) == h1[|flib|..] == h2[|flib|..] == FileTail(k2, 'H', o2);
      assert FileTail(k1, 'H', o1)[1] == FileTail(k2, 'H', o2)[1];
      assert k1 == k2;
      assert NatToString(o1) == FileTail(k1, 'H', o1)[6..] == FileTail(k2, 'H', o2)[6..] == NatToString(o2);
      ParseNatToString(o1);
      ParseNatToString(o2);
    }
  }

  /* ------------------------------------------------------------------ */
  /* The default library directory                                       */
  /* ------------------------------------------------------------------ */

  /** The default library after the file constructor has looked at the
      MRCPP_FILTER_DIR environment variable, as written: the assignment stores
      only the first character the variable points to (a NUL for an empty one). */
  function NextDefaultLibAsWritten(env: Option<string>, current: string): (d: string)
    ensures env.None? ==> d == current
    ensures env.Some? ==> |d| == 1
  {
    match env
    case None => current
    case Some(v) => if |v| == 0 then [0 as char] else [v[0]]
  }

  /** The default library as evidently intended: the variable's whole value when it
      is set, the previous default otherwise. The default is process-wide, so a later
      construction without the variable keeps it. */
  function NextDefaultLib(env: Option<string>, current: string): (d: string)
    ensures env.Some? ==> d == env.value
    ensures env.None? ==> d == current
  {
    match env
    case None => current
    case Some(v) => v
  }

  /** The two agree exactly when the variable is unset or one character long, so
      any real directory name is cut down to its first character. */
  lemma DefaultLibAsWrittenTruncates(env: Option<string>, current: string)
    ensures NextDefaultLibAsWritten(env, current) == NextDefaultLib(env, current)
            <==> env.None? || |env.value| == 1
    ensures NextDefaultLibAsWritten(Some("/opt/filters"), current) == "/"
  {
    if env.Some? && |env.value| != 1 {
      assert |NextDefaultLibAsWritten(env, current)| == 1;
    }
    if env.Some? && |env.value| == 1 {
      assert env.value == [env.value[0]];
    }
  }

  /* ------------------------------------------------------------------ */
  /* Construction                                                        */
  /* ------------------------------------------------------------------ */

  /** The file constructor MWFilter(k, t, lib), with the environment variable, the
      current default library, the largest supported order and the readable files
      as parameters. An order outside 1..maxOrder is fatal; an unknown type is only
      logged at first but is then fatal when the paths are named; a missing file is
      fatal. The result is a 2K x 2K filter with G0 and H0 read from the files and
      G1 and H1 filled by symmetry. */
  function FromFile(order: int, kind: FilterType, lib: string, env: Option<string>, defaultLib: string,
                    maxOrder: nat, files: map<string, seq<real>>): (r: Result<Filter>)
    requires FilesHold(files, order + 1)
    ensures r.Ok? <==>
              && 1 <= order <= maxOrder
              && Known(kind)
              && FilterPaths(kind, order, lib, NextDefaultLib(env, defaultLib)).value.0 in files
              && FilterPaths(kind, order, lib, NextDefaultLib(env, defaultLib)).value.1 in files
    ensures !(1 <= order <= maxOrder) ==> r == Fatal("Invalid filter order")
    ensures r.Ok? ==>
              var f, K := r.value, order + 1;
              && Consistent(f) && f.kind == kind && f.order == order
              && f.filter.rows == 2 * K && f.filter.cols == 2 * K
              && (f.hPath, f.gPath) == FilterPaths(kind, order, lib, NextDefaultLib(env, defaultLib)).value
              && f.g0 == ReadBlock(files[f.gPath], K)
              && f.h0 == ReadBlock(files[f.hPath], K)
              && f.g1 == G1FromG0(kind, f.g0, K)
              && f.h1 == H1FromH0(kind, f.h0, K)
  {
    if order < 1 || order > maxOrder then Fatal("Invalid filter order")
    else
      var K := order + 1;
      var paths :- FilterPaths(kind, order, lib, NextDefaultLib(env, defaultLib));
      var filter :- ReadFilterBin(kind, K, paths.0, paths.1, files);
      Ok(FillFilterBlocks(kind, order, filter, paths.0, paths.1))
  }

  /** A filter read from files satisfies the symmetry in both directions: G0 and H0
      are recovered from G1 and H1 by the same rule. */
  lemma LoadedHalvesDetermineEachOther(order: int, kind: FilterType, lib: string, env: Option<string>,
                                       defaultLib: string, maxOrder: nat, files: map<string, seq<real>>)
    requires FilesHold(files, order + 1)
    ensures var r := FromFile(order, kind, lib, env, defaultLib, maxOrder, files);
            r.Ok? ==> r.value.g0 == G1FromG0(kind, r.value.g1, order + 1)
                      && r.value.h0 == H1FromH0(kind, r.value.h1, order + 1)
  {
    var r := FromFile(order, kind, lib, env, defaultLib, maxOrder, files);
    if r.Ok? {
      SymmetryInvolutive(kind, r.value.g0, order + 1);
      SymmetryInvolutive(kind, r.value.h0, order + 1);
    }
  }

  /** The matrix constructor MWFilter(t, data): the order is cols / 2 - 1 and must
      lie in 0..maxOrder; an unknown type is only logged. Cutting the blocks needs
      at least 2K rows, which the source leaves to its callers. */
  function FromMatrix(kind: FilterType, data: Mat, maxOrder: nat): (r: Result<Filter>)
    requires Valid(data)
    requires 0 <= data.cols / 2 - 1 <= maxOrder ==> 2 * (data.cols / 2) <= data.rows
    ensures r.Ok? <==> 2 <= data.cols && data.cols / 2 - 1 <= maxOrder
    ensures r.Fatal? ==> r.reason == "Invalid filter order"
    ensures r.Ok? ==> Consistent(r.value) && r.value.kind == kind && r.value.filter == data
                      && r.value.order == data.cols / 2 - 1 && r.value.hPath == "" && r.value.gPath == ""
  {
    var order := data.cols / 2 - 1;
    if order < 0 || order > maxOrder then Fatal("Invalid filter order")
    else Ok(FillFilterBlocks(kind, order, data, "", ""))
  }

  /** Handing the matrix of a filter read from files to the matrix constructor
      gives the same filter, except for the file paths. */
  lemma FromMatrixOfLoaded(order: int, kind: FilterType, lib: string, env: Option<string>,
                           defaultLib: string, maxOrder: nat, files: map<string, seq<real>>)
    requires FilesHold(files, order + 1)
    ensures var r := FromFile(order, kind, lib, env, defaultLib, maxOrder, files);
            r.Ok? ==> FromMatrix(kind, r.value.filter, maxOrder) == Ok(r.value.(hPath := "", gPath := ""))
  {
    var r := FromFile(order, kind, lib, env, defaultLib, maxOrder, files);
    if r.Ok? {
      assert r.value.filter.cols / 2 - 1 == order;
    }
  }

  /* ------------------------------------------------------------------ */
  /* Applying the filter                                                 */
  /* ------------------------------------------------------------------ */

  /** apply(MatrixXd): data := filter * data; the row count of the data must equal
      the filter's column count. */
  function Apply(f: Filter, data: Mat): (r: Result<Mat>)
    requires Valid(f.filter) && Valid(data)
    ensures r.Fatal? <==> data.rows != f.filter.cols
    ensures r.Ok? ==> Valid(r.value) && r.value.rows == f.filter.rows && r.value.cols == data.cols
    ensures r.Ok? ==> forall i, j :: 0 <= i < f.filter.rows && 0 <= j < data.cols ==>
                        r.value.e[i][j] == Dot(f.filter.e[i], Column(data, j))
  {
    if data.rows != f.filter.cols then Fatal("Invalid argument") else Ok(MatMul(f.filter, data))
  }

  /** apply(VectorXd): v := filter * v, with the same dimension check. */
  function ApplyVector(f: Filter, v: seq<real>): (r: Result<seq<real>>)
    requires Valid(f.filter)
    ensures r.Fatal? <==> |v| != f.filter.cols
    ensures r.Ok? ==> |r.value| == f.filter.rows
    ensures r.Ok? ==> forall i :: 0 <= i < f.filter.rows ==> r.value[i] == Dot(f.filter.e[i], v)
  {
    if |v| != f.filter.cols then Fatal("Invalid argument")
    else Ok(seq(f.filter.rows, i requires 0 <= i < f.filter.rows => Dot(f.filter.e[i], v)))
  }

  /** The matrix overload acts column by column as the vector overload does. */
  lemma ApplyActsColumnwise(f: Filter, data: Mat, j: nat)
    requires Valid(f.filter) && Valid(data) && j < data.cols
    ensures Apply(f, data).Ok? <==> ApplyVector(f, Column(data, j)).Ok?
    ensures Apply(f, data).Ok? ==> Column(Apply(f, data).value, j) == ApplyVector(f, Column(data, j)).value
  {
  }

  /** The identity filter leaves any data of matching height unchanged. */
  lemma ApplyIdentity(f: Filter, data: Mat)
    requires f.filter == Identity(data.rows) && Valid(data)
    ensures Apply(f, data) == Ok(data)
  {
    var n := data.rows;
    var r := Apply(f, data).value;
    forall i, j | 0 <= i < n && 0 <= j < data.cols
      ensures r.e[i][j] == data.e[i][j]
    {
      assert f.filter.e[i] == UnitRow(n, i);
      DotUnit(n, i, Column(data, j));
    }
    MatEq(r, data);
  }

  /** The identity filter leaves any vector of matching length unchanged. */
  lemma ApplyVectorIdentity(f: Filter, v: seq<real>)
    requires f.filter == Identity(|v|)
    ensures ApplyVector(f, v) == Ok(v)
  {
    var n := |v|;
    var r := ApplyVector(f, v).value;
    forall i | 0 <= i < n
      ensures r[i] == v[i]
    {
      assert f.filter.e[i] == UnitRow(n, i);
      DotUnit(n, i, v);
    }
    assert r == v;
  }

  /** applyInverse as written: it checks the data height against the filter's
      column count but multiplies by the transpose, whose column count is the
      filter's row count. `Ok(None)` stands for a product whose dimensions disagree,
      which Eigen cannot form. */
  function ApplyInverseAsWritten(f: Filter, data: Mat): (r: Result<Option<Mat>>)
    requires Valid(f.filter) && Valid(data)
    ensures r.Fatal? <==> data.rows != f.filter.cols
    ensures r == Ok(None) <==> data.rows == f.filter.cols && data.rows != f.filter.rows
  {
    if data.rows != f.filter.cols then Fatal("Invalid argument")
    else if data.rows != f.filter.rows then Ok(None)
    else Ok(Some(MatMul(Transpose(f.filter), data)))
  }

  /** applyInverse as evidently intended: data := filter^T * data, fatal exactly
      when the product is not defined. */
  function ApplyInverse(f: Filter, data: Mat): (r: Result<Mat>)
    requires Valid(f.filter) && Valid(data)
    ensures r.Fatal? <==> data.rows != f.filter.rows
    ensures r.Ok? ==> Valid(r.value) && r.value.rows == f.filter.cols && r.value.cols == data.cols
    ensures r.Ok? ==> forall i, j :: 0 <= i < f.filter.cols && 0 <= j < data.cols ==>
                        r.value.e[i][j] == Dot(Column(f.filter, i), Column(data, j))
  {
    if data.rows != f.filter.rows then Fatal("Invalid argument")
    else
      var t := Transpose(f.filter);
      assert forall i :: 0 <= i < t.rows ==> t.e[i] == Column(f.filter, i);
      Ok(MatMul(t, data))
  }

  /** The inverse application is the application of the transposed filter. */
  lemma ApplyInverseIsApplyOfTranspose(f: Filter, data: Mat)
    requires Valid(f.filter) && Valid(data)
    ensures ApplyInverse(f, data) == Apply(f.(filter := Transpose(f.filter)), data)
  {
  }

  /** On a square filter, which every filter read from files is, the check as
      written is the intended one. */
  lemma ApplyInverseAsWrittenOnSquare(f: Filter, data: Mat)
    requires Valid(f.filter) && Valid(data) && f.filter.rows == f.filter.cols
    ensures ApplyInverse(f, data).Fatal? ==> ApplyInverseAsWritten(f, data).Fatal?
    ensures ApplyInverse(f, data).Ok? ==> ApplyInverseAsWritten(f, data) == Ok(Some(ApplyInverse(f, data).value))
  {
  }

  /** A 6 x 4 matrix is accepted by the matrix constructor (order 1, K = 2), and a
      4 x 1 vector then passes the check as written although the transposed filter
      is 4 x 6; a 6 x 1 vector, which the product accepts, is refused. */
  lemma ApplyInverseAsWrittenCounterexample(maxOrder: nat)
    requires maxOrder >= 1
    ensures var z4, z1 := seq(4, _ => 0.0), [0.0];
            var data := Mat(6, 4, seq(6, _ => z4));
            var f := FromMatrix(Interpol, data, maxOrder);
            && f.Ok?
            && ApplyInverseAsWritten(f.value, Mat(4, 1, seq(4, _ => z1))) == Ok(None)
            && ApplyInverseAsWritten(f.value, Mat(6, 1, seq(6, _ => z1))).Fatal?
            && ApplyInverse(f.value, Mat(6, 1, seq(6, _ => z1))).Ok?
  {
    var z4, z1 := seq(4, _ => 0.0), [0.0];
    var data := Mat(6, 4, seq(6, _ => z4));
    assert Valid(data);
    assert Valid(Mat(4, 1, seq(4, _ => z1)));
    assert Valid(Mat(6, 1, seq(6, _ => z1)));
  }
}
