/** host_matrix_mul and the strides and leading dimensions it is called with. */
module HostGemm {
  import opened IndexMath

  // ---------------------------------------------------------------- strided storage

  /** Offset of (i, j) under two strides. */
  function Pos(i: nat, j: nat, s1: nat, s2: nat): nat { i * s1 + j * s2 }

  /** Every element of a rows x cols view lies inside `size` elements of storage. */
  ghost predicate Fits(rows: nat, cols: nat, s1: nat, s2: nat, size: nat) {
    forall i: nat, j: nat :: i < rows && j < cols ==> Pos(i, j, s1, s2) < size
  }

  /** Different elements of the view are stored at different offsets. */
  ghost predicate Apart(rows: nat, cols: nat, s1: nat, s2: nat) {
    forall i: nat, j: nat, i': nat, j': nat ::
      i < rows && j < cols && i' < rows && j' < cols && Pos(i, j, s1, s2) == Pos(i', j', s1, s2) ==> i == i' && j == j'
  }

  /** `x` is the offset of no element of the view. */
  ghost predicate Outside(rows: nat, cols: nat, s1: nat, s2: nat, x: int) {
    forall i: nat, j: nat :: i < rows && j < cols ==> Pos(i, j, s1, s2) != x
  }

  /** The size the constructor computes for a column-major matrix of `cols` columns. */
  function StoredSize(cols: nat, ld: nat): nat { cols * ld }

  lemma PosColumn(rows: nat, cols: nat, ld: nat, i: nat, j: nat)
    requires i < rows && j < cols && rows <= ld
    ensures Pos(i, j, 1, ld) < StoredSize(cols, ld)
    ensures Pos(i, j, 1, ld) / ld == j && Pos(i, j, 1, ld) % ld == i
  {
    FlatBound(j, i, ld, cols);
    DivMod(j, i, ld);
  }

  /** A column-major view of a non-empty matrix stays inside its storage exactly when the leading dimension is at
      least the number of stored rows. */
  lemma ColumnMajorFitsIff(rows: nat, cols: nat, ld: nat)
    requires rows > 0 && cols > 0
    ensures Fits(rows, cols, 1, ld, StoredSize(cols, ld)) <==> ld >= rows
  {
    if ld >= rows {
      forall i: nat, j: nat | i < rows && j < cols ensures Pos(i, j, 1, ld) < StoredSize(cols, ld) {
        PosColumn(rows, cols, ld, i, j);
      }
    } else {
      assert Pos(rows - 1, cols - 1, 1, ld) == rows - 1 + (cols - 1) * ld;
      assert cols * ld == (cols - 1) * ld + ld;
    }
  }

  lemma ColumnMajorApart(rows: nat, cols: nat, ld: nat)
    requires ld >= rows
    ensures Apart(rows, cols, 1, ld)
  {
    forall i: nat, j: nat, i': nat, j': nat
      | i < rows && j < cols && i' < rows && j' < cols && Pos(i, j, 1, ld) == Pos(i', j', 1, ld)
      ensures i == i' && j == j'
    {
      PosColumn(rows, cols, ld, i, j);
      PosColumn(rows, cols, ld, i', j');
    }
  }

  /** Swapping the strides is reading the transposed matrix. */
  lemma TransposedFits(rows: nat, cols: nat, s1: nat, s2: nat, size: nat)
    ensures Fits(rows, cols, s1, s2, size) <==> Fits(cols, rows, s2, s1, size)
  {
    forall i: nat, j: nat ensures Pos(i, j, s1, s2) == Pos(j, i, s2, s1) { }
  }

  // ---------------------------------------------------------------- leading dimensions and strides

  /** The hipBLASLt branch: the larger of the given leading dimension and the number of stored rows. */
  function HipLtLeading(ld: nat, storedRows: nat): nat { Max(ld, storedRows) }

  /** The value of rocBLAS's rocblas_operation_none. */
  const ROC_NONE: int := 111

  /** The rocBLAS branch: the operand counts as transposed when the flag is not 0, but the minimum leading dimension
      is chosen by comparing that same flag with the library's enumeration. */
  function RocLeadingA(lda: nat, m: nat, k: nat, flag: int): nat { Max(lda, if flag == ROC_NONE then m else k) }

  function RocLeadingB(ldb: nat, k: nat, n: nat, flag: int): nat { Max(ldb, if flag == ROC_NONE then k else n) }

  /** Stored rows and columns of an operand whose logical shape is rows x cols. */
  function StoredRows(rows: nat, cols: nat, trans: bool): nat { if trans then cols else rows }

  function StoredCols(rows: nat, cols: nat, trans: bool): nat { if trans then rows else cols }

  /** The strides check_result_accuracy passes for an operand. */
  function Stride1(ld: nat, trans: bool): nat { if trans then ld else 1 }

  function Stride2(ld: nat, trans: bool): nat { if trans then 1 else ld }

  /** Where element (i, l) of an operand is read: column by column, and with the two exchanged when it is transposed;
      and how much is stored for it. */
  lemma OperandMeans(rows: nat, cols: nat, ld: nat, i: nat, l: nat)
    ensures Pos(i, l, Stride1(ld, false), Stride2(ld, false)) == i + l * ld
    ensures Pos(i, l, Stride1(ld, true), Stride2(ld, true)) == i * ld + l
    ensures StoredSize(StoredCols(rows, cols, false), ld) == cols * ld && StoredRows(rows, cols, false) == rows
    ensures StoredSize(StoredCols(rows, cols, true), ld) == rows * ld && StoredRows(rows, cols, true) == cols
  {
  }

  /** An operand is read inside its storage exactly when its leading dimension is at least its stored row count. */
  lemma OperandFitsIff(rows: nat, cols: nat, ld: nat, trans: bool)
    requires rows > 0 && cols > 0
    ensures Fits(rows, cols, Stride1(ld, trans), Stride2(ld, trans), StoredSize(StoredCols(rows, cols, trans), ld))
            <==> ld >= StoredRows(rows, cols, trans)
  {
    if trans {
      ColumnMajorFitsIff(cols, rows, ld);
      TransposedFits(rows, cols, ld, 1, StoredSize(rows, ld));
    } else {
      ColumnMajorFitsIff(rows, cols, ld);
    }
  }

  /** The sufficient half, for operands of any size. */
  lemma OperandFits(rows: nat, cols: nat, ld: nat, trans: bool)
    requires ld >= StoredRows(rows, cols, trans)
    ensures Fits(rows, cols, Stride1(ld, trans), Stride2(ld, trans), StoredSize(StoredCols(rows, cols, trans), ld))
  {
    if rows > 0 && cols > 0 { OperandFitsIff(rows, cols, ld, trans); }
  }

  /** On rocBLAS the accuracy check reads inside matrix A exactly when the configured leading dimension or the other
      dimension makes up for the minimum taken from the wrong dimension. */
  lemma RocReadsInsideAIff(m: nat, k: nat, lda: nat, flag: int)
    requires m > 0 && k > 0
    ensures var ld, trans := RocLeadingA(lda, m, k, flag), flag != 0;
            Fits(m, k, Stride1(ld, trans), Stride2(ld, trans), StoredSize(StoredCols(m, k, trans), ld))
            <==> ((flag == 0 ==> lda >= m || k >= m) && (flag == 111 ==> lda >= k || m >= k))
  {
    OperandFitsIff(m, k, RocLeadingA(lda, m, k, flag), flag != 0);
  }

  /** The same for matrix B, whose minimum comes from the wrong dimension in the same way. */
  lemma RocReadsInsideBIff(k: nat, n: nat, ldb: nat, flag: int)
    requires k > 0 && n > 0
    ensures var ld, trans := RocLeadingB(ldb, k, n, flag), flag != 0;
            Fits(k, n, Stride1(ld, trans), Stride2(ld, trans), StoredSize(StoredCols(k, n, trans), ld))
            <==> ((flag == 0 ==> ldb >= k || n >= k) && (flag == 111 ==> ldb >= n || k >= n))
  {
    OperandFitsIff(k, n, RocLeadingB(ldb, k, n, flag), flag != 0);
  }

  /** For the half-sized types the consistency check reads output D, stored with its own leading dimension, in columns
      of matrix C's leading dimension: its last element has to lie inside D. */
  lemma OutputCheckInsideIff(m: nat, n: nat, ldc: nat, ldd: nat)
    requires m > 0 && n > 0
    ensures Fits(m, n, 1, ldc, StoredSize(n, ldd)) <==> (n - 1) * ldc + m <= n * ldd
  {
    assert Pos(m - 1, n - 1, 1, ldc) == m - 1 + (n - 1) * ldc;
    forall i: nat, j: nat | i < m && j < n ensures Pos(i, j, 1, ldc) <= Pos(m - 1, n - 1, 1, ldc) {
      MulMono(j, n - 1, ldc);
    }
  }

  // ---------------------------------------------------------------- multiplication

  /** Sum of the first `k` products of row `i` of the left and column `j` of the right operand. */
  function DotTo(a: seq<real>, as1: nat, as2: nat, b: seq<real>, bs1: nat, bs2: nat, i: nat, j: nat, k: nat): real
    requires forall l: nat :: l < k ==> Pos(i, l, as1, as2) < |a| && Pos(l, j, bs1, bs2) < |b|
  {
    if k == 0 then 0.0
    else DotTo(a, as1, as2, b, bs1, bs2, i, j, k - 1) + a[Pos(i, k - 1, as1, as2)] * b[Pos(k - 1, j, bs1, bs2)]
  }

  method InnerProduct(a: seq<real>, as1: nat, as2: nat, b: seq<real>, bs1: nat, bs2: nat, i: nat, j: nat, k: nat)
    returns (t: real)
    requires forall l: nat :: l < k ==> Pos(i, l, as1, as2) < |a| && Pos(l, j, bs1, bs2) < |b|
    ensures t == DotTo(a, as1, as2, b, bs1, bs2, i, j, k)
  {
    t := 0.0;
    for l := 0 to k
      invariant t == DotTo(a, as1, as2, b, bs1, bs2, i, j, l)
    {
      t := t + a[Pos(i, l, as1, as2)] * b[Pos(l, j, bs1, bs2)];
    }
  }

  /** The value C(i, j) is to receive. */
  ghost function Result(alpha: real, beta: real, a: seq<real>, as1: nat, as2: nat, b: seq<real>, bs1: nat, bs2: nat,
                        k: nat, i: nat, j: nat, before: real): real
    requires forall l: nat :: l < k ==> Pos(i, l, as1, as2) < |a| && Pos(l, j, bs1, bs2) < |b|
  {
    beta * before + alpha * DotTo(a, as1, as2, b, bs1, bs2, i, j, k)
  }

  /** Multiplying by a diagonal matrix takes each column of the left operand times its diagonal entry. */
  lemma {:induction false} DiagonalOperand(a: seq<real>, as1: nat, as2: nat, b: seq<real>, bs1: nat, bs2: nat, i: nat,
                                           j: nat, k: nat, d: real)
    requires forall l: nat :: l < k ==> Pos(i, l, as1, as2) < |a| && Pos(l, j, bs1, bs2) < |b|
    requires forall l: nat :: l < k ==> b[Pos(l, j, bs1, bs2)] == if l == j then d else 0.0
    ensures DotTo(a, as1, as2, b, bs1, bs2, i, j, k) == if j < k then a[Pos(i, j, as1, as2)] * d else 0.0
  {
    if k > 0 {
      DiagonalOperand(a, as1, as2, b, bs1, bs2, i, j, k - 1, d);
      assert a[Pos(i, k - 1, as1, as2)] * 0.0 == 0.0;
    }
  }

  /** So the identity matrix, alpha = 1 and beta = 0 give the left operand back; alpha = 0 leaves beta times what was
      there. */
  lemma IdentityOperand(beta: real, a: seq<real>, as1: nat, as2: nat, b: seq<real>, bs1: nat, bs2: nat, k: nat, i: nat,
                        j: nat, before: real)
    requires forall l: nat :: l < k ==> Pos(i, l, as1, as2) < |a| && Pos(l, j, bs1, bs2) < |b|
    requires j < k && forall l: nat :: l < k ==> b[Pos(l, j, bs1, bs2)] == if l == j then 1.0 else 0.0
    ensures Result(1.0, 0.0, a, as1, as2, b, bs1, bs2, k, i, j, before) == a[Pos(i, j, as1, as2)]
    ensures Result(1.0, beta, a, as1, as2, b, bs1, bs2, k, i, j, before) == beta * before + a[Pos(i, j, as1, as2)]
    ensures Result(0.0, beta, a, as1, as2, b, bs1, bs2, k, i, j, before) == beta * before
  {
    DiagonalOperand(a, as1, as2, b, bs1, bs2, i, j, k, 1.0);
    assert 0.0 * before == 0.0;
  }

  /** In general the product counts alpha times. */
  lemma ResultScales(alpha: real, beta: real, a: seq<real>, as1: nat, as2: nat, b: seq<real>, bs1: nat, bs2: nat,
                     k: nat, i: nat, j: nat, before: real)
    requires forall l: nat :: l < k ==> Pos(i, l, as1, as2) < |a| && Pos(l, j, bs1, bs2) < |b|
    ensures Result(alpha, beta, a, as1, as2, b, bs1, bs2, k, i, j, before) - beta * before ==
            alpha * Result(1.0, 0.0, a, as1, as2, b, bs1, bs2, k, i, j, before)
  {
    assert 0.0 * before == 0.0;
  }

  /** host_matrix_mul: C := alpha * (A * B) + beta * C on the m x n view, and nothing else changes. */
  method HostMatrixMul(alpha: real, beta: real, m: nat, n: nat, k: nat, a: seq<real>, as1: nat, as2: nat,
                       b: seq<real>, bs1: nat, bs2: nat, c: array<real>, cs1: nat, cs2: nat)
    requires Fits(m, k, as1, as2, |a|) && Fits(k, n, bs1, bs2, |b|) && Fits(m, n, cs1, cs2, c.Length)
    requires Apart(m, n, cs1, cs2)
    modifies c
    ensures forall i: nat, j: nat :: i < m && j < n ==>
              c[Pos(i, j, cs1, cs2)] ==
              Result(alpha, beta, a, as1, as2, b, bs1, bs2, k, i, j, old(c[Pos(i, j, cs1, cs2)]))
    ensures forall x :: 0 <= x < c.Length && Outside(m, n, cs1, cs2, x) ==> c[x] == old(c[x])
  {
    for i1 := 0 to m
      invariant forall i: nat, j: nat :: i < i1 && j < n ==>
                  c[Pos(i, j, cs1, cs2)] ==
                  Result(alpha, beta, a, as1, as2, b, bs1, bs2, k, i, j, old(c[Pos(i, j, cs1, cs2)]))
      invariant forall i: nat, j: nat :: i1 <= i < m && j < n ==> c[Pos(i, j, cs1, cs2)] == old(c[Pos(i, j, cs1, cs2)])
      invariant forall x :: 0 <= x < c.Length && Outside(m, n, cs1, cs2, x) ==> c[x] == old(c[x])
    {
      MulRow(alpha, beta, m, n, k, a, as1, as2, b, bs1, bs2, c, cs1, cs2, i1);
    }
  }

  /** One row of the result. */
  method MulRow(alpha: real, beta: real, m: nat, n: nat, k: nat, a: seq<real>, as1: nat, as2: nat,
                b: seq<real>, bs1: nat, bs2: nat, c: array<real>, cs1: nat, cs2: nat, i1: nat)
    requires Fits(m, k, as1, as2, |a|) && Fits(k, n, bs1, bs2, |b|) && Fits(m, n, cs1, cs2, c.Length)
    requires Apart(m, n, cs1, cs2) && i1 < m
    modifies c
    ensures forall j: nat :: j < n ==>
              c[Pos(i1, j, cs1, cs2)] ==
              Result(alpha, beta, a, as1, as2, b, bs1, bs2, k, i1, j, old(c[Pos(i1, j, cs1, cs2)]))
    ensures forall i: nat, j: nat :: i < m && i != i1 && j < n ==> c[Pos(i, j, cs1, cs2)] == old(c[Pos(i, j, cs1, cs2)])
    ensures forall x :: 0 <= x < c.Length && Outside(m, n, cs1, cs2, x) ==> c[x] == old(c[x])
  {
    for i2 := 0 to n
      invariant forall j: nat :: j < i2 ==>
                  c[Pos(i1, j, cs1, cs2)] ==
                  Result(alpha, beta, a, as1, as2, b, bs1, bs2, k, i1, j, old(c[Pos(i1, j, cs1, cs2)]))
      invariant forall i: nat, j: nat :: i < m && j < n && (i != i1 || j >= i2) ==>
                  c[Pos(i, j, cs1, cs2)] == old(c[Pos(i, j, cs1, cs2)])
      invariant forall x :: 0 <= x < c.Length && Outside(m, n, cs1, cs2, x) ==> c[x] == old(c[x])
    {
      var t := InnerProduct(a, as1, as2, b, bs1, bs2, i1, i2, k);
      var x := Pos(i1, i2, cs1, cs2);
      c[x] := beta * c[x] + alpha * t;
    }
  }

  /** An m x n matrix with leading dimension `ldc`: the offsets between m and ldc of each column belong to no
      element. */
  lemma PaddingIsOutside(m: nat, n: nat, ldc: nat, i: nat, j: nat)
    requires m <= i < ldc && j < n
    ensures Outside(m, n, 1, ldc, i + j * ldc)
  {
    DivMod(j, i, ldc);
    forall i': nat, j': nat | i' < m && j' < n ensures Pos(i', j', 1, ldc) != i + j * ldc {
      PosColumn(m, n, ldc, i', j');
    }
  }

  /** The call check_result_accuracy makes, for each of the four transpose combinations. */
  method AccuracyReference(alpha: real, beta: real, m: nat, n: nat, k: nat, transA: bool, transB: bool,
                           a: seq<real>, lda: nat, b: seq<real>, ldb: nat, c: array<real>, ldc: nat)
    requires lda >= StoredRows(m, k, transA) && ldb >= StoredRows(k, n, transB) && ldc >= m
    requires |a| == StoredSize(StoredCols(m, k, transA), lda) && |b| == StoredSize(StoredCols(k, n, transB), ldb)
    requires c.Length == StoredSize(n, ldc)
    modifies c
    ensures Fits(m, k, Stride1(lda, transA), Stride2(lda, transA), |a|)
    ensures Fits(k, n, Stride1(ldb, transB), Stride2(ldb, transB), |b|)
    ensures forall i: nat, j: nat :: i < m && j < n ==>
              Pos(i, j, 1, ldc) < c.Length &&
              c[Pos(i, j, 1, ldc)] == Result(alpha, beta, a, Stride1(lda, transA), Stride2(lda, transA),
                                             b, Stride1(ldb, transB), Stride2(ldb, transB), k, i, j,
                                             old(c[Pos(i, j, 1, ldc)]))
    ensures forall x :: 0 <= x < c.Length && Outside(m, n, 1, ldc, x) ==> c[x] == old(c[x])
  {
    OperandFits(m, k, lda, transA);
    OperandFits(k, n, ldb, transB);
    OperandFits(m, n, ldc, false);
    ColumnMajorApart(m, n, ldc);
    HostMatrixMul(alpha, beta, m, n, k, a, Stride1(lda, transA), Stride2(lda, transA),
                  b, Stride1(ldb, transB), Stride2(ldb, transB), c, 1, ldc);
  }

  /** The layouts of the hipBLASLt branch always describe matrices that lie inside their buffers. */
  lemma HipLtLeadingSuffices(rows: nat, cols: nat, ld: nat, trans: bool)
    ensures var l := HipLtLeading(ld, StoredRows(rows, cols, trans));
            Fits(rows, cols, Stride1(l, trans), Stride2(l, trans), StoredSize(StoredCols(rows, cols, trans), l))
  {
    OperandFits(rows, cols, HipLtLeading(ld, StoredRows(rows, cols, trans)), trans);
  }
}
