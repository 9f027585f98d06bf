/** check_norm_error: the relative 'F' norm of the difference of two matrices, ignoring the padding of their columns. */
module NormError {
  import opened IndexMath
  import opened NormCheck
  import opened RealMath

  /** Offset of row `i` of column `j`. */
  function At(i: nat, j: nat, lda: nat): nat { i + j * lda }

  /** The two matrices agree on every element, whatever their padding holds. */
  ghost predicate Agree(a: seq<real>, b: seq<real>, m: nat, n: nat, lda: nat) {
    forall i: nat, j: nat :: i < m && j < n ==>
      At(i, j, lda) < |a| && At(i, j, lda) < |b| && a[At(i, j, lda)] == b[At(i, j, lda)]
  }

  ghost predicate AllZero(a: seq<real>, m: nat, n: nat, lda: nat) {
    forall i: nat, j: nat :: i < m && j < n ==> At(i, j, lda) < |a| && a[At(i, j, lda)] == 0.0
  }

  /** Room for `n` columns. */
  ghost predicate Holds(a: seq<real>, m: nat, n: nat, lda: nat) { forall j: nat :: j < n ==> j * lda + m <= |a| }

  lemma LeadingHolds(a: seq<real>, m: nat, n: nat, lda: nat)
    requires m <= lda && n * lda <= |a|
    ensures Holds(a, m, n, lda)
  {
    forall j: nat | j < n ensures j * lda + m <= |a| {
      MulMono(j + 1, n, lda);
      assert (j + 1) * lda == j * lda + lda;
    }
  }

  lemma {:induction false} EntriesLength(a: seq<real>, m: nat, lda: nat, n: nat)
    requires Holds(a, m, n, lda)
    ensures |Entries(a, m, lda, n)| == n * m
  {
    if n > 0 {
      EntriesLength(a, m, lda, n - 1);
      assert n * m == (n - 1) * m + m;
    }
  }

  /** Equal entries are equal columns. */
  lemma {:induction false} EntriesEqualIff(a: seq<real>, b: seq<real>, m: nat, lda: nat, n: nat)
    requires Holds(a, m, n, lda) && Holds(b, m, n, lda)
    ensures Entries(a, m, lda, n) == Entries(b, m, lda, n) <==>
            forall j: nat :: j < n ==> Column(a, m, lda, j) == Column(b, m, lda, j)
  {
    if n > 0 {
      EntriesEqualIff(a, b, m, lda, n - 1);
      EntriesLength(a, m, lda, n - 1);
      EntriesLength(b, m, lda, n - 1);
      SuffixesAgree(Entries(a, m, lda, n - 1), Column(a, m, lda, n - 1),
                    Entries(b, m, lda, n - 1), Column(b, m, lda, n - 1));
    }
  }

  lemma SuffixesAgree(x1: seq<real>, y1: seq<real>, x2: seq<real>, y2: seq<real>)
    requires |x1| == |x2|
    ensures x1 + y1 == x2 + y2 <==> x1 == x2 && y1 == y2
  {
    if x1 + y1 == x2 + y2 {
      assert x1 == (x1 + y1)[..|x1|] && y1 == (x1 + y1)[|x1|..];
      assert x2 == (x2 + y2)[..|x2|] && y2 == (x2 + y2)[|x2|..];
    }
  }

  lemma ColumnsAgreeIff(a: seq<real>, b: seq<real>, m: nat, lda: nat, n: nat)
    requires Holds(a, m, n, lda) && Holds(b, m, n, lda)
    ensures (forall j: nat :: j < n ==> Column(a, m, lda, j) == Column(b, m, lda, j)) <==> Agree(a, b, m, n, lda)
  {
    forall i: nat, j: nat | i < m && j < n
      ensures At(i, j, lda) < |a| && At(i, j, lda) < |b|
      ensures Column(a, m, lda, j)[i] == a[At(i, j, lda)] && Column(b, m, lda, j)[i] == b[At(i, j, lda)]
    {
      assert j * lda + m <= |a| && j * lda + m <= |b|;
    }
  }

  ghost predicate Zeros(s: seq<real>) { forall x :: 0 <= x < |s| ==> s[x] == 0.0 }

  lemma ZerosConcat(s: seq<real>, t: seq<real>)
    ensures Zeros(s + t) <==> Zeros(s) && Zeros(t)
  {
    assert forall x :: 0 <= x < |s| ==> (s + t)[x] == s[x];
    assert forall x :: 0 <= x < |t| ==> (s + t)[|s| + x] == t[x];
  }

  lemma LastColumnZero(a: seq<real>, m: nat, lda: nat, n: nat)
    requires n > 0 && Holds(a, m, n, lda)
    ensures AllZero(a, m, n, lda) <==> AllZero(a, m, n - 1, lda) && Zeros(Column(a, m, lda, n - 1))
  {
    var col := Column(a, m, lda, n - 1);
    var base := (n - 1) * lda;
    assert base + m <= |a| && col == a[base..base + m];
    forall i: nat | i < m ensures At(i, n - 1, lda) < |a| && col[i] == a[At(i, n - 1, lda)] {
      assert At(i, n - 1, lda) == base + i;
    }
    if AllZero(a, m, n, lda) {
      forall i | 0 <= i < |col| ensures col[i] == 0.0 { assert col[i] == a[At(i, n - 1, lda)]; }
    }
  }

  lemma {:induction false} ZeroEntriesIff(a: seq<real>, m: nat, lda: nat, n: nat)
    requires Holds(a, m, n, lda)
    ensures Zeros(Entries(a, m, lda, n)) <==> AllZero(a, m, n, lda)
  {
    if n > 0 {
      ZeroEntriesIff(a, m, lda, n - 1);
      ZerosConcat(Entries(a, m, lda, n - 1), Column(a, m, lda, n - 1));
      LastColumnZero(a, m, lda, n);
    }
  }

  /** The copying loops: the columns close together. */
  method CopyTight(h: seq<real>, m: nat, n: nat, lda: nat) returns (t: seq<real>)
    requires Holds(h, m, n, lda)
    ensures t == Entries(h, m, lda, n)
  {
    t := [];
    for j := 0 to n
      invariant t == Entries(h, m, lda, j)
    {
      ghost var before := t;
      var src := j * lda;
      for i := 0 to m
        invariant t == before + h[src..src + i]
      {
        t := t + [h[src + i]];
        assert h[src..src + i + 1] == h[src..src + i] + [h[src + i]];
      }
    }
  }

  /** m_axpy_64 with unit increments and factor -1. */
  method Axpy(x: seq<real>, y: seq<real>) returns (r: seq<real>)
    requires |x| == |y|
    ensures |r| == |x| && forall i :: 0 <= i < |r| ==> r[i] == y[i] - x[i]
  {
    r := y;
    for i := 0 to |x|
      invariant |r| == |y|
      invariant forall j :: 0 <= j < i ==> r[j] == y[j] - x[j]
      invariant forall j :: i <= j < |r| ==> r[j] == y[j]
    {
      r := r[i := -1.0 * x[i] + r[i]];
    }
  }

  /** A matrix without padding is its own list of entries. */
  lemma {:induction false} TightEntries(t: seq<real>, m: nat, n: nat, k: nat)
    requires |t| == n * m && k <= n
    ensures Holds(t, m, k, m) && k * m <= |t| && Entries(t, m, m, k) == t[..k * m]
  {
    MulMono(k, n, m);
    LeadingHolds(t, m, n, m);
    if k > 0 {
      TightEntries(t, m, n, k - 1);
      assert k * m == (k - 1) * m + m;
      assert t[..k * m] == t[..(k - 1) * m] + t[(k - 1) * m..k * m];
    }
  }

  /** The norm of a matrix without padding. */
  method NormOfTight(t: seq<real>, m: nat, n: nat, root: real -> real) returns (norm: real)
    requires IsRoot(root) && |t| == n * m
    ensures norm == FNorm(root, t)
  {
    TightEntries(t, m, n, n);
    assert t[..n * m] == t;
    norm := CalculateNormF(m, n, t, m, root);
  }

  /** Entry-wise y - x. */
  function Minus(x: seq<real>, y: seq<real>): (r: seq<real>)
    requires |x| == |y|
    ensures |r| == |x|
  {
    seq(|x|, i requires 0 <= i < |x| => y[i] - x[i])
  }

  lemma MinusZeroIff(x: seq<real>, y: seq<real>)
    requires |x| == |y|
    ensures x == y <==> forall i :: 0 <= i < |x| ==> Minus(x, y)[i] == 0.0
  {
    forall i | 0 <= i < |x| ensures Minus(x, y)[i] == 0.0 <==> x[i] == y[i] { }
  }

  /** The entries of both matrices, as the copies hold them. */
  lemma EntriesMatch(a: seq<real>, b: seq<real>, m: nat, n: nat, lda: nat)
    requires m <= lda && n * lda <= |a| && n * lda <= |b|
    ensures Holds(a, m, n, lda) && Holds(b, m, n, lda)
    ensures |Entries(a, m, lda, n)| == |Entries(b, m, lda, n)| == n * m
  {
    LeadingHolds(a, m, n, lda);
    LeadingHolds(b, m, n, lda);
    EntriesLength(a, m, lda, n);
    EntriesLength(b, m, lda, n);
  }

  /** check_norm_error's value for type 'F': the norm of the difference over the norm of the reference. */
  ghost function NormErrorOf(m: nat, n: nat, lda: nat, ha: seq<real>, hb: seq<real>, root: real -> real): real
    requires m <= lda && n * lda <= |ha| && n * lda <= |hb|
    requires Holds(ha, m, n, lda) && FNorm(root, Entries(ha, m, lda, n)) != 0.0
  {
    EntriesMatch(ha, hb, m, n, lda);
    FNorm(root, Minus(Entries(ha, m, lda, n), Entries(hb, m, lda, n))) / FNorm(root, Entries(ha, m, lda, n))
  }

  /** The elements of the second matrix as a function of those of the first. */
  ghost predicate Mapped(f: real -> real, a: seq<real>, b: seq<real>, m: nat, n: nat, lda: nat) {
    forall i: nat, j: nat :: i < m && j < n ==>
      At(i, j, lda) < |a| && At(i, j, lda) < |b| && b[At(i, j, lda)] == f(a[At(i, j, lda)])
  }

  lemma {:induction false} MappedEntries(f: real -> real, a: seq<real>, b: seq<real>, m: nat, lda: nat, n: nat)
    requires Holds(a, m, n, lda) && Holds(b, m, n, lda) && Mapped(f, a, b, m, n, lda)
    ensures |Entries(a, m, lda, n)| == |Entries(b, m, lda, n)|
    ensures forall x :: 0 <= x < |Entries(a, m, lda, n)| ==> Entries(b, m, lda, n)[x] == f(Entries(a, m, lda, n)[x])
  {
    if n > 0 {
      MappedEntries(f, a, b, m, lda, n - 1);
      var ca, cb := Column(a, m, lda, n - 1), Column(b, m, lda, n - 1);
      forall i: nat | i < m ensures cb[i] == f(ca[i]) {
        assert ca[i] == a[At(i, n - 1, lda)] && cb[i] == b[At(i, n - 1, lda)];
      }
    }
  }

  lemma DeviationNorm(root: real -> real, t: real, xs: seq<real>, ds: seq<real>)
    requires IsRoot(root) && |ds| == |xs| && forall i :: 0 <= i < |xs| ==> ds[i] == t * xs[i]
    ensures FNorm(root, ds) == Abs(t) * FNorm(root, xs)
  {
    if t == 0.0 {
      NormZeroIff(root, ds);
    } else {
      var ys := Times(Abs(t), xs);
      forall i | 0 <= i < |xs| ensures Abs(ds[i]) == Abs(ys[i]) { }
      NormOfMagnitudes(root, ds, ys);
      NormScales(root, Abs(t), xs);
    }
  }

  lemma Deviation(t: real, x: real, y: real)
    requires y == (1.0 + t) * x
    ensures y - x == t * x
  {
  }

  /** The quotient of the norms of the deviation and of the reference. */
  lemma DeviationQuotient(root: real -> real, t: real, xs: seq<real>, ys: seq<real>)
    requires IsRoot(root) && |ys| == |xs| && forall i :: 0 <= i < |xs| ==> ys[i] == (1.0 + t) * xs[i]
    requires FNorm(root, xs) > 0.0
    ensures FNorm(root, Minus(xs, ys)) / FNorm(root, xs) == Abs(t)
  {
    var ds, norm := Minus(xs, ys), FNorm(root, xs);
    forall i | 0 <= i < |xs| ensures ds[i] == t * xs[i] {
      Deviation(t, xs[i], ys[i]);
    }
    DeviationNorm(root, t, xs, ds);
    DivideOut(FNorm(root, ds), Abs(t), norm);
  }

  /** A second matrix that deviates from the reference by the share `t` in every element has the error |t|. */
  lemma DeviationIsError(m: nat, n: nat, lda: nat, ha: seq<real>, hb: seq<real>, root: real -> real, t: real)
    requires IsRoot(root) && m <= lda && n * lda <= |ha| && n * lda <= |hb|
    requires Holds(ha, m, n, lda) && FNorm(root, Entries(ha, m, lda, n)) != 0.0
    requires Mapped((x: real) => (1.0 + t) * x, ha, hb, m, n, lda)
    ensures NormErrorOf(m, n, lda, ha, hb, root) == if t < 0.0 then -t else t
  {
    var f := (x: real) => (1.0 + t) * x;
    EntriesMatch(ha, hb, m, n, lda);
    MappedEntries(f, ha, hb, m, lda, n);
    var xs, ys := Entries(ha, m, lda, n), Entries(hb, m, lda, n);
    NormZeroIff(root, xs);
    assert forall i :: 0 <= i < |xs| ==> ys[i] == f(xs[i]);
    DeviationQuotient(root, t, xs, ys);
  }

  /** A second matrix of zeros has the error 1. */
  lemma ZerosHaveErrorOne(m: nat, n: nat, lda: nat, ha: seq<real>, hb: seq<real>, root: real -> real)
    requires IsRoot(root) && m <= lda && n * lda <= |ha| && n * lda <= |hb|
    requires Holds(ha, m, n, lda) && FNorm(root, Entries(ha, m, lda, n)) != 0.0
    requires AllZero(hb, m, n, lda)
    ensures NormErrorOf(m, n, lda, ha, hb, root) == 1.0
  {
    EntriesMatch(ha, hb, m, n, lda);
    forall i: nat, j: nat | i < m && j < n ensures At(i, j, lda) < |ha| {
      assert j * lda + m <= |ha|;
    }
    DeviationIsError(m, n, lda, ha, hb, root, -1.0);
  }

  /** A reference that is not all zero has a norm to divide by. */
  lemma ReferenceHasNorm(m: nat, n: nat, lda: nat, ha: seq<real>, root: real -> real)
    requires IsRoot(root) && m <= lda && n * lda <= |ha| && !AllZero(ha, m, n, lda)
    ensures Holds(ha, m, n, lda) && FNorm(root, Entries(ha, m, lda, n)) > 0.0
  {
    LeadingHolds(ha, m, n, lda);
    ZeroEntriesIff(ha, m, lda, n);
    NormZeroIff(root, Entries(ha, m, lda, n));
  }

  /** check_norm_error for type 'F': the norm of the difference relative to that of the reference, which is zero exactly
      when the matrices agree on all m x n elements. The reference must not be all zero: the source would divide by
      zero. */
  method CheckNormError(m: nat, n: nat, lda: nat, ha: seq<real>, hb: seq<real>, root: real -> real)
    returns (error: real)
    requires IsRoot(root) && m <= lda && n * lda <= |ha| && n * lda <= |hb|
    requires !AllZero(ha, m, n, lda)
    ensures Holds(ha, m, n, lda) && FNorm(root, Entries(ha, m, lda, n)) > 0.0
    ensures error == NormErrorOf(m, n, lda, ha, hb, root)
    ensures error >= 0.0
    ensures error == 0.0 <==> Agree(ha, hb, m, n, lda)
  {
    EntriesMatch(ha, hb, m, n, lda);
    ReferenceHasNorm(m, n, lda, ha, root);
    var ta := CopyTight(ha, m, n, lda);
    var tb := CopyTight(hb, m, n, lda);
    EntriesEqualIff(ha, hb, m, lda, n);
    ColumnsAgreeIff(ha, hb, m, lda, n);
    var norm := NormOfTight(ta, m, n, root);
    var diff := Axpy(ta, tb);
    assert diff == Minus(ta, tb);
    var distance := NormOfTight(diff, m, n, root);
    error := RelativeError(ta, tb, diff, norm, distance, root);
  }

  /** The final quotient. */
  method RelativeError(ta: seq<real>, tb: seq<real>, diff: seq<real>, norm: real, distance: real, root: real -> real)
    returns (error: real)
    requires IsRoot(root) && |ta| == |tb| && diff == Minus(ta, tb)
    requires norm == FNorm(root, ta) > 0.0 && distance == FNorm(root, diff)
    ensures error == distance / norm && error >= 0.0 && (error == 0.0 <==> ta == tb)
  {
    NormZeroIff(root, diff);
    QuotientSign(distance, norm);
    error := distance / norm;
    MinusZeroIff(ta, tb);
  }
}
