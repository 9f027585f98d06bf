/** The 'F' norm of the consistency check and the relative error computed from it, over exact reals. */
module NormCheck {
  import opened RealMath

  /** std::sqrt, of which only its defining property on non-negative arguments is used. */
  ghost predicate IsRoot(root: real -> real) { forall x: real :: RootAt(root, x) }

  ghost predicate RootAt(root: real -> real, x: real) {
    x >= 0.0 ==> root(x) >= 0.0 && root(x) * root(x) == x
  }

  // ---------------------------------------------------------------- square roots

  lemma SquareMono(a: real, b: real)
    requires a >= 0.0 && b >= 0.0
    ensures a <= b <==> a * a <= b * b
  {
    assert b * b - a * a == (b - a) * (b + a);
    if a < b { PositiveProduct(b - a, b + a); }
    if b < a {
      PositiveProduct(a - b, b + a);
      assert (a - b) * (b + a) == a * a - b * b;
    }
  }

  lemma SquareInjective(a: real, b: real)
    requires a >= 0.0 && b >= 0.0 && a * a == b * b
    ensures a == b
  {
    SquareMono(a, b);
    SquareMono(b, a);
  }

  lemma RootFacts(root: real -> real, x: real)
    requires IsRoot(root) && x >= 0.0
    ensures root(x) >= 0.0 && root(x) * root(x) == x && (root(x) == 0.0 <==> x == 0.0)
  {
    assert RootAt(root, x);
    var r := root(x);
    assert r == 0.0 ==> r * r == 0.0;
    if x == 0.0 { SquareInjective(r, 0.0); }
  }

  lemma RootMono(root: real -> real, x: real, y: real)
    requires IsRoot(root) && 0.0 <= x && 0.0 <= y
    ensures x <= y <==> root(x) <= root(y)
  {
    RootFacts(root, x);
    RootFacts(root, y);
    SquareMono(root(x), root(y));
  }

  lemma ProductOfSquares(q: real, r: real, a: real, b: real)
    requires q * q == a && r * r == b
    ensures (q * r) * (q * r) == a * b
  {
  }

  /** root(x / y) * root(y) == root(x) */
  lemma RootQuotient(root: real -> real, x: real, y: real)
    requires IsRoot(root) && x >= 0.0 && y > 0.0
    ensures x / y >= 0.0 && root(x / y) * root(y) == root(x)
  {
    var z := x / y;
    assert z * y == x;
    assert z < 0.0 ==> z * y < 0.0;
    RootFacts(root, z);
    RootFacts(root, y);
    RootFacts(root, x);
    ProductOfSquares(root(z), root(y), z, y);
    SquareInjective(root(z) * root(y), root(x));
  }

  lemma RootOfOne(root: real -> real)
    requires IsRoot(root)
    ensures root(1.0) == 1.0
  {
    RootFacts(root, 1.0);
    SquareInjective(root(1.0), 1.0);
  }

  // ---------------------------------------------------------------- what (scale, sumsq) stands for

  /** Largest absolute value, not below `start`. */
  function MaxAbs(xs: seq<real>, start: real): real {
    if xs == [] then start
    else
      var before, last := MaxAbs(xs[..|xs| - 1], start), Abs(xs[|xs| - 1]);
      if before < last then last else before
  }

  /** Sum of the square roots of the absolute values. */
  function RootSum(root: real -> real, xs: seq<real>): real {
    if xs == [] then 0.0 else RootSum(root, xs[..|xs| - 1]) + root(Abs(xs[|xs| - 1]))
  }

  /** The body of lapack_xlassq's loop on one absolute value. */
  function Absorb(root: real -> real, scale: real, sumsq: real, v: real): (real, real) {
    if v > 0.0 then
      if scale < v then (v, 1.0 + sumsq * root(scale / v)) else (scale, sumsq + root(v / scale))
    else (scale, sumsq)
  }

  lemma AbsorbKeeps(root: real -> real, scale: real, sumsq: real, v: real)
    requires IsRoot(root) && scale >= 0.0 && sumsq >= 1.0 && v >= 0.0
    ensures var (scale', sumsq') := Absorb(root, scale, sumsq, v);
            scale' == (if scale < v then v else scale) && sumsq' >= 1.0 &&
            sumsq' * root(scale') == sumsq * root(scale) + root(v)
  {
    RootFacts(root, 0.0);
    if v > 0.0 {
      if scale < v {
        RootQuotient(root, scale, v);
        AbsorbUp(sumsq, root(scale / v), root(v), root(scale));
        RootFacts(root, scale / v);
      } else {
        RootQuotient(root, v, scale);
        AbsorbDown(sumsq, root(v / scale), root(scale), root(v));
        RootFacts(root, v / scale);
      }
    }
  }

  lemma AbsorbUp(sumsq: real, ratio: real, rv: real, rs: real)
    requires ratio * rv == rs
    ensures (1.0 + sumsq * ratio) * rv == sumsq * rs + rv
  {
    assert (sumsq * ratio) * rv == sumsq * (ratio * rv);
  }

  lemma AbsorbDown(sumsq: real, ratio: real, rs: real, rv: real)
    requires ratio * rs == rv
    ensures (sumsq + ratio) * rs == sumsq * rs + rv
  {
  }

  /** What the pair stands for after the first elements of a column. */
  ghost predicate StandsFor(root: real -> real, xs: seq<real>, scale0: real, total0: real, scale: real, sumsq: real) {
    scale == MaxAbs(xs, scale0) && scale >= 0.0 && sumsq >= 1.0 && sumsq * root(scale) == total0 + RootSum(root, xs)
  }

  lemma AbsorbNext(root: real -> real, xs: seq<real>, x: real, scale0: real, total0: real, scale: real, sumsq: real)
    requires IsRoot(root) && StandsFor(root, xs, scale0, total0, scale, sumsq)
    ensures var (scale', sumsq') := Absorb(root, scale, sumsq, Abs(x));
            StandsFor(root, xs + [x], scale0, total0, scale', sumsq')
  {
    AbsorbKeeps(root, scale, sumsq, Abs(x));
    assert (xs + [x])[..|xs|] == xs;
  }

  /** lapack_xlassq with unit increment. */
  method Lassq(xs: seq<real>, scale0: real, sumsq0: real, root: real -> real) returns (scale: real, sumsq: real)
    requires IsRoot(root) && scale0 >= 0.0 && sumsq0 >= 1.0
    ensures StandsFor(root, xs, scale0, sumsq0 * root(scale0), scale, sumsq)
  {
    scale, sumsq := scale0, sumsq0;
    ghost var total0 := sumsq0 * root(scale0);
    for i := 0 to |xs|
      invariant StandsFor(root, xs[..i], scale0, total0, scale, sumsq)
    {
      AbsorbNext(root, xs[..i], xs[i], scale0, total0, scale, sumsq);
      assert xs[..i + 1] == xs[..i] + [xs[i]];
      var (scale', sumsq') := Absorb(root, scale, sumsq, Abs(xs[i]));
      scale, sumsq := scale', sumsq';
    }
    assert xs[..|xs|] == xs;
  }

  lemma CombineDown(q: real, ratio: real, rs: real, q': real, r': real)
    requires ratio * rs == r'
    ensures (q + ratio * q') * rs == q * rs + q' * r'
  {
    assert (ratio * q') * rs == q' * (ratio * rs);
  }

  /** The smaller scaled sum, brought to the larger scale and added. */
  lemma CombineInto(root: real -> real, s: real, q: real, s': real, q': real)
    requires IsRoot(root) && s > 0.0 && s' >= 0.0 && q >= 1.0 && q' >= 1.0
    ensures s' / s >= 0.0 && q + root(s' / s) * q' >= 1.0
    ensures (q + root(s' / s) * q') * root(s) == q * root(s) + q' * root(s')
  {
    RootQuotient(root, s', s);
    RootFacts(root, s' / s);
    ProductSign(root(s' / s), q');
    CombineDown(q, root(s' / s), root(s), q', root(s'));
  }

  lemma ProductSign(x: real, y: real)
    requires x >= 0.0 && y >= 0.0
    ensures x * y >= 0.0
  {
  }

  /** lapack_xcombssq: two scaled sums become one, of the larger scale. */
  method Combssq(s0: real, q0: real, s1: real, q1: real, root: real -> real) returns (s: real, q: real)
    requires IsRoot(root) && s0 >= 0.0 && s1 >= 0.0 && q0 >= 1.0 && q1 >= 1.0
    ensures s == (if s0 < s1 then s1 else s0) && q >= 1.0
    ensures q * root(s) == q0 * root(s0) + q1 * root(s1)
  {
    RootFacts(root, 0.0);
    s, q := s0, q0;
    if s0 >= s1 {
      if s0 != 0.0 {
        CombineInto(root, s0, q0, s1, q1);
        q := q0 + root(s1 / s0) * q1;
      } else {
        q := q0 + q1;
      }
    } else {
      CombineInto(root, s1, q1, s0, q0);
      q := q1 + root(s0 / s1) * q0;
      s := s1;
    }
  }

  // ---------------------------------------------------------------- the norm of a matrix

  /** The columns of an m x n matrix stored with leading dimension `lda`. */
  function Column(a: seq<real>, m: nat, lda: nat, j: nat): (c: seq<real>)
    requires j * lda + m <= |a|
  {
    a[j * lda..j * lda + m]
  }

  /** The entries of the first `n` columns, column by column, without the padding. */
  function Entries(a: seq<real>, m: nat, lda: nat, n: nat): seq<real>
    requires forall j: nat :: j < n ==> j * lda + m <= |a|
  {
    if n == 0 then [] else Entries(a, m, lda, n - 1) + Column(a, m, lda, n - 1)
  }

  /** Exactly what the code computes: the largest absolute value times the root of the sum of the roots of the
      absolute values relative to it. */
  function FNorm(root: real -> real, xs: seq<real>): real {
    var s := MaxAbs(xs, 0.0);
    if s == 0.0 || root(s) == 0.0 then 0.0 else s * root(RootSum(root, xs) / root(s))
  }

  lemma {:induction false} MaxAbsAppend(xs: seq<real>, ys: seq<real>)
    ensures MaxAbs(xs + ys, 0.0) == var a, b := MaxAbs(xs, 0.0), MaxAbs(ys, 0.0); if a < b then b else a
    ensures MaxAbs(xs, 0.0) >= 0.0
    decreases |ys|, |xs|
  {
    if ys == [] {
      assert xs + ys == xs;
      if xs != [] { MaxAbsAppend(xs[..|xs| - 1], []); }
    } else {
      assert (xs + ys)[..|xs + ys| - 1] == xs + ys[..|ys| - 1];
      MaxAbsAppend(xs, ys[..|ys| - 1]);
      MaxAbsAppend(ys[..|ys| - 1], []);
    }
  }

  lemma {:induction false} RootSumAppend(root: real -> real, xs: seq<real>, ys: seq<real>)
    ensures RootSum(root, xs + ys) == RootSum(root, xs) + RootSum(root, ys)
    decreases |ys|
  {
    if ys == [] {
      assert xs + ys == xs;
    } else {
      assert (xs + ys)[..|xs + ys| - 1] == xs + ys[..|ys| - 1];
      RootSumAppend(root, xs, ys[..|ys| - 1]);
    }
  }

  lemma DivideOut(p: real, x: real, d: real)
    requires p == x * d && d > 0.0
    ensures p / d == x
  {
    var q := p / d;
    assert q * d == p;
    assert (q - x) * d == 0.0;
    if q > x { PositiveProduct(q - x, d); }
    if q < x { PositiveProduct(x - q, d); }
  }

  lemma NormOfScaled(root: real -> real, xs: seq<real>, scale: real, sumsq: real)
    requires IsRoot(root) && scale == MaxAbs(xs, 0.0) >= 0.0
    requires sumsq * root(scale) == RootSum(root, xs)
    ensures scale * root(sumsq) == FNorm(root, xs)
  {
    RootFacts(root, scale);
    if scale != 0.0 {
      DivideOut(RootSum(root, xs), sumsq, root(scale));
    }
  }

  /** calculate_norm for type 'F' with a non-negative leading dimension. */
  method CalculateNormF(m: nat, n: nat, a: seq<real>, lda: nat, root: real -> real) returns (value: real)
    requires IsRoot(root) && forall j: nat :: j < n ==> j * lda + m <= |a|
    ensures value == FNorm(root, Entries(a, m, lda, n))
  {
    if m == 0 || n == 0 {
      EmptyEntries(a, m, lda, n);
      return 0.0;
    }
    var scale, sumsq := 0.0, 1.0;
    RootFacts(root, 0.0);
    for j := 0 to n
      invariant scale == MaxAbs(Entries(a, m, lda, j), 0.0) && scale >= 0.0 && sumsq >= 1.0
      invariant sumsq * root(scale) == RootSum(root, Entries(a, m, lda, j))
    {
      var col := Column(a, m, lda, j);
      var colScale, colSumsq := Lassq(col, 0.0, 1.0, root);
      MaxAbsAppend(Entries(a, m, lda, j), col);
      RootSumAppend(root, Entries(a, m, lda, j), col);
      scale, sumsq := Combssq(scale, sumsq, colScale, colSumsq, root);
    }
    NormOfScaled(root, Entries(a, m, lda, n), scale, sumsq);
    value := scale * root(sumsq);
  }

  lemma {:induction false} EmptyEntries(a: seq<real>, m: nat, lda: nat, n: nat)
    requires (m == 0 || n == 0) && forall j: nat :: j < n ==> j * lda + m <= |a|
    ensures Entries(a, m, lda, n) == []
  {
    if n > 0 { EmptyEntries(a, m, lda, n - 1); }
  }

  // ---------------------------------------------------------------- what the norm measures

  lemma {:induction false} MaxAbsIsMax(xs: seq<real>)
    ensures MaxAbs(xs, 0.0) >= 0.0 && forall i :: 0 <= i < |xs| ==> Abs(xs[i]) <= MaxAbs(xs, 0.0)
    ensures MaxAbs(xs, 0.0) > 0.0 ==> exists i :: 0 <= i < |xs| && Abs(xs[i]) == MaxAbs(xs, 0.0)
  {
    if xs != [] {
      var front := xs[..|xs| - 1];
      MaxAbsIsMax(front);
      assert forall i :: 0 <= i < |front| ==> front[i] == xs[i];
      assert MaxAbs(xs, 0.0) == Abs(xs[|xs| - 1]) || MaxAbs(xs, 0.0) == MaxAbs(front, 0.0);
    }
  }

  /** Between the root of the largest absolute value and as many times that root as there are entries. */
  lemma {:induction false} RootSumBounds(root: real -> real, xs: seq<real>, s: real)
    requires IsRoot(root) && s >= 0.0 && forall i :: 0 <= i < |xs| ==> Abs(xs[i]) <= s
    ensures 0.0 <= RootSum(root, xs) <= |xs| as real * root(s)
    ensures forall i :: 0 <= i < |xs| ==> root(Abs(xs[i])) <= RootSum(root, xs)
  {
    if xs != [] {
      var front, last := xs[..|xs| - 1], Abs(xs[|xs| - 1]);
      assert forall i :: 0 <= i < |front| ==> front[i] == xs[i];
      RootSumBounds(root, front, s);
      RootMono(root, last, s);
      RootFacts(root, last);
      CountUp(|front|, root(s));
    }
  }

  lemma CountUp(n: nat, r: real)
    ensures (n + 1) as real * r == n as real * r + r
  {
    assert (n + 1) as real == n as real + 1.0;
  }

  lemma ScaleOrder(s: real, a: real, b: real)
    requires s > 0.0
    ensures s * a <= s * b <==> a <= b
  {
    if a > b { PositiveProduct(s, a - b); assert s * (a - b) == s * a - s * b; }
    if a < b { PositiveProduct(s, b - a); assert s * (b - a) == s * b - s * a; }
  }

  lemma QuotientRange(p: real, d: real, n: real)
    requires d > 0.0 && d <= p <= n * d
    ensures 1.0 <= p / d <= n && p / d * d == p
  {
    var q := p / d;
    assert q * d == p;
    ScaleOrder(d, 1.0, q);
    ScaleOrder(d, q, n);
  }

  lemma RootSumAtLeast(root: real -> real, xs: seq<real>)
    requires IsRoot(root) && MaxAbs(xs, 0.0) > 0.0
    ensures var r := root(MaxAbs(xs, 0.0));
            0.0 < r <= RootSum(root, xs) <= |xs| as real * r
  {
    var s := MaxAbs(xs, 0.0);
    MaxAbsIsMax(xs);
    RootFacts(root, s);
    RootSumBounds(root, xs, s);
    var i :| 0 <= i < |xs| && Abs(xs[i]) == s;
    assert root(Abs(xs[i])) == root(s);
  }

  /** The factor the largest absolute value is multiplied with, and its range. */
  lemma NormParts(root: real -> real, xs: seq<real>) returns (s: real, r: real, q: real)
    requires IsRoot(root) && MaxAbs(xs, 0.0) > 0.0
    ensures s == MaxAbs(xs, 0.0) && r == root(s) && r > 0.0
    ensures FNorm(root, xs) == s * root(q) && 1.0 <= q <= |xs| as real && q * r == RootSum(root, xs)
  {
    s := MaxAbs(xs, 0.0);
    r := root(s);
    RootSumAtLeast(root, xs);
    QuotientRange(RootSum(root, xs), r, |xs| as real);
    q := RootSum(root, xs) / r;
  }

  lemma ScaledRange(root: real -> real, norm: real, s: real, q: real, n: real)
    requires IsRoot(root) && s > 0.0 && 1.0 <= q <= n && norm == s * root(q)
    ensures s <= norm <= s * root(n)
  {
    RootOfOne(root);
    RootMono(root, 1.0, q);
    RootMono(root, q, n);
    ScaleOrder(s, 1.0, root(q));
    ScaleOrder(s, root(q), root(n));
  }

  /** The largest absolute value bounds the norm from below, and root(entries) times it from above. */
  lemma NormBounds(root: real -> real, xs: seq<real>)
    requires IsRoot(root)
    ensures MaxAbs(xs, 0.0) <= FNorm(root, xs) <= MaxAbs(xs, 0.0) * root(|xs| as real)
  {
    if MaxAbs(xs, 0.0) > 0.0 {
      var s, _, q := NormParts(root, xs);
      ScaledRange(root, FNorm(root, xs), s, q, |xs| as real);
    } else {
      MaxAbsIsMax(xs);
      assert 0.0 * root(|xs| as real) == 0.0;
    }
  }

  /** The norm vanishes exactly on matrices of zeros. */
  lemma NormZeroIff(root: real -> real, xs: seq<real>)
    requires IsRoot(root)
    ensures FNorm(root, xs) >= 0.0
    ensures FNorm(root, xs) == 0.0 <==> forall i :: 0 <= i < |xs| ==> xs[i] == 0.0
  {
    NormBounds(root, xs);
    MaxAbsIsMax(xs);
  }

  // ---------------------------------------------------------------- scaling

  function Times(c: real, xs: seq<real>): (r: seq<real>)
    ensures |r| == |xs| && forall i :: 0 <= i < |xs| ==> r[i] == c * xs[i]
  {
    seq(|xs|, i requires 0 <= i < |xs| => c * xs[i])
  }

  lemma AbsTimes(c: real, x: real)
    requires c > 0.0
    ensures Abs(c * x) == c * Abs(x)
  {
    if x > 0.0 { PositiveProduct(c, x); } else if x < 0.0 { PositiveProduct(c, -x); assert c * x == -(c * -x); }
  }

  /** Entries moved by a monotone function that keeps zero move the largest magnitude by it. */
  lemma {:induction false} MaxAbsMoved(f: real -> real, xs: seq<real>, ys: seq<real>)
    requires |ys| == |xs| && forall i :: 0 <= i < |xs| ==> Abs(ys[i]) == f(Abs(xs[i]))
    requires f(0.0) == 0.0 && forall x, y :: x < y <==> f(x) < f(y)
    ensures MaxAbs(ys, 0.0) == f(MaxAbs(xs, 0.0))
  {
    if xs != [] { MaxAbsMoved(f, xs[..|xs| - 1], ys[..|ys| - 1]); }
  }

  /** Roots that are all scaled by `c` have a sum scaled by `c`. */
  lemma {:induction false} RootSumMoved(root: real -> real, c: real, xs: seq<real>, ys: seq<real>)
    requires |ys| == |xs| && forall i :: 0 <= i < |xs| ==> root(Abs(ys[i])) == root(Abs(xs[i])) * c
    ensures RootSum(root, ys) == RootSum(root, xs) * c
  {
    if xs == [] {
      assert 0.0 * c == 0.0;
    } else {
      RootSumMoved(root, c, xs[..|xs| - 1], ys[..|ys| - 1]);
      Distribute(RootSum(root, xs[..|xs| - 1]), root(Abs(xs[|xs| - 1])), c);
    }
  }

  function ScaleBy(c: real): real -> real { (x: real) => c * x }

  lemma RootOfProduct(root: real -> real, x: real, y: real)
    requires IsRoot(root) && x >= 0.0 && y >= 0.0
    ensures x * y >= 0.0 && root(x * y) == root(x) * root(y)
  {
    RootFacts(root, x);
    RootFacts(root, y);
    ProductSign(x, y);
    ProductSign(root(x), root(y));
    RootFacts(root, x * y);
    ProductOfSquares(root(x), root(y), x, y);
    SquareInjective(root(x * y), root(x) * root(y));
  }

  lemma ScaledMagnitude(c: real, xs: seq<real>)
    requires c > 0.0
    ensures MaxAbs(Times(c, xs), 0.0) == ScaleBy(c)(MaxAbs(xs, 0.0))
  {
    var ys, f := Times(c, xs), ScaleBy(c);
    forall i | 0 <= i < |xs| ensures Abs(ys[i]) == f(Abs(xs[i])) {
      AbsTimes(c, xs[i]);
    }
    forall x, y ensures x < y <==> f(x) < f(y) {
      ScaleOrder(c, y, x);
    }
    MaxAbsMoved(f, xs, ys);
  }

  lemma RootTimes(root: real -> real, c: real, v: real, w: real)
    requires IsRoot(root) && c >= 0.0 && v >= 0.0 && w == c * v
    ensures root(w) == root(v) * root(c)
  {
    RootOfProduct(root, c, v);
  }

  lemma ScaledRoots(root: real -> real, c: real, xs: seq<real>)
    requires IsRoot(root) && c > 0.0
    ensures RootSum(root, Times(c, xs)) == RootSum(root, xs) * root(c)
  {
    forall i | 0 <= i < |xs| ensures root(Abs(Times(c, xs)[i])) == root(Abs(xs[i])) * root(c) {
      AbsTimes(c, xs[i]);
      RootTimes(root, c, Abs(xs[i]), Abs(Times(c, xs)[i]));
    }
    RootSumMoved(root, root(c), xs, Times(c, xs));
  }

  /** The scaled sum of scaled entries: the scale is scaled, the sum stays. */
  lemma ScaledSum(root: real -> real, c: real, s: real, s': real, q: real, total: real)
    requires IsRoot(root) && c > 0.0 && s > 0.0 && s' == c * s && q * root(s) == total
    ensures s' > 0.0 && q * root(s') == total * root(c)
  {
    PositiveProduct(c, s);
    RootTimes(root, c, s, s');
    assert q * (root(s) * root(c)) == (q * root(s)) * root(c);
  }

  lemma ScaledNorm(c: real, s: real, s': real, r: real, norm: real)
    requires s' == c * s && norm == s * r
    ensures s' * r == ScaleBy(c)(norm)
  {
    assert (c * s) * r == c * (s * r);
  }

  /** The norm of scaled entries, from the parts of the norm of the entries. */
  lemma NormFromParts(root: real -> real, c: real, ys: seq<real>, s: real, q: real, total: real, norm: real)
    requires IsRoot(root) && c > 0.0 && s > 0.0 && q * root(s) == total && norm == s * root(q)
    requires MaxAbs(ys, 0.0) == ScaleBy(c)(s) && RootSum(root, ys) == total * root(c)
    ensures FNorm(root, ys) == ScaleBy(c)(norm)
  {
    var s' := MaxAbs(ys, 0.0);
    ScaledSum(root, c, s, s', q, total);
    ScaledNorm(c, s, s', root(q), norm);
    NormOfScaled(root, ys, s', q);
  }

  lemma NothingScaled(root: real -> real, c: real, xs: seq<real>, ys: seq<real>)
    requires MaxAbs(xs, 0.0) == 0.0 && MaxAbs(ys, 0.0) == 0.0
    ensures FNorm(root, ys) == c * FNorm(root, xs)
  {
    assert c * 0.0 == 0.0;
  }

  /** Largest magnitude, sum of roots and their quotient. */
  lemma NormQuotient(root: real -> real, xs: seq<real>) returns (s: real, q: real, total: real, norm: real)
    requires IsRoot(root) && MaxAbs(xs, 0.0) > 0.0
    ensures s == MaxAbs(xs, 0.0) && total == RootSum(root, xs) && norm == FNorm(root, xs)
    ensures norm == s * root(q) && q * root(s) == total
  {
    var r;
    s, r, q := NormParts(root, xs);
    total, norm := RootSum(root, xs), FNorm(root, xs);
  }

  lemma NonZeroScales(root: real -> real, c: real, xs: seq<real>) returns (norm: real)
    requires IsRoot(root) && c > 0.0 && MaxAbs(xs, 0.0) > 0.0
    ensures norm == FNorm(root, xs) && FNorm(root, Times(c, xs)) == ScaleBy(c)(norm)
  {
    var s, q, total;
    s, q, total, norm := NormQuotient(root, xs);
    ScaledMagnitude(c, xs);
    ScaledRoots(root, c, xs);
    NormFromParts(root, c, Times(c, xs), s, q, total, norm);
  }

  /** The norm of a matrix scaled by `c` is `c` times the norm. */
  lemma NormScales(root: real -> real, c: real, xs: seq<real>)
    requires IsRoot(root) && c > 0.0
    ensures FNorm(root, Times(c, xs)) == c * FNorm(root, xs)
  {
    MaxAbsIsMax(xs);
    if MaxAbs(xs, 0.0) == 0.0 {
      ScaledMagnitude(c, xs);
      assert ScaleBy(c)(0.0) == 0.0;
      NothingScaled(root, c, xs, Times(c, xs));
    } else {
      var _ := NonZeroScales(root, c, xs);
    }
  }

  /** The norm does not see signs. */
  lemma {:induction false} NormOfMagnitudes(root: real -> real, xs: seq<real>, ys: seq<real>)
    requires |xs| == |ys| && forall i :: 0 <= i < |xs| ==> Abs(xs[i]) == Abs(ys[i])
    ensures FNorm(root, xs) == FNorm(root, ys)
  {
    SameParts(root, xs, ys);
  }

  lemma {:induction false} SameParts(root: real -> real, xs: seq<real>, ys: seq<real>)
    requires |xs| == |ys| && forall i :: 0 <= i < |xs| ==> Abs(xs[i]) == Abs(ys[i])
    ensures MaxAbs(xs, 0.0) == MaxAbs(ys, 0.0) && RootSum(root, xs) == RootSum(root, ys)
  {
    if xs != [] { SameParts(root, xs[..|xs| - 1], ys[..|ys| - 1]); }
  }

  // ---------------------------------------------------------------- the Frobenius norm

  function SquareSum(xs: seq<real>): real {
    if xs == [] then 0.0 else SquareSum(xs[..|xs| - 1]) + xs[|xs| - 1] * xs[|xs| - 1]
  }

  /** Every entry is zero or of the largest magnitude. */
  predicate OneMagnitude(xs: seq<real>) {
    forall i :: 0 <= i < |xs| ==> xs[i] == 0.0 || Abs(xs[i]) == MaxAbs(xs, 0.0)
  }

  /** r is the root of the largest magnitude, t the root of an entry's: its excess t * (r^3 - t^3) is never negative. */
  lemma ExcessSign(r: real, t: real)
    requires 0.0 <= t <= r
    ensures t * (r * r * r) >= (t * t) * (t * t)
    ensures t * (r * r * r) == (t * t) * (t * t) <==> t == 0.0 || t == r
  {
    if t == 0.0 {
    } else if t < r {
      Cubes(t, r);
      ScaleOrder(t, r * r * r, t * t * t);
      assert t * (t * t * t) == (t * t) * (t * t);
    } else {
      assert t * (t * t * t) == (t * t) * (t * t);
    }
  }

  lemma Cubes(t: real, r: real)
    requires 0.0 < t < r
    ensures t * t * t < r * r * r
  {
    PositiveProduct(t, t);
    PositiveProduct(r - t, r);
    PositiveProduct(r - t, t);
    assert t * t < t * r < r * r;
    PositiveProduct(r * r - t * t, t);
    PositiveProduct(r * r, r - t);
    assert t * t * t < r * r * t < r * r * r;
  }

  lemma ElementExcess(root: real -> real, x: real, s: real)
    requires IsRoot(root) && Abs(x) <= s
    ensures var cube := root(s) * root(s) * root(s);
            root(Abs(x)) * cube >= x * x && (root(Abs(x)) * cube == x * x <==> x == 0.0 || Abs(x) == s)
  {
    var t, r := root(Abs(x)), root(s);
    RootFacts(root, Abs(x));
    RootFacts(root, s);
    RootMono(root, Abs(x), s);
    ExcessSign(r, t);
    assert t * t == Abs(x);
    assert Abs(x) * Abs(x) == x * x;
    assert (t * t) * (t * t) == Abs(x) * Abs(x);
    if t == r { assert Abs(x) == s; }
    if Abs(x) == s { assert t == r; }
  }

  function SumOver(f: real -> real, xs: seq<real>): real {
    if xs == [] then 0.0 else SumOver(f, xs[..|xs| - 1]) + f(xs[|xs| - 1])
  }

  /** Sums of termwise ordered values are ordered, and equal only if all terms are. */
  lemma {:induction false} SumCompare(f: real -> real, g: real -> real, xs: seq<real>)
    requires forall i :: 0 <= i < |xs| ==> f(xs[i]) >= g(xs[i])
    ensures SumOver(f, xs) >= SumOver(g, xs)
    ensures SumOver(f, xs) == SumOver(g, xs) <==> forall i :: 0 <= i < |xs| ==> f(xs[i]) == g(xs[i])
  {
    if xs != [] {
      var front, last := xs[..|xs| - 1], xs[|xs| - 1];
      assert forall i :: 0 <= i < |front| ==> front[i] == xs[i];
      SumCompare(f, g, front);
      assert (forall i :: 0 <= i < |xs| ==> f(xs[i]) == g(xs[i])) <==>
             ((forall i :: 0 <= i < |front| ==> f(front[i]) == g(front[i])) && f(last) == g(last));
    }
  }

  lemma {:induction false} SquareSumIsSum(xs: seq<real>)
    ensures SquareSum(xs) == SumOver(Square(), xs)
  {
    if xs != [] { SquareSumIsSum(xs[..|xs| - 1]); }
  }

  lemma Distribute(a: real, b: real, c: real)
    ensures (a + b) * c == a * c + b * c
  {
  }

  function ScaledRoot(root: real -> real, c: real): real -> real { (x: real) => root(Abs(x)) * c }

  function Square(): real -> real { (x: real) => x * x }

  lemma {:induction false} RootSumScaled(root: real -> real, xs: seq<real>, c: real)
    ensures RootSum(root, xs) * c == SumOver(ScaledRoot(root, c), xs)
  {
    if xs == [] {
      assert 0.0 * c == 0.0;
    } else {
      RootSumScaled(root, xs[..|xs| - 1], c);
      Distribute(RootSum(root, xs[..|xs| - 1]), root(Abs(xs[|xs| - 1])), c);
    }
  }

  function Cube(r: real): real { r * r * r }

  /** The squared norm against the sum of squares, entry by entry. */
  lemma ExcessSum(root: real -> real, xs: seq<real>, s: real, cube: real)
    requires IsRoot(root) && (forall i :: 0 <= i < |xs| ==> Abs(xs[i]) <= s) && cube == Cube(root(s))
    ensures RootSum(root, xs) * cube >= SquareSum(xs)
    ensures RootSum(root, xs) * cube == SquareSum(xs) <==> forall i :: 0 <= i < |xs| ==> xs[i] == 0.0 || Abs(xs[i]) == s
  {
    var f, g := ScaledRoot(root, cube), Square();
    forall i | 0 <= i < |xs|
      ensures f(xs[i]) >= g(xs[i]) && (f(xs[i]) == g(xs[i]) <==> xs[i] == 0.0 || Abs(xs[i]) == s)
    {
      ElementExcess(root, xs[i], s);
      assert f(xs[i]) == root(Abs(xs[i])) * cube && g(xs[i]) == xs[i] * xs[i];
    }
    SumCompare(f, g, xs);
    RootSumScaled(root, xs, cube);
    SquareSumIsSum(xs);
  }

  /** The norm and the largest magnitude through their roots. */
  lemma NormRoots(root: real -> real, xs: seq<real>) returns (s: real, r: real, q: real, rq: real)
    requires IsRoot(root) && MaxAbs(xs, 0.0) > 0.0
    ensures r == root(MaxAbs(xs, 0.0)) && s == r * r && rq * rq == q
    ensures FNorm(root, xs) == s * rq && q * r == RootSum(root, xs)
  {
    s, r, q := NormParts(root, xs);
    RootFacts(root, s);
    RootFacts(root, q);
    rq := root(q);
  }

  lemma SquaredNorm(root: real -> real, xs: seq<real>) returns (norm: real, cube: real)
    requires IsRoot(root) && MaxAbs(xs, 0.0) > 0.0
    ensures norm == FNorm(root, xs) && cube == Cube(root(MaxAbs(xs, 0.0))) && norm * norm == RootSum(root, xs) * cube
  {
    var s, r, q, rq := NormRoots(root, xs);
    norm, cube := FNorm(root, xs), Cube(r);
    SquaredNormAlgebra(norm, s, r, rq, q, RootSum(root, xs), cube);
  }

  lemma SquaredNormAlgebra(norm: real, s: real, r: real, rq: real, q: real, total: real, cube: real)
    requires norm == s * rq && rq * rq == q && s == r * r && q * r == total && cube == Cube(r)
    ensures norm * norm == total * cube
  {
    assert norm * norm == (s * s) * (rq * rq);
    assert (s * s) * q == (q * r) * (r * r * r);
  }

  /** The 'F' norm is documented as the Frobenius norm. It is never smaller, and it equals the Frobenius norm exactly
      when all non-zero entries have one and the same magnitude: the scaled sum adds roots of ratios, not squares. */
  lemma FrobeniusIff(root: real -> real, xs: seq<real>)
    requires IsRoot(root)
    ensures FNorm(root, xs) >= root(SquareSum(xs))
    ensures FNorm(root, xs) == root(SquareSum(xs)) <==> OneMagnitude(xs)
  {
    if MaxAbs(xs, 0.0) > 0.0 {
      var norm := SquaredExcess(root, xs);
      CompareSquares(root, norm, SquareSum(xs), OneMagnitude(xs));
    } else {
      MaxAbsIsMax(xs);
      FrobeniusOfZeros(root, xs);
    }
  }

  lemma FrobeniusOfZeros(root: real -> real, xs: seq<real>)
    requires IsRoot(root) && MaxAbs(xs, 0.0) == 0.0
    ensures FNorm(root, xs) == root(SquareSum(xs)) == 0.0 && OneMagnitude(xs)
  {
    MaxAbsIsMax(xs);
    SquareSumSign(xs);
    RootFacts(root, 0.0);
  }

  lemma SquaredExcess(root: real -> real, xs: seq<real>) returns (norm: real)
    requires IsRoot(root) && MaxAbs(xs, 0.0) > 0.0
    ensures norm == FNorm(root, xs) && norm >= 0.0 && SquareSum(xs) >= 0.0
    ensures norm * norm >= SquareSum(xs) && (norm * norm == SquareSum(xs) <==> OneMagnitude(xs))
  {
    MaxAbsIsMax(xs);
    SquareSumSign(xs);
    NormZeroIff(root, xs);
    var cube;
    norm, cube := SquaredNorm(root, xs);
    ExcessSum(root, xs, MaxAbs(xs, 0.0), cube);
  }

  lemma CompareSquares(root: real -> real, a: real, y: real, same: bool)
    requires IsRoot(root) && a >= 0.0 && y >= 0.0 && a * a >= y && (a * a == y <==> same)
    ensures a >= root(y) && (a == root(y) <==> same)
  {
    RootFacts(root, y);
    SquareMono(root(y), a);
    SquareMono(a, root(y));
  }

  lemma {:induction false} SquareSumSign(xs: seq<real>)
    ensures SquareSum(xs) >= 0.0
    ensures MaxAbs(xs, 0.0) == 0.0 ==> SquareSum(xs) == 0.0
  {
    if xs != [] {
      SquareSumSign(xs[..|xs| - 1]);
      MaxAbsIsMax(xs);
      MaxAbsIsMax(xs[..|xs| - 1]);
      var x := xs[|xs| - 1];
      if x > 0.0 { PositiveProduct(x, x); } else if x < 0.0 { PositiveProduct(-x, -x); }
    }
  }
}
