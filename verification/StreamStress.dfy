/** run_stress and check_solution: whole runs of the BabelStream subtests against the scalar prediction. */
module StreamStress {
  import opened StreamGeometry
  import opened StreamKernels
  import opened StreamSums
  import opened StreamDot
  import opened RealMath
  import opened Wrappers

  /** Which subtests are enabled, in the order they run. */
  datatype Tests = Tests(read: bool, write: bool, copy: bool, mul: bool, add: bool, triad: bool, dot: bool)

  const SUBTESTS: nat := 7

  function Enabled(ts: Tests, i: nat): bool
    requires i < SUBTESTS
  {
    [ts.read, ts.write, ts.copy, ts.mul, ts.add, ts.triad, ts.dot][i]
  }

  const START := Cell(START_A, START_B, START_C)

  // ---------------------------------------------------------------- one element through a run

  function If(on: bool, k: Kernel, x: Cell): Cell { if on then Apply(k, x) else x }

  /** One iteration of the main loop on one element. */
  function Round(ts: Tests, x: Cell): Cell {
    If(ts.triad, Triad, If(ts.add, Add, If(ts.mul, Mul, If(ts.copy, Copy, If(ts.write, Write, If(ts.read, Read, x))))))
  }

  function Rounds(ts: Tests, x: Cell, k: nat): Cell {
    if k == 0 then x else Round(ts, Rounds(ts, x, k - 1))
  }

  /** One iteration of check_solution's recurrence. */
  function GoldRound(triadOnly: bool, g: Cell): Cell {
    var b := if triadOnly then g.b else SCALAR * g.a;
    var c := if triadOnly then g.c else g.a + b;
    Cell(b + SCALAR * c, b, c)
  }

  function Gold(triadOnly: bool, k: nat): Cell {
    if k == 0 then START else GoldRound(triadOnly, Gold(triadOnly, k - 1))
  }

  /** The full recurrence settles on fixed ratios and decays. */
  lemma {:induction false} GoldRatios(k: nat)
    requires k > 0
    ensures var g := Gold(false, k);
            0.0 < g.b <= 0.04 && g.c == 3.5 * g.b && g.a == 2.4 * g.b
  {
    if k > 1 { GoldRatios(k - 1); } else { assert Gold(false, 0) == START; }
  }

  function Power(x: real, n: nat): real { if n == 0 then 1.0 else x * Power(x, n - 1) }

  /** The prediction in closed form: from 0.096, 0.04 and 0.14 after one iteration down by 4 % in every further one.
      With the triad_only flag it is 0.2, 0.2 and 0 for ever. */
  lemma {:induction false} GoldClosedForm(k: nat)
    ensures Gold(false, k + 1) == Cell(0.096 * Power(0.96, k), 0.04 * Power(0.96, k), 0.14 * Power(0.96, k))
    ensures Gold(true, k + 1) == Cell(0.2, 0.2, 0.0)
    ensures Gold(false, 0) == Gold(true, 0) == Cell(0.1, 0.2, 0.0)
  {
    if k > 0 { GoldClosedForm(k - 1); } else { assert Gold(false, 0) == Gold(true, 0) == Cell(0.1, 0.2, 0.0); }
  }

  /** What a run that leaves some subtest out keeps instead. */
  lemma {:induction false} PartialRun(ts: Tests, k: nat)
    ensures var x := Rounds(ts, START, k);
            (!ts.triad ==> x.a == 0.1) && (!ts.mul ==> x.b == 0.2) &&
            (k > 0 && ts.mul && !ts.add ==> x.b == 0.4 * x.c) &&
            (k > 0 && ts.mul && ts.add && ts.write && !ts.copy ==> x.b == 0.0)
  {
    if k > 0 { PartialRun(ts, k - 1); }
  }

  /** Without the copy subtest (and without write) the a : c ratio never reaches 1 again. */
  lemma {:induction false} NoCopyRun(ts: Tests, k: nat)
    requires k > 0 && ts.mul && ts.add && ts.triad && !ts.copy && !ts.write
    ensures var x := Rounds(ts, START, k);
            0.0 < x.a && 1.05 * x.a <= x.c <= 2.5 * x.a && (k == 1 ==> x.b == 0.0) && (k > 1 ==> x.c != 3.5 * x.b)
  {
    if k == 1 { assert Rounds(ts, START, 0) == START; } else { NoCopyRun(ts, k - 1); }
  }

  /** The scalar prediction is right, after any positive number of iterations, exactly when copy, mul, add and
      triad are all enabled; read and write do not matter. */
  lemma GoldPredictsIff(ts: Tests, k: nat)
    requires k > 0
    ensures Rounds(ts, START, k) == Gold(false, k) <==> ts.copy && ts.mul && ts.add && ts.triad
  {
    GoldRatios(k);
    if ts.copy && ts.mul && ts.add && ts.triad {
      FullRun(ts, k);
    } else {
      PartialRun(ts, k);
      if ts.mul && ts.add && ts.triad && !ts.write { NoCopyRun(ts, k); }
    }
  }

  lemma {:induction false} FullRun(ts: Tests, k: nat)
    requires ts.copy && ts.mul && ts.add && ts.triad
    ensures Rounds(ts, START, k) == Gold(false, k)
  {
    if k > 0 { FullRun(ts, k - 1); }
  }

  const ONLY_TRIAD := Tests(false, false, false, false, false, true, false)

  /** run_triad's loop is predicted by the triad_only branch. */
  lemma {:induction false} TriadOnlyRun(k: nat)
    ensures Rounds(ONLY_TRIAD, START, k) == Gold(true, k)
  {
    if k > 0 { TriadOnlyRun(k - 1); }
  }

  /** The triad_only flag is never reset; left on, it makes the prediction wrong for every full run. */
  lemma {:induction false} StaleTriadFlag(k: nat)
    requires k > 0
    ensures Gold(true, k) != Gold(false, k) && Gold(true, k).b == 0.2
  {
    GoldRatios(k);
    if k > 1 { StaleTriadFlag(k - 1); } else { assert Gold(true, 0) == START; }
  }

  // ---------------------------------------------------------------- timings

  /** The clock: a subtest takes some positive time. */
  method Elapsed() returns (dt: real)
    ensures dt > 0.0
  {
    dt := *;
    if dt <= 0.0 { dt := 1.0; }
  }

  ghost predicate AllPositive(timings: seq<seq<real>>) {
    forall i, j :: 0 <= i < |timings| && 0 <= j < |timings[i]| ==> timings[i][j] > 0.0
  }

  /** After `k` iterations every enabled subtest has `k` positive timings, the others none. */
  ghost predicate Collected(ts: Tests, timings: seq<seq<real>>, k: nat) {
    |timings| == SUBTESTS && AllPositive(timings) &&
    forall i :: 0 <= i < SUBTESTS ==> |timings[i]| == if Enabled(ts, i) then k else 0
  }

  /** Which list is whose. */
  lemma CollectedCounts(ts: Tests, timings: seq<seq<real>>, k: nat)
    requires Collected(ts, timings, k)
    ensures |timings| == 7 && |timings[0]| == (if ts.read then k else 0) &&
            |timings[1]| == (if ts.write then k else 0) && |timings[2]| == (if ts.copy then k else 0) &&
            |timings[3]| == (if ts.mul then k else 0) && |timings[4]| == (if ts.add then k else 0) &&
            |timings[5]| == (if ts.triad then k else 0) && |timings[6]| == (if ts.dot then k else 0)
  {
  }

  ghost function Lengths(timings: seq<seq<real>>): seq<nat> {
    seq(|timings|, i requires 0 <= i < |timings| => |timings[i]|)
  }

  ghost function Bump(lengths: seq<nat>, i: nat, on: bool): seq<nat>
    requires i < |lengths|
  {
    if on then lengths[i := lengths[i] + 1] else lengths
  }

  method Push(timings: seq<seq<real>>, i: nat) returns (r: seq<seq<real>>)
    requires i < |timings| && AllPositive(timings)
    ensures AllPositive(r) && Lengths(r) == Bump(Lengths(timings), i, true)
  {
    var dt := Elapsed();
    r := timings[i := timings[i] + [dt]];
  }

  // ---------------------------------------------------------------- the main loop

  /** A kernel on the first `n` elements, if it is enabled. */
  ghost function IfFirst(on: bool, k: Kernel, xs: seq<Cell>, n: nat): seq<Cell> {
    if on then ApplyFirst(k, xs, n) else xs
  }

  ghost function Early(ts: Tests, xs: seq<Cell>, n: nat): seq<Cell> {
    IfFirst(ts.copy, Copy, IfFirst(ts.write, Write, IfFirst(ts.read, Read, xs, n), n), n)
  }

  ghost function Late(ts: Tests, xs: seq<Cell>, n: nat): seq<Cell> {
    IfFirst(ts.triad, Triad, IfFirst(ts.add, Add, IfFirst(ts.mul, Mul, xs, n), n), n)
  }

  ghost function RoundFirst(ts: Tests, xs: seq<Cell>, n: nat): seq<Cell> { Late(ts, Early(ts, xs, n), n) }

  lemma IfFirstAt(on: bool, k: Kernel, xs: seq<Cell>, n: nat)
    ensures |IfFirst(on, k, xs, n)| == |xs|
    ensures forall x :: 0 <= x < |xs| ==> IfFirst(on, k, xs, n)[x] == if x < n then If(on, k, xs[x]) else xs[x]
  {
  }

  lemma RoundFirstAt(ts: Tests, xs: seq<Cell>, n: nat)
    ensures |RoundFirst(ts, xs, n)| == |xs|
    ensures forall x :: 0 <= x < |xs| ==> RoundFirst(ts, xs, n)[x] == if x < n then Round(ts, xs[x]) else xs[x]
  {
    var x1 := IfFirst(ts.read, Read, xs, n);
    var x2 := IfFirst(ts.write, Write, x1, n);
    var x3 := IfFirst(ts.copy, Copy, x2, n);
    var x4 := IfFirst(ts.mul, Mul, x3, n);
    var x5 := IfFirst(ts.add, Add, x4, n);
    IfFirstAt(ts.read, Read, xs, n);
    IfFirstAt(ts.write, Write, x1, n);
    IfFirstAt(ts.copy, Copy, x2, n);
    IfFirstAt(ts.mul, Mul, x3, n);
    IfFirstAt(ts.add, Add, x4, n);
    IfFirstAt(ts.triad, Triad, x5, n);
  }

  ghost function EarlyBumps(ts: Tests, lengths: seq<nat>): (r: seq<nat>)
    requires |lengths| == SUBTESTS
    ensures |r| == SUBTESTS
  {
    Bump(Bump(Bump(lengths, 0, ts.read), 1, ts.write), 2, ts.copy)
  }

  ghost function LateBumps(ts: Tests, lengths: seq<nat>): (r: seq<nat>)
    requires |lengths| == SUBTESTS
    ensures |r| == SUBTESTS
  {
    Bump(Bump(Bump(lengths, 3, ts.mul), 4, ts.add), 5, ts.triad)
  }

  ghost function BumpAll(ts: Tests, lengths: seq<nat>): seq<nat>
    requires |lengths| == SUBTESTS
  {
    Bump(LateBumps(ts, EarlyBumps(ts, lengths)), 6, ts.dot)
  }

  lemma BumpAllAt(ts: Tests, lengths: seq<nat>)
    requires |lengths| == SUBTESTS
    ensures |BumpAll(ts, lengths)| == SUBTESTS
    ensures forall i :: 0 <= i < SUBTESTS ==> BumpAll(ts, lengths)[i] == lengths[i] + if Enabled(ts, i) then 1 else 0
  {
  }

  /** One kernel subtest: launch and time it, if it is enabled. */
  method Subtest(s: HipStream, on: bool, k: Kernel, i: nat, timings: seq<seq<real>>) returns (r: seq<seq<real>>)
    requires s.Valid() && s.Extent() <= s.arraySize && i < |timings| && AllPositive(timings)
    modifies s.a, s.b, s.c
    ensures s.Cells() == IfFirst(on, k, old(s.Cells()), s.Extent())
    ensures AllPositive(r) && Lengths(r) == Bump(Lengths(timings), i, on)
  {
    r := timings;
    if on {
      s.Launch(k);
      r := Push(timings, i);
    }
  }

  /** One iteration of the main loop; `sum` is dot's result when dot is enabled. */
  method Iterate(s: HipStream, ts: Tests, timings: seq<seq<real>>, sum0: real) returns (r: seq<seq<real>>, sum: real)
    requires s.Valid() && s.Extent() <= s.arraySize && (ts.dot ==> DotPossible(s))
    requires |timings| == SUBTESTS && AllPositive(timings)
    modifies s.a, s.b, s.c, s.sums
    ensures s.Cells() == RoundFirst(ts, old(s.Cells()), s.Extent())
    ensures AllPositive(r) && Lengths(r) == BumpAll(ts, Lengths(timings))
    ensures ts.dot &&
            (s.tbSize == 1024 ||
              (s.tbSize == 512 && (s.elementsPerLane == 2 || s.elementsPerLane == 4) &&
               (s.chunksPerBlock == 1 || s.chunksPerBlock == 2 || s.chunksPerBlock == 4))) ==>
              sum == DotFirst(s.Cells(), s.Extent())
    ensures !ts.dot ==> sum == sum0
  {
    r := EarlyKernels(s, ts, timings);
    r := LateKernels(s, ts, r);
    sum := sum0;
    if ts.dot {
      var memory := UnknownMemory(s);
      sum := Dot(s, memory);
      r := Push(r, 6);
    }
  }

  method EarlyKernels(s: HipStream, ts: Tests, timings: seq<seq<real>>) returns (r: seq<seq<real>>)
    requires s.Valid() && s.Extent() <= s.arraySize && |timings| == SUBTESTS && AllPositive(timings)
    modifies s.a, s.b, s.c
    ensures s.Cells() == Early(ts, old(s.Cells()), s.Extent())
    ensures AllPositive(r) && |r| == SUBTESTS && Lengths(r) == EarlyBumps(ts, Lengths(timings))
  {
    r := Subtest(s, ts.read, Read, 0, timings);
    r := Subtest(s, ts.write, Write, 1, r);
    r := Subtest(s, ts.copy, Copy, 2, r);
  }

  method LateKernels(s: HipStream, ts: Tests, timings: seq<seq<real>>) returns (r: seq<seq<real>>)
    requires s.Valid() && s.Extent() <= s.arraySize && |timings| == SUBTESTS && AllPositive(timings)
    modifies s.a, s.b, s.c
    ensures s.Cells() == Late(ts, old(s.Cells()), s.Extent())
    ensures AllPositive(r) && |r| == SUBTESTS && Lengths(r) == LateBumps(ts, Lengths(timings))
  {
    r := Subtest(s, ts.mul, Mul, 3, timings);
    r := Subtest(s, ts.add, Add, 4, r);
    r := Subtest(s, ts.triad, Triad, 5, r);
  }

  /** What happens to an element in `k` iterations: nothing if no launch reaches it. */
  function RoundsWithin(ts: Tests, x: Cell, k: nat, reached: bool): Cell { if reached then Rounds(ts, x, k) else x }

  /** The main loop, for `rounds` iterations: num_times in iteration mode, and in duration mode however many
      begin before the clock passes the limit. */
  method RunStress(s: HipStream, ts: Tests, rounds: nat) returns (timings: seq<seq<real>>, sum: real)
    requires s.Valid() && s.Extent() <= s.arraySize && (ts.dot ==> DotPossible(s))
    modifies s.a, s.b, s.c, s.sums
    ensures forall x :: 0 <= x < s.arraySize ==>
              s.Cells()[x] == RoundsWithin(ts, old(s.Cells())[x], rounds, x < s.Extent())
    ensures Collected(ts, timings, rounds)
    ensures ts.dot && rounds > 0 &&
            (s.tbSize == 1024 ||
              (s.tbSize == 512 && (s.elementsPerLane == 2 || s.elementsPerLane == 4) &&
               (s.chunksPerBlock == 1 || s.chunksPerBlock == 2 || s.chunksPerBlock == 4))) ==>
              sum == DotFirst(s.Cells(), s.Extent())
  {
    ghost var exact := ts.dot && (s.tbSize == 1024 ||
                                  (s.tbSize == 512 && (s.elementsPerLane == 2 || s.elementsPerLane == 4) &&
                                   (s.chunksPerBlock == 1 || s.chunksPerBlock == 2 || s.chunksPerBlock == 4)));
    timings := seq(SUBTESTS, _ => []);
    sum := 0.0;
    for k := 0 to rounds
      invariant forall x :: 0 <= x < s.arraySize ==>
                  s.Cells()[x] == RoundsWithin(ts, old(s.Cells())[x], k, x < s.Extent())
      invariant Collected(ts, timings, k)
      invariant exact && k > 0 ==> sum == DotFirst(s.Cells(), s.Extent())
    {
      RoundFirstAt(ts, s.Cells(), s.Extent());
      BumpAllAt(ts, Lengths(timings));
      assert forall i :: 0 <= i < SUBTESTS ==> Lengths(timings)[i] == |timings[i]|;
      timings, sum := Iterate(s, ts, timings, sum);
      assert forall i :: 0 <= i < SUBTESTS ==> Lengths(timings)[i] == |timings[i]|;
    }
  }

  // ---------------------------------------------------------------- check_solution

  /** Sum of the distances of the first `n` values from `gold`. */
  function Distance(xs: seq<real>, gold: real, n: nat): real
    requires n <= |xs|
  {
    if n == 0 then 0.0 else Distance(xs, gold, n - 1) + Abs(xs[n - 1] - gold)
  }

  /** The accumulated error is non-negative, and zero exactly when every value is the predicted one. */
  lemma {:induction false} DistanceZeroIff(xs: seq<real>, gold: real, n: nat)
    requires n <= |xs|
    ensures Distance(xs, gold, n) >= 0.0
    ensures Distance(xs, gold, n) == 0.0 <==> forall i :: 0 <= i < n ==> xs[i] == gold
  {
    if n > 0 { DistanceZeroIff(xs, gold, n - 1); }
  }

  function Average(xs: seq<real>, gold: real): real
    requires xs != []
  {
    Distance(xs, gold, |xs|) / |xs| as real
  }

  lemma AverageZeroIff(xs: seq<real>, gold: real)
    requires xs != []
    ensures Average(xs, gold) >= 0.0
    ensures Average(xs, gold) == 0.0 <==> forall i :: 0 <= i < |xs| ==> xs[i] == gold
  {
    DistanceZeroIff(xs, gold, |xs|);
    QuotientSign(Distance(xs, gold, |xs|), |xs| as real);
  }

  /** Values that are all off by the same amount are off by it on average. */
  lemma {:induction false} DistanceOfShift(xs: seq<real>, gold: real, d: real, n: nat)
    requires n <= |xs| && forall i :: 0 <= i < n ==> xs[i] == gold + d || xs[i] == gold - d
    ensures Distance(xs, gold, n) == n as real * if d < 0.0 then -d else d
  {
    if n > 0 {
      DistanceOfShift(xs, gold, d, n - 1);
      var a := if d < 0.0 then -d else d;
      assert n as real * a == (n - 1) as real * a + a;
    }
  }

  lemma AverageOfShift(xs: seq<real>, gold: real, d: real)
    requires xs != [] && forall i :: 0 <= i < |xs| ==> xs[i] == gold + d || xs[i] == gold - d
    ensures Average(xs, gold) == if d < 0.0 then -d else d
  {
    DistanceOfShift(xs, gold, d, |xs|);
    var a := if d < 0.0 then -d else d;
    assert |xs| as real * a / |xs| as real == a;
  }

  method AverageError(xs: seq<real>, gold: real) returns (err: real)
    requires xs != []
    ensures err == Average(xs, gold)
  {
    err := 0.0;
    for i := 0 to |xs|
      invariant err == Distance(xs, gold, i)
    {
      err := err + Abs(xs[i] - gold);
    }
    err := err / |xs| as real;
  }

  /** Which of the four validations complain. */
  datatype Verdict = Verdict(a: bool, b: bool, c: bool, sum: bool)

  const SUM_TOLERANCE: real := 0.00000001

  /** check_solution's scalar recurrence. */
  method PredictGold(ntimes: nat, triadOnly: bool) returns (g: Cell)
    ensures g == Gold(triadOnly, ntimes)
  {
    var goldA, goldB, goldC := START_A, START_B, START_C;
    for i := 0 to ntimes
      invariant Cell(goldA, goldB, goldC) == Gold(triadOnly, i)
    {
      if !triadOnly {
        goldC := goldA;
        goldB := SCALAR * goldC;
        goldC := goldA + goldB;
      }
      goldA := goldB + SCALAR * goldC;
    }
    g := Cell(goldA, goldB, goldC);
  }

  function GoldSum(g: Cell, size: nat): real { g.a * g.b * size as real }

  /** check_solution: the arrays are compared by average error, the dot product by its own tolerance unless
      the triad_only flag is up. */
  method CheckSolution(ntimes: nat, triadOnly: bool, a: seq<real>, b: seq<real>, c: seq<real>, sum: real, epsi: real)
    returns (v: Verdict)
    requires a != [] && b != [] && c != []
    ensures var g := Gold(triadOnly, ntimes);
            v == Verdict(Average(a, g.a) > epsi, Average(b, g.b) > epsi, Average(c, g.c) > epsi,
                         !triadOnly && Abs(sum - GoldSum(g, |a|)) > 0.00000001)
  {
    var g := PredictGold(ntimes, triadOnly);
    var goldSum := GoldSum(g, |a|);
    var errA := AverageError(a, g.a);
    var errB := AverageError(b, g.b);
    var errC := AverageError(c, g.c);
    var errSum := Abs(sum - goldSum);
    v := Verdict(errA > epsi, errB > epsi, errC > epsi, !triadOnly && errSum > SUM_TOLERANCE);
  }

  lemma UniformDot(xs: seq<Cell>, g: Cell)
    requires forall i :: 0 <= i < |xs| ==> xs[i] == g
    ensures DotProduct(xs) == GoldSum(g, |xs|)
  {
    SumConst(|xs|, Products(xs), g.a * g.b);
    assert |xs| as real * (g.a * g.b) == g.a * g.b * |xs| as real;
  }

  /** read_arrays: the host's copies of the three arrays. */
  method ReadArrays(s: HipStream) returns (a: seq<real>, b: seq<real>, c: seq<real>)
    requires s.Valid()
    ensures |a| == |b| == |c| == s.arraySize
    ensures forall x :: 0 <= x < s.arraySize ==> s.Cells()[x] == Cell(a[x], b[x], c[x])
  {
    a, b, c := s.a[..], s.b[..], s.c[..];
  }

  /** A full run from the default start values passes its own validation: no complaint about the arrays, and none
      about the sum if the dot product is among the subtests. */
  method RunAndCheck(s: HipStream, ts: Tests, rounds: nat, epsi: real) returns (v: Verdict)
    requires s.Covered() && s.arraySize > 0 && rounds > 0 && epsi >= 0.0
    requires ts.dot ==>
             (s.tbSize == 1024 ||
               (s.tbSize == 512 && (s.elementsPerLane == 2 || s.elementsPerLane == 4) &&
                (s.chunksPerBlock == 1 || s.chunksPerBlock == 2 || s.chunksPerBlock == 4)))
    requires ts.copy && ts.mul && ts.add && ts.triad
    modifies s.a, s.b, s.c, s.sums
    ensures !v.a && !v.b && !v.c && (ts.dot ==> !v.sum)
  {
    s.InitArrays(START);
    s.CoveredIsWholeBlocks();
    var timings, sum := RunStress(s, ts, rounds);
    GoldPredictsIff(ts, rounds);
    ghost var g := Gold(false, rounds);
    UniformDot(s.Cells(), g);
    var a, b, c := ReadArrays(s);
    assert forall x :: 0 <= x < s.arraySize ==> Cell(a[x], b[x], c[x]) == g;
    AverageZeroIff(a, g.a);
    AverageZeroIff(b, g.b);
    AverageZeroIff(c, g.c);
    v := CheckSolution(rounds, false, a, b, c, sum, epsi);
  }

  // ---------------------------------------------------------------- statistics

  /** The statistics printed for one subtest: shortest, longest and average time, all without the first sample,
      and the bandwidths computed from them. */
  datatype Stats = Stats(shortest: real, longest: real, average: real, best: real, worst: real, mean: real)

  function SumRange(xs: seq<real>, n: nat): real
    requires n <= |xs|
  {
    if n == 0 then 0.0 else SumRange(xs, n - 1) + xs[n - 1]
  }

  /** The times reported are the shortest, the longest and the mean of the samples. */
  ghost predicate Describes(st: Stats, xs: seq<real>) {
    st.shortest in xs && st.longest in xs && (forall j :: 0 <= j < |xs| ==> st.shortest <= xs[j] <= st.longest) &&
    IsMean(st.average, xs)
  }

  predicate IsMean(avg: real, xs: seq<real>) { avg * |xs| as real == SumRange(xs, |xs|) }

  /** The statistics of a subtest. `bytes` is the traffic of one iteration in the reported unit. */
  method Summarise(timing: seq<real>, effectiveTimes: nat, bytes: real) returns (st: Stats)
    requires |timing| == effectiveTimes >= 2 && bytes > 0.0
    requires forall i :: 0 <= i < |timing| ==> timing[i] > 0.0
    ensures Describes(st, timing[1..]) && Ordered(st, bytes)
  {
    var xs := timing[1..];
    var lo, hi, sum := MinMaxSum(xs);
    SumBounds(xs, |xs|, lo, hi);
    StatsOrdered(xs, lo, hi, sum, |xs|, bytes);
    st := StatsOf(lo, hi, sum, |xs|, bytes);
  }

  function StatsOf(lo: real, hi: real, sum: real, n: nat, bytes: real): Stats
    requires 0.0 < lo && 0.0 < hi && n > 0 && sum != 0.0
  {
    var avg := sum / n as real;
    assert avg * n as real == sum;
    Stats(lo, hi, avg, bytes / lo, bytes / hi, bytes / avg)
  }

  lemma StatsOrdered(xs: seq<real>, lo: real, hi: real, sum: real, n: nat, bytes: real)
    requires 0.0 < lo <= hi && n == |xs| > 0 && bytes > 0.0 && lo * n as real <= sum <= hi * n as real
    requires sum == SumRange(xs, n)
    ensures sum > 0.0 && Ordered(StatsOf(lo, hi, sum, n, bytes), bytes)
    ensures IsMean(StatsOf(lo, hi, sum, n, bytes).average, xs)
  {
    assert lo * n as real > 0.0;
    QuotientBounds(sum, n as real, lo, hi);
    InverseOrder(bytes, lo, sum / n as real);
    InverseOrder(bytes, sum / n as real, hi);
  }

  /** Times and bandwidths in order, each bandwidth being the traffic over its time. */
  predicate Ordered(st: Stats, bytes: real) {
    0.0 < st.shortest <= st.average <= st.longest && st.worst <= st.mean <= st.best &&
    st.best * st.shortest == bytes && st.worst * st.longest == bytes && st.mean * st.average == bytes
  }

  /** std::minmax_element and std::accumulate over the samples. */
  method MinMaxSum(xs: seq<real>) returns (lo: real, hi: real, sum: real)
    requires xs != []
    ensures lo in xs && hi in xs && forall j :: 0 <= j < |xs| ==> lo <= xs[j] <= hi
    ensures sum == SumRange(xs, |xs|)
  {
    lo, hi, sum := xs[0], xs[0], 0.0;
    for i := 0 to |xs|
      invariant lo in xs && hi in xs
      invariant forall j :: 0 <= j < i ==> lo <= xs[j] <= hi
      invariant sum == SumRange(xs, i)
    {
      if xs[i] < lo { lo := xs[i]; }
      if hi <= xs[i] { hi := xs[i]; }
      sum := sum + xs[i];
    }
  }

  lemma {:induction false} SumBounds(xs: seq<real>, n: nat, lo: real, hi: real)
    requires n <= |xs| && forall i :: 0 <= i < n ==> lo <= xs[i] <= hi
    ensures lo * n as real <= SumRange(xs, n) <= hi * n as real
  {
    if n > 0 {
      SumBounds(xs, n - 1, lo, hi);
      assert lo * n as real == lo * (n - 1) as real + lo && hi * n as real == hi * (n - 1) as real + hi;
    }
  }

  lemma QuotientBounds(sum: real, n: real, lo: real, hi: real)
    requires n > 0.0 && lo * n <= sum <= hi * n
    ensures lo <= sum / n <= hi && sum / n * n == sum
  {
    var q := sum / n;
    assert q * n == sum;
    assert q < lo ==> (lo - q) * n > 0.0;
    assert q > hi ==> (q - hi) * n > 0.0;
  }

  /** A longer time is a smaller bandwidth. */
  lemma InverseOrder(bytes: real, t1: real, t2: real)
    requires bytes > 0.0 && 0.0 < t1 <= t2
    ensures bytes / t2 <= bytes / t1 && bytes / t1 * t1 == bytes && bytes / t2 * t2 == bytes
  {
    var q1, q2 := bytes / t1, bytes / t2;
    assert q1 * t1 == bytes && q2 * t2 == bytes;
    assert q2 > 0.0;
    assert q2 * t1 <= q2 * t2;
    assert q2 > q1 ==> (q2 - q1) * t1 > 0.0;
  }

  /** What is reported for a subtest: the statistics of its timings without the first one, in order. */
  ghost predicate Reports(st: Stats, timing: seq<real>, bytes: real)
    requires timing != []
  {
    Describes(st, timing[1..]) && Ordered(st, bytes)
  }

  /** Every enabled subtest of an iteration-mode run with at least two iterations gets the statistics of its own
      timings, and no other subtest gets any. */
  method ReportSubtests(ts: Tests, timings: seq<seq<real>>, numTimes: nat, bytes: seq<real>)
    returns (stats: seq<Option<Stats>>)
    requires numTimes >= 2 && Collected(ts, timings, numTimes)
    requires |bytes| == SUBTESTS && forall i :: 0 <= i < SUBTESTS ==> bytes[i] > 0.0
    ensures |stats| == SUBTESTS
    ensures forall i :: 0 <= i < SUBTESTS ==> (stats[i].Some? <==> Enabled(ts, i))
    ensures forall i :: 0 <= i < SUBTESTS && Enabled(ts, i) ==> Reports(stats[i].value, timings[i], bytes[i])
  {
    stats := [];
    for i := 0 to SUBTESTS
      invariant |stats| == i
      invariant forall j :: 0 <= j < i ==> (stats[j].Some? <==> Enabled(ts, j))
      invariant forall j :: 0 <= j < i && Enabled(ts, j) ==> Reports(stats[j].value, timings[j], bytes[j])
    {
      if Enabled(ts, i) {
        var st := Summarise(timings[i], numTimes, bytes[i]);
        stats := stats + [Some(st)];
      } else {
        stats := stats + [None];
      }
    }
  }
}
