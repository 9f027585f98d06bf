/** The BabelStream kernels: GPU threads that interleave their loads and stores on three shared arrays. */
module StreamKernels {
  import opened IndexMath
  import opened StreamGeometry

  const START_A: real := 0.1
  const START_B: real := 0.2
  const START_C: real := 0.0
  const SCALAR: real := 0.4

  /** One element of each of the three arrays. */
  datatype Cell = Cell(a: real, b: real, c: real)

  datatype Kernel = Read | Write | Copy | Mul | Add | Triad

  /** The value a lane computes from the elements it loads. */
  function Loaded(k: Kernel, x: Cell): real {
    match k
    case Read => x.a
    case Write => START_C
    case Copy => x.a
    case Mul => SCALAR * x.c
    case Add => x.a + x.b
    case Triad => x.b + SCALAR * x.c
  }

  /** The cell after that value has been stored where the kernel stores it; reading stores nothing. */
  function Stored(k: Kernel, x: Cell, v: real): Cell {
    match k
    case Read => x
    case Write => x.(c := v)
    case Copy => x.(c := v)
    case Mul => x.(b := v)
    case Add => x.(c := v)
    case Triad => x.(a := v)
  }

  /** The sequential meaning of a kernel on one element. */
  function Apply(k: Kernel, x: Cell): Cell { Stored(k, x, Loaded(k, x)) }

  /** The six kernels, with the numbers they are compiled with. Reading changes no array. */
  lemma KernelsMean(a: real, b: real, c: real)
    ensures Apply(Read, Cell(a, b, c)) == Cell(a, b, c)
    ensures Apply(Write, Cell(a, b, c)) == Cell(a, b, 0.0)
    ensures Apply(Copy, Cell(a, b, c)) == Cell(a, b, a)
    ensures Apply(Mul, Cell(a, b, c)) == Cell(a, 0.4 * c, c)
    ensures Apply(Add, Cell(a, b, c)) == Cell(a, b, a + b)
    ensures Apply(Triad, Cell(a, b, c)) == Cell(b + 0.4 * c, b, c)
  {
  }

  function ApplyAll(k: Kernel, xs: seq<Cell>): seq<Cell> {
    seq(|xs|, i requires 0 <= i < |xs| => Apply(k, xs[i]))
  }

  /** The kernel applied to the first `n` elements. */
  function ApplyFirst(k: Kernel, xs: seq<Cell>, n: nat): (r: seq<Cell>)
    ensures |r| == |xs| && (n >= |xs| ==> r == ApplyAll(k, xs))
  {
    seq(|xs|, i requires 0 <= i < |xs| => if i < n then Apply(k, xs[i]) else xs[i])
  }

  // ---------------------------------------------------------------- who owns which element

  /** Element number `q` in program order of thread `t`: chunk q / e, lane element q % e. */
  function At(n: nat, e: nat, t: nat, q: nat): nat
    requires e > 0
  {
    Index(n, e, t, q / e, q % e)
  }

  /** A table of the index map and of its inverse. */
  datatype Layout = Layout(at: seq<seq<nat>>, owner: seq<nat>, place: seq<nat>)

  /** `n` threads with `m` elements each partition the `size` elements. */
  ghost predicate Partition(l: Layout, n: nat, m: nat, size: nat) {
    |l.at| == n && |l.owner| == |l.place| == size &&
    (forall t :: 0 <= t < n ==> |l.at[t]| == m) &&
    (forall t, q :: 0 <= t < n && 0 <= q < m ==>
       l.at[t][q] < size && l.owner[l.at[t][q]] == t && l.place[l.at[t][q]] == q) &&
    forall x :: 0 <= x < size ==> l.owner[x] < n && l.place[x] < m && l.at[l.owner[x]][l.place[x]] == x
  }

  function OwnerOf(n: nat, e: nat, x: nat): nat
    requires n * e > 0 && e > 0
  {
    (x % (n * e)) / e
  }

  function PlaceOf(n: nat, e: nat, x: nat): nat
    requires n * e > 0 && e > 0
  {
    (x / (n * e)) * e + x % (n * e) % e
  }

  lemma AtInverse(n: nat, e: nat, c: nat, t: nat, q: nat)
    requires e > 0 && t < n && q < c * e
    ensures n * e > 0 && At(n, e, t, q) < c * (n * e)
    ensures OwnerOf(n, e, At(n, e, t, q)) == t && PlaceOf(n, e, At(n, e, t, q)) == q
  {
    FlatSplit(q, e, c);
    FlatBound(t, 0, e, n);
    IndexInRange(n, e, c, t, q / e, q % e);
  }

  lemma OwnerInverse(n: nat, e: nat, c: nat, x: nat)
    requires e > 0 && x < c * (n * e)
    ensures n * e > 0 && OwnerOf(n, e, x) < n && PlaceOf(n, e, x) < c * e
    ensures At(n, e, OwnerOf(n, e, x), PlaceOf(n, e, x)) == x
  {
    assert n * e == 0 ==> c * (n * e) == 0;
    var d := n * e;
    FlatSplit(x, d, c);
    FlatSplit(x % d, e, n);
    FlatBound(x / d, x % d % e, e, c);
    DivMod(x / d, x % d % e, e);
  }

  ghost function LayoutOf(n: nat, e: nat, c: nat): Layout
    requires e > 0
  {
    Layout(seq(n, t requires 0 <= t < n => seq(c * e, q requires 0 <= q < c * e => At(n, e, t, q))),
           seq(c * (n * e), x requires 0 <= x < c * (n * e) => if n * e > 0 then OwnerOf(n, e, x) else 0),
           seq(c * (n * e), x requires 0 <= x < c * (n * e) => if n * e > 0 then PlaceOf(n, e, x) else 0))
  }

  /** The threads of a launch partition the elements it touches. */
  lemma LaunchPartitions(n: nat, e: nat, c: nat)
    requires e > 0
    ensures Partition(LayoutOf(n, e, c), n, c * e, c * (n * e))
  {
    var l := LayoutOf(n, e, c);
    forall t, q | 0 <= t < n && 0 <= q < c * e
      ensures l.at[t][q] < c * (n * e) && l.owner[l.at[t][q]] == t && l.place[l.at[t][q]] == q
    {
      AtInverse(n, e, c, t, q);
    }
    forall x | 0 <= x < c * (n * e)
      ensures l.owner[x] < n && l.place[x] < c * e && l.at[l.owner[x]][l.place[x]] == x
    {
      OwnerInverse(n, e, c, x);
    }
  }

  // ---------------------------------------------------------------- counting what is left

  ghost function Total(xs: seq<nat>): nat {
    if xs == [] then 0 else xs[0] + Total(xs[1..])
  }

  lemma {:induction false} TotalDrops(xs: seq<nat>, t: nat, v: nat)
    requires t < |xs| && v < xs[t]
    ensures Total(xs[t := v]) < Total(xs)
  {
    if t > 0 {
      assert xs[t := v][1..] == xs[1..][t - 1 := v];
      TotalDrops(xs[1..], t - 1, v);
    } else {
      assert xs[t := v][1..] == xs[1..];
    }
  }

  // ---------------------------------------------------------------- a launch, part-way through

  /** What the arrays hold when thread `t` has taken `pc[t]` steps: element `x` has its new value once its
      owner has stored it. A step is a load (even) or a store (odd). Elements beyond the launch have no owner. */
  ghost function CellNow(k: Kernel, l: Layout, was: seq<Cell>, pc: seq<nat>, x: nat): Cell
    requires x < |was| && |l.owner| == |l.place| && (x < |l.owner| ==> l.owner[x] < |pc|)
  {
    if x < |l.owner| && pc[l.owner[x]] >= 2 * l.place[x] + 2 then Apply(k, was[x]) else was[x]
  }

  ghost predicate Running(k: Kernel, l: Layout, m: nat, was: seq<Cell>, now: seq<Cell>, pc: seq<nat>, reg: seq<real>) {
    var n := |pc|;
    Partition(l, n, m, |l.owner|) && |l.owner| <= |was| && |reg| == n && |now| == |was| &&
    (forall t :: 0 <= t < n ==> pc[t] <= 2 * m) &&
    (forall t :: 0 <= t < n && pc[t] % 2 == 1 ==> reg[t] == Loaded(k, was[l.at[t][pc[t] / 2]])) &&
    forall x :: 0 <= x < |was| ==> now[x] == CellNow(k, l, was, pc, x)
  }

  /** A load reads the value the element had before the launch: nobody else touches it. */
  lemma LoadStep(k: Kernel, l: Layout, m: nat, was: seq<Cell>, now: seq<Cell>, pc: seq<nat>, reg: seq<real>, t: nat)
    requires Running(k, l, m, was, now, pc, reg) && t < |pc| && pc[t] < 2 * m && pc[t] % 2 == 0
    ensures var x := l.at[t][pc[t] / 2];
            x < |now| && Running(k, l, m, was, now, pc[t := pc[t] + 1], reg[t := Loaded(k, now[x])])
  {
    var q := pc[t] / 2;
    var x := l.at[t][q];
    assert l.owner[x] == t && l.place[x] == q;
    var pc' := pc[t := pc[t] + 1];
    forall y | 0 <= y < |was| ensures CellNow(k, l, was, pc', y) == CellNow(k, l, was, pc, y) {
    }
  }

  /** A store finishes exactly one element. */
  lemma StoreStep(k: Kernel, l: Layout, m: nat, was: seq<Cell>, now: seq<Cell>, pc: seq<nat>, reg: seq<real>, t: nat)
    requires Running(k, l, m, was, now, pc, reg) && t < |pc| && pc[t] < 2 * m && pc[t] % 2 == 1
    ensures var x := l.at[t][pc[t] / 2];
            x < |now| && Running(k, l, m, was, now[x := Stored(k, now[x], reg[t])], pc[t := pc[t] + 1], reg)
  {
    var q := pc[t] / 2;
    var x := l.at[t][q];
    assert l.owner[x] == t && l.place[x] == q;
    var pc', now' := pc[t := pc[t] + 1], now[x := Stored(k, now[x], reg[t])];
    forall y | 0 <= y < |was| ensures now'[y] == CellNow(k, l, was, pc', y) {
      assert y < |l.owner| ==> l.at[l.owner[y]][l.place[y]] == y;
    }
  }

  /** When every thread has finished, every element has its new value. */
  lemma AllDone(k: Kernel, l: Layout, m: nat, was: seq<Cell>, now: seq<Cell>, pc: seq<nat>, reg: seq<real>)
    requires Running(k, l, m, was, now, pc, reg) && forall t :: 0 <= t < |pc| ==> pc[t] >= 2 * m
    ensures now == ApplyFirst(k, was, |l.owner|)
  {
  }

  ghost function Left(pc: seq<nat>, m: nat): seq<nat> {
    seq(|pc|, t requires 0 <= t < |pc| => if pc[t] <= 2 * m then 2 * m - pc[t] else 0)
  }

  lemma LeftDrops(pc: seq<nat>, m: nat, t: nat)
    requires t < |pc| && pc[t] < 2 * m
    ensures Total(Left(pc[t := pc[t] + 1], m)) < Total(Left(pc, m))
  {
    assert Left(pc[t := pc[t] + 1], m) == Left(pc, m)[t := 2 * m - pc[t] - 1];
    TotalDrops(Left(pc, m), t, 2 * m - pc[t] - 1);
  }

  // ---------------------------------------------------------------- the stream object

  class HipStream {
    const arraySize: nat
    const tbSize: nat
    const elementsPerLane: nat
    const chunksPerBlock: nat
    const blockCnt: nat
    const a: array<real>
    const b: array<real>
    const c: array<real>
    const sums: array<real>

    ghost predicate Valid()
      reads this
    {
      a.Length == b.Length == c.Length == arraySize && sums.Length == blockCnt &&
      a != b && a != c && b != c && sums != a && sums != b && sums != c &&
      tbSize > 0
    }

    /** The number of elements a launch touches. */
    function Extent(): nat {
      LaunchedChunks(elementsPerLane, chunksPerBlock) *
      ((blockCnt * tbSize) * LaunchedLane(elementsPerLane, chunksPerBlock))
    }

    /** A launch touches exactly the array. */
    ghost predicate Covered()
      reads this
    {
      Valid() && Extent() == arraySize
    }

    ghost function Cells(): (r: seq<Cell>)
      reads this, a, b, c
      requires Valid()
      ensures |r| == arraySize
    {
      seq(arraySize, i requires 0 <= i < a.Length && i < b.Length && i < c.Length reads a, b, c =>
        Cell(a[i], b[i], c[i]))
    }

    /** The constructor once its size checks have passed; the sizes it accepts are StreamGeometry.Configure's.
        The arrays come uninitialised from the device allocator. */
    constructor (arraySize: nat, tbSize: nat, elementsPerLane: nat, chunksPerBlock: nat, blockCnt: nat)
      requires tbSize > 0
      ensures Valid() && fresh(a) && fresh(b) && fresh(c) && fresh(sums)
      ensures this.arraySize == arraySize && this.tbSize == tbSize && this.blockCnt == blockCnt
      ensures this.elementsPerLane == elementsPerLane && this.chunksPerBlock == chunksPerBlock
    {
      this.arraySize, this.tbSize, this.blockCnt := arraySize, tbSize, blockCnt;
      this.elementsPerLane, this.chunksPerBlock := elementsPerLane, chunksPerBlock;
      a, b, c, sums := new real[arraySize], new real[arraySize], new real[arraySize], new real[blockCnt];
    }

    /** One element of the array the kernel writes. */
    method Store(k: Kernel, x: nat, v: real)
      requires Valid() && x < arraySize
      modifies a, b, c
      ensures Cells() == old(Cells())[x := Stored(k, old(Cells())[x], v)]
    {
      match k
      case Read =>
      case Write => c[x] := v;
      case Copy => c[x] := v;
      case Mul => b[x] := v;
      case Add => c[x] := v;
      case Triad => a[x] := v;
    }

    method Load(k: Kernel, x: nat) returns (v: real)
      requires Valid() && x < arraySize
      ensures v == Loaded(k, Cells()[x])
    {
      v := Loaded(k, Cell(a[x], b[x], c[x]));
    }

    /** One step of thread `t`: load the operands of its current element, or store the value it holds. */
    method TakeStep(k: Kernel, n: nat, e: nat, t: nat, pc: seq<nat>, reg: seq<real>, ghost l: Layout, ghost m: nat,
                    ghost was: seq<Cell>)
      returns (reg': seq<real>)
      requires Valid() && t < |pc| && pc[t] < 2 * m && e > 0
      requires Running(k, l, m, was, Cells(), pc, reg) && l.at[t][pc[t] / 2] == At(n, e, t, pc[t] / 2)
      modifies a, b, c
      ensures Running(k, l, m, was, Cells(), pc[t := pc[t] + 1], reg')
    {
      var x := At(n, e, t, pc[t] / 2);
      reg' := reg;
      if pc[t] % 2 == 0 {
        LoadStep(k, l, m, was, Cells(), pc, reg, t);
        var v := Load(k, x);
        reg' := reg[t := v];
      } else {
        StoreStep(k, l, m, was, Cells(), pc, reg, t);
        Store(k, x, reg[t]);
      }
    }

    /** `n` threads with `m` elements each run to completion. At every turn any thread that has not finished
        may take its next load or store. */
    method RunThreads(k: Kernel, n: nat, e: nat, m: nat, ghost l: Layout)
      requires Valid() && e > 0 && Partition(l, n, m, |l.owner|) && |l.owner| <= arraySize
      requires forall t, q :: 0 <= t < n && 0 <= q < m ==> l.at[t][q] == At(n, e, t, q)
      modifies a, b, c
      ensures Cells() == ApplyFirst(k, old(Cells()), |l.owner|)
    {
      ghost var was := Cells();
      var pc: seq<nat> := seq(n, _ => 0);
      var reg := seq(n, _ => 0.0);
      while exists t :: 0 <= t < n && pc[t] < 2 * m
        invariant |pc| == n && Running(k, l, m, was, Cells(), pc, reg)
        decreases Total(Left(pc, m))
      {
        var t: nat :| t < n && pc[t] < 2 * m;
        LeftDrops(pc, m, t);
        assert l.at[t][pc[t] / 2] == At(n, e, t, pc[t] / 2);
        reg := TakeStep(k, n, e, t, pc, reg, l, m, was);
        pc := pc[t := pc[t] + 1];
      }
      AllDone(k, l, m, was, Cells(), pc, reg);
    }

    /** The extent, shape by shape. */
    lemma ExtentIs()
      ensures (elementsPerLane == 2 || elementsPerLane == 4) &&
              (chunksPerBlock == 1 || chunksPerBlock == 2 || chunksPerBlock == 4) ==>
                Extent() == chunksPerBlock * ((blockCnt * tbSize) * elementsPerLane)
      ensures !((elementsPerLane == 2 || elementsPerLane == 4) &&
                (chunksPerBlock == 1 || chunksPerBlock == 2 || chunksPerBlock == 4)) ==>
                Extent() == (blockCnt * tbSize) * 8
    {
    }

    /** A kernel launch: whatever the schedule of its threads, the kernel is applied once to every element the launch
        touches. It may not reach beyond the arrays. */
    method Launch(k: Kernel)
      requires Valid() && Extent() <= arraySize
      modifies a, b, c
      ensures Cells() == ApplyFirst(k, old(Cells()), Extent())
      ensures (elementsPerLane == 2 || elementsPerLane == 4) &&
              (chunksPerBlock == 1 || chunksPerBlock == 2 || chunksPerBlock == 4) ==>
                Cells() == ApplyFirst(k, old(Cells()), chunksPerBlock * ((blockCnt * tbSize) * elementsPerLane))
      ensures !((elementsPerLane == 2 || elementsPerLane == 4) &&
                (chunksPerBlock == 1 || chunksPerBlock == 2 || chunksPerBlock == 4)) ==>
                Cells() == ApplyFirst(k, old(Cells()), (blockCnt * tbSize) * 8)
    {
      var e, chunks := LaunchedLane(elementsPerLane, chunksPerBlock), LaunchedChunks(elementsPerLane, chunksPerBlock);
      ExtentIs();
      LaunchPartitions(blockCnt * tbSize, e, chunks);
      RunThreads(k, blockCnt * tbSize, e, chunks * e, LayoutOf(blockCnt * tbSize, e, chunks));
    }

    /** One thread of init_kernel. */
    method InitThread(block: nat, thread: nat, x: Cell)
      requires Valid() && block * tbSize + thread < arraySize
      modifies a, b, c
      ensures Cells() == old(Cells())[block * tbSize + thread := x]
    {
      var i := block * tbSize + thread;
      a[i], b[i], c[i] := x.a, x.b, x.c;
    }

    /** init_kernel: its own grid of one thread per element, in any order. Elements behind the last whole block are
        not reached. */
    method InitArrays(x: Cell)
      requires Valid()
      modifies a, b, c
      ensures forall i :: 0 <= i < arraySize ==>
                Cells()[i] == if i < arraySize / tbSize * tbSize then x else old(Cells())[i]
    {
      ghost var was := Cells();
      var reached := arraySize / tbSize * tbSize;
      InitCoversOnce(arraySize, tbSize, arraySize);
      var waiting := Below(reached);
      while waiting != {}
        invariant forall w :: w in waiting ==> 0 <= w < reached
        invariant forall i :: 0 <= i < arraySize ==> Cells()[i] == if i < reached && i !in waiting then x else was[i]
        decreases |waiting|
      {
        var w :| w in waiting;
        InitCoversOnce(arraySize, tbSize, w);
        InitThread(w / tbSize, w % tbSize, x);
        waiting := waiting - {w};
      }
    }

    /** A covered array is initialised completely. */
    lemma CoveredIsWholeBlocks()
      requires Covered()
      ensures arraySize / tbSize * tbSize == arraySize
    {
      var e, k := LaunchedLane(elementsPerLane, chunksPerBlock), LaunchedChunks(elementsPerLane, chunksPerBlock);
      Regroup(blockCnt, tbSize, e, k);
      assert blockCnt * ((tbSize * e) * k) == (blockCnt * (e * k)) * tbSize by {
        assert (tbSize * e) * k == (e * k) * tbSize;
      }
      DivMod(blockCnt * (e * k), 0, tbSize);
    }
  }

  /** The HIPStream constructor with its checks: the sizes are accepted or refused exactly as Configure says. The
      launches of the stream that results touch exactly its arrays if and only if the launched instance moves per
      block what the checks divided by (or the array is empty), and stay inside them if and only if it moves no more. */
  method NewStream(arraySize: nat, elementSize: nat, dwords: nat, chunks: nat, threads: nat)
    returns (setup: Setup, s: HipStream?)
    requires elementSize > 0
    ensures setup == Configure(arraySize, elementSize, dwords, chunks, threads)
    ensures s != null <==> setup.Ready?
    ensures s != null ==> fresh(s) && s.Valid() && s.arraySize == arraySize && s.tbSize == threads &&
                          s.elementsPerLane == setup.elementsPerLane && s.chunksPerBlock == chunks &&
                          s.blockCnt == setup.blocks
    ensures s != null ==>
              var e := setup.elementsPerLane;
              var moved := (threads * LaunchedLane(e, chunks)) * LaunchedChunks(e, chunks);
              (s.Covered() <==> arraySize == 0 || moved == PerBlock(threads, e, chunks)) &&
              (s.Extent() <= arraySize <==> arraySize == 0 || moved <= PerBlock(threads, e, chunks))
    ensures s != null && threads < 0x1_0000 ==>
              var e := setup.elementsPerLane;
              ((e == 2 || e == 4) && (chunks == 1 || chunks == 2 || chunks == 4)) || e * chunks == 8 ==> s.Covered()
  {
    s := null;
    setup := Configure(arraySize, elementSize, dwords, chunks, threads);
    if setup.Ready? {
      AcceptedSizesFitIff(arraySize, elementSize, dwords, chunks, threads);
      LaunchCoversIff(arraySize, elementSize, dwords, chunks, threads);
      if Covering(setup.elementsPerLane, chunks) && threads < 0x1_0000 {
        AcceptedSizesFit(arraySize, elementSize, dwords, chunks, threads);
        CoveringShapes(setup.blocks * threads, setup.elementsPerLane, chunks);
      }
      s := new HipStream(arraySize, threads, setup.elementsPerLane, chunks, setup.blocks);
    }
  }

  /** A covering shape touches as many elements as the configured one. */
  lemma CoveringShapes(n: nat, e: nat, c: nat)
    requires Covering(e, c)
    ensures LaunchedChunks(e, c) * (n * LaunchedLane(e, c)) == c * (n * e)
  {
    var e', c' := LaunchedLane(e, c), LaunchedChunks(e, c);
    assert e' * c' == e * c;
    assert c' * (n * e') == n * (e' * c') && c * (n * e) == n * (e * c);
  }
}
