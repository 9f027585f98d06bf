/** HIPStream::dot: per-thread partial sums, a tree reduction per block, and the host's sum over blocks. */
module StreamDot {
  import opened IndexMath
  import opened StreamGeometry
  import opened StreamKernels
  import opened StreamSums

  /** The element-wise products of a and b. */
  ghost function Products(xs: seq<Cell>): nat -> real { (x: nat) => if x < |xs| then xs[x].a * xs[x].b else 0.0 }

  /** a . b */
  ghost function DotProduct(xs: seq<Cell>): real { Sum(|xs|, Products(xs)) }

  /** a . b over the first `n` elements. */
  ghost function DotFirst(xs: seq<Cell>, n: nat): real { Sum(n, Products(xs)) }

  // ---------------------------------------------------------------- Reducer

  /** One level of Reducer in a block of `active` threads: those below `half` fold the upper half down, in any order. */
  method ReduceLevel(it: array<real>, half: nat, active: nat)
    requires 2 * half <= it.Length
    modifies it
    ensures forall t :: 0 <= t < half ==> it[t] == old(it[t]) + if t < active then old(it[t + half]) else 0.0
  {
    var waiting := Below(if half < active then half else active);
    while waiting != {}
      invariant forall t :: t in waiting ==> 0 <= t < half && t < active
      invariant forall t :: 0 <= t < half ==>
                  it[t] == if t in waiting || t >= active then old(it[t]) else old(it[t]) + old(it[t + half])
      invariant forall t :: half <= t < it.Length ==> it[t] == old(it[t])
      decreases |waiting|
    {
      var t :| t in waiting;
      it[t] := it[t] + it[t + half];
      waiting := waiting - {t};
    }
  }

  /** Reducer<n>::reduce, level by level with a barrier in between: the first slot ends up with the sum of all slots
      that `active` threads fold away. */
  method Reduce(it: array<real>, n: nat, active: nat)
    requires PowerOfTwo(n) && n <= it.Length && active > 0
    modifies it
    ensures it[0] == Sum(n, CountedEntries(old(it[..]), n, active))
    decreases n
  {
    ghost var was := it[..];
    if n == 1 {
      assert CountedEntries(was, 1, active)(0) == was[0];
      assert Sum(1, CountedEntries(was, 1, active)) == Sum(0, CountedEntries(was, 1, active)) + was[0];
      return;
    }
    ReduceLevel(it, n / 2, active);
    HalvingKeepsSum(was, it[..], n / 2, active);
    Reduce(it, n / 2, active);
  }

  // ---------------------------------------------------------------- the kernel

  /** The inner loop of thread `t`: one chunk. */
  method ChunkPartial(s: HipStream, n: nat, e: nat, c: nat, t: nat, i: nat, tmp0: real) returns (tmp: real)
    requires s.Valid() && t < n && i < c && c * (n * e) <= s.arraySize
    ensures tmp == tmp0 + ChunkSum(n, e, t, i, Products(s.Cells()))
  {
    ghost var p := Products(s.Cells());
    ghost var lane := (j: nat) => p(Index(n, e, t, i, j));
    tmp := tmp0;
    for j := 0 to e
      invariant tmp == tmp0 + Sum(j, lane)
    {
      IndexInRange(n, e, c, t, i, j);
      var x := Index(n, e, t, i, j);
      assert p(x) == s.a[x] * s.b[x];
      tmp := tmp + s.a[x] * s.b[x];
    }
  }

  /** The partial sum of thread `t` of `n`, accumulated over its chunks and lane elements. */
  method ThreadPartial(s: HipStream, n: nat, e: nat, c: nat, t: nat) returns (tmp: real)
    requires s.Valid() && t < n && c * (n * e) <= s.arraySize
    ensures tmp == ThreadSum(n, e, c, t, Products(s.Cells()))
  {
    ghost var p := Products(s.Cells());
    tmp := 0.0;
    for i := 0 to c
      invariant tmp == Sum(i, (i: nat) => ChunkSum(n, e, t, i, p))
    {
      tmp := ChunkPartial(s, n, e, c, t, i, tmp);
    }
  }

  /** What block `b` of `tb` threads contributes. */
  ghost function BlockRow(tb: nat, n: nat, e: nat, c: nat, p: nat -> real, b: nat): real {
    Sum(tb, (v: nat) => ThreadSum(n, e, c, b * tb + v, p))
  }

  /** Every thread of a block puts its partial sum into shared memory. */
  method FillShared(s: HipStream, n: nat, e: nat, c: nat, first: nat, tbSum: array<real>)
    requires s.Valid() && first + s.tbSize <= n && s.tbSize <= tbSum.Length && c * (n * e) <= s.arraySize
    requires tbSum != s.a && tbSum != s.b && tbSum != s.c && tbSum != s.sums
    modifies tbSum
    ensures s.Cells() == old(s.Cells())
    ensures forall v :: 0 <= v < s.tbSize ==> tbSum[v] == ThreadSum(n, e, c, first + v, Products(s.Cells()))
    ensures forall v :: s.tbSize <= v < tbSum.Length ==> tbSum[v] == old(tbSum[v])
  {
    ghost var p := Products(s.Cells());
    for v := 0 to s.tbSize
      invariant s.Cells() == old(s.Cells())
      invariant forall u :: 0 <= u < v ==> tbSum[u] == ThreadSum(n, e, c, first + u, p)
      invariant forall u :: s.tbSize <= u < tbSum.Length ==> tbSum[u] == old(tbSum[u])
    {
      tbSum[v] := ThreadPartial(s, n, e, c, first + v);
    }
  }

  /** One block of a kernel compiled for `shared` slots of shared memory: the partial sums of its threads, reduced.
      `memory` is what the shared memory holds when the block starts; nobody writes the slots without a thread. */
  method BlockSum(s: HipStream, n: nat, e: nat, c: nat, block: nat, memory: seq<real>) returns (r: real)
    requires s.Valid() && PowerOfTwo(|memory|) && s.tbSize <= |memory|
    requires n == s.blockCnt * s.tbSize && block < s.blockCnt && c * (n * e) <= s.arraySize
    ensures r == BlockRow(s.tbSize, n, e, c, Products(s.Cells()), block) + StaleSum(memory, s.tbSize)
  {
    ghost var p := Products(s.Cells());
    var tb := s.tbSize;
    var first := block * tb;
    FlatBound(block, tb - 1, tb, s.blockCnt);
    var tbSum := new real[|memory|](i requires 0 <= i < |memory| => memory[i]);
    FillShared(s, n, e, c, first, tbSum);
    ghost var slots := tbSum[..];
    SumSame(tb, Entries(slots), (v: nat) => ThreadSum(n, e, c, block * tb + v, p));
    SameStale(memory, slots, tb);
    ReducedIsActivePlusStale(slots, tb);
    Reduce(tbSum, |memory|, tb);
    r := tbSum[0];
  }

  lemma SameStale(x: seq<real>, y: seq<real>, active: nat)
    requires PowerOfTwo(|x|) && |x| == |y| && forall i :: active <= i < |x| ==> x[i] == y[i]
    ensures StaleSum(x, active) == StaleSum(y, active)
  {
    SumSame(|x|, StaleEntries(x, active), StaleEntries(y, active));
  }

  lemma BlocksSumThreads(blocks: nat, tb: nat, n: nat, e: nat, c: nat, p: nat -> real, row: nat -> real)
    requires forall b: nat :: b < blocks ==> row(b) == BlockRow(tb, n, e, c, p, b)
    ensures Sum(blocks, row) == Sum(blocks * tb, (t: nat) => ThreadSum(n, e, c, t, p))
  {
    var f := (t: nat) => ThreadSum(n, e, c, t, p);
    forall b: nat | b < blocks ensures row(b) == Sum(tb, (v: nat) => f(b * tb + v)) {
      SumSame(tb, (v: nat) => ThreadSum(n, e, c, b * tb + v, p), (v: nat) => f(b * tb + v));
    }
    SumFlatten(blocks, tb, f, row);
  }

  /** Which instance of the kernel dot() launches; with a table pair and a block size other than 512 and 1024, none. */
  datatype DotLaunch = NoLaunch | Instance(lane: nat, chunks: nat, block: nat)

  function DotLaunchOf(e: nat, c: nat, tb: nat): DotLaunch {
    if InTable(e, c) then (if tb == 1024 || tb == 512 then Instance(e, c, tb) else NoLaunch) else Instance(4, 2, 1024)
  }

  /** Slots of shared memory, one list per block. */
  ghost predicate SlotsOf(slots: seq<seq<real>>, blocks: nat, shared: nat) {
    |slots| == blocks && forall b :: 0 <= b < blocks ==> |slots[b]| == shared
  }

  /** What the slots without a thread contribute to the sum of all blocks. */
  ghost function StaleTotal(slots: seq<seq<real>>, shared: nat, active: nat): real
    requires PowerOfTwo(shared) && SlotsOf(slots, |slots|, shared)
  {
    Sum(|slots|, (b: nat) => if b < |slots| then StaleSum(slots[b], active) else 0.0)
  }

  lemma NothingStale(slots: seq<seq<real>>, shared: nat, active: nat)
    requires PowerOfTwo(shared) && SlotsOf(slots, |slots|, shared) && active >= shared
    ensures StaleTotal(slots, shared, active) == 0.0
  {
    forall b | 0 <= b < |slots| ensures StaleSum(slots[b], active) == 0.0 { StaleNeverMattersIff(shared, active); }
    SumZero(|slots|, (b: nat) => if b < |slots| then StaleSum(slots[b], active) else 0.0);
  }

  /** No device runs more than 1024 threads in a block, which is what the fallback instance has shared memory for. */
  ghost predicate DotPossible(s: HipStream) { InTable(s.elementsPerLane, s.chunksPerBlock) || s.tbSize <= 1024 }

  /** What the blocks' shared memory must look like for the instance that is launched. */
  ghost predicate MemoryOf(s: HipStream, memory: seq<seq<real>>) {
    match DotLaunchOf(s.elementsPerLane, s.chunksPerBlock, s.tbSize)
    case Instance(_, _, shared) => SlotsOf(memory, s.blockCnt, shared)
    case NoLaunch => true
  }

  /** dot(), with `memory` in the blocks' shared memory: when a kernel is launched, the dot product of the elements the
      launch touches, plus what is folded in from slots of shared memory that have no thread; there are none of these
      unless the fallback instance, compiled for 1024 threads, runs with fewer. When none is launched, the sum of
      whatever `sums` held. */
  method Dot(s: HipStream, memory: seq<seq<real>>) returns (sum: real)
    requires s.Valid() && s.Extent() <= s.arraySize
    requires DotPossible(s) && MemoryOf(s, memory)
    modifies s.sums
    ensures s.Cells() == old(s.Cells())
    ensures match DotLaunchOf(s.elementsPerLane, s.chunksPerBlock, s.tbSize)
            case Instance(_, _, shared) =>
              PowerOfTwo(shared) && sum == DotFirst(s.Cells(), s.Extent()) + StaleTotal(memory, shared, s.tbSize) &&
              (s.tbSize >= shared ==> sum == DotFirst(s.Cells(), s.Extent()))
            case NoLaunch => sum == SumOf(old(s.sums[..]))
    ensures s.tbSize == 1024 ||
            (s.tbSize == 512 && (s.elementsPerLane == 2 || s.elementsPerLane == 4) &&
             (s.chunksPerBlock == 1 || s.chunksPerBlock == 2 || s.chunksPerBlock == 4)) ==>
              sum == DotFirst(s.Cells(), s.Extent())
    ensures s.tbSize != 1024 && s.tbSize != 512 && (s.elementsPerLane == 2 || s.elementsPerLane == 4) &&
            (s.chunksPerBlock == 1 || s.chunksPerBlock == 2 || s.chunksPerBlock == 4) ==>
              sum == SumOf(old(s.sums[..]))
    ensures s.tbSize < 1024 && !((s.elementsPerLane == 2 || s.elementsPerLane == 4) &&
                                 (s.chunksPerBlock == 1 || s.chunksPerBlock == 2 || s.chunksPerBlock == 4)) ==>
              |memory| == s.blockCnt && (forall b :: 0 <= b < |memory| ==> |memory[b]| == 1024) && PowerOfTwo(1024) &&
              sum == DotFirst(s.Cells(), s.Extent()) + StaleTotal(memory, 1024, s.tbSize)
  {
    var launch := DotLaunchOf(s.elementsPerLane, s.chunksPerBlock, s.tbSize);
    LaunchableBlockSizes();
    if launch.Instance? {
      RunBlocks(s, s.blockCnt * s.tbSize, launch.lane, launch.chunks, launch.block, memory);
      if s.tbSize >= launch.block { NothingStale(memory, launch.block, s.tbSize); }
    }
    sum := SumBlocks(s);
  }

  /** Shared memory as a launch finds it: nothing is known about its contents. */
  method UnknownMemory(s: HipStream) returns (memory: seq<seq<real>>)
    ensures MemoryOf(s, memory)
  {
    var launch := DotLaunchOf(s.elementsPerLane, s.chunksPerBlock, s.tbSize);
    memory := [];
    if launch.Instance? {
      for block := 0 to s.blockCnt
        invariant SlotsOf(memory, block, launch.block)
      {
        var slots := new real[launch.block];
        memory := memory + [slots[..]];
      }
    }
  }

  /** The host's loop over the blocks. */
  method SumBlocks(s: HipStream) returns (sum: real)
    requires s.Valid()
    ensures sum == SumOf(s.sums[..])
  {
    sum := 0.0;
    for i := 0 to s.blockCnt
      invariant sum == Sum(i, Entries(s.sums[..]))
    {
      sum := sum + s.sums[i];
    }
  }

  /** The dot kernel: the blocks' results add up to the dot product of the elements touched, and the stale slots. */
  method RunBlocks(s: HipStream, n: nat, e: nat, c: nat, shared: nat, memory: seq<seq<real>>)
    requires s.Valid() && PowerOfTwo(shared) && s.tbSize <= shared && n == s.blockCnt * s.tbSize
    requires c * (n * e) <= s.arraySize && SlotsOf(memory, s.blockCnt, shared)
    modifies s.sums
    ensures s.Cells() == old(s.Cells())
    ensures SumOf(s.sums[..]) == DotFirst(s.Cells(), c * (n * e)) + StaleTotal(memory, shared, s.tbSize)
  {
    ghost var p := Products(s.Cells());
    ghost var tb := s.tbSize;
    ghost var row := (b: nat) => BlockRow(tb, n, e, c, p, b);
    for block := 0 to s.blockCnt
      invariant s.Cells() == old(s.Cells())
      invariant forall b: nat :: b < block ==> s.sums[b] == row(b) + StaleSum(memory[b], tb)
    {
      var r := BlockSum(s, n, e, c, block, memory[block]);
      s.sums[block] := r;
    }
    ghost var stale := (b: nat) => if b < |memory| then StaleSum(memory[b], tb) else 0.0;
    SumAdd(s.blockCnt, row, stale, Entries(s.sums[..]));
    BlocksSumThreads(s.blockCnt, tb, n, e, c, p, row);
    ThreadsSumEverything(n, e, c, p);
  }
}
