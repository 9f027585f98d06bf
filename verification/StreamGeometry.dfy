/** Sizes of a HIPStream and the map from GPU threads to array elements. */
module StreamGeometry {
  import opened IndexMath

  /** The value a 32-bit unsigned operation leaves. */
  function Wrap(x: nat): (r: nat)
    ensures x < WORD ==> r == x
  {
    x % WORD
  }

  // ---------------------------------------------------------------- the constructor's sizes

  /** What the constructor's size checks conclude. NoDivisor: the divisor is zero, which the source does not test. */
  datatype Setup = BadLane | NoDivisor | BadSize | Ready(elementsPerLane: nat, blocks: nat)

  function ElementsPerLane(dwords: nat, elementSize: nat): nat
    requires elementSize > 0
  {
    if dwords * 4 < elementSize then 1 else dwords * 4 / elementSize
  }

  /** The elements a block moves, as the constructor multiplies them out. */
  function PerBlock(threads: nat, e: nat, c: nat): nat { Wrap(Wrap(threads * e) * c) }

  function Configure(arraySize: nat, elementSize: nat, dwords: nat, chunks: nat, threads: nat): Setup
    requires elementSize > 0
  {
    if !(dwords * 4 < elementSize || dwords * 4 % elementSize == 0) then BadLane
    else
      var e := ElementsPerLane(dwords, elementSize);
      var perBlock := PerBlock(threads, e, chunks);
      if perBlock == 0 then NoDivisor
      else if arraySize % perBlock != 0 then BadSize
      else Ready(e, arraySize / perBlock)
  }

  // ---------------------------------------------------------------- launch table

  /** The pairs for which a kernel instance of that very shape is launched. */
  predicate InTable(e: nat, c: nat) { (e == 2 || e == 4) && (c == 1 || c == 2 || c == 4) }

  /** The shape of the instance that is launched; any other configuration runs the (4, 2) one. */
  function LaunchedLane(e: nat, c: nat): nat { if InTable(e, c) then e else 4 }

  function LaunchedChunks(e: nat, c: nat): nat { if InTable(e, c) then c else 2 }

  /** Configurations whose launches cover the array (see CoverageIff). */
  predicate Covering(e: nat, c: nat) { InTable(e, c) || e * c == 8 }

  lemma EightSplits(e: nat, c: nat)
    requires e * c == 8
    ensures 1 <= e <= 8 && 1 <= c <= 8
  {
    assert e >= 9 && c >= 1 ==> e * c >= 9 * c;
    assert c >= 9 && e >= 1 ==> e * c >= e * 9;
  }

  /** With fewer than 65536 threads a block of a covering configuration never wraps. */
  lemma BlockFits(e: nat, c: nat, threads: nat)
    requires Covering(e, c) && threads < 0x1_0000
    ensures (threads * e) * c < WORD
  {
    if !InTable(e, c) { EightSplits(e, c); }
    MulMono(e, 8, threads);
    assert threads * e <= 8 * threads;
    assert (threads * e) * c <= (threads * e) * 8;
  }

  lemma WrapTwice(x: nat, c: nat)
    ensures Wrap(Wrap(x) * c) == Wrap(x * c)
  {
    var q, r := x / WORD, x % WORD;
    var q', r' := r * c / WORD, r * c % WORD;
    assert x * c == (q * WORD + r) * c == (q * c) * WORD + r * c;
    assert r * c == q' * WORD + r';
    DivMod(q * c + q', r', WORD);
    assert x * c == (q * c + q') * WORD + r';
  }

  lemma SplitsEvenly(size: nat, d: nat)
    requires d > 0 && size % d == 0
    ensures size == size / d * d && (size / d == 0 <==> size == 0)
  {
  }

  lemma SameMultiple(b: nat, x: nat, y: nat)
    ensures b * x == b * y <==> b == 0 || x == y
    ensures b * x <= b * y <==> b == 0 || x <= y
  {
    if b > 0 && x < y { MulMono(1, b, y - x); assert b * y == b * x + b * (y - x); }
    if b > 0 && y < x { MulMono(1, b, x - y); assert b * x == b * y + b * (x - y); }
  }

  /** What the size checks promise, exactly: an accepted configuration splits the array into chunks, blocks, threads and
      lane elements without remainder if and only if the 32-bit product they divide by is the true one (or the
      array is empty). */
  lemma AcceptedSizesFitIff(arraySize: nat, elementSize: nat, dwords: nat, c: nat, threads: nat)
    requires elementSize > 0 && Configure(arraySize, elementSize, dwords, c, threads).Ready?
    ensures var s := Configure(arraySize, elementSize, dwords, c, threads);
            threads > 0 &&
            (c * ((s.blocks * threads) * s.elementsPerLane) == arraySize <==>
             arraySize == 0 || (threads * s.elementsPerLane) * c < WORD)
  {
    var s := Configure(arraySize, elementSize, dwords, c, threads);
    var e := s.elementsPerLane;
    var d, per := (threads * e) * c, PerBlock(threads, e, c);
    WrapTwice(threads * e, c);
    assert threads == 0 ==> threads * e == 0;
    Regroup(s.blocks, threads, e, c);
    SplitsEvenly(arraySize, per);
    SameMultiple(s.blocks, d, per);
  }

  /** A configuration whose product wraps to a divisor of the array size, and is accepted: one block of 1024 threads
      with 1985 elements per lane and 2113 chunks would move 2^32 + 1024 elements. */
  lemma WrappedSizesAreAccepted()
    ensures Configure(1024, 4, 1985, 2113, 1024) == Ready(1985, 1)
    ensures 2113 * ((1 * 1024) * 1985) != 1024
  {
    assert 1024 * 1985 == 2032640 && 2032640 * 2113 == WORD + 1024;
    assert PerBlock(1024, 1985, 2113) == 1024;
  }

  /** In particular every accepted covering configuration of a device's size splits the array exactly. */
  lemma AcceptedSizesFit(arraySize: nat, elementSize: nat, dwords: nat, c: nat, threads: nat)
    requires elementSize > 0 && threads < 0x1_0000
    requires Configure(arraySize, elementSize, dwords, c, threads).Ready?
    requires Covering(Configure(arraySize, elementSize, dwords, c, threads).elementsPerLane, c)
    ensures var s := Configure(arraySize, elementSize, dwords, c, threads);
            (threads * s.elementsPerLane) * c < WORD &&
            c * ((s.blocks * threads) * s.elementsPerLane) == arraySize && threads > 0
  {
    BlockFits(Configure(arraySize, elementSize, dwords, c, threads).elementsPerLane, c, threads);
    AcceptedSizesFitIff(arraySize, elementSize, dwords, c, threads);
  }

  lemma Regroup(blocks: nat, threads: nat, e: nat, c: nat)
    ensures c * ((blocks * threads) * e) == blocks * ((threads * e) * c)
  {
    assert (blocks * threads) * e == blocks * (threads * e);
    assert c * (blocks * (threads * e)) == (blocks * (threads * e)) * c == blocks * ((threads * e) * c);
  }

  // ---------------------------------------------------------------- thread indexing

  /** Element `j` of chunk `i` of thread `t` in a launch of `n` threads: gidx + i * dx + j. */
  function Index(n: nat, e: nat, t: nat, i: nat, j: nat): nat { t * e + i * (n * e) + j }

  /** The same computed as the kernel does, every operation reduced to 32 bits. */
  function Index32(n: nat, e: nat, t: nat, i: nat, j: nat): nat {
    var dx := Wrap(Wrap(n) * e);
    var gidx := Wrap(Wrap(t) * e);
    Wrap(Wrap(gidx + Wrap(i * dx)) + j)
  }

  ghost predicate Lane(n: nat, e: nat, c: nat, t: nat, i: nat, j: nat) { t < n && i < c && j < e }

  lemma IndexInRange(n: nat, e: nat, c: nat, t: nat, i: nat, j: nat)
    requires Lane(n, e, c, t, i, j)
    ensures t * e + j < n * e && Index(n, e, t, i, j) < c * (n * e)
    ensures Index(n, e, t, i, j) / (n * e) == i && Index(n, e, t, i, j) % (n * e) == t * e + j
    ensures (t * e + j) / e == t && (t * e + j) % e == j
  {
    FlatBound(t, j, e, n);
    FlatBound(i, t * e + j, n * e, c);
    DivMod(i, t * e + j, n * e);
    DivMod(t, j, e);
  }

  /** Different lanes write different elements. */
  lemma LanesAreDisjoint(n: nat, e: nat, c: nat, t: nat, i: nat, j: nat, t': nat, i': nat, j': nat)
    requires Lane(n, e, c, t, i, j) && Lane(n, e, c, t', i', j')
    ensures Index(n, e, t, i, j) == Index(n, e, t', i', j') <==> t == t' && i == i' && j == j'
  {
    IndexInRange(n, e, c, t, i, j);
    IndexInRange(n, e, c, t', i', j');
  }

  ghost predicate Touches(n: nat, e: nat, c: nat, x: int) {
    exists t: nat, i: nat, j: nat :: Lane(n, e, c, t, i, j) && Index(n, e, t, i, j) == x
  }

  /** A launch touches exactly the first n * e * c elements. */
  lemma TouchedExactly(n: nat, e: nat, c: nat, x: int)
    ensures Touches(n, e, c, x) <==> 0 <= x < c * (n * e)
  {
    if Touches(n, e, c, x) {
      var t: nat, i: nat, j: nat :| Lane(n, e, c, t, i, j) && Index(n, e, t, i, j) == x;
      IndexInRange(n, e, c, t, i, j);
    }
    if 0 <= x < c * (n * e) {
      var d := n * e;
      assert d == 0 ==> c * d == 0;
      FlatSplit(x, d, c);
      assert e == 0 ==> n * e == 0;
      FlatSplit(x % d, e, n);
      assert Lane(n, e, c, (x % d) / e, x / d, (x % d) % e);
      assert Index(n, e, (x % d) / e, x / d, (x % d) % e) == x;
    }
  }

  /** No 32-bit operation of the index computation wraps when the touched range fits in 32 bits. */
  lemma IndexNeverWraps(n: nat, e: nat, c: nat, t: nat, i: nat, j: nat)
    requires Lane(n, e, c, t, i, j) && c * (n * e) < WORD
    ensures Index32(n, e, t, i, j) == Index(n, e, t, i, j)
  {
    IndexInRange(n, e, c, t, i, j);
    MulMono(1, c, n * e);
    MulMono(1, e, n);
    MulMono(0, t, e);
    MulMono(0, i, n * e);
    assert Wrap(Wrap(t) * e) == t * e;
    assert Wrap(i * (n * e)) == i * (n * e);
  }

  /** A launch covers exactly the configured array iff its shape is in the table, or both shapes move
      eight elements per thread, or there is no thread. */
  lemma CoverageIff(n: nat, e: nat, c: nat)
    ensures (forall x :: Touches(n, LaunchedLane(e, c), LaunchedChunks(e, c), x) <==> 0 <= x < c * (n * e))
            <==> (n == 0 || ((e == 2 || e == 4) && (c == 1 || c == 2 || c == 4)) || e * c == 8)
  {
    if n > 0 && !InTable(e, c) && e * c != 8 {
      var _ := FallbackMisses(n, e, c);
    } else {
      forall x ensures Touches(n, LaunchedLane(e, c), LaunchedChunks(e, c), x) <==> 0 <= x < c * (n * e) {
        LaunchedShapes(n, e, c, x);
        PerThread(n, e, c);
      }
    }
  }

  lemma PerThread(n: nat, e: nat, c: nat)
    ensures c * (n * e) == (e * c) * n
  {
    assert c * (n * e) == (c * e) * n;
  }

  /** The first element that the fallback leaves out or touches in excess. */
  lemma FallbackMisses(n: nat, e: nat, c: nat) returns (x: int)
    requires n > 0 && !InTable(e, c) && e * c != 8
    ensures Touches(n, LaunchedLane(e, c), LaunchedChunks(e, c), x) != (0 <= x < c * (n * e))
  {
    var perThread := e * c;
    PerThread(n, e, c);
    x := if perThread > 8 then n * 8 else c * (n * e);
    LaunchedShapes(n, e, c, x);
    if perThread > 8 { MulMono(9, perThread, n); } else { MulMono(perThread, 7, n); }
  }

  /** The six shapes that have an instance of their own are launched as they are; any other shape moves eight elements
      per thread. */
  lemma LaunchedShapes(n: nat, e: nat, c: nat, x: int)
    ensures (e == 2 || e == 4) && (c == 1 || c == 2 || c == 4) ==>
              (Touches(n, LaunchedLane(e, c), LaunchedChunks(e, c), x) <==> 0 <= x < c * (n * e))
    ensures !((e == 2 || e == 4) && (c == 1 || c == 2 || c == 4)) ==>
              (Touches(n, LaunchedLane(e, c), LaunchedChunks(e, c), x) <==> 0 <= x < n * 8)
  {
    TouchedExactly(n, LaunchedLane(e, c), LaunchedChunks(e, c), x);
  }

  /** What an accepted configuration is: a lane moves the dwords asked for, or one element that is longer than these;
      and the blocks make up the array, counted with the 32-bit product. */
  lemma ReadyMeans(arraySize: nat, elementSize: nat, dwords: nat, chunks: nat, threads: nat)
    requires elementSize > 0 && Configure(arraySize, elementSize, dwords, chunks, threads).Ready?
    ensures var s := Configure(arraySize, elementSize, dwords, chunks, threads);
            (dwords * 4 >= elementSize ==> s.elementsPerLane * elementSize == dwords * 4) &&
            (dwords * 4 < elementSize ==> s.elementsPerLane == 1) &&
            arraySize == s.blocks * (((threads * s.elementsPerLane) * chunks) % 0x1_0000_0000)
  {
    var s := Configure(arraySize, elementSize, dwords, chunks, threads);
    var e := ElementsPerLane(dwords, elementSize);
    WrapTwice(threads * e, chunks);
    SplitsEvenly(arraySize, PerBlock(threads, e, chunks));
    if dwords * 4 >= elementSize { FloorDiv(dwords * 4, elementSize); }
  }

  /** The checks refuse exactly: dwords that are no whole number of elements, a product of zero (which the source
      divides by), and an array that is no multiple of the product. */
  lemma RefusedIff(arraySize: nat, elementSize: nat, dwords: nat, chunks: nat, threads: nat)
    requires elementSize > 0
    ensures var s := Configure(arraySize, elementSize, dwords, chunks, threads);
            var e := if dwords * 4 < elementSize then 1 else dwords * 4 / elementSize;
            var product := ((threads * e) * chunks) % 0x1_0000_0000;
            (s.BadLane? <==> dwords * 4 >= elementSize && dwords * 4 % elementSize != 0) &&
            (s.NoDivisor? <==> !s.BadLane? && product == 0) &&
            (s.BadSize? <==> !s.BadLane? && product > 0 && arraySize % product != 0)
  {
    WrapTwice(threads * ElementsPerLane(dwords, elementSize), chunks);
  }

  /** The elements a launch touches, for any accepted configuration: they are the whole array if and only if the
      instance launched moves per block what the checks divided by (or the array is empty), and none of them lies
      behind the array if and only if it moves no more than that. */
  lemma LaunchCoversIff(arraySize: nat, elementSize: nat, dwords: nat, c: nat, threads: nat)
    requires elementSize > 0 && Configure(arraySize, elementSize, dwords, c, threads).Ready?
    ensures var s := Configure(arraySize, elementSize, dwords, c, threads);
            var e', c' := LaunchedLane(s.elementsPerLane, c), LaunchedChunks(s.elementsPerLane, c);
            var touched, moved := c' * ((s.blocks * threads) * e'), (threads * e') * c';
            (touched == arraySize <==> arraySize == 0 || moved == PerBlock(threads, s.elementsPerLane, c)) &&
            (touched <= arraySize <==> arraySize == 0 || moved <= PerBlock(threads, s.elementsPerLane, c))
  {
    var s := Configure(arraySize, elementSize, dwords, c, threads);
    var e', c' := LaunchedLane(s.elementsPerLane, c), LaunchedChunks(s.elementsPerLane, c);
    var moved, per := (threads * e') * c', PerBlock(threads, s.elementsPerLane, c);
    Regroup(s.blocks, threads, e', c');
    SplitsEvenly(arraySize, per);
    SameMultiple(s.blocks, moved, per);
  }

  /** init_kernel's own grid, one thread per element: every index of a whole block belongs to exactly one thread of the
      grid, and no other index does; these are all indices if and only if the block size divides the array. */
  lemma InitCoversOnce(arraySize: nat, threads: nat, x: nat)
    requires threads > 0
    ensures x < arraySize / threads * threads <==> x / threads < arraySize / threads
    ensures x == (x / threads) * threads + x % threads && 0 <= x / threads && 0 <= x % threads < threads
    ensures arraySize / threads * threads <= arraySize
    ensures arraySize / threads * threads == arraySize <==> arraySize % threads == 0
  {
    var blocks := arraySize / threads;
    FloorDiv(arraySize, threads);
    FloorDiv(x, threads);
    if x < blocks * threads { FlatSplit(x, threads, blocks); }
    if x / threads < blocks { FlatBound(x / threads, x % threads, threads, blocks); }
  }
}
