/** Finite sums of reals, and the re-orderings a GPU reduction performs on them. */
module StreamSums {
  import opened StreamGeometry

  /** f(0) + ... + f(n - 1). */
  function Sum(n: nat, f: nat -> real): real {
    if n == 0 then 0.0 else Sum(n - 1, f) + f(n - 1)
  }

  /** A sequence as a total function. */
  function Entry(s: seq<real>, i: nat): real { if i < |s| then s[i] else 0.0 }

  function Entries(s: seq<real>): nat -> real { (i: nat) => Entry(s, i) }

  function SumOf(s: seq<real>): real { Sum(|s|, Entries(s)) }

  lemma {:induction false} SumSame(n: nat, f: nat -> real, g: nat -> real)
    requires forall i: nat :: i < n ==> f(i) == g(i)
    ensures Sum(n, f) == Sum(n, g)
  {
    if n > 0 { SumSame(n - 1, f, g); }
  }

  lemma {:induction false} SumAdd(n: nat, f: nat -> real, g: nat -> real, h: nat -> real)
    requires forall i: nat :: i < n ==> h(i) == f(i) + g(i)
    ensures Sum(n, h) == Sum(n, f) + Sum(n, g)
  {
    if n > 0 { SumAdd(n - 1, f, g, h); }
  }

  lemma {:induction false} SumAppend(m: nat, n: nat, f: nat -> real, g: nat -> real)
    requires forall i: nat :: i < n ==> g(i) == f(m + i)
    ensures Sum(m + n, f) == Sum(m, f) + Sum(n, g)
  {
    if n > 0 { SumAppend(m, n - 1, f, g); }
  }

  /** Summing rows of length `d` one after the other is summing the whole range. */
  lemma {:induction false} SumFlatten(rows: nat, d: nat, f: nat -> real, row: nat -> real)
    requires forall u: nat :: u < rows ==> row(u) == Sum(d, (v: nat) => f(u * d + v))
    ensures Sum(rows, row) == Sum(rows * d, f)
  {
    if rows > 0 {
      SumFlatten(rows - 1, d, f, row);
      var base := (rows - 1) * d;
      assert rows * d == base + d;
      SumAppend(base, d, f, (v: nat) => f((rows - 1) * d + v));
    }
  }

  lemma {:induction false} SumZero(n: nat, f: nat -> real)
    requires forall i: nat :: i < n ==> f(i) == 0.0
    ensures Sum(n, f) == 0.0
  {
    if n > 0 { SumZero(n - 1, f); }
  }

  lemma {:induction false} SumConst(n: nat, f: nat -> real, v: real)
    requires forall i: nat :: i < n ==> f(i) == v
    ensures Sum(n, f) == n as real * v
  {
    if n > 0 {
      SumConst(n - 1, f, v);
      assert n as real == (n - 1) as real + 1.0;
      assert ((n - 1) as real + 1.0) * v == (n - 1) as real * v + v;
    }
  }

  // ---------------------------------------------------------------- what one thread adds up

  /** Chunk `i` of thread `t`. */
  function ChunkSum(n: nat, e: nat, t: nat, i: nat, p: nat -> real): real {
    Sum(e, (j: nat) => p(Index(n, e, t, i, j)))
  }

  function ThreadSum(n: nat, e: nat, c: nat, t: nat, p: nat -> real): real {
    Sum(c, (i: nat) => ChunkSum(n, e, t, i, p))
  }

  /** All threads' chunk `i` together are one contiguous stretch. */
  lemma ChunkRow(n: nat, e: nat, i: nat, p: nat -> real, f: nat -> real)
    requires forall y: nat :: f(y) == p(i * (n * e) + y)
    ensures Sum(n, (t: nat) => ChunkSum(n, e, t, i, p)) == Sum(n * e, f)
  {
    forall t: nat | t < n ensures ChunkSum(n, e, t, i, p) == Sum(e, (v: nat) => f(t * e + v)) {
      forall v: nat ensures p(Index(n, e, t, i, v)) == f(t * e + v) {
        assert Index(n, e, t, i, v) == i * (n * e) + (t * e + v);
      }
      SumSame(e, (j: nat) => p(Index(n, e, t, i, j)), (v: nat) => f(t * e + v));
    }
    SumFlatten(n, e, f, (t: nat) => ChunkSum(n, e, t, i, p));
  }

  /** Summing thread by thread is summing chunk by chunk. */
  lemma {:induction false} ThreadsByChunk(n: nat, e: nat, c: nat, p: nat -> real, row: nat -> real)
    requires forall i: nat :: i < c ==> row(i) == Sum(n, (t: nat) => ChunkSum(n, e, t, i, p))
    ensures Sum(n, (t: nat) => ThreadSum(n, e, c, t, p)) == Sum(c, row)
  {
    if c == 0 {
      SumZero(n, (t: nat) => ThreadSum(n, e, c, t, p));
    } else {
      ThreadsByChunk(n, e, c - 1, p, row);
      SumAdd(n, (t: nat) => ThreadSum(n, e, c - 1, t, p), (t: nat) => ChunkSum(n, e, t, c - 1, p),
             (t: nat) => ThreadSum(n, e, c, t, p));
      assert row(c - 1) == Sum(n, (t: nat) => ChunkSum(n, e, t, c - 1, p));
    }
  }

  /** All threads together add up every element exactly once, although each visits strided chunks. */
  lemma ThreadsSumEverything(n: nat, e: nat, c: nat, p: nat -> real)
    ensures Sum(n, (t: nat) => ThreadSum(n, e, c, t, p)) == Sum(c * (n * e), p)
  {
    var row := (i: nat) => Sum(n, (t: nat) => ChunkSum(n, e, t, i, p));
    ThreadsByChunk(n, e, c, p, row);
    forall i: nat | i < c ensures row(i) == Sum(n * e, (y: nat) => p(i * (n * e) + y)) {
      ChunkRow(n, e, i, p, (y: nat) => p(i * (n * e) + y));
    }
    SumFlatten(c, n * e, p, row);
  }

  // ---------------------------------------------------------------- tree reduction

  predicate PowerOfTwo(n: nat) { n == 1 || (n > 1 && n % 2 == 0 && PowerOfTwo(n / 2)) }

  lemma LaunchableBlockSizes()
    ensures PowerOfTwo(512) && PowerOfTwo(1024)
  {
    assert PowerOfTwo(8) && PowerOfTwo(16);
    assert PowerOfTwo(32) && PowerOfTwo(64);
    assert PowerOfTwo(128) && PowerOfTwo(256);
  }

  /** Slot `s` of `n` finds its way into the first slot when only `active` threads take part: the thread that folds
      it away at its own level is among them. */
  predicate Counted(s: nat, n: nat, active: nat)
    requires PowerOfTwo(n) && s < n
  {
    if n == 1 then true else if s >= n / 2 then s - n / 2 < active else Counted(s, n / 2, active)
  }

  /** The entries that are counted, zeros elsewhere. */
  function CountedEntries(it: seq<real>, n: nat, active: nat): nat -> real
    requires PowerOfTwo(n)
  {
    (i: nat) => if i < n && Counted(i, n, active) then Entry(it, i) else 0.0
  }

  lemma {:induction false} ActiveAreCounted(s: nat, n: nat, active: nat)
    requires PowerOfTwo(n) && s < n && s <= active && active > 0
    ensures Counted(s, n, active)
  {
    if n > 1 && s < n / 2 { ActiveAreCounted(s, n / 2, active); }
  }

  /** One level up, a slot of the lower half counts as before, and one of the upper half if a thread folds it. */
  lemma CountedOneLevelUp(half: nat, active: nat, t: nat)
    requires PowerOfTwo(half) && t < half
    ensures PowerOfTwo(2 * half)
    ensures Counted(t, 2 * half, active) == Counted(t, half, active)
    ensures Counted(half + t, 2 * half, active) == (t < active)
  {
    assert 2 * half / 2 == half;
  }

  /** What counts of a slot after folding counted in the slot itself or in the one folded onto it. */
  lemma SlotAfterFold(was: seq<real>, now: seq<real>, half: nat, active: nat, t: nat)
    requires PowerOfTwo(half) && 2 * half <= |was| == |now| && active > 0 && t < half
    requires now[t] == if t < active then was[t] + was[t + half] else was[t]
    ensures PowerOfTwo(2 * half)
    ensures CountedEntries(now, half, active)(t) ==
            CountedEntries(was, 2 * half, active)(t) + CountedEntries(was, 2 * half, active)(half + t)
  {
    CountedOneLevelUp(half, active, t);
    if t < active { ActiveAreCounted(t, half, active); }
  }

  /** Folding the upper half onto the lower half, as far as there are threads for it, keeps the sum of what counts. */
  lemma HalvingKeepsSum(was: seq<real>, now: seq<real>, half: nat, active: nat)
    requires PowerOfTwo(half) && 2 * half <= |was| == |now| && active > 0
    requires forall t: nat :: t < half ==> now[t] == if t < active then was[t] + was[t + half] else was[t]
    ensures PowerOfTwo(2 * half)
    ensures Sum(half, CountedEntries(now, half, active)) == Sum(2 * half, CountedEntries(was, 2 * half, active))
  {
    var all := CountedEntries(was, 2 * half, active);
    var high := (i: nat) => all(half + i);
    forall t: nat | t < half ensures CountedEntries(now, half, active)(t) == all(t) + high(t) {
      SlotAfterFold(was, now, half, active, t);
    }
    SumAdd(half, all, high, CountedEntries(now, half, active));
    SumAppend(half, half, all, high);
  }

  /** The counted entries behind the first `active` slots. */
  function StaleEntries(it: seq<real>, active: nat): nat -> real
    requires PowerOfTwo(|it|)
  {
    (i: nat) => if active <= i < |it| && Counted(i, |it|, active) then Entry(it, i) else 0.0
  }

  /** What they contribute. */
  function StaleSum(it: seq<real>, active: nat): real
    requires PowerOfTwo(|it|)
  {
    Sum(|it|, StaleEntries(it, active))
  }

  /** The reduction adds up the first `active` slots and whatever stale slots are folded in. */
  lemma ReducedIsActivePlusStale(it: seq<real>, active: nat)
    requires PowerOfTwo(|it|) && 0 < active <= |it|
    ensures Sum(|it|, CountedEntries(it, |it|, active)) == Sum(active, Entries(it)) + StaleSum(it, active)
  {
    var n, all, stale := |it|, CountedEntries(it, |it|, active), StaleEntries(it, active);
    var mine := (i: nat) => if i < active then Entry(it, i) else 0.0;
    forall i: nat | i < n ensures all(i) == mine(i) + stale(i) {
      if i < active { ActiveAreCounted(i, n, active); }
    }
    SumAdd(n, mine, stale, all);
    SumOfFirst(n, mine, Entries(it), active);
  }

  lemma SumOfFirst(n: nat, f: nat -> real, g: nat -> real, k: nat)
    requires k <= n && forall i: nat :: i < n ==> f(i) == if i < k then g(i) else 0.0
    ensures Sum(n, f) == Sum(k, g)
  {
    var rest := (i: nat) => f(k + i);
    SumAppend(k, n - k, f, rest);
    SumZero(n - k, rest);
    SumSame(k, f, g);
  }

  /** Stale slots never matter if and only if there is a thread for every slot. */
  lemma StaleNeverMattersIff(n: nat, active: nat)
    requires PowerOfTwo(n) && active > 0
    ensures (forall it: seq<real> :: |it| == n ==> StaleSum(it, active) == 0.0) <==> active >= n
  {
    if active >= n {
      forall it: seq<real> | |it| == n ensures StaleSum(it, active) == 0.0 { SumZero(n, StaleEntries(it, active)); }
    } else {
      OneStaleSlot(n, active);
    }
  }

  lemma {:induction false} SumOfOne(n: nat, f: nat -> real, k: nat)
    requires k < n && forall i: nat :: i < n && i != k ==> f(i) == 0.0
    ensures Sum(n, f) == f(k)
  {
    if k == n - 1 { SumZero(n - 1, f); } else { SumOfOne(n - 1, f, k); }
  }

  lemma OneStaleSlot(n: nat, active: nat)
    requires PowerOfTwo(n) && 0 < active < n
    ensures exists it: seq<real> :: |it| == n && StaleSum(it, active) == 1.0
  {
    var it := seq(n, i => if i == active then 1.0 else 0.0);
    ActiveAreCounted(active, n, active);
    assert Entry(it, active) == it[active] == 1.0;
    assert forall i: nat :: i < n && i != active ==> Entry(it, i) == 0.0;
    SumOfOne(n, StaleEntries(it, active), active);
    assert StaleSum(it, active) == 1.0;
  }
}
