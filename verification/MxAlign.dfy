/** getAlignedFloat: moving MX data so that every element of a matrix meets the scale of its own block. */
module MxAlign {
  import opened IndexMath

  // ---------------------------------------------------------------- the index map

  /** Position `p` of a matrix of `rows` rows stored column by column; each scale covers `e` elements along a row. */
  function ScaleId(rows: nat, e: nat, p: nat): nat
    requires rows > 0 && e > 0
  {
    FloorDiv(p, rows);
    FloorDiv(p / rows, e);
    (p / rows / e) * rows + p % rows
  }

  function DataId(rows: nat, e: nat, p: nat): nat
    requires rows > 0 && e > 0
  {
    ScaleId(rows, e, p) * e + p / rows % e
  }

  /** The position that ends up with datum `d`. */
  function PositionOf(rows: nat, e: nat, d: nat): nat
    requires rows > 0 && e > 0
  {
    var s: nat := d / e;
    var k: nat := s / rows * e + d % e;
    k * rows + s % rows
  }

  /** Every datum is read under the scale it was generated with: consecutive blocks of `e` data share one. */
  lemma DataMeetsItsScale(rows: nat, e: nat, p: nat)
    requires rows > 0 && e > 0
    ensures DataId(rows, e, p) / e == ScaleId(rows, e, p)
    ensures DataId(rows, e, p) % e == p / rows % e
  {
    DivMod(ScaleId(rows, e, p), p / rows % e, e);
  }

  /** The element in row `m` and depth `k` uses the scale of its row and block, and there the datum of its place in the
      block. */
  lemma PositionMeans(rows: nat, e: nat, m: nat, k: nat)
    requires m < rows && e > 0
    ensures ScaleId(rows, e, k * rows + m) == (k / e) * rows + m
    ensures DataId(rows, e, k * rows + m) == ((k / e) * rows + m) * e + k % e
  {
    DivMod(k, m, rows);
  }

  /** In the first block, as the source's comment works out for an example: row `m` begins with datum m * e, and every
      further column takes the next one. */
  lemma FirstBlockMeans(rows: nat, e: nat, m: nat, k: nat)
    requires m < rows && k < e
    ensures DataId(rows, e, k * rows + m) == m * e + k && ScaleId(rows, e, k * rows + m) == m
  {
    PositionMeans(rows, e, m, k);
    DivMod(0, k, e);
  }

  lemma PositionUndoesDataId(rows: nat, e: nat, p: nat)
    requires rows > 0 && e > 0
    ensures PositionOf(rows, e, DataId(rows, e, p)) == p
  {
    var k, r := p / rows, p % rows;
    DataMeetsItsScale(rows, e, p);
    DivMod(k / e, r, rows);
    assert k == k / e * e + k % e;
    assert p == k * rows + r;
  }

  lemma DataIdUndoesPosition(rows: nat, e: nat, d: nat)
    requires rows > 0 && e > 0
    ensures DataId(rows, e, PositionOf(rows, e, d)) == d
  {
    var s, o := d / e, d % e;
    var kb, r := s / rows, s % rows;
    DivMod(kb * e + o, r, rows);
    DivMod(kb, o, e);
    assert s == kb * rows + r;
    assert d == s * e + o;
  }

  lemma InsideGoesInside(rows: nat, e: nat, blocks: nat, p: nat)
    requires rows > 0 && e > 0 && p < (blocks * e) * rows
    ensures ScaleId(rows, e, p) < blocks * rows && DataId(rows, e, p) < (blocks * rows) * e
  {
    FlatSplit(p, rows, blocks * e);
    FlatSplit(p / rows, e, blocks);
    FlatBound(p / rows / e, p % rows, rows, blocks);
    FlatBound(ScaleId(rows, e, p), p / rows % e, e, blocks * rows);
  }

  lemma InsideComesFromInside(rows: nat, e: nat, blocks: nat, p: nat)
    requires rows > 0 && e > 0 && ScaleId(rows, e, p) < blocks * rows
    ensures p < (blocks * e) * rows
  {
    var k, r := p / rows, p % rows;
    DivMod(k / e, r, rows);
    FlatSplit(ScaleId(rows, e, p), rows, blocks);
    FlatBound(k / e, k % e, e, blocks);
    FlatBound(k, r, rows, blocks * e);
    assert k == k / e * e + k % e && p == k * rows + r;
  }

  lemma SwapFactors(a: nat, b: nat, c: nat)
    ensures (a * b) * c == (a * c) * b
  {
  }

  /** With whole blocks, positions inside the matrix map to data inside it, and back. */
  lemma WholeBlocksStayInside(rows: nat, e: nat, blocks: nat, p: nat)
    requires rows > 0 && e > 0
    ensures (blocks * e) * rows == (blocks * rows) * e
    ensures p < (blocks * e) * rows <==> DataId(rows, e, p) < (blocks * rows) * e
    ensures p < (blocks * e) * rows <==> ScaleId(rows, e, p) < blocks * rows
  {
    if p < (blocks * e) * rows { InsideGoesInside(rows, e, blocks, p); }
    if DataId(rows, e, p) < (blocks * rows) * e {
      FlatSplit(DataId(rows, e, p), e, blocks * rows);
      DataMeetsItsScale(rows, e, p);
    }
    if ScaleId(rows, e, p) < blocks * rows { InsideComesFromInside(rows, e, blocks, p); }
    SwapFactors(blocks, e, rows);
  }

  ghost predicate ReadsInRange(rows: nat, e: nat, k: nat)
    requires rows > 0 && e > 0
  {
    forall p: nat :: p < k * rows ==> DataId(rows, e, p) < k * rows
  }

  lemma WholeBlocksReadInRange(rows: nat, e: nat, blocks: nat)
    requires rows > 0 && e > 0
    ensures ReadsInRange(rows, e, blocks * e)
  {
    forall p: nat | p < (blocks * e) * rows ensures DataId(rows, e, p) < (blocks * e) * rows {
      WholeBlocksStayInside(rows, e, blocks, p);
    }
  }

  lemma SingleRowIsIdentity(e: nat, p: nat)
    requires e > 0
    ensures DataId(1, e, p) == p
  {
    assert p == p / e * e + p % e;
  }

  lemma SingleRowReadsInRange(e: nat, k: nat)
    requires e > 0
    ensures ReadsInRange(1, e, k)
  {
    forall p: nat ensures DataId(1, e, p) == p { SingleRowIsIdentity(e, p); }
  }

  lemma LastDatum(rows: nat, e: nat, q: nat, rem: nat)
    requires rows >= 2 && 0 < rem < e
    ensures var k := q * e + rem;
            var p := (k - 1) * rows + (rows - 1);
            p < k * rows && DataId(rows, e, p) == (q * rows + (rows - 1)) * e + (rem - 1)
  {
    var k := q * e + rem;
    FlatBound(k - 1, rows - 1, rows, k);
    DivMod(k - 1, rows - 1, rows);
    DivMod(q, rem - 1, e);
  }

  lemma OverrunOfOneBlock(rows: nat, e: nat, rem: nat)
    requires rows >= 2 && 0 < rem < e
    ensures (rows - 1) * e + rem - 1 >= rem * rows
  {
    MulMono(rem + 1, e, rows - 1);
    assert (rem + 1) * (rows - 1) == rem * rows - rem + rows - 1;
  }

  lemma Overrun(rows: nat, e: nat, q: nat, rem: nat)
    requires rows >= 2 && 0 < rem < e
    ensures (q * rows + (rows - 1)) * e + (rem - 1) >= (q * e + rem) * rows
  {
    OverrunOfOneBlock(rows, e, rem);
    var a, b := q * rows, rows - 1;
    assert (a + b) * e == a * e + b * e;
    assert (q * e + rem) * rows == q * e * rows + rem * rows;
    assert a * e == q * e * rows;
  }

  /** In a partial last block the last row's data lie beyond the end of the matrix. */
  lemma PartialBlockOverruns(rows: nat, e: nat, k: nat)
    requires rows >= 2 && e > 0 && k % e != 0
    ensures !ReadsInRange(rows, e, k)
  {
    var q, rem := k / e, k % e;
    assert k == q * e + rem;
    LastDatum(rows, e, q, rem);
    Overrun(rows, e, q, rem);
  }

  /** The reads are in range for every position exactly when the block length divides the depth, or there is
      just one row. */
  lemma ReadsInRangeIff(rows: nat, e: nat, k: nat)
    requires rows > 0 && e > 0
    ensures ReadsInRange(rows, e, k) <==> (k % e == 0 || rows == 1)
  {
    if rows == 1 {
      SingleRowReadsInRange(e, k);
    } else if k % e == 0 {
      assert k == k / e * e;
      WholeBlocksReadInRange(rows, e, k / e);
    } else {
      PartialBlockOverruns(rows, e, k);
    }
  }

  // ---------------------------------------------------------------- rearrangements

  /** `p` maps the indices of a sequence of length `n` onto each other. */
  ghost predicate Permutation(p: seq<nat>) {
    (forall i :: 0 <= i < |p| ==> p[i] < |p|) && forall i, j :: 0 <= i < j < |p| ==> p[i] != p[j]
  }

  ghost predicate Picks<T>(s: seq<T>, p: seq<nat>, t: seq<T>) {
    |s| == |p| == |t| && (forall i :: 0 <= i < |p| ==> p[i] < |s|) && forall i :: 0 <= i < |t| ==> t[i] == s[p[i]]
  }

  function Drop<T>(s: seq<T>, j: nat): seq<T>
    requires j < |s|
  {
    s[..j] + s[j + 1..]
  }

  /** The permutation left when the last index and its image `j` are removed. */
  function Squeeze(p: seq<nat>, j: nat): (r: seq<nat>)
    requires p != []
    ensures |r| == |p| - 1
  {
    seq(|p| - 1, i requires 0 <= i < |p| - 1 => if p[i] > j then p[i] - 1 else p[i])
  }

  lemma SqueezePermutes(p: seq<nat>)
    requires p != [] && Permutation(p)
    ensures Permutation(Squeeze(p, p[|p| - 1]))
  {
    var n := |p| - 1;
    var r := Squeeze(p, p[n]);
    forall i | 0 <= i < n ensures r[i] < n { assert p[i] != p[n]; }
    forall i, k | 0 <= i < k < n ensures r[i] != r[k] { assert p[i] != p[k] && p[i] != p[n] && p[k] != p[n]; }
  }

  lemma DropTakesOne<T>(s: seq<T>, j: nat)
    requires j < |s|
    ensures multiset(s) == multiset(Drop(s, j)) + multiset{s[j]}
  {
    assert s == s[..j] + [s[j]] + s[j + 1..];
  }

  /** Reading a sequence through a permutation rearranges it. */
  lemma {:induction false} PermutedIsRearranged<T>(s: seq<T>, p: seq<nat>, t: seq<T>)
    requires Permutation(p) && Picks(s, p, t)
    ensures multiset(s) == multiset(t)
    decreases |p|
  {
    if p != [] {
      var n := |p| - 1;
      var j := p[n];
      var s', p', t' := Drop(s, j), Squeeze(p, j), t[..n];
      SqueezePermutes(p);
      forall i | 0 <= i < n ensures t'[i] == s'[p'[i]] { assert p[i] != p[n]; }
      PermutedIsRearranged(s', p', t');
      DropTakesOne(s, j);
      assert t == t' + [s[j]];
    }
  }

  // ---------------------------------------------------------------- the loop

  ghost function DataIds(rows: nat, e: nat, n: nat): (r: seq<nat>)
    requires rows > 0 && e > 0
    ensures |r| == n && forall p :: 0 <= p < n ==> r[p] == DataId(rows, e, p)
  {
    seq(n, p requires 0 <= p < n => DataId(rows, e, p))
  }

  lemma DataIdsPermute(rows: nat, e: nat, k: nat)
    requires rows > 0 && e > 0 && k % e == 0
    ensures Permutation(DataIds(rows, e, k * rows))
    ensures forall p :: 0 <= p < k * rows ==> ScaleId(rows, e, p) < k * rows / e
  {
    var ids := DataIds(rows, e, k * rows);
    ScaleCount(rows, e, k);
    assert k == k / e * e;
    forall p | 0 <= p < |ids| ensures ids[p] < |ids| && ScaleId(rows, e, p) < k * rows / e {
      WholeBlocksStayInside(rows, e, k / e, p);
    }
    forall p, p' | 0 <= p < p' < |ids| ensures ids[p] != ids[p'] {
      PositionUndoesDataId(rows, e, p);
      PositionUndoesDataId(rows, e, p');
    }
  }

  /** The constructor's scale size, (m * k) / 32 for the 32 by 1 and 1 by 32 blocks, is the number of blocks. */
  lemma ScaleCount(rows: nat, e: nat, k: nat)
    requires e > 0 && k % e == 0
    ensures k * rows / e == k / e * rows
  {
    assert k == k / e * e;
    assert k * rows == (k / e * rows) * e + 0;
    DivMod(k / e * rows, 0, e);
  }

  /** Blocks needed along a row of depth `k`, a partial one included. */
  function BlocksFor(k: nat, e: nat): nat
    requires e > 0
  {
    (k + e - 1) / e
  }

  lemma WholeBlocks(k: nat, e: nat)
    requires e > 0 && k % e == 0
    ensures BlocksFor(k, e) == k / e
  {
    FloorDiv(k, e);
    DivMod(k / e, e - 1, e);
  }

  lemma SingleRowPermutes(e: nat, k: nat)
    requires e > 0
    ensures Permutation(DataIds(1, e, k * 1))
    ensures forall p :: 0 <= p < k * 1 ==> ScaleId(1, e, p) < BlocksFor(k, e) * 1
  {
    forall p | 0 <= p < k ensures DataId(1, e, p) == p && ScaleId(1, e, p) < BlocksFor(k, e) {
      SingleRowIsIdentity(e, p);
      FloorDiv(p, e);
      FloorDiv(k + e - 1, e);
      if BlocksFor(k, e) <= p / e { MulMono(BlocksFor(k, e), p / e, e); }
    }
  }

  /** The map permutes, and stays within the scales of all blocks, wherever ReadsInRangeIff allows it. */
  lemma AlignmentPermutes(rows: nat, e: nat, k: nat)
    requires rows > 0 && e > 0 && (k % e == 0 || rows == 1)
    ensures Permutation(DataIds(rows, e, k * rows))
    ensures forall p :: 0 <= p < k * rows ==> ScaleId(rows, e, p) < BlocksFor(k, e) * rows
  {
    if k % e == 0 {
      DataIdsPermute(rows, e, k);
      WholeBlocks(k, e);
      ScaleCount(rows, e, k);
    } else {
      SingleRowPermutes(e, k);
    }
  }

  /** getAlignedFloat for matrix A (rows = M) and for matrix B (rows = N) of depth `k`. `value` is the generator's
      conversion of one datum under one scale. The loop's iterations may run in any order. */
  method GetAlignedFloat<T>(data: seq<T>, scales: seq<T>, rows: nat, k: nat, e: nat, value: (T, T) -> real)
    returns (aligned: seq<T>, ref: seq<real>)
    requires rows > 0 && e > 0 && (k % e == 0 || rows == 1)
    requires |data| == k * rows && |scales| >= BlocksFor(k, e) * rows
    ensures |aligned| == |ref| == |data|
    ensures Picks(data, DataIds(rows, e, |data|), aligned)
    ensures forall p :: 0 <= p < |data| ==>
              ScaleId(rows, e, p) < |scales| && ref[p] == value(scales[ScaleId(rows, e, p)], aligned[p])
    ensures multiset(aligned) == multiset(data)
  {
    AlignmentPermutes(rows, e, k);
    ghost var ids := DataIds(rows, e, |data|);
    aligned, ref := AlignLoop(data, scales, (p: nat) => DataId(rows, e, p), (p: nat) => ScaleId(rows, e, p), value);
    PermutedIsRearranged(data, ids, aligned);
  }

  /** The loop itself, for whatever data and scale indices each position uses. */
  method AlignLoop<T>(data: seq<T>, scales: seq<T>, dataId: nat -> nat, scaleId: nat -> nat, value: (T, T) -> real)
    returns (aligned: seq<T>, ref: seq<real>)
    requires forall p: nat :: p < |data| ==> dataId(p) < |data| && scaleId(p) < |scales|
    ensures |aligned| == |ref| == |data|
    ensures forall p: nat :: p < |data| ==>
              aligned[p] == data[dataId(p)] && ref[p] == value(scales[scaleId(p)], aligned[p])
  {
    aligned, ref := data, seq(|data|, _ => 0.0);
    var waiting := Below(|data|);
    while waiting != {}
      invariant |aligned| == |ref| == |data| && forall p :: p in waiting ==> 0 <= p < |data|
      invariant forall p: nat :: p < |data| && p !in waiting ==>
                  aligned[p] == data[dataId(p)] && ref[p] == value(scales[scaleId(p)], aligned[p])
      decreases |waiting|
    {
      var p :| p in waiting;
      aligned := aligned[p := data[dataId(p)]];
      ref := ref[p := value(scales[scaleId(p)], data[dataId(p)])];
      waiting := waiting - {p};
    }
  }
}
