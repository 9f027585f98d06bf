/** Integer arithmetic: 32-bit words, and division facts about flattened (row, column) positions. */
module IndexMath {

  /** One more than the largest value of a 32-bit unsigned integer. */
  const WORD: nat := 0x1_0000_0000

  function Min(a: int, b: int): int { if a < b then a else b }

  function Max(a: int, b: int): int { if a < b then b else a }

  lemma DivMod(q: int, r: int, d: int)
    requires 0 <= r < d
    ensures (q * d + r) / d == q && (q * d + r) % d == r
  {
    var x := q * d + r;
    var k := q - x / d;
    assert x == d * (x / d) + x % d;
    assert d * k == x % d - r by { assert d * k == d * q - d * (x / d); }
    assert k >= 1 ==> d * k >= d;
    assert k <= -1 ==> d * k <= -d;
  }

  lemma MulMono(a: int, b: int, d: int)
    requires a <= b && 0 <= d
    ensures a * d <= b * d
  {
  }

  /** Row `q` of length `d`, column `r`: the flattened position stays inside `count` rows. */
  lemma FlatBound(q: int, r: int, d: int, count: int)
    requires 0 <= q < count && 0 <= r < d
    ensures 0 <= q * d + r < count * d
  {
    MulMono(q + 1, count, d);
    MulMono(0, q, d);
    assert (q + 1) * d == q * d + d;
  }

  lemma FlatSplit(x: int, d: int, count: int)
    requires 0 < d && 0 <= x < count * d
    ensures 0 <= x / d < count && 0 <= x % d < d && x == (x / d) * d + x % d
  {
    if x / d >= count { MulMono(count, x / d, d); }
    if x / d < 0 { MulMono(x / d, -1, d); }
  }

  lemma FloorDiv(x: nat, d: nat)
    requires d > 0
    ensures 0 <= x / d && 0 <= x % d < d && x == (x / d) * d + x % d
  {
    MulMono(1, d, x + 1);
    FlatSplit(x, d, x + 1);
  }

  /** The indices below `n`: the threads or iterations of a parallel loop that have not run yet. */
  function Below(n: nat): (r: set<nat>)
    ensures forall i: nat :: i in r <==> i < n
  {
    if n == 0 then {} else Below(n - 1) + {n - 1}
  }
}
