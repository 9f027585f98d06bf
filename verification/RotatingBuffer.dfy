/** The rotating device buffers of the hipBLASLt path: how many copies there are, how they are filled, and which
    copy each gemm call uses. */
module RotatingBuffer {
  import opened IndexMath

  const MIB: nat := 0x10_0000

  // ---------------------------------------------------------------- how many copies

  /** rotating * 1024 * 1024 in the 32-bit type of `rotating`. */
  function RotatingBytes(rotating: nat): nat { rotating * MIB % WORD }

  /** The quotient rounded up. */
  function CeilDiv(x: nat, d: nat): nat
    requires d > 0
  {
    (x + d - 1) / d
  }

  /** block_count; `total` is the size of one set of matrices and scales, in bytes. */
  function BlockCount(rotating: nat, total: nat, hotCalls: nat): nat
    requires total > 0
  {
    var wanted := CeilDiv(RotatingBytes(rotating), total);
    var capped := if hotCalls < wanted then hotCalls else wanted;
    if 1 < capped then capped else 1
  }

  /** At least one copy, and never more copies than there are calls to use them. */
  lemma BlockCountRange(rotating: nat, total: nat, hotCalls: nat)
    requires total > 0
    ensures 1 <= BlockCount(rotating, total, hotCalls) <= if hotCalls > 1 then hotCalls else 1
  {
  }

  lemma CeilDivIsLeast(x: nat, d: nat)
    requires d > 0
    ensures CeilDiv(x, d) * d >= x
    ensures CeilDiv(x, d) > 0 ==> (CeilDiv(x, d) - 1) * d < x
  {
    var q := (x + d - 1) / d;
    assert x + d - 1 == q * d + (x + d - 1) % d;
    assert (q - 1) * d == q * d - d;
  }

  /** The copies together hold the requested rotating size, or there is one for every timed call. */
  predicate Covers(n: nat, rotating: nat, total: nat, hotCalls: nat)
    requires total > 0
  {
    n * total >= rotating * MIB || n >= hotCalls
  }

  /** One copy fewer would not have covered what is left of the request after the wrap-around. */
  lemma NoCopyTooMany(rotating: nat, total: nat, hotCalls: nat)
    requires total > 0
    ensures var n := BlockCount(rotating, total, hotCalls);
            n > 1 ==> (n - 1) * total < RotatingBytes(rotating) <= rotating * MIB
  {
    var bytes := RotatingBytes(rotating);
    CeilDivIsLeast(bytes, total);
    var n := BlockCount(rotating, total, hotCalls);
    if n > 1 { MulMono(n - 1, CeilDiv(bytes, total) - 1, total); }
  }

  lemma SmallRequestIsCovered(rotating: nat, total: nat, hotCalls: nat)
    requires total > 0 && rotating < 4096
    ensures Covers(BlockCount(rotating, total, hotCalls), rotating, total, hotCalls)
  {
    var bytes := rotating * MIB;
    CeilDivIsLeast(bytes, total);
    var n, wanted := BlockCount(rotating, total, hotCalls), CeilDiv(bytes, total);
    if n < hotCalls { MulMono(wanted, n, total); }
  }

  /** A request that wraps gets fewer bytes than one copy short of the request. */
  lemma WrappedRequestFallsShort(rotating: nat, total: nat)
    requires total > 0 && rotating >= 4096 && total < rotating * MIB
    ensures var n := CeilDiv(RotatingBytes(rotating), total);
            n * total < rotating * MIB
  {
    var bytes, asked := RotatingBytes(rotating), rotating * MIB;
    assert asked >= WORD + bytes;
    var n := CeilDiv(bytes, total);
    CeilDivIsLeast(bytes, total);
    var below := (n - 1) * total;
    assert n * total == below + total;
    if total >= WORD && n > 1 { MulMono(1, n - 1, total); }
  }

  /** Exactly when the copies cover the request, for every request: it stays below 4 GiB, one copy is as large as it,
      there is at most one timed call, or the bytes left after the wrap-around already ask for a copy per timed
      call. */
  lemma CopiesCoverRequestIff(rotating: nat, total: nat, hotCalls: nat)
    requires total > 0
    ensures Covers(BlockCount(rotating, total, hotCalls), rotating, total, hotCalls) <==>
            rotating < 4096 || total >= rotating * MIB || hotCalls <= 1 ||
            hotCalls <= CeilDiv(rotating % 4096 * MIB, total)
  {
    RequestWrapsAt4GiB(rotating, total, hotCalls);
    var n := BlockCount(rotating, total, hotCalls);
    if rotating < 4096 {
      SmallRequestIsCovered(rotating, total, hotCalls);
    } else if total >= rotating * MIB {
      MulMono(1, n, total);
    } else {
      WrappedRequestFallsShort(rotating, total);
    }
  }

  /** A request of exactly 4 GiB is served by a single copy, however small. */
  lemma FourGiBAreNotCovered()
    ensures BlockCount(4096, 1, 2) == 1 && !Covers(1, 4096, 1, 2)
  {
    RequestWrapsAt4GiB(4096, 1, 2);
  }

  /** The byte count is taken modulo 4 GiB: only the low twelve bits of the requested number of MiB count. */
  lemma RequestWrapsAt4GiB(rotating: nat, total: nat, hotCalls: nat)
    requires total > 0
    ensures RotatingBytes(rotating) == rotating % 4096 * MIB
    ensures BlockCount(rotating, total, hotCalls) == BlockCount(rotating % 4096, total, hotCalls)
    ensures rotating % 4096 == 0 ==> BlockCount(rotating, total, hotCalls) == 1
  {
    var q, r := rotating / 4096, rotating % 4096;
    assert rotating * MIB == q * WORD + r * MIB;
    DivMod(q, r * MIB, WORD);
    assert RotatingBytes(r) == r * MIB;
    if r == 0 { assert CeilDiv(0, total) == 0; }
  }

  // ---------------------------------------------------------------- filling the copies

  /** Copy number `i` of a buffer of copies of `size` bytes. */
  function Slice<T>(d: seq<T>, size: nat, i: nat): seq<T>
    requires i * size + size <= |d|
  {
    d[i * size..i * size + size]
  }

  /** Every one of the first `n` copies equals the host matrix. */
  ghost predicate Copied<T>(d: seq<T>, h: seq<T>, n: nat) {
    forall i: nat :: i < n ==> i * |h| + |h| <= |d| && Slice(d, |h|, i) == h
  }

  /** A device buffer, with a record of what the runtime answered to the copies into it. */
  class Device<T> {
    const memory: array<T>
    ghost var answers: seq<bool>

    constructor (memory: array<T>)
      ensures this.memory == memory && answers == []
    {
      this.memory, answers := memory, [];
    }

    /** hipMemcpy of a whole host buffer to an offset; it may fail and then leaves the buffer as it was. */
    method Memcpy(offset: nat, h: seq<T>) returns (ok: bool)
      requires offset + |h| <= memory.Length
      modifies this`answers, memory
      ensures answers == old(answers) + [ok]
      ensures ok ==> memory[..] == old(memory[..])[..offset] + h + old(memory[..])[offset + |h|..]
      ensures !ok ==> memory[..] == old(memory[..])
    {
      ok := *;
      answers := answers + [ok];
      if ok {
        forall j | 0 <= j < |h| { memory[offset + j] := h[j]; }
      }
    }
  }

  lemma CommonPrefix<T>(x: seq<T>, y: seq<T>, lo: nat, hi: nat, k: nat)
    requires lo <= hi <= k <= |x| && k <= |y| && x[..k] == y[..k]
    ensures x[lo..hi] == y[lo..hi]
  {
    assert x[lo..hi] == x[..k][lo..hi] && y[lo..hi] == y[..k][lo..hi];
  }

  lemma CopyBlock<T>(was: seq<T>, now: seq<T>, h: seq<T>, n: nat)
    requires Copied(was, h, n) && n * |h| + |h| <= |was|
    requires now == was[..n * |h|] + h + was[n * |h| + |h|..]
    ensures Copied(now, h, n + 1)
  {
    var start := n * |h|;
    assert now[..start] == was[..start] && now[start..start + |h|] == h;
    forall i: nat | i < n + 1 ensures i * |h| + |h| <= |now| && Slice(now, |h|, i) == h {
      if i < n {
        MulMono(i + 1, n, |h|);
        assert (i + 1) * |h| == i * |h| + |h|;
        CommonPrefix(was, now, i * |h|, i * |h| + |h|, start);
        assert Slice(was, |h|, i) == h;
      }
    }
  }

  lemma CopyFits(i: nat, blockCount: nat, size: nat)
    requires i < blockCount
    ensures i * size + size <= size * blockCount && (i + 1) * size == i * size + size
  {
    MulMono(i + 1, blockCount, size);
    assert (i + 1) * size == i * size + size && blockCount * size == size * blockCount;
  }

  /** The answers to `n` copies that all went well. */
  ghost function AllWell(n: nat): (r: seq<bool>)
    ensures |r| == n && forall i :: 0 <= i < n ==> r[i]
  {
    seq(n, _ => true)
  }

  /** The part of copy_data_to_gpu that concerns one matrix: copy after copy is filled until one fails. All are filled
      if and only if none fails; otherwise the failed one is the last that was tried. */
  method CopyToCopies<T>(d: Device<T>, h: seq<T>, blockCount: nat) returns (ok: bool, ghost filled: nat)
    requires d.memory.Length == |h| * blockCount
    modifies d`answers, d.memory
    ensures Copied(d.memory[..], h, filled) && filled <= blockCount && (ok <==> filled == blockCount)
    ensures d.answers == old(d.answers) + AllWell(filled) + if ok then [] else [false]
  {
    ghost var before := d.answers;
    filled := 0;
    for i := 0 to blockCount
      invariant filled == i && Copied(d.memory[..], h, i) && d.answers == before + AllWell(i)
    {
      CopyFits(i, blockCount, |h|);
      ghost var was := d.memory[..];
      ok := d.Memcpy(i * |h|, h);
      if !ok { return; }
      CopyBlock(was, d.memory[..], h, i);
      filled := filled + 1;
      assert AllWell(filled) == AllWell(i) + [true];
    }
    ok := true;
  }

  // ---------------------------------------------------------------- which copy a call uses

  /** Start of the slice gemm call `i` is given. */
  function CallOffset(i: nat, blockCount: nat, size: nat): nat
    requires blockCount > 0
  {
    i % blockCount * size
  }

  /** Every call, however many, gets a slice inside the allocation that holds the host matrix. */
  lemma EveryCallSeesHostMatrix<T>(d: seq<T>, h: seq<T>, blockCount: nat, i: nat)
    requires blockCount > 0 && |d| == |h| * blockCount && Copied(d, h, blockCount)
    ensures CallOffset(i, blockCount, |h|) + |h| <= |d|
    ensures d[CallOffset(i, blockCount, |h|)..CallOffset(i, blockCount, |h|) + |h|] == h
  {
    var k := i % blockCount;
    assert k * |h| + |h| <= |d| && Slice(d, |h|, k) == h;
  }

  lemma DifferentResidues(i: nat, j: nat, n: nat)
    requires i < j < i + n
    ensures i % n != j % n
  {
    var k := j / n - i / n;
    assert n * k == n * (j / n) - n * (i / n);
    assert j - i == n * k + (j % n - i % n);
    assert k >= 1 ==> n * k >= n;
    assert k <= 0 ==> n * k <= 0;
  }

  /** Any `blockCount` consecutive calls use pairwise disjoint slices. */
  lemma ConsecutiveCallsAreDisjoint(i: nat, j: nat, blockCount: nat, size: nat)
    requires i < j < i + blockCount
    ensures var x, y := CallOffset(i, blockCount, size), CallOffset(j, blockCount, size);
            x + size <= y || y + size <= x
  {
    DifferentResidues(i, j, blockCount);
    var k, l := i % blockCount, j % blockCount;
    if k < l {
      MulMono(k + 1, l, size);
      assert (k + 1) * size == k * size + size;
    } else {
      MulMono(l + 1, k, size);
      assert (l + 1) * size == l * size + size;
    }
  }

  /** A copy is reused exactly after `blockCount` calls. */
  lemma CopiesRepeat(i: nat, blockCount: nat, size: nat)
    requires blockCount > 0
    ensures CallOffset(i + blockCount, blockCount, size) == CallOffset(i, blockCount, size)
  {
    DivMod(i / blockCount + 1, i % blockCount, blockCount);
    assert i + blockCount == (i / blockCount + 1) * blockCount + i % blockCount by {
      assert i == i / blockCount * blockCount + i % blockCount;
      assert (i / blockCount + 1) * blockCount == i / blockCount * blockCount + blockCount;
    }
  }
}
