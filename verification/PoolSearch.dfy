/** What the runtime answered while Allocate was looking for buffers, read as the record of a search: pool by pool, each
    one large enough is asked once, in order, until a pair of buffers is found. */
module PoolSearch {

  /** The runtime's answers: to a request for a buffer (0 when refused), and to a request for access to one. */
  datatype Answer =
    | Pool(pool: nat, size: nat, ok: bool, buffer: nat)
    | Access(agent: nat, buffer: nat, ok: bool)

  /** The two ends of a transfer, and the size of its buffers. */
  datatype Ends = Ends(srcAgent: nat, srcIsGpu: bool, dstAgent: nat, dstIsGpu: bool, size: nat)

  /** An agent's pools and the largest buffer each can give. */
  datatype Pools = Pools(ids: seq<nat>, maxSizes: seq<nat>)

  ghost predicate Listed(ps: Pools) { |ps.ids| == |ps.maxSizes| }

  ghost function Refusal(pool: nat, size: nat): Answer { Pool(pool, size, false, 0) }

  ghost function AccessCount(e: Ends): nat { (if e.srcIsGpu then 1 else 0) + if e.dstIsGpu then 1 else 0 }

  // ---------------------------------------------------------------- destination pools, for one source buffer

  /** The destination pool gave buffer `p`, and then access was asked for: to it for a source GPU, and to the source
      buffer for a destination GPU. */
  ghost predicate Asked(t: seq<Answer>, pool: nat, src: nat, p: nat, e: Ends) {
    |t| == 1 + AccessCount(e) && t[0] == Pool(pool, e.size, true, p) &&
    (e.srcIsGpu ==> t[1] == Access(e.srcAgent, p, t[1].ok)) &&
    (e.dstIsGpu ==> t[|t| - 1] == Access(e.dstAgent, src, t[|t| - 1].ok))
  }

  /** The pool refused, or the last access asked for was denied. */
  ghost predicate Denied(t: seq<Answer>, pool: nat, src: nat, e: Ends) {
    t == [Refusal(pool, e.size)] || exists p :: Asked(t, pool, src, p, e) && !t[|t| - 1].ok
  }

  /** The answers of a search through the first `j` destination pools that found nothing: each one that is large enough
      was denied, the others were not asked. */
  ghost predicate NoneAdmitted(log: seq<Answer>, ps: Pools, src: nat, e: Ends, j: nat)
    requires Listed(ps) && j <= |ps.ids|
    decreases j
  {
    if j == 0 then log == []
    else if e.size > ps.maxSizes[j - 1] then NoneAdmitted(log, ps, src, e, j - 1)
    else exists cut: nat :: cut <= |log| && NoneAdmitted(log[..cut], ps, src, e, j - 1) &&
                            Denied(log[cut..], ps.ids[j - 1], src, e)
  }

  /** The answers of a search that ended at destination pool `j` with buffer `p`. */
  ghost predicate AdmittedAt(log: seq<Answer>, ps: Pools, src: nat, e: Ends, j: nat, p: nat)
    requires Listed(ps)
  {
    j < |ps.ids| && e.size <= ps.maxSizes[j] &&
    exists cut: nat :: cut < |log| && NoneAdmitted(log[..cut], ps, src, e, j) &&
                       Asked(log[cut..], ps.ids[j], src, p, e) && log[|log| - 1].ok
  }

  lemma Together<T>(a: seq<T>, b: seq<T>, c: seq<T>)
    ensures (a + b) + c == a + (b + c)
  {
  }

  lemma NextDenied(log: seq<Answer>, t: seq<Answer>, ps: Pools, src: nat, e: Ends, j: nat)
    requires Listed(ps) && j < |ps.ids| && e.size <= ps.maxSizes[j]
    requires NoneAdmitted(log, ps, src, e, j) && Denied(t, ps.ids[j], src, e)
    ensures NoneAdmitted(log + t, ps, src, e, j + 1)
  {
    var all, cut := log + t, |log|;
    assert all[..cut] == log && all[cut..] == t;
  }

  lemma NextAdmitted(log: seq<Answer>, t: seq<Answer>, ps: Pools, src: nat, e: Ends, j: nat, p: nat)
    requires Listed(ps) && j < |ps.ids| && e.size <= ps.maxSizes[j]
    requires NoneAdmitted(log, ps, src, e, j) && Asked(t, ps.ids[j], src, p, e) && t[|t| - 1].ok
    ensures AdmittedAt(log + t, ps, src, e, j, p)
  {
    var all, cut := log + t, |log|;
    assert all[..cut] == log && all[cut..] == t;
    assert all[|all| - 1] == t[|t| - 1];
  }

  // ---------------------------------------------------------------- source pools

  /** The source pool refused, or gave a buffer for which no destination pool admitted the transfer. */
  ghost predicate Fruitless(t: seq<Answer>, pool: nat, dsts: Pools, e: Ends)
    requires Listed(dsts)
  {
    t == [Refusal(pool, e.size)] ||
    exists src :: t != [] && t[0] == Pool(pool, e.size, true, src) && NoneAdmitted(t[1..], dsts, src, e, |dsts.ids|)
  }

  /** The answers of a search through the first `i` source pools that found nothing. */
  ghost predicate NoneUsable(log: seq<Answer>, srcs: Pools, dsts: Pools, e: Ends, i: nat)
    requires Listed(srcs) && Listed(dsts) && i <= |srcs.ids|
    decreases i
  {
    if i == 0 then log == []
    else if e.size > srcs.maxSizes[i - 1] then NoneUsable(log, srcs, dsts, e, i - 1)
    else exists cut: nat :: cut <= |log| && NoneUsable(log[..cut], srcs, dsts, e, i - 1) &&
                            Fruitless(log[cut..], srcs.ids[i - 1], dsts, e)
  }

  /** The answers of a search that ended with buffer `src` of source pool `i` and buffer `dst` of destination pool
      `j`. */
  ghost predicate UsableAt(log: seq<Answer>, srcs: Pools, dsts: Pools, e: Ends, i: nat, src: nat, j: nat, dst: nat)
    requires Listed(srcs) && Listed(dsts)
  {
    i < |srcs.ids| && e.size <= srcs.maxSizes[i] &&
    exists cut: nat :: cut < |log| && NoneUsable(log[..cut], srcs, dsts, e, i) &&
                       log[cut] == Pool(srcs.ids[i], e.size, true, src) &&
                       AdmittedAt(log[cut + 1..], dsts, src, e, j, dst)
  }

  lemma NextFruitless(log: seq<Answer>, t: seq<Answer>, srcs: Pools, dsts: Pools, e: Ends, i: nat)
    requires Listed(srcs) && Listed(dsts) && i < |srcs.ids| && e.size <= srcs.maxSizes[i]
    requires NoneUsable(log, srcs, dsts, e, i) && Fruitless(t, srcs.ids[i], dsts, e)
    ensures NoneUsable(log + t, srcs, dsts, e, i + 1)
  {
    var all, cut := log + t, |log|;
    assert all[..cut] == log && all[cut..] == t;
  }

  lemma NextUsable(log: seq<Answer>, t: seq<Answer>, srcs: Pools, dsts: Pools, e: Ends, i: nat, src: nat, j: nat,
                   dst: nat)
    requires Listed(srcs) && Listed(dsts) && i < |srcs.ids| && e.size <= srcs.maxSizes[i]
    requires NoneUsable(log, srcs, dsts, e, i)
    requires t != [] && t[0] == Pool(srcs.ids[i], e.size, true, src) && AdmittedAt(t[1..], dsts, src, e, j, dst)
    ensures UsableAt(log + t, srcs, dsts, e, i, src, j, dst)
  {
    var all, cut := log + t, |log|;
    assert all[..cut] == log && all[cut] == t[0] && all[cut + 1..] == t[1..];
  }

  // ---------------------------------------------------------------- what a success means

  /** A source GPU's access to the destination buffer has been asked for, and a destination GPU's access to the source
      buffer granted; without a destination GPU, so has the source GPU's. */
  lemma AdmittedMeans(log: seq<Answer>, ps: Pools, src: nat, e: Ends, j: nat, p: nat)
    requires Listed(ps) && AdmittedAt(log, ps, src, e, j, p)
    ensures Pool(ps.ids[j], e.size, true, p) in log
    ensures e.srcIsGpu ==> Access(e.srcAgent, p, true) in log || Access(e.srcAgent, p, false) in log
    ensures e.dstIsGpu ==> Access(e.dstAgent, src, true) in log
    ensures e.srcIsGpu && !e.dstIsGpu ==> Access(e.srcAgent, p, true) in log
  {
    var cut: nat :| cut < |log| && NoneAdmitted(log[..cut], ps, src, e, j) && Asked(log[cut..], ps.ids[j], src, p, e) &&
                    log[|log| - 1].ok;
    var t := log[cut..];
    assert forall i :: 0 <= i < |t| ==> t[i] in log;
    assert t[|t| - 1] == log[|log| - 1];
  }

  /** The same of a whole search: both pools are large enough and gave the buffers. */
  lemma UsableMeans(log: seq<Answer>, srcs: Pools, dsts: Pools, e: Ends, i: nat, src: nat, j: nat, dst: nat)
    requires Listed(srcs) && Listed(dsts) && UsableAt(log, srcs, dsts, e, i, src, j, dst)
    ensures j < |dsts.ids| && e.size <= srcs.maxSizes[i] && e.size <= dsts.maxSizes[j]
    ensures Pool(srcs.ids[i], e.size, true, src) in log && Pool(dsts.ids[j], e.size, true, dst) in log
    ensures e.srcIsGpu ==> Access(e.srcAgent, dst, true) in log || Access(e.srcAgent, dst, false) in log
    ensures e.dstIsGpu ==> Access(e.dstAgent, src, true) in log
    ensures e.srcIsGpu && !e.dstIsGpu ==> Access(e.srcAgent, dst, true) in log
  {
    var cut: nat :| cut < |log| && NoneUsable(log[..cut], srcs, dsts, e, i) &&
                    log[cut] == Pool(srcs.ids[i], e.size, true, src) &&
                    AdmittedAt(log[cut + 1..], dsts, src, e, j, dst);
    var t := log[cut + 1..];
    assert forall k :: 0 <= k < |t| ==> t[k] in log;
    AdmittedMeans(t, dsts, src, e, j, dst);
  }

  // ---------------------------------------------------------------- what a failure means

  lemma SliceOfPrefix(log: seq<Answer>, cut: nat, lo: nat, hi: nat)
    requires lo <= hi <= cut <= |log|
    ensures log[..cut][lo..hi] == log[lo..hi]
  {
  }

  /** Every destination pool that is large enough has been asked, and has refused or been denied. */
  lemma {:induction false} EveryDestinationDenied(log: seq<Answer>, ps: Pools, src: nat, e: Ends, n: nat, j: nat)
    requires Listed(ps) && j < n <= |ps.ids| && e.size <= ps.maxSizes[j] && NoneAdmitted(log, ps, src, e, n)
    ensures exists lo: nat, hi: nat :: lo <= hi <= |log| && Denied(log[lo..hi], ps.ids[j], src, e)
    decreases n
  {
    if e.size > ps.maxSizes[n - 1] {
      EveryDestinationDenied(log, ps, src, e, n - 1, j);
    } else {
      var cut: nat :| cut <= |log| && NoneAdmitted(log[..cut], ps, src, e, n - 1) &&
                      Denied(log[cut..], ps.ids[n - 1], src, e);
      if j == n - 1 {
        assert log[cut..|log|] == log[cut..];
      } else {
        EveryDestinationDenied(log[..cut], ps, src, e, n - 1, j);
        var lo: nat, hi: nat :| lo <= hi <= cut && Denied(log[..cut][lo..hi], ps.ids[j], src, e);
        SliceOfPrefix(log, cut, lo, hi);
      }
    }
  }

  /** Every source pool that is large enough has refused, or has given a buffer for which every destination pool that is
      large enough has refused or been denied. */
  lemma {:induction false} EverySourceFruitless(log: seq<Answer>, srcs: Pools, dsts: Pools, e: Ends, n: nat, i: nat)
    requires Listed(srcs) && Listed(dsts) && i < n <= |srcs.ids| && e.size <= srcs.maxSizes[i]
    requires NoneUsable(log, srcs, dsts, e, n)
    ensures exists lo: nat, hi: nat :: lo <= hi <= |log| && Fruitless(log[lo..hi], srcs.ids[i], dsts, e)
    decreases n
  {
    if e.size > srcs.maxSizes[n - 1] {
      EverySourceFruitless(log, srcs, dsts, e, n - 1, i);
    } else {
      var cut: nat :| cut <= |log| && NoneUsable(log[..cut], srcs, dsts, e, n - 1) &&
                      Fruitless(log[cut..], srcs.ids[n - 1], dsts, e);
      if i == n - 1 {
        assert log[cut..|log|] == log[cut..];
      } else {
        EverySourceFruitless(log[..cut], srcs, dsts, e, n - 1, i);
        var lo: nat, hi: nat :| lo <= hi <= cut && Fruitless(log[..cut][lo..hi], srcs.ids[i], dsts, e);
        SliceOfPrefix(log, cut, lo, hi);
      }
    }
  }
}
