/** rvs::hsa: allocating transfer buffers, sending traffic and giving everything back. */
module HsaTraffic {
  import opened CopyTime
  import opened IndexMath
  import opened PoolSearch

  // ---------------------------------------------------------------- the runtime

  /** A copy that was started: its buffers, its signal, and when the profiler says it ran. */
  datatype Copy = Copy(dst: nat, src: nat, signal: nat, when: Interval)

  /** A request for handles that can be refused: a pair of buffers from Allocate, for the two ends of a transfer, or a
      signal. */
  datatype Request = Allocation(ends: Ends, ok: bool) | SignalCreation(ok: bool)

  /** The HSA runtime as this code sees it: handles are fresh non-zero numbers, every call that can fail may fail.
      `live` and `signals` hold what has been handed out and not given back; a call on anything else would be a use
      after free or a double free, and is ruled out by the preconditions. `answers` and
      `requests` record what was asked for and what came back, `transfers` when the copies of each iteration ran. */
  class Runtime {
    var next: nat
    ghost var live: set<nat>
    ghost var signals: set<nat>
    ghost var granted: set<(nat, nat)>
    var profile: map<nat, Interval>
    ghost var copies: seq<Copy>
    ghost var measured: seq<(Interval, Interval)>
    ghost var requests: seq<Request>
    ghost var answers: seq<Answer>
    ghost var transfers: seq<(Interval, Interval)>

    ghost predicate Valid()
      reads this
    {
      next > 0 && (forall h :: h in live ==> 0 < h < next) && (forall s :: s in signals ==> 0 < s < next) &&
      forall s :: s in profile ==> WellFormed(profile[s])
    }

    constructor ()
      ensures Valid() && live == {} && signals == {} && measured == [] && copies == [] && requests == []
      ensures answers == [] && transfers == []
    {
      requests, answers, transfers := [], [], [];
      next, live, signals, granted, copies, measured, profile := 1, {}, {}, {}, [], [], map[];
    }

    method PoolAllocate(pool: nat, size: nat) returns (ok: bool, p: nat)
      requires Valid()
      modifies this`next, this`live, this`answers
      ensures Valid()
      ensures answers == old(answers) + [if ok then Pool(pool, size, true, p) else Refusal(pool, size)]
      ensures ok ==> p > 0 && p !in old(live) && live == old(live) + {p}
      ensures !ok ==> live == old(live)
    {
      ok := *;
      p := next;
      answers := answers + [if ok then Pool(pool, size, true, p) else Refusal(pool, size)];
      if ok {
        live := live + {p};
        next := next + 1;
      }
    }

    method PoolFree(p: nat)
      requires Valid() && p in live
      modifies this`live
      ensures Valid() && live == old(live) - {p}
    {
      live := live - {p};
    }

    method SignalCreate() returns (ok: bool, s: nat)
      requires Valid()
      modifies this`next, this`signals, this`requests
      ensures Valid() && requests == old(requests) + [SignalCreation(ok)]
      ensures ok ==> s > 0 && s !in old(signals) && signals == old(signals) + {s}
      ensures !ok ==> signals == old(signals)
    {
      ok := *;
      s := next;
      requests := requests + [SignalCreation(ok)];
      if ok {
        signals := signals + {s};
        next := next + 1;
      }
    }

    method SignalDestroy(s: nat)
      requires Valid() && s in signals
      modifies this`signals
      ensures Valid() && signals == old(signals) - {s}
    {
      signals := signals - {s};
    }

    method AllowAccess(agent: nat, p: nat) returns (ok: bool)
      requires Valid() && p in live
      modifies this`granted, this`answers
      ensures Valid() && granted == if ok then old(granted) + {(agent, p)} else old(granted)
      ensures answers == old(answers) + [Access(agent, p, ok)]
    {
      ok := *;
      answers := answers + [Access(agent, p, ok)];
      if ok { granted := granted + {(agent, p)}; }
    }

    /** Starts a copy; once the signal fires the profiler knows when the copy ran. */
    method AsyncCopy(dst: nat, src: nat, s: nat)
      requires Valid() && dst in live && src in live && s in signals
      modifies this`copies, this`profile
      ensures Valid() && profile.Keys == old(profile).Keys + {s}
      ensures copies == old(copies) + [Copy(dst, src, s, profile[s])]
      ensures forall u :: u in old(profile) && u != s ==> profile[u] == old(profile)[u]
    {
      var start: int, length: nat := *, *;
      profile := profile[s := Interval(start, start + length)];
      copies := copies + [Copy(dst, src, s, profile[s])];
    }

    /** GetCopyTime. */
    method GetCopyTime(bidirectional: bool, fwd: nat, rev: nat) returns (t: int)
      requires Valid() && fwd in signals && fwd in profile && (bidirectional ==> rev in signals && rev in profile)
      modifies this`measured
      ensures var r := if bidirectional then profile[rev] else profile[fwd];
              t == CopyTicks(bidirectional, profile[fwd], r) && measured == old(measured) + [(profile[fwd], r)]
      ensures Valid()
    {
      var f := profile[fwd];
      if !bidirectional {
        measured := measured + [(f, f)];
        return f.end - f.start;
      }
      var r := profile[rev];
      measured := measured + [(f, r)];
      var start, end := Min(f.start, r.start), Max(f.end, r.end);
      t := end - start;
      if f.end < r.start { return t - (r.start - f.end); }
      if r.end < f.start { return t - (f.start - r.end); }
    }
  }

  // ---------------------------------------------------------------- agents and their pools

  class Agent {
    var node: nat
    var isGpu: bool
    var pools: seq<nat>
    var maxSizes: seq<nat>

    ghost predicate Aligned()
      reads this
    {
      |pools| == |maxSizes|
    }

    constructor (node: nat, isGpu: bool)
      ensures Aligned() && pools == [] && this.node == node && this.isGpu == isGpu
    {
      this.node, this.isGpu, pools, maxSizes := node, isGpu, [], [];
    }

    /** ProcessMemPool: a pool is reported exactly when it is global and allocatable; both lists grow together. */
    method ProcessMemPool(pool: nat, isGlobal: bool, allocatable: bool, maxSize: nat)
      requires Aligned()
      modifies this`pools, this`maxSizes
      ensures Aligned()
      ensures isGlobal && allocatable ==> pools == old(pools) + [pool] && maxSizes == old(maxSizes) + [maxSize]
      ensures !(isGlobal && allocatable) ==> pools == old(pools) && maxSizes == old(maxSizes)
    {
      if !isGlobal { return; }
      if !allocatable { return; }
      maxSizes := maxSizes + [maxSize];
      pools := pools + [pool];
    }
  }

  /** The first agent on the node from index `i` on, or -1. */
  ghost function AgentFrom(agents: seq<Agent>, node: nat, i: nat): (ix: int)
    reads agents
    requires i <= |agents|
    ensures -1 <= ix < |agents|
    decreases |agents| - i
  {
    if i == |agents| then -1 else if agents[i].node == node then i else AgentFrom(agents, node, i + 1)
  }

  /** FindAgent: the first agent on the node, or -1. */
  method FindAgent(agents: seq<Agent>, node: nat) returns (ix: int)
    ensures ix == AgentFrom(agents, node, 0) && -1 <= ix < |agents|
    ensures ix >= 0 ==> agents[ix].node == node && forall i :: 0 <= i < ix ==> agents[i].node != node
    ensures ix == -1 ==> forall i :: 0 <= i < |agents| ==> agents[i].node != node
  {
    for i := 0 to |agents|
      invariant forall j :: 0 <= j < i ==> agents[j].node != node
      invariant AgentFrom(agents, node, 0) == AgentFrom(agents, node, i)
    {
      if agents[i].node == node { return i; }
    }
    ix := -1;
  }

  // ---------------------------------------------------------------- Allocate

  function PoolsOf(a: Agent): (ps: Pools)
    reads a
    requires a.Aligned()
    ensures Listed(ps)
  {
    Pools(a.pools, a.maxSizes)
  }

  /** A transfer of `size` bytes between two agents, given by their indices. */
  ghost function EndsOf(a: nat, src: Agent, b: nat, dst: Agent, size: nat): Ends
    reads src, dst
  {
    Ends(a, src.isGpu, b, dst.isGpu, size)
  }

  /** Two buffers that were not live before are live now, and nothing else has changed. */
  ghost predicate FreshPair(p: nat, q: nat, live0: set<nat>, live: set<nat>) {
    p > 0 && q > 0 && p != q && p !in live0 && q !in live0 && live == live0 + {p, q}
  }

  /** The access that is certain: the destination GPU's to the source buffer `p`; without one, the source GPU's to the
      destination buffer `q`. */
  ghost predicate Accessible(granted: set<(nat, nat)>, e: Ends, p: nat, q: nat) {
    (e.dstIsGpu ==> (e.dstAgent, p) in granted) && (!e.dstIsGpu && e.srcIsGpu ==> (e.srcAgent, q) in granted)
  }

  /** One destination pool: its buffer, and the access requests. Access is granted to the source agent first and to the
      destination agent second; the second status overwrites the first. */
  method TryDestination(rt: Runtime, pool: nat, src: nat, e: Ends) returns (found: bool, p: nat, ghost t: seq<Answer>)
    requires rt.Valid() && src in rt.live
    modifies rt`next, rt`live, rt`granted, rt`answers
    ensures rt.Valid() && old(rt.granted) <= rt.granted && rt.answers == old(rt.answers) + t
    ensures !found ==> rt.live == old(rt.live) && Denied(t, pool, src, e)
    ensures found ==> p > 0 && p !in old(rt.live) && rt.live == old(rt.live) + {p} &&
                      Asked(t, pool, src, p, e) && t[|t| - 1].ok
    ensures found ==> Accessible(rt.granted, e, src, p)
  {
    found, p := rt.PoolAllocate(pool, e.size);
    t := [if found then Pool(pool, e.size, true, p) else Refusal(pool, e.size)];
    if !found { return; }
    var status := true;
    if e.srcIsGpu {
      status := rt.AllowAccess(e.srcAgent, p);
      t := t + [Access(e.srcAgent, p, status)];
    }
    if e.dstIsGpu {
      status := rt.AllowAccess(e.dstAgent, src);
      t := t + [Access(e.dstAgent, src, status)];
    }
    assert Asked(t, pool, src, p, e);
    if !status {
      rt.PoolFree(p);
      found := false;
    }
  }

  /** The inner loop of Allocate, for one source buffer: the first destination pool that admits the transfer. */
  method AllocateDestination(rt: Runtime, dsts: Pools, e: Ends, src: nat)
    returns (found: bool, j: nat, dstBuff: nat, ghost log: seq<Answer>)
    requires rt.Valid() && Listed(dsts) && src in rt.live
    modifies rt`next, rt`live, rt`granted, rt`answers
    ensures rt.Valid() && old(rt.granted) <= rt.granted && rt.answers == old(rt.answers) + log
    ensures !found ==> rt.live == old(rt.live) && NoneAdmitted(log, dsts, src, e, |dsts.ids|)
    ensures found ==> AdmittedAt(log, dsts, src, e, j, dstBuff)
    ensures found ==> dstBuff > 0 && dstBuff !in old(rt.live) && rt.live == old(rt.live) + {dstBuff}
    ensures found ==> Accessible(rt.granted, e, src, dstBuff)
  {
    found, j, dstBuff, log := false, 0, 0, [];
    while j < |dsts.ids|
      invariant 0 <= j <= |dsts.ids| && !found
      invariant rt.Valid() && rt.live == old(rt.live) && old(rt.granted) <= rt.granted
      invariant rt.answers == old(rt.answers) + log && NoneAdmitted(log, dsts, src, e, j)
    {
      if e.size <= dsts.maxSizes[j] {
        ghost var t;
        found, dstBuff, t := TryDestination(rt, dsts.ids[j], src, e);
        Together(old(rt.answers), log, t);
        if found {
          NextAdmitted(log, t, dsts, src, e, j, dstBuff);
          log := log + t;
          return;
        }
        NextDenied(log, t, dsts, src, e, j);
        log := log + t;
      }
      j := j + 1;
    }
  }

  /** One source pool: its buffer, and a destination buffer to go with it. */
  method TrySource(rt: Runtime, pool: nat, dsts: Pools, e: Ends)
    returns (found: bool, srcBuff: nat, j: nat, dstBuff: nat, ghost t: seq<Answer>)
    requires rt.Valid() && Listed(dsts)
    modifies rt`next, rt`live, rt`granted, rt`answers
    ensures rt.Valid() && rt.answers == old(rt.answers) + t
    ensures !found ==> rt.live == old(rt.live) && Fruitless(t, pool, dsts, e)
    ensures found ==> t != [] && t[0] == Pool(pool, e.size, true, srcBuff) &&
                      AdmittedAt(t[1..], dsts, srcBuff, e, j, dstBuff)
    ensures found ==> FreshPair(srcBuff, dstBuff, old(rt.live), rt.live) &&
                      Accessible(rt.granted, e, srcBuff, dstBuff)
  {
    j, dstBuff := 0, 0;
    found, srcBuff := rt.PoolAllocate(pool, e.size);
    t := [if found then Pool(pool, e.size, true, srcBuff) else Refusal(pool, e.size)];
    if !found { return; }
    ghost var log;
    found, j, dstBuff, log := AllocateDestination(rt, dsts, e, srcBuff);
    t := t + log;
    assert t[1..] == log;
    if !found { rt.PoolFree(srcBuff); }
  }

  /** The loop over the source pools: the first one that leads to a pair of buffers. */
  method SearchPools(rt: Runtime, srcs: Pools, dsts: Pools, e: Ends)
    returns (found: bool, i: nat, srcBuff: nat, j: nat, dstBuff: nat, ghost log: seq<Answer>)
    requires rt.Valid() && Listed(srcs) && Listed(dsts)
    modifies rt`next, rt`live, rt`granted, rt`answers
    ensures rt.Valid() && rt.answers == old(rt.answers) + log
    ensures !found ==> rt.live == old(rt.live) && NoneUsable(log, srcs, dsts, e, |srcs.ids|)
    ensures found ==> UsableAt(log, srcs, dsts, e, i, srcBuff, j, dstBuff)
    ensures found ==> FreshPair(srcBuff, dstBuff, old(rt.live), rt.live) &&
                      Accessible(rt.granted, e, srcBuff, dstBuff)
  {
    found, i, srcBuff, j, dstBuff, log := false, 0, 0, 0, 0, [];
    while i < |srcs.ids|
      invariant 0 <= i <= |srcs.ids| && !found
      invariant rt.Valid() && rt.live == old(rt.live)
      invariant rt.answers == old(rt.answers) + log && NoneUsable(log, srcs, dsts, e, i)
    {
      if e.size <= srcs.maxSizes[i] {
        ghost var t;
        found, srcBuff, j, dstBuff, t := TrySource(rt, srcs.ids[i], dsts, e);
        Together(old(rt.answers), log, t);
        if found {
          NextUsable(log, t, srcs, dsts, e, i, srcBuff, j, dstBuff);
          log := log + t;
          return;
        }
        NextFruitless(log, t, srcs, dsts, e, i);
        log := log + t;
      }
      i := i + 1;
    }
  }

  /** Allocate: a source and a destination buffer of the first pair of pools that admits the transfer, or nothing at all
      when every source pool that is large enough refused or gave a buffer no destination pool would serve. On failure
      the caller's pointers keep their values. `log` are the runtime's answers, `i` and `j` the pools. */
  method Allocate(rt: Runtime, srcAgent: nat, src: Agent, dstAgent: nat, dst: Agent, size: nat, src0: nat, dst0: nat)
    returns (sts: int, srcPool: nat, srcBuff: nat, dstPool: nat, dstBuff: nat, ghost i: nat, ghost j: nat,
             ghost log: seq<Answer>)
    requires rt.Valid() && src.Aligned() && dst.Aligned()
    modifies rt`next, rt`live, rt`granted, rt`requests, rt`answers
    ensures rt.Valid() && (sts == 0 || sts == -1) && rt.answers == old(rt.answers) + log
    ensures var e := EndsOf(srcAgent, src, dstAgent, dst, size);
            rt.requests == old(rt.requests) + [Allocation(e, sts == 0)] &&
            (sts == -1 ==> NoneUsable(log, PoolsOf(src), PoolsOf(dst), e, |src.pools|)) &&
            (sts == 0 ==> UsableAt(log, PoolsOf(src), PoolsOf(dst), e, i, srcBuff, j, dstBuff) && j < |dst.pools| &&
                          src.pools[i] == srcPool && dst.pools[j] == dstPool &&
                          Accessible(rt.granted, e, srcBuff, dstBuff))
    ensures sts == -1 ==> rt.live == old(rt.live) && srcBuff == src0 && dstBuff == dst0
    ensures sts == 0 ==> FreshPair(srcBuff, dstBuff, old(rt.live), rt.live)
  {
    var e := Ends(srcAgent, src.isGpu, dstAgent, dst.isGpu, size);
    var found, ii, p, jj, q;
    found, ii, p, jj, q, log := SearchPools(rt, PoolsOf(src), PoolsOf(dst), e);
    rt.requests := rt.requests + [Allocation(e, found)];
    i, j := ii, jj;
    sts, srcPool, srcBuff, dstPool, dstBuff := -1, 0, src0, 0, dst0;
    if found { sts, srcPool, srcBuff, dstPool, dstBuff := 0, src.pools[ii], p, dst.pools[jj], q; }
  }

  // ---------------------------------------------------------------- SendTraffic

  ghost function Reversed(e: Ends): Ends { Ends(e.dstAgent, e.dstIsGpu, e.srcAgent, e.srcIsGpu, e.size) }

  /** The requests of an iteration that needs handles, when all are granted: forward, then reverse. */
  ghost function Granted(bidirectional: bool, e: Ends): (r: seq<Request>)
    ensures |r| == if bidirectional then 4 else 2
  {
    [Allocation(e, true), SignalCreation(true)] +
    if bidirectional then [Allocation(Reversed(e), true), SignalCreation(true)] else []
  }

  /** The `k` requests made when the last of them is refused. */
  ghost function RefusedAt(bidirectional: bool, e: Ends, k: nat): (r: seq<Request>)
    requires 1 <= k <= if bidirectional then 4 else 2
    ensures |r| == k
  {
    Granted(bidirectional, e)[..k - 1] + [Granted(bidirectional, e)[k - 1].(ok := false)]
  }

  ghost predicate AllGranted(made: seq<Request>) { forall i :: 0 <= i < |made| ==> made[i].ok }

  /** The last request was the allocation of reverse buffers, and it was refused. */
  ghost predicate ReverseRefused(bidirectional: bool, made: seq<Request>) {
    bidirectional && |made| % 4 == 3 && made[|made| - 1].Allocation? && !made[|made| - 1].ok
  }

  /** The handles of one direction; a null source pointer means none are held. */
  datatype Lane = Lane(src: nat, dst: nat, signal: nat)

  ghost function Buffers(l: Lane): set<nat> { {l.src, l.dst} }

  /** What a caller that entered with `live0` and `signals0` holds on top of them. */
  ghost predicate Holding(rt: Runtime, live0: set<nat>, signals0: set<nat>, bidirectional: bool, fwd: Lane, rev: Lane)
    reads rt`live, rt`signals
  {
    fwd.src > 0 && fwd.dst > 0 && fwd.src != fwd.dst && Buffers(fwd) !! live0 && fwd.signal !in signals0 &&
    if bidirectional then
      rev.src > 0 && rev.dst > 0 && rev.src != rev.dst && Buffers(rev) !! live0 && Buffers(rev) !! Buffers(fwd) &&
      rev.signal !in signals0 && rev.signal != fwd.signal &&
      rt.live == live0 + Buffers(fwd) + Buffers(rev) && rt.signals == signals0 + {fwd.signal, rev.signal}
    else
      rt.live == live0 + Buffers(fwd) && rt.signals == signals0 + {fwd.signal}
  }

  /** The state between iterations: with back-to-back transfers the handles are kept, otherwise nothing is held. */
  ghost predicate Between(rt: Runtime, live0: set<nat>, signals0: set<nat>, bidirectional: bool, b2b: bool, i: nat,
                          fwd: Lane, rev: Lane)
    reads rt`live, rt`signals
  {
    if b2b && i > 0 then Holding(rt, live0, signals0, bidirectional, fwd, rev)
    else fwd.src == 0 && rt.live == live0 && rt.signals == signals0
  }

  /** Buffers and a signal for one direction. */
  method AcquireLane(rt: Runtime, srcAgent: nat, src: Agent, dstAgent: nat, dst: Agent, size: nat, l0: Lane)
    returns (sts: int, l: Lane)
    requires rt.Valid() && src.Aligned() && dst.Aligned()
    modifies rt`next, rt`live, rt`granted, rt`signals, rt`requests, rt`answers
    ensures rt.Valid() && (sts == 0 || sts == -1)
    ensures sts == -1 ==> rt.live == old(rt.live) && rt.signals == old(rt.signals)
    ensures var e := EndsOf(srcAgent, src, dstAgent, dst, size);
            (sts == -1 ==> rt.requests == old(rt.requests) + RefusedAt(false, e, 1) ||
                           rt.requests == old(rt.requests) + RefusedAt(false, e, 2)) &&
            (sts == 0 ==> rt.requests == old(rt.requests) + Granted(false, e))
    ensures sts == 0 ==> l.src > 0 && l.dst > 0 && l.src != l.dst && Buffers(l) !! old(rt.live) &&
                         l.signal !in old(rt.signals) &&
                         rt.live == old(rt.live) + Buffers(l) && rt.signals == old(rt.signals) + {l.signal}
  {
    l := l0;
    var got, _, srcBuff, _, dstBuff, _, _, _ := Allocate(rt, srcAgent, src, dstAgent, dst, size, l.src, l.dst);
    l := l.(src := srcBuff, dst := dstBuff);
    if got != 0 { return -1, l; }
    var ok, s := rt.SignalCreate();
    if !ok {
      rt.PoolFree(l.src);
      rt.PoolFree(l.dst);
      return -1, l;
    }
    return 0, l.(signal := s);
  }

  /** The allocation part of an iteration. When the reverse buffers cannot be had, the forward buffers are freed but
      the forward signal is not destroyed. */
  method Acquire(rt: Runtime, a: nat, src: Agent, b: nat, dst: Agent, size: nat, bidirectional: bool, fwd0: Lane,
                 rev0: Lane)
    returns (sts: int, fwd: Lane, rev: Lane, ghost made: seq<Request>)
    requires rt.Valid() && src.Aligned() && dst.Aligned()
    modifies rt`next, rt`live, rt`granted, rt`signals, rt`requests, rt`answers
    ensures rt.Valid() && (sts == 0 || sts == -1) && rt.requests == old(rt.requests) + made
    ensures sts == 0 ==> made == Granted(bidirectional, EndsOf(a, src, b, dst, size)) &&
                         Holding(rt, old(rt.live), old(rt.signals), bidirectional, fwd, rev)
    ensures sts == -1 ==> rt.live == old(rt.live) && 1 <= |made| <= (if bidirectional then 4 else 2) &&
                          made == RefusedAt(bidirectional, EndsOf(a, src, b, dst, size), |made|)
    ensures sts == -1 ==> (rt.signals == old(rt.signals) <==> |made| != 3)
    ensures sts == -1 && |made| == 3 ==> exists s :: s !in old(rt.signals) && rt.signals == old(rt.signals) + {s}
  {
    rev := rev0;
    ghost var before := rt.requests;
    sts, fwd := AcquireLane(rt, a, src, b, dst, size, fwd0);
    made := rt.requests[|before|..];
    if sts != 0 || !bidirectional { return; }
    ghost var more;
    sts, rev, more := AcquireReverse(rt, b, dst, a, src, size, fwd, rev, old(rt.live), old(rt.signals));
    made := made + more;
  }

  /** The reverse half of it, once the forward lane is held. */
  method AcquireReverse(rt: Runtime, srcAgent: nat, src: Agent, dstAgent: nat, dst: Agent, size: nat, fwd: Lane,
                        rev0: Lane, ghost live0: set<nat>, ghost signals0: set<nat>)
    returns (sts: int, rev: Lane, ghost made: seq<Request>)
    requires rt.Valid() && src.Aligned() && dst.Aligned() && Holding(rt, live0, signals0, false, fwd, rev0)
    modifies rt`next, rt`live, rt`granted, rt`signals, rt`requests, rt`answers
    ensures rt.Valid() && (sts == 0 || sts == -1) && rt.requests == old(rt.requests) + made
    ensures var e := EndsOf(srcAgent, src, dstAgent, dst, size);
            (sts == 0 ==> made == Granted(false, e) && Holding(rt, live0, signals0, true, fwd, rev)) &&
            (sts == -1 ==> rt.live == live0 && 1 <= |made| <= 2 && made == RefusedAt(false, e, |made|))
    ensures sts == -1 && |made| == 1 ==> rt.signals == signals0 + {fwd.signal}
    ensures sts == -1 && |made| == 2 ==> rt.signals == signals0
  {
    rev := rev0;
    var got, _, srcBuff, _, dstBuff, _, _, _ := Allocate(rt, srcAgent, src, dstAgent, dst, size, rev.src, rev.dst);
    rev := rev.(src := srcBuff, dst := dstBuff);
    made := [Allocation(EndsOf(srcAgent, src, dstAgent, dst, size), got == 0)];
    if got != 0 {
      rt.PoolFree(fwd.src);
      rt.PoolFree(fwd.dst);
      return -1, rev, made;
    }
    var ok, s := rt.SignalCreate();
    made := made + [SignalCreation(ok)];
    if !ok {
      GiveUpReverse(rt, fwd, rev, live0, signals0);
      return -1, rev, made;
    }
    return 0, rev.(signal := s), made;
  }

  /** The exit that a refused reverse signal takes: everything is given back. */
  method GiveUpReverse(rt: Runtime, fwd: Lane, rev: Lane, ghost live0: set<nat>, ghost signals0: set<nat>)
    requires rt.Valid() && rt.live == live0 + Buffers(fwd) + Buffers(rev) && rt.signals == signals0 + {fwd.signal}
    requires fwd.src > 0 && fwd.dst > 0 && fwd.src != fwd.dst && rev.src > 0 && rev.dst > 0 && rev.src != rev.dst
    requires Buffers(fwd) !! live0 && Buffers(rev) !! live0 && Buffers(rev) !! Buffers(fwd)
    requires fwd.signal !in signals0
    modifies rt`live, rt`signals
    ensures rt.Valid() && rt.live == live0 && rt.signals == signals0
  {
    rt.PoolFree(fwd.src);
    rt.PoolFree(fwd.dst);
    rt.PoolFree(rev.src);
    rt.PoolFree(rev.dst);
    rt.SignalDestroy(fwd.signal);
  }

  /** The clean-up after an iteration, or after the last one. */
  method Release(rt: Runtime, bidirectional: bool, fwd: Lane, rev: Lane, ghost live0: set<nat>,
                 ghost signals0: set<nat>)
    requires rt.Valid() && Holding(rt, live0, signals0, bidirectional, fwd, rev)
    modifies rt`live, rt`signals
    ensures rt.Valid() && rt.live == live0 && rt.signals == signals0
  {
    rt.PoolFree(fwd.src);
    rt.PoolFree(fwd.dst);
    rt.SignalDestroy(fwd.signal);
    if bidirectional {
      rt.PoolFree(rev.src);
      rt.PoolFree(rev.dst);
      rt.SignalDestroy(rev.signal);
    }
  }

  /** The loop bound: the sum of the two counts in their 32-bit type. */
  function Iterations(warm: nat, hot: nat): nat { (warm + hot) % WORD }

  /** Iterations that are timed. */
  function TimedIterations(warm: nat, hot: nat): nat {
    if Iterations(warm, hot) > warm then Iterations(warm, hot) - warm else 0
  }

  /** The number of timed transfers is the requested one exactly when the two counts do not overflow. */
  lemma TimedIterationsIff(warm: nat, hot: nat)
    requires warm < WORD && hot < WORD
    ensures TimedIterations(warm, hot) == hot <==> warm + hot < WORD
  {
    if warm + hot >= WORD { assert Iterations(warm, hot) == warm + hot - WORD; }
  }

  /** The ticks during which the link was busy, over a number of transfers. */
  function BusyTicks(bidirectional: bool, ts: seq<(Interval, Interval)>): int {
    if ts == [] then 0
    else var (f, r) := ts[|ts| - 1]; BusyTicks(bidirectional, ts[..|ts| - 1]) + CopyTicks(bidirectional, f, r)
  }

  /** Seconds from a number of nanosecond ticks. */
  function Seconds(ticks: int): real { ticks as real / 1000000000.0 }

  lemma BusyTicksAppend(bidirectional: bool, ts: seq<(Interval, Interval)>, t: (Interval, Interval))
    ensures BusyTicks(bidirectional, ts + [t]) == BusyTicks(bidirectional, ts) + CopyTicks(bidirectional, t.0, t.1)
    ensures Seconds(BusyTicks(bidirectional, ts + [t])) ==
            Seconds(BusyTicks(bidirectional, ts)) + Seconds(CopyTicks(bidirectional, t.0, t.1))
  {
    assert (ts + [t])[..|ts|] == ts;
  }

  /** How often handles are requested: back to back, only in the first iteration. */
  ghost function Acquisitions(b2b: bool, iterations: nat): nat { if b2b && iterations > 0 then 1 else iterations }

  /** Copies started in a number of iterations. */
  ghost function Copies(bidirectional: bool, iterations: nat): nat {
    if bidirectional then 2 * iterations else iterations
  }

  /** When the copies of one iteration ran; without a reverse copy the forward one stands twice. */
  ghost function RanAt(bidirectional: bool, cs: seq<Copy>): (Interval, Interval)
    requires |cs| == Copies(bidirectional, 1)
  {
    (cs[0].when, cs[if bidirectional then 1 else 0].when)
  }

  /** The copies an iteration starts: forward, and in both directions also reverse, each under its own signal. */
  ghost predicate Started(bidirectional: bool, fwd: Lane, rev: Lane, cs: seq<Copy>) {
    |cs| == Copies(bidirectional, 1) && cs[0] == Copy(fwd.dst, fwd.src, fwd.signal, cs[0].when) &&
    (bidirectional ==> cs[1] == Copy(rev.dst, rev.src, rev.signal, cs[1].when))
  }

  /** The iterations that count: those after the first `warm` ones. */
  ghost function TimedOf(ran: seq<(Interval, Interval)>, warm: nat): seq<(Interval, Interval)> {
    if |ran| > warm then ran[warm..] else []
  }

  lemma NextTimed(ran: seq<(Interval, Interval)>, now: (Interval, Interval), warm: nat)
    ensures TimedOf(ran + [now], warm) == TimedOf(ran, warm) + if |ran| >= warm then [now] else []
  {
  }

  /** The requests are those of rounds for the transfer `e`, one after the other, whatever was answered. */
  ghost predicate Follows(bidirectional: bool, e: Ends, made: seq<Request>) {
    forall k :: 0 <= k < |made| ==>
      made[k].(ok := true) == Granted(bidirectional, e)[if bidirectional then k % 4 else k % 2]
  }

  /** `k` rounds of requests, all granted. */
  ghost predicate GrantedRounds(bidirectional: bool, e: Ends, made: seq<Request>, k: nat) {
    AllGranted(made) && Follows(bidirectional, e, made) && |made| == (if bidirectional then 4 * k else 2 * k)
  }

  lemma FollowsMore(bidirectional: bool, e: Ends, made: seq<Request>, k: nat, t: seq<Request>)
    requires Follows(bidirectional, e, made) && |made| == (if bidirectional then 4 * k else 2 * k)
    requires |t| <= |Granted(bidirectional, e)|
    requires forall j :: 0 <= j < |t| ==> t[j].(ok := true) == Granted(bidirectional, e)[j]
    ensures Follows(bidirectional, e, made + t)
  {
    var all := made + t;
    forall i | 0 <= i < |all|
      ensures all[i].(ok := true) == Granted(bidirectional, e)[if bidirectional then i % 4 else i % 2]
    {
      if i >= |made| {
        var j := i - |made|;
        assert all[i] == t[j] && j == if bidirectional then i % 4 else i % 2;
      }
    }
  }

  lemma NextRoundGranted(bidirectional: bool, e: Ends, made: seq<Request>, k: nat)
    requires GrantedRounds(bidirectional, e, made, k)
    ensures GrantedRounds(bidirectional, e, made + Granted(bidirectional, e), k + 1)
  {
    FollowsMore(bidirectional, e, made, k, Granted(bidirectional, e));
  }

  lemma NextRoundRefused(bidirectional: bool, e: Ends, made: seq<Request>, k: nat, n: nat)
    requires GrantedRounds(bidirectional, e, made, k) && 1 <= n <= if bidirectional then 4 else 2
    ensures var all := made + RefusedAt(bidirectional, e, n);
            !AllGranted(all) && Follows(bidirectional, e, all) && (ReverseRefused(bidirectional, all) <==> n == 3)
  {
    var t := RefusedAt(bidirectional, e, n);
    var all := made + t;
    FollowsMore(bidirectional, e, made, k, t);
    assert all[|all| - 1] == t[n - 1] && !t[n - 1].ok;
  }

  /** What the runtime recorded before a run began. */
  datatype Before = Before(transfers: seq<(Interval, Interval)>, measured: seq<(Interval, Interval)>, copies: nat)

  ghost function BeforeOf(rt: Runtime): Before
    reads rt`transfers, rt`measured, rt`copies
  {
    Before(rt.transfers, rt.measured, |rt.copies|)
  }

  /** The books of a run whose iterations so far ran at `ran`: they are the transfers recorded since, those after the
      warm ones are the ones measured, and the duration is the time the link was busy in these. */
  ghost predicate Books(now: Before, was: Before, bidirectional: bool, warm: nat, ran: seq<(Interval, Interval)>,
                        duration: real)
  {
    now.transfers == was.transfers + ran && Profiles(ran) && now.measured == was.measured + TimedOf(ran, warm) &&
    duration == Seconds(BusyTicks(bidirectional, TimedOf(ran, warm))) &&
    now.copies == was.copies + Copies(bidirectional, |ran|)
  }

  /** One more iteration in the books. */
  lemma NextBooks(b0: Before, b1: Before, was: Before, bidirectional: bool, warm: nat, ran: seq<(Interval, Interval)>,
                  at: (Interval, Interval), duration0: real, duration: real)
    requires Books(b0, was, bidirectional, warm, ran, duration0) && Profiles([at])
    requires b1.transfers == b0.transfers + [at] && b1.copies == b0.copies + Copies(bidirectional, 1)
    requires |ran| >= warm ==> b1.measured == b0.measured + [at] &&
                               duration == Seconds(BusyTicks(bidirectional, TimedOf(ran, warm) + [at]))
    requires |ran| < warm ==> b1.measured == b0.measured && duration == duration0
    ensures Books(b1, was, bidirectional, warm, ran + [at], duration)
  {
    NextTimed(ran, at, warm);
    Together(was.transfers, ran, [at]);
    Together(was.measured, TimedOf(ran, warm), [at]);
  }

  /** What a run for the transfer `e` asked for and carried out: it succeeds exactly if everything asked for is granted,
      and has then carried out all iterations, the ones after the warm ones being those that are timed. */
  ghost predicate Carried(e: Ends, bidirectional: bool, b2b: bool, warm: nat, hot: nat, sts: int, made: seq<Request>,
                          ran: seq<(Interval, Interval)>)
  {
    Follows(bidirectional, e, made) && (sts == 0 <==> AllGranted(made)) &&
    (sts == 0 ==> GrantedRounds(bidirectional, e, made, Acquisitions(b2b, Iterations(warm, hot))) &&
                  |ran| == Iterations(warm, hot) && |TimedOf(ran, warm)| == TimedIterations(warm, hot))
  }

  lemma AllCarried(e: Ends, bidirectional: bool, b2b: bool, warm: nat, hot: nat, made: seq<Request>,
                   ran: seq<(Interval, Interval)>)
    requires GrantedRounds(bidirectional, e, made, Acquisitions(b2b, Iterations(warm, hot)))
    requires |ran| == Iterations(warm, hot)
    ensures Carried(e, bidirectional, b2b, warm, hot, 0, made, ran) && !ReverseRefused(bidirectional, made)
  {
  }

  /** The ticks during which a copy was running, over the iterations after the first `warm` ones. */
  ghost function TicksCounted(bidirectional: bool, ran: seq<(Interval, Interval)>, warm: nat): nat {
    if |ran| <= warm then 0
    else
      var (f, r) := ran[|ran| - 1];
      TicksCounted(bidirectional, ran[..|ran| - 1], warm) + if bidirectional then |Ticks(f) + Ticks(r)| else |Ticks(f)|
  }

  lemma {:induction false} TicksCountedIsBusy(bidirectional: bool, ran: seq<(Interval, Interval)>, warm: nat)
    requires Profiles(ran)
    ensures BusyTicks(bidirectional, TimedOf(ran, warm)) == TicksCounted(bidirectional, ran, warm)
  {
    if |ran| > warm {
      var front, last := ran[..|ran| - 1], ran[|ran| - 1];
      TicksCountedIsBusy(bidirectional, front, warm);
      assert ran == front + [last];
      NextTimed(front, last, warm);
      BusyTicksAppend(bidirectional, TimedOf(front, warm), last);
      CopyTicksMeasureUnion(last.0, last.1);
      assert Ticks(last.0) + Ticks(last.0) == Ticks(last.0);
    }
  }

  /** Ticks are nanoseconds, and the duration is in seconds. */
  lemma DurationCountsTicks(now: Before, was: Before, bidirectional: bool, warm: nat, ran: seq<(Interval, Interval)>,
                            duration: real)
    requires Books(now, was, bidirectional, warm, ran, duration)
    ensures duration * 1000000000.0 == TicksCounted(bidirectional, ran, warm) as real
  {
    TicksCountedIsBusy(bidirectional, ran, warm);
  }

  /** The requests of a run, one by one: buffers, then a signal; and in both directions the same again with the two
      agents exchanged. */
  lemma FollowsMeans(bidirectional: bool, e: Ends, made: seq<Request>, k: nat)
    requires Follows(bidirectional, e, made) && k < |made|
    ensures k % 2 == 1 ==> made[k].SignalCreation?
    ensures k % 2 == 0 ==> made[k].Allocation? && made[k].ends.size == e.size
    ensures k % 2 == 0 && (!bidirectional || k % 4 == 0) ==>
              made[k].ends.srcAgent == e.srcAgent && made[k].ends.dstAgent == e.dstAgent &&
              made[k].ends.srcIsGpu == e.srcIsGpu && made[k].ends.dstIsGpu == e.dstIsGpu
    ensures k % 2 == 0 && bidirectional && k % 4 == 2 ==>
              made[k].ends.srcAgent == e.dstAgent && made[k].ends.dstAgent == e.srcAgent &&
              made[k].ends.srcIsGpu == e.dstIsGpu && made[k].ends.dstIsGpu == e.srcIsGpu
  {
    var made1 := made[k].(ok := true);
    assert made1 == Granted(bidirectional, e)[if bidirectional then k % 4 else k % 2];
  }

  /** How many requests and iterations there are when nothing is refused. */
  lemma CarriedMeans(e: Ends, bidirectional: bool, b2b: bool, warm: nat, hot: nat, made: seq<Request>,
                     ran: seq<(Interval, Interval)>)
    requires Carried(e, bidirectional, b2b, warm, hot, 0, made, ran)
    ensures |ran| == (warm + hot) % 0x1_0000_0000
    ensures |made| == (if bidirectional then 4 else 2) * (if b2b && |ran| > 0 then 1 else |ran|)
  {
  }

  /** SendTraffic. Whatever is refused, every buffer is given back exactly once and none is used afterwards; so is every
      signal, unless the request refused was for reverse buffers: then one signal stays behind. `made` are the requests,
      `ran` says for every iteration that was carried out when its copies ran. The duration is the time the link was
      busy in the iterations after the warm ones, which are the only ones measured; on success all have been carried
      out. */
  method SendTraffic(rt: Runtime, agents: seq<Agent>, srcNode: nat, dstNode: nat, size: nat, bidirectional: bool,
                     b2b: bool, warm: nat, hot: nat, duration0: real)
    returns (sts: int, duration: real, ghost made: seq<Request>, ghost ran: seq<(Interval, Interval)>)
    requires rt.Valid() && forall i :: 0 <= i < |agents| ==> agents[i].Aligned()
    modifies rt
    ensures rt.Valid() && rt.live == old(rt.live) && (sts == 0 || sts == -1)
    ensures rt.requests == old(rt.requests) + made
    ensures rt.signals == old(rt.signals) <==> !ReverseRefused(bidirectional, made)
    ensures ReverseRefused(bidirectional, made) ==>
              exists s :: s !in old(rt.signals) && rt.signals == old(rt.signals) + {s}
    ensures !bidirectional ==> rt.signals == old(rt.signals)
    ensures var a, b := AgentFrom(agents, srcNode, 0), AgentFrom(agents, dstNode, 0);
            if a < 0 || b < 0 then
              sts == -1 && duration == duration0 && ran == [] && made == [] && BeforeOf(rt) == old(BeforeOf(rt))
            else
              Carried(EndsOf(a, agents[a], b, agents[b], size), bidirectional, b2b, warm, hot, sts, made, ran) &&
              Books(BeforeOf(rt), old(BeforeOf(rt)), bidirectional, warm, ran, duration) &&
              duration * 1000000000.0 == TicksCounted(bidirectional, ran, warm) as real &&
              (sts == 0 ==> |ran| == (warm + hot) % 0x1_0000_0000)
  {
    ran, made, duration := [], [], duration0;
    var a := FindAgent(agents, srcNode);
    var b := FindAgent(agents, dstNode);
    if a < 0 || b < 0 { return -1, duration, [], []; }
    sts, duration, made, ran := SendBetween(rt, a, agents[a], b, agents[b], size, bidirectional, b2b, warm, hot);
    DurationCountsTicks(BeforeOf(rt), old(BeforeOf(rt)), bidirectional, warm, ran, duration);
  }

  /** The first part of iteration `i`: handles are requested unless they were kept. */
  method AcquireIfNone(rt: Runtime, a: nat, src: Agent, b: nat, dst: Agent, size: nat, bidirectional: bool, b2b: bool,
                       ghost i: nat, fwd0: Lane, rev0: Lane, ghost made0: seq<Request>, ghost live0: set<nat>,
                       ghost signals0: set<nat>, ghost requests0: seq<Request>)
    returns (sts: int, fwd: Lane, rev: Lane, ghost made: seq<Request>)
    requires rt.Valid() && src.Aligned() && dst.Aligned()
    requires Between(rt, live0, signals0, bidirectional, b2b, i, fwd0, rev0)
    requires rt.requests == requests0 + made0
    requires GrantedRounds(bidirectional, EndsOf(a, src, b, dst, size), made0, Acquisitions(b2b, i))
    modifies rt`next, rt`live, rt`granted, rt`signals, rt`requests, rt`answers
    ensures rt.Valid() && rt.requests == requests0 + made && (sts == 0 || sts == -1)
    ensures sts == 0 ==> Holding(rt, live0, signals0, bidirectional, fwd, rev) &&
                         GrantedRounds(bidirectional, EndsOf(a, src, b, dst, size), made, Acquisitions(b2b, i + 1))
    ensures sts == -1 ==> rt.live == live0 && !AllGranted(made) &&
                          Follows(bidirectional, EndsOf(a, src, b, dst, size), made) &&
                          (rt.signals == signals0 <==> !ReverseRefused(bidirectional, made))
    ensures sts == -1 && ReverseRefused(bidirectional, made) ==>
              exists s :: s !in signals0 && rt.signals == signals0 + {s}
  {
    sts, fwd, rev, made := 0, fwd0, rev0, made0;
    if (b2b && fwd.src == 0) || !b2b {
      ghost var now;
      sts, fwd, rev, now := Acquire(rt, a, src, b, dst, size, bidirectional, fwd, rev);
      if sts == 0 {
        NextRoundGranted(bidirectional, EndsOf(a, src, b, dst, size), made, Acquisitions(b2b, i));
      } else {
        NextRoundRefused(bidirectional, EndsOf(a, src, b, dst, size), made, Acquisitions(b2b, i), |now|);
      }
      made := made + now;
    }
  }

  /** SendTraffic once both agents are known. */
  method SendBetween(rt: Runtime, a: nat, src: Agent, b: nat, dst: Agent, size: nat, bidirectional: bool, b2b: bool,
                     warm: nat, hot: nat)
    returns (sts: int, duration: real, ghost made: seq<Request>, ghost ran: seq<(Interval, Interval)>)
    requires rt.Valid() && src.Aligned() && dst.Aligned()
    modifies rt
    ensures rt.Valid() && rt.live == old(rt.live) && (sts == 0 || sts == -1)
    ensures rt.requests == old(rt.requests) + made
    ensures rt.signals == old(rt.signals) <==> !ReverseRefused(bidirectional, made)
    ensures ReverseRefused(bidirectional, made) ==>
              exists s :: s !in old(rt.signals) && rt.signals == old(rt.signals) + {s}
    ensures Carried(EndsOf(a, src, b, dst, size), bidirectional, b2b, warm, hot, sts, made, ran)
    ensures Books(BeforeOf(rt), old(BeforeOf(rt)), bidirectional, warm, ran, duration)
  {
    var fwd, rev;
    sts, fwd, rev, duration, made, ran := RunIterations(rt, a, src, b, dst, size, bidirectional, b2b, warm, hot);
    if sts != 0 { return; }
    AllCarried(EndsOf(a, src, b, dst, size), bidirectional, b2b, warm, hot, made, ran);
    if fwd.src != 0 { Release(rt, bidirectional, fwd, rev, old(rt.live), old(rt.signals)); }
  }

  /** The loop over the iterations. */
  method RunIterations(rt: Runtime, a: nat, src: Agent, b: nat, dst: Agent, size: nat, bidirectional: bool, b2b: bool,
                       warm: nat, hot: nat)
    returns (sts: int, fwd: Lane, rev: Lane, duration: real, ghost made: seq<Request>,
             ghost ran: seq<(Interval, Interval)>)
    requires rt.Valid() && src.Aligned() && dst.Aligned()
    modifies rt
    ensures rt.Valid() && rt.requests == old(rt.requests) + made && (sts == 0 || sts == -1)
    ensures Books(BeforeOf(rt), old(BeforeOf(rt)), bidirectional, warm, ran, duration)
    ensures sts == 0 ==>
              var n := Iterations(warm, hot);
              Between(rt, old(rt.live), old(rt.signals), bidirectional, b2b, n, fwd, rev) && |ran| == n &&
              GrantedRounds(bidirectional, EndsOf(a, src, b, dst, size), made, Acquisitions(b2b, n))
    ensures sts == -1 ==> rt.live == old(rt.live) && !AllGranted(made) &&
                          Follows(bidirectional, EndsOf(a, src, b, dst, size), made) &&
                          (rt.signals == old(rt.signals) <==> !ReverseRefused(bidirectional, made))
    ensures sts == -1 && ReverseRefused(bidirectional, made) ==>
              exists s :: s !in old(rt.signals) && rt.signals == old(rt.signals) + {s}
  {
    ghost var e, was := EndsOf(a, src, b, dst, size), BeforeOf(rt);
    sts, ran, made, duration := 0, [], [], 0.0;
    fwd, rev := Lane(0, 0, 0), Lane(0, 0, 0);
    var i := 0;
    while i < Iterations(warm, hot)
      invariant 0 <= i <= Iterations(warm, hot) && rt.Valid() && |ran| == i && sts == 0
      invariant Between(rt, old(rt.live), old(rt.signals), bidirectional, b2b, i, fwd, rev)
      invariant rt.requests == old(rt.requests) + made && EndsOf(a, src, b, dst, size) == e
      invariant GrantedRounds(bidirectional, e, made, Acquisitions(b2b, i))
      invariant Books(BeforeOf(rt), was, bidirectional, warm, ran, duration)
    {
      sts, fwd, rev, made := AcquireIfNone(rt, a, src, b, dst, size, bidirectional, b2b, i, fwd, rev, made,
                                           old(rt.live), old(rt.signals), old(rt.requests));
      if sts != 0 { return; }
      ghost var cs;
      fwd, duration, ran, cs :=
        Iterate(rt, bidirectional, b2b, fwd, rev, i, warm, duration, ran, was, old(rt.live), old(rt.signals));
      i := i + 1;
    }
  }

  /** Iteration `i` once its handles are there: copy, wait, time if it is not a warm one, and give back unless back to
      back. */
  method Iterate(rt: Runtime, bidirectional: bool, b2b: bool, fwd0: Lane, rev: Lane, i: nat, warm: nat, duration0: real,
                 ghost ran0: seq<(Interval, Interval)>, ghost was: Before, ghost live0: set<nat>,
                 ghost signals0: set<nat>)
    returns (fwd: Lane, duration: real, ghost ran: seq<(Interval, Interval)>, ghost cs: seq<Copy>)
    requires rt.Valid() && Holding(rt, live0, signals0, bidirectional, fwd0, rev) && |ran0| == i
    requires Books(BeforeOf(rt), was, bidirectional, warm, ran0, duration0)
    modifies rt`copies, rt`profile, rt`measured, rt`transfers, rt`live, rt`signals
    ensures rt.Valid() && Between(rt, live0, signals0, bidirectional, b2b, i + 1, fwd, rev)
    ensures rt.copies == old(rt.copies) + cs && Started(bidirectional, fwd0, rev, cs)
    ensures ran == ran0 + [RanAt(bidirectional, cs)]
    ensures Books(BeforeOf(rt), was, bidirectional, warm, ran, duration)
  {
    fwd, duration := fwd0, duration0;
    cs := Transfer(rt, bidirectional, fwd, rev, live0, signals0);
    if i >= warm {
      duration := AddCopyTime(rt, bidirectional, fwd, rev, duration, TimedOf(ran0, warm));
    }
    ran := ran0 + [RanAt(bidirectional, cs)];
    NextBooks(old(BeforeOf(rt)), BeforeOf(rt), was, bidirectional, warm, ran0, RanAt(bidirectional, cs), duration0,
              duration);
    fwd := GiveBack(rt, bidirectional, b2b, fwd, rev, i, live0, signals0);
  }

  /** The last part of iteration `i`. */
  method GiveBack(rt: Runtime, bidirectional: bool, b2b: bool, fwd0: Lane, rev: Lane, ghost i: nat,
                  ghost live0: set<nat>, ghost signals0: set<nat>)
    returns (fwd: Lane)
    requires rt.Valid() && Holding(rt, live0, signals0, bidirectional, fwd0, rev)
    modifies rt`live, rt`signals
    ensures rt.Valid() && Between(rt, live0, signals0, bidirectional, b2b, i + 1, fwd, rev)
  {
    fwd := fwd0;
    if !b2b {
      Release(rt, bidirectional, fwd, rev, live0, signals0);
      fwd := fwd.(src := 0);
    }
  }

  ghost predicate Profiles(ts: seq<(Interval, Interval)>) {
    forall i :: 0 <= i < |ts| ==> WellFormed(ts[i].0) && WellFormed(ts[i].1)
  }

  /** When the copies under the lanes' signals ran. */
  ghost function Profiled(rt: Runtime, bidirectional: bool, fwd: Lane, rev: Lane): (Interval, Interval)
    reads rt`profile
    requires fwd.signal in rt.profile && (bidirectional ==> rev.signal in rt.profile)
  {
    (rt.profile[fwd.signal], rt.profile[if bidirectional then rev.signal else fwd.signal])
  }

  /** Starting the copies of one iteration and waiting for them. */
  method Transfer(rt: Runtime, bidirectional: bool, fwd: Lane, rev: Lane, ghost live0: set<nat>,
                  ghost signals0: set<nat>)
    returns (ghost cs: seq<Copy>)
    requires rt.Valid() && Holding(rt, live0, signals0, bidirectional, fwd, rev)
    modifies rt`copies, rt`profile, rt`transfers
    ensures rt.Valid() && rt.copies == old(rt.copies) + cs && Started(bidirectional, fwd, rev, cs)
    ensures fwd.signal in rt.profile && (bidirectional ==> rev.signal in rt.profile)
    ensures Profiled(rt, bidirectional, fwd, rev) == RanAt(bidirectional, cs)
    ensures rt.transfers == old(rt.transfers) + [RanAt(bidirectional, cs)] && Profiles([RanAt(bidirectional, cs)])
  {
    rt.AsyncCopy(fwd.dst, fwd.src, fwd.signal);
    cs := [Copy(fwd.dst, fwd.src, fwd.signal, rt.profile[fwd.signal])];
    if bidirectional {
      rt.AsyncCopy(rev.dst, rev.src, rev.signal);
      cs := cs + [Copy(rev.dst, rev.src, rev.signal, rt.profile[rev.signal])];
    }
    rt.transfers := rt.transfers + [RanAt(bidirectional, cs)];
  }

  /** Adding the copy time of a timed iteration to the running duration. */
  method AddCopyTime(rt: Runtime, bidirectional: bool, fwd: Lane, rev: Lane, duration0: real,
                     ghost timed0: seq<(Interval, Interval)>)
    returns (duration: real)
    requires rt.Valid() && fwd.signal in rt.signals && fwd.signal in rt.profile
    requires bidirectional ==> rev.signal in rt.signals && rev.signal in rt.profile
    requires duration0 == Seconds(BusyTicks(bidirectional, timed0))
    modifies rt`measured
    ensures rt.Valid() && rt.measured == old(rt.measured) + [Profiled(rt, bidirectional, fwd, rev)]
    ensures duration == Seconds(BusyTicks(bidirectional, timed0 + [Profiled(rt, bidirectional, fwd, rev)]))
  {
    BusyTicksAppend(bidirectional, timed0, Profiled(rt, bidirectional, fwd, rev));
    var t := rt.GetCopyTime(bidirectional, fwd.signal, rev.signal);
    duration := duration0 + Seconds(t);
  }
}
