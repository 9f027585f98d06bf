/** rvs::timer: a controlling thread that starts and stops, a timer thread that waits and calls back, and the shared
    fields through which alone they communicate. Every read and write of a shared field is a step of its own. */
module Timer {
  import opened Wrappers

  /** Nanoseconds in the millisecond the deadline test is rounded to. */
  const MS: int := 1_000_000

  /** Where the timer thread stands in run(). NoThread: none was started, or it has been joined. */
  datatype Worker =
    | NoThread
    | WaitTest          // while (brun)
    | Sleeping          // sleeping, then comparing the clock with end_time
    | FireTest          // if (brun)
    | Calling           // inside the callback
    | OnceTest          // if (brunonce)
    | ClearRun          // brun = false
    | Rearm             // reading timeset for now + timeset
    | StoreEnd(at: int, wait: int) // end_time = that sum
    | LoopTest          // while (brun) of the do loop
    | Exited

  /** Where the controlling thread stands in start() or stop(). */
  datatype Control =
    | Idle
    | SetInterval(interval: int)
    | SetEnd            // reading timeset for now + timeset
    | KeepEnd(at: int, wait: int) // end_time = that sum
    | RunTest
    | SetRun
    | Spawn
    | Yield
    | Join

  /** The shared fields, the std::thread object, and a history: how many starts and callbacks there have been, whether
      every start (onlyOnce), or any since the last join (onceSinceJoin), asked for a single tick, when the latest start
      read the clock (startedAt), from when and for how long end_time was last set (armedAt, armedFor), whether the
      latest wait ended because the deadline test succeeded (due), and what that test saw: the clock, end_time, and
      from when and for how long that had been set. */
  datatype State = State(
    brun: bool, brunonce: bool, timeset: int, endTime: int,
    joinable: bool, worker: Worker, control: Control, crashed: bool,
    starts: nat, callbacks: nat, onlyOnce: bool, onceSinceJoin: bool,
    startedAt: int, armedAt: int, armedFor: int,
    due: bool, seenNow: int, seenEnd: int, seenAt: int, seenFor: int)

  const INIT := State(false, false, 0, 0, false, NoThread, Idle, false, 0, 0, true, false, 0, 0, 0, false, 0, 0, 0, 0)

  datatype Event =
    | CallStart(interval: int, once: bool)
    | CallStop
    | ControlStep(now: int)
    | WorkerStep(now: int)

  /** std::chrono::duration_cast to milliseconds: towards zero. */
  function TruncMs(ns: int): int { if ns >= 0 then ns / MS else -((-ns) / MS) }

  /** `wait` milliseconds after `at`. */
  function Deadline(at: int, wait: int): int { at + wait * MS }

  /** The deadline test. */
  predicate Due(now: int, end: int) { TruncMs(now - end) >= 0 }

  /** Rounding towards zero lets the test succeed up to, but not including, one millisecond before the deadline. */
  lemma DueIff(now: int, end: int)
    ensures Due(now, end) <==> now - end > -1_000_000
  {
  }

  lemma DueBeforeDeadline()
    ensures Due(0, 999_999) && !Due(0, 1_000_000)
  {
  }

  // ---------------------------------------------------------------- steps

  /** Where the timer thread goes from its current statement. */
  function WorkerGoes(s: State, now: int): Worker {
    match s.worker
    case NoThread => NoThread
    case WaitTest => if s.brun then Sleeping else FireTest
    case Sleeping => if Due(now, s.endTime) then FireTest else WaitTest
    case FireTest => if s.brun then Calling else OnceTest
    case Calling => OnceTest
    case OnceTest => if s.brunonce then ClearRun else Rearm
    case ClearRun => LoopTest
    case Rearm => StoreEnd(now, s.timeset)
    case StoreEnd(_, _) => LoopTest
    case LoopTest => if s.brun then WaitTest else Exited
    case Exited => Exited
  }

  /** The next statement of run(): where it goes, what it writes, and what the history records of it. */
  function WorkerNext(s: State, now: int): Option<State> {
    if s.worker.NoThread? || s.worker.Exited? then None
    else
      var w := WorkerGoes(s, now);
      var tested := s.worker.Sleeping? && w.FireTest?;
      Some(s.(worker := w,
              brun := s.brun && !s.worker.ClearRun?,
              endTime := if s.worker.StoreEnd? then Deadline(s.worker.at, s.worker.wait) else s.endTime,
              armedAt := if s.worker.StoreEnd? then s.worker.at else s.armedAt,
              armedFor := if s.worker.StoreEnd? then s.worker.wait else s.armedFor,
              callbacks := s.callbacks + if w.Calling? then 1 else 0,
              due := if s.worker.Sleeping? || s.worker.WaitTest? then tested else s.due,
              seenNow := if tested then now else s.seenNow,
              seenEnd := if tested then s.endTime else s.seenEnd,
              seenAt := if tested then s.armedAt else s.seenAt,
              seenFor := if tested then s.armedFor else s.seenFor))
  }

  /** Where the controlling thread goes from its current statement. */
  function ControlGoes(s: State, now: int): Control {
    match s.control
    case Idle => Idle
    case SetInterval(_) => SetEnd
    case SetEnd => KeepEnd(now, s.timeset)
    case KeepEnd(_, _) => RunTest
    case RunTest => if s.brun then Idle else SetRun
    case SetRun => Spawn
    case Spawn => Idle
    case Yield => Join
    case Join => Idle
  }

  /** The next statement of start() or stop(). Assigning a new std::thread to a joinable one terminates the program;
      joining waits for the timer thread to exit. */
  function ControlNext(s: State, now: int): Option<State> {
    if s.control.Idle? || (s.control.Join? && s.joinable && s.worker != Exited) then None
    else
      var c := s.control;
      var joins := c.Join? && s.joinable;
      Some(s.(control := ControlGoes(s, now),
              timeset := if c.SetInterval? then c.interval else s.timeset,
              endTime := if c.KeepEnd? then Deadline(c.at, c.wait) else s.endTime,
              startedAt := if c.SetEnd? then now else s.startedAt,
              armedAt := if c.KeepEnd? then c.at else s.armedAt,
              armedFor := if c.KeepEnd? then c.wait else s.armedFor,
              brun := s.brun || c.SetRun?,
              crashed := s.crashed || (c.Spawn? && s.joinable),
              joinable := (s.joinable || c.Spawn?) && !joins,
              worker := if joins then NoThread else if c.Spawn? && !s.joinable then WaitTest else s.worker,
              onceSinceJoin := s.onceSinceJoin && !joins))
  }

  function Next(s: State, e: Event): Option<State> {
    if s.crashed then None
    else match e
      case CallStart(interval, once) =>
        if s.control != Idle then None
        else Some(s.(brunonce := once, control := SetInterval(interval), starts := s.starts + 1,
                     onlyOnce := s.onlyOnce && once, onceSinceJoin := s.onceSinceJoin || once))
      case CallStop => if s.control != Idle then None else Some(s.(brun := false, control := Yield))
      case ControlStep(now) => ControlNext(s, now)
      case WorkerStep(now) => WorkerNext(s, now)
  }

  /** The state after a run, if every event was possible when it came. */
  function Run(s: State, es: seq<Event>): Option<State>
    decreases |es|
  {
    if es == [] then Some(s)
    else match Next(s, es[0])
      case None => None
      case Some(t) => Run(t, es[1..])
  }

  // ---------------------------------------------------------------- what every step keeps

  predicate Starting(c: Control) {
    c.SetInterval? || c.SetEnd? || c.KeepEnd? || c.RunTest? || c.SetRun? || c.Spawn?
  }

  predicate Stopping(c: Control) { c.Yield? || c.Join? }

  predicate Rearming(w: Worker) { w.Rearm? || w.StoreEnd? }

  /** The worker may still call back once before it looks at brunonce. */
  function Pending(s: State): nat {
    match s.worker
    case WaitTest => 1
    case Sleeping => 1
    case FireTest => 1
    case LoopTest => if s.brun then 1 else 0
    case NoThread => 0
    case Calling => 0
    case OnceTest => 0
    case ClearRun => 0
    case Rearm => 0
    case StoreEnd(_, _) => 0
    case Exited => 0
  }

  /** A start in progress that has not turned into anything yet. */
  function Credit(s: State): nat {
    if s.control.SetInterval? || s.control.SetEnd? || s.control.KeepEnd? || s.control.RunTest? || s.control.SetRun? ||
       (s.control.Spawn? && !s.joinable) then 1 else 0
  }

  /** The thread object and the run flag. */
  predicate Structure(s: State) {
    // a thread object is unjoined exactly while its thread exists
    (s.joinable <==> s.worker != NoThread) &&
    // the run flag is down between a join and the next spawn, and while stop() is in progress
    (!s.joinable && !s.control.Spawn? ==> !s.brun) && (s.control.Spawn? && !s.joinable ==> s.brun) &&
    (Stopping(s.control) ==> !s.brun) && (s.joinable || Starting(s.control) ==> s.starts > 0)
  }

  /** How a wait can end. */
  predicate Waits(s: State) {
    // a wait that ended without the deadline test ended because of stop()
    ((s.worker.FireTest? || s.worker.Calling?) && !s.due ==> s.worker.FireTest? && !s.brun && Stopping(s.control)) &&
    (s.due ==> s.seenNow - s.seenEnd > -MS && s.seenEnd == Deadline(s.seenAt, s.seenFor)) &&
    // end_time is always some interval after some reading of the clock
    s.endTime == Deadline(s.armedAt, s.armedFor) &&
    // a wait in progress sees the flag down only because of stop()
    (s.worker.WaitTest? || s.worker.Sleeping? ==> s.brun || Stopping(s.control))
  }

  /** Single-tick starts pay for callbacks. */
  predicate Budget(s: State) {
    s.onlyOnce ==> (s.starts > 0 ==> s.brunonce) && !Rearming(s.worker) &&
                   s.callbacks + Pending(s) + Credit(s) <= s.starts
  }

  predicate Inv(s: State) { Structure(s) && Waits(s) && Budget(s) }

  lemma WorkerKeepsStructure(s: State, now: int, t: State)
    requires Structure(s) && WorkerNext(s, now) == Some(t)
    ensures Structure(t)
  {
  }

  lemma WorkerKeepsWaits(s: State, now: int, t: State)
    requires Structure(s) && Waits(s) && WorkerNext(s, now) == Some(t)
    ensures Waits(t)
  {
    DueIff(now, s.endTime);
  }

  lemma WorkerKeepsBudget(s: State, now: int, t: State)
    requires Structure(s) && Budget(s) && WorkerNext(s, now) == Some(t)
    ensures Budget(t)
  {
  }

  lemma ControlKeepsStructure(s: State, now: int, t: State)
    requires Structure(s) && ControlNext(s, now) == Some(t)
    ensures Structure(t)
  {
  }

  lemma ControlKeepsWaits(s: State, now: int, t: State)
    requires Structure(s) && Waits(s) && ControlNext(s, now) == Some(t)
    ensures Waits(t)
  {
  }

  lemma ControlKeepsBudget(s: State, now: int, t: State)
    requires Structure(s) && Waits(s) && Budget(s) && ControlNext(s, now) == Some(t)
    ensures Budget(t)
  {
  }

  lemma NextKeepsInv(s: State, e: Event)
    requires Inv(s) && Next(s, e).Some?
    ensures Inv(Next(s, e).value)
  {
    var t := Next(s, e).value;
    match e
    case CallStart(_, _) =>
    case CallStop =>
    case ControlStep(now) =>
      ControlKeepsStructure(s, now, t);
      ControlKeepsWaits(s, now, t);
      ControlKeepsBudget(s, now, t);
    case WorkerStep(now) =>
      WorkerKeepsStructure(s, now, t);
      WorkerKeepsWaits(s, now, t);
      WorkerKeepsBudget(s, now, t);
  }

  lemma {:induction false} RunKeepsInv(s: State, es: seq<Event>)
    requires Inv(s) && Run(s, es).Some?
    ensures Inv(Run(s, es).value)
    decreases |es|
  {
    if es != [] {
      NextKeepsInv(s, es[0]);
      RunKeepsInv(Next(s, es[0]).value, es[1..]);
    }
  }

  // ---------------------------------------------------------------- safety over whole runs

  /** In every interleaving: a timer that was never started for periodic ticks has called back at most as often as it
      was started, and a callback is running only if less than a millisecond of the interval it was armed for was
      missing when the clock was read. */
  lemma EveryRunIsSafe(es: seq<Event>)
    requires Run(INIT, es).Some?
    ensures var s := Run(INIT, es).value;
            (s.onlyOnce ==> s.callbacks <= s.starts) &&
            (s.worker.Calling? ==> s.seenNow > s.seenAt + (s.seenFor - 1) * 1_000_000)
  {
    RunKeepsInv(INIT, es);
  }

  /** Every start asks for the interval `v`. */
  predicate StartsFor(v: int, es: seq<Event>) { forall i :: 0 <= i < |es| && es[i].CallStart? ==> es[i].interval == v }

  /** Wherever an interval is kept, it is `v`. */
  predicate WaitsFor(s: State, v: int) {
    (s.control.SetInterval? ==> s.control.interval == v) && (s.control.KeepEnd? ==> s.control.wait == v) &&
    (s.worker.StoreEnd? ==> s.worker.wait == v) &&
    ((Starting(s.control) && !s.control.SetInterval?) || s.joinable ==> s.timeset == v) &&
    (s.control.RunTest? || s.control.SetRun? || s.control.Spawn? || s.joinable ==> s.armedFor == v) &&
    (s.due ==> s.seenFor == v)
  }

  lemma WaitsForStep(s: State, v: int, e: Event)
    requires Inv(s) && WaitsFor(s, v) && (e.CallStart? ==> e.interval == v) && Next(s, e).Some?
    ensures WaitsFor(Next(s, e).value, v)
  {
  }

  lemma {:induction false} WaitsForRun(s: State, v: int, es: seq<Event>)
    requires Inv(s) && WaitsFor(s, v) && StartsFor(v, es) && Run(s, es).Some?
    ensures WaitsFor(Run(s, es).value, v)
    decreases |es|
  {
    if es != [] {
      var t := Next(s, es[0]).value;
      NextKeepsInv(s, es[0]);
      WaitsForStep(s, v, es[0]);
      assert forall i :: 0 <= i < |es[1..]| ==> es[1..][i] == es[i + 1];
      WaitsForRun(t, v, es[1..]);
    }
  }

  /** A timer that is only ever started for the interval `v`, once or periodically, never calls back before `v`, short
      of one millisecond, has gone by since the reading of the clock it was armed with. */
  lemma TicksWaitTheirInterval(v: int, es: seq<Event>)
    requires StartsFor(v, es) && Run(INIT, es).Some?
    ensures var s := Run(INIT, es).value; s.worker.Calling? ==> s.seenNow > s.seenAt + (v - 1) * 1_000_000
  {
    RunKeepsInv(INIT, es);
    WaitsForRun(INIT, v, es);
  }

  predicate IsStart(e: Event) { e.CallStart? }

  /** Once stop() has returned, no callback begins until start() is called again. */
  lemma {:induction false} NoCallbackAfterStop(s: State, es: seq<Event>)
    requires Inv(s) && s.control.Idle? && !s.joinable && Run(s, es).Some?
    requires forall i :: 0 <= i < |es| ==> !IsStart(es[i])
    ensures Run(s, es).value.callbacks == s.callbacks
    decreases |es|
  {
    if es != [] { QuietStep(s, es); }
  }

  lemma {:induction false} QuietStep(s: State, es: seq<Event>)
    requires Inv(s) && !Starting(s.control) && !s.joinable && es != [] && Run(s, es).Some?
    requires forall i :: 0 <= i < |es| ==> !IsStart(es[i])
    ensures Run(s, es).value.callbacks == s.callbacks
    decreases |es|
  {
    assert !IsStart(es[0]);
    var t := Next(s, es[0]).value;
    NextKeepsInv(s, es[0]);
    assert t.callbacks == s.callbacks && !Starting(t.control) && !t.joinable;
    if es[1..] != [] { QuietStep(t, es[1..]); }
  }

  predicate NoStarts(es: seq<Event>) { forall i :: 0 <= i < |es| ==> !IsStart(es[i]) }

  predicate NoStops(es: seq<Event>) { forall i :: 0 <= i < |es| ==> !es[i].CallStop? }

  /** A single-tick start in progress or running: it has at most one callback left in it. */
  predicate Single(s: State, base: nat) {
    s.brunonce && !s.crashed && !Rearming(s.worker) && (Starting(s.control) ==> !s.joinable) &&
    s.callbacks + Pending(s) + Credit(s) <= base + 1
  }

  /** Such a start waits for its own interval, counted from its own reading of the clock. */
  predicate Punctual(s: State, base: nat, interval: int) {
    var c := s.control;
    (c.SetInterval? ==> c.interval == interval) && (c.SetEnd? ==> s.timeset == interval) &&
    (c.KeepEnd? ==> c.at == s.startedAt && c.wait == interval) &&
    (!c.SetInterval? && !c.SetEnd? && !c.KeepEnd? ==> s.armedAt == s.startedAt && s.armedFor == interval) &&
    ((s.worker.FireTest? && s.due) || s.worker.Calling? || s.callbacks > base ==>
       s.seenAt == s.startedAt && s.seenFor == interval && s.seenNow > Deadline(s.startedAt, interval) - MS)
  }

  lemma PunctualStep(s: State, base: nat, interval: int, e: Event)
    requires Inv(s) && Single(s, base) && Punctual(s, base, interval) && !IsStart(e) && Next(s, e).Some?
    ensures Punctual(Next(s, e).value, base, interval)
  {
    NextKeepsInv(s, e);
  }

  lemma SingleStep(s: State, base: nat, e: Event)
    requires Structure(s) && Single(s, base) && !IsStart(e) && Next(s, e).Some?
    ensures Single(Next(s, e).value, base)
  {
  }

  lemma {:induction false} SingleRun(s: State, base: nat, interval: int, es: seq<Event>)
    requires Inv(s) && Single(s, base) && Punctual(s, base, interval) && NoStarts(es) && Run(s, es).Some?
    ensures Single(Run(s, es).value, base) && Punctual(Run(s, es).value, base, interval)
    decreases |es|
  {
    if es != [] {
      assert !IsStart(es[0]);
      NextKeepsInv(s, es[0]);
      SingleStep(s, base, es[0]);
      PunctualStep(s, base, interval, es[0]);
      SingleRun(Next(s, es[0]).value, base, interval, es[1..]);
    }
  }

  /** While nobody stops it, the callback is neither lost nor used up early: the flag stays up until it has been
      made. */
  predicate Ticking(s: State, base: nat) {
    Single(s, base) && !Stopping(s.control) && s.callbacks + Pending(s) + Credit(s) == base + 1 &&
    (s.worker.WaitTest? || s.worker.Sleeping? || s.worker.FireTest? ==> s.brun) &&
    (s.worker.LoopTest? || s.worker.Exited? ==> !s.brun)
  }

  lemma TickingStep(s: State, base: nat, e: Event)
    requires Structure(s) && Ticking(s, base) && !IsStart(e) && !e.CallStop? && Next(s, e).Some?
    ensures Ticking(Next(s, e).value, base)
  {
  }

  lemma {:induction false} TickingRun(s: State, base: nat, es: seq<Event>)
    requires Inv(s) && Ticking(s, base) && NoStarts(es) && NoStops(es) && Run(s, es).Some?
    ensures Ticking(Run(s, es).value, base)
    decreases |es|
  {
    if es != [] {
      assert !IsStart(es[0]) && !es[0].CallStop?;
      NextKeepsInv(s, es[0]);
      TickingStep(s, base, es[0]);
      TickingRun(Next(s, es[0]).value, base, es[1..]);
    }
  }

  /** Whatever happened before, a single-tick start of a timer that is not running calls back at most once until the
      next start, less than a millisecond before its interval is over at the earliest; and exactly once if nobody stops
      it and its thread runs to the end. */
  lemma OneTickPerStart(s: State, interval: int, es: seq<Event>)
    requires Inv(s) && !s.crashed && s.control.Idle? && !s.joinable
    requires NoStarts(es) && Run(s, [CallStart(interval, true)] + es).Some?
    ensures var t := Run(s, [CallStart(interval, true)] + es).value;
            t.callbacks <= s.callbacks + 1 && !t.crashed &&
            (t.callbacks > s.callbacks ==> t.seenNow > t.startedAt + (interval - 1) * 1_000_000) &&
            (NoStops(es) && t.worker.Exited? ==> t.callbacks == s.callbacks + 1)
  {
    var e := CallStart(interval, true);
    var t := Next(s, e).value;
    assert ([e] + es)[1..] == es;
    NextKeepsInv(s, e);
    SingleRun(t, s.callbacks, interval, es);
    RunKeepsInv(t, es);
    if NoStops(es) { TickingRun(t, s.callbacks, es); }
  }

  /** stop() returns only with the timer thread joined. */
  lemma StopReturnsJoined(s: State, now: int)
    requires Inv(s) && s.control.Join? && ControlNext(s, now).Some?
    ensures var t := ControlNext(s, now).value; t.control.Idle? && !t.joinable && t.worker == NoThread && !t.brun
  {
  }

  // ---------------------------------------------------------------- the pace of a periodic timer

  /** The clock stands at `t` or later when the run begins, and never goes back. */
  predicate Clocked(t: int, es: seq<Event>)
    decreases |es|
  {
    es == [] ||
    match es[0]
    case CallStart(_, _) => Clocked(t, es[1..])
    case CallStop => Clocked(t, es[1..])
    case ControlStep(now) => t <= now && Clocked(now, es[1..])
    case WorkerStep(now) => t <= now && Clocked(now, es[1..])
  }

  /** What the clock shows after an event. */
  function ClockAfter(t: int, e: Event): int { if e.ControlStep? || e.WorkerStep? then e.now else t }

  /** The timer thread's round after callback number `base`, whose test read the clock at `from`: before the next test
      the deadline is set anew, from a reading of the clock that is not older. */
  predicate Pacing(s: State, base: nat, from: int, v: int) {
    s.callbacks >= base && !Starting(s.control) && (s.joinable ==> s.timeset == v) &&
    (s.callbacks == base ==>
       (s.worker.StoreEnd? ==> s.worker.at >= from && s.worker.wait == v) &&
       (s.worker.WaitTest? || s.worker.Sleeping? || s.worker.FireTest? || (s.worker.LoopTest? && s.brun) ==>
          s.armedAt >= from && s.armedFor == v) &&
       (s.worker.FireTest? && s.due ==> s.seenNow > from + (v - 1) * 1_000_000)) &&
    (s.callbacks == base + 1 && s.worker.Calling? ==> s.seenNow > from + (v - 1) * 1_000_000)
  }

  lemma PacingStep(s: State, base: nat, from: int, v: int, e: Event)
    requires Inv(s) && Pacing(s, base, from, v) && !IsStart(e) && Next(s, e).Some?
    requires e.ControlStep? || e.WorkerStep? ==> e.now >= from
    ensures Pacing(Next(s, e).value, base, from, v)
  {
    if e.WorkerStep? { DueIff(e.now, s.endTime); }
  }

  lemma {:induction false} PacingRun(s: State, base: nat, from: int, v: int, t: int, es: seq<Event>)
    requires Inv(s) && Pacing(s, base, from, v) && NoStarts(es) && t >= from && Clocked(t, es) && Run(s, es).Some?
    ensures Pacing(Run(s, es).value, base, from, v)
    decreases |es|
  {
    if es != [] {
      assert !IsStart(es[0]);
      NextKeepsInv(s, es[0]);
      PacingStep(s, base, from, v, es[0]);
      PacingRun(Next(s, es[0]).value, base, from, v, ClockAfter(t, es[0]), es[1..]);
    }
  }

  /** The latest successful test read the clock before now. */
  lemma {:induction false} TestsArePast(s: State, t: int, xs: seq<Event>, ys: seq<Event>) returns (t': int)
    requires (s.due ==> s.seenNow <= t) && Clocked(t, xs + ys) && Run(s, xs).Some?
    ensures (Run(s, xs).value.due ==> Run(s, xs).value.seenNow <= t') && Clocked(t', ys)
    decreases |xs|
  {
    if xs == [] {
      assert xs + ys == ys;
      t' := t;
    } else {
      assert (xs + ys)[0] == xs[0] && (xs + ys)[1..] == xs[1..] + ys;
      t' := TestsArePast(Next(s, xs[0]).value, ClockAfter(t, xs[0]), xs[1..], ys);
    }
  }

  /** The interval asked for last is the one kept, or about to be. */
  predicate Keeps(s: State, v: int) { if s.control.SetInterval? then s.control.interval == v else s.timeset == v }

  lemma {:induction false} KeepsRun(s: State, v: int, es: seq<Event>)
    requires Keeps(s, v) && NoStarts(es) && Run(s, es).Some?
    ensures Keeps(Run(s, es).value, v)
    decreases |es|
  {
    if es != [] {
      assert !IsStart(es[0]);
      KeepsRun(Next(s, es[0]).value, v, es[1..]);
    }
  }

  /** A timer keeps the pace it was last given, in every interleaving: if the clock never goes back, the latest start
      before one callback asked for `v` milliseconds and is no longer under way, and none is made before the next
      callback, then the tests that led to the two callbacks read the clock more than `v` milliseconds, short of one,
      apart. */
  lemma TicksAreApart(v: int, once: bool, t: int, x0: seq<Event>, x1: seq<Event>, ys: seq<Event>)
    requires var xs := x0 + ([CallStart(v, once)] + x1);
             Run(INIT, xs).Some? && Run(INIT, xs + ys).Some? && Clocked(t, xs + ys)
    requires NoStarts(x1) && NoStarts(ys)
    ensures var xs := x0 + ([CallStart(v, once)] + x1);
            var first, second := Run(INIT, xs).value, Run(INIT, xs + ys).value;
            first.worker.Calling? && second.worker.Calling? && second.callbacks == first.callbacks + 1 &&
            !Starting(first.control) ==>
              second.seenNow - first.seenNow > (v - 1) * 1_000_000
  {
    var xs := x0 + ([CallStart(v, once)] + x1);
    var first := Run(INIT, xs).value;
    RunAppend(INIT, xs, ys);
    RunKeepsInv(INIT, xs);
    IntervalTakesEffect(v, once, x0, x1);
    var t' := TestsArePast(INIT, t, xs, ys);
    if first.worker.Calling? && !Starting(first.control) {
      ClockedEarlier(first.seenNow, t', ys);
      PacingRun(first, first.callbacks, first.seenNow, v, first.seenNow, ys);
    }
  }

  /** Whatever went before, the interval of the latest start is the one in force once that start is over. */
  lemma IntervalTakesEffect(v: int, once: bool, x0: seq<Event>, x1: seq<Event>)
    requires Run(INIT, x0 + ([CallStart(v, once)] + x1)).Some? && NoStarts(x1)
    ensures Keeps(Run(INIT, x0 + ([CallStart(v, once)] + x1)).value, v)
  {
    var e := CallStart(v, once);
    RunPrefix(INIT, x0, [e] + x1);
    RunAppend(INIT, x0, [e] + x1);
    var s := Run(INIT, x0).value;
    assert ([e] + x1)[0] == e && ([e] + x1)[1..] == x1;
    KeepsRun(Next(s, e).value, v, x1);
  }

  lemma {:induction false} RunPrefix(s: State, xs: seq<Event>, ys: seq<Event>)
    requires Run(s, xs + ys).Some?
    ensures Run(s, xs).Some?
    decreases |xs|
  {
    if xs != [] {
      assert (xs + ys)[0] == xs[0] && (xs + ys)[1..] == xs[1..] + ys;
      RunPrefix(Next(s, xs[0]).value, xs[1..], ys);
    }
  }

  lemma ClockedEarlier(t: int, t': int, es: seq<Event>)
    requires t <= t' && Clocked(t', es)
    ensures Clocked(t, es)
    decreases |es|
  {
    if es != [] && !es[0].ControlStep? && !es[0].WorkerStep? { ClockedEarlier(t, t', es[1..]); }
  }

  /** The first round after a start, single-tick or periodic, of a timer that was not running; the clock stood at `from`
      when start() was called. */
  predicate Opening(s: State, base: nat, from: int, v: int) {
    var c, w := s.control, s.worker;
    s.callbacks >= base && (Starting(c) ==> !s.joinable) &&
    (s.callbacks == base ==>
       (c.SetInterval? ==> c.interval == v) && (c.SetEnd? ==> s.timeset == v) &&
       (c.KeepEnd? ==> c.at >= from && c.wait == v) && !w.Calling? &&
       (c.RunTest? || c.SetRun? || c.Spawn? || w.WaitTest? || w.Sleeping? || w.FireTest? ==>
          s.armedAt >= from && s.armedFor == v) &&
       (w.FireTest? && s.due ==> s.seenNow > from + (v - 1) * 1_000_000) &&
       (w.OnceTest? || w.ClearRun? || Rearming(w) || w.LoopTest? ==> !s.brun)) &&
    (s.callbacks == base + 1 && w.Calling? ==> s.seenNow > from + (v - 1) * 1_000_000)
  }

  lemma OpeningStep(s: State, base: nat, from: int, v: int, e: Event)
    requires Inv(s) && Opening(s, base, from, v) && !IsStart(e) && Next(s, e).Some?
    requires e.ControlStep? || e.WorkerStep? ==> e.now >= from
    ensures Opening(Next(s, e).value, base, from, v)
  {
    if e.WorkerStep? { DueIff(e.now, s.endTime); }
  }

  lemma {:induction false} OpeningRun(s: State, base: nat, from: int, v: int, t: int, es: seq<Event>)
    requires Inv(s) && Opening(s, base, from, v) && NoStarts(es) && t >= from && Clocked(t, es) && Run(s, es).Some?
    ensures Opening(Run(s, es).value, base, from, v)
    decreases |es|
  {
    if es != [] {
      assert !IsStart(es[0]);
      NextKeepsInv(s, es[0]);
      OpeningStep(s, base, from, v, es[0]);
      OpeningRun(Next(s, es[0]).value, base, from, v, ClockAfter(t, es[0]), es[1..]);
    }
  }

  /** The first callback after any start of a timer that is not running comes less than a millisecond before the
      interval is over, counted from the moment start() was called. */
  lemma FirstTickWaits(s: State, interval: int, once: bool, from: int, es: seq<Event>)
    requires Inv(s) && !s.crashed && s.control.Idle? && !s.joinable && Clocked(from, es)
    requires NoStarts(es) && Run(s, [CallStart(interval, once)] + es).Some?
    ensures var t := Run(s, [CallStart(interval, once)] + es).value;
            t.worker.Calling? && t.callbacks == s.callbacks + 1 ==> t.seenNow > from + (interval - 1) * 1_000_000
  {
    var e := CallStart(interval, once);
    RunCons(s, e, es);
    NextKeepsInv(s, e);
    OpeningRun(Next(s, e).value, s.callbacks, from, interval, from, es);
  }

  /** Worker steps until the next callback of a periodic timer. */
  function StepsToCall(w: Worker): nat {
    match w
    case FireTest => 1
    case Sleeping => 2
    case WaitTest => 3
    case LoopTest => 4
    case StoreEnd(_, _) => 5
    case Rearm => 6
    case OnceTest => 7
    case Calling => 8
    case NoThread => 0
    case ClearRun => 0
    case Exited => 0
  }

  /** No tick is the last one: a periodic timer whose flag is up can always go on to its next callback by itself. */
  lemma {:induction false} NextTickCanCome(s: State) returns (es: seq<Event>)
    requires !s.crashed && s.brun && !s.brunonce && s.worker != NoThread && !s.worker.ClearRun? && !s.worker.Exited?
    ensures WorkerOnly(es) && Run(s, es).Some? && Run(s, es).value.callbacks == s.callbacks + 1
    decreases StepsToCall(s.worker)
  {
    var e := WorkerStep(s.endTime);
    var t := Next(s, e).value;
    es := [];
    if t.callbacks == s.callbacks { es := NextTickCanCome(t); } else { assert Run(t, []) == Some(t); }
    RunCons(s, e, es);
    es := [e] + es;
  }

  /** The first half of OverlappingStartDoublesTick. */
  lemma StartUnderWay(s: State) returns (xs: seq<Event>)
    requires Inv(s) && !s.crashed && s.control.Idle? && s.worker.WaitTest? && s.brun && s.endTime >= s.armedAt
    ensures Run(s, xs).Some? && xs == [CallStart(s.armedFor, false), ControlStep(s.armedAt), ControlStep(s.armedAt),
                                       WorkerStep(s.armedAt), WorkerStep(s.endTime), WorkerStep(s.endTime)]
    ensures var t := Run(s, xs).value;
            !t.crashed && t.control == KeepEnd(s.armedAt, s.armedFor) && t.worker.Calling? && t.brun && !t.brunonce &&
            t.callbacks == s.callbacks + 1 && t.seenNow == s.endTime
  {
    var c, w, d := ControlStep(s.armedAt), WorkerStep(s.armedAt), WorkerStep(s.endTime);
    var e := CallStart(s.armedFor, false);
    var s1 := Next(s, e).value;
    var s2 := Next(s1, c).value;
    var s3 := Next(s2, c).value;
    var s4 := Next(s3, w).value;
    var s5 := Next(s4, d).value;
    var s6 := Next(s5, d).value;
    assert Run(s6, []) == Some(s6);
    RunCons(s5, d, []);
    RunCons(s4, d, [d]);
    RunCons(s3, w, [d] + [d]);
    RunCons(s2, c, [w] + ([d] + [d]));
    RunCons(s1, c, [c] + ([w] + ([d] + [d])));
    RunCons(s, e, [c] + ([c] + ([w] + ([d] + [d]))));
    xs := [e] + ([c] + ([c] + ([w] + ([d] + [d]))));
  }

  /** The second half: the timer thread arms the next tick, and then start() writes its own, older deadline. */
  lemma StartWritesLate(s: State, d: int) returns (ys: seq<Event>)
    requires !s.crashed && s.control.KeepEnd? && s.worker.Calling? && s.brun && !s.brunonce
    ensures Run(s, ys).Some? && |ys| == 5
    ensures forall i :: 0 <= i < |ys| ==> ys[i] == ControlStep(d) || ys[i] == WorkerStep(d)
    ensures var t := Run(s, ys).value;
            !t.crashed && t.worker.LoopTest? && t.brun && t.callbacks == s.callbacks &&
            t.endTime == Deadline(s.control.at, s.control.wait)
  {
    var c, w := ControlStep(d), WorkerStep(d);
    var s1 := Next(s, w).value;
    var s2 := Next(s1, w).value;
    var s3 := Next(s2, w).value;
    var s4 := Next(s3, w).value;
    var s5 := Next(s4, c).value;
    assert Run(s5, []) == Some(s5);
    RunCons(s4, c, []);
    RunCons(s3, w, [c]);
    RunCons(s2, w, [w] + [c]);
    RunCons(s1, w, [w] + ([w] + [c]));
    RunCons(s, w, [w] + ([w] + ([w] + [c])));
    ys := [w] + ([w] + ([w] + ([w] + [c])));
  }

  /** And the thread calls back again, on the same reading of the clock. */
  lemma TickAgain(s: State, d: int) returns (ys: seq<Event>)
    requires !s.crashed && s.worker.LoopTest? && s.brun && d >= s.endTime
    ensures Run(s, ys).Some? && |ys| == 4
    ensures forall i :: 0 <= i < |ys| ==> ys[i] == ControlStep(d) || ys[i] == WorkerStep(d)
    ensures var t := Run(s, ys).value; t.worker.Calling? && t.callbacks == s.callbacks + 1 && t.seenNow == d
  {
    var w := WorkerStep(d);
    var s1 := Next(s, w).value;
    var s2 := Next(s1, w).value;
    DueIff(d, s2.endTime);
    var s3 := Next(s2, w).value;
    var s4 := Next(s3, w).value;
    assert Run(s4, []) == Some(s4);
    RunCons(s3, w, []);
    RunCons(s2, w, [w]);
    RunCons(s1, w, [w] + [w]);
    RunCons(s, w, [w] + ([w] + [w]));
    ys := [w] + ([w] + ([w] + [w]));
  }

  lemma StartFinishesLate(s: State, d: int) returns (ys: seq<Event>)
    requires !s.crashed && s.control.KeepEnd? && d >= Deadline(s.control.at, s.control.wait) && s.worker.Calling?
    requires s.brun && !s.brunonce
    ensures Run(s, ys).Some? && NoStarts(ys) && Clocked(d, ys)
    ensures var t := Run(s, ys).value; t.worker.Calling? && t.callbacks == s.callbacks + 1 && t.seenNow == d
  {
    var y1 := StartWritesLate(s, d);
    var y2 := TickAgain(Run(s, y1).value, d);
    RunAppend(s, y1, y2);
    ys := y1 + y2;
    ClockStandsStill(d, ys);
  }

  lemma {:induction false} ClockStandsStill(d: int, es: seq<Event>)
    requires forall i :: 0 <= i < |es| ==> es[i] == ControlStep(d) || es[i] == WorkerStep(d)
    ensures Clocked(d, es)
    decreases |es|
  {
    if es != [] { ClockStandsStill(d, es[1..]); }
  }

  /** TicksAreApart needs the start to be over: a periodic timer that is waiting and is started again for the same
      interval can, if that start() is slow to write its deadline, call back twice on the same reading of the clock. */
  lemma OverlappingStartDoublesTick(s: State) returns (xs: seq<Event>, ys: seq<Event>)
    requires Inv(s) && !s.crashed && s.control.Idle? && s.worker.WaitTest? && s.brun && s.armedFor >= 0
    ensures Run(s, xs).Some? && Run(s, xs + ys).Some? && NoStarts(ys)
    ensures var first, second := Run(s, xs).value, Run(s, xs + ys).value;
            first.worker.Calling? && second.worker.Calling? && second.callbacks == first.callbacks + 1 &&
            Starting(first.control) && second.seenNow == first.seenNow
  {
    xs := StartUnderWay(s);
    ys := StartFinishesLate(Run(s, xs).value, s.endTime);
    RunAppend(s, xs, ys);
  }

  // ---------------------------------------------------------------- stop() terminates

  /** Statements the timer thread still executes at most once the run flag is down for good. */
  function StepsLeft(w: Worker): nat {
    match w
    case Sleeping => 7
    case WaitTest => 6
    case FireTest => 5
    case Calling => 5
    case OnceTest => 4
    case Rearm => 3
    case StoreEnd(_, _) => 2
    case ClearRun => 2
    case LoopTest => 1
    case NoThread => 0
    case Exited => 0
  }

  /** While stop() waits, the timer thread can always take a step until it has exited, and every step brings it
      closer. */
  lemma StopProgress(s: State, now: int)
    requires Inv(s) && !s.crashed && Stopping(s.control) && s.joinable
    ensures s.worker != Exited ==> Next(s, WorkerStep(now)).Some?
    ensures Next(s, WorkerStep(now)).Some? ==>
              var t := Next(s, WorkerStep(now)).value;
              StepsLeft(t.worker) < StepsLeft(s.worker) && t.control == s.control && t.joinable
    ensures s.worker == Exited && s.control.Join? ==> Next(s, ControlStep(now)).Some?
  {
  }

  /** After stop() has lowered the flag the timer thread executes at most seven more steps, whatever the clock says. */
  lemma {:induction false} WorkerTerminates(s: State, es: seq<Event>)
    requires Inv(s) && !s.crashed && Stopping(s.control) && s.joinable && Run(s, es).Some?
    requires forall i :: 0 <= i < |es| ==> es[i].WorkerStep?
    ensures |es| <= StepsLeft(s.worker) <= 7
    decreases |es|
  {
    if es != [] {
      var t := Next(s, es[0]).value;
      StopProgress(s, es[0].now);
      NextKeepsInv(s, es[0]);
      WorkerTerminates(t, es[1..]);
    }
  }

  // ---------------------------------------------------------------- restarting

  /** The discipline under which restarting is safe: after a stop, or while a timer that has only been started for
      periodic ticks is restarted for periodic ticks. Both are known to whoever calls start() and stop(). */
  predicate Allowed(s: State, e: Event) {
    e.CallStart? ==> !s.joinable || (!s.onceSinceJoin && !e.once)
  }

  predicate SafeInv(s: State) {
    Inv(s) && !s.crashed && (s.control.SetRun? || s.control.Spawn? ==> !s.joinable) &&
    (s.joinable || Starting(s.control) ==> s.brunonce == s.onceSinceJoin) &&
    (!s.joinable && !Starting(s.control) ==> !s.onceSinceJoin) &&
    (!s.onceSinceJoin ==> !s.worker.ClearRun?) && (s.worker.Exited? ==> !s.brun) &&
    (s.joinable && !s.onceSinceJoin && !Stopping(s.control) ==> s.brun && s.worker != Exited) &&
    (s.joinable && Starting(s.control) ==> !s.onceSinceJoin)
  }

  /** A step crashes exactly when it is a spawn over a thread that has not been joined; SafeInv rules that out. */
  lemma CrashIff(s: State, e: Event)
    requires !s.crashed && Next(s, e).Some?
    ensures Next(s, e).value.crashed <==> e.ControlStep? && s.control.Spawn? && s.joinable
  {
  }

  lemma NextKeepsSafe(s: State, e: Event)
    requires SafeInv(s) && Allowed(s, e) && Next(s, e).Some?
    ensures SafeInv(Next(s, e).value)
  {
    NextKeepsInv(s, e);
    CrashIff(s, e);
  }

  /** Every start of the run keeps to the discipline. */
  predicate Disciplined(s: State, es: seq<Event>)
    requires Run(s, es).Some?
    decreases |es|
  {
    es == [] || (Allowed(s, es[0]) && Disciplined(Next(s, es[0]).value, es[1..]))
  }

  lemma {:induction false} DisciplinedRunsNeverCrash(s: State, es: seq<Event>)
    requires SafeInv(s) && Run(s, es).Some? && Disciplined(s, es)
    ensures SafeInv(Run(s, es).value) && !Run(s, es).value.crashed
    decreases |es|
  {
    if es != [] {
      NextKeepsSafe(s, es[0]);
      DisciplinedRunsNeverCrash(Next(s, es[0]).value, es[1..]);
    }
  }

  /** The states StartIsSafeIff is about are those of programs that have kept to the discipline so far. */
  lemma DisciplinedProgramIsSafe(es: seq<Event>)
    requires Run(INIT, es).Some? && Disciplined(INIT, es)
    ensures SafeInv(Run(INIT, es).value)
  {
    DisciplinedRunsNeverCrash(INIT, es);
  }

  lemma {:induction false} RunAppend(s: State, xs: seq<Event>, ys: seq<Event>)
    requires Run(s, xs).Some?
    ensures Run(s, xs + ys) == Run(Run(s, xs).value, ys)
    decreases |xs|
  {
    if xs == [] {
      assert xs + ys == ys;
    } else {
      assert (xs + ys)[0] == xs[0] && (xs + ys)[1..] == xs[1..] + ys;
      RunAppend(Next(s, xs[0]).value, xs[1..], ys);
    }
  }

  lemma RunCons(s: State, e: Event, es: seq<Event>)
    requires Next(s, e).Some?
    ensures Run(s, [e] + es) == Run(Next(s, e).value, es)
  {
    assert ([e] + es)[1..] == es;
  }

  /** Worker steps until the flag is down, for a thread that will find brunonce set. */
  function StepsToClear(w: Worker): nat {
    match w
    case Rearm => 9
    case StoreEnd(_, _) => 8
    case LoopTest => 7
    case WaitTest => 6
    case Sleeping => 5
    case FireTest => 4
    case Calling => 3
    case OnceTest => 2
    case ClearRun => 1
    case NoThread => 0
    case Exited => 0
  }

  predicate WorkerOnly(es: seq<Event>) { forall i :: 0 <= i < |es| ==> es[i].WorkerStep? }

  predicate ControlOnly(es: seq<Event>) { forall i :: 0 <= i < |es| ==> es[i].ControlStep? }

  /** The timer thread of a single-tick timer can take the flag down by itself, whatever it is doing. */
  lemma {:induction false} FlagComesDown(s: State) returns (es: seq<Event>)
    requires !s.crashed && s.brunonce && s.worker != NoThread && (s.worker.Exited? ==> !s.brun)
    ensures WorkerOnly(es) && Run(s, es).Some?
    ensures var t := Run(s, es).value;
            !t.brun && !t.crashed && t.control == s.control && t.joinable == s.joinable
    decreases if s.brun then StepsToClear(s.worker) else 0
  {
    es := [];
    if s.brun {
      var e := WorkerStep(s.endTime);
      var t := Next(s, e).value;
      var more := FlagComesDown(t);
      RunCons(s, e, more);
      es := [e] + more;
    }
  }

  function StepsToSpawn(c: Control): nat {
    match c
    case SetInterval(_) => 6
    case SetEnd => 5
    case KeepEnd(_, _) => 4
    case RunTest => 3
    case SetRun => 2
    case Spawn => 1
    case Idle => 0
    case Yield => 0
    case Join => 0
  }

  /** A start() that will see the flag down goes on to spawn over the thread that has not been joined. */
  lemma {:induction false} StartGoesOnToCrash(s: State, now: int) returns (es: seq<Event>)
    requires !s.crashed && s.joinable && Starting(s.control) && (s.control.SetRun? || s.control.Spawn? || !s.brun)
    ensures ControlOnly(es) && Run(s, es).Some? && Run(s, es).value.crashed
    decreases StepsToSpawn(s.control)
  {
    var e := ControlStep(now);
    var t := Next(s, e).value;
    es := [];
    if s.control.Spawn? { assert Run(t, []) == Some(t); } else { es := StartGoesOnToCrash(t, now); }
    RunCons(s, e, es);
    es := [e] + es;
  }

  /** `es` contains one start, `e`, at position `k`. */
  predicate OnlyStart(es: seq<Event>, k: nat, e: Event) {
    k < |es| && es[k] == e && IsStart(e) && forall i :: 0 <= i < |es| && i != k ==> !IsStart(es[i])
  }

  /** Every start the discipline forbids can crash: some schedule of the two threads, with no other start and no stop,
      ends in the program's termination. */
  lemma ForbiddenStartCanCrash(s: State, interval: int, once: bool) returns (es: seq<Event>, k: nat)
    requires SafeInv(s) && s.control.Idle? && !Allowed(s, CallStart(interval, once))
    ensures OnlyStart(es, k, CallStart(interval, once)) && NoStops(es)
    ensures Run(s, es).Some? && Run(s, es).value.crashed
  {
    var e := CallStart(interval, once);
    if once {
      k := 0;
      var started := Next(s, e).value;
      var down := FlagComesDown(started);
      var crash := StartGoesOnToCrash(Run(started, down).value, 0);
      RunAppend(started, down, crash);
      RunCons(s, e, down + crash);
      es := [e] + (down + crash);
    } else {
      var down := FlagComesDown(s);
      k := |down|;
      var idle := Run(s, down).value;
      var crash := StartGoesOnToCrash(Next(idle, e).value, 0);
      RunCons(idle, e, crash);
      RunAppend(s, down, [e] + crash);
      es := down + ([e] + crash);
    }
  }

  lemma {:induction false} NoStartsIsDisciplined(s: State, es: seq<Event>)
    requires NoStarts(es) && Run(s, es).Some?
    ensures Disciplined(s, es)
    decreases |es|
  {
    if es != [] {
      assert !IsStart(es[0]);
      NoStartsIsDisciplined(Next(s, es[0]).value, es[1..]);
    }
  }

  /** An allowed start stays allowed until it is made. */
  lemma {:induction false} AllowedStartIsDisciplined(s: State, es: seq<Event>, k: nat, e: Event)
    requires SafeInv(s) && !Starting(s.control) && Allowed(s, e) && OnlyStart(es, k, e) && Run(s, es).Some?
    ensures Disciplined(s, es)
    decreases |es|
  {
    var t := Next(s, es[0]).value;
    if k == 0 {
      assert forall i :: 0 <= i < |es[1..]| ==> es[1..][i] == es[i + 1];
      NoStartsIsDisciplined(t, es[1..]);
    } else {
      assert !IsStart(es[0]);
      NextKeepsSafe(s, es[0]);
      assert forall i :: 0 <= i < |es[1..]| ==> es[1..][i] == es[i + 1];
      AllowedStartIsDisciplined(t, es[1..], k - 1, e);
    }
  }

  /** Exactly when a start is safe. In every state a disciplined program can be in when it calls start(): the start is
      allowed if and only if no run in which it is the only start terminates the program. */
  lemma StartIsSafeIff(s: State, interval: int, once: bool)
    requires SafeInv(s) && s.control.Idle?
    ensures Allowed(s, CallStart(interval, once)) <==>
            forall es, k :: OnlyStart(es, k, CallStart(interval, once)) && Run(s, es).Some? ==>
                              !Run(s, es).value.crashed
  {
    var e := CallStart(interval, once);
    if Allowed(s, e) {
      forall es, k | OnlyStart(es, k, e) && Run(s, es).Some? ensures !Run(s, es).value.crashed {
        AllowedStartIsDisciplined(s, es, k, e);
        DisciplinedRunsNeverCrash(s, es);
      }
    } else {
      var es, k := ForbiddenStartCanCrash(s, interval, once);
      assert OnlyStart(es, k, e) && Run(s, es).value.crashed;
    }
  }

  /** A timer whose single tick is over is not restartable without stop(): the start that follows, completed before
      anything else happens, terminates the program. */
  lemma RestartAfterTickCrashes(s: State, interval: int, once: bool, now: int) returns (es: seq<Event>)
    requires !s.crashed && s.control.Idle? && s.worker.Exited? && s.joinable && !s.brun
    ensures ControlOnly(es) && Run(s, [CallStart(interval, once)] + es).Some?
    ensures Run(s, [CallStart(interval, once)] + es).value.crashed
  {
    var e := CallStart(interval, once);
    es := StartGoesOnToCrash(Next(s, e).value, now);
    RunCons(s, e, es);
  }

  lemma RunExtend(s: State, es: seq<Event>, e: Event)
    requires Run(s, es).Some?
    ensures Run(s, es + [e]) == Next(Run(s, es).value, e)
  {
    RunAppend(s, es, [e]);
    var t := Run(s, es).value;
    assert Run(t, [e]) == match Next(t, e) case None => None case Some(u) => Run(u, []);
  }

  /** Starting a single-tick timer, until its thread is about to wait. */
  lemma StartedStateIsReachable() returns (es: seq<Event>)
    ensures Run(INIT, es).Some?
    ensures var s := Run(INIT, es).value;
            !s.crashed && s.control.Idle? && s.worker.WaitTest? && s.joinable && s.brun && s.brunonce &&
            s.endTime == 0 && s.callbacks == 0
  {
    var c := ControlStep(0);
    RunExtend(INIT, [], CallStart(0, true));
    es := [] + [CallStart(0, true)];
    var s := Next(INIT, CallStart(0, true)).value;
    for i := 0 to 6
      invariant Run(INIT, es) == Some(s) && !s.crashed && s.callbacks == 0 && s.brunonce
      invariant s.joinable == (i == 6) && s.brun == (i >= 5) && s.worker == if i == 6 then WaitTest else NoThread
      invariant (i >= 1 ==> s.timeset == 0) && (i >= 3 ==> s.endTime == 0)
      invariant s.control == [SetInterval(0), SetEnd, KeepEnd(0, 0), RunTest, SetRun, Spawn, Idle][i]
    {
      RunExtend(INIT, es, c);
      es, s := es + [c], Next(s, c).value;
    }
  }

  /** RestartAfterTickCrashes is about states that exist: start a single-tick timer and let it tick. */
  lemma TickedStateIsReachable() returns (es: seq<Event>)
    ensures Run(INIT, es).Some?
    ensures var s := Run(INIT, es).value;
            !s.crashed && s.control.Idle? && s.worker.Exited? && s.joinable && !s.brun && s.callbacks == 1
  {
    var w := WorkerStep(0);
    es := StartedStateIsReachable();
    var s := Run(INIT, es).value;
    for i := 0 to 7
      invariant Run(INIT, es) == Some(s) && !s.crashed && s.control.Idle? && s.joinable && s.brunonce && s.endTime == 0
      invariant s.brun == (i < 6) && s.callbacks == if i < 3 then 0 else 1
      invariant s.worker == [WaitTest, Sleeping, FireTest, Calling, OnceTest, ClearRun, LoopTest, Exited][i]
    {
      RunExtend(INIT, es, w);
      es, s := es + [w], Next(s, w).value;
    }
  }
}
