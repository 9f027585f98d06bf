/** Runs of the logger as sequences of calls: what stopping does to them, and a whole run on the logger object. */
module LoggerRuns {
  import opened Json
  import opened JsonPrefix
  import opened LogNodes
  import opened JsonRoundTrip
  import opened JsonLogger

  // ---------------------------------------------------------------- calls

  datatype Call =
    | StartCall(mod: string, action: string)
    | FlushCall(node: Node)
    | EndActionCall
    | EndDocumentCall
    | StopCall(flags: nat)

  function Perform(s: State, c: Call): State {
    match c
    case StartCall(mod, action) => StartAction(s, mod, action)
    case FlushCall(node) => Flush(s, node)
    case EndActionCall => EndAction(s)
    case EndDocumentCall => EndDocument(s)
    case StopCall(flags) => Stopped(s, flags)
  }

  function PerformAll(s: State, cs: seq<Call>): State
    decreases |cs|
  {
    if cs == [] then s else PerformAll(Perform(s, cs[0]), cs[1..])
  }

  lemma {:induction false} PerformAppend(s: State, xs: seq<Call>, ys: seq<Call>)
    ensures PerformAll(s, xs + ys) == PerformAll(PerformAll(s, xs), ys)
    decreases |xs|
  {
    if xs == [] {
      assert xs + ys == ys;
    } else {
      assert (xs + ys)[1..] == xs[1..] + ys;
      PerformAppend(Perform(s, xs[0]), xs[1..], ys);
    }
  }

  lemma PerformOne(s: State, c: Call)
    ensures PerformAll(s, [c]) == Perform(s, c)
  {
    assert PerformAll(Perform(s, c), []) == Perform(s, c);
  }

  lemma ToFileAppends(s: State, row: string)
    ensures s.file <= ToFile(s, row).file
  {
  }

  lemma CallAppends(s: State, c: Call)
    ensures s.file <= Perform(s, c).file
  {
    match c
    case StartCall(mod, action) =>
      var s1 := if s.initModule || !s.fileNamed then StartDocument(s, mod).(initModule := false) else s;
      ToFileAppends(s.(fileNamed := true), DocumentHead(mod));
      ToFileAppends(s1.(firstRecord := true, firstAction := false), ActionHead(s1.firstAction, action));
    case FlushCall(n) => ToFileAppends(s, Separator(s.append, s.firstRecord) + ToJson(n, "  "));
    case EndActionCall => ToFileAppends(s, ACTION_TAIL);
    case EndDocumentCall => ToFileAppends(s, DOCUMENT_TAIL);
    case StopCall(_) =>
  }

  /** No call ever takes anything out of the file. */
  lemma {:induction false} OnlyAppends(s: State, cs: seq<Call>)
    ensures s.file <= PerformAll(s, cs).file
    decreases |cs|
  {
    if cs != [] {
      var t := Perform(s, cs[0]);
      CallAppends(s, cs[0]);
      OnlyAppends(t, cs[1..]);
      assert s.file <= t.file <= PerformAll(t, cs[1..]).file;
    }
  }

  // ---------------------------------------------------------------- stopping

  /** Logging has been stopped with non-zero flags. */
  predicate Muted(s: State) { s.stopped && s.stopFlags != 0 }

  /** Stop calls, if there are any, pass non-zero flags. */
  predicate StaysMuted(cs: seq<Call>) { forall i :: 0 <= i < |cs| && cs[i].StopCall? ==> cs[i].flags != 0 }

  predicate NoStopCalls(cs: seq<Call>) { forall i :: 0 <= i < |cs| ==> !cs[i].StopCall? }

  lemma MutedStep(s: State, c: Call)
    requires Muted(s) && (c.StopCall? ==> c.flags != 0)
    ensures Muted(Perform(s, c)) && Perform(s, c).file == s.file
  {
  }

  lemma {:induction false} MutedForGood(s: State, cs: seq<Call>)
    requires Muted(s) && StaysMuted(cs)
    ensures PerformAll(s, cs).file == s.file
    decreases |cs|
  {
    if cs != [] {
      MutedStep(s, cs[0]);
      MutedForGood(Perform(s, cs[0]), cs[1..]);
    }
  }

  /** Stopping freezes the file, whatever is called afterwards, if and only if the flags are not zero. */
  lemma StopFreezesIff(s: State, flags: nat)
    ensures (forall cs :: NoStopCalls(cs) ==> PerformAll(Stopped(s, flags), cs).file == s.file) <==> flags != 0
  {
    var t := Stopped(s, flags);
    if flags == 0 {
      var c := StartCall("", "");
      PerformOne(t, c);
      assert NoStopCalls([c]);
      assert |PerformAll(t, [c]).file| > |s.file|;
    } else {
      forall cs | NoStopCalls(cs) ensures PerformAll(t, cs).file == s.file { MutedForGood(t, cs); }
    }
  }

  /** The same logger but for stop fields that amount to the same. */
  predicate SameBut(s: State, t: State) {
    Muted(s) == Muted(t) && t == s.(stopped := t.stopped, stopFlags := t.stopFlags)
  }

  lemma SameButRow(s: State, t: State, row: string)
    requires SameBut(s, t)
    ensures SameBut(ToFile(s, row), ToFile(t, row))
  {
  }

  lemma SameButDocument(s: State, t: State, mod: string)
    requires SameBut(s, t)
    ensures SameBut(StartDocument(s, mod), StartDocument(t, mod))
  {
    SameButRow(s.(fileNamed := true), t.(fileNamed := true), DocumentHead(mod));
  }

  lemma SameButStart(s: State, t: State, mod: string, action: string)
    requires SameBut(s, t)
    ensures SameBut(StartAction(s, mod, action), StartAction(t, mod, action))
  {
    SameButDocument(s, t, mod);
    var s1 := if s.initModule || !s.fileNamed then StartDocument(s, mod).(initModule := false) else s;
    var t1 := if t.initModule || !t.fileNamed then StartDocument(t, mod).(initModule := false) else t;
    SameButRow(s1.(firstRecord := true, firstAction := false), t1.(firstRecord := true, firstAction := false),
               ActionHead(s1.firstAction, action));
  }

  lemma SameButFlush(s: State, t: State, n: Node)
    requires SameBut(s, t)
    ensures SameBut(Flush(s, n), Flush(t, n))
  {
    SameButRow(s, t, Separator(s.append, s.firstRecord) + ToJson(n, "  "));
  }

  lemma SameButStep(s: State, t: State, c: Call)
    requires SameBut(s, t)
    ensures SameBut(Perform(s, c), Perform(t, c))
  {
    match c
    case StartCall(mod, action) => SameButStart(s, t, mod, action);
    case FlushCall(n) => SameButFlush(s, t, n);
    case EndActionCall => SameButRow(s, t, ACTION_TAIL);
    case EndDocumentCall => SameButRow(s, t, DOCUMENT_TAIL);
    case StopCall(_) =>
  }

  /** Stopping with zero flags a logger that has not been stopped changes nothing that is ever written. */
  lemma {:induction false} StopWithoutFlagsIsUnseen(s: State, t: State, cs: seq<Call>)
    requires SameBut(s, t)
    ensures SameBut(PerformAll(s, cs), PerformAll(t, cs)) && PerformAll(s, cs).file == PerformAll(t, cs).file
    ensures !Muted(s) ==> SameBut(s, Stopped(s, 0))
    decreases |cs|
  {
    if cs != [] {
      SameButStep(s, t, cs[0]);
      StopWithoutFlagsIsUnseen(Perform(s, cs[0]), Perform(t, cs[0]), cs[1..]);
    }
  }

  // ---------------------------------------------------------------- a run cut short

  function FlushCalls(rs: seq<Request>): seq<Call> {
    if rs == [] then [] else [FlushCall(rs[0].node)] + FlushCalls(rs[1..])
  }

  function ActionCalls(actions: seq<Action>): seq<Call> {
    if actions == [] then []
    else
      var a := actions[0];
      [StartCall(a.mod, a.name)] + FlushCalls(a.requests) + [EndActionCall] + ActionCalls(actions[1..])
  }

  /** The calls a run makes, from its first action to the end of the document. */
  function RunCalls(actions: seq<Action>): seq<Call> { ActionCalls(actions) + [EndDocumentCall] }

  lemma {:induction false} FlushCallsPerform(s: State, rs: seq<Request>)
    ensures PerformAll(s, FlushCalls(rs)) == FlushAll(s, rs)
    decreases |rs|
  {
    if rs != [] {
      PerformAppend(s, [FlushCall(rs[0].node)], FlushCalls(rs[1..]));
      PerformOne(s, FlushCall(rs[0].node));
      FlushCallsPerform(Flush(s, rs[0].node), rs[1..]);
    }
  }

  lemma {:induction false} ActionCallsPerform(s: State, actions: seq<Action>)
    ensures PerformAll(s, ActionCalls(actions)) == RunActions(s, actions)
    decreases |actions|
  {
    if actions != [] {
      var a, more := actions[0], ActionCalls(actions[1..]);
      var start, flushes := [StartCall(a.mod, a.name)], FlushCalls(a.requests);
      PerformAppend(s, start + flushes + [EndActionCall], more);
      PerformAppend(s, start + flushes, [EndActionCall]);
      PerformAppend(s, start, flushes);
      PerformOne(s, start[0]);
      var started := StartAction(s, a.mod, a.name);
      FlushCallsPerform(started, a.requests);
      PerformOne(FlushAll(started, a.requests), EndActionCall);
      ActionCallsPerform(RunAction(s, a), actions[1..]);
    }
  }

  lemma RunCallsPerform(s: State, actions: seq<Action>)
    ensures PerformAll(s, RunCalls(actions)) == Run(s, actions)
  {
    ActionCallsPerform(s, actions);
    PerformAppend(s, ActionCalls(actions), [EndDocumentCall]);
    PerformOne(RunActions(s, actions), EndDocumentCall);
  }

  /** What stands in the file after the first `k` calls of a run, and that the rest of the run still adds to it. */
  lemma CutFile(s: State, actions: seq<Action>, k: nat)
    requires Fresh(s) && actions != [] && k < |RunCalls(actions)|
    ensures var p, full := PerformAll(s, RunCalls(actions)[..k]).file, Run(s, actions).file;
            p <= full && |p| < |full| && StartsWith(full, '{')
  {
    var calls := ActionCalls(actions);
    var first := calls[..k];
    assert RunCalls(actions)[..k] == first && first + calls[k..] == calls;
    PerformAppend(s, first, calls[k..]);
    OnlyAppends(PerformAll(s, first), calls[k..]);
    ActionCallsPerform(s, actions);
    RunText(s, actions);
    var before := RunActions(s, actions).file;
    assert PerformAll(s, first).file <= before <= before + DOCUMENT_TAIL;
  }

  /** The file after the first `k` calls, a stop with non-zero flags and whatever is called afterwards. */
  function StoppedFile(s: State, actions: seq<Action>, k: nat, flags: nat, later: seq<Call>): string
    requires k <= |RunCalls(actions)|
  {
    PerformAll(s, RunCalls(actions)[..k] + [StopCall(flags)] + later).file
  }

  /** A run that would leave a JSON text, stopped anywhere with non-zero flags, leaves one if and only if it had
      already come to its end. */
  lemma StoppedRunParsesIff(s: State, actions: seq<Action>, k: nat, flags: nat, later: seq<Call>)
    requires Fresh(s) && actions != [] && forall a <- actions :: GoodAction(a) && Legal(s, a)
    requires k <= |RunCalls(actions)| && flags != 0 && StaysMuted(later)
    ensures ParseDocument(StoppedFile(s, actions, k, flags, later)).Ok? <==> k == |RunCalls(actions)|
  {
    var calls := RunCalls(actions);
    var before := PerformAll(s, calls[..k]);
    PerformAppend(s, calls[..k] + [StopCall(flags)], later);
    PerformAppend(s, calls[..k], [StopCall(flags)]);
    PerformOne(before, StopCall(flags));
    MutedForGood(Stopped(before, flags), later);
    FileParsesIff(s, actions);
    if k == |calls| {
      assert calls[..k] == calls;
      RunCallsPerform(s, actions);
    } else {
      CutFile(s, actions, k);
      var full := Run(s, actions).file;
      var q := full[|before.file|..];
      assert full == before.file + q;
      NoProperPrefixParses(before.file, q, DocumentOf(s, actions));
    }
  }

  // ---------------------------------------------------------------- a whole run on the logger object

  /** An action still to be played: its names, and each worker's records in the worker's order. */
  datatype Plan = Plan(mod: string, name: string, queues: seq<seq<Node>>)

  /** The action that was played is the planned one, in some lock order. */
  ghost predicate Plays(a: Action, p: Plan) {
    a.mod == p.mod && a.name == p.name && Interleaves(p.queues, a.requests)
  }

  ghost predicate PlaysAll(actions: seq<Action>, plans: seq<Plan>) {
    |actions| == |plans| && forall i :: 0 <= i < |plans| ==> Plays(actions[i], plans[i])
  }

  predicate GoodNode(n: Node) { !IsMember(n) && Sorted(n) }

  /** Names need no escaping, and every record is well-sorted. */
  ghost predicate GoodPlan(p: Plan) {
    Plain(p.mod) && Plain(p.name) &&
    forall w, i :: 0 <= w < |p.queues| && 0 <= i < |p.queues[w]| ==> GoodNode(p.queues[w][i])
  }

  ghost predicate CompletePlan(p: Plan) {
    forall w, i :: 0 <= w < |p.queues| && 0 <= i < |p.queues[w]| ==> Complete(p.queues[w][i])
  }

  lemma {:induction false} RequestIsQueued(order: seq<Request>, i: nat)
    requires i < |order|
    ensures order[i].node in OfWorker(order, order[i].worker)
    decreases |order|
  {
    if i < |order| - 1 { RequestIsQueued(order[..|order| - 1], i); }
  }

  lemma RequestComesFromQueue(queues: seq<seq<Node>>, order: seq<Request>, r: Request)
    requires Interleaves(queues, order) && r in order
    ensures r.worker < |queues| && r.node in queues[r.worker]
  {
    var i :| 0 <= i < |order| && order[i] == r;
    RequestIsQueued(order, i);
  }

  lemma {:induction false} KeptAreRequested(s: State, rs: seq<Request>, n: Node)
    requires n in KeptNodes(s, rs)
    ensures exists r <- rs :: r.node == n
    decreases |rs|
  {
    if n == rs[0].node && Kept(s, LogLevel(n)) {
      assert rs[0] in rs;
    } else {
      KeptAreRequested(s, rs[1..], n);
      var r :| r in rs[1..] && r.node == n;
      assert r in rs;
    }
  }

  lemma PlayedActionIsGood(p: Plan, a: Action)
    requires GoodPlan(p) && Plays(a, p)
    ensures GoodAction(a)
  {
    forall r <- a.requests ensures !IsMember(r.node) && Sorted(r.node) {
      RequestComesFromQueue(p.queues, a.requests, r);
      assert GoodNode(r.node);
    }
  }

  lemma PlayedActionIsLegal(s: State, p: Plan, a: Action)
    requires CompletePlan(p) && Plays(a, p) && !s.append
    ensures Legal(s, a)
  {
    forall n <- KeptNodes(s, a.requests) ensures Complete(n) {
      KeptAreRequested(s, a.requests, n);
      var r :| r in a.requests && r.node == n;
      RequestComesFromQueue(p.queues, a.requests, r);
    }
  }

  /** A whole run: the planned actions one after the other, each with its workers racing for the lock, then the end
      of the document. Started on a fresh logger it leaves a file that reads as the document of the actions played
      if these are legal, and as no document otherwise; complete records and no appending are enough. */
  method PlayRun(l: Logger, plans: seq<Plan>) returns (ghost played: seq<Action>)
    modifies l
    ensures l.Abs() == Run(old(l.Abs()), played) && PlaysAll(played, plans)
    ensures Fresh(old(l.Abs())) && plans != [] && (forall p <- plans :: GoodPlan(p)) ==>
              (forall a <- played :: GoodAction(a)) &&
              ParseDocument(l.file) ==
              ReadAs(forall a <- played :: Legal(old(l.Abs()), a), DocumentOf(old(l.Abs()), played), "")
    ensures !old(l.append) && (forall p <- plans :: CompletePlan(p)) ==> forall a <- played :: Legal(old(l.Abs()), a)
  {
    ghost var s := l.Abs();
    played := PlayActions(l, plans);
    forall a <- played
      ensures (exists p <- plans :: Plays(a, p))
    {
      var i :| 0 <= i < |played| && played[i] == a;
      assert plans[i] in plans;
    }
    if Fresh(s) && plans != [] && (forall p <- plans :: GoodPlan(p)) {
      forall a <- played ensures GoodAction(a) {
        var p :| p in plans && Plays(a, p);
        PlayedActionIsGood(p, a);
      }
      FileParsesIff(s, played);
    }
    if !s.append && forall p <- plans :: CompletePlan(p) {
      forall a <- played ensures Legal(s, a) {
        var p :| p in plans && Plays(a, p);
        PlayedActionIsLegal(s, p, a);
      }
    }
  }

  lemma {:induction false} RunActionsAppend(s: State, actions: seq<Action>, a: Action)
    ensures RunActions(s, actions + [a]) == RunAction(RunActions(s, actions), a)
    decreases |actions|
  {
    if actions == [] {
      assert actions + [a] == [a];
      assert RunActions(RunAction(s, a), []) == RunAction(s, a);
    } else {
      assert (actions + [a])[1..] == actions[1..] + [a];
      RunActionsAppend(RunAction(s, actions[0]), actions[1..], a);
    }
  }

  method PlayActions(l: Logger, plans: seq<Plan>) returns (ghost played: seq<Action>)
    modifies l
    ensures l.Abs() == Run(old(l.Abs()), played) && PlaysAll(played, plans)
  {
    ghost var s := l.Abs();
    played := [];
    for i := 0 to |plans|
      invariant l.Abs() == RunActions(s, played)
      invariant PlaysAll(played, plans[..i])
    {
      var order := PlayAction(l, plans[i].mod, plans[i].name, plans[i].queues);
      ghost var a := Action(plans[i].mod, plans[i].name, order);
      RunActionsAppend(s, played, a);
      played := played + [a];
    }
    var _ := l.JsonEndNodeCreate();
  }
}
