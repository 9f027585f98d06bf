/** The JSON side of rvs::logger: static flags, one file that is only appended to, and flushes from many workers. */
module JsonLogger {
  import opened Json
  import opened LogNodes
  import opened JsonRoundTrip

  const LOG_NONE: int := 0
  const LOG_TRACE: int := 5

  /** The logger's static members that the JSON path reads or writes, and the contents of the JSON file. */
  datatype State = State(
    file: string,
    fileNamed: bool,
    initModule: bool,
    firstAction: bool,
    firstRecord: bool,
    toJson: bool,
    append: bool,
    logLevel: int,
    stopped: bool,
    stopFlags: nat)

  /** ToFile: appends unless logging has been stopped with non-zero flags or the file has no name. */
  function ToFile(s: State, row: string): State {
    if (s.stopped && s.stopFlags != 0) || !s.fileNamed then s else s.(file := s.file + row)
  }

  /** ToFile's return value. */
  function FileStatus(s: State): int {
    if s.stopped && s.stopFlags != 0 then 0 else if s.fileNamed then 0 else -1
  }

  function DocumentHead(mod: string): string {
    "{" + "\n" + "\"version\":\"1.0\",\n" + Quoted(mod) + ":" + "{" + "\n"
  }

  function ActionHead(first: bool, action: string): string {
    "\n" + (if first then "" else ",") + INDENT + Quoted(action) + ":" + "[" + "\n"
  }

  const ACTION_TAIL := INDENT + "]"
  const DOCUMENT_TAIL := INDENT + INDENT + "}" + "\n" + "}"

  /** LogRecordFlush's level test. */
  function FlushStatus(s: State, level: int): (status: int) {
    if s.toJson && !(LOG_NONE <= level <= LOG_TRACE) then -1 else 0
  }

  predicate Kept(s: State, level: int) { s.toJson && LOG_NONE <= level <= LOG_TRACE && level <= s.logLevel }

  function StartDocument(s: State, mod: string): State {
    ToFile(s.(fileNamed := true), DocumentHead(mod))
  }

  function StartAction(s: State, mod: string, action: string): State {
    var s1 := if s.initModule || !s.fileNamed then StartDocument(s, mod).(initModule := false) else s;
    ToFile(s1.(firstRecord := true, firstAction := false), ActionHead(s1.firstAction, action))
  }

  /** What stands before a record: nothing only before the first one, and only without append mode. */
  function Separator(append: bool, first: bool): string { if append || !first then "," else "" }

  function Flush(s: State, n: Node): State {
    if !Kept(s, LogLevel(n)) then s
    else ToFile(s, Separator(s.append, s.firstRecord) + ToJson(n, "  ")).(firstRecord := false)
  }

  function EndAction(s: State): State { ToFile(s, ACTION_TAIL) }

  function EndDocument(s: State): State { if s.fileNamed then ToFile(s, DOCUMENT_TAIL) else s }

  function Stopped(s: State, flags: nat): State { s.(stopped := true, stopFlags := flags) }

  /** What a flush does to the file: a record is written if and only if its level is one of the six and not above the
      configured one. */
  lemma FlushWrites(s: State, n: Node)
    ensures var t := Flush(s, n);
            var writable := s.toJson && s.fileNamed && !(s.stopped && s.stopFlags != 0);
            if writable && 0 <= LogLevel(n) <= 5 && LogLevel(n) <= s.logLevel then
              t.file == s.file + (if s.append || !s.firstRecord then "," else "") + ToJson(n, "  ") && !t.firstRecord
            else t.file == s.file && (writable ==> t.firstRecord == s.firstRecord)
  {
    if s.toJson && 0 <= LogLevel(n) <= 5 && LogLevel(n) <= s.logLevel {
      Regroup(s.file, if s.append || !s.firstRecord then "," else "", ToJson(n, "  "));
    }
  }

  /** The logger itself; each method's effect on the static members is the function of the same name above. */
  class Logger {
    var file: string
    var fileNamed: bool
    var initModule: bool
    var firstAction: bool
    var firstRecord: bool
    var toJson: bool
    var append: bool
    var logLevel: int
    var stopped: bool
    var stopFlags: nat

    ghost function Abs(): State
      reads this
    {
      State(file, fileNamed, initModule, firstAction, firstRecord, toJson, append, logLevel, stopped, stopFlags)
    }

    constructor ()
      ensures Abs() == State("", false, true, true, true, false, false, 2, false, 0)
    {
      file, fileNamed, initModule, firstAction, firstRecord := "", false, true, true, true;
      toJson, append, logLevel, stopped, stopFlags := false, false, 2, false, 0;
    }

    method WriteRow(row: string) returns (status: int)
      modifies this`file
      ensures Abs() == ToFile(old(Abs()), row) && status == FileStatus(old(Abs()))
      ensures file == old(file) + (if fileNamed && !(stopped && stopFlags != 0) then row else "")
      ensures status == if !fileNamed && !(stopped && stopFlags != 0) then -1 else 0
    {
      if stopped {
        if stopFlags != 0 { return 0; }
      }
      if !fileNamed { return -1; }
      file := file + row;
      status := 0;
    }

    method JsonStartNodeCreate(mod: string) returns (status: int)
      modifies this`file, this`fileNamed
      ensures Abs() == StartDocument(old(Abs()), mod) && status == 0
    {
      if !fileNamed { fileNamed := true; }
      var row := "{" + "\n";
      row := row + "\"version\":\"1.0\",\n";
      row := row + Quoted(mod) + ":" + "{" + "\n";
      assert row == DocumentHead(mod);
      status := WriteRow(row);
    }

    method JsonActionStartNodeCreate(mod: string, action: string) returns (status: int)
      modifies this`file, this`fileNamed, this`initModule, this`firstAction, this`firstRecord
      ensures Abs() == StartAction(old(Abs()), mod, action) && status == 0
    {
      if initModule || !fileNamed {
        var _ := JsonStartNodeCreate(mod);
        initModule := false;
      }
      firstRecord := true;
      var row := "\n";
      ghost var first := firstAction;
      if firstAction {
        firstAction := false;
      } else {
        row := row + ",";
      }
      row := row + INDENT;
      row := row + Quoted(action) + ":" + "[" + "\n";
      assert row == ActionHead(first, action);
      status := WriteRow(row);
    }

    /** Runs under the file mutex from its first statement to its last. */
    method LogRecordFlush(n: Node) returns (status: int)
      modifies this`file, this`firstRecord
      ensures Abs() == Flush(old(Abs()), n) && status == FlushStatus(old(Abs()), LogLevel(n))
      ensures status == if toJson && (LogLevel(n) < 0 || LogLevel(n) > 5) then -1 else 0
      ensures old(toJson && fileNamed && !(stopped && stopFlags != 0)) ==>
                if 0 <= LogLevel(n) <= 5 && LogLevel(n) <= logLevel then
                  file == old(file) + (if append || !old(firstRecord) then "," else "") + ToJson(n, "  ") &&
                  !firstRecord
                else file == old(file) && firstRecord == old(firstRecord)
      ensures !old(toJson && fileNamed && !(stopped && stopFlags != 0)) ==> file == old(file)
    {
      ghost var s := Abs();
      FlushWrites(s, n);
      if !toJson { return 0; }
      var level := LogLevel(n);
      if level < LOG_NONE || level > LOG_TRACE { return -1; }
      if level > logLevel { return 0; }
      AppendRecord(n);
      status := 0;
    }

    /** The part of LogRecordFlush that writes. */
    method AppendRecord(n: Node)
      modifies this`file, this`firstRecord
      ensures Abs() ==
              ToFile(old(Abs()), Separator(old(append), old(firstRecord)) + ToJson(n, "  ")).(firstRecord := false)
    {
      var row := "";
      if append {
        row := ",";
      } else if !firstRecord {
        row := ",";
      }
      row := row + ToJson(n, "  ");
      var _ := WriteRow(row);
      if firstRecord { firstRecord := false; }
    }

    method JsonActionEndNodeCreate() returns (status: int)
      modifies this`file
      ensures Abs() == EndAction(old(Abs())) && status == FileStatus(old(Abs()))
    {
      status := WriteRow(INDENT + "]");
    }

    method JsonEndNodeCreate() returns (status: int)
      modifies this`file
      ensures Abs() == EndDocument(old(Abs())) && status == if old(fileNamed) then 0 else -1
    {
      if !fileNamed { return -1; }
      var row := INDENT;
      row := row + (INDENT + "}" + "\n");
      row := row + "}";
      assert row == DOCUMENT_TAIL;
      status := WriteRow(row);
    }

    /** Stop: the JSON file itself is left as it stands. */
    method Stop(flags: nat)
      modifies this`stopped, this`stopFlags
      ensures Abs() == Stopped(old(Abs()), flags)
    {
      stopped, stopFlags := true, flags;
    }
  }

  // ---------------------------------------------------------------- runs

  /** A flush request and the worker that issued it. */
  datatype Request = Request(worker: nat, node: Node)

  /** One action: the module and action names given to its start, and the flushes in the order they got the lock. */
  datatype Action = Action(mod: string, name: string, requests: seq<Request>)

  function FlushAll(s: State, rs: seq<Request>): State
    decreases |rs|
  {
    if rs == [] then s else FlushAll(Flush(s, rs[0].node), rs[1..])
  }

  function RunAction(s: State, a: Action): State {
    EndAction(FlushAll(StartAction(s, a.mod, a.name), a.requests))
  }

  function RunActions(s: State, actions: seq<Action>): State
    decreases |actions|
  {
    if actions == [] then s else RunActions(RunAction(s, actions[0]), actions[1..])
  }

  /** A whole run: the actions one after the other, then the end of the document. */
  function Run(s: State, actions: seq<Action>): State { EndDocument(RunActions(s, actions)) }

  /** The records an action's array ends up holding: those whose level is logged, in lock order. */
  function KeptNodes(s: State, rs: seq<Request>): seq<Node> {
    if rs == [] then []
    else (if Kept(s, LogLevel(rs[0].node)) then [rs[0].node] else []) + KeptNodes(s, rs[1..])
  }

  lemma {:induction false} KeptAppend(s: State, xs: seq<Request>, ys: seq<Request>)
    ensures KeptNodes(s, xs + ys) == KeptNodes(s, xs) + KeptNodes(s, ys)
  {
    if xs == [] {
      assert xs + ys == ys;
    } else {
      assert (xs + ys)[0] == xs[0] && (xs + ys)[1..] == xs[1..] + ys;
      KeptAppend(s, xs[1..], ys);
    }
  }

  /** The records of an action are the requested ones in order, without those whose level is none of the six or above
      the configured one: nothing requested means no record, and one more request adds its record or nothing. */
  lemma RecordsOfRequests(s: State, rs: seq<Request>, r: Request)
    ensures KeptNodes(s, []) == []
    ensures KeptNodes(s, rs + [r]) ==
            KeptNodes(s, rs) +
            if s.toJson && 0 <= LogLevel(r.node) <= 5 && LogLevel(r.node) <= s.logLevel then [r.node] else []
  {
    KeptAppend(s, rs, [r]);
    assert KeptNodes(s, [r]) == (if Kept(s, LogLevel(r.node)) then [r.node] else []) + KeptNodes(s, []);
  }

  /** A fresh logger in JSON mode, with logging not stopped. */
  predicate Fresh(s: State) {
    s.file == "" && s.initModule && s.firstAction && s.toJson && !(s.stopped && s.stopFlags != 0)
  }

  /** Names need no escaping, and every flushed node is a record whose children have the right sort. */
  predicate GoodAction(a: Action) {
    Plain(a.mod) && Plain(a.name) &&
    forall r <- a.requests :: !IsMember(r.node) && Sorted(r.node)
  }

  /** Condition under which an action's array is legal JSON: the records are complete, and appending
      (which puts a comma before every record) is off unless nothing was logged. */
  predicate Legal(s: State, a: Action) {
    AllComplete(KeptNodes(s, a.requests)) && (s.append ==> KeptNodes(s, a.requests) == [])
  }

  lemma {:induction false} KeptAreRecords(s: State, rs: seq<Request>)
    requires forall r <- rs :: !IsMember(r.node) && Sorted(r.node)
    ensures forall n <- KeptNodes(s, rs) :: !IsMember(n) && Sorted(n)
  {
    if rs != [] { KeptAreRecords(s, rs[1..]); }
  }

  /** The member an action leaves. */
  function ActionMember(s: State, a: Action): Member
    requires GoodAction(a)
  {
    KeptAreRecords(s, a.requests);
    Member(a.name, JArray(ElementsOf(KeptNodes(s, a.requests))))
  }

  /** The document a run should leave: the version, then the first module's object with one array per action. */
  function ArraysOf(s: State, actions: seq<Action>): seq<Member>
    requires forall a <- actions :: GoodAction(a)
  {
    if actions == [] then []
    else
      assert GoodAction(actions[0]);
      [ActionMember(s, actions[0])] + ArraysOf(s, actions[1..])
  }

  function DocumentOf(s: State, actions: seq<Action>): Value
    requires actions != [] && forall a <- actions :: GoodAction(a)
  {
    JObject([Member("version", JString("1.0")), Member(actions[0].mod, JObject(ArraysOf(s, actions)))])
  }

  // ---------------------------------------------------------------- the text a run leaves

  /** The text of an action's records; with appending on, a comma stands before the first one too. */
  function RecordsText(append: bool, nodes: seq<Node>): string {
    if nodes == [] then "" else (if append then "," else "") + KidsToJson(nodes, "  ")
  }

  function ActionBody(s: State, a: Action): string {
    INDENT + Quoted(a.name) + ":" + "[" + "\n" + RecordsText(s.append, KeptNodes(s, a.requests)) + ACTION_TAIL
  }

  function ActionsText(s: State, first: bool, actions: seq<Action>): string {
    if actions == [] then ""
    else "\n" + (if first then "" else ",") + ActionBody(s, actions[0]) + ActionsText(s, false, actions[1..])
  }

  /** Settings that no logging call changes. */
  predicate SameSettings(s: State, t: State) {
    s.toJson == t.toJson && s.append == t.append && s.logLevel == t.logLevel &&
    s.stopped == t.stopped && s.stopFlags == t.stopFlags
  }

  predicate Writable(s: State) { s.toJson && s.fileNamed && !(s.stopped && s.stopFlags != 0) }

  lemma {:induction false} SameKept(s: State, t: State, rs: seq<Request>)
    requires SameSettings(s, t)
    ensures KeptNodes(s, rs) == KeptNodes(t, rs)
  {
    if rs != [] { SameKept(s, t, rs[1..]); }
  }

  lemma {:induction false} SameActionsText(s: State, t: State, first: bool, actions: seq<Action>)
    requires SameSettings(s, t)
    ensures ActionsText(s, first, actions) == ActionsText(t, first, actions)
  {
    if actions != [] {
      SameKept(s, t, actions[0].requests);
      SameActionsText(s, t, false, actions[1..]);
    }
  }

  lemma KidsTextCons(n: Node, more: seq<Node>)
    ensures KidsToJson([n] + more, "  ") == ToJson(n, "  ") + if more == [] then "" else "," + KidsToJson(more, "  ")
  {
    assert ([n] + more)[1..] == more;
    if more == [] { assert KidsToJson(more, "  ") == ""; }
  }

  /** What a sequence of flushes appends, depending on whether a record has been written before. */
  function FlushedText(append: bool, first: bool, nodes: seq<Node>): string {
    if nodes == [] then "" else Separator(append, first) + KidsToJson(nodes, "  ")
  }

  lemma FlushedTextCons(append: bool, first: bool, n: Node, more: seq<Node>)
    ensures FlushedText(append, first, [n] + more) ==
            Separator(append, first) + ToJson(n, "  ") + FlushedText(append, false, more)
  {
    KidsTextCons(n, more);
  }

  /** What one flush adds to the file. */
  function AddedText(s: State, n: Node): string {
    if Kept(s, LogLevel(n)) then Separator(s.append, s.firstRecord) + ToJson(n, "  ") else ""
  }

  lemma FlushOne(s: State, n: Node)
    requires Writable(s)
    ensures var t := Flush(s, n);
            t == s.(file := t.file, firstRecord := s.firstRecord && !Kept(s, LogLevel(n))) &&
            t.file == s.file + AddedText(s, n)
  {
  }

  /** The text of several flushes is that of the first one and of the others. */
  lemma AddedTextCons(s: State, rs: seq<Request>)
    requires Writable(s) && rs != []
    ensures var n, t := rs[0].node, Flush(s, rs[0].node);
            FlushedText(s.append, s.firstRecord, KeptNodes(s, rs)) ==
            AddedText(s, n) + FlushedText(t.append, t.firstRecord, KeptNodes(t, rs[1..]))
  {
    var n, t := rs[0].node, Flush(s, rs[0].node);
    var more := KeptNodes(s, rs[1..]);
    FlushOne(s, n);
    SameKept(s, t, rs[1..]);
    if Kept(s, LogLevel(n)) {
      FlushedTextCons(s.append, s.firstRecord, n, more);
    } else {
      assert KeptNodes(s, rs) == more;
    }
  }

  /** Flushing writes the kept records in lock order with single commas in between, whichever worker each came from. */
  lemma {:induction false} FlushAllText(s: State, rs: seq<Request>)
    requires Writable(s)
    ensures var t := FlushAll(s, rs);
            t == s.(file := t.file, firstRecord := t.firstRecord) &&
            t.file == s.file + FlushedText(s.append, s.firstRecord, KeptNodes(s, rs))
    decreases |rs|
  {
    if rs != [] {
      var n, t := rs[0].node, Flush(s, rs[0].node);
      FlushOne(s, n);
      FlushAllText(t, rs[1..]);
      AddedTextCons(s, rs);
      Regroup(s.file, AddedText(s, n), FlushedText(t.append, t.firstRecord, KeptNodes(t, rs[1..])));
    }
  }

  lemma RunActionText(s: State, a: Action)
    requires Writable(s) && !s.initModule
    ensures var t := RunAction(s, a);
            Writable(t) && SameSettings(s, t) && !t.initModule && !t.firstAction &&
            t.file == s.file + ("\n" + (if s.firstAction then "" else ",") + ActionBody(s, a))
  {
    var s1 := StartAction(s, a.mod, a.name);
    assert s1 == s.(firstRecord := true, firstAction := false, file := s.file + ActionHead(s.firstAction, a.name));
    FlushAllText(s1, a.requests);
    SameKept(s, s1, a.requests);
    ActionTextShape(s, a);
  }

  lemma ActionTextShape(s: State, a: Action)
    ensures s.file + ActionHead(s.firstAction, a.name) + FlushedText(s.append, true, KeptNodes(s, a.requests)) +
            ACTION_TAIL ==
            s.file + ("\n" + (if s.firstAction then "" else ",") + ActionBody(s, a))
  {
    var records := FlushedText(s.append, true, KeptNodes(s, a.requests));
    assert records == RecordsText(s.append, KeptNodes(s, a.requests));
    ActionTextParts(s.file, if s.firstAction then "" else ",", Quoted(a.name), records);
  }

  lemma ActionTextParts(before: string, sep: string, quoted: string, records: string)
    ensures before + ("\n" + sep + INDENT + quoted + ":" + "[" + "\n") + records + ACTION_TAIL ==
            before + ("\n" + sep + (INDENT + quoted + ":" + "[" + "\n" + records + ACTION_TAIL))
  {
  }

  lemma {:induction false} RunActionsText(s: State, actions: seq<Action>)
    requires Writable(s) && !s.initModule
    ensures var t := RunActions(s, actions);
            Writable(t) && t.file == s.file + ActionsText(s, s.firstAction, actions)
    decreases |actions|
  {
    if actions != [] {
      var t := RunAction(s, actions[0]);
      RunActionText(s, actions[0]);
      RunActionsText(t, actions[1..]);
      SameActionsText(s, t, false, actions[1..]);
      var first := "\n" + (if s.firstAction then "" else ",") + ActionBody(s, actions[0]);
      Regroup(s.file, first, ActionsText(s, false, actions[1..]));
    }
  }

  lemma RunText(s: State, actions: seq<Action>)
    requires Fresh(s) && actions != []
    ensures RunActions(s, actions).file == DocumentHead(actions[0].mod) + ActionsText(s, true, actions)
    ensures Run(s, actions).file == RunActions(s, actions).file + DOCUMENT_TAIL
  {
    var s1 := StartDocument(s, actions[0].mod).(initModule := false);
    assert s.file + DocumentHead(actions[0].mod) == DocumentHead(actions[0].mod);
    assert StartAction(s, actions[0].mod, actions[0].name) == StartAction(s1, actions[0].mod, actions[0].name);
    assert RunActions(s, actions) == RunActions(s1, actions);
    RunActionsText(s1, actions);
    SameActionsText(s, s1, true, actions);
  }

  // ---------------------------------------------------------------- reading it back

  lemma SameStart(w: string, text: string)
    requires Blank(w)
    ensures ParseElements(w + text) == ParseElements(text) && ParseValue(w + text) == ParseValue(text)
  {
    SkipBlanksOver(w, text);
  }

  lemma CommaIsNoValue(text: string)
    ensures ParseElements("," + text) == Fail
  {
    var t := "," + text;
    assert t[0] == ',' && SkipBlanks(t) == t;
    assert ParseNumber(t) == Fail;
    assert ParseTrimmed(t) == Fail;
  }

  /** The array of one action. */
  lemma RecordsRead(append: bool, nodes: seq<Node>, after: string)
    requires forall n <- nodes :: !IsMember(n) && Sorted(n)
    ensures ParseValue("[" + ("\n" + (RecordsText(append, nodes) + (INDENT + ("]" + after))))) ==
            ReadAs(AllComplete(nodes) && (append ==> nodes == []), JArray(ElementsOf(nodes)), after)
  {
    if nodes == [] {
      assert RecordsText(append, nodes) + (INDENT + ("]" + after)) == INDENT + ("]" + after);
      EmptyArrayReads(after);
    } else if append {
      var kids := KidsToJson(nodes, "  ") + (INDENT + ("]" + after));
      assert RecordsText(append, nodes) + (INDENT + ("]" + after)) == "," + kids;
      CommaFirstFails(kids);
    } else {
      assert RecordsText(append, nodes) == KidsToJson(nodes, "  ");
      NonEmptyArrayReads(nodes, after);
    }
  }

  lemma EmptyArrayReads(after: string)
    ensures ParseValue("[" + ("\n" + (INDENT + ("]" + after)))) == Ok(JArray([]), after)
  {
    var body := "\n" + (INDENT + ("]" + after));
    assert ("[" + body)[1..] == body;
    SkipBlanksOver("\n", INDENT + ("]" + after));
    HeadAfterBlanks(INDENT, "]" + after);
  }

  lemma CommaFirstFails(text: string)
    ensures ParseValue("[" + ("\n" + ("," + text))) == Fail
  {
    var body := "\n" + ("," + text);
    assert ("[" + body)[1..] == body;
    HeadAfterBlanks("\n", "," + text);
    SameStart("\n", "," + text);
    CommaIsNoValue(text);
  }

  lemma NonEmptyArrayReads(nodes: seq<Node>, after: string)
    requires nodes != [] && forall n <- nodes :: !IsMember(n) && Sorted(n)
    ensures ParseValue("[" + ("\n" + (KidsToJson(nodes, "  ") + (INDENT + ("]" + after))))) ==
            ReadAs(AllComplete(nodes), JArray(ElementsOf(nodes)), after)
  {
    var kids := KidsToJson(nodes, "  ") + (INDENT + ("]" + after));
    SkipBlanksOver("\n", kids);
    SameStart("\n", kids);
    KidsHead(nodes, "  ", INDENT + ("]" + after));
    ElementsRead(nodes, "  ", INDENT, after);
    BracketedReads("", "\n" + kids, AllComplete(nodes), ElementsOf(nodes), after);
    NoBlanks("[" + ("\n" + kids));
  }

  /** One action's member. */
  lemma ActionReads(s: State, a: Action, w: string, after: string)
    requires GoodAction(a) && Blank(w)
    ensures forall n <- KeptNodes(s, a.requests) :: !IsMember(n) && Sorted(n)
    ensures ParseMember(w + (ActionBody(s, a) + after)) ==
            ReadAs(Legal(s, a), ActionMember(s, a), after)
  {
    KeptAreRecords(s, a.requests);
    var nodes := KeptNodes(s, a.requests);
    var records := RecordsText(s.append, nodes);
    var value := "[" + ("\n" + (records + (INDENT + ("]" + after))));
    FieldReads(w + INDENT, a.name, "", "", value);
    RecordsRead(s.append, nodes, after);
    ActionShape(w, a.name, records, after);
  }

  lemma ActionShape(w: string, name: string, records: string, after: string)
    ensures w + ((INDENT + Quoted(name) + ":" + "[" + "\n" + records + ACTION_TAIL) + after) ==
            (w + INDENT) + Quoted(name) + "" + ":" + "" + ("[" + ("\n" + (records + (INDENT + ("]" + after)))))
  {
  }

  /** Reading the actions of a document, from the first one to the brace that closes them. */
  lemma {:induction false} ActionsRead(s: State, actions: seq<Action>, w: string, gap: string, rest: string)
    requires actions != [] && (forall a <- actions :: GoodAction(a)) && Blank(w) && Blank(gap)
    ensures var after := ActionsText(s, false, actions[1..]) + (gap + ("}" + rest));
            ParseMembers(w + (ActionBody(s, actions[0]) + after)) ==
            ReadAs(forall a <- actions :: Legal(s, a), ArraysOf(s, actions), rest)
    decreases |actions|
  {
    var a, more := actions[0], actions[1..];
    var after := ActionsText(s, false, more) + (gap + ("}" + rest));
    assert GoodAction(a) && actions == [a] + more;
    ActionReads(s, a, w, after);
    if more == [] {
      NoBlanks(gap + ("}" + rest));
      LastMember(w + (ActionBody(s, a) + after), Legal(s, a), ActionMember(s, a), gap, rest);
      assert ArraysOf(s, actions) == [ActionMember(s, a)] + ArraysOf(s, more) == [ActionMember(s, a)];
    } else {
      ActionsRead(s, more, "", gap, rest);
      var close := gap + ("}" + rest);
      var next := ActionBody(s, more[0]) + (ActionsText(s, false, more[1..]) + close);
      NextAction(s, more, close);
      ActionThenMore(w + (ActionBody(s, a) + after), Legal(s, a), ActionMember(s, a), after, next,
                     forall x <- more :: Legal(s, x), ArraysOf(s, more), rest);
    }
  }

  lemma ActionThenMore(text: string, ok: bool, m: Member, after: string, next: string, okNext: bool, ms: seq<Member>,
                       rest: string)
    requires ParseMember(text) == ReadAs(ok, m, after) && after == "\n" + ("," + next)
    requires ParseMembers("" + next) == ReadAs(okNext, ms, rest)
    ensures ParseMembers(text) == ReadAs(ok && okNext, [m] + ms, rest)
  {
    NoBlanks(next);
    MemberThenMore(text, ok, m, "\n", next, okNext, ms, rest);
  }

  lemma NextAction(s: State, more: seq<Action>, close: string)
    requires more != []
    ensures ActionsText(s, false, more) + close ==
            "\n" + ("," + (ActionBody(s, more[0]) + (ActionsText(s, false, more[1..]) + close)))
  {
    NextShape(ActionBody(s, more[0]), ActionsText(s, false, more[1..]), close);
  }

  lemma NextShape(body: string, others: string, close: string)
    ensures ("\n" + "," + body + others) + close == "\n" + ("," + (body + (others + close)))
  {
  }

  /** Everything after the opening brace of the module's object and its line break. */
  function ActionsTail(s: State, actions: seq<Action>): string
    requires actions != []
  {
    ActionBody(s, actions[0]) +
    (ActionsText(s, false, actions[1..]) + ((INDENT + INDENT) + ("}" + ("\n" + ("}" + "")))))
  }

  function ModuleText(mod: string, tail: string): string {
    "\n" + Quoted(mod) + "" + ":" + "" + ("{" + ("\n\n" + tail))
  }

  lemma VersionText()
    ensures "\"version\":\"1.0\",\n" == Quoted("version") + ":" + Quoted("1.0") + "," + "\n"
  {
  }

  lemma Reassociate(v: string, o: string, q: string, first: string, others: string, gap: string)
    ensures ("{" + "\n" + (v + ":" + o + "," + "\n") + q + ":" + "{" + "\n") + ("\n" + "" + first + others) +
            (gap + "}" + "\n" + "}") ==
            "{" + ("\n" + v + "" + ":" + "" +
                   (o + ("" + ("," + ("\n" + q + "" + ":" + "" +
                                       ("{" + ("\n\n" + (first + (others + (gap + ("}" + ("\n" + ("}" + "")))))))))))))
  {
  }

  /** The whole document's text, cut the way the parser reads it. */
  lemma DocumentShape(s: State, actions: seq<Action>)
    requires actions != []
    ensures DocumentHead(actions[0].mod) + ActionsText(s, true, actions) + DOCUMENT_TAIL ==
            "{" + ("\n" + Quoted("version") + "" + ":" + "" +
                   (Quoted("1.0") + ("" + ("," + ModuleText(actions[0].mod, ActionsTail(s, actions))))))
  {
    VersionText();
    Reassociate(Quoted("version"), Quoted("1.0"), Quoted(actions[0].mod), ActionBody(s, actions[0]),
                ActionsText(s, false, actions[1..]), INDENT + INDENT);
  }

  /** The module's member, given how the members of its value read. */
  lemma ModuleObjectReads(mod: string, tail: string, ok: bool, ms: seq<Member>)
    requires Plain(mod) && StartsWith(SkipBlanks("\n\n" + tail), '"')
    requires ParseMembers("\n\n" + tail) == ReadAs(ok, ms, "\n" + ("}" + ""))
    ensures ParseMembers(ModuleText(mod, tail)) == ReadAs(ok, [Member(mod, JObject(ms))], "")
  {
    var value := "{" + ("\n\n" + tail);
    NoBlanks(value);
    BracedReads("", "\n\n" + tail, ok, ms, "\n" + ("}" + ""));
    FieldReads("\n", mod, "", "", value);
    LastMember(ModuleText(mod, tail), ok, Member(mod, JObject(ms)), "\n", "");
  }

  lemma ModuleReads(s: State, actions: seq<Action>)
    requires actions != [] && (forall a <- actions :: GoodAction(a)) && Plain(actions[0].mod)
    ensures ParseMembers(ModuleText(actions[0].mod, ActionsTail(s, actions))) ==
            ReadAs(forall a <- actions :: Legal(s, a), [Member(actions[0].mod, JObject(ArraysOf(s, actions)))], "")
  {
    var gap, end := INDENT + INDENT, "\n" + ("}" + "");
    ActionsRead(s, actions, "\n\n", gap, end);
    ActionHeadsObject(s, actions[0], "\n\n", ActionsText(s, false, actions[1..]) + (gap + ("}" + end)));
    ModuleObjectReads(actions[0].mod, ActionsTail(s, actions), forall a <- actions :: Legal(s, a),
                      ArraysOf(s, actions));
  }

  /** The file a run leaves is one JSON text exactly when every logged record is complete and appending put no
      comma before a first record; it then holds, per action, exactly the records with a logged level, in lock order. */
  lemma FileParsesIff(s: State, actions: seq<Action>)
    requires Fresh(s) && actions != [] && forall a <- actions :: GoodAction(a)
    ensures var result := ReadAs(forall a <- actions :: Legal(s, a), DocumentOf(s, actions), "");
            ParseDocument(Run(s, actions).file) == ParseValue(Run(s, actions).file) == result
  {
    var mod := actions[0].mod;
    assert GoodAction(actions[0]);
    RunText(s, actions);
    DocumentShape(s, actions);
    ModuleReads(s, actions);
    WholeReads(ModuleText(mod, ActionsTail(s, actions)), forall a <- actions :: Legal(s, a),
               Member(mod, JObject(ArraysOf(s, actions))));
  }

  lemma ActionHeadsObject(s: State, a: Action, w: string, after: string)
    requires Blank(w)
    ensures StartsWith(SkipBlanks(w + (ActionBody(s, a) + after)), '"')
  {
    ActionShape(w, a.name, RecordsText(s.append, KeptNodes(s, a.requests)), after);
    var records := RecordsText(s.append, KeptNodes(s, a.requests));
    var tail := Quoted(a.name) + "" + ":" + "" + ("[" + ("\n" + (records + (INDENT + ("]" + after)))));
    assert w + (ActionBody(s, a) + after) == (w + INDENT) + tail;
    HeadAfterBlanks(w + INDENT, tail);
  }

  /** The members of the outermost object: the version, then the module. */
  lemma VersionReads(module1: string, ok: bool, m: Member)
    requires ParseMembers(module1) == ReadAs(ok, [m], "")
    ensures ParseMembers("\n" + Quoted("version") + "" + ":" + "" + (Quoted("1.0") + ("" + ("," + module1)))) ==
            ReadAs(ok, [Member("version", JString("1.0")), m], "")
  {
    var version := Member("version", JString("1.0"));
    var value := Quoted("1.0") + ("" + ("," + module1));
    FieldReads("\n", "version", "", "", value);
    TrimmedString("1.0", "" + ("," + module1));
    MemberThenMore("\n" + Quoted("version") + "" + ":" + "" + value, true, version, "", module1, ok, [m], "");
    assert [version] + [m] == [version, m];
  }

  /** The version field in front of the module's member, and the outermost braces. */
  lemma WholeReads(module1: string, ok: bool, m: Member)
    requires ParseMembers(module1) == ReadAs(ok, [m], "")
    ensures ParseValue("{" + ("\n" + Quoted("version") + "" + ":" + "" + (Quoted("1.0") + ("" + ("," + module1))))) ==
            ReadAs(ok, JObject([Member("version", JString("1.0")), m]), "")
  {
    var tail := Quoted("version") + "" + ":" + "" + (Quoted("1.0") + ("" + ("," + module1)));
    VersionReads(module1, ok, m);
    var inner := "\n" + Quoted("version") + "" + ":" + "" + (Quoted("1.0") + ("" + ("," + module1)));
    assert inner == "\n" + tail;
    HeadAfterBlanks("\n", tail);
    NoBlanks("{" + inner);
    BracedReads("", inner, ok, [Member("version", JString("1.0")), m], "");
  }

  // ---------------------------------------------------------------- records and workers

  const LEVEL_NAMES: seq<string> := ["NONE  ", "RESULT", "ERROR ", "INFO  ", "DEBUG ", "TRACE "]

  function LevelName(level: int): string {
    if LOG_NONE <= level < LOG_TRACE then LEVEL_NAMES[level] else "UNKNOWN"
  }

  /** What LogRecordCreate hands out. */
  function NewRecord(mod: string, action: string, level: int, sec: nat, usec: nat, minimal: bool): Node {
    if minimal then MinNode(action, level, false, [])
    else RecNode(action, level, sec, usec,
                 [StringNode("action", action), StringNode("module", mod),
                  StringNode("loglevelname", LevelName(level))])
  }

  /** A record under construction: created by LogRecordCreate, then grown by AddString, AddInt and AddNode. */
  class Record {
    var node: Node

    constructor (mod: string, action: string, level: int, sec: nat, usec: nat, minimal: bool)
      ensures node == NewRecord(mod, action, level, sec, usec, minimal)
    {
      node := if minimal then MinNode(action, level, false, []) else RecNode(action, level, sec, usec, []);
      new;
      if !minimal {
        Add(StringNode("action", action));
        Add(StringNode("module", mod));
        Add(StringNode("loglevelname", LevelName(level)));
      }
    }

    method Add(child: Node)
      modifies this
      ensures node == WithChildren(old(node), [child])
    {
      node := WithChildren(node, [child]);
    }
  }

  /** A record made by LogRecordCreate and grown with legal members is legal, so no dangling comma can arise from it. */
  lemma BuiltRecordsAreLegal(mod: string, action: string, level: int, sec: nat, usec: nat, minimal: bool,
                             added: seq<Node>)
    requires Plain(mod) && Plain(action)
    requires forall k <- added :: IsMember(k) && Sorted(k) && Complete(k)
    ensures var n := WithChildren(NewRecord(mod, action, level, sec, usec, minimal), added);
            !IsMember(n) && Sorted(n) && Complete(n) && LogLevel(n) == level
  {
    LevelNamesAre(level);
  }

  /** What a reader finds in a full record that LogRecordCreate has made and that has then been given `added`. A level
      of five is called unknown, although it has a name. */
  lemma BuiltRecordReads(mod: string, action: string, level: int, sec: nat, usec: nat, added: seq<Node>, lead: string)
    requires Plain(mod) && Plain(action) && Blank(lead)
    requires forall k <- added :: IsMember(k) && Sorted(k) && Complete(k)
    ensures var levelName := if level == 0 then "NONE  " else if level == 1 then "RESULT"
                             else if level == 2 then "ERROR " else if level == 3 then "INFO  "
                             else if level == 4 then "DEBUG " else "UNKNOWN";
            ParseDocument(ToJson(WithChildren(NewRecord(mod, action, level, sec, usec, false), added), lead)) ==
            Ok(JObject([Member("loglevel", JNumber(level)), Member("time", JString(TimeText(sec, usec)))] +
                       ([Member("action", JString(action)), Member("module", JString(mod)),
                         Member("loglevelname", JString(levelName))] + MembersOf(added))), "")
  {
    var full := WithChildren(NewRecord(mod, action, level, sec, usec, false), added);
    BuiltRecordsAreLegal(mod, action, level, sec, usec, false, added);
    IndentationNeverMatters(full, lead, lead);
    LevelNamesAre(level);
    BuiltMembers(mod, action, level, sec, usec, added);
  }

  lemma LevelNamesAre(level: int)
    ensures LevelName(level) == if level == 0 then "NONE  " else if level == 1 then "RESULT"
                                else if level == 2 then "ERROR " else if level == 3 then "INFO  "
                                else if level == 4 then "DEBUG " else "UNKNOWN"
    ensures Plain(LevelName(level))
  {
    assert forall i :: 0 <= i < 6 ==> Plain(LEVEL_NAMES[i]);
  }

  lemma BuiltMembers(mod: string, action: string, level: int, sec: nat, usec: nat, added: seq<Node>)
    requires Plain(mod) && Plain(action) && forall k <- added :: IsMember(k) && Sorted(k)
    ensures var full := WithChildren(NewRecord(mod, action, level, sec, usec, false), added);
            full.RecNode? && full.level == level && full.sec == sec && full.usec == usec &&
            MembersOf(full.kids) == [Member("action", JString(action)), Member("module", JString(mod)),
                                     Member("loglevelname", JString(LevelName(level)))] + MembersOf(added)
  {
    LevelNamesAre(level);
    ThreeThenMore(action, mod, LevelName(level), added);
  }

  lemma ThreeThenMore(action: string, mod: string, levelName: string, more: seq<Node>)
    requires Plain(action) && Plain(mod) && Plain(levelName) && forall k <- more :: IsMember(k) && Sorted(k)
    ensures var own := [StringNode("action", action), StringNode("module", mod), StringNode("loglevelname", levelName)];
            (forall k <- own + more :: IsMember(k) && Sorted(k)) &&
            MembersOf(own + more) == [Member("action", JString(action)), Member("module", JString(mod)),
                                      Member("loglevelname", JString(levelName))] + MembersOf(more)
  {
    var a, b, c := StringNode("action", action), StringNode("module", mod), StringNode("loglevelname", levelName);
    MembersCons(c, more);
    MembersCons(b, [c] + more);
    MembersCons(a, [b] + ([c] + more));
    assert [a, b, c] + more == [a] + ([b] + ([c] + more));
    ThreeInFront(MemberOf(a), MemberOf(b), MemberOf(c), MembersOf(more));
  }

  lemma ThreeInFront(a: Member, b: Member, c: Member, more: seq<Member>)
    ensures [a] + ([b] + ([c] + more)) == [a, b, c] + more
  {
  }

  /** And in a minimal one: nothing but what it has been given. */
  lemma MinimalRecordReads(mod: string, action: string, level: int, sec: nat, usec: nat, added: seq<Node>, lead: string)
    requires Plain(mod) && Plain(action) && Blank(lead)
    requires forall k <- added :: IsMember(k) && Sorted(k) && Complete(k)
    ensures ParseDocument(ToJson(WithChildren(NewRecord(mod, action, level, sec, usec, true), added), lead)) ==
            Ok(JObject(MembersOf(added)), "")
  {
    BuiltRecordsAreLegal(mod, action, level, sec, usec, true, added);
    IndentationNeverMatters(WithChildren(NewRecord(mod, action, level, sec, usec, true), added), lead, lead);
    assert [] + added == added;
  }

  /** The requests of worker `w`, in the order they got the lock. */
  function OfWorker(order: seq<Request>, w: nat): seq<Node> {
    if order == [] then []
    else
      var last := order[|order| - 1];
      OfWorker(order[..|order| - 1], w) + if last.worker == w then [last.node] else []
  }

  lemma {:induction false} FlushAllAppend(s: State, rs: seq<Request>, r: Request)
    ensures FlushAll(s, rs + [r]) == Flush(FlushAll(s, rs), r.node)
    decreases |rs|
  {
    if rs == [] {
      assert rs + [r] == [r];
    } else {
      assert (rs + [r])[1..] == rs[1..] + [r];
      FlushAllAppend(Flush(s, rs[0].node), rs[1..], r);
    }
  }

  /** A lock order part-way through: what each worker has flushed and what it still has make up its queue. */
  ghost predicate Shuffling(queues: seq<seq<Node>>, order: seq<Request>, todo: seq<seq<Node>>) {
    |todo| == |queues| &&
    (forall w :: 0 <= w < |queues| ==> OfWorker(order, w) + todo[w] == queues[w]) &&
    forall i :: 0 <= i < |order| ==> order[i].worker < |queues|
  }

  lemma ShuffleStep(queues: seq<seq<Node>>, order: seq<Request>, todo: seq<seq<Node>>, w: nat)
    requires Shuffling(queues, order, todo) && w < |todo| && todo[w] != []
    ensures Shuffling(queues, order + [Request(w, todo[w][0])], todo[w := todo[w][1..]])
  {
    var order', todo' := order + [Request(w, todo[w][0])], todo[w := todo[w][1..]];
    assert order'[..|order|] == order;
    forall v | 0 <= v < |queues| ensures OfWorker(order', v) + todo'[v] == queues[v] {
      if v == w { assert OfWorker(order, v) + ([todo[w][0]] + todo[w][1..]) == queues[v]; }
    }
  }

  /** A lock order in which every worker's requests come exactly in that worker's order. */
  ghost predicate Interleaves(queues: seq<seq<Node>>, order: seq<Request>) {
    (forall w :: 0 <= w < |queues| ==> OfWorker(order, w) == queues[w]) &&
    forall i :: 0 <= i < |order| ==> order[i].worker < |queues|
  }

  /** One action with its workers running: at each turn any worker that still has a record may get the lock.
      Whatever the schedule, the effect is that of one lock order that interleaves the workers' queues. */
  method PlayAction(l: Logger, mod: string, name: string, queues: seq<seq<Node>>) returns (order: seq<Request>)
    modifies l
    ensures l.Abs() == RunAction(old(l.Abs()), Action(mod, name, order))
    ensures Interleaves(queues, order)
  {
    var _ := l.JsonActionStartNodeCreate(mod, name);
    ghost var started := l.Abs();
    order := [];
    var todo := queues;
    while exists w :: 0 <= w < |todo| && todo[w] != []
      invariant Shuffling(queues, order, todo)
      invariant l.Abs() == FlushAll(started, order)
      decreases TotalLength(todo)
    {
      var w: nat :| w < |todo| && todo[w] != [];
      var r := Request(w, todo[w][0]);
      var _ := l.LogRecordFlush(r.node);
      FlushAllAppend(started, order, r);
      TotalLengthDrops(todo, w);
      ShuffleStep(queues, order, todo, w);
      order, todo := order + [r], todo[w := todo[w][1..]];
    }
    var _ := l.JsonActionEndNodeCreate();
  }

  ghost function TotalLength(queues: seq<seq<Node>>): nat {
    if queues == [] then 0 else |queues[0]| + TotalLength(queues[1..])
  }

  lemma {:induction false} TotalLengthDrops(queues: seq<seq<Node>>, w: nat)
    requires w < |queues| && queues[w] != []
    ensures TotalLength(queues[w := queues[w][1..]]) < TotalLength(queues)
  {
    if w > 0 {
      assert queues[w := queues[w][1..]][1..] == queues[1..][w - 1 := queues[w][1..]];
      TotalLengthDrops(queues[1..], w - 1);
    }
  }
}
