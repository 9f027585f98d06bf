/** The parser inverts the printer: what ToJson prints reads back as the tree's meaning, for every blank indentation. */
module JsonRoundTrip {
  import opened Decimal
  import opened Json
  import opened LogNodes

  predicate AllComplete(kids: seq<Node>) { forall k <- kids :: Complete(k) }

  function ReadAs<T>(ok: bool, value: T, rest: string): Parsed<T> { if ok then Ok(value, rest) else Fail }

  // ---------------------------------------------------------------- scalars and fields

  lemma BlankLead(lead: string)
    requires Blank(lead)
    ensures Blank(lead + INDENT) && Blank(ENDL + lead) && Blank(ENDL + lead + INDENT)
  {
  }

  lemma TrimmedString(text: string, rest: string)
    requires Plain(text)
    ensures ParseValue(Quoted(text) + rest) == Ok(JString(text), rest)
  {
    QuotedReads(text, rest);
    assert (Quoted(text) + rest)[0] == '"';
  }

  lemma NumberIsValue(t: string, n: int, rest: string)
    requires t != "" && (t[0] == '-' || IsDigit(t[0])) && ParseNumber(t) == Ok(n, rest)
    ensures ParseValue(t) == Ok(JNumber(n), rest)
  {
    assert !IsBlank(t[0]) && t[0] != '{' && t[0] != '[' && t[0] != '"';
    assert SkipBlanks(t) == t;
    assert ParseTrimmed(t) == Ok(JNumber(n), rest);
  }

  lemma TrimmedNumber(n: int, rest: string)
    requires rest == "" || !IsDigit(rest[0])
    ensures ParseValue(IntText(n) + rest) == Ok(JNumber(n), rest)
  {
    NumberReads(n, rest);
    NumberIsValue(IntText(n) + rest, n, rest);
  }

  /** What reading a value gives once the value is known to belong to a field. */
  function AsField(name: string, v: Parsed<Value>): Parsed<Member> {
    match v
    case Fail => Fail
    case Ok(value, rest) => Ok(Member(name, value), rest)
  }

  lemma HeadAfterBlanks(w: string, rest: string)
    requires Blank(w) && rest != "" && !IsBlank(rest[0])
    ensures SkipBlanks(w + rest) == rest
  {
    SkipBlanksOver(w, rest);
  }

  /** An array, given how its non-empty element list reads. */
  lemma BracketedReads(w: string, inner: string, ok: bool, vs: seq<Value>, rest: string)
    requires Blank(w) && !StartsWith(SkipBlanks(inner), ']') && ParseElements(inner) == ReadAs(ok, vs, rest)
    ensures ParseValue(w + ("[" + inner)) == ReadAs(ok, JArray(vs), rest)
  {
    HeadAfterBlanks(w, "[" + inner);
    assert ("[" + inner)[1..] == inner;
  }

  /** An object, given how its non-empty member list reads. */
  lemma BracedReads(w: string, inner: string, ok: bool, ms: seq<Member>, rest: string)
    requires Blank(w) && !StartsWith(SkipBlanks(inner), '}') && ParseMembers(inner) == ReadAs(ok, ms, rest)
    ensures ParseValue(w + ("{" + inner)) == ReadAs(ok, JObject(ms), rest)
  {
    HeadAfterBlanks(w, "{" + inner);
    assert ("{" + inner)[1..] == inner;
  }

  lemma NoBlanks(text: string)
    ensures "" + text == text
  {
  }

  lemma MemberParts(s: string, name: string, afterName: string, tail: string)
    requires ParseString(SkipBlanks(s)) == Ok(name, afterName) && SkipBlanks(afterName) == ":" + tail
    ensures ParseMember(s) == AsField(name, ParseValue(tail))
  {
    assert (":" + tail)[1..] == tail;
  }

  lemma NameReads(w: string, name: string, afterName: string)
    requires Blank(w) && Plain(name)
    ensures ParseString(SkipBlanks(w + (Quoted(name) + afterName))) == Ok(name, afterName)
  {
    HeadAfterBlanks(w, Quoted(name) + afterName);
    QuotedReads(name, afterName);
  }

  lemma FieldShape(w: string, quoted: string, b1: string, b2: string, body: string)
    ensures w + quoted + b1 + ":" + b2 + body == w + (quoted + (b1 + (":" + (b2 + body))))
  {
  }

  /** A quoted name, a colon between blanks and a value read as one member. */
  lemma FieldReads(w: string, name: string, b1: string, b2: string, body: string)
    requires Blank(w) && Blank(b1) && Blank(b2) && Plain(name)
    ensures ParseMember(w + Quoted(name) + b1 + ":" + b2 + body) == AsField(name, ParseValue(body))
  {
    var tail := b2 + body;
    FieldShape(w, Quoted(name), b1, b2, body);
    NameReads(w, name, b1 + (":" + tail));
    HeadAfterBlanks(b1, ":" + tail);
    MemberParts(w + (Quoted(name) + (b1 + (":" + tail))), name, b1 + (":" + tail), tail);
    SkipBlanksOver(b2, body);
  }

  lemma SpacedFieldReads(w: string, name: string, body: string)
    requires Blank(w) && Plain(name)
    ensures ParseMember(w + Quoted(name) + " : " + body) == AsField(name, ParseValue(body))
  {
    FieldReads(w, name, " ", " ", body);
    assert w + Quoted(name) + " : " + body == w + Quoted(name) + " " + ":" + " " + body;
  }

  // ---------------------------------------------------------------- what a child's text starts with

  lemma MemberHead(n: Node, lead: string, rest: string)
    requires IsMember(n) && Blank(lead)
    ensures StartsWith(SkipBlanks(ToJson(n, lead) + rest), '"')
  {
    var tail := ToJson(n, lead)[1 + |lead|..];
    BlankLead(lead);
    assert ToJson(n, lead) + rest == ENDL + lead + (tail + rest);
    SkipBlanksOver(ENDL + lead, tail + rest);
    assert tail[0] == '"';
  }

  lemma ElementHead(n: Node, lead: string, rest: string)
    requires !IsMember(n) && Blank(lead)
    ensures StartsWith(SkipBlanks(ToJson(n, lead) + rest), '{')
  {
    BlankLead(lead);
    if n.RecNode? {
      RecText(n, lead, rest);
      var kidsText := KidsToJson(n.kids, lead + INDENT) + ((ENDL + lead) + ("}" + rest));
      HeadAfterBlanks(ENDL + lead, "{" + LevelField(n, lead, TimeField(n, lead, kidsText)));
    } else {
      var text := ToJson(n, lead) + rest;
      assert text[0] == '\n' && text[1] == '{';
      HeadAfterBlanks(ENDL, text[1..]);
      assert text == ENDL + text[1..];
    }
  }

  lemma KidsHead(kids: seq<Node>, lead: string, rest: string)
    requires kids != [] && Blank(lead)
    ensures StartsWith(SkipBlanks(KidsToJson(kids, lead) + rest), if IsMember(kids[0]) then '"' else '{')
  {
    var after := AfterKid(kids, lead, rest);
    KidsSplit(kids, lead, rest);
    if IsMember(kids[0]) { MemberHead(kids[0], lead, after); } else { ElementHead(kids[0], lead, after); }
  }

  // ---------------------------------------------------------------- child lists

  /** The text after a child: a comma and the other children, or the closing text. */
  function AfterKid(kids: seq<Node>, lead: string, close: string): string
    requires kids != []
  {
    if |kids| > 1 then "," + (KidsToJson(kids[1..], lead) + close) else close
  }

  lemma KidsSplit(kids: seq<Node>, lead: string, close: string)
    requires kids != []
    ensures KidsToJson(kids, lead) + close == ToJson(kids[0], lead) + AfterKid(kids, lead, close)
  {
  }

  /** A member list ends with its last member. */
  lemma LastMember(text: string, ok: bool, m: Member, gap: string, rest: string)
    requires Blank(gap) && ParseMember(text) == ReadAs(ok, m, gap + ("}" + rest))
    ensures ParseMembers(text) == ReadAs(ok, [m], rest)
  {
    SkipBlanksOver(gap, "}" + rest);
  }

  /** A member list goes on after a comma. */
  lemma MemberThenMore(text: string, ok: bool, m: Member, gap: string, next: string, okNext: bool, ms: seq<Member>,
                       rest: string)
    requires Blank(gap) && ParseMember(text) == ReadAs(ok, m, gap + ("," + next))
    requires ParseMembers(next) == ReadAs(okNext, ms, rest)
    ensures ParseMembers(text) == ReadAs(ok && okNext, [m] + ms, rest)
  {
    SkipBlanksOver(gap, "," + next);
    assert ("," + next)[1..] == next;
  }

  lemma {:induction false} MembersRead(kids: seq<Node>, lead: string, gap: string, rest: string)
    requires kids != [] && forall k <- kids :: IsMember(k) && Sorted(k)
    requires Blank(lead) && Blank(gap) && gap != ""
    ensures ParseMembers(KidsToJson(kids, lead) + (gap + ("}" + rest))) ==
            ReadAs(AllComplete(kids), MembersOf(kids), rest)
    decreases kids, 2
  {
    var close := gap + ("}" + rest);
    KidsSplit(kids, lead, close);
    var after := AfterKid(kids, lead, close);
    MemberReads(kids[0], lead, after);
    assert kids == [kids[0]] + kids[1..];
    if |kids| > 1 {
      var next := KidsToJson(kids[1..], lead) + close;
      MembersRead(kids[1..], lead, gap, rest);
      NoBlanks("," + next);
      MemberThenMore(ToJson(kids[0], lead) + after, Complete(kids[0]), MemberOf(kids[0]), "", next,
                     AllComplete(kids[1..]), MembersOf(kids[1..]), rest);
    } else {
      LastMember(ToJson(kids[0], lead) + after, Complete(kids[0]), MemberOf(kids[0]), gap, rest);
      assert kids[1..] == [] && MembersOf(kids) == [MemberOf(kids[0])];
    }
  }

  /** An element list ends with its last element. */
  lemma LastElement(text: string, ok: bool, v: Value, gap: string, rest: string)
    requires Blank(gap) && ParseValue(text) == ReadAs(ok, v, gap + ("]" + rest))
    ensures ParseElements(text) == ReadAs(ok, [v], rest)
  {
    SkipBlanksOver(gap, "]" + rest);
  }

  /** An element list goes on after a comma. */
  lemma ElementThenMore(text: string, ok: bool, v: Value, next: string, okNext: bool, vs: seq<Value>, rest: string)
    requires ParseValue(text) == ReadAs(ok, v, "," + next) && ParseElements(next) == ReadAs(okNext, vs, rest)
    ensures ParseElements(text) == ReadAs(ok && okNext, [v] + vs, rest)
  {
    assert ("," + next)[1..] == next;
  }

  lemma {:induction false} ElementsRead(kids: seq<Node>, lead: string, gap: string, rest: string)
    requires kids != [] && forall k <- kids :: !IsMember(k) && Sorted(k)
    requires Blank(lead) && Blank(gap)
    ensures ParseElements(KidsToJson(kids, lead) + (gap + ("]" + rest))) ==
            ReadAs(AllComplete(kids), ElementsOf(kids), rest)
    decreases kids, 2
  {
    var close := gap + ("]" + rest);
    KidsSplit(kids, lead, close);
    var after := AfterKid(kids, lead, close);
    ElementReads(kids[0], lead, after);
    assert kids == [kids[0]] + kids[1..];
    if |kids| > 1 {
      ElementsRead(kids[1..], lead, gap, rest);
      ElementThenMore(ToJson(kids[0], lead) + after, Complete(kids[0]), ElementOf(kids[0]),
                      KidsToJson(kids[1..], lead) + close, AllComplete(kids[1..]), ElementsOf(kids[1..]), rest);
    } else {
      LastElement(ToJson(kids[0], lead) + after, Complete(kids[0]), ElementOf(kids[0]), gap, rest);
      assert kids[1..] == [] && ElementsOf(kids) == [ElementOf(kids[0])];
    }
  }

  /** An object whose members are the children: an empty one is allowed. */
  lemma {:induction false} ObjectReads(kids: seq<Node>, lead: string, gap: string, rest: string)
    requires forall k <- kids :: IsMember(k) && Sorted(k)
    requires Blank(lead) && Blank(gap) && gap != ""
    ensures ParseValue("{" + (KidsToJson(kids, lead) + (gap + ("}" + rest)))) ==
            ReadAs(AllComplete(kids), JObject(MembersOf(kids)), rest)
    decreases kids, 3
  {
    var body := KidsToJson(kids, lead) + (gap + ("}" + rest));
    var t := "{" + body;
    assert t[1..] == body && SkipBlanks(t) == t;
    if kids == [] {
      assert body == gap + ("}" + rest);
      SkipBlanksOver(gap, "}" + rest);
    } else {
      KidsHead(kids, lead, gap + ("}" + rest));
      MembersRead(kids, lead, gap, rest);
    }
  }

  lemma {:induction false} ArrayReads(kids: seq<Node>, lead: string, gap: string, rest: string)
    requires forall k <- kids :: !IsMember(k) && Sorted(k)
    requires Blank(lead) && Blank(gap)
    ensures ParseValue("[" + (KidsToJson(kids, lead) + (gap + ("]" + rest)))) ==
            ReadAs(AllComplete(kids), JArray(ElementsOf(kids)), rest)
    decreases kids, 3
  {
    var body := KidsToJson(kids, lead) + (gap + ("]" + rest));
    var t := "[" + body;
    assert t[1..] == body && SkipBlanks(t) == t;
    if kids == [] {
      assert body == gap + ("]" + rest);
      SkipBlanksOver(gap, "]" + rest);
    } else {
      KidsHead(kids, lead, gap + ("]" + rest));
      ElementsRead(kids, lead, gap, rest);
    }
  }

  /** An object with a single field, given how its value reads. */
  lemma SingletonReads(w: string, name: string, body: string, v: Value, ok: bool, gap: string, rest: string)
    requires Blank(w) && Plain(name) && Blank(gap)
    requires ParseValue(body) == ReadAs(ok, v, gap + ("}" + rest))
    ensures ParseTrimmed("{" + (w + Quoted(name) + " : " + body)) == ReadAs(ok, JObject([Member(name, v)]), rest)
  {
    var field := w + Quoted(name) + " : " + body;
    assert ("{" + field)[1..] == field;
    SpacedFieldReads(w, name, body);
    SkipBlanksOver(gap, "}" + rest);
    assert field == w + (Quoted(name) + " : " + body);
    SkipBlanksOver(w, Quoted(name) + " : " + body);
    assert (Quoted(name) + " : " + body)[0] == '"';
  }

  // ---------------------------------------------------------------- nodes

  /** A member node reads back as its member, unless some LogNodeRec below it has no child. */
  lemma {:induction false} MemberReads(n: Node, lead: string, rest: string)
    requires Sorted(n) && IsMember(n) && Blank(lead)
    requires rest == "" || !IsDigit(rest[0])
    ensures ParseMember(ToJson(n, lead) + rest) == ReadAs(Complete(n), MemberOf(n), rest)
    decreases n, 1
  {
    BlankLead(lead);
    var head := ENDL + lead;
    match n
    case StringNode(name, text) => StringNodeReads(n, lead, rest);
    case IntNode(name, v) => IntNodeReads(n, lead, rest);
    case GroupNode(name, kids) =>
      var body := "{" + (KidsToJson(kids, lead + INDENT) + (head + ("}" + rest)));
      GroupText(name, kids, lead, rest);
      SpacedFieldReads(head, name, body);
      ObjectReads(kids, lead + INDENT, head, rest);
  }

  lemma StringNodeReads(n: Node, lead: string, rest: string)
    requires n.StringNode? && Sorted(n) && Blank(lead)
    ensures ParseMember(ToJson(n, lead) + rest) == Ok(MemberOf(n), rest)
  {
    BlankLead(lead);
    assert ToJson(n, lead) + rest == (ENDL + lead) + Quoted(n.name) + " : " + (Quoted(n.text) + rest);
    SpacedFieldReads(ENDL + lead, n.name, Quoted(n.text) + rest);
    TrimmedString(n.text, rest);
  }

  lemma IntNodeReads(n: Node, lead: string, rest: string)
    requires n.IntNode? && Sorted(n) && Blank(lead)
    requires rest == "" || !IsDigit(rest[0])
    ensures ParseMember(ToJson(n, lead) + rest) == Ok(MemberOf(n), rest)
  {
    BlankLead(lead);
    assert ToJson(n, lead) + rest == (ENDL + lead) + Quoted(n.name) + " : " + (IntText(n.n) + rest);
    SpacedFieldReads(ENDL + lead, n.name, IntText(n.n) + rest);
    TrimmedNumber(n.n, rest);
  }

  lemma GroupText(name: string, kids: seq<Node>, lead: string, rest: string)
    ensures ToJson(GroupNode(name, kids), lead) + rest ==
            (ENDL + lead) + Quoted(name) + " : " +
            ("{" + (KidsToJson(kids, lead + INDENT) + ((ENDL + lead) + ("}" + rest))))
  {
  }

  /** Any other node reads back as its value, unless some LogNodeRec in it has no child. */
  lemma {:induction false} ElementReads(n: Node, lead: string, rest: string)
    requires Sorted(n) && !IsMember(n) && Blank(lead)
    ensures ParseValue(ToJson(n, lead) + rest) == ReadAs(Complete(n), ElementOf(n), rest)
    decreases n, 1
  {
    match n
    case RecNode(_, _, _, _, _) => RecordReads(n, lead, rest);
    case MinNode(_, _, _, _) => MinNodeReads(n, lead, rest);
    case ListNode(_, _, _) => ListNodeReads(n, lead, rest);
  }

  lemma {:induction false} MinNodeReads(n: Node, lead: string, rest: string)
    requires n.MinNode? && Sorted(n) && Blank(lead)
    ensures ParseValue(ToJson(n, lead) + rest) == ReadAs(Complete(n), ElementOf(n), rest)
    decreases n, 0
  {
    BlankLead(lead);
    var head := ENDL + lead;
    var after := if n.named then head + ("}" + rest) else rest;
    var inner := "{" + (KidsToJson(n.kids, lead + INDENT) + (head + ("}" + after)));
    ObjectReads(n.kids, lead + INDENT, head, after);
    MinText(n, lead, rest);
    if n.named {
      SingletonReads(lead, n.name, inner, JObject(MembersOf(n.kids)), AllComplete(n.kids), head, rest);
      HeadAfterBlanks(ENDL, "{" + (lead + Quoted(n.name) + " : " + inner));
    } else {
      SkipBlanksOver(ENDL, inner);
    }
  }

  lemma {:induction false} ListNodeReads(n: Node, lead: string, rest: string)
    requires n.ListNode? && Sorted(n) && Blank(lead)
    ensures ParseValue(ToJson(n, lead) + rest) == ReadAs(Complete(n), ElementOf(n), rest)
    decreases n, 0
  {
    BlankLead(lead);
    var head := ENDL + lead;
    var inner := "[" + (KidsToJson(n.kids, lead + INDENT) + (head + ("]" + ("}" + rest))));
    ArrayReads(n.kids, lead + INDENT, head, "}" + rest);
    ListText(n, lead, rest);
    assert "" + ("}" + rest) == "}" + rest;
    SingletonReads(lead, n.name, inner, JArray(ElementsOf(n.kids)), AllComplete(n.kids), "", rest);
    HeadAfterBlanks(ENDL, "{" + (lead + Quoted(n.name) + " : " + inner));
  }

  lemma MinText(n: Node, lead: string, rest: string)
    requires n.MinNode?
    ensures var head := ENDL + lead;
            var after := if n.named then head + ("}" + rest) else rest;
            var inner := "{" + (KidsToJson(n.kids, lead + INDENT) + (head + ("}" + after)));
            ToJson(n, lead) + rest ==
            ENDL + if n.named then "{" + (lead + Quoted(n.name) + " : " + inner) else inner
  {
  }

  lemma ListText(n: Node, lead: string, rest: string)
    requires n.ListNode?
    ensures ToJson(n, lead) + rest ==
            ENDL + ("{" + (lead + Quoted(n.name) + " : " +
                           ("[" + (KidsToJson(n.kids, lead + INDENT) + ((ENDL + lead) + ("]" + ("}" + rest)))))))
  {
  }

  // ---------------------------------------------------------------- LogNodeRec

  lemma TimeIsPlain(sec: nat, usec: nat)
    ensures Plain(TimeText(sec, usec))
  {
    IntTextIsPlain(AsInt32(sec));
    IntTextIsPlain(AsInt32(usec));
  }

  lemma IntTextIsPlain(n: int)
    ensures Plain(IntText(n))
  {
    NatTextReadsBack(if n < 0 then -n else n);
  }

  /** The two fixed fields a LogNodeRec prints first, each with its comma. */
  function LevelField(n: Node, lead: string, after: string): string
    requires n.RecNode?
  {
    (ENDL + lead + INDENT) + Quoted("loglevel") + " : " + (IntText(n.level) + ("," + after))
  }

  function TimeField(n: Node, lead: string, after: string): string
    requires n.RecNode?
  {
    (ENDL + lead + INDENT) + Quoted("time") + " : " + (Quoted(TimeText(n.sec, n.usec)) + ("," + after))
  }

  lemma RecText(n: Node, lead: string, rest: string)
    requires n.RecNode?
    ensures var kidsText := KidsToJson(n.kids, lead + INDENT) + ((ENDL + lead) + ("}" + rest));
            ToJson(n, lead) + rest == (ENDL + lead) + ("{" + LevelField(n, lead, TimeField(n, lead, kidsText)))
  {
    var levelText := FixedField(lead, "loglevel", IntText(n.level));
    var timeText := FixedField(lead, "time", Quoted(TimeText(n.sec, n.usec)));
    var kids := KidsToJson(n.kids, lead + INDENT);
    var kidsText := kids + ((ENDL + lead) + ("}" + rest));
    FieldText(lead, "time", Quoted(TimeText(n.sec, n.usec)), kidsText);
    FieldText(lead, "loglevel", IntText(n.level), timeText + kidsText);
    RecTextShape(ENDL + lead, levelText, timeText, kids, ENDL, lead, rest);
  }

  lemma RecTextShape(head: string, levelText: string, timeText: string, kids: string, endl: string, lead: string,
                     rest: string)
    ensures (head + "{" + levelText + timeText + kids + endl + lead + "}") + rest ==
            head + ("{" + (levelText + (timeText + (kids + ((endl + lead) + ("}" + rest))))))
  {
  }

  lemma FieldText(lead: string, name: string, value: string, after: string)
    ensures FixedField(lead, name, value) + after ==
            (ENDL + lead + INDENT) + Quoted(name) + " : " + (value + ("," + after))
  {
  }

  /** Reading a member list whose first member is already known, followed by a comma. */
  lemma ConsMember(text: string, m: Member, after: string, ok: bool, ms: seq<Member>, rest: string)
    requires ParseMember(text) == Ok(m, "," + after) && ParseMembers(after) == ReadAs(ok, ms, rest)
    ensures ParseMembers(text) == ReadAs(ok, [m] + ms, rest)
  {
    assert ("," + after)[1..] == after;
  }

  /** Without children the comma after the time stamp is left dangling. */
  lemma DanglingComma(gap: string, rest: string)
    requires Blank(gap)
    ensures ParseMembers(gap + ("}" + rest)) == Fail
  {
    SkipBlanksOver(gap, "}" + rest);
  }

  lemma LevelReads(n: Node, lead: string, after: string)
    requires n.RecNode? && Blank(lead)
    ensures ParseMember(LevelField(n, lead, after)) == Ok(Member("loglevel", JNumber(n.level)), "," + after)
  {
    BlankLead(lead);
    SpacedFieldReads(ENDL + lead + INDENT, "loglevel", IntText(n.level) + ("," + after));
    TrimmedNumber(n.level, "," + after);
  }

  lemma TimeReads(n: Node, lead: string, after: string)
    requires n.RecNode? && Blank(lead)
    ensures ParseMember(TimeField(n, lead, after)) == Ok(Member("time", JString(TimeText(n.sec, n.usec))), "," + after)
  {
    BlankLead(lead);
    TimeIsPlain(n.sec, n.usec);
    SpacedFieldReads(ENDL + lead + INDENT, "time", Quoted(TimeText(n.sec, n.usec)) + ("," + after));
    TrimmedString(TimeText(n.sec, n.usec), "," + after);
  }

  lemma {:induction false} RecordReads(n: Node, lead: string, rest: string)
    requires n.RecNode? && Sorted(n) && Blank(lead)
    ensures ParseValue(ToJson(n, lead) + rest) == ReadAs(Complete(n), ElementOf(n), rest)
    decreases n, 0
  {
    var kids := n.kids;
    var gap := ENDL + lead;
    BlankLead(lead);
    var kidsText := KidsToJson(kids, lead + INDENT) + (gap + ("}" + rest));
    if kids == [] {
      assert kidsText == gap + ("}" + rest);
      DanglingComma(gap, rest);
    } else {
      MembersRead(kids, lead + INDENT, gap, rest);
    }
    RecText(n, lead, rest);
    FixedFieldsRead(n, lead, rest, kidsText);
  }

  /** Two known members in front of whatever follows. */
  lemma TwoMembersRead(text1: string, m1: Member, text2: string, m2: Member, text3: string, ok: bool, ms: seq<Member>,
                       rest: string)
    requires ParseMember(text1) == Ok(m1, "," + text2) && ParseMember(text2) == Ok(m2, "," + text3)
    requires ParseMembers(text3) == ReadAs(ok, ms, rest)
    ensures ParseMembers(text1) == ReadAs(ok, [m1, m2] + ms, rest)
  {
    ConsMember(text2, m2, text3, ok, ms, rest);
    ConsMember(text1, m1, text2, ok, [m2] + ms, rest);
    assert [m1] + ([m2] + ms) == [m1, m2] + ms;
  }

  /** The fixed fields and the braces around whatever the children's text reads as. */
  lemma FixedFieldsRead(n: Node, lead: string, rest: string, kidsText: string)
    requires n.RecNode? && Sorted(n) && Blank(lead)
    requires ParseMembers(kidsText) == ReadAs(Complete(n), MembersOf(n.kids), rest)
    ensures ParseValue((ENDL + lead) + ("{" + LevelField(n, lead, TimeField(n, lead, kidsText)))) ==
            ReadAs(Complete(n), ElementOf(n), rest)
  {
    var timeText := TimeField(n, lead, kidsText);
    var levelText := LevelField(n, lead, timeText);
    var level, time := Member("loglevel", JNumber(n.level)), Member("time", JString(TimeText(n.sec, n.usec)));
    BlankLead(lead);
    LevelReads(n, lead, timeText);
    TimeReads(n, lead, kidsText);
    TwoMembersRead(levelText, level, timeText, time, kidsText, Complete(n), MembersOf(n.kids), rest);
    LevelTextHead(n, lead, timeText);
    BracedReads(ENDL + lead, levelText, Complete(n), [level, time] + MembersOf(n.kids), rest);
  }

  lemma LevelTextHead(n: Node, lead: string, after: string)
    requires n.RecNode? && Blank(lead)
    ensures !StartsWith(SkipBlanks(LevelField(n, lead, after)), '}')
  {
    BlankLead(lead);
    var tail := Quoted("loglevel") + " : " + (IntText(n.level) + ("," + after));
    assert LevelField(n, lead, after) == (ENDL + lead + INDENT) + tail;
    SkipBlanksOver(ENDL + lead + INDENT, tail);
    assert tail[0] == '"';
  }

  /** Printing loses nothing: two well-formed records with the same text, under any indentations, mean the same. */
  lemma IndentationNeverMatters(n: Node, lead1: string, lead2: string)
    requires Sorted(n) && !IsMember(n) && Blank(lead1) && Blank(lead2)
    ensures ParseDocument(ToJson(n, lead1)) == ParseDocument(ToJson(n, lead2))
    ensures ParseDocument(ToJson(n, lead1)) == ReadAs(Complete(n), ElementOf(n), "")
  {
    ElementReads(n, lead1, "");
    ElementReads(n, lead2, "");
    assert ToJson(n, lead1) + "" == ToJson(n, lead1) && ToJson(n, lead2) + "" == ToJson(n, lead2);
  }
}
