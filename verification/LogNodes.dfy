/** The logger's record trees and the text ToJson gives them. */
module LogNodes {
  import opened Decimal
  import opened Json

  const ENDL := "\n"
  const INDENT := "  "

  /** The node classes: LogNodeString, LogNodeInt, LogNode, LogNodeRec, MinNode and LogListNode. */
  datatype Node =
    | StringNode(name: string, text: string)
    | IntNode(name: string, n: int)
    | GroupNode(name: string, kids: seq<Node>)
    | RecNode(name: string, level: int, sec: nat, usec: nat, kids: seq<Node>)
    | MinNode(name: string, level: int, named: bool, kids: seq<Node>)
    | ListNode(name: string, level: int, kids: seq<Node>)

  /** LogLevel(): nodes without a level of their own answer 0. */
  function LogLevel(n: Node): int {
    if n.RecNode? || n.MinNode? || n.ListNode? then n.level else 0
  }

  /** Add: push children at the end (the two scalar classes have no Add). */
  function WithChildren(n: Node, more: seq<Node>): Node {
    match n
    case StringNode(_, _) => n
    case IntNode(_, _) => n
    case GroupNode(name, kids) => GroupNode(name, kids + more)
    case RecNode(name, level, sec, usec, kids) => RecNode(name, level, sec, usec, kids + more)
    case MinNode(name, level, named, kids) => MinNode(name, level, named, kids + more)
    case ListNode(name, level, kids) => ListNode(name, level, kids + more)
  }

  // ---------------------------------------------------------------- printing

  function Blanks(k: nat): (s: string)
    ensures |s| == k
  {
    seq(k, _ => ' ')
  }

  /** An unsigned value printed with %d. */
  function AsInt32(u: nat): int {
    var w := u % 0x1_0000_0000;
    if w < 0x8000_0000 then w else w - 0x1_0000_0000
  }

  function PadLeft(s: string): string { if |s| < 6 then Blanks(6 - |s|) + s else s }

  function PadRight(s: string): string { if |s| < 6 then s + Blanks(6 - |s|) else s }

  /** The "%6d.%-6d" time stamp of a LogNodeRec. */
  function TimeText(sec: nat, usec: nat): string {
    PadLeft(IntText(AsInt32(sec))) + "." + PadRight(IntText(AsInt32(usec)))
  }

  function Quoted(s: string): string { "\"" + s + "\"" }

  /** A field LogNodeRec prints before its children, always with a comma after it. */
  function FixedField(lead: string, name: string, value: string): string {
    ENDL + lead + INDENT + Quoted(name) + " : " + value + ","
  }

  function ToJson(n: Node, lead: string): string
    decreases n, 0
  {
    match n
    case StringNode(name, text) => ENDL + lead + Quoted(name) + " : " + Quoted(text)
    case IntNode(name, v) => ENDL + lead + Quoted(name) + " : " + IntText(v)
    case GroupNode(name, kids) =>
      ENDL + lead + Quoted(name) + " : {" + KidsToJson(kids, lead + INDENT) + ENDL + lead + "}"
    case RecNode(_, level, sec, usec, kids) =>
      ENDL + lead + "{" + FixedField(lead, "loglevel", IntText(level)) +
      FixedField(lead, "time", Quoted(TimeText(sec, usec))) +
      KidsToJson(kids, lead + INDENT) + ENDL + lead + "}"
    case MinNode(name, _, named, kids) =>
      ENDL + "{" + (if named then lead + Quoted(name) + " : {" else "") +
      KidsToJson(kids, lead + INDENT) + ENDL + lead + "}" + (if named then ENDL + lead + "}" else "")
    case ListNode(name, _, kids) =>
      ENDL + "{" + lead + Quoted(name) + " : [" + KidsToJson(kids, lead + INDENT) + ENDL + lead + "]" + "}"
  }

  /** The loop over Child: every child's text, with commas in between. */
  function KidsToJson(kids: seq<Node>, lead: string): string
    decreases kids, 1
  {
    if kids == [] then ""
    else ToJson(kids[0], lead) + (if |kids| > 1 then "," else "") + KidsToJson(kids[1..], lead)
  }

  // ---------------------------------------------------------------- meaning

  /** Nodes that print `"name" : value`; the others print an anonymous object. */
  predicate IsMember(n: Node) { n.StringNode? || n.IntNode? || n.GroupNode? }

  /** Children have the sort their parent prints around them, and no text needs escaping. */
  predicate Sorted(n: Node) {
    match n
    case StringNode(name, text) => Plain(name) && Plain(text)
    case IntNode(name, _) => Plain(name)
    case GroupNode(name, kids) => Plain(name) && forall k <- kids :: IsMember(k) && Sorted(k)
    case RecNode(_, _, _, _, kids) => forall k <- kids :: IsMember(k) && Sorted(k)
    case MinNode(name, _, named, kids) => (named ==> Plain(name)) && forall k <- kids :: IsMember(k) && Sorted(k)
    case ListNode(name, _, kids) => Plain(name) && forall k <- kids :: !IsMember(k) && Sorted(k)
  }

  /** Every LogNodeRec in the tree has at least one child. */
  predicate Complete(n: Node) {
    match n
    case StringNode(_, _) => true
    case IntNode(_, _) => true
    case GroupNode(_, kids) => forall k <- kids :: Complete(k)
    case RecNode(_, _, _, _, kids) => kids != [] && forall k <- kids :: Complete(k)
    case MinNode(_, _, _, kids) => forall k <- kids :: Complete(k)
    case ListNode(_, _, kids) => forall k <- kids :: Complete(k)
  }

  /** The member a member node stands for. */
  function MemberOf(n: Node): Member
    requires Sorted(n) && IsMember(n)
    decreases n, 0
  {
    match n
    case StringNode(name, text) => Member(name, JString(text))
    case IntNode(name, v) => Member(name, JNumber(v))
    case GroupNode(name, kids) => Member(name, JObject(MembersOf(kids)))
  }

  function MembersOf(kids: seq<Node>): (r: seq<Member>)
    requires forall k <- kids :: IsMember(k) && Sorted(k)
    decreases kids, 1
  {
    if kids == [] then [] else [MemberOf(kids[0])] + MembersOf(kids[1..])
  }

  /** The value any other node stands for. */
  function ElementOf(n: Node): Value
    requires Sorted(n) && !IsMember(n)
    decreases n, 0
  {
    match n
    case RecNode(_, level, sec, usec, kids) =>
      JObject([Member("loglevel", JNumber(level)), Member("time", JString(TimeText(sec, usec)))] + MembersOf(kids))
    case MinNode(name, _, named, kids) =>
      if named then JObject([Member(name, JObject(MembersOf(kids)))]) else JObject(MembersOf(kids))
    case ListNode(name, _, kids) => JObject([Member(name, JArray(ElementsOf(kids)))])
  }

  function ElementsOf(kids: seq<Node>): (r: seq<Value>)
    requires forall k <- kids :: !IsMember(k) && Sorted(k)
    decreases kids, 1
  {
    if kids == [] then [] else [ElementOf(kids[0])] + ElementsOf(kids[1..])
  }

  // ---------------------------------------------------------------- what the definitions say

  /** The children's meanings stand in the children's order. */
  lemma {:induction false} MembersAt(kids: seq<Node>, i: nat)
    requires (forall k <- kids :: IsMember(k) && Sorted(k)) && i < |kids|
    ensures |MembersOf(kids)| == |kids| && MembersOf(kids)[i] == MemberOf(kids[i])
    decreases |kids|
  {
    if |kids| == 1 {
      assert MembersOf(kids[1..]) == [];
    } else {
      MembersAt(kids[1..], if i > 0 then i - 1 else 0);
    }
  }

  lemma MembersCons(k: Node, more: seq<Node>)
    requires IsMember(k) && Sorted(k) && forall x <- more :: IsMember(x) && Sorted(x)
    ensures forall x <- [k] + more :: IsMember(x) && Sorted(x)
    ensures MembersOf([k] + more) == [MemberOf(k)] + MembersOf(more)
  {
    assert ([k] + more)[1..] == more;
  }

  lemma {:induction false} ElementsAt(kids: seq<Node>, i: nat)
    requires (forall k <- kids :: !IsMember(k) && Sorted(k)) && i < |kids|
    ensures |ElementsOf(kids)| == |kids| && ElementsOf(kids)[i] == ElementOf(kids[i])
    decreases |kids|
  {
    if |kids| == 1 {
      assert ElementsOf(kids[1..]) == [];
    } else {
      ElementsAt(kids[1..], if i > 0 then i - 1 else 0);
    }
  }

  /** Scalars and groups stand for a member of their own name; a full record for its level, its time stamp and its
      children's members; and every record, minimal or not, and list answers with the level it was made with. */
  lemma NodeMeanings(name: string, text: string, n: int, level: int, sec: nat, usec: nat, k: Node)
    requires Plain(name) && Plain(text) && IsMember(k) && Sorted(k)
    ensures MemberOf(StringNode(name, text)) == Member(name, JString(text))
    ensures MemberOf(IntNode(name, n)) == Member(name, JNumber(n))
    ensures MemberOf(GroupNode(name, [k])) == Member(name, JObject([MemberOf(k)]))
    ensures ElementOf(RecNode(name, level, sec, usec, [k])) ==
            JObject([Member("loglevel", JNumber(level)), Member("time", JString(TimeText(sec, usec))), MemberOf(k)])
    ensures ElementOf(MinNode(name, level, true, [k])) == JObject([Member(name, JObject([MemberOf(k)]))])
    ensures ElementOf(MinNode(name, level, false, [k])) == JObject([MemberOf(k)])
    ensures ElementOf(ListNode(name, level, [])) == JObject([Member(name, JArray([]))])
    ensures LogLevel(RecNode(name, level, sec, usec, [k])) == LogLevel(MinNode(name, level, true, [k])) == level
    ensures LogLevel(ListNode(name, level, [])) == level && LogLevel(k) == 0
  {
    MembersAt([k], 0);
    assert MembersOf([k]) == [MemberOf(k)];
    assert [Member("loglevel", JNumber(level)), Member("time", JString(TimeText(sec, usec)))] + [MemberOf(k)] ==
           [Member("loglevel", JNumber(level)), Member("time", JString(TimeText(sec, usec))), MemberOf(k)];
    assert ElementsOf([]) == [];
  }

  /** A 32-bit word read as a signed number: the same modulo 2^32, in the signed range. */
  lemma AsInt32Is(u: nat)
    ensures -0x8000_0000 <= AsInt32(u) < 0x8000_0000 && (AsInt32(u) - u) % 0x1_0000_0000 == 0
    ensures u < 0x8000_0000 ==> AsInt32(u) == u
  {
  }

  predicate Spaces(s: string) { forall i :: 0 <= i < |s| ==> s[i] == ' ' }

  /** The time stamp: the seconds right-justified in six columns, a dot, and the microseconds left-justified in six. */
  lemma TimeTextIs(sec: nat, usec: nat) returns (before: string, after: string)
    requires sec < 0x8000_0000 && usec < 0x8000_0000
    ensures TimeText(sec, usec) == before + (NatText(sec) + "." + NatText(usec)) + after
    ensures Spaces(before) && Spaces(after)
    ensures |before| == (if |NatText(sec)| < 6 then 6 - |NatText(sec)| else 0)
    ensures |after| == (if |NatText(usec)| < 6 then 6 - |NatText(usec)| else 0)
  {
    AsInt32Is(sec);
    AsInt32Is(usec);
    before, after := PaddedText(NatText(sec), NatText(usec));
  }

  lemma PaddedText(l: string, r: string) returns (before: string, after: string)
    ensures PadLeft(l) + "." + PadRight(r) == before + (l + "." + r) + after
    ensures Spaces(before) && |before| == (if |l| < 6 then 6 - |l| else 0)
    ensures Spaces(after) && |after| == (if |r| < 6 then 6 - |r| else 0)
  {
    before := if |l| < 6 then Blanks(6 - |l|) else "";
    after := if |r| < 6 then Blanks(6 - |r|) else "";
    assert PadLeft(l) == before + l && PadRight(r) == r + after;
  }
}
