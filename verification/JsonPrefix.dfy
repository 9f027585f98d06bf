/** The parser reads from left to right: what it has read does not depend on the text behind it, so no JSON object text
    is a proper prefix of another. */
module JsonPrefix {
  import opened Decimal
  import opened Json

  /** The same result with `q` behind the text. */
  function More<T>(p: Parsed<T>, q: string): Parsed<T> {
    match p
    case Fail => Fail
    case Ok(v, rest) => Ok(v, rest + q)
  }

  lemma TailOfSum(s: string, q: string)
    requires s != ""
    ensures (s + q)[0] == s[0] && (s + q)[1..] == s[1..] + q
  {
  }

  lemma {:induction false} SkipMore(s: string, q: string)
    requires SkipBlanks(s) != ""
    ensures SkipBlanks(s + q) == SkipBlanks(s) + q
  {
    TailOfSum(s, q);
    if IsBlank(s[0]) { SkipMore(s[1..], q); }
  }

  lemma {:induction false} StringTailMore(s: string, q: string)
    requires ParseStringTail(s).Ok?
    ensures ParseStringTail(s + q) == More(ParseStringTail(s), q)
  {
    TailOfSum(s, q);
    if s[0] != '"' { StringTailMore(s[1..], q); }
  }

  lemma StringMore(s: string, q: string)
    requires ParseString(s).Ok?
    ensures ParseString(s + q) == More(ParseString(s), q)
  {
    TailOfSum(s, q);
    StringTailMore(s[1..], q);
  }

  lemma {:induction false} DigitPrefixMore(s: string, q: string)
    requires |DigitPrefix(s)| < |s|
    ensures DigitPrefix(s + q) == DigitPrefix(s)
  {
    TailOfSum(s, q);
    if IsDigit(s[0]) { DigitPrefixMore(s[1..], q); }
  }

  lemma DigitsMore(s: string, q: string)
    requires ParseDigits(s).Ok? && ParseDigits(s).rest != ""
    ensures ParseDigits(s + q) == More(ParseDigits(s), q)
  {
    DigitPrefixMore(s, q);
    var k := |DigitPrefix(s)|;
    assert (s + q)[k..] == s[k..] + q;
  }

  lemma NumberMore(s: string, q: string)
    requires ParseNumber(s).Ok? && ParseNumber(s).rest != ""
    ensures ParseNumber(s + q) == More(ParseNumber(s), q)
  {
    TailOfSum(s, q);
    if s[0] == '-' { DigitsMore(s[1..], q); } else { DigitsMore(s, q); }
  }

  // ---------------------------------------------------------------- values

  /** A value whose end can be seen: anything but a number at the very end of the text. */
  predicate Closed(p: Parsed<Value>) { p.Ok? && (p.value.JNumber? ==> p.rest != "") }

  lemma {:induction false} ValueMore(s: string, q: string)
    requires Closed(ParseValue(s))
    ensures ParseValue(s + q) == More(ParseValue(s), q)
    decreases |s|, 2
  {
    SkipMore(s, q);
    TrimmedMore(SkipBlanks(s), q);
  }

  lemma {:induction false} TrimmedMore(t: string, q: string)
    requires Closed(ParseTrimmed(t))
    ensures ParseTrimmed(t + q) == More(ParseTrimmed(t), q)
    decreases |t|, 1
  {
    TailOfSum(t, q);
    if StartsWith(t, '{') {
      ObjectMore(t, q);
    } else if StartsWith(t, '[') {
      ArrayMore(t, q);
    } else if StartsWith(t, '"') {
      StringMore(t, q);
    } else {
      NumberMore(t, q);
    }
  }

  lemma {:induction false} ObjectMore(t: string, q: string)
    requires StartsWith(t, '{') && ParseTrimmed(t).Ok?
    ensures ParseTrimmed(t + q) == More(ParseTrimmed(t), q)
    decreases |t|, 0
  {
    TailOfSum(t, q);
    var body := t[1..];
    if SkipBlanks(body) == "" { assert ParseMembers(body) == Fail by { NothingToRead(body); } }
    SkipMore(body, q);
    TailOfSum(SkipBlanks(body), q);
    if !StartsWith(SkipBlanks(body), '}') { MembersMore(body, q); }
  }

  lemma {:induction false} ArrayMore(t: string, q: string)
    requires StartsWith(t, '[') && ParseTrimmed(t).Ok?
    ensures ParseTrimmed(t + q) == More(ParseTrimmed(t), q)
    decreases |t|, 0
  {
    TailOfSum(t, q);
    var body := t[1..];
    if SkipBlanks(body) == "" { assert ParseElements(body) == Fail by { NothingToRead(body); } }
    SkipMore(body, q);
    TailOfSum(SkipBlanks(body), q);
    if !StartsWith(SkipBlanks(body), ']') { ElementsMore(body, q); }
  }

  lemma NothingToRead(s: string)
    requires SkipBlanks(s) == ""
    ensures ParseMembers(s) == Fail && ParseElements(s) == Fail && ParseValue(s) == Fail
  {
    assert ParseNumber("") == Fail;
  }

  lemma {:induction false} MemberMore(s: string, q: string)
    requires ParseMember(s).Ok? && ParseMember(s).rest != ""
    ensures ParseMember(s + q) == More(ParseMember(s), q)
    decreases |s|, 3
  {
    var name := SkipBlanks(s);
    var afterName := ParseString(name).rest;
    var colon := SkipBlanks(afterName);
    SkipMore(s, q);
    StringMore(name, q);
    SkipMore(afterName, q);
    TailOfSum(colon, q);
    ValueMore(colon[1..], q);
  }

  lemma {:induction false} MembersMore(s: string, q: string)
    requires ParseMembers(s).Ok?
    ensures ParseMembers(s + q) == More(ParseMembers(s), q)
    decreases |s|, 4
  {
    var after := ParseMember(s).rest;
    var t := SkipBlanks(after);
    MemberMore(s, q);
    SkipMore(after, q);
    TailOfSum(t, q);
    if !StartsWith(t, '}') { MembersMore(t[1..], q); }
  }

  lemma {:induction false} ElementsMore(s: string, q: string)
    requires ParseElements(s).Ok?
    ensures ParseElements(s + q) == More(ParseElements(s), q)
    decreases |s|, 4
  {
    var after := ParseValue(s).rest;
    var t := SkipBlanks(after);
    ValueMore(s, q);
    SkipMore(after, q);
    TailOfSum(t, q);
    if !StartsWith(t, ']') { ElementsMore(t[1..], q); }
  }

  /** A text that is exactly one object has no proper prefix that is a JSON text. */
  lemma NoProperPrefixParses(p: string, q: string, v: Value)
    requires ParseValue(p + q) == Ok(v, "") && StartsWith(p + q, '{') && q != ""
    ensures ParseDocument(p) == Fail
  {
    if p == "" {
      NothingToRead(p);
    } else {
      TailOfSum(p, q);
      assert SkipBlanks(p) == p;
      if ParseValue(p).Ok? {
        assert ParseValue(p).value.JObject?;
        ValueMore(p, q);
      }
    }
  }
}
