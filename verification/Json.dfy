/** JSON values and a parser for the part of RFC 8259 the logger emits: objects and arrays (sections 4 and 5),
    whitespace (section 2), strings without escapes (section 7) and integers (section 6). */
module Json {
  import opened Decimal

  datatype Value =
    | JString(text: string)
    | JNumber(n: int)
    | JObject(members: seq<Member>)
    | JArray(elements: seq<Value>)

  datatype Member = Member(name: string, value: Value)

  /** A parser either fails or returns what it read and the text it did not touch. */
  datatype Parsed<T> = Fail | Ok(value: T, rest: string)

  predicate IsBlank(c: char) { c == ' ' || c == '\t' || c == '\n' || c == '\r' }

  predicate Blank(s: string) { forall i :: 0 <= i < |s| ==> IsBlank(s[i]) }

  /** A character that may stand unescaped inside a string, other than an escape. */
  predicate IsPlain(c: char) { c != '"' && c != '\\' && c >= ' ' }

  predicate Plain(s: string) { forall i :: 0 <= i < |s| ==> IsPlain(s[i]) }

  /** The two character classes as RFC 8259 lists them, in sections 2 and 7. */
  lemma CharacterClasses(c: char)
    ensures IsBlank(c) <==> c as int == 0x20 || c as int == 0x09 || c as int == 0x0A || c as int == 0x0D
    ensures IsPlain(c) <==> 0x20 <= c as int <= 0x21 || 0x23 <= c as int <= 0x5B || 0x5D <= c as int
  {
  }

  function SkipBlanks(s: string): (r: string)
    ensures |r| <= |s|
  {
    if s != "" && IsBlank(s[0]) then SkipBlanks(s[1..]) else s
  }

  predicate StartsWith(s: string, c: char) { s != "" && s[0] == c }

  /** The rest of a string literal, after its opening quote. */
  function ParseStringTail(s: string): (r: Parsed<string>)
    ensures r.Ok? ==> |r.rest| < |s|
  {
    if s == "" then Fail
    else if s[0] == '"' then Ok("", s[1..])
    else if !IsPlain(s[0]) then Fail
    else match ParseStringTail(s[1..])
      case Fail => Fail
      case Ok(t, rest) => Ok([s[0]] + t, rest)
  }

  function ParseString(s: string): (r: Parsed<string>)
    ensures r.Ok? ==> |r.rest| < |s|
  {
    if StartsWith(s, '"') then ParseStringTail(s[1..]) else Fail
  }

  function DigitPrefix(s: string): (d: string)
    ensures |d| <= |s| && AllDigits(d) && d == s[..|d|]
  {
    if s != "" && IsDigit(s[0]) then [s[0]] + DigitPrefix(s[1..]) else ""
  }

  /** Digits without a superfluous leading zero. */
  function ParseDigits(s: string): (r: Parsed<int>)
    ensures r.Ok? ==> |r.rest| < |s|
  {
    var d := DigitPrefix(s);
    if d == "" || (d[0] == '0' && |d| > 1) then Fail else Ok(DigitsValue(d), s[|d|..])
  }

  /** An integer: an optional minus, then digits. */
  function ParseNumber(s: string): (r: Parsed<int>)
    ensures r.Ok? ==> |r.rest| < |s|
  {
    if StartsWith(s, '-') then
      match ParseDigits(s[1..])
      case Fail => Fail
      case Ok(v, rest) => Ok(-v, rest)
    else
      ParseDigits(s)
  }

  function ParseValue(s: string): (r: Parsed<Value>)
    ensures r.Ok? ==> |r.rest| < |s|
    decreases |s|, 1
  {
    ParseTrimmed(SkipBlanks(s))
  }

  function ParseTrimmed(t: string): (r: Parsed<Value>)
    ensures r.Ok? ==> |r.rest| < |t|
    decreases |t|, 0
  {
    if StartsWith(t, '{') then
      if StartsWith(SkipBlanks(t[1..]), '}') then Ok(JObject([]), SkipBlanks(t[1..])[1..])
      else match ParseMembers(t[1..])
        case Fail => Fail
        case Ok(ms, rest) => Ok(JObject(ms), rest)
    else if StartsWith(t, '[') then
      if StartsWith(SkipBlanks(t[1..]), ']') then Ok(JArray([]), SkipBlanks(t[1..])[1..])
      else match ParseElements(t[1..])
        case Fail => Fail
        case Ok(vs, rest) => Ok(JArray(vs), rest)
    else if StartsWith(t, '"') then
      match ParseString(t)
      case Fail => Fail
      case Ok(text, rest) => Ok(JString(text), rest)
    else
      match ParseNumber(t)
      case Fail => Fail
      case Ok(n, rest) => Ok(JNumber(n), rest)
  }

  function ParseMember(s: string): (r: Parsed<Member>)
    ensures r.Ok? ==> |r.rest| < |s|
    decreases |s|, 2
  {
    match ParseString(SkipBlanks(s))
    case Fail => Fail
    case Ok(name, afterName) =>
      var colon := SkipBlanks(afterName);
      if !StartsWith(colon, ':') then Fail
      else match ParseValue(colon[1..])
        case Fail => Fail
        case Ok(v, rest) => Ok(Member(name, v), rest)
  }

  /** One or more members and the closing brace. */
  function ParseMembers(s: string): (r: Parsed<seq<Member>>)
    ensures r.Ok? ==> |r.rest| < |s|
    decreases |s|, 3
  {
    match ParseMember(s)
    case Fail => Fail
    case Ok(m, after) =>
      var t := SkipBlanks(after);
      if StartsWith(t, '}') then Ok([m], t[1..])
      else if !StartsWith(t, ',') then Fail
      else match ParseMembers(t[1..])
        case Fail => Fail
        case Ok(ms, rest) => Ok([m] + ms, rest)
  }

  /** One or more elements and the closing bracket. */
  function ParseElements(s: string): (r: Parsed<seq<Value>>)
    ensures r.Ok? ==> |r.rest| < |s|
    decreases |s|, 3
  {
    match ParseValue(s)
    case Fail => Fail
    case Ok(v, after) =>
      var t := SkipBlanks(after);
      if StartsWith(t, ']') then Ok([v], t[1..])
      else if !StartsWith(t, ',') then Fail
      else match ParseElements(t[1..])
        case Fail => Fail
        case Ok(vs, rest) => Ok([v] + vs, rest)
  }

  /** A JSON text: one value, with blanks around it and nothing else. */
  function ParseDocument(s: string): Parsed<Value> {
    match ParseValue(s)
    case Fail => Fail
    case Ok(v, rest) => if SkipBlanks(rest) == "" then Ok(v, "") else Fail
  }

  // ---------------------------------------------------------------- reading what was just printed

  lemma {:induction false} SkipBlanksOver(w: string, rest: string)
    requires Blank(w)
    ensures SkipBlanks(w + rest) == SkipBlanks(rest)
  {
    if w == "" {
      assert w + rest == rest;
    } else {
      assert (w + rest)[1..] == w[1..] + rest;
      SkipBlanksOver(w[1..], rest);
    }
  }

  lemma {:induction false} StringTailReads(text: string, rest: string)
    requires Plain(text)
    ensures ParseStringTail(text + "\"" + rest) == Ok(text, rest)
  {
    var s := text + "\"" + rest;
    if text == "" {
      assert s == "\"" + rest;
    } else {
      assert s[1..] == text[1..] + "\"" + rest;
      StringTailReads(text[1..], rest);
      assert [text[0]] + text[1..] == text;
    }
  }

  lemma QuotedReads(text: string, rest: string)
    requires Plain(text)
    ensures ParseString("\"" + text + "\"" + rest) == Ok(text, rest)
  {
    StringTailReads(text, rest);
    assert ("\"" + text + "\"" + rest)[1..] == text + "\"" + rest;
  }

  lemma {:induction false} DigitPrefixReads(d: string, rest: string)
    requires AllDigits(d) && (rest == "" || !IsDigit(rest[0]))
    ensures DigitPrefix(d + rest) == d
  {
    if d == "" {
      assert d + rest == rest;
    } else {
      assert (d + rest)[1..] == d[1..] + rest;
      DigitPrefixReads(d[1..], rest);
    }
  }

  lemma NatReads(n: nat, rest: string)
    requires rest == "" || !IsDigit(rest[0])
    ensures ParseDigits(NatText(n) + rest) == Ok(n, rest)
    ensures NatText(n) != "" && IsDigit(NatText(n)[0])
  {
    NatTextReadsBack(n);
    DigitPrefixReads(NatText(n), rest);
  }

  lemma Regroup(a: string, b: string, c: string)
    ensures (a + b) + c == a + (b + c)
  {
  }

  lemma NegativeReads(digits: string, n: int, rest: string)
    requires ParseDigits(digits) == Ok(n, rest)
    ensures ParseNumber("-" + digits) == Ok(-n, rest)
  {
    assert ("-" + digits)[1..] == digits;
  }

  lemma NumberReads(n: int, rest: string)
    requires rest == "" || !IsDigit(rest[0])
    ensures ParseNumber(IntText(n) + rest) == Ok(n, rest)
    ensures IntText(n) != "" && (IntText(n)[0] == '-' || IsDigit(IntText(n)[0]))
  {
    if n < 0 {
      var digits := NatText(-n);
      NatReads(-n, rest);
      NegativeReads(digits + rest, -n, rest);
      Regroup("-", digits, rest);
    } else {
      NatReads(n, rest);
      assert !StartsWith(NatText(n) + rest, '-');
    }
  }
}
