/** Configuration lists: splitting a property value and converting its pieces to unsigned integers. */
module ConfigList {
  import opened Decimal

  // ---------------------------------------------------------------- std::string::find

  predicate OccursAt(s: string, d: string, i: int) {
    0 <= i <= |s| - |d| && s[i..i + |d|] == d
  }

  ghost predicate Contains(s: string, d: string) { exists i :: OccursAt(s, d, i) }

  /** Position of the leftmost occurrence of `d` at or after `from`; `|s|` when there is none
      (the splitter replaces npos by the length before using it). */
  function FindFrom(s: string, d: string, from: nat): (i: nat)
    requires from <= |s|
    ensures from <= i <= |s|
    ensures forall k :: from <= k < i ==> !OccursAt(s, d, k)
    ensures OccursAt(s, d, i) || (i == |s| && forall k :: from <= k ==> !OccursAt(s, d, k))
    decreases |s| - from
  {
    if OccursAt(s, d, from) || from == |s| then from else FindFrom(s, d, from + 1)
  }

  // ---------------------------------------------------------------- the reference splitter

  /** From position `from` on: cut at the leftmost occurrence of the delimiter, then cut the rest the same way. */
  function PiecesFrom(s: string, d: string, from: nat): seq<string>
    requires d != "" && from <= |s|
    decreases |s| - from
  {
    var i := FindFrom(s, d, from);
    if OccursAt(s, d, i) then [s[from..i]] + PiecesFrom(s, d, i + |d|) else [s[from..]]
  }

  function Pieces(s: string, d: string): seq<string>
    requires d != ""
  {
    PiecesFrom(s, d, 0)
  }

  function Join(pieces: seq<string>, d: string): string {
    if pieces == [] then "" else if |pieces| == 1 then pieces[0]
    else pieces[0] + d + Join(pieces[1..], d)
  }

  function NonEmpty(pieces: seq<string>): seq<string> {
    if pieces == [] then []
    else (if pieces[0] == "" then [] else [pieces[0]]) + NonEmpty(pieces[1..])
  }

  lemma SliceOfSlice(s: string, from: nat, to: nat, lo: nat, hi: nat)
    requires from <= to <= |s| && lo <= hi <= to - from
    ensures s[from..to][lo..hi] == s[from + lo..from + hi]
  {
    var t := s[from..to];
    assert forall i :: lo <= i < hi ==> t[i] == s[from + i];
    assert |t[lo..hi]| == |s[from + lo..from + hi]|;
    assert forall i :: 0 <= i < hi - lo ==> t[lo..hi][i] == s[from + lo..from + hi][i];
  }

  lemma SliceAvoids(s: string, d: string, from: nat, to: nat)
    requires from <= to <= |s| && d != ""
    requires forall k :: from <= k < to ==> !OccursAt(s, d, k)
    ensures !Contains(s[from..to], d)
  {
    var t := s[from..to];
    forall k ensures !OccursAt(t, d, k) {
      if OccursAt(t, d, k) {
        SliceOfSlice(s, from, to, k, k + |d|);
        assert OccursAt(s, d, from + k);
      }
    }
  }

  lemma CutAt(s: string, d: string, from: nat, i: nat)
    requires from <= i && OccursAt(s, d, i)
    ensures s[from..] == s[from..i] + d + s[i + |d|..]
  {
  }

  lemma JoinCons(p: string, more: seq<string>, d: string)
    requires more != []
    ensures Join([p] + more, d) == p + d + Join(more, d)
  {
    assert ([p] + more)[1..] == more;
  }

  lemma RejoinStep(s: string, d: string, from: nat, i: nat, more: seq<string>)
    requires from <= i && OccursAt(s, d, i) && more != [] && Join(more, d) == s[i + |d|..]
    ensures Join([s[from..i]] + more, d) == s[from..]
  {
    JoinCons(s[from..i], more, d);
    CutAt(s, d, from, i);
  }

  lemma {:induction false} PiecesFromRejoin(s: string, d: string, from: nat)
    requires d != "" && from <= |s|
    ensures PiecesFrom(s, d, from) != [] && Join(PiecesFrom(s, d, from), d) == s[from..]
    decreases |s| - from
  {
    var i := FindFrom(s, d, from);
    if OccursAt(s, d, i) {
      var more := PiecesFrom(s, d, i + |d|);
      PiecesFromRejoin(s, d, i + |d|);
      RejoinStep(s, d, from, i, more);
    }
  }

  lemma {:induction false} PiecesFromAvoid(s: string, d: string, from: nat, k: nat)
    requires d != "" && from <= |s| && k < |PiecesFrom(s, d, from)|
    ensures !Contains(PiecesFrom(s, d, from)[k], d)
    decreases |s| - from
  {
    var i := FindFrom(s, d, from);
    SliceAvoids(s, d, from, i);
    if OccursAt(s, d, i) {
      if k > 0 { PiecesFromAvoid(s, d, i + |d|, k - 1); }
    } else {
      assert s[from..i] == s[from..];
    }
  }

  /** The reference splitter loses nothing, and no piece contains the delimiter. */
  lemma PiecesRejoin(s: string, d: string)
    requires d != ""
    ensures Pieces(s, d) != [] && Join(Pieces(s, d), d) == s
    ensures forall k :: 0 <= k < |Pieces(s, d)| ==> !Contains(Pieces(s, d)[k], d)
  {
    PiecesFromRejoin(s, d, 0);
    assert s[0..] == s;
    forall k | 0 <= k < |Pieces(s, d)| ensures !Contains(Pieces(s, d)[k], d) { PiecesFromAvoid(s, d, 0, k); }
  }

  lemma PiecesCut(s: string, d: string, from: nat, i: nat)
    requires d != "" && from <= i && OccursAt(s, d, i) && forall k :: from <= k < i ==> !OccursAt(s, d, k)
    ensures PiecesFrom(s, d, from) == [s[from..i]] + PiecesFrom(s, d, i + |d|)
  {
    assert FindFrom(s, d, from) == i;
  }

  lemma PiecesEnd(s: string, d: string, from: nat)
    requires d != "" && from <= |s| && forall k :: from <= k ==> !OccursAt(s, d, k)
    ensures PiecesFrom(s, d, from) == [s[from..]]
  {
  }

  /** The characters of a piece that avoids `c`, seen in the whole text. */
  lemma PieceAvoids(s: string, from: nat, p: string, c: char)
    requires c !in p && from + |p| <= |s| && s[from..from + |p|] == p
    ensures forall k :: from <= k < from + |p| ==> !OccursAt(s, [c], k)
  {
    forall k | from <= k < from + |p| ensures !OccursAt(s, [c], k) {
      assert s[k] == s[from..from + |p|][k - from];
      assert s[k..k + |[c]|][0] == s[k] != c;
    }
  }

  lemma LastPiece(s: string, from: nat, p: string, c: char)
    requires c !in p && from <= |s| && s[from..] == p
    ensures PiecesFrom(s, [c], from) == [p]
  {
    assert s[from..from + |p|] == p;
    PieceAvoids(s, from, p, c);
    PiecesEnd(s, [c], from);
  }

  /** Where the pieces of `p` + `c` + `more` stand in a text that ends with them. */
  lemma PieceStands(s: string, from: nat, p: string, c: char, more: string)
    requires from <= |s| && s[from..] == p + [c] + more
    ensures var next := from + |p| + 1;
            next <= |s| && s[from..from + |p|] == p && OccursAt(s, [c], from + |p|) && s[next..] == more
  {
    var tail := s[from..];
    assert tail[..|p|] == p && tail[|p|] == c && tail[|p| + 1..] == more;
    assert s[from + |p|] == c;
  }

  lemma FirstPieceStands(s: string, from: nat, p: string, c: char, rest: seq<string>)
    requires from <= |s| && rest != [] && s[from..] == Join([p] + rest, [c])
    ensures var next := from + |p| + 1;
            next <= |s| && s[from..from + |p|] == p && OccursAt(s, [c], from + |p|) && s[next..] == Join(rest, [c])
  {
    JoinCons(p, rest, [c]);
    PieceStands(s, from, p, c, Join(rest, [c]));
  }

  /** Splitting after the first piece goes on where the joined rest begins. */
  lemma FirstPiece(s: string, from: nat, p: string, c: char, rest: seq<string>)
    requires c !in p && from <= |s| && rest != [] && s[from..] == Join([p] + rest, [c])
    ensures var next := from + |p| + 1;
            next <= |s| && s[next..] == Join(rest, [c]) && PiecesFrom(s, [c], from) == [p] + PiecesFrom(s, [c], next)
  {
    FirstPieceStands(s, from, p, c, rest);
    PieceAvoids(s, from, p, c);
    CharCut(s, c, from, p);
  }

  lemma CharCut(s: string, c: char, from: nat, p: string)
    requires OccursAt(s, [c], from + |p|) && s[from..from + |p|] == p
    requires forall k :: from <= k < from + |p| ==> !OccursAt(s, [c], k)
    ensures PiecesFrom(s, [c], from) == [p] + PiecesFrom(s, [c], from + |p| + 1)
  {
    var i := from + |p|;
    PiecesCut(s, [c], from, i);
    assert i + |[c]| == i + 1;
  }

  predicate NoneHolds(pieces: seq<string>, c: char) { forall k :: 0 <= k < |pieces| ==> c !in pieces[k] }

  /** Pieces that avoid a one-character delimiter survive being joined and split again, wherever the joined text
      begins. */
  lemma {:induction false} SplitUndoesJoin(s: string, from: nat, pieces: seq<string>, c: char)
    requires pieces != [] && NoneHolds(pieces, c)
    requires from <= |s| && s[from..] == Join(pieces, [c])
    ensures PiecesFrom(s, [c], from) == pieces
    decreases |pieces|
  {
    var p, rest := pieces[0], pieces[1..];
    assert pieces == [p] + rest;
    if rest == [] {
      LastPiece(s, from, p, c);
    } else {
      FirstPiece(s, from, p, c, rest);
      var next := from + |p| + 1;
      SplitUndoesJoin(s, next, rest, c);
      assert PiecesFrom(s, [c], from) == [p] + rest;
    }
  }

  // ---------------------------------------------------------------- the splitter's own loop

  /** Next value of the loop's `prev_pos`, and the loop's continuation test. */
  function NextStart(s: string, d: string, start: nat): nat
    requires start <= |s|
  {
    FindFrom(s, d, start) + |d|
  }

  predicate LoopsAgain(s: string, d: string, start: nat)
    requires start <= |s|
  {
    FindFrom(s, d, start) < |s| && NextStart(s, d, start) < |s|
  }

  /** Start position of round `k` of the loop, as long as the loop has not ended before. */
  ghost function StartOfRound(s: string, d: string, k: nat): (r: nat)
    ensures r <= |s|
  {
    if k == 0 then 0
    else
      var p := StartOfRound(s, d, k - 1);
      if LoopsAgain(s, d, p) then NextStart(s, d, p) else p
  }

  ghost predicate StopsIn(s: string, d: string, k: nat) { !LoopsAgain(s, d, StartOfRound(s, d, k)) }

  lemma {:induction false} EmptyDelimiterStandsStill(s: string, k: nat)
    requires s != ""
    ensures StartOfRound(s, "", k) == 0 && LoopsAgain(s, "", 0)
  {
    assert OccursAt(s, "", 0);
    if k > 0 { EmptyDelimiterStandsStill(s, k - 1); }
  }

  lemma {:induction false} RoundsAdvance(s: string, d: string, k: nat)
    requires d != ""
    ensures (exists j :: 0 <= j <= k && StopsIn(s, d, j)) || StartOfRound(s, d, k) >= k
  {
    if k > 0 {
      RoundsAdvance(s, d, k - 1);
      if !(exists j :: 0 <= j <= k - 1 && StopsIn(s, d, j)) {
        assert !StopsIn(s, d, k - 1);
      }
    }
  }

  /** The loop terminates exactly when the delimiter is non-empty or there is nothing to split. */
  lemma SplitLoopTerminatesIff(s: string, d: string)
    ensures (exists k: nat :: StopsIn(s, d, k)) <==> (d != "" || s == "")
  {
    if d != "" {
      RoundsAdvance(s, d, |s| + 1);
    } else if s == "" {
      assert StopsIn(s, d, 0);
    } else {
      forall k: nat ensures !StopsIn(s, d, k) { EmptyDelimiterStandsStill(s, k); }
    }
  }

  lemma NonEmptyAppend(xs: seq<string>, ys: seq<string>)
    ensures NonEmpty(xs + ys) == NonEmpty(xs) + NonEmpty(ys)
  {
    if xs == [] {
      assert xs + ys == ys;
    } else {
      assert (xs + ys)[1..] == xs[1..] + ys;
      NonEmptyAppend(xs[1..], ys);
    }
  }

  lemma NonEmptyOne(token: string)
    ensures NonEmpty([token]) == if token == "" then [] else [token]
  {
    assert NonEmpty([token]) == (if token == "" then [] else [token]) + NonEmpty([]);
  }

  /** What is still to be emitted when the loop stands at `prev`. */
  ghost function Pending(s: string, d: string, prev: nat): seq<string>
    requires d != "" && prev <= |s|
  {
    NonEmpty(PiecesFrom(s, d, prev))
  }

  lemma NothingPendingAtEnd(s: string, d: string)
    requires d != ""
    ensures Pending(s, d, |s|) == []
  {
    assert !OccursAt(s, d, |s|);
    assert NonEmpty([""]) == [""][1..];
  }

  lemma PendingCut(s: string, d: string, prev: nat, cur: nat)
    requires d != "" && prev <= |s| && cur == FindFrom(s, d, prev) && OccursAt(s, d, cur)
    ensures Pending(s, d, prev) == NonEmpty([s[prev..cur]]) + Pending(s, d, cur + |d|)
  {
    NonEmptyAppend([s[prev..cur]], PiecesFrom(s, d, cur + |d|));
  }

  /** One round of the loop emits one piece of the reference split. */
  lemma SplitRound(s: string, d: string, prev: nat)
    requires d != "" && prev <= |s|
    ensures var cur := FindFrom(s, d, prev);
            var token := s[prev..cur];
            Pending(s, d, prev) ==
            (if token == "" then [] else [token]) + if cur + |d| < |s| then Pending(s, d, cur + |d|) else []
  {
    var cur := FindFrom(s, d, prev);
    NonEmptyOne(s[prev..cur]);
    if OccursAt(s, d, cur) {
      PendingCut(s, d, prev, cur);
      if cur + |d| == |s| { NothingPendingAtEnd(s, d); }
    } else {
      assert s[prev..] == s[prev..cur];
    }
  }

  /** One round of the loop on its state: the token is emitted unless empty, and the start moves past the delimiter. */
  lemma SplitRoundState(s: string, d: string, prev: nat, tokens: seq<string>)
    requires d != "" && prev <= |s|
    ensures var cur := FindFrom(s, d, prev);
            var tokens' := if s[prev..cur] == "" then tokens else tokens + [s[prev..cur]];
            tokens + Pending(s, d, prev) == if cur + |d| < |s| then tokens' + Pending(s, d, cur + |d|) else tokens'
  {
    SplitRound(s, d, prev);
  }

  /** The splitter's tokens, for the arguments it returns on. */
  ghost function Tokens(s: string, d: string): seq<string>
    requires d != "" || s == ""
  {
    if d == "" then [] else NonEmpty(Pieces(s, d))
  }

  /** str_split: the non-empty pieces of the reference splitter, in order. */
  method StrSplit(s: string, d: string) returns (tokens: seq<string>)
    requires d != "" || s == ""
    ensures tokens == Tokens(s, d)
  {
    tokens := [];
    var prev: nat := 0;
    while true
      invariant prev <= |s|
      invariant d == "" ==> tokens == []
      invariant d != "" ==> NonEmpty(Pieces(s, d)) == tokens + Pending(s, d, prev)
      decreases |s| - prev
    {
      var cur := FindFrom(s, d, prev);
      var token := s[prev..cur];
      if d != "" { SplitRoundState(s, d, prev, tokens); }
      if token != "" { tokens := tokens + [token]; }
      prev := cur + |d|;
      if !(cur < |s| && prev < |s|) { return; }
    }
  }

  // ---------------------------------------------------------------- conversion to unsigned

  predicate IsPositiveInteger(s: string) { s != "" && AllDigits(s) }

  const ULONG_LIMIT: nat := 0x1_0000_0000_0000_0000

  /** std::stoul accepts the text: digits only (checked first) and representable in 64 bits. */
  predicate Convertible(s: string) { IsPositiveInteger(s) && DigitsValue(s) < ULONG_LIMIT }

  /** What converts, in other words: one or more characters '0' to '9' and nothing else, no sign and no blank, naming a
      number below 2^64, however many zeros stand in front. */
  lemma ConvertibleTexts(s: string, n: nat)
    ensures Convertible(s) ==> s != "" && forall i :: 0 <= i < |s| ==> 48 <= s[i] as int <= 57
    ensures Convertible(s) ==> Convertible("0" + s) && DigitsValue("0" + s) == DigitsValue(s) < 18446744073709551616
    ensures Convertible(NatText(n)) <==> n < 18446744073709551616
    ensures !Convertible("") && !Convertible("+" + s) && !Convertible("-" + s) && !Convertible(" " + s)
  {
    NatTextReadsBack(n);
    if Convertible(s) { LeadingZero(s); }
    assert ("+" + s)[0] == '+' && ("-" + s)[0] == '-' && (" " + s)[0] == ' ';
  }

  /** The element types the converter is instantiated with. */
  datatype Width = U16 | U32

  function Limit(w: Width): nat { if w.U16? then 0x1_0000 else 0x1_0000_0000 }

  /** Narrowing an unsigned long to the element type keeps the low bits. */
  function Narrow(v: nat, w: Width): nat { if w.U16? then v % 0x1_0000 else v % 0x1_0000_0000 }

  /** What the converter pushes: one truncated value for every convertible text, in order. */
  function Converted(texts: seq<string>, w: Width): seq<nat>
  {
    if texts == [] then []
    else
      var last := texts[|texts| - 1];
      Converted(texts[..|texts| - 1], w) + if Convertible(last) then [Narrow(DigitsValue(last), w)] else []
  }

  ghost predicate AllConvertible(texts: seq<string>) { forall i :: 0 <= i < |texts| ==> Convertible(texts[i]) }

  lemma LastConvertible(texts: seq<string>)
    requires texts != []
    ensures AllConvertible(texts) <==> AllConvertible(texts[..|texts| - 1]) && Convertible(texts[|texts| - 1])
  {
    var front := texts[..|texts| - 1];
    assert forall i :: 0 <= i < |front| ==> front[i] == texts[i];
  }

  lemma {:induction false} ConvertedCount(texts: seq<string>, w: Width)
    ensures |Converted(texts, w)| <= |texts|
    ensures |Converted(texts, w)| == |texts| <==> AllConvertible(texts)
  {
    if texts != [] {
      ConvertedCount(texts[..|texts| - 1], w);
      LastConvertible(texts);
    }
  }

  lemma {:induction false} ConvertedAt(texts: seq<string>, w: Width, i: nat)
    requires AllConvertible(texts) && i < |texts|
    ensures |Converted(texts, w)| == |texts| && Converted(texts, w)[i] == Narrow(DigitsValue(texts[i]), w)
  {
    var front := texts[..|texts| - 1];
    LastConvertible(texts);
    ConvertedCount(front, w);
    if i < |front| { ConvertedAt(front, w, i); }
  }

  /** Nothing is lost exactly when every text converts, and then every value is that of its text. */
  lemma ConvertedLength(texts: seq<string>, w: Width)
    ensures |Converted(texts, w)| <= |texts|
    ensures |Converted(texts, w)| == |texts| <==> AllConvertible(texts)
    ensures AllConvertible(texts) ==>
              forall i :: 0 <= i < |texts| ==> Converted(texts, w)[i] == Narrow(DigitsValue(texts[i]), w)
  {
    ConvertedCount(texts, w);
    if AllConvertible(texts) {
      forall i | 0 <= i < |texts| ensures Converted(texts, w)[i] == Narrow(DigitsValue(texts[i]), w) {
        ConvertedAt(texts, w, i);
      }
    }
  }

  /** rvs_util_strarr_to_uintarr for an unsigned type of width `w`. */
  method StrArrToUintArr(texts: seq<string>, w: Width) returns (status: int, values: seq<nat>)
    ensures values == Converted(texts, w)
    ensures status == if AllConvertible(texts) then |texts| else -1
  {
    values := [];
    for k := 0 to |texts|
      invariant values == Converted(texts[..k], w)
    {
      assert texts[..k + 1][..k] == texts[..k];
      if IsPositiveInteger(texts[k]) && DigitsValue(texts[k]) < ULONG_LIMIT {
        values := values + [Narrow(DigitsValue(texts[k]), w)];
      }
    }
    assert texts[..|texts|] == texts;
    ConvertedLength(texts, w);
    status := if |texts| != |values| then -1 else |values|;
  }

  // ---------------------------------------------------------------- property_get_uint_list

  /** What a list property may yield. */
  datatype ListResult = All | Malformed | Values(values: seq<nat>)

  /** The meaning of a property value. */
  ghost function ListOf(text: string, d: string, w: Width): ListResult
    requires d != "" || text == "" || text == "all"
  {
    if text == "all" then All
    else
      var tokens := Tokens(text, d);
      if AllConvertible(tokens) then Values(Converted(tokens, w)) else Malformed
  }

  class ActionBase {
    var property: map<string, string>

    constructor ()
      ensures property == map[]
    {
      property := map[];
    }

    /** `values0` and `all0` are what the caller's out-arguments held; a missing key leaves both alone. The one case
        left out is the one in which the splitter never returns. */
    method PropertyGetUintList(key: string, d: string, w: Width, values0: seq<nat>, all0: bool)
      returns (status: int, values: seq<nat>, all: bool)
      requires key in property && d == "" ==> property[key] == "" || property[key] == "all"
      ensures key !in property ==> status == 2 && values == values0 && all == all0
      ensures key in property ==>
                match ListOf(property[key], d, w)
                case All => status == 0 && values == [] && all
                case Malformed => status == 1 && values == [] && !all
                case Values(vs) => status == 0 && values == vs && !all
    {
      if key !in property { return 2, values0, all0; }
      var text := property[key];
      if text == "all" { return 0, [], true; }
      all := false;
      var tokens := StrSplit(text, d);
      var sts;
      sts, values := StrArrToUintArr(tokens, w);
      if sts < 0 { return 1, [], all; }
      status := 0;
    }
  }

  // ---------------------------------------------------------------- round trip

  function Texts(vs: seq<nat>): (r: seq<string>)
    ensures |r| == |vs|
  {
    seq(|vs|, i requires 0 <= i < |vs| => NatText(vs[i]))
  }

  lemma NonEmptyKeepsAll(pieces: seq<string>)
    requires forall k :: 0 <= k < |pieces| ==> pieces[k] != ""
    ensures NonEmpty(pieces) == pieces
  {
    if pieces != [] { NonEmptyKeepsAll(pieces[1..]); }
  }

  /** The texts of a printed list are exactly the tokens the splitter finds, and none reads "all". */
  lemma TextsAreTokens(vs: seq<nat>)
    ensures var text := Join(Texts(vs), " ");
            text != "all" && NonEmpty(Pieces(text, " ")) == Texts(vs)
    ensures forall i :: 0 <= i < |vs| ==> IsPositiveInteger(Texts(vs)[i]) && DigitsValue(Texts(vs)[i]) == vs[i]
  {
    var texts := Texts(vs);
    forall i | 0 <= i < |vs|
      ensures IsPositiveInteger(texts[i]) && DigitsValue(texts[i]) == vs[i] && ' ' !in texts[i]
    {
      NatTextReadsBack(vs[i]);
      assert texts[i] == NatText(vs[i]);
    }
    if vs != [] {
      assert Join(texts, " ")[0..] == Join(texts, " ");
      SplitUndoesJoin(Join(texts, " "), 0, texts, ' ');
      NonEmptyKeepsAll(texts);
      assert Join(texts, " ")[0] == texts[0][0];
      assert !IsDigit("all"[0]);
    }
  }

  /** Parsing a printed list: values of 64 bits or more make the list malformed; otherwise every value
      comes back reduced to the element type. */
  lemma PrintedListParses(vs: seq<nat>, w: Width)
    ensures ListOf(Join(Texts(vs), " "), " ", w) ==
            if forall i :: 0 <= i < |vs| ==> vs[i] < 18446744073709551616
            then Values(seq(|vs|, i requires 0 <= i < |vs| => if w.U16? then vs[i] % 65536 else vs[i] % 4294967296))
            else Malformed
  {
    var texts := Texts(vs);
    TextsAreTokens(vs);
    ConvertedLength(texts, w);
    assert forall i :: 0 <= i < |vs| ==> (Convertible(texts[i]) <==> vs[i] < ULONG_LIMIT);
    if AllConvertible(texts) {
      assert forall i :: 0 <= i < |vs| ==> vs[i] < ULONG_LIMIT;
      assert Converted(texts, w) == seq(|vs|, i requires 0 <= i < |vs| => Narrow(vs[i], w));
    }
  }

  lemma NarrowIff(v: nat, w: Width)
    ensures Narrow(v, w) < Limit(w) && (Narrow(v, w) == v <==> v < Limit(w))
  {
  }

  /** Printing then parsing is the identity exactly on lists that fit the element type. */
  lemma PrintedListRoundTripIff(vs: seq<nat>, w: Width)
    ensures ListOf(Join(Texts(vs), " "), " ", w) == Values(vs) <==>
            forall i :: 0 <= i < |vs| ==> vs[i] < if w.U16? then 65536 else 4294967296
  {
    PrintedListParses(vs, w);
    var reduced := seq(|vs|, i requires 0 <= i < |vs| => Narrow(vs[i], w));
    forall i | 0 <= i < |vs| ensures reduced[i] == vs[i] <==> vs[i] < Limit(w) { NarrowIff(vs[i], w); }
    if forall i :: 0 <= i < |vs| ==> vs[i] < Limit(w) {
      assert reduced == vs;
    } else {
      var i :| 0 <= i < |vs| && vs[i] >= Limit(w);
      assert reduced[i] != vs[i];
    }
  }
}
