// JSON frontmatter: the scanner counts braces and toggles at quotes without parsing. It
// is proved to stop exactly at the closing brace of every object text of RFC 8259.
module JsonFrontmatter {
  import opened Basics
  import opened Splitter
  import opened SplitterLaws

  // Texts of sections 2, 4, 5 and 7 of RFC 8259 with their insignificant whitespace. A scalar is any run
  // of the characters that numbers and literals are made of.
  datatype Value =
    | Scalar(text: string)
    | Str(chars: seq<Ch>)
    | EmptyArray(ws: string)
    | Array(elements: Elements)
    | EmptyObject(ws: string)
    | Object(members: Members)

  datatype Elements =
    | LastElement(before: string, v: Value, after: string)
    | Element(before: string, v: Value, after: string, rest: Elements)

  datatype Members =
    | LastMember(before: string, key: seq<Ch>, mid: string, mid': string, v: Value, after: string)
    | Member(before: string, key: seq<Ch>, mid: string, mid': string, v: Value, after: string, rest: Members)

  datatype Ch =
    | Plain(c: char)
    | Escape(c: char)
    | Unicode(hex: string)

  predicate IsWs(s: string) {
    forall i :: 0 <= i < |s| ==> s[i] in " \t\n\r"
  }

  predicate IsScalar(s: string) {
    forall i :: 0 <= i < |s| ==> 'a' <= s[i] <= 'z' || 'A' <= s[i] <= 'Z' || '0' <= s[i] <= '9' || s[i] in "+-."
  }

  predicate IsHex(s: string) {
    |s| == 4 && forall i :: 0 <= i < 4 ==> '0' <= s[i] <= '9' || 'a' <= s[i] <= 'f' || 'A' <= s[i] <= 'F'
  }

  predicate GoodCh(ch: Ch) {
    match ch
    case Plain(c) => c >= ' ' && c != '"' && c != '\\'
    case Escape(c) => c in "\"\\/bfnrt"
    case Unicode(hex) => IsHex(hex)
  }

  predicate GoodStr(chars: seq<Ch>) {
    forall i :: 0 <= i < |chars| ==> GoodCh(chars[i])
  }

  predicate Good(v: Value) {
    match v
    case Scalar(text) => IsScalar(text)
    case Str(chars) => GoodStr(chars)
    case EmptyArray(ws) => IsWs(ws)
    case Array(elements) => GoodElements(elements)
    case EmptyObject(ws) => IsWs(ws)
    case Object(members) => GoodMembers(members)
  }

  predicate GoodElements(e: Elements) {
    && IsWs(e.before) && Good(e.v) && IsWs(e.after)
    && (e.Element? ==> GoodElements(e.rest))
  }

  predicate GoodMembers(m: Members) {
    && IsWs(m.before) && GoodStr(m.key) && IsWs(m.mid) && IsWs(m.mid') && Good(m.v) && IsWs(m.after)
    && (m.Member? ==> GoodMembers(m.rest))
  }

  // ---------- printing ----------

  function PrintCh(ch: Ch): string {
    match ch
    case Plain(c) => [c]
    case Escape(c) => ['\\', c]
    case Unicode(hex) => "\\u" + hex
  }

  // Each of these puts a text in front of what follows it.
  function CharsOn(chars: seq<Ch>, rest: string): string {
    if chars == [] then rest else PrintCh(chars[0]) + CharsOn(chars[1..], rest)
  }

  function StrOn(chars: seq<Ch>, rest: string): string {
    "\"" + CharsOn(chars, "\"" + rest)
  }

  function ValueOn(v: Value, rest: string): string {
    match v
    case Scalar(text) => text + rest
    case Str(chars) => StrOn(chars, rest)
    case EmptyArray(ws) => "[" + (ws + ("]" + rest))
    case Array(elements) => "[" + ElementsOn(elements, "]" + rest)
    case EmptyObject(ws) => "{" + (ws + ("}" + rest))
    case Object(members) => "{" + MembersOn(members, "}" + rest)
  }

  function ElementsOn(e: Elements, rest: string): string {
    e.before + ValueOn(e.v, e.after + if e.Element? then "," + ElementsOn(e.rest, rest) else rest)
  }

  function MembersOn(m: Members, rest: string): string {
    var tail := m.after + if m.Member? then "," + MembersOn(m.rest, rest) else rest;
    m.before + StrOn(m.key, Colon(m) + ValueOn(m.v, tail))
  }

  function Colon(m: Members): string {
    m.mid + ":" + m.mid'
  }

  function Print(v: Value): string {
    ValueOn(v, "")
  }

  lemma {:induction false} CharsOnAppends(chars: seq<Ch>, a: string, b: string)
    ensures CharsOn(chars, a + b) == CharsOn(chars, a) + b
  {
    if chars == [] {
    } else {
      CharsOnAppends(chars[1..], a, b);
    }
  }

  lemma StrOnAppends(chars: seq<Ch>, a: string, b: string)
    ensures StrOn(chars, a + b) == StrOn(chars, a) + b
  {
    CharsOnAppends(chars, "\"" + a, b);
    assert ("\"" + a) + b == "\"" + (a + b);
  }

  lemma {:induction false} ValueOnAppends(v: Value, a: string, b: string)
    ensures ValueOn(v, a + b) == ValueOn(v, a) + b
    decreases v
  {
    match v
    case Scalar(text) => Assoc(text, a, b);
    case Str(chars) => StrOnAppends(chars, a, b);
    case EmptyArray(ws) => BracketsAppend("[", ws, "]", a, b);
    case EmptyObject(ws) => BracketsAppend("{", ws, "}", a, b);
    case Array(elements) =>
      Assoc("]", a, b);
      ElementsOnAppends(elements, "]" + a, b);
      Assoc("[", ElementsOn(elements, "]" + a), b);
    case Object(members) =>
      Assoc("}", a, b);
      MembersOnAppends(members, "}" + a, b);
      Assoc("{", MembersOn(members, "}" + a), b);
  }

  lemma BracketsAppend(open: string, ws: string, close: string, a: string, b: string)
    ensures open + (ws + (close + (a + b))) == (open + (ws + (close + a))) + b
  {
    Assoc(close, a, b);
    Assoc(ws, close + a, b);
    Assoc(open, ws + (close + a), b);
  }

  lemma {:induction false} ElementsOnAppends(e: Elements, a: string, b: string)
    ensures ElementsOn(e, a + b) == ElementsOn(e, a) + b
    decreases e
  {
    var tail, tail' := a, a + b;
    if e.Element? {
      ElementsOnAppends(e.rest, a, b);
      tail, tail' := "," + ElementsOn(e.rest, a), "," + ElementsOn(e.rest, a + b);
      Assoc(",", ElementsOn(e.rest, a), b);
    }
    Assoc(e.after, tail, b);
    ValueOnAppends(e.v, e.after + tail, b);
    Assoc(e.before, ValueOn(e.v, e.after + tail), b);
  }

  lemma {:induction false} MembersOnAppends(m: Members, a: string, b: string)
    ensures MembersOn(m, a + b) == MembersOn(m, a) + b
    decreases m
  {
    var tail, tail' := a, a + b;
    if m.Member? {
      MembersOnAppends(m.rest, a, b);
      tail, tail' := "," + MembersOn(m.rest, a), "," + MembersOn(m.rest, a + b);
      Assoc(",", MembersOn(m.rest, a), b);
    }
    Assoc(m.after, tail, b);
    ValueOnAppends(m.v, m.after + tail, b);
    var value := ValueOn(m.v, m.after + tail);
    Assoc(Colon(m), value, b);
    StrOnAppends(m.key, Colon(m) + value, b);
    Assoc(m.before, StrOn(m.key, Colon(m) + value), b);
  }

  // ---------- scanning ----------

  // The scanner as a function of the text it has not read yet; it leaves the text after
  // the rune that brings the level to zero.
  function Stop(u: string, inQuote: bool, level: int): (unread: Option<string>)
    ensures unread.Some? ==> |unread.value| < |u|
  {
    if u == "" then None
    else
      var r := u[0];
      var level' := if inQuote then level else if r == '{' then level + 1 else if r == '}' then level - 1 else level;
      var inQuote' := if r == '"' then !inQuote else inQuote;
      var u' := if r == '\\' && |u| > 1 then u[2..] else u[1..];
      if level' == 0 then Some(u') else Stop(u', inQuote', level')
  }

  lemma {:induction false} ScanIsStop(s: string, pos: nat, inQuote: bool, level: int)
    requires pos <= |s|
    ensures ScanJson(s, pos, inQuote, level)
         == match Stop(s[pos..], inQuote, level) case None => None case Some(unread) => Some(|s| - |unread|)
    decreases |s| - pos
  {
    if pos == |s| {
    } else {
      var r, u := s[pos], s[pos..];
      var level' := if inQuote then level else if r == '{' then level + 1 else if r == '}' then level - 1 else level;
      var pos' := if r == '\\' && pos + 1 < |s| then pos + 2 else pos + 1;
      assert u[0] == r && s[pos'..] == u[pos' - pos..];
      if level' != 0 {
        ScanIsStop(s, pos', if r == '"' then !inQuote else inQuote, level');
      }
    }
  }

  predicate Inert(c: char, inQuote: bool) {
    c != '"' && c != '\\' && (inQuote || (c != '{' && c != '}'))
  }

  lemma {:induction false} PassInert(text: string, rest: string, inQuote: bool, level: int)
    requires level >= 1 && forall i :: 0 <= i < |text| ==> Inert(text[i], inQuote)
    ensures Stop(text + rest, inQuote, level) == Stop(rest, inQuote, level)
  {
    if text == "" {
      assert text + rest == rest;
    } else {
      assert (text + rest)[1..] == text[1..] + rest;
      PassInert(text[1..], rest, inQuote, level);
    }
  }

  lemma PassCh(ch: Ch, rest: string, level: int)
    requires level >= 1 && GoodCh(ch)
    ensures Stop(PrintCh(ch) + rest, true, level) == Stop(rest, true, level)
  {
    var u := PrintCh(ch) + rest;
    match ch
    case Plain(c) => assert u[1..] == rest;
    case Escape(c) => assert u[2..] == rest;
    case Unicode(hex) =>
      assert u[2..] == hex + rest;
      PassInert(hex, rest, true, level);
  }

  lemma {:induction false} PassChars(chars: seq<Ch>, rest: string, level: int)
    requires level >= 1 && GoodStr(chars)
    ensures Stop(CharsOn(chars, rest), true, level) == Stop(rest, true, level)
  {
    if chars == [] {
    } else {
      PassCh(chars[0], CharsOn(chars[1..], rest), level);
      PassChars(chars[1..], rest, level);
    }
  }

  // Braces inside a string, and escaped quotes, do not count.
  lemma PassStr(chars: seq<Ch>, rest: string, level: int)
    requires level >= 1 && GoodStr(chars)
    ensures Stop(StrOn(chars, rest), false, level) == Stop(rest, false, level)
  {
    assert StrOn(chars, rest)[1..] == CharsOn(chars, "\"" + rest);
    PassChars(chars, "\"" + rest, level);
    assert ("\"" + rest)[1..] == rest;
  }

  lemma {:induction false} PassValue(v: Value, rest: string, level: int)
    requires level >= 1 && Good(v)
    ensures Stop(ValueOn(v, rest), false, level) == Stop(rest, false, level)
    decreases v, 0
  {
    match v
    case Scalar(text) => PassInert(text, rest, false, level);
    case Str(chars) => PassStr(chars, rest, level);
    case EmptyArray(ws) =>
      PassInert(ws, "]" + rest, false, level);
      PassBrackets(ws + ("]" + rest), rest, level);
    case Array(elements) =>
      PassElements(elements, "]" + rest, level);
      PassBrackets(ElementsOn(elements, "]" + rest), rest, level);
    case EmptyObject(ws) =>
      PassObject(v, rest, level);
    case Object(members) =>
      PassMembers(members, "}" + rest, level + 1);
      PassObject(v, rest, level);
  }

  lemma PassBrackets(inside: string, rest: string, level: int)
    requires level >= 1 && Stop(inside, false, level) == Stop("]" + rest, false, level)
    ensures Stop("[" + inside, false, level) == Stop(rest, false, level)
  {
    PassInert("[", inside, false, level);
    PassInert("]", rest, false, level);
  }

  // From an opening brace to the matching one, given that the inside is passed over.
  lemma PassObject(v: Value, rest: string, level: int)
    requires level >= 0 && Good(v) && IsObject(v)
    requires v.Object? ==>
               Stop(MembersOn(v.members, "}" + rest), false, level + 1) == Stop("}" + rest, false, level + 1)
    ensures Stop(ValueOn(v, rest), false, level) == if level == 0 then Some(rest) else Stop(rest, false, level)
  {
    match v
    case EmptyObject(ws) =>
      PassInert(ws, "}" + rest, false, level + 1);
      PassBraces(ws + ("}" + rest), rest, level);
    case Object(members) =>
      PassBraces(MembersOn(members, "}" + rest), rest, level);
  }

  lemma PassBraces(inside: string, rest: string, level: int)
    requires level >= 0 && Stop(inside, false, level + 1) == Stop("}" + rest, false, level + 1)
    ensures Stop("{" + inside, false, level) == if level == 0 then Some(rest) else Stop(rest, false, level)
  {
    OpenBrace(inside, level);
    CloseBrace(rest, level + 1);
  }

  lemma OpenBrace(rest: string, level: int)
    requires level >= 0
    ensures Stop("{" + rest, false, level) == Stop(rest, false, level + 1)
  {
    assert ("{" + rest)[1..] == rest;
  }

  lemma CloseBrace(rest: string, level: int)
    requires level >= 1
    ensures Stop("}" + rest, false, level) == if level == 1 then Some(rest) else Stop(rest, false, level - 1)
  {
    assert ("}" + rest)[1..] == rest;
  }

  lemma {:induction false} PassElements(e: Elements, rest: string, level: int)
    requires level >= 1 && GoodElements(e)
    ensures Stop(ElementsOn(e, rest), false, level) == Stop(rest, false, level)
    decreases e
  {
    var tail := if e.Element? then "," + ElementsOn(e.rest, rest) else rest;
    PassInert(e.before, ValueOn(e.v, e.after + tail), false, level);
    PassWsAfter(e.v, e.after, tail, level);
    if e.Element? {
      PassInert(",", ElementsOn(e.rest, rest), false, level);
      PassElements(e.rest, rest, level);
    }
  }

  lemma PassKey(before: string, key: seq<Ch>, colon: string, value: string, level: int)
    requires level >= 1 && IsWs(before) && GoodStr(key)
    requires forall i :: 0 <= i < |colon| ==> Inert(colon[i], false)
    ensures Stop(before + StrOn(key, colon + value), false, level) == Stop(value, false, level)
  {
    PassInert(before, StrOn(key, colon + value), false, level);
    PassStr(key, colon + value, level);
    PassInert(colon, value, false, level);
  }

  lemma {:induction false} PassWsAfter(v: Value, after: string, tail: string, level: int)
    requires level >= 1 && Good(v) && IsWs(after)
    ensures Stop(ValueOn(v, after + tail), false, level) == Stop(tail, false, level)
    decreases v, 1
  {
    PassValue(v, after + tail, level);
    PassInert(after, tail, false, level);
  }

  lemma {:induction false} PassMember(m: Members, tail: string, level: int)
    requires level >= 1 && GoodMembers(m)
    ensures Stop(m.before + StrOn(m.key, Colon(m) + ValueOn(m.v, m.after + tail)), false, level)
         == Stop(tail, false, level)
    decreases m, 0
  {
    var value := ValueOn(m.v, m.after + tail);
    assert forall i :: 0 <= i < |Colon(m)| ==> Inert(Colon(m)[i], false);
    PassKey(m.before, m.key, Colon(m), value, level);
    PassWsAfter(m.v, m.after, tail, level);
  }

  lemma {:induction false} PassMembers(m: Members, rest: string, level: int)
    requires level >= 1 && GoodMembers(m)
    ensures Stop(MembersOn(m, rest), false, level) == Stop(rest, false, level)
    decreases m, 1
  {
    PassMember(m, if m.Member? then "," + MembersOn(m.rest, rest) else rest, level);
    if m.Member? {
      PassInert(",", MembersOn(m.rest, rest), false, level);
      PassMembers(m.rest, rest, level);
    }
  }

  predicate IsObject(v: Value) {
    v.EmptyObject? || v.Object?
  }

  // The scanner stops exactly at the closing brace, whatever follows.
  lemma ScannerStopsAtClosingBrace(lead: string, v: Value, rest: string)
    requires Good(v) && IsObject(v)
    ensures ScanJson(lead + Print(v) + rest, |lead|, false, 0) == Some(|lead| + |Print(v)|)
  {
    var p := Print(v);
    var s := lead + p + rest;
    assert s[|lead|..] == p + rest;
    StopsBehindObject(v, rest);
    ScanIsStop(s, |lead|, false, 0);
  }

  lemma StopsBehindObject(v: Value, rest: string)
    requires Good(v) && IsObject(v)
    ensures Stop(Print(v) + rest, false, 0) == Some(rest)
  {
    ValueOnAppends(v, "", rest);
    assert "" + rest == rest;
    if v.Object? {
      PassMembers(v.members, "}" + rest, 1);
    }
    PassObject(v, rest, 0);
  }

  // ---------- whole documents ----------

  lemma {:induction false} CharsOnNulFree(chars: seq<Ch>, rest: string)
    requires GoodStr(chars) && NulFree(rest)
    ensures NulFree(CharsOn(chars, rest))
  {
    if chars == [] {
    } else {
      CharsOnNulFree(chars[1..], rest);
      assert NUL !in PrintCh(chars[0]);
    }
  }

  lemma {:induction false} ValueOnNulFree(v: Value, rest: string)
    requires Good(v) && NulFree(rest)
    ensures NulFree(ValueOn(v, rest))
    decreases v
  {
    match v
    case Scalar(text) =>
    case Str(chars) => CharsOnNulFree(chars, "\"" + rest);
    case EmptyArray(ws) =>
    case Array(elements) => ElementsOnNulFree(elements, "]" + rest);
    case EmptyObject(ws) =>
    case Object(members) => MembersOnNulFree(members, "}" + rest);
  }

  lemma {:induction false} ElementsOnNulFree(e: Elements, rest: string)
    requires GoodElements(e) && NulFree(rest)
    ensures NulFree(ElementsOn(e, rest))
    decreases e
  {
    if e.Element? {
      ElementsOnNulFree(e.rest, rest);
    }
    ValueOnNulFree(e.v, e.after + if e.Element? then "," + ElementsOn(e.rest, rest) else rest);
  }

  lemma {:induction false} MembersOnNulFree(m: Members, rest: string)
    requires GoodMembers(m) && NulFree(rest)
    ensures NulFree(MembersOn(m, rest))
    decreases m
  {
    if m.Member? {
      MembersOnNulFree(m.rest, rest);
    }
    var value := m.after + if m.Member? then "," + MembersOn(m.rest, rest) else rest;
    ValueOnNulFree(m.v, value);
    CharsOnNulFree(m.key, "\"" + (Colon(m) + ValueOn(m.v, value)));
  }

  // An object text opens with a brace that is not doubled and not a template tag.
  lemma ObjectShape(v: Value)
    requires Good(v) && IsObject(v)
    ensures var p := Print(v);
            && |p| >= 2 && p[0] == '{' && p[1] != '{' && p[1] != '%' && NulFree(p)
            && (|p| == 2 ==> p[1] == '}')
            && (|p| == 3 ==> p[1] in " \t\n\r")
  {
    ValueOnNulFree(v, "");
    match v
    case EmptyObject(ws) => assert Print(v) == "{" + ws + "}";
    case Object(members) =>
      assert Print(v)[1..] == MembersOn(members, "}" + "");
      MembersAreLong(members, "}" + "");
  }

  lemma MembersAreLong(m: Members, rest: string)
    requires GoodMembers(m)
    ensures var t := MembersOn(m, rest); |t| >= 3 && t[0] in " \t\n\r\""
  {
    var value := ValueOn(m.v, m.after + if m.Member? then "," + MembersOn(m.rest, rest) else rest);
    CharsOnAppends(m.key, "\"", Colon(m) + value);
    assert |StrOn(m.key, Colon(m) + value)| >= 3;
  }

  // A document that opens with an object text, after blanks, has exactly that text as its
  // frontmatter if and only if no NUL stands among the first four runes of the object and
  // what follows it.
  lemma ObjectIsTheFrontmatter(lead: string, v: Value, rest: string)
    requires All(lead, Blank) && Good(v) && IsObject(v)
    ensures var (s, end) := (lead + Print(v) + rest, |lead| + |Print(v)|);
            Split(s) == Items([Frontmatter(0, end)] + ContentItems(s, end))
            <==> NulFree((Print(v) + rest)[..Min(4, |Print(v) + rest|)])
  {
    var s, k, end := lead + Print(v) + rest, |lead|, |lead| + |Print(v)|;
    var o := Print(v) + rest;
    ObjectShape(v);
    assert s == lead + o && s[..k] == lead && s[k..end] == Print(v);
    assert s[k..Min(k + 4, |s|)] == o[..Min(4, |o|)];
    if NulFree(o[..Min(4, |o|)]) {
      LookaheadIsFree(lead, o);
      EnterDecides(s, k);
      Spell(s, k);
      ScannerStopsAtClosingBrace(lead, v, rest);
    } else {
      NulHidesTheObject(s, k, end);
    }
  }

  lemma LookaheadIsFree(lead: string, o: string)
    requires All(lead, Blank) && NulFree(o[..Min(4, |o|)])
    ensures var s := lead + o; NulFree(s[..Min(|lead| + 4, |s|)])
  {
    var s, k := lead + o, |lead|;
    forall i | 0 <= i < Min(k + 4, |s|)
      ensures s[i] != NUL
    {
      assert if i < k then s[i] == lead[i] else s[i] == o[..Min(4, |o|)][i - k];
    }
  }

  // The NUL can only follow a very short object. The scan then starts past its brace.
  lemma NulHidesTheObject(s: string, k: nat, end: nat)
    requires k + 2 <= end <= |s| && All(s[..k], Blank) && s[k] == '{'
    requires !NulFree(s[k..Min(k + 4, |s|)]) && NulFree(s[k..end])
    requires end == k + 2 ==> s[k + 1] == '}'
    requires end == k + 3 ==> s[k + 1] in " \t\n\r"
    ensures Split(s).Items? && Split(s).items != [] ==> Split(s).items[0] != Frontmatter(0, end)
  {
    NulPlace(s, k, end);
    if s[k + 2] != NUL {
      assert NulFree(s[..k + 3]) by { NulFreeUpTo(s, k, k + 3); }
      EnterSkipsLead(s, 0, k);
      BeforeNul(s, k);
      assert Enter(s, k) == ToJson(k + 1);
    } else if k == 0 {
      JsonScansLater(s);
    } else {
      BraceIsSkipped(s, k);
    }
  }

  lemma BeforeNul(s: string, k: nat)
    requires k + 3 < |s| && s[k] == '{' && s[k + 3] == NUL && s[k + 1] != NUL && s[k + 2] != NUL
    ensures Before(s, k) == Place(k + 1, 0)
  {
    BehindNul(s, k);
    BackTwice(s, k + 4, BackedUp(s, k + 1), 1);
  }

  lemma JsonScansLater(s: string)
    requires 2 < |s| && s[0] == '{' && s[1] == '}' && s[2] == NUL
    ensures match Enter(s, 0)
            case ToJson(at) => at > 0
            case InsideRune => true
            case _ => false
  {
    var j := ReadTo(s, 1);
    SpanFirst(s, 1, j);
    SpanFirst(s, 2, j);
    BackWithin(s, 1, j, 2);
  }

  // The last blank's lookahead already meets the NUL, and the brace is lost.
  lemma BraceIsSkipped(s: string, k: nat)
    requires 0 < k && k + 2 < |s| && All(s[..k], Blank) && s[k] == '{' && s[k + 1] == '}' && s[k + 2] == NUL
    ensures Enter(s, 0).ToContent? || Enter(s, 0).InsideRune?
  {
    assert NulFree(s[..k + 2]) by { NulFreeUpTo(s, k, k + 2); }
    assert s[..k][k - 1] == s[k - 1];
    assert s[..k - 1] == s[..k][..k - 1];
    EnterSkipsLead(s, 0, k - 1);
    SkipsTheBrace(s, k);
  }

  lemma SkipsTheBrace(s: string, k: nat)
    requires 0 < k && k + 2 < |s| && Blank(s[k - 1]) && s[k] == '{' && s[k + 1] == '}' && s[k + 2] == NUL
    ensures Enter(s, k - 1).ToContent? || Enter(s, k - 1).InsideRune?
  {
    BehindNul(s, k - 1);
    EnterBlank(s, k - 1);
    assert Enter(s, k - 1) == Enter(s, k + 1);
  }

  lemma NulPlace(s: string, k: nat, end: nat)
    requires k + 2 <= end <= |s| && !NulFree(s[k..Min(k + 4, |s|)]) && NulFree(s[k..end])
    ensures end <= k + 3 && k + 2 < |s| && s[k] != NUL && s[k + 1] != NUL
    ensures s[k + 2] == NUL ==> end == k + 2
    ensures s[k + 2] != NUL ==> k + 3 < |s| && s[k + 3] == NUL
  {
    var i :| 0 <= i < |s[k..Min(k + 4, |s|)]| && s[k..Min(k + 4, |s|)][i] == NUL;
    assert forall j :: 0 <= j < end - k ==> s[k..end][j] == s[k + j] && s[k..end][j] != NUL;
    assert s[k..Min(k + 4, |s|)][i] == s[k + i];
    assert s[k..end][0] == s[k] && s[k..end][1] == s[k + 1];
    assert k + 2 < end ==> s[k..end][2] == s[k + 2];
  }

  lemma NulFreeUpTo(s: string, k: nat, n: nat)
    requires k <= n <= |s| && All(s[..k], Blank) && forall i :: k <= i < n ==> s[i] != NUL
    ensures NulFree(s[..n])
  {
    forall i | 0 <= i < n
      ensures s[i] != NUL
    {
      assert i < k ==> s[i] == s[..k][i];
    }
  }
}
