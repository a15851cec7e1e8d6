// What the frontmatter splitter of document/parser.go computes, as functions of the source
// text. Texts are valid UTF-8 and given as their runes, which are Dafny characters.
// Positions are rune indices; byte widths are counted where the parser backs up by bytes.
module Splitter {
  import opened Basics
  import opened Text

  datatype ParseError = NotFrontmatter | UnclosedDelimiter | UnclosedJson

  datatype Item =
    | Frontmatter(start: nat, end: nat)
    | Content(start: nat, end: nat)
    | Failure(err: ParseError)

  // What a run of the state functions leaves behind. It crashes when a slice starts
  // past the end of the input. It goes astray when it reads on from the middle of a rune.
  datatype Outcome = Items(items: seq<Item>) | Crash | Astray

  datatype Rune = Eof | Rune(c: char)

  const NUL := '\0'
  const BOM := '\U{FEFF}'

  predicate IsEol(c: char) {
    c == '\r' || c == '\n'
  }

  // ---------- going back by bytes ----------

  // utf8.RuneLen
  function Width(c: char): (w: nat)
    ensures 1 <= w <= 4
  {
    if c < '\U{80}' then 1 else if c < '\U{800}' then 2 else if c < '\U{10000}' then 3 else 4
  }

  // The byte position `short` bytes before rune `at`: inside the rune before, unless `short` is 0.
  datatype Place = Place(at: nat, short: nat)

  // Going back by bytes from rune `at`, over the whole runes that fit.
  function Back(s: string, at: nat, bytes: nat): (p: Place)
    requires at <= |s|
    ensures p.at <= at
  {
    if at > 0 && Width(s[at - 1]) <= bytes then Back(s, at - 1, bytes - Width(s[at - 1])) else Place(at, bytes)
  }

  // The bytes of the runes from `from` up to `end`.
  function Span(s: string, from: nat, end: nat): nat
    requires from <= end <= |s|
  {
    if from == end then 0 else Span(s, from, end - 1) + Width(s[end - 1])
  }

  lemma {:induction false} BackWithin(s: string, from: nat, end: nat, bytes: nat)
    requires from <= end <= |s| && bytes <= Span(s, from, end)
    ensures Back(s, end, bytes).at >= from
    ensures bytes == Span(s, from, end) ==> Back(s, end, bytes) == Place(from, 0)
    decreases end
  {
    if from == end {
    } else if Width(s[end - 1]) <= bytes {
      BackWithin(s, from, end - 1, bytes - Width(s[end - 1]));
    }
  }

  lemma {:induction false} BackTwice(s: string, at: nat, bytes: nat, more: nat)
    requires at <= |s|
    ensures var p := Back(s, at, bytes); Back(s, at, bytes + more) == Back(s, p.at, p.short + more)
    decreases at
  {
    if at == 0 || Width(s[at - 1]) > bytes {
    } else {
      BackTwice(s, at - 1, bytes - Width(s[at - 1]), more);
    }
  }

  // ---------- parseInit ----------

  // The lookahead array is zero-initialised, so past the end it reads as NUL.
  function Ahead(s: string, i: nat): char {
    if i < |s| then s[i] else NUL
  }

  // Where reading up to three runes from `i` on ends.
  function ReadTo(s: string, i: nat): (j: nat)
    requires i <= |s|
    ensures i <= j <= |s|
  {
    Min(i + 3, |s|)
  }

  // The bytes that are backed up: those of the runes before the first NUL. They are counted from
  // where reading ended, so with a NUL they need not lead back to a rune.
  function BackedUp(s: string, i: nat): nat {
    if Ahead(s, i) == NUL then 0
    else if Ahead(s, i + 1) == NUL then Width(Ahead(s, i))
    else if Ahead(s, i + 2) == NUL then Width(Ahead(s, i)) + Width(Ahead(s, i + 1))
    else Width(Ahead(s, i)) + Width(Ahead(s, i + 1)) + Width(Ahead(s, i + 2))
  }

  predicate NoNulAfter(s: string, i: nat) {
    forall k :: i < k < i + 4 && k < |s| ==> s[k] != NUL
  }

  // After rune `i` and the lookahead: exactly behind the rune, if no NUL is in the way.
  function Behind(s: string, i: nat): (p: Place)
    requires i < |s|
    ensures i < p.at <= |s|
    ensures NoNulAfter(s, i) ==> p == Place(i + 1, 0)
  {
    LookaheadFits(s, i);
    Back(s, ReadTo(s, i + 1), BackedUp(s, i + 1))
  }

  // The same with rune `i` backed up, too.
  function Before(s: string, i: nat): (p: Place)
    requires i < |s|
    ensures i <= p.at <= |s|
    ensures NoNulAfter(s, i) ==> p == Place(i, 0)
  {
    LookaheadFits(s, i);
    Back(s, ReadTo(s, i + 1), BackedUp(s, i + 1) + Width(s[i]))
  }

  lemma LookaheadFits(s: string, i: nat)
    requires i < |s|
    ensures var j, bytes := ReadTo(s, i + 1), BackedUp(s, i + 1);
            && Back(s, j, bytes).at > i && Back(s, j, bytes + Width(s[i])).at >= i
            && (NoNulAfter(s, i) ==>
                  Back(s, j, bytes) == Place(i + 1, 0) && Back(s, j, bytes + Width(s[i])) == Place(i, 0))
  {
    var j, bytes := ReadTo(s, i + 1), BackedUp(s, i + 1);
    LookaheadSpan(s, i + 1);
    SpanFirst(s, i, j);
    BackWithin(s, i + 1, j, bytes);
    BackWithin(s, i, j, bytes + Width(s[i]));
  }

  lemma LookaheadSpan(s: string, i: nat)
    requires i <= |s|
    ensures BackedUp(s, i) <= Span(s, i, ReadTo(s, i))
    ensures (forall k :: i <= k < i + 3 && k < |s| ==> s[k] != NUL) ==> BackedUp(s, i) == Span(s, i, ReadTo(s, i))
  {
    var j := ReadTo(s, i);
    assert j >= i + 1 ==> Span(s, i, i + 1) == Width(s[i]);
    assert j >= i + 2 ==> Span(s, i, i + 2) == Width(s[i]) + Width(s[i + 1]);
    assert j >= i + 3 ==> Span(s, i, i + 3) == Width(s[i]) + Width(s[i + 1]) + Width(s[i + 2]);
  }

  lemma {:induction false} SpanFirst(s: string, from: nat, end: nat)
    requires from < end <= |s|
    ensures Span(s, from, end) == Width(s[from]) + Span(s, from + 1, end)
    decreases end
  {
    if end == from + 1 {
      assert Span(s, from, from) == 0;
    } else {
      SpanFirst(s, from, end - 1);
    }
  }

  // Where parsing goes after the leading blanks, and the position it goes on from.
  datatype Entry = ToContent(at: nat) | ToJson(at: nat) | ToDelimited(at: nat, delimiter: char) | InsideRune

  function ContentFrom(p: Place): Entry {
    if p.short == 0 then ToContent(p.at) else InsideRune
  }

  function JsonFrom(p: Place): Entry {
    if p.short == 0 then ToJson(p.at) else InsideRune
  }

  function DelimitedFrom(p: Place, delimiter: char): Entry {
    if p.short == 0 then ToDelimited(p.at, delimiter) else InsideRune
  }

  function Enter(s: string, i: nat): (entry: Entry)
    requires i <= |s|
    ensures !entry.InsideRune? ==> i <= entry.at <= |s|
    decreases |s| - i
  {
    if i == |s| then ToContent(i)
    else
      var r0, r1, r2, r3 := s[i], Ahead(s, i + 1), Ahead(s, i + 2), Ahead(s, i + 3);
      if r0 == '+' && r1 == '+' && r2 == '+' then DelimitedFrom(Behind(s, i), r0)
      else if r0 == '-' && r1 == '-' && r2 == '8' && r3 == '<' then ContentFrom(Before(s, i))
      else if r0 == '-' && r1 == '-' && r2 == '-' then DelimitedFrom(Behind(s, i), r0)
      else if r0 == '{' && r1 == '{' then ContentFrom(Before(s, i))
      else if r0 == '{' && r1 == '%' then ContentFrom(Before(s, i))
      else if r0 == '{' then JsonFrom(Before(s, i))
      else if r0 != BOM && !IsSpace(r0) && !IsEol(r0) then ContentFrom(Before(s, i))
      else
        var next := Behind(s, i);
        if next.short == 0 then Enter(s, next.at) else InsideRune
  }

  // ---------- consume ----------

  // Trying to consume one rune. Backing up the end-of-input marker moves forward.
  function TryRune(s: string, pos: nat, c: char): nat {
    if pos < |s| then (if s[pos] == c then pos + 1 else pos) else pos + 1
  }

  predicate Takes(s: string, pos: nat, c: char) {
    pos < |s| && s[pos] == c
  }

  // One attempt at CR, then one at LF.
  function ConsumeEol(s: string, pos: nat): nat {
    TryRune(s, TryRune(s, pos, '\r'), '\n')
  }

  predicate ConsumesEol(s: string, pos: nat) {
    Takes(s, pos, '\r') || Takes(s, TryRune(s, pos, '\r'), '\n')
  }

  // ---------- parseRawFrontmatter ----------

  datatype Closing = ClosedAt(end: nat) | Unclosed | OutOfRange

  function Fence(delimiter: char): (f: string)
    ensures |f| == 3
  {
    [delimiter, delimiter, delimiter]
  }

  predicate PrefixAt(s: string, pos: nat, prefix: string)
    requires pos <= |s|
  {
    pos + |prefix| <= |s| && s[pos..pos + |prefix|] == prefix
  }

  // The loop over the runes after the opening delimiter.
  function FindClosing(s: string, delimiter: char, pos: nat, wasEol: bool): (c: Closing)
    ensures c.ClosedAt? ==> pos + 3 <= c.end <= |s|
    decreases |s| - pos, wasEol
  {
    if wasEol then
      if pos > |s| then OutOfRange
      else if PrefixAt(s, pos, Fence(delimiter)) then ClosedAt(pos + 3)
      else FindClosing(s, delimiter, pos, false)
    else if pos >= |s| then Unclosed
    else if IsEol(s[pos]) && PrefixAt(s, pos + 1, Fence(delimiter)) then ClosedAt(pos + 4)
    else FindClosing(s, delimiter, pos + 1, false)
  }

  // ---------- parseRawFrontmatterJSON ----------

  // The brace, quote and escape scanner; the end is the position after the rune that
  // brings the level to zero.
  function ScanJson(s: string, pos: nat, inQuote: bool, level: int): (end: Option<nat>)
    ensures end.Some? ==> pos < end.value <= |s|
    decreases |s| - pos
  {
    if pos >= |s| then None
    else
      var r := s[pos];
      var level' := if inQuote then level else if r == '{' then level + 1 else if r == '}' then level - 1 else level;
      var inQuote' := if r == '"' then !inQuote else inQuote;
      var pos' := if r == '\\' && pos + 1 < |s| then pos + 2 else pos + 1;
      if level' == 0 then Some(pos') else ScanJson(s, pos', inQuote', level')
  }

  // ---------- parseContent and the whole run ----------

  // The first rune from `pos` on that is not part of a line break.
  function SkipEols(s: string, pos: nat): (b: nat)
    ensures pos <= b && (pos <= |s| ==> b <= |s|)
    decreases |s| - pos
  {
    if pos < |s| && IsEol(s[pos]) then SkipEols(s, pos + 1) else pos
  }

  function ContentItems(s: string, pos: nat): seq<Item> {
    var b := SkipEols(s, pos);
    if b < |s| then [Content(b, |s|)] else []
  }

  // From behind the opening delimiter.
  function SearchClosing(s: string, delimiter: char, from: nat): Closing {
    FindClosing(s, delimiter, ConsumeEol(s, from), ConsumesEol(s, from))
  }

  function DelimitedItems(s: string, at: nat, delimiter: char): Outcome {
    if !(Takes(s, at, delimiter) && Takes(s, at + 1, delimiter)) then Items([Failure(NotFrontmatter)])
    else
      match SearchClosing(s, delimiter, at + 2)
      case ClosedAt(end) => Items([Frontmatter(0, end)] + ContentItems(s, end))
      case Unclosed => Items([Failure(UnclosedDelimiter)])
      case OutOfRange => Crash
  }

  function JsonItems(s: string, at: nat): Outcome {
    match ScanJson(s, at, false, 0)
    case Some(end) => Items([Frontmatter(0, end)] + ContentItems(s, end))
    case None => Items([Failure(UnclosedJson)])
  }

  function Split(s: string): Outcome {
    match Enter(s, 0)
    case ToContent(at) => Items(ContentItems(s, at))
    case ToJson(at) => JsonItems(s, at)
    case ToDelimited(at, delimiter) => DelimitedItems(s, at, delimiter)
    case InsideRune => Astray
  }

  // ---------- ParseSections ----------

  datatype Sections =
    | Parsed(frontmatter: string, content: string, contentOffset: nat)
    | Failed(err: ParseError)
    | Crashed
    | Strayed

  function ParseSections(s: string): Sections {
    match Split(s)
    case Crash => Crashed
    case Astray => Strayed
    case Items(items) =>
      if items == [] then Parsed("", "", 0)
      else if items[0].Failure? then
        if items[0].err.NotFrontmatter? then Parsed("", s, 0) else Failed(items[0].err)
      else if items[0].Content? then Parsed("", Slice(s, items[0]), items[0].start)
      else if |items| == 1 then Parsed(Slice(s, items[0]), "", 0)
      else Parsed(Slice(s, items[0]), Slice(s, items[1]), if items[1].Content? then items[1].start else 0)
  }

  function Slice(s: string, item: Item): string {
    if !item.Failure? && item.start <= item.end <= |s| then s[item.start..item.end] else ""
  }

  // ---------- what a run emits ----------

  // One error, or at most one frontmatter and then at most one content span.
  lemma ItemsShape(s: string)
    ensures match Split(s)
            case Crash => true
            case Astray => true
            case Items(items) =>
              && |items| <= 2
              && (|items| == 2 ==> items[0].Frontmatter? && items[1].Content?)
  {
  }
}
