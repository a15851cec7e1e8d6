// What the splitter promises about every source text, stated without its control flow.
module SplitterLaws {
  import opened Basics
  import opened Splitter
  import opened Text

  predicate Blank(c: char) {
    IsSpace(c) || IsEol(c) || c == BOM
  }

  predicate All(s: string, p: char -> bool) {
    forall i :: 0 <= i < |s| ==> p(s[i])
  }

  predicate NulFree(s: string) {
    NUL !in s
  }

  // `k` ends the leading whitespace and byte order marks of `s`.
  predicate LeadEnds(s: string, k: nat) {
    k <= |s| && All(s[..k], Blank) && (k < |s| ==> !Blank(s[k]))
  }

  function Lead(s: string, i: nat): (k: nat)
    requires i <= |s| && All(s[..i], Blank)
    ensures LeadEnds(s, k)
    decreases |s| - i
  {
    if i < |s| && Blank(s[i]) then
      assert s[..i + 1] == s[..i] + [s[i]];
      Lead(s, i + 1)
    else i
  }

  // No NUL among the leading blanks and the first four runes of text, which is as far as
  // the lookahead reaches.
  predicate LookaheadClear(s: string) {
    NulFree(s[..Min(Lead(s, 0) + 4, |s|)])
  }

  // What the first text of a document announces.
  function Classify(s: string, k: nat): Entry
    requires k <= |s|
  {
    if PrefixAt(s, k, Fence('+')) then ToDelimited(k + 1, '+')
    else if PrefixAt(s, k, Fence('-')) then ToDelimited(k + 1, '-')
    else if PrefixAt(s, k, "{") && !PrefixAt(s, k, "{{") && !PrefixAt(s, k, "{%") then ToJson(k)
    else ToContent(k)
  }

  // Without a NUL within reach of the lookahead the leading blanks are skipped one by one.
  lemma EnterSkipsLead(s: string, i: nat, k: nat)
    requires i <= k <= |s| && All(s[..k], Blank) && NulFree(s[..Min(k + 3, |s|)])
    ensures Enter(s, i) == Enter(s, k)
  {
    forall j | i <= j < k
      ensures Blank(s[j]) && NoNulAfter(s, j)
    {
      assert s[j] == s[..k][j];
      ReachIsClear(s, j, k + 3);
    }
    SkipAll(s, i, k);
  }

  lemma {:induction false} SkipAll(s: string, i: nat, k: nat)
    requires i <= k <= |s| && forall j :: i <= j < k ==> Blank(s[j]) && NoNulAfter(s, j)
    ensures Enter(s, i) == Enter(s, k)
    decreases k - i
  {
    if i == k {
    } else {
      SkipOne(s, i);
      SkipAll(s, i + 1, k);
    }
  }

  lemma EnterBlank(s: string, i: nat)
    requires i < |s| && Blank(s[i])
    ensures Enter(s, i) == var next := Behind(s, i); if next.short == 0 then Enter(s, next.at) else InsideRune
  {
  }

  lemma SkipOne(s: string, i: nat)
    requires i < |s| && Blank(s[i]) && NoNulAfter(s, i)
    ensures Enter(s, i) == Enter(s, i + 1)
  {
    EnterBlank(s, i);
  }

  lemma ReachIsClear(s: string, i: nat, end: nat)
    requires i + 4 <= end && NulFree(s[..Min(end, |s|)])
    ensures NoNulAfter(s, i)
  {
    forall j | i < j < i + 4 && j < |s|
      ensures s[j] != NUL
    {
      assert s[j] == s[..Min(end, |s|)][j];
    }
  }

  // Then the first text decides, and backing up the lookahead is exact.
  lemma EnterDecides(s: string, k: nat)
    requires LeadEnds(s, k) && NulFree(s[..Min(k + 4, |s|)])
    ensures Enter(s, 0) == Classify(s, k)
  {
    assert NulFree(s[..Min(k + 3, |s|)]) by {
      assert s[..Min(k + 3, |s|)] <= s[..Min(k + 4, |s|)];
    }
    EnterSkipsLead(s, 0, k);
    ReachIsClear(s, k, k + 4);
    Spell(s, k);
  }

  lemma Spell(s: string, k: nat)
    requires k <= |s|
    ensures forall c {:trigger Fence(c)} :: c != NUL ==>
              (PrefixAt(s, k, Fence(c)) <==> Ahead(s, k) == Ahead(s, k + 1) == Ahead(s, k + 2) == c)
    ensures PrefixAt(s, k, "{") <==> Ahead(s, k) == '{'
    ensures PrefixAt(s, k, "{{") <==> Ahead(s, k) == '{' && Ahead(s, k + 1) == '{'
    ensures PrefixAt(s, k, "{%") <==> Ahead(s, k) == '{' && Ahead(s, k + 1) == '%'
  {
    if k + 3 <= |s| {
      assert s[k..k + 3] == [s[k], s[k + 1], s[k + 2]];
    }
    if k + 2 <= |s| {
      assert s[k..k + 2] == [s[k], s[k + 1]];
    }
  }

  // ---------- delimited frontmatter ----------

  // A closing delimiter at `q`: three delimiters straight after a line break that
  // follows the opening delimiter, which ended at `from`.
  predicate ClosesAt(s: string, d: char, from: nat, q: nat) {
    from < q && q + 3 <= |s| && IsEol(s[q - 1]) && s[q..q + 3] == Fence(d)
  }

  // The search result for the delimiter text after position `from`.
  ghost predicate FindsEarliest(s: string, d: char, from: nat, c: Closing) {
    match c
    case ClosedAt(end) =>
      && end >= 3 && ClosesAt(s, d, from, end - 3)
      && forall q :: from < q < end - 3 ==> !ClosesAt(s, d, from, q)
    case Unclosed => forall q :: !ClosesAt(s, d, from, q)
    case OutOfRange => false
  }

  lemma {:induction false} SearchFindsEarliest(s: string, d: char, pos: nat)
    ensures FindsEarliest(s, d, pos, FindClosing(s, d, pos, false))
    decreases |s| - pos
  {
    if pos >= |s| || (IsEol(s[pos]) && PrefixAt(s, pos + 1, Fence(d))) {
    } else {
      SearchFindsEarliest(s, d, pos + 1);
      forall q
        ensures ClosesAt(s, d, pos, q) == ClosesAt(s, d, pos + 1, q)
      {
      }
    }
  }

  // The search from the opening delimiter on. The one source it cannot handle ends in a
  // lone CR right there.
  lemma ClosingIsEarliest(s: string, d: char, from: nat)
    requires from <= |s| && !IsEol(d)
    ensures var c := SearchClosing(s, d, from);
            if |s| == from + 1 && s[from] == '\r' then c == OutOfRange else FindsEarliest(s, d, from, c)
  {
    var pos := ConsumeEol(s, from);
    if from == |s| {
      assert FindClosing(s, d, pos, false) == Unclosed;
    } else if !ConsumesEol(s, from) {
      assert pos == from;
      SearchFindsEarliest(s, d, from);
    } else if pos <= |s| {
      assert pos <= from + 2 && forall q :: from < q < pos ==> IsEol(s[q]);
      SearchAfterEol(s, d, from, pos);
    } else {
      assert FindClosing(s, d, pos, true) == OutOfRange;
    }
  }

  lemma SearchAfterEol(s: string, d: char, from: nat, pos: nat)
    requires from < pos <= |s| && IsEol(s[pos - 1]) && !IsEol(d)
    requires forall q :: from < q < pos ==> IsEol(s[q])
    ensures FindsEarliest(s, d, from, FindClosing(s, d, pos, true))
  {
    forall q | from < q < pos
      ensures !ClosesAt(s, d, from, q)
    {
      assert q + 3 <= |s| ==> s[q] == s[q..q + 3][0];
    }
    if !PrefixAt(s, pos, Fence(d)) {
      SearchFindsEarliest(s, d, pos);
      var c := FindClosing(s, d, pos, false);
      forall q
        ensures ClosesAt(s, d, from, q) == ClosesAt(s, d, pos, q)
      {
      }
    }
  }

  // A document that opens with a delimiter closes at the earliest delimiter after a line
  // break, and fails exactly when there is none. The one document it crashes on ends in
  // a lone CR right after the opening delimiter.
  lemma DelimitedFrontmatter(s: string, k: nat, d: char)
    requires LeadEnds(s, k) && NulFree(s[..Min(k + 4, |s|)])
    requires (d == '+' || d == '-') && PrefixAt(s, k, Fence(d))
    ensures if |s| == k + 4 && s[k + 3] == '\r' then Split(s) == Crash
            else exists c :: FindsEarliest(s, d, k + 3, c) && Split(s) == ItemsFor(s, c)
  {
    var c := DelimitedBy(s, k, d);
  }

  function ItemsFor(s: string, c: Closing): Outcome {
    match c
    case ClosedAt(end) => Items([Frontmatter(0, end)] + ContentItems(s, end))
    case Unclosed => Items([Failure(UnclosedDelimiter)])
    case OutOfRange => Crash
  }

  lemma DelimitedBy(s: string, k: nat, d: char) returns (c: Closing)
    requires LeadEnds(s, k) && NulFree(s[..Min(k + 4, |s|)])
    requires (d == '+' || d == '-') && PrefixAt(s, k, Fence(d))
    ensures if |s| == k + 4 && s[k + 3] == '\r' then c == OutOfRange else FindsEarliest(s, d, k + 3, c)
    ensures Split(s) == ItemsFor(s, c)
  {
    EnterDecides(s, k);
    assert s[k] == s[k + 1] == s[k + 2] == d by { Spell(s, k); }
    ClosingIsEarliest(s, d, k + 3);
    c := SearchClosing(s, d, k + 3);
  }

  predicate FenceAt(s: string, k: nat)
    requires k <= |s|
  {
    PrefixAt(s, k, Fence('+')) || PrefixAt(s, k, Fence('-'))
  }

  // Among documents without a NUL in reach of the lookahead no other one crashes, whatever
  // it opens with, and none goes astray.
  lemma CrashesExactly(s: string)
    requires LookaheadClear(s)
    ensures Split(s) == Crash <==>
              var k := Lead(s, 0);
              |s| == k + 4 && s[k + 3] == '\r' && FenceAt(s, k)
    ensures Split(s) != Astray
  {
    var k := Lead(s, 0);
    StaysOnRunes(s, k);
    if FenceAt(s, k) {
      CrashesBehind(s, k, if PrefixAt(s, k, Fence('+')) then '+' else '-');
    } else {
      EnterDecides(s, k);
      OnlyDelimitedCrashes(s);
    }
  }

  lemma StaysOnRunes(s: string, k: nat)
    requires LeadEnds(s, k) && NulFree(s[..Min(k + 4, |s|)])
    ensures Split(s) != Astray
  {
    EnterDecides(s, k);
  }

  lemma CrashesBehind(s: string, k: nat, d: char)
    requires LeadEnds(s, k) && NulFree(s[..Min(k + 4, |s|)])
    requires (d == '+' || d == '-') && PrefixAt(s, k, Fence(d))
    ensures Split(s) == Crash <==> |s| == k + 4 && s[k + 3] == '\r'
  {
    var c := DelimitedBy(s, k, d);
    assert ItemsFor(s, c) == Crash <==> c == OutOfRange;
  }

  lemma OnlyDelimitedCrashes(s: string)
    requires !Enter(s, 0).ToDelimited?
    ensures Split(s) != Crash
  {
  }

  // The opening delimiter is rejected, and the whole document taken as content, exactly
  // when a NUL follows it: the lookahead is then not backed up in full.
  lemma OpeningRejectedOnlyAtNul(s: string, k: nat)
    requires LeadEnds(s, k) && NulFree(s[..Min(k + 3, |s|)])
    ensures Split(s) == Items([Failure(NotFrontmatter)]) <==>
              k + 3 < |s| && s[k + 3] == NUL && FenceAt(s, k)
    ensures Split(s) == Items([Failure(NotFrontmatter)]) ==> ParseSections(s) == Parsed("", s, 0)
  {
    if k + 3 < |s| && s[k + 3] == NUL {
      EnterSkipsLead(s, 0, k);
      assert s[..k + 3][k + 1] == s[k + 1] && s[..k + 3][k + 2] == s[k + 2];
      RejectedAtNul(s, k);
    } else {
      assert NulFree(s[..Min(k + 4, |s|)]) by {
        assert k + 3 < |s| ==> s[..k + 4] == s[..k + 3] + [s[k + 3]];
      }
      NeverRejected(s, k);
    }
  }

  lemma RejectedAtNul(s: string, k: nat)
    requires k + 3 < |s| && s[k + 3] == NUL && s[k + 1] != NUL && s[k + 2] != NUL
    requires !Blank(s[k]) && Enter(s, 0) == Enter(s, k)
    ensures if FenceAt(s, k) then Split(s) == Items([Failure(NotFrontmatter)])
            else Split(s).Items? && Split(s).items != [] ==> Split(s).items[0] != Failure(NotFrontmatter)
  {
    Spell(s, k);
    BehindNul(s, k);
    assert Enter(s, k).ToDelimited? ==> Enter(s, k) == ToDelimited(k + 2, s[k]);
  }

  // The NUL is the one rune that is not backed up.
  lemma BehindNul(s: string, k: nat)
    requires k + 3 < |s| && s[k + 3] == NUL && s[k + 1] != NUL && s[k + 2] != NUL
    ensures Behind(s, k) == Place(k + 2, Width(s[k + 1]) - 1)
  {
    var bytes := Width(s[k + 1]) + Width(s[k + 2]);
    assert BackedUp(s, k + 1) == bytes;
    assert Back(s, k + 4, bytes) == Back(s, k + 3, bytes - 1);
    assert Back(s, k + 3, bytes - 1) == Back(s, k + 2, Width(s[k + 1]) - 1);
  }

  lemma NeverRejected(s: string, k: nat)
    requires LeadEnds(s, k) && NulFree(s[..Min(k + 4, |s|)])
    ensures Split(s).Items? && Split(s).items != [] ==> Split(s).items[0] != Failure(NotFrontmatter)
  {
    if PrefixAt(s, k, Fence('+')) {
      DelimitedFrontmatter(s, k, '+');
    } else if PrefixAt(s, k, Fence('-')) {
      DelimitedFrontmatter(s, k, '-');
    } else {
      EnterDecides(s, k);
    }
  }

  // ---------- reading on from the middle of a rune ----------

  // No NUL has a rune of several bytes among the three runes before it or the two behind it.
  predicate NulsStandApart(s: string) {
    forall j, k :: 0 <= j < |s| && 0 <= k < |s| && s[j] == NUL && Width(s[k]) > 1 ==> k + 3 < j || j + 2 < k
  }

  // That is all it takes never to go astray: then everything the source does is described.
  lemma StraysOnlyNearNul(s: string)
    requires NulsStandApart(s)
    ensures Split(s) != Astray
  {
    EnterStaysOnRunes(s, 0);
  }

  lemma {:induction false} EnterStaysOnRunes(s: string, i: nat)
    requires i <= |s| && NulsStandApart(s)
    ensures !Enter(s, i).InsideRune?
    decreases |s| - i
  {
    if i == |s| {
    } else {
      PlacesOnRunes(s, i);
      if Blank(s[i]) {
        EnterBlank(s, i);
        EnterStaysOnRunes(s, Behind(s, i).at);
      }
    }
  }

  lemma PlacesOnRunes(s: string, i: nat)
    requires i < |s| && NulsStandApart(s)
    ensures Behind(s, i).short == 0 && Before(s, i).short == 0
  {
    if j :| i < j < i + 4 && j < |s| && s[j] == NUL {
      var end, bytes := ReadTo(s, i + 1), BackedUp(s, i + 1);
      LookaheadSpan(s, i + 1);
      SpanFirst(s, i, end);
      BackOnRunes(s, i, end, bytes);
      BackOnRunes(s, i, end, bytes + Width(s[i]));
    }
  }

  lemma {:induction false} BackOnRunes(s: string, from: nat, end: nat, bytes: nat)
    requires from <= end <= |s| && bytes <= Span(s, from, end)
    requires forall k :: from <= k < end ==> Width(s[k]) == 1
    ensures Back(s, end, bytes).short == 0
    decreases end
  {
    if from == end || bytes == 0 {
    } else {
      BackOnRunes(s, from, end - 1, bytes - 1);
    }
  }

  // Next to a NUL it does happen; and where it does not, the frontmatter may start elsewhere.
  lemma NulMisplacesTheStart()
    ensures Split(" \U{65E5}x\0") == Astray
    ensures ParseSections("{}\0\U{E9}") == Parsed("{}\0\U{E9}", "", 0)
  {
    var s := " \U{65E5}x\0";
    assert Back(s, 4, 4) == Back(s, 3, 3) == Back(s, 2, 2) == Place(2, 2);
    assert Behind(s, 0) == Place(2, 2);
    var t := "{}\0\U{E9}";
    assert Back(t, 4, 2) == Back(t, 3, 0) == Place(3, 0);
    assert Before(t, 0) == Place(3, 0);
    assert ScanJson(t, 3, false, 0) == Some(4);
    assert ContentItems(t, 4) == [];
    assert Split(t) == Items([Frontmatter(0, 4)]);
    assert t[0..4] == t;
  }

  // ---------- what is dropped ----------

  lemma {:induction false} SkipEolsSkipsEols(s: string, pos: nat)
    requires pos <= |s|
    ensures var b := SkipEols(s, pos); All(s[pos..b], IsEol) && (b < |s| ==> !IsEol(s[b]))
    decreases |s| - pos
  {
    if pos == |s| || !IsEol(s[pos]) {
    } else {
      SkipEolsSkipsEols(s, pos + 1);
      var b := SkipEols(s, pos);
      assert s[pos..b] == [s[pos]] + s[pos + 1..b];
    }
  }

  // The spans in bounds, in order and disjoint; the content reaches to the end. Dropped
  // between the two is only line breaks, and before a lone content only blanks.
  ghost predicate Accounts(s: string, items: seq<Item>) {
    match |items|
    case 0 => All(s, Blank)
    case 1 =>
      (match items[0]
       case Failure(err) => err != NotFrontmatter
       case Frontmatter(start, end) => start == 0 < end <= |s| && All(s[end..], IsEol)
       case Content(start, end) => start < end == |s| && LeadEnds(s, start))
    case 2 =>
      && items[0].Frontmatter? && items[1].Content?
      && items[0].start == 0 < items[0].end <= items[1].start < items[1].end == |s|
      && All(s[items[0].end..items[1].start], IsEol) && !IsEol(s[items[1].start])
    case _ => false
  }

  lemma EveryRuneIsAccountedFor(s: string)
    requires LookaheadClear(s)
    ensures Split(s).Items? ==> Accounts(s, Split(s).items)
  {
    var k := Lead(s, 0);
    EnterDecides(s, k);
    if Enter(s, 0).ToContent? {
      BlanksThenContent(s, k);
    } else {
      NeverRejected(s, k);
      if Split(s).Items? {
        NoContentFirst(s);
      }
      if Split(s).Items? && Split(s).items[0].Frontmatter? {
        FrontmatterInBounds(s, k);
        AfterFrontmatter(s, Split(s).items[0].end);
      }
    }
  }

  lemma NoContentFirst(s: string)
    requires !Enter(s, 0).ToContent? && Split(s).Items?
    ensures var items := Split(s).items;
            && items != []
            && (items[0].Failure? ==> |items| == 1)
            && (!items[0].Failure? ==>
                  items[0].Frontmatter? && items == [Frontmatter(0, items[0].end)] + ContentItems(s, items[0].end))
  {
  }

  lemma BlanksThenContent(s: string, k: nat)
    requires LeadEnds(s, k)
    ensures Accounts(s, ContentItems(s, k))
  {
    assert SkipEols(s, k) == k;
    assert s[..|s|] == s;
  }

  lemma AfterFrontmatter(s: string, end: nat)
    requires 0 < end <= |s|
    ensures Accounts(s, [Frontmatter(0, end)] + ContentItems(s, end))
  {
    SkipEolsSkipsEols(s, end);
    assert s[end..] == s[end..|s|];
  }

  lemma FrontmatterInBounds(s: string, k: nat)
    requires NulFree(s[..Min(k + 4, |s|)]) && LeadEnds(s, k)
    requires Split(s).Items? && Split(s).items != [] && Split(s).items[0].Frontmatter?
    ensures var end := Split(s).items[0].end; k + 2 <= end <= |s|
  {
    EnterDecides(s, k);
    Spell(s, k);
    if Enter(s, 0).ToDelimited? {
      var c := DelimitedBy(s, k, Enter(s, 0).delimiter);
    }
  }

  // ---------- Serialize, then split ----------

  function CountLf(s: string): nat {
    if s == "" then 0 else CountLf(s[1..]) + if s[0] == '\n' then 1 else 0
  }

  function CountCrLf(s: string): nat {
    if |s| < 2 then 0 else if s[0] == '\r' && s[1] == '\n' then 1 + CountCrLf(s[2..]) else CountCrLf(s[1..])
  }

  // document.DetectLineBreak
  function DetectLineBreak(s: string): (lb: string)
    ensures lb == "\r\n" || lb == "\n"
  {
    if CountCrLf(s) == CountLf(s) then "\r\n" else "\n"
  }

  // Serialize separates the frontmatter from the rest by two line breaks.
  function Separated(raw: string): string {
    raw + DetectLineBreak(raw) + DetectLineBreak(raw)
  }

  function Join(raw: string, body: string): string {
    Separated(raw) + body
  }

  // CRLF is detected exactly when no LF stands alone.
  lemma {:induction false} CountsCompare(s: string)
    ensures CountCrLf(s) <= CountLf(s)
    ensures CountCrLf(s) == CountLf(s) <==> forall i :: 0 <= i < |s| && s[i] == '\n' ==> i > 0 && s[i - 1] == '\r'
    decreases |s|
  {
    if |s| >= 2 && s[0] == '\r' && s[1] == '\n' {
      assert CountLf(s) == 1 + CountLf(s[2..]) by { assert s[1..][1..] == s[2..]; }
      CountsCompare(s[2..]);
    } else if s != "" {
      CountsCompare(s[1..]);
    }
  }

  // A text with a lone LF is continued with LF, every other one, also one without any, with CRLF.
  lemma LineBreakDetected(s: string)
    ensures DetectLineBreak(s) == "\r\n" <==> forall i :: 0 <= i < |s| && s[i] == '\n' ==> i > 0 && s[i - 1] == '\r'
    ensures DetectLineBreak(s) == "\n" <==> exists i :: 0 <= i < |s| && s[i] == '\n' && (i == 0 || s[i - 1] != '\r')
  {
    CountsCompare(s);
  }

  // Line breaks at the start of the body are taken as part of the separation.
  function WithoutLeadingEols(body: string): string {
    body[SkipEols(body, 0)..]
  }

  // Splitting what Serialize joins gives both parts back, the body behind two line breaks and
  // its own leading ones.
  predicate Restored(raw: string, body: string) {
    var rest, breaks := WithoutLeadingEols(body), 2 * |DetectLineBreak(raw)|;
    ParseSections(Join(raw, body))
    == Parsed(raw, rest, if rest == "" then 0 else |raw| + breaks + (|body| - |rest|))
  }

  // The first `end` runes of `s` are its frontmatter.
  predicate Opens(s: string, end: nat) {
    Split(s) == Items([Frontmatter(0, end)] + ContentItems(s, end))
  }

  // For every frontmatter text and every body: both come back if and only if the
  // frontmatter alone, separated from nothing, is split as such. So a text is restored
  // with every body or with none.
  lemma RoundTripDecided(raw: string, body: string)
    requires raw != ""
    ensures Restored(raw, body) <==> Split(Separated(raw)) == Items([Frontmatter(0, |raw|)])
  {
    OpensSeparated(raw);
    RestoredOpens(raw, body);
    JoinShape(raw, body);
    SameBeginning(Separated(raw), Join(raw, body), |raw|);
  }

  lemma OpensSeparated(raw: string)
    ensures Opens(Separated(raw), |raw|) <==> Split(Separated(raw)) == Items([Frontmatter(0, |raw|)])
  {
    JoinShape(raw, "");
    assert Join(raw, "") == Separated(raw);
    assert [Frontmatter(0, |raw|)] + [] == [Frontmatter(0, |raw|)];
  }

  lemma RestoredOpens(raw: string, body: string)
    requires raw != ""
    ensures Restored(raw, body) <==> Opens(Join(raw, body), |raw|)
  {
    if Opens(Join(raw, body), |raw|) {
      OpensRestores(raw, body);
    }
    if Restored(raw, body) {
      EmittedAs(Join(raw, body), raw);
    }
  }

  lemma OpensRestores(raw: string, body: string)
    requires Opens(Join(raw, body), |raw|)
    ensures Restored(raw, body)
  {
    var t, rest := Join(raw, body), WithoutLeadingEols(body);
    JoinShape(raw, body);
    OpensParses(t, |raw|, |t| - |rest|);
  }

  lemma OpensParses(t: string, end: nat, b: nat)
    requires Opens(t, end) && end <= b == SkipEols(t, end) <= |t|
    ensures ParseSections(t) == Parsed(t[..end], t[b..], if b == |t| then 0 else b)
  {
    var items := Split(t).items;
    assert items[0] == Frontmatter(0, end);
    assert b < |t| ==> |items| == 2 && items[1] == Content(b, |t|);
  }

  // Whatever comes out as frontmatter is a prefix of the source, where it ends.
  lemma EmittedAs(source: string, raw: string)
    requires raw != "" && ParseSections(source).Parsed? && ParseSections(source).frontmatter == raw
    ensures Opens(source, |raw|) && raw <= source
  {
    assert Split(source).items[0].Frontmatter?;
  }

  lemma JoinShape(raw: string, body: string)
    ensures var t, rest := Join(raw, body), WithoutLeadingEols(body);
            && |raw| + 2 <= |Separated(raw)| && Separated(raw) <= t
            && t[..|raw|] == raw && SkipEols(t, |raw|) == |t| - |rest| && t[|t| - |rest|..] == rest
            && IsEol(t[|raw|]) && IsEol(t[|raw| + 1])
  {
    var t, lb, k := Join(raw, body), DetectLineBreak(raw), SkipEols(body, 0);
    var b := |raw| + 2 * |lb| + k;
    assert t == raw + (lb + lb) + body;
    SkipEolsSkipsEols(body, 0);
    forall i | |raw| <= i < b
      ensures IsEol(t[i])
    {
      assert if i < |raw| + 2 * |lb| then t[i] == (lb + lb)[i - |raw|] else t[i] == body[0..k][i - |raw| - 2 * |lb|];
    }
    assert b < |t| ==> t[b] == body[k];
    SkipsTo(t, |raw|, b);
  }

  lemma {:induction false} SkipsTo(s: string, pos: nat, b: nat)
    requires pos <= b <= |s| && (b < |s| ==> !IsEol(s[b])) && forall i :: pos <= i < b ==> IsEol(s[i])
    ensures SkipEols(s, pos) == b
    decreases b - pos
  {
    if pos == b {
    } else {
      SkipsTo(s, pos + 1, b);
    }
  }

  // ---------- what the splitter looks at ----------

  predicate Agree(s: string, t: string, end: nat) {
    end <= |s| && end <= |t| && s[..end] == t[..end]
  }

  // A brace, and no NUL among the three runes after it.
  predicate StartsClear(s: string, at: nat) {
    at < |s| && s[at] == '{' && NoNulAfter(s, at)
  }

  // The lookahead from where the scan starts sees the same in both texts, or no NUL in either.
  predicate SameStart(s: string, t: string, at: nat, end: nat) {
    Agree(s, t, end + 2) || (StartsClear(s, at) && StartsClear(t, at))
  }

  // Two texts that begin with the same runes have the same frontmatter there. For JSON the
  // lookahead has to agree as well.
  lemma SplitsAgain(s: string, t: string, end: nat)
    requires Agree(s, t, end) && Opens(s, end)
    requires Enter(s, 0).ToJson? ==> SameStart(s, t, Enter(s, 0).at, end)
    ensures Opens(t, end)
  {
    assert Split(s).items[0] == Frontmatter(0, end);
    match Enter(s, 0)
    case ToContent(_) =>
    case ToJson(at) => JsonAgain(s, t, at, end);
    case ToDelimited(at, d) => DelimitedAgain(s, t, at, d, end);
  }

  lemma SameBeginning(s: string, t: string, end: nat)
    requires end + 2 <= |s| && s <= t
    ensures Opens(s, end) <==> Opens(t, end)
  {
    assert s[..end] == t[..end] && s[..end + 2] == t[..end + 2];
    if Opens(s, end) {
      SplitsAgain(s, t, end);
    }
    if Opens(t, end) {
      SplitsAgain(t, s, end);
    }
  }

  lemma JsonAgain(s: string, t: string, at: nat, end: nat)
    requires Agree(s, t, end) && Enter(s, 0) == ToJson(at) && SameStart(s, t, at, end)
    requires ScanJson(s, at, false, 0) == Some(end)
    ensures Opens(t, end)
  {
    EnterAgain(s, t, 0, end);
    ScanSeesOnlyThePrefix(s, t, at, false, 0, end);
  }

  lemma DelimitedAgain(s: string, t: string, at: nat, d: char, end: nat)
    requires Agree(s, t, end) && Enter(s, 0) == ToDelimited(at, d) && Opens(s, end)
    ensures Opens(t, end)
  {
    OpensTakes(s, at, d, end);
    TakesAgain(s, t, at, d, end);
    EnterAgain(s, t, 0, end);
    OpensDelimited(t, at, d, end);
  }

  lemma TakesAgain(s: string, t: string, at: nat, d: char, end: nat)
    requires Agree(s, t, end) && Enter(s, 0) == ToDelimited(at, d) && Takes(s, at, d) && Takes(s, at + 1, d)
    requires SearchClosing(s, d, at + 2) == ClosedAt(end)
    ensures at + 5 <= end && Takes(t, at, d) && Takes(t, at + 1, d) && SearchClosing(t, d, at + 2) == ClosedAt(end)
  {
    EnterIsFence(s, 0);
    SameRunes(s, t, end);
    ClosingAgain(s, t, at + 2, d, end);
  }

  lemma OpensTakes(s: string, at: nat, d: char, end: nat)
    requires Enter(s, 0) == ToDelimited(at, d) && Opens(s, end)
    ensures Takes(s, at, d) && Takes(s, at + 1, d) && SearchClosing(s, d, at + 2) == ClosedAt(end)
  {
    assert Split(s).items[0] == Frontmatter(0, end);
    OpensDelimited(s, at, d, end);
  }

  lemma OpensDelimited(s: string, at: nat, d: char, end: nat)
    requires Enter(s, 0) == ToDelimited(at, d) && Takes(s, at, d) && Takes(s, at + 1, d)
    ensures Opens(s, end) <==> SearchClosing(s, d, at + 2) == ClosedAt(end)
  {
    var c := SearchClosing(s, d, at + 2);
    assert Split(s) == ItemsFor(s, c);
    assert ([Frontmatter(0, end)] + ContentItems(s, end))[0] == Frontmatter(0, end);
    assert c.ClosedAt? ==> Split(s).items[0] == Frontmatter(0, c.end);
  }

  lemma EarliestAgain(s: string, t: string, d: char, from: nat, end: nat, c: Closing)
    requires FindsEarliest(s, d, from, ClosedAt(end)) && FindsEarliest(t, d, from, c)
    requires forall q: nat :: q + 3 <= end ==> ClosesAt(s, d, from, q) == ClosesAt(t, d, from, q)
    ensures c == ClosedAt(end)
  {
    assert ClosesAt(t, d, from, end - 3);
  }

  lemma SameSlice(s: string, t: string, end: nat, q: nat)
    requires Agree(s, t, end) && q + 3 <= end
    ensures s[q..q + 3] == t[q..q + 3]
  {
    assert s[q..q + 3] == s[..end][q..q + 3] && t[q..q + 3] == t[..end][q..q + 3];
  }

  lemma SameClosing(s: string, d: char, from: nat, end: nat, t: string)
    requires Agree(s, t, end)
    ensures forall q: nat :: q + 3 <= end ==> ClosesAt(s, d, from, q) == ClosesAt(t, d, from, q)
  {
    forall q: nat | q + 3 <= end
      ensures ClosesAt(s, d, from, q) == ClosesAt(t, d, from, q)
    {
      SameSlice(s, t, end, q);
      assert q > 0 ==> s[..end][q - 1] == t[..end][q - 1];
    }
  }

  lemma ClosingAgain(s: string, t: string, from: nat, d: char, end: nat)
    requires Agree(s, t, end) && from <= end && !IsEol(d) && SearchClosing(s, d, from) == ClosedAt(end)
    ensures from + 3 <= end && SearchClosing(t, d, from) == ClosedAt(end)
  {
    ClosingIsEarliest(s, d, from);
    ClosingIsEarliest(t, d, from);
    SameClosing(s, d, from, end, t);
    EarliestAgain(s, t, d, from, end, SearchClosing(t, d, from));
  }

  lemma {:induction false} EnterIsFence(s: string, i: nat)
    requires i <= |s|
    ensures var e := Enter(s, i); e.ToDelimited? ==> e.delimiter == '+' || e.delimiter == '-'
    decreases |s| - i
  {
    if i == |s| || !Blank(s[i]) {
    } else {
      EnterBlank(s, i);
      var next := Behind(s, i);
      if next.short == 0 {
        EnterIsFence(s, next.at);
      }
    }
  }

  // Where frontmatter up to `end` starts, and what the lookahead sees there in another text.
  predicate StartsWithin(s: string, t: string, i: nat, end: nat)
    requires i <= |s|
  {
    match Enter(s, i)
    case ToContent(_) => false
    case ToJson(at) => at < end && at < |s| && (s[at] == '{' ==> at + 2 <= end) && SameStart(s, t, at, end)
    case ToDelimited(at, _) => at + 5 <= end
    case InsideRune => false
  }

  // Finding where to start looks at no rune past the frontmatter but to see that it is not NUL.
  lemma {:induction false} EnterAgain(s: string, t: string, i: nat, end: nat)
    requires i <= |s| && Agree(s, t, end) && StartsWithin(s, t, i, end)
    ensures i <= |t| && Enter(t, i) == Enter(s, i)
    decreases |s| - i
  {
    SameStep(s, t, i, end);
    if Blank(s[i]) {
      EnterBlank(s, i);
      EnterBlank(t, i);
      EnterAgain(s, t, Behind(s, i).at, end);
    } else {
      EntersSame(s, t, i);
    }
  }

  lemma SameStep(s: string, t: string, i: nat, end: nat)
    requires i <= |s| && Agree(s, t, end) && StartsWithin(s, t, i, end)
    ensures i < |s| && i < |t| && s[i] == t[i] && SamePlaces(s, t, i)
    ensures Enter(s, i).ToJson? && s[i] == '{' ==> Ahead(s, i + 1) == Ahead(t, i + 1)
    ensures Enter(s, i).ToDelimited? ==> Ahead(s, i + 1) == Ahead(t, i + 1) && Ahead(s, i + 2) == Ahead(t, i + 2)
  {
    SameRunes(s, t, end);
    EntersAt(s, i);
    var entry := Enter(s, i);
    if entry.ToJson? {
      SameWindow(s, t, i, entry.at, end);
    }
    PlacesAgain(s, t, i);
  }

  lemma EntersSame(s: string, t: string, i: nat)
    requires i < |s| && i < |t| && s[i] == t[i] && !Blank(s[i]) && SamePlaces(s, t, i)
    requires match Enter(s, i)
             case ToContent(_) => false
             case ToJson(_) => s[i] == '{' ==> Ahead(s, i + 1) == Ahead(t, i + 1)
             case ToDelimited(_, _) => Ahead(s, i + 1) == Ahead(t, i + 1) && Ahead(s, i + 2) == Ahead(t, i + 2)
             case InsideRune => false
    ensures Enter(t, i) == Enter(s, i)
  {
  }

  lemma SameRunes(s: string, t: string, end: nat)
    requires Agree(s, t, end)
    ensures forall k :: 0 <= k < end ==> t[k] == s[k]
  {
    assert forall k :: 0 <= k < end ==> t[k] == t[..end][k] == s[..end][k] == s[k];
  }

  // The lookahead from behind `i` sees the same runes, or no NUL.
  predicate SameAhead(s: string, t: string, i: nat) {
    || (i + 3 < |s| && i + 3 < |t| && s[i + 1] == t[i + 1] && s[i + 2] == t[i + 2] && s[i + 3] == t[i + 3])
    || (NoNulAfter(s, i) && NoNulAfter(t, i))
  }

  predicate SamePlaces(s: string, t: string, i: nat)
    requires i < |s| && i < |t|
  {
    Behind(t, i) == Behind(s, i) && Before(t, i) == Before(s, i)
  }

  lemma PlacesAgain(s: string, t: string, i: nat)
    requires SameAhead(s, t, i) && i < |s| && i < |t| && s[i] == t[i]
    ensures SamePlaces(s, t, i)
  {
    if NoNulAfter(s, i) && NoNulAfter(t, i) {
    } else {
      var bytes := BackedUp(s, i + 1);
      LookaheadSpan(s, i + 1);
      SpanFirst(s, i, i + 4);
      assert BackedUp(t, i + 1) == bytes;
      BackAgain(s, t, i, i + 4, bytes);
      BackAgain(s, t, i, i + 4, bytes + Width(s[i]));
    }
  }

  lemma {:induction false} BackAgain(s: string, t: string, from: nat, end: nat, bytes: nat)
    requires from <= end <= |s| && end <= |t| && bytes <= Span(s, from, end)
    requires forall k :: from <= k < end ==> s[k] == t[k]
    ensures Back(t, end, bytes) == Back(s, end, bytes)
    decreases end
  {
    if from == end {
    } else if Width(s[end - 1]) <= bytes {
      BackAgain(s, t, from, end - 1, bytes - Width(s[end - 1]));
    }
  }

  // The scan starts at the brace or, behind a NUL, after it.
  lemma EntersAt(s: string, i: nat)
    requires i < |s|
    ensures match Enter(s, i)
            case ToContent(_) => true
            case ToJson(at) => at > i || s[i] == '{'
            case ToDelimited(at, _) => at > i
            case InsideRune => true
  {
  }

  // Where the lookahead may reach past the common part, it starts at the brace or just before.
  lemma SameWindow(s: string, t: string, i: nat, at: nat, end: nat)
    requires Agree(s, t, end) && i <= at < end && (s[at] == '{' ==> at + 2 <= end)
    requires SameStart(s, t, at, end) && (at > i || s[at] == '{')
    ensures SameAhead(s, t, i)
  {
    if Agree(s, t, end + 2) {
      SameRunes(s, t, end + 2);
    } else {
      SameRunes(s, t, end);
      if at <= i + 1 {
        assert NoNulAfter(s, i) && NoNulAfter(t, i);
      }
    }
  }

  // The scanner depends on the text up to where it stops. Past the first brace it never
  // stops on an escape, and elsewhere an escape is not cut short where more text follows.
  lemma {:induction false} ScanSeesOnlyThePrefix(s: string, t: string, pos: nat, inQuote: bool, level: int, end: nat)
    requires ScanJson(s, pos, inQuote, level) == Some(end) && Agree(s, t, end)
    requires (end < |s| && end < |t|) || level >= 1 || (level == 0 && !inQuote && s[pos] == '{')
    ensures ScanJson(t, pos, inQuote, level) == Some(end)
    decreases |s| - pos
  {
    assert s[..end][pos] == t[..end][pos];
    var r := s[pos];
    var level' := if inQuote then level else if r == '{' then level + 1 else if r == '}' then level - 1 else level;
    if level' == 0 {
    } else {
      var pos' := if r == '\\' && pos + 1 < |s| then pos + 2 else pos + 1;
      ScanSeesOnlyThePrefix(s, t, pos', if r == '"' then !inQuote else inQuote, level', end);
    }
  }

  // ---------- which frontmatter survives ----------

  // Where the JSON scan starts there is a brace, and no NUL among the three runes after it.
  // Delimited frontmatter is under no such condition.
  predicate ScanStartsClear(s: string) {
    var entry := Enter(s, 0);
    entry.ToJson? ==> StartsClear(s, entry.at)
  }

  // Whatever the splitter has emitted from such a source comes back with every body.
  lemma SplitUndoesJoin(source: string, raw: string, body: string)
    requires ScanStartsClear(source)
    requires raw != "" && ParseSections(source).Parsed? && ParseSections(source).frontmatter == raw
    ensures Restored(raw, body)
  {
    var t, n := Separated(raw), |raw|;
    JoinShape(raw, "");
    assert Join(raw, "") == t;
    EmittedAs(source, raw);
    var entry := Enter(source, 0);
    if entry.ToJson? {
      StartsClearAgain(source, t, entry.at, n);
    }
    SplitsAgain(source, t, n);
    OpensSeparated(raw);
    RoundTripDecided(raw, body);
  }

  lemma StartsClearAgain(s: string, t: string, at: nat, end: nat)
    requires Agree(s, t, end) && StartsClear(s, at) && ScanJson(s, at, false, 0) == Some(end)
    requires end + 2 <= |t| && IsEol(t[end]) && IsEol(t[end + 1])
    ensures StartsClear(t, at)
  {
    SameRunes(s, t, end);
    assert at + 2 <= end;
  }

  // A source without NUL always meets the condition.
  lemma NulFreeStartsClear(s: string)
    requires NulFree(s)
    ensures ScanStartsClear(s)
  {
    var k := Lead(s, 0);
    assert NulFree(s[..Min(k + 4, |s|)]);
    EnterDecides(s, k);
    Spell(s, k);
  }

  // Frontmatter that ends where its syntax says: at the earliest closing delimiter, or where
  // the scan from the brace stops.
  ghost predicate Complete(raw: string) {
    var k := Lead(raw, 0);
    match Classify(raw, k)
    case ToContent(_) => false
    case ToJson(at) => ScanJson(raw, at, false, 0) == Some(|raw|)
    case ToDelimited(_, d) => FindsEarliest(raw, d, k + 3, ClosedAt(|raw|))
  }

  // Text without NUL, wherever it comes from, is restored if and only if it is complete.
  lemma CompleteSurvives(raw: string, body: string)
    requires raw != "" && NulFree(raw)
    ensures Restored(raw, body) <==> Complete(raw)
  {
    RoundTripDecided(raw, body);
    OpensSeparated(raw);
    OpensIfComplete(raw);
  }

  lemma OpensIfComplete(raw: string)
    requires NulFree(raw)
    ensures Opens(Separated(raw), |raw|) <==> Complete(raw)
  {
    var t, k := Separated(raw), Lead(raw, 0);
    SeparatedBegins(raw, k);
    ClassifySpells(raw, k);
    match Classify(raw, k)
    case ToContent(_) => ContentDoesNotOpen(t, |raw|);
    case ToJson(_) => JsonComplete(raw, k);
    case ToDelimited(_, d) => DelimitedComplete(raw, k, d);
  }

  lemma ClassifySpells(raw: string, k: nat)
    requires k <= |raw|
    ensures match Classify(raw, k)
            case ToContent(_) => true
            case ToJson(at) => at == k < |raw| && raw[k] == '{'
            case ToDelimited(at, d) => at == k + 1 && (d == '+' || d == '-') && PrefixAt(raw, k, Fence(d))
            case InsideRune => false
  {
    Spell(raw, k);
  }

  // The line breaks that follow take no part in the decision where to start.
  lemma SeparatedBegins(raw: string, k: nat)
    requires NulFree(raw) && LeadEnds(raw, k)
    ensures Enter(Separated(raw), 0).ToContent? <==> Classify(raw, k).ToContent?
    ensures !Classify(raw, k).ToContent? ==> k < |raw| && Enter(Separated(raw), 0) == Classify(raw, k)
  {
    var t := Separated(raw);
    SeparatedRunes(raw);
    if k < |raw| {
      assert t[..k] == raw[..k] && t[k] == raw[k];
      EnterDecides(t, k);
      Spell(t, k);
      Spell(raw, k);
    } else {
      assert raw[..k] == raw;
      assert t[..|t|] == t;
      EnterDecides(t, |t|);
    }
  }

  lemma SeparatedRunes(raw: string)
    ensures var t := Separated(raw);
            && |t| >= |raw| + 2 && t[..|raw|] == raw && (forall i :: 0 <= i < |raw| ==> t[i] == raw[i])
            && forall i :: |raw| <= i < |t| ==> IsEol(t[i])
  {
    var lb := DetectLineBreak(raw);
    assert Separated(raw) == raw + (lb + lb);
  }

  lemma ContentDoesNotOpen(t: string, end: nat)
    requires Enter(t, 0).ToContent?
    ensures !Opens(t, end)
  {
    assert Split(t) == Items(ContentItems(t, Enter(t, 0).at));
    assert ([Frontmatter(0, end)] + ContentItems(t, end))[0] == Frontmatter(0, end);
  }

  lemma JsonComplete(raw: string, k: nat)
    requires k < |raw| && raw[k] == '{' && Enter(Separated(raw), 0) == ToJson(k)
    ensures Opens(Separated(raw), |raw|) <==> ScanJson(raw, k, false, 0) == Some(|raw|)
  {
    var t, n := Separated(raw), |raw|;
    assert Agree(raw, t, n);
    if ScanJson(raw, k, false, 0) == Some(n) {
      ScanSeesOnlyThePrefix(raw, t, k, false, 0, n);
    }
    if Opens(t, n) {
      assert Split(t).items[0] == Frontmatter(0, n);
      assert t[k] == raw[k];
      ScanSeesOnlyThePrefix(t, raw, k, false, 0, n);
    }
  }

  lemma DelimitedComplete(raw: string, k: nat, d: char)
    requires k < |raw| && PrefixAt(raw, k, Fence(d)) && Enter(Separated(raw), 0) == ToDelimited(k + 1, d)
    requires d == '+' || d == '-'
    ensures Opens(Separated(raw), |raw|) <==> FindsEarliest(raw, d, k + 3, ClosedAt(|raw|))
  {
    var t, n := Separated(raw), |raw|;
    SeparatedRunes(raw);
    FenceIsTaken(raw, t, k, d);
    OpensDelimited(t, k + 1, d, n);
    ClosingIsEarliest(t, d, k + 3);
    assert raw[..n] == t[..n];
    EarliestIff(raw, t, d, k + 3, n, SearchClosing(t, d, k + 3));
  }

  lemma FenceIsTaken(raw: string, t: string, k: nat, d: char)
    requires k < |raw| <= |t| && PrefixAt(raw, k, Fence(d)) && forall i :: 0 <= i < |raw| ==> t[i] == raw[i]
    ensures Takes(t, k + 1, d) && Takes(t, k + 2, d)
  {
    assert raw[k..k + 3][1] == raw[k + 1] && raw[k..k + 3][2] == raw[k + 2];
  }

  lemma EarliestIff(s: string, t: string, d: char, from: nat, end: nat, c: Closing)
    requires Agree(s, t, end) && FindsEarliest(t, d, from, c)
    ensures c == ClosedAt(end) <==> FindsEarliest(s, d, from, ClosedAt(end))
  {
    SameClosing(s, d, from, end, t);
    if FindsEarliest(s, d, from, ClosedAt(end)) {
      EarliestAgain(s, t, d, from, end, c);
    }
  }

  // A NUL in the source may make the splitter cut somewhere else. Such frontmatter comes
  // back with no body at all.
  lemma NulBreaksTheRoundTrip(body: string)
    ensures ParseSections("{x\0") == Parsed("{x", "\0", 2)
    ensures !Restored("{x", body)
  {
    CutAtNul();
    NeverClosed();
    CompleteSurvives("{x", body);
  }

  lemma CutAtNul()
    ensures ParseSections("{x\0") == Parsed("{x", "\0", 2)
  {
    var s := "{x\0";
    assert Back(s, 3, 2) == Back(s, 2, 1) == Back(s, 1, 0) == Place(1, 0);
    assert Enter(s, 0) == ToJson(1);
    assert ScanJson(s, 1, false, 0) == Some(2);
    assert ContentItems(s, 2) == [Content(2, 3)];
  }

  lemma NeverClosed()
    ensures !Complete("{x")
  {
    var raw := "{x";
    assert Lead(raw, 0) == 0;
    Spell(raw, 0);
    assert ScanJson(raw, 1, false, 1) == None;
  }
}
