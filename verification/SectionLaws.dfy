// What ParseSections returns for every kind of document, and where the brace scanner stops, both
// stated on the text alone.
module SectionLaws {
  import opened Basics
  import opened Splitter
  import opened SplitterLaws

  // ---------- where the braces balance ----------

  // The backslashes straight before `i`; an odd number of them escapes the rune at `i`.
  function Backslashes(s: string, from: nat, i: nat): nat
    requires from <= i <= |s|
  {
    if i > from && s[i - 1] == '\\' then 1 + Backslashes(s, from, i - 1) else 0
  }

  predicate Escaped(s: string, from: nat, i: nat)
    requires from <= i <= |s|
  {
    Backslashes(s, from, i) % 2 == 1
  }

  // The quotes that open or close a string before `i`.
  function Quotes(s: string, from: nat, i: nat): nat
    requires from <= i <= |s|
  {
    if i == from then 0
    else Quotes(s, from, i - 1) + if s[i - 1] == '"' && !Escaped(s, from, i - 1) then 1 else 0
  }

  // The braces open before `i`, not counting escaped ones and those inside strings.
  function Depth(s: string, from: nat, i: nat): int
    requires from <= i <= |s|
  {
    if i == from then 0
    else
      var counts := !Escaped(s, from, i - 1) && Quotes(s, from, i - 1) % 2 == 0;
      Depth(s, from, i - 1) + if counts && s[i - 1] == '{' then 1 else if counts && s[i - 1] == '}' then -1 else 0
  }

  // Some brace has been open ever since `from`.
  ghost predicate OpenUpTo(s: string, from: nat, pos: nat)
    requires pos <= |s|
  {
    forall j :: from < j <= pos ==> Depth(s, from, j) != 0
  }

  // The earliest end at which every brace from `from` on is closed.
  ghost predicate BalancedAt(s: string, from: nat, end: nat) {
    from < end <= |s| && Depth(s, from, end) == 0 && OpenUpTo(s, from, end - 1)
  }

  // A backslash and the rune it escapes change nothing.
  lemma AfterEscape(s: string, from: nat, pos: nat)
    requires from <= pos < |s| && !Escaped(s, from, pos) && s[pos] == '\\'
    ensures Depth(s, from, pos + 1) == Depth(s, from, pos)
    ensures pos + 1 < |s| ==>
              && !Escaped(s, from, pos + 2)
              && Quotes(s, from, pos + 2) == Quotes(s, from, pos)
              && Depth(s, from, pos + 2) == Depth(s, from, pos)
  {
    assert Backslashes(s, from, pos + 1) == 1 + Backslashes(s, from, pos);
    assert Escaped(s, from, pos + 1);
    assert Quotes(s, from, pos + 1) == Quotes(s, from, pos);
  }

  lemma AfterPlain(s: string, from: nat, pos: nat)
    requires from <= pos < |s| && !Escaped(s, from, pos) && s[pos] != '\\'
    ensures !Escaped(s, from, pos + 1)
    ensures Quotes(s, from, pos + 1) == Quotes(s, from, pos) + if s[pos] == '"' then 1 else 0
    ensures Depth(s, from, pos + 1)
         == Depth(s, from, pos)
            + if Quotes(s, from, pos) % 2 == 1 then 0 else if s[pos] == '{' then 1 else if s[pos] == '}' then -1 else 0
  {
  }

  lemma ScanEscape(s: string, pos: nat, inQuote: bool, level: int)
    requires pos < |s| && s[pos] == '\\' && level != 0
    ensures ScanJson(s, pos, inQuote, level)
         == if pos + 1 < |s| then ScanJson(s, pos + 2, inQuote, level) else None
  {
  }

  lemma ScanPlain(s: string, pos: nat, inQuote: bool, level: int)
    requires pos < |s| && s[pos] != '\\'
    ensures var level' := level + if inQuote then 0 else if s[pos] == '{' then 1 else if s[pos] == '}' then -1 else 0;
            ScanJson(s, pos, inQuote, level)
            == if level' == 0 then Some(pos + 1) else ScanJson(s, pos + 1, inQuote != (s[pos] == '"'), level')
  {
  }

  // What the scanner finds from `pos` on, given what it has read.
  function ScanAt(s: string, from: nat, pos: nat): Option<nat>
    requires from <= pos <= |s|
  {
    ScanJson(s, pos, Quotes(s, from, pos) % 2 == 1, Depth(s, from, pos))
  }

  lemma ScanAtEscape(s: string, from: nat, pos: nat)
    requires from <= pos < |s| && !Escaped(s, from, pos) && s[pos] == '\\' && Depth(s, from, pos) != 0
    ensures ScanAt(s, from, pos) == if pos + 1 < |s| then ScanAt(s, from, pos + 2) else None
  {
    AfterEscape(s, from, pos);
    ScanEscape(s, pos, Quotes(s, from, pos) % 2 == 1, Depth(s, from, pos));
  }

  lemma ScanAtPlain(s: string, from: nat, pos: nat)
    requires from <= pos < |s| && !Escaped(s, from, pos) && s[pos] != '\\'
    ensures ScanAt(s, from, pos)
         == if Depth(s, from, pos + 1) == 0 then Some(pos + 1) else ScanAt(s, from, pos + 1)
  {
    AfterPlain(s, from, pos);
    ScanPlain(s, pos, Quotes(s, from, pos) % 2 == 1, Depth(s, from, pos));
  }

  lemma {:induction false} ScanFollowsDepth(s: string, from: nat, pos: nat)
    requires from < pos <= |s| && !Escaped(s, from, pos) && OpenUpTo(s, from, pos)
    ensures match ScanAt(s, from, pos)
            case Some(end) => BalancedAt(s, from, end)
            case None => OpenUpTo(s, from, |s|)
    decreases |s| - pos
  {
    assert Depth(s, from, pos) != 0;
    if pos == |s| {
    } else if s[pos] == '\\' {
      AfterEscape(s, from, pos);
      ScanAtEscape(s, from, pos);
      if pos + 1 < |s| {
        ScanFollowsDepth(s, from, pos + 2);
      }
    } else {
      AfterPlain(s, from, pos);
      ScanAtPlain(s, from, pos);
      if Depth(s, from, pos + 1) != 0 {
        ScanFollowsDepth(s, from, pos + 1);
      }
    }
  }

  // The scanner stops where the braces first balance, and fails exactly if they never do.
  lemma ScanIsBalance(s: string, from: nat)
    requires from < |s| && s[from] == '{'
    ensures forall end: nat :: ScanJson(s, from, false, 0) == Some(end) <==> BalancedAt(s, from, end)
    ensures ScanJson(s, from, false, 0) == None <==> forall end: nat :: !BalancedAt(s, from, end)
  {
    AfterPlain(s, from, from);
    ScanAtPlain(s, from, from);
    ScanFollowsDepth(s, from, from + 1);
    var end := ScanAt(s, from, from);
    if end.Some? {
      assert BalancedAt(s, from, end.value);
      forall e: nat | BalancedAt(s, from, e)
        ensures e == end.value
      {
      }
    }
  }

  // ---------- what ParseSections returns ----------

  // The frontmatter ends at `end`; the content follows after all line breaks there.
  ghost predicate CutAt(s: string, end: nat, r: Sections) {
    exists b :: end <= b <= |s| && All(s[end..b], IsEol) && (b < |s| ==> !IsEol(s[b]))
                && r == Parsed(s[..end], s[b..], if b == |s| then 0 else b)
  }

  lemma OpensIsCut(s: string, end: nat)
    requires 0 < end <= |s| && Opens(s, end)
    ensures CutAt(s, end, ParseSections(s))
  {
    SkipEolsSkipsEols(s, end);
    OpensParses(s, end, SkipEols(s, end));
  }

  // No line behind `from` starts with a closing delimiter.
  ghost predicate NeverCloses(s: string, d: char, from: nat) {
    forall q :: !ClosesAt(s, d, from, q)
  }

  ghost predicate ClosesFirstAt(s: string, d: char, from: nat, q: nat) {
    ClosesAt(s, d, from, q) && forall j :: from < j < q ==> !ClosesAt(s, d, from, j)
  }

  // A document that opens with a delimiter: without a closing one it is an error, otherwise it is
  // cut behind the first.
  lemma DelimitedSections(s: string, k: nat, d: char, q: nat)
    requires LeadEnds(s, k) && NulFree(s[..Min(k + 4, |s|)])
    requires (d == '+' || d == '-') && PrefixAt(s, k, Fence(d)) && !(|s| == k + 4 && s[k + 3] == '\r')
    ensures ParseSections(s).Failed? <==> NeverCloses(s, d, k + 3)
    ensures ParseSections(s).Failed? ==> ParseSections(s) == Failed(UnclosedDelimiter)
    ensures ClosesFirstAt(s, d, k + 3, q) ==> CutAt(s, q + 3, ParseSections(s))
  {
    var c := DelimitedBy(s, k, d);
    SectionsFor(s, d, k + 3, c, q);
  }

  lemma SectionsFor(s: string, d: char, from: nat, c: Closing, q: nat)
    requires FindsEarliest(s, d, from, c) && Split(s) == ItemsFor(s, c)
    ensures ParseSections(s).Failed? <==> NeverCloses(s, d, from)
    ensures ParseSections(s).Failed? ==> ParseSections(s) == Failed(UnclosedDelimiter)
    ensures ClosesFirstAt(s, d, from, q) ==> CutAt(s, q + 3, ParseSections(s))
  {
    match c
    case Unclosed => UnclosedFails(s);
    case ClosedAt(end) =>
      OpensIsCut(s, end);
      assert ClosesAt(s, d, from, end - 3);
  }

  lemma UnclosedFails(s: string)
    requires Split(s) == Items([Failure(UnclosedDelimiter)])
    ensures ParseSections(s) == Failed(UnclosedDelimiter)
  {
  }

  // One that opens with a brace: an error if the braces never balance, otherwise cut where they do.
  lemma JsonSections(s: string, k: nat, end: nat)
    requires LeadEnds(s, k) && NulFree(s[..Min(k + 4, |s|)])
    requires PrefixAt(s, k, "{") && !PrefixAt(s, k, "{{") && !PrefixAt(s, k, "{%")
    ensures ParseSections(s).Failed? <==> forall e: nat :: !BalancedAt(s, k, e)
    ensures ParseSections(s).Failed? ==> ParseSections(s) == Failed(UnclosedJson)
    ensures BalancedAt(s, k, end) ==> CutAt(s, end, ParseSections(s))
  {
    EnterDecides(s, k);
    Spell(s, k);
    ScanIsBalance(s, k);
    var found := ScanJson(s, k, false, 0);
    if found.Some? {
      assert BalancedAt(s, k, found.value);
      OpensIsCut(s, found.value);
    }
  }

  // Any other document is content from its first text on.
  lemma ContentSections(s: string, k: nat)
    requires LeadEnds(s, k) && NulFree(s[..Min(k + 4, |s|)]) && !FenceAt(s, k)
    requires !PrefixAt(s, k, "{") || PrefixAt(s, k, "{{") || PrefixAt(s, k, "{%")
    ensures ParseSections(s) == if k < |s| then Parsed("", s[k..], k) else Parsed("", "", 0)
  {
    EnterDecides(s, k);
    assert SkipEols(s, k) == k;
    assert s[k..] == s[k..|s|];
  }

  // The one kind of document that crashes.
  lemma CrashedSections(s: string)
    requires LookaheadClear(s)
    ensures ParseSections(s) == Crashed <==>
              var k := Lead(s, 0);
              |s| == k + 4 && s[k + 3] == '\r' && FenceAt(s, k)
    ensures ParseSections(s) != Strayed
  {
    CrashesExactly(s);
    CrashIsPassedOn(s);
  }

  lemma CrashIsPassedOn(s: string)
    ensures ParseSections(s) == Crashed <==> Split(s) == Crash
    ensures ParseSections(s) == Strayed <==> Split(s) == Astray
  {
  }
}
