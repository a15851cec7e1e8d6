// The parser object of document/parser.go and document/parser_frontmatter.go: state
// functions that move `pos` and `start` and append items. Running it is proved to leave
// exactly the items that `Splitter.Split` describes.
//
// The source counts positions in bytes. Here a position is the rune `pos`, or `short` bytes before
// it; only backing up can end inside a rune.
module ItemParser {
  import opened Basics
  import opened Splitter
  import opened Text

  // The state functions a state function may hand over to.
  datatype StateFn = ParseInit | ParseJson | ParseContent | ParseFinish | Stop | Panic | Stray

  class ItemParser {
    const input: string
    var items: seq<Item>
    var pos: nat
    var short: nat
    var start: nat

    constructor (input: string)
      ensures this.input == input && items == [] && pos == 0 && short == 0 && start == 0
    {
      this.input := input;
      items, pos, short, start := [], 0, 0, 0;
    }

    method Next() returns (r: Rune)
      requires short == 0
      modifies `pos
      ensures r == if old(pos) < |input| then Rune(input[old(pos)]) else Eof
      ensures pos == if old(pos) < |input| then old(pos) + 1 else old(pos)
    {
      if pos >= |input| { return Eof; }
      r := Rune(input[pos]);
      pos := pos + 1;
    }

    // Goes back by the width of the rune, whatever rune stands there. The end-of-input marker
    // has width -1, so backing it up moves forward.
    method Backup(r: Rune)
      requires if r.Rune? then pos <= |input| else short == 0
      modifies `pos, `short
      ensures r.Eof? ==> pos == old(pos) + 1 && short == 0
      ensures r.Rune? ==> Place(pos, short) == Back(input, old(pos), old(short) + Width(r.c))
    {
      if r.Eof? {
        pos := pos + 1;
        return;
      }
      var p := Back(input, pos, short + Width(r.c));
      pos, short := p.at, p.short;
    }

    // consume(crlf)
    method Consume() returns (consumed: bool)
      requires short == 0
      modifies `pos, `short
      ensures short == 0 && pos == ConsumeEol(input, old(pos))
      ensures consumed == ConsumesEol(input, old(pos))
    {
      consumed := false;
      var runes := "\r\n";
      var i := 0;
      while i < 2
        invariant 0 <= i <= 2 && short == 0
        invariant pos
               == if i == 0 then old(pos)
                  else if i == 1 then TryRune(input, old(pos), '\r')
                  else ConsumeEol(input, old(pos))
        invariant consumed
               == if i == 0 then false
                  else if i == 1 then Takes(input, old(pos), '\r')
                  else ConsumesEol(input, old(pos))
      {
        var n := Next();
        assert n.Rune? ==> Back(input, pos, Width(n.c)) == Place(pos - 1, 0);
        if n != Rune(runes[i]) {
          Backup(n);
        } else {
          consumed := true;
        }
        i := i + 1;
      }
    }

    method Emit(item: Item)
      requires item == Frontmatter(start, pos) || item == Content(start, pos)
      modifies `items, `start
      ensures items == old(items) + [item] && start == pos
    {
      items := items + [item];
      start := pos;
    }

    method Error(err: ParseError)
      modifies `items
      ensures items == old(items) + [Failure(err)]
    {
      items := items + [Failure(err)];
    }

    method Ignore()
      modifies `start
      ensures start == pos
    {
      start := pos;
    }

    // What each state function may assume when it is entered: the items so far, and the
    // ones that the rest of the run will add, are those of the splitter.
    ghost predicate OnTrack(state: StateFn)
      reads this
    {
      match state
      case ParseInit => pos == 0 && short == 0 && start == 0 && items == []
      case ParseJson =>
        && pos <= |input| && short == 0 && start == 0 && items == []
        && Split(input) == JsonItems(input, pos)
      case ParseContent => short == 0 && Split(input) == Items(items + ContentItems(input, pos))
      case ParseFinish =>
        && pos == |input|
        && Split(input) == Items(items + if pos > start then [Content(start, pos)] else [])
      case Stop => Split(input) == Items(items)
      case Panic => Split(input) == Crash
      case Stray => Split(input) == Astray
    }

    method ParseInitState() returns (next: StateFn)
      requires OnTrack(ParseInit)
      modifies this
      ensures OnTrack(next) && Rank(next) < Rank(ParseInit)
    {
      var entry := SkipLead();
      match entry
      case ToContent(_) => return ParseContent;
      case ToJson(_) => return ParseJson;
      case ToDelimited(_, delimiter) => next := RawFrontmatter(delimiter);
      case InsideRune => return Stray;
    }

    // Where the position is, to go on from there in one of three ways, unless it is inside a rune.
    function Here(): Place
      reads this
    {
      Place(pos, short)
    }

    // The loop of parseInit: skip blanks until the first text decides how to go on.
    method SkipLead() returns (entry: Entry)
      requires pos == 0 && short == 0
      modifies `pos, `short
      ensures entry == Enter(input, 0) && (!entry.InsideRune? ==> short == 0 && pos == entry.at)
    {
      while true
        invariant pos <= |input| && short == 0 && Enter(input, 0) == Enter(input, pos)
        decreases |input| - pos
      {
        ghost var i := pos;
        var r0 := Next();
        if r0.Eof? { return ToContent(pos); }
        var c := r0.c;
        var r1, r2, r3 := LookAhead();
        assert Here() == Behind(input, i);
        if c == '+' && r1 == '+' && r2 == '+' {
          return DelimitedFrom(Here(), c);
        } else if c == '-' && r1 == '-' && r2 == '8' && r3 == '<' {
          BackupFirst(r0, i);
          return ContentFrom(Here());
        } else if c == '-' && r1 == '-' && r2 == '-' {
          return DelimitedFrom(Here(), c);
        } else if c == '{' && r1 == '{' {
          BackupFirst(r0, i);
          return ContentFrom(Here());
        } else if c == '{' && r1 == '%' {
          BackupFirst(r0, i);
          return ContentFrom(Here());
        } else if c == '{' {
          BackupFirst(r0, i);
          return JsonFrom(Here());
        } else if c == BOM {
        } else if !IsSpace(c) && !IsEol(c) {
          BackupFirst(r0, i);
          return ContentFrom(Here());
        }
        if short > 0 { return InsideRune; }
      }
    }

    // Backing up the rune before the lookahead, too.
    method BackupFirst(r0: Rune, ghost i: nat)
      requires i < |input| && r0 == Rune(input[i]) && Here() == Behind(input, i)
      modifies `pos, `short
      ensures Here() == Before(input, i)
    {
      BackTwice(input, ReadTo(input, i + 1), BackedUp(input, i + 1), Width(input[i]));
      Backup(r0);
    }

    // Reads up to three runes and backs up those before the first NUL.
    method LookAhead() returns (r1: char, r2: char, r3: char)
      requires pos <= |input| && short == 0
      modifies `pos, `short
      ensures r1 == Ahead(input, old(pos)) && r2 == Ahead(input, old(pos) + 1) && r3 == Ahead(input, old(pos) + 2)
      ensures Here() == Back(input, ReadTo(input, old(pos)), BackedUp(input, old(pos)))
    {
      var ahead := ReadAhead();
      r1, r2, r3 := ahead[0], ahead[1], ahead[2];
      BackupAhead(ahead);
      WidthOfFew(ahead);
    }

    method ReadAhead() returns (ahead: seq<char>)
      requires pos <= |input| && short == 0
      modifies `pos
      ensures pos == ReadTo(input, old(pos))
      ensures |ahead| == 3 && forall k :: 0 <= k < 3 ==> ahead[k] == Ahead(input, old(pos) + k)
    {
      ahead := [NUL, NUL, NUL];
      var i := 0;
      while i < 3
        invariant 0 <= i <= 3 && |ahead| == 3 && pos == old(pos) + i <= |input|
        invariant forall k :: 0 <= k < i ==> ahead[k] == input[old(pos) + k]
        invariant forall k :: i <= k < 3 ==> ahead[k] == NUL
      {
        var next := Next();
        if next.Eof? { break; }
        ahead := ahead[i := next.c];
        i := i + 1;
      }
    }

    method BackupAhead(ahead: seq<char>)
      requires pos <= |input| && short == 0
      modifies `pos, `short
      ensures Here() == Back(input, old(pos), WidthOf(BeforeNul(ahead)))
    {
      var i := 0;
      while i < |ahead| && ahead[i] != NUL
        invariant 0 <= i <= |ahead| && pos <= |input|
        invariant forall k :: 0 <= k < i ==> ahead[k] != NUL
        invariant Here() == Back(input, old(pos), WidthOf(ahead[..i]))
      {
        BackTwice(input, old(pos), WidthOf(ahead[..i]), Width(ahead[i]));
        WidthOfOneMore(ahead, i);
        Backup(Rune(ahead[i]));
        i := i + 1;
      }
      assert BeforeNul(ahead) == ahead[..i];
    }

    method RawFrontmatter(delimiter: char) returns (next: StateFn)
      requires pos <= |input| && short == 0 && start == 0 && items == []
      requires Split(input) == DelimitedItems(input, pos, delimiter)
      modifies this
      ensures OnTrack(next) && Rank(next) < Rank(ParseJson)
    {
      ghost var at := pos;
      var i := 0;
      while i < 2
        invariant 0 <= i <= 2 && pos == at + i <= |input|
        invariant forall k :: at <= k < at + i ==> Takes(input, k, delimiter)
        invariant start == 0 && items == [] && short == 0
      {
        var r := Next();
        if r != Rune(delimiter) {
          Error(NotFrontmatter);
          return Stop;
        }
        i := i + 1;
      }

      var wasEol := Consume();
      next := SeekClosing(delimiter, wasEol, at);
    }

    // The search for the closing delimiter, from just after the opening one.
    method SeekClosing(delimiter: char, eol: bool, ghost at: nat) returns (next: StateFn)
      requires short == 0 && start == 0 && items == []
      requires Split(input) == DelimitedItems(input, at, delimiter)
      requires Takes(input, at, delimiter) && Takes(input, at + 1, delimiter)
      requires pos == ConsumeEol(input, at + 2) && eol == ConsumesEol(input, at + 2)
      modifies this
      ensures OnTrack(next) && Rank(next) < Rank(ParseJson)
    {
      var wasEol := eol;
      ghost var closing := FindClosing(input, delimiter, pos, wasEol);
      while true
        invariant short == 0 && start == 0 && items == []
        invariant FindClosing(input, delimiter, pos, wasEol) == closing
        decreases |input| + 1 - pos, wasEol
      {
        var r := Eof;
        if !wasEol {
          r := Next();
          if r.Eof? {
            Error(UnclosedDelimiter);
            return Stop;
          }
        }
        if wasEol || IsEol(r.c) {
          if pos > |input| { return Panic; }
          if PrefixAt(input, pos, Fence(delimiter)) {
            pos := pos + 3;
            EmitFrontmatter();
            return ParseContent;
          }
        }
        wasEol := false;
      }
    }

    method ParseJsonState() returns (next: StateFn)
      requires OnTrack(ParseJson)
      modifies this
      ensures OnTrack(next) && Rank(next) < Rank(ParseJson)
    {
      var inQuote, level := false, 0;
      ghost var end := ScanJson(input, pos, inQuote, level);
      while true
        invariant pos <= |input| && short == 0 && start == 0 && items == []
        invariant ScanJson(input, pos, inQuote, level) == end
        decreases |input| - pos
      {
        var r := Next();
        if r.Eof? {
          Error(UnclosedJson);
          return Stop;
        } else if r.c == '{' {
          if !inQuote { level := level + 1; }
        } else if r.c == '}' {
          if !inQuote { level := level - 1; }
        } else if r.c == '"' {
          inQuote := !inQuote;
        } else if r.c == '\\' {
          var _ := Next();
        }
        if level == 0 { break; }
      }
      EmitFrontmatter();
      return ParseContent;
    }

    // The tail that both frontmatter states share: emit, then skip one line break.
    method EmitFrontmatter()
      requires short == 0 && start == 0 && items == []
      requires Split(input) == Items([Frontmatter(0, pos)] + ContentItems(input, pos))
      modifies this
      ensures OnTrack(ParseContent)
    {
      Emit(Frontmatter(start, pos));
      AfterConsume(input, pos);
      var _ := Consume();
      Ignore();
    }

    method ParseContentState() returns (next: StateFn)
      requires OnTrack(ParseContent)
      modifies `pos, `short, `start
      ensures OnTrack(next) && Rank(next) < Rank(ParseContent)
    {
      var consumed := true;
      while consumed
        invariant short == 0 && ContentItems(input, pos) == ContentItems(input, old(pos))
        invariant !consumed && pos <= |input| ==> SkipEols(input, pos) == pos
        decreases if consumed then 1 else 0, |input| + 1 - pos
      {
        AfterConsume(input, pos);
        consumed := Consume();
      }
      Ignore();
      pos := |input|;
      return ParseFinish;
    }

    method ParseFinishState() returns (next: StateFn)
      requires OnTrack(ParseFinish)
      modifies `items, `start
      ensures OnTrack(next) && Rank(next) < Rank(ParseFinish)
    {
      if pos > start {
        Emit(Content(start, pos));
      }
      return Stop;
    }

    // runItemParser(l, parseInit)
    method Run() returns (outcome: Outcome)
      requires OnTrack(ParseInit)
      modifies this
      ensures outcome == Split(input) && (outcome.Items? ==> outcome.items == items)
    {
      var state := ParseInit;
      while state != Stop && state != Panic && state != Stray
        invariant OnTrack(state)
        decreases Rank(state)
      {
        match state
        case ParseInit => state := ParseInitState();
        case ParseJson => state := ParseJsonState();
        case ParseContent => state := ParseContentState();
        case ParseFinish => state := ParseFinishState();
      }
      return if state == Panic then Crash else if state == Stray then Astray else Items(items);
    }
  }

  function Rank(state: StateFn): nat {
    match state
    case ParseInit => 4
    case ParseJson => 3
    case ParseContent => 2
    case ParseFinish => 1
    case _ => 0
  }

  function BeforeNul(runes: string): string {
    runes[..IndexOf(runes, NUL)]
  }

  function WidthOf(runes: string): nat {
    if runes == [] then 0 else WidthOf(runes[..|runes| - 1]) + Width(runes[|runes| - 1])
  }

  lemma WidthOfFew(ahead: string)
    requires |ahead| == 3
    ensures WidthOf(BeforeNul(ahead))
         == if ahead[0] == NUL then 0
            else if ahead[1] == NUL then Width(ahead[0])
            else if ahead[2] == NUL then Width(ahead[0]) + Width(ahead[1])
            else Width(ahead[0]) + Width(ahead[1]) + Width(ahead[2])
  {
    assert ahead[..0] == "";
    WidthOfOneMore(ahead, 0);
    WidthOfOneMore(ahead, 1);
    WidthOfOneMore(ahead, 2);
  }

  lemma WidthOfOneMore(runes: string, i: nat)
    requires i < |runes|
    ensures WidthOf(runes[..i + 1]) == WidthOf(runes[..i]) + Width(runes[i])
  {
    assert runes[..i + 1][..i] == runes[..i];
  }

  // Consuming a line break never changes what the content will be.
  lemma AfterConsume(s: string, pos: nat)
    ensures ContentItems(s, ConsumeEol(s, pos)) == ContentItems(s, pos)
    ensures ConsumesEol(s, pos) ==> pos < ConsumeEol(s, pos) <= |s| + 1 && pos < |s|
    ensures !ConsumesEol(s, pos) ==> SkipEols(s, pos) == pos
  {
  }

  method ParseSections(source: string) returns (result: Sections)
    ensures result == Splitter.ParseSections(source)
  {
    var l := new ItemParser(source);
    var outcome := l.Run();
    if outcome.Crash? { return Crashed; }
    if outcome.Astray? { return Strayed; }
    ItemsShape(source);
    var frontmatter, content, contentOffset := "", "", 0;
    for i := 0 to |l.items|
      invariant frontmatter == if i > 0 && l.items[0].Frontmatter? then Slice(source, l.items[0]) else ""
      invariant content == if i > 0 && l.items[i - 1].Content? then Slice(source, l.items[i - 1]) else ""
      invariant contentOffset == if i > 0 && l.items[i - 1].Content? then l.items[i - 1].start else 0
      invariant i > 0 ==> !l.items[0].Failure?
    {
      match l.items[i]
      case Frontmatter(_, _) => frontmatter := Slice(source, l.items[i]);
      case Content(start, _) => contentOffset, content := start, Slice(source, l.items[i]);
      case Failure(err) =>
        if err == NotFrontmatter { return Parsed("", source, 0); }
        return Failed(err);
    }
    return Parsed(frontmatter, content, contentOffset);
  }
}
