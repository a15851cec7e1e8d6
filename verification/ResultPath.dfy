// The writer of internal/harbor/eval_result.go: it forwards output and picks the last
// result path out of it, however the output is cut into writes, with bounded memory.
// A character stands for a byte, so all lengths count bytes.
module ResultPath {
  import opened Basics
  import opened Text

  const MAX_LINE := 64 * 1024

  // ansi.Strip and strings.TrimSpace, which read the bytes as UTF-8: any functions on texts.
  datatype Library = Library(strip: string -> string, trimSpace: string -> string)

  // ---------- the whole stream ----------

  // The lines of a stream that are complete, without their line feeds.
  function Lines(stream: string): seq<string>
    decreases |stream|
  {
    var i := IndexOf(stream, '\n');
    if i < |stream| then [stream[..i]] + Lines(stream[i + 1..]) else []
  }

  // What follows the last line feed.
  function Tail(stream: string): string
    decreases |stream|
  {
    var i := IndexOf(stream, '\n');
    if i < |stream| then Tail(stream[i + 1..]) else stream
  }

  const PREFIX := "Results written to "

  // strings.Index
  function Find(s: string, sub: string): (at: Option<nat>)
    ensures at.Some? ==> at.value + |sub| <= |s| && s[at.value..at.value + |sub|] == sub
    ensures forall k :: 0 <= k < (if at.Some? then at.value else |s| + 1) ==> !(sub <= s[k..])
  {
    if sub <= s then Some(0)
    else if s == "" then None
    else
      assert forall k :: 1 <= k <= |s| ==> s[k..] == s[1..][k - 1..];
      match Find(s[1..], sub)
      case None => None
      case Some(i) => Some(i + 1)
  }

  // The path a line reports, if it does.
  function Reported(line: string, lib: Library): Option<string> {
    var text := lib.trimSpace(lib.strip(line));
    match Find(text, PREFIX)
    case None => None
    case Some(i) => Some(lib.trimSpace(text[i + |PREFIX|..]))
  }

  // The path of the last line of admissible length that reports one.
  function LastReported(lines: seq<string>, lib: Library): string {
    if lines == [] then ""
    else
      var last := lines[|lines| - 1];
      if |last| <= MAX_LINE && Reported(last, lib).Some? then Reported(last, lib).value
      else LastReported(lines[..|lines| - 1], lib)
  }

  // An unfinished last line counts unless it is empty.
  function AllLines(stream: string): seq<string> {
    Lines(stream) + if Tail(stream) == "" then [] else [Tail(stream)]
  }

  // The answer for a whole stream.
  function PathOf(stream: string, lib: Library): string {
    LastReported(AllLines(stream), lib)
  }

  // ---------- streams grow at the end ----------

  lemma FirstLine(line: string, rest: string)
    requires '\n' !in line
    ensures Lines(line + "\n" + rest) == [line] + Lines(rest) && Tail(line + "\n" + rest) == Tail(rest)
  {
    var all := line + "\n" + rest;
    Assoc(line, "\n", rest);
    IndexOfConcat(line, "\n" + rest, '\n');
    assert all[..|line|] == line && all[|line| + 1..] == rest;
  }

  lemma CutFirstLine(stream: string, i: nat)
    requires i < |stream| && stream[i] == '\n'
    ensures stream == stream[..i] + "\n" + stream[i + 1..]
  {
  }

  lemma {:induction false} GrowsWithinLine(stream: string, more: string)
    requires '\n' !in more
    ensures Lines(stream + more) == Lines(stream) && Tail(stream + more) == Tail(stream) + more
    decreases |stream|
  {
    var i := IndexOf(stream, '\n');
    if i < |stream| {
      var line, rest := stream[..i], stream[i + 1..];
      CutFirstLine(stream, i);
      Assoc(line + "\n", rest, more);
      FirstLine(line, rest);
      FirstLine(line, rest + more);
      GrowsWithinLine(rest, more);
    } else {
      IndexOfConcat(stream, more, '\n');
    }
  }

  lemma {:induction false} EndsLine(stream: string)
    ensures Lines(stream + "\n") == Lines(stream) + [Tail(stream)] && Tail(stream + "\n") == ""
    decreases |stream|
  {
    var i := IndexOf(stream, '\n');
    if i < |stream| {
      var line, rest := stream[..i], stream[i + 1..];
      CutFirstLine(stream, i);
      Assoc(line + "\n", rest, "\n");
      FirstLine(line, rest);
      FirstLine(line, rest + "\n");
      EndsLine(rest);
      Assoc([line], Lines(rest), [Tail(rest)]);
    } else {
      FirstLine(stream, "");
      assert stream + "\n" + "" == stream + "\n";
    }
  }

  lemma LastReportedGrows(lines: seq<string>, line: string, lib: Library)
    ensures LastReported(lines + [line], lib)
          == if |line| <= MAX_LINE && Reported(line, lib).Some? then Reported(line, lib).value
             else LastReported(lines, lib)
  {
    assert (lines + [line])[..|lines|] == lines;
  }

  lemma Reassemble(seen: string, remaining: string, index: nat)
    requires index < |remaining| && remaining[index] == '\n'
    ensures (seen + remaining[..index]) + "\n" + remaining[index + 1..] == seen + remaining
  {
    assert remaining == remaining[..index] + "\n" + remaining[index + 1..];
  }

  // ---------- the writer ----------

  class ResultPathWriter {
    const lib: Library
    var line: string
    var lineTooLong: bool
    var resultPath: string
    // What has been forwarded so far.
    ghost var seen: string

    // The writer remembers the last path and at most one line.
    ghost predicate Valid()
      reads this
    {
      Represents(seen)
    }

    ghost predicate Represents(stream: string)
      reads this
    {
      && resultPath == LastReported(Lines(stream), lib)
      && lineTooLong == (|Tail(stream)| > MAX_LINE)
      && line == if lineTooLong then "" else Tail(stream)
    }

    constructor (lib: Library)
      ensures Valid() && seen == "" && this.lib == lib
    {
      this.lib := lib;
      line, lineTooLong, resultPath, seen := "", false, "", "";
    }

    // `forwarded` is how much of p the destination took; only that is inspected.
    method Write(p: string, forwarded: nat) returns (n: nat)
      requires Valid() && forwarded <= |p|
      modifies this
      ensures Valid() && n == forwarded && seen == old(seen) + p[..forwarded]
    {
      n := forwarded;
      var remaining := p[..n];
      while |remaining| > 0
        invariant Valid() && seen + remaining == old(seen) + p[..n]
        decreases |remaining|
      {
        remaining := Inspect(remaining);
      }
    }

    // One round of the loop: up to and including the next line feed, or everything.
    method Inspect(remaining: string) returns (rest: string)
      requires Valid() && remaining != ""
      modifies this
      ensures Valid() && seen + rest == old(seen) + remaining && |rest| < |remaining|
    {
      var index := IndexOf(remaining, '\n');
      if index == |remaining| {
        AppendLine(remaining);
        return "";
      }
      AppendLine(remaining[..index]);
      FinishLine();
      rest := remaining[index + 1..];
      Reassemble(old(seen), remaining, index);
    }

    // The line feed: record the line unless it was too long, and start a new one.
    method FinishLine()
      requires Valid()
      modifies this
      ensures Valid() && seen == old(seen) + "\n"
    {
      EndsLine(seen);
      LastReportedGrows(Lines(seen), Tail(seen), lib);
      if !lineTooLong {
        RecordLine(line);
      }
      line, lineTooLong := "", false;
      seen := seen + "\n";
    }

    method AppendLine(p: string)
      requires Valid() && '\n' !in p
      modifies this
      ensures Valid() && seen == old(seen) + p
    {
      GrowsWithinLine(seen, p);
      seen := seen + p;
      if lineTooLong { return; }
      if |line| + |p| > MAX_LINE {
        line, lineTooLong := "", true;
        return;
      }
      line := line + p;
    }

    method RecordLine(text: string)
      modifies `resultPath
      ensures resultPath == if Reported(text, lib).Some? then Reported(text, lib).value else old(resultPath)
    {
      var reported := Reported(text, lib);
      if reported.None? { return; }
      resultPath := reported.value;
    }

    // ResultPath(): the answer depends on the forwarded text alone. An unfinished line counts as
    // finished from then on, so asking again gives the same answer, and a later write starts a
    // new line.
    method Finish() returns (path: string)
      requires Valid()
      modifies `line, `resultPath, `seen
      ensures Valid() && path == resultPath
      ensures path == PathOf(old(seen), lib) == PathOf(seen, lib)
      ensures seen == if 0 < |Tail(old(seen))| <= MAX_LINE then old(seen) + "\n" else old(seen)
    {
      LastReportedGrows(Lines(seen), Tail(seen), lib);
      assert Lines(seen) + [] == Lines(seen);
      if |line| > 0 && !lineTooLong {
        EndsLine(seen);
        assert Lines(seen + "\n") + [] == Lines(seen + "\n");
        RecordLine(line);
        line := "";
        seen := seen + "\n";
      }
      return resultPath;
    }
  }

  // ---------- every way of cutting the stream ----------

  // What the destination took of each chunk.
  function Taken(chunks: seq<string>, forwarded: seq<nat>): (taken: seq<string>)
    requires |forwarded| == |chunks| && forall i :: 0 <= i < |chunks| ==> forwarded[i] <= |chunks[i]|
    ensures |taken| == |chunks|
  {
    seq(|chunks|, i requires 0 <= i < |chunks| => chunks[i][..forwarded[i]])
  }

  // All writes, some of them short, then the answer. It is a function of the forwarded
  // stream, wherever that was cut.
  method Capture(chunks: seq<string>, forwarded: seq<nat>, lib: Library) returns (path: string)
    requires |forwarded| == |chunks| && forall i :: 0 <= i < |chunks| ==> forwarded[i] <= |chunks[i]|
    ensures path == PathOf(Concat(Taken(chunks, forwarded)), lib)
  {
    var w := new ResultPathWriter(lib);
    ghost var taken := Taken(chunks, forwarded);
    for i := 0 to |chunks|
      invariant fresh(w) && w.Valid() && w.lib == lib && w.seen == Concat(taken[..i])
    {
      assert taken[..i + 1][..i] == taken[..i];
      var _ := w.Write(chunks[i], forwarded[i]);
    }
    assert taken[..|chunks|] == taken;
    path := w.Finish();
  }

  // The answer comes from the last line that is short enough and reports a path.
  lemma {:induction false} LastReportWins(lines: seq<string>, i: nat, lib: Library)
    requires i < |lines| && |lines[i]| <= MAX_LINE && Reported(lines[i], lib).Some?
    requires forall j :: i < j < |lines| ==> |lines[j]| > MAX_LINE || Reported(lines[j], lib).None?
    ensures LastReported(lines, lib) == Reported(lines[i], lib).value
    decreases |lines|
  {
    if i == |lines| - 1 {
    } else {
      LastReportWins(lines[..|lines| - 1], i, lib);
    }
  }

  // ---------- what a line reports ----------

  // The marker stands at `at` in the text, and nowhere before.
  predicate MarkerFirstAt(text: string, at: nat) {
    && at <= |text| && "Results written to " <= text[at..]
    && forall k :: 0 <= k < at ==> !("Results written to " <= text[k..])
  }

  // The path is what follows the first marker, without the marker, trimmed.
  lemma ReportsWhatFollows(line: string, lib: Library, before: string, path: string)
    requires lib.trimSpace(lib.strip(line)) == before + "Results written to " + path
    requires MarkerFirstAt(before + "Results written to " + path, |before|)
    ensures Reported(line, lib) == Some(lib.trimSpace(path))
  {
    var text := before + "Results written to " + path;
    FindFirst(text, PREFIX, |before|);
    assert text[|before| + |PREFIX|..] == path;
  }

  // A line without the marker reports nothing.
  lemma ReportsNothing(line: string, lib: Library)
    requires var text := lib.trimSpace(lib.strip(line));
             forall k :: 0 <= k <= |text| ==> !("Results written to " <= text[k..])
    ensures Reported(line, lib) == None
  {
    FindSpells(lib.trimSpace(lib.strip(line)), PREFIX);
  }

  lemma FindSpells(s: string, sub: string)
    ensures Find(s, sub).Some? ==> sub <= s[Find(s, sub).value..]
  {
    var at := Find(s, sub);
    assert at.Some? ==> s[at.value..][..|sub|] == s[at.value..at.value + |sub|];
  }

  lemma FindFirst(s: string, sub: string, at: nat)
    requires at <= |s| && sub <= s[at..] && forall k :: 0 <= k < at ==> !(sub <= s[k..])
    ensures Find(s, sub) == Some(at)
  {
    FindSpells(s, sub);
  }

  lemma {:induction false} LinesAfter(a: string, b: string)
    requires a == "" || a[|a| - 1] == '\n'
    ensures Lines(a + b) == Lines(a) + Lines(b) && Tail(a + b) == Tail(b)
    decreases |a|
  {
    if a == "" {
      assert a + b == b;
    } else {
      var i := IndexOf(a, '\n');
      var line, rest := a[..i], a[i + 1..];
      CutFirstLine(a, i);
      assert a + b == line + "\n" + (rest + b);
      assert rest != "" ==> rest[|rest| - 1] == a[|a| - 1];
      FirstLine(line, rest);
      FirstLine(line, rest + b);
      LinesAfter(rest, b);
      Assoc([line], Lines(rest), Lines(b));
    }
  }

  // The whole stream: if behind a line of admissible length that reports a path, no admissible line
  // has the marker, that path is the answer, for every way of cutting the stream.
  lemma StreamReports(a: string, line: string, b: string, lib: Library, before: string, path: string)
    requires (a == "" || a[|a| - 1] == '\n') && '\n' !in line && |line| <= 64 * 1024
    requires lib.trimSpace(lib.strip(line)) == before + "Results written to " + path
    requires MarkerFirstAt(before + "Results written to " + path, |before|)
    requires forall l :: l in AllLines(b) ==> |l| > 64 * 1024 || Reported(l, lib).None?
    ensures PathOf(a + (line + "\n" + b), lib) == lib.trimSpace(path)
  {
    ReportsWhatFollows(line, lib, before, path);
    AllLinesAround(a, line, b);
    LastOfLines(Lines(a), line, AllLines(b), lib);
  }

  lemma LastOfLines(above: seq<string>, line: string, below: seq<string>, lib: Library)
    requires |line| <= MAX_LINE && Reported(line, lib).Some?
    requires forall l :: l in below ==> |l| > MAX_LINE || Reported(l, lib).None?
    ensures LastReported(above + [line] + below, lib) == Reported(line, lib).value
  {
    var lines, n := above + [line] + below, |above|;
    forall j | n < j < |lines|
      ensures |lines[j]| > MAX_LINE || Reported(lines[j], lib).None?
    {
      assert lines[j] == below[j - n - 1];
    }
    LastReportWins(lines, n, lib);
  }

  lemma AllLinesAround(a: string, line: string, b: string)
    requires (a == "" || a[|a| - 1] == '\n') && '\n' !in line
    ensures AllLines(a + (line + "\n" + b)) == Lines(a) + [line] + AllLines(b)
  {
    var rest := line + "\n" + b;
    LinesAfter(a, rest);
    FirstLine(line, b);
    var end := if Tail(b) == "" then [] else [Tail(b)];
    Regroup(Lines(a), [line], Lines(b), end);
    assert AllLines(a + rest) == Lines(a) + ([line] + Lines(b)) + end;
  }

  lemma Regroup(a: seq<string>, b: seq<string>, c: seq<string>, d: seq<string>)
    ensures a + (b + c) + d == a + b + (c + d)
  {
  }
}
