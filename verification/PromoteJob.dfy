// Choosing the eval job to promote (internal/harbor/eval_promote_job.go): `--latest` sorts the
// candidates, while the warning about a newer job scans the directory again with a
// comparison of its own.
module PromoteJob {
  import opened Basics
  import opened Sorting
  import opened Text

  // Instants; the zero time is what an absent or malformed timestamp parses to.
  type Time = int
  const ZERO_TIME: Time := 0

  datatype Stats = Stats(completed: int, errored: int, running: int, pending: int, cancelled: int, evals: set<string>)

  datatype JobResult = JobResult(startedAt: Time, updatedAt: Time, finishedAt: Time,
                                 totalTrials: int, stats: Stats, rawTimestamp: string)

  datatype Agent = Agent(name: string, importPath: string)

  datatype Config = Config(agents: seq<Agent>, datasets: seq<string>)

  // A directory entry with what its files hold; None if they cannot be read.
  datatype Entry = Entry(name: string, isDir: bool, modTime: Time, result: Option<JobResult>, config: Option<Config>)

  datatype Policy = Policy(includeOracle: bool, allowErrors: bool)

  // The dataset filter: any predicate.
  type Filter = Config -> bool

  function ResultTimestamp(r: JobResult): Time {
    if r.finishedAt != ZERO_TIME then r.finishedAt
    else if r.updatedAt != ZERO_TIME then r.updatedAt
    else r.startedAt
  }

  predicate Incomplete(r: JobResult) {
    || TrimSpace(r.rawTimestamp) == "" || r.finishedAt == ZERO_TIME
    || r.totalTrials <= 0
    || r.stats.running != 0 || r.stats.pending != 0 || r.stats.cancelled != 0
    || r.stats.completed + r.stats.errored != r.totalTrials
  }

  // The agent names of the configuration.
  function AgentNames(agents: seq<Agent>): seq<string> {
    if agents == [] then []
    else
      var a := agents[0];
      (if a.name != "" then [a.name] else if a.importPath != "" then [a.importPath] else []) + AgentNames(agents[1..])
  }

  // strings.Cut(key, "__"), the part before the separator.
  function BeforeSeparator(key: string): string {
    if key == "" || "__" <= key then "" else [key[0]] + BeforeSeparator(key[1..])
  }

  predicate OracleOnly(c: Config, r: JobResult) {
    var agents := AgentNames(c.agents);
    if agents != [] then forall i :: 0 <= i < |agents| ==> TrimSpace(agents[i]) == "oracle"
    else
      var names := set key | key in r.stats.evals && BeforeSeparator(key) != "" :: BeforeSeparator(key);
      names != {} && forall n :: n in names ==> TrimSpace(n) == "oracle"
  }

  // validatePromoteJobPolicy finds nothing wrong.
  predicate Promotable(r: JobResult, c: Config, policy: Policy) {
    !Incomplete(r) && (r.stats.errored > 0 ==> policy.allowErrors) && (OracleOnly(c, r) ==> policy.includeOracle)
  }

  // A readable job for the requested dataset.
  predicate Relevant(e: Entry, matches: Filter) {
    e.isDir && e.result.Some? && e.config.Some? && matches(e.config.value)
  }

  predicate Eligible(e: Entry, matches: Filter, policy: Policy) {
    Relevant(e, matches) && Promotable(e.result.value, e.config.value, policy)
  }

  // ---------- the order ----------

  datatype Candidate = Candidate(name: string, timestamp: Time, modTime: Time)

  // The comparison that sort.Slice is given.
  predicate SortsBefore(left: Candidate, right: Candidate) {
    if (left.timestamp != ZERO_TIME || right.timestamp != ZERO_TIME) && left.timestamp != right.timestamp then
      left.timestamp > right.timestamp
    else if left.name != right.name then Less(right.name, left.name)
    else left.modTime > right.modTime
  }

  // isPromoteJobNewer
  predicate IsNewer(r: JobResult, name: string, selectedTimestamp: Time, selectedName: string) {
    var timestamp := ResultTimestamp(r);
    if (timestamp != ZERO_TIME || selectedTimestamp != ZERO_TIME) && timestamp != selectedTimestamp then
      timestamp > selectedTimestamp
    else Less(selectedName, name)
  }

  function CandidateOf(e: Entry): Candidate
    requires e.result.Some?
  {
    Candidate(e.name, ResultTimestamp(e.result.value), e.modTime)
  }

  // Lexicographic by time, then name.
  predicate Newer(a: Candidate, b: Candidate) {
    a.timestamp > b.timestamp || (a.timestamp == b.timestamp && Less(b.name, a.name))
  }

  predicate DistinctNames(entries: seq<Entry>) {
    forall i, j :: 0 <= i < j < |entries| ==> entries[i].name != entries[j].name
  }

  // ---------- latestPromoteJob ----------

  // The candidate comes from one of these entries.
  ghost predicate IsCandidate(c: Candidate, entries: seq<Entry>, matches: Filter, policy: Policy) {
    exists k :: 0 <= k < |entries| && Eligible(entries[k], matches, policy) && c == CandidateOf(entries[k])
  }

  // It is a candidate, and newer than every other one.
  ghost predicate IsLatest(latest: Candidate, entries: seq<Entry>, matches: Filter, policy: Policy) {
    && IsCandidate(latest, entries, matches, policy)
    && forall c :: IsCandidate(c, entries, matches, policy) && c.name != latest.name ==> Newer(latest, c)
  }

  method LatestPromoteJob(entries: seq<Entry>, matches: Filter, policy: Policy) returns (latest: Option<Candidate>)
    ensures latest.None? <==> forall e :: e in entries ==> !Eligible(e, matches, policy)
    ensures latest.Some? ==> IsLatest(latest.value, entries, matches, policy)
  {
    var candidates := Collect(entries, matches, policy);
    if |candidates| == 0 {
      forall e | e in entries
        ensures !Eligible(e, matches, policy)
      {
        assert Eligible(e, matches, policy) ==> IsCandidate(CandidateOf(e), entries, matches, policy);
      }
      return None;
    }
    SortsBeforeIsStrict();
    var sorted := Sort(candidates, SortsBefore);
    latest := Some(sorted[0]);
    assert sorted[0] in sorted;
    forall c | IsCandidate(c, entries, matches, policy) && c.name != sorted[0].name
      ensures Newer(sorted[0], c)
    {
      assert c in sorted;
      FirstIsNewest(sorted, c);
    }
  }

  method Collect(entries: seq<Entry>, matches: Filter, policy: Policy) returns (candidates: seq<Candidate>)
    ensures forall c :: c in candidates <==> IsCandidate(c, entries, matches, policy)
  {
    candidates := [];
    for i := 0 to |entries|
      invariant forall c :: c in candidates <==> IsCandidate(c, entries[..i], matches, policy)
    {
      var e := entries[i];
      OneMore(entries, i, matches, policy);
      if e.isDir && e.result.Some? && e.config.Some? && matches(e.config.value)
         && Promotable(e.result.value, e.config.value, policy) {
        candidates := candidates + [CandidateOf(e)];
      }
    }
    assert entries[..|entries|] == entries;
  }

  lemma OneMore(entries: seq<Entry>, i: nat, matches: Filter, policy: Policy)
    requires i < |entries|
    ensures forall c :: IsCandidate(c, entries[..i + 1], matches, policy) <==>
              || IsCandidate(c, entries[..i], matches, policy)
              || (Eligible(entries[i], matches, policy) && c == CandidateOf(entries[i]))
  {
    forall c
      ensures IsCandidate(c, entries[..i + 1], matches, policy) <==>
              || IsCandidate(c, entries[..i], matches, policy)
              || (Eligible(entries[i], matches, policy) && c == CandidateOf(entries[i]))
    {
      assert forall k :: 0 <= k < i ==> entries[..i + 1][k] == entries[..i][k];
      assert entries[..i + 1][i] == entries[i];
    }
  }

  lemma FirstIsNewest(sorted: seq<Candidate>, c: Candidate)
    requires c in sorted && c.name != sorted[0].name
    requires Sorted(sorted, SortsBefore)
    ensures Newer(sorted[0], c)
  {
    var k :| 0 <= k < |sorted| && sorted[k] == c;
    LessIsTotal(c.name, sorted[0].name);
  }

  // The checks for the zero time change nothing: both comparisons are lexicographic.
  lemma ComparisonsAgree(e: Entry, selected: Candidate)
    requires e.result.Some?
    ensures IsNewer(e.result.value, e.name, selected.timestamp, selected.name) <==> Newer(CandidateOf(e), selected)
    ensures e.name != selected.name ==> (SortsBefore(CandidateOf(e), selected) <==> Newer(CandidateOf(e), selected))
  {
  }

  lemma SortsBeforeIsStrict()
    ensures StrictOrder(SortsBefore)
  {
    forall a, b
      ensures SortsBefore(a, b) ==> !SortsBefore(b, a)
    {
      LessIsTotal(a.name, b.name);
    }
    forall a, b, c | SortsBefore(a, b) && SortsBefore(b, c)
      ensures SortsBefore(a, c)
    {
      if Less(c.name, b.name) && Less(b.name, a.name) {
        LessIsTransitive(c.name, b.name, a.name);
      }
      LessIsTotal(a.name, c.name);
    }
  }

  // ---------- newerPromotableJobWarning ----------

  ghost predicate NewerJob(e: Entry, matches: Filter, selected: Candidate) {
    Relevant(e, matches) && e.name != selected.name && Newer(CandidateOf(e), selected)
  }

  // There is a newer job for the dataset, but none that could be promoted.
  ghost predicate Warns(entries: seq<Entry>, selected: Candidate, matches: Filter, policy: Policy) {
    && (exists e :: e in entries && NewerJob(e, matches, selected))
    && (forall e :: e in entries && NewerJob(e, matches, selected) ==>
          !Promotable(e.result.value, e.config.value, policy))
  }

  method NewerPromotableJobWarning(entries: seq<Entry>, selected: Candidate, matches: Filter, policy: Policy)
    returns (warning: bool)
    ensures warning <==> Warns(entries, selected, matches, policy)
  {
    var foundNewer := false;
    for i := 0 to |entries|
      invariant foundNewer <==> exists k :: 0 <= k < i && NewerJob(entries[k], matches, selected)
      invariant forall k :: 0 <= k < i && NewerJob(entries[k], matches, selected) ==>
                  !Promotable(entries[k].result.value, entries[k].config.value, policy)
    {
      var e := entries[i];
      if !e.isDir { continue; }
      if e.name == selected.name { continue; }
      if e.result.None? { continue; }
      ComparisonsAgree(e, selected);
      if !IsNewer(e.result.value, e.name, selected.timestamp, selected.name) { continue; }
      if e.config.None? { continue; }
      if !matches(e.config.value) { continue; }
      foundNewer := true;
      if Promotable(e.result.value, e.config.value, policy) {
        assert e in entries && NewerJob(e, matches, selected);
        return false;
      }
    }
    return foundNewer;
  }

  // For the job that --latest picks there is a warning exactly when some newer job for the
  // dataset fails the policy. A newer job that passes it, for which the scan would fall
  // silent, cannot exist: both comparisons are the same order.
  lemma WarningForLatest(entries: seq<Entry>, latest: Candidate, matches: Filter, policy: Policy)
    requires IsLatest(latest, entries, matches, policy)
    ensures Warns(entries, latest, matches, policy) <==>
              exists e :: e in entries && NewerJob(e, matches, latest) &&
                !Promotable(e.result.value, e.config.value, policy)
  {
    forall e | e in entries && NewerJob(e, matches, latest)
      ensures !Promotable(e.result.value, e.config.value, policy)
    {
      LessIsTotal(e.name, latest.name);
      assert Promotable(e.result.value, e.config.value, policy) ==>
          IsCandidate(CandidateOf(e), entries, matches, policy);
    }
  }

  // The pick does not depend on the order in which the directory is read.
  lemma LatestIsUnique(entries: seq<Entry>, entries': seq<Entry>, a: Candidate, b: Candidate,
        matches: Filter, policy: Policy)
    requires DistinctNames(entries) && forall e :: e in entries <==> e in entries'
    requires IsLatest(a, entries, matches, policy) && IsLatest(b, entries', matches, policy)
    ensures a == b
  {
    CandidateMoves(entries, entries', a, matches, policy);
    CandidateMoves(entries', entries, b, matches, policy);
    LessIsTotal(a.name, b.name);
  }

  lemma CandidateMoves(entries: seq<Entry>, entries': seq<Entry>, c: Candidate, matches: Filter, policy: Policy)
    requires IsCandidate(c, entries, matches, policy) && forall e :: e in entries ==> e in entries'
    ensures IsCandidate(c, entries', matches, policy)
  {
    var k :| 0 <= k < |entries| && Eligible(entries[k], matches, policy) && c == CandidateOf(entries[k]);
    assert entries[k] in entries';
  }

  // Loosening the policy never makes an eligible job ineligible, so the pick can only get newer.
  lemma LooserPolicyPicksNoOlder(entries: seq<Entry>, matches: Filter, strict: Policy, loose: Policy,
        a: Candidate, b: Candidate)
    requires (strict.includeOracle ==> loose.includeOracle) && (strict.allowErrors ==> loose.allowErrors)
    requires IsLatest(a, entries, matches, strict) && IsLatest(b, entries, matches, loose)
    ensures a.name == b.name || Newer(b, a)
  {
    var k :| 0 <= k < |entries| && Eligible(entries[k], matches, strict) && a == CandidateOf(entries[k]);
    assert Eligible(entries[k], matches, loose);
    assert IsCandidate(a, entries, matches, loose);
  }
}
