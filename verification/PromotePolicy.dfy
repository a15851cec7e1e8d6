// What makes a job promotable, reason by reason, and which of its timestamps counts.
module PromotePolicy {
  import opened PromoteJob
  import opened Text

  // The finishing time counts, then the time of the last update, then the start.
  lemma TimestampThatCounts(r: JobResult)
    ensures r.finishedAt != ZERO_TIME ==> ResultTimestamp(r) == r.finishedAt
    ensures r.finishedAt == ZERO_TIME && r.updatedAt != ZERO_TIME ==> ResultTimestamp(r) == r.updatedAt
    ensures r.finishedAt == ZERO_TIME && r.updatedAt == ZERO_TIME ==> ResultTimestamp(r) == r.startedAt
  {
  }

  // Each of the reasons against promoting a job, and there are no others.
  datatype Reason =
    | NoTimestamp | BadTimestamp | NoTrials | Running | Pending | Cancelled | TrialsMissing
    | Errors | OracleRun

  ghost predicate Speaks(reason: Reason, r: JobResult, c: Config, policy: Policy) {
    match reason
    case NoTimestamp => forall i :: 0 <= i < |r.rawTimestamp| ==> IsSpace(r.rawTimestamp[i])
    case BadTimestamp => r.finishedAt == ZERO_TIME
    case NoTrials => r.totalTrials <= 0
    case Running => r.stats.running != 0
    case Pending => r.stats.pending != 0
    case Cancelled => r.stats.cancelled != 0
    case TrialsMissing => r.stats.completed + r.stats.errored != r.totalTrials
    case Errors => r.stats.errored > 0 && !policy.allowErrors
    case OracleRun => OracleOnly(c, r) && !policy.includeOracle
  }

  lemma PromotableUnlessReason(r: JobResult, c: Config, policy: Policy)
    ensures Promotable(r, c, policy) <==> forall reason :: !Speaks(reason, r, c, policy)
  {
    BlankIsAllSpace(r.rawTimestamp);
    if !Promotable(r, c, policy) {
      var reason :=
        if TrimSpace(r.rawTimestamp) == "" then NoTimestamp
        else if r.finishedAt == ZERO_TIME then BadTimestamp
        else if r.totalTrials <= 0 then NoTrials
        else if r.stats.running != 0 then Running
        else if r.stats.pending != 0 then Pending
        else if r.stats.cancelled != 0 then Cancelled
        else if r.stats.completed + r.stats.errored != r.totalTrials then TrialsMissing
        else if r.stats.errored > 0 && !policy.allowErrors then Errors
        else OracleRun;
      assert Speaks(reason, r, c, policy);
    } else {
      forall reason
        ensures !Speaks(reason, r, c, policy)
      {
      }
    }
  }

  lemma BlankIsAllSpace(s: string)
    ensures TrimSpace(s) == "" <==> forall i :: 0 <= i < |s| ==> IsSpace(s[i])
  {
    var i, j := TrimSpaceTrims(s);
    if i == j {
      assert forall k :: 0 <= k < |s| ==> s[k] == if k < i then s[..i][k] else s[j..][k - j];
    }
  }

  // ---------- oracle-only jobs ----------

  predicate Named(a: Agent) {
    a.name != "" || a.importPath != ""
  }

  // The name if there is one, else the import path.
  predicate IsOracle(a: Agent)
    requires Named(a)
  {
    TrimSpace(if a.name != "" then a.name else a.importPath) == "oracle"
  }

  // If the configuration names agents, all of these have to be the oracle.
  lemma OracleByAgents(c: Config, r: JobResult)
    requires exists a :: a in c.agents && Named(a)
    ensures OracleOnly(c, r) <==> forall a :: a in c.agents && Named(a) ==> IsOracle(a)
  {
    AgentNamesAre(c.agents);
    if OracleOnly(c, r) {
      forall a | a in c.agents && Named(a)
        ensures IsOracle(a)
      {
        assert NameOf(a) in AgentNames(c.agents);
      }
    }
    if forall a :: a in c.agents && Named(a) ==> IsOracle(a) {
      forall n | n in AgentNames(c.agents)
        ensures TrimSpace(n) == "oracle"
      {
        var a :| a in c.agents && Named(a) && n == NameOf(a);
      }
    }
  }

  function NameOf(a: Agent): string {
    if a.name != "" then a.name else a.importPath
  }

  lemma {:induction false} AgentNamesAre(agents: seq<Agent>)
    ensures forall a :: a in agents && Named(a) ==> NameOf(a) in AgentNames(agents)
    ensures forall n :: n in AgentNames(agents) ==> exists a :: a in agents && Named(a) && n == NameOf(a)
  {
    if agents == [] {
    } else {
      var first, rest := agents[0], agents[1..];
      AgentNamesAre(rest);
      forall n | n in AgentNames(agents)
        ensures exists a :: a in agents && Named(a) && n == NameOf(a)
      {
        if n in AgentNames(rest) {
          var a :| a in rest && Named(a) && n == NameOf(a);
          assert a in agents;
        } else {
          assert first in agents && n == NameOf(first);
        }
      }
    }
  }

  lemma {:induction false} NoNames(agents: seq<Agent>)
    requires forall a :: a in agents ==> !Named(a)
    ensures AgentNames(agents) == []
  {
    if agents == [] {
    } else {
      assert agents[0] in agents;
      NoNames(agents[1..]);
    }
  }

  // Otherwise the evals decide: what stands before the first double underscore of each key.
  lemma OracleByEvals(c: Config, r: JobResult)
    requires forall a :: a in c.agents ==> !Named(a)
    ensures OracleOnly(c, r) <==>
              && (exists key :: key in r.stats.evals && BeforeSeparator(key) != "")
              && (forall key :: key in r.stats.evals && BeforeSeparator(key) != "" ==>
                    TrimSpace(BeforeSeparator(key)) == "oracle")
  {
    NoNames(c.agents);
    var names := set key | key in r.stats.evals && BeforeSeparator(key) != "" :: BeforeSeparator(key);
    assert forall key :: key in r.stats.evals && BeforeSeparator(key) != "" ==> BeforeSeparator(key) in names;
    if names != {} {
      var n :| n in names;
    }
  }

  // The first part of a key: up to the first separator, or all of it.
  lemma {:induction false} BeforeSeparatorCuts(key: string)
    ensures var n := |BeforeSeparator(key)|;
            && n <= |key| && BeforeSeparator(key) == key[..n]
            && (n < |key| ==> "__" <= key[n..])
            && forall k :: 0 <= k < n ==> !("__" <= key[k..])
  {
    if key == "" || "__" <= key {
      assert key[0..] == key;
    } else {
      BeforeSeparatorCuts(key[1..]);
      var rest, n := BeforeSeparator(key[1..]), |BeforeSeparator(key)|;
      assert BeforeSeparator(key) == [key[0]] + rest;
      assert key[1..][..n - 1] == rest && key[..n] == [key[0]] + rest;
      DropAfterFirst(key, n);
      forall k | 0 <= k < n
        ensures !("__" <= key[k..])
      {
        if k == 0 {
          assert key[0..] == key;
        } else {
          DropAfterFirst(key, k);
        }
      }
    }
  }

  lemma DropAfterFirst(s: string, k: nat)
    requires 0 < k <= |s|
    ensures s[k..] == s[1..][k - 1..]
  {
  }

  // ---------- the pick ----------

  // A job is eligible if it is a readable directory for the dataset and nothing speaks against it.
  lemma EligibleWithoutReason(e: Entry, matches: Filter, policy: Policy)
    ensures Eligible(e, matches, policy) <==>
              && e.isDir && e.result.Some? && e.config.Some? && matches(e.config.value)
              && forall reason :: !Speaks(reason, e.result.value, e.config.value, policy)
  {
    if e.result.Some? && e.config.Some? {
      PromotableUnlessReason(e.result.value, e.config.value, policy);
    }
  }

  // No eligible job has a later timestamp than the pick, and none with the same one a greater name.
  lemma LatestIsNewest(entries: seq<Entry>, latest: Candidate, matches: Filter, policy: Policy, e: Entry)
    requires IsLatest(latest, entries, matches, policy) && e in entries && Eligible(e, matches, policy)
    ensures var timestamp := ResultTimestamp(e.result.value);
            e.name != latest.name ==>
              timestamp < latest.timestamp || (timestamp == latest.timestamp && Less(e.name, latest.name))
  {
    assert IsCandidate(CandidateOf(e), entries, matches, policy);
  }
}
