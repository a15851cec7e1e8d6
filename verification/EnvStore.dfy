// The environment of a session (session/env_store.go, session/env_store_map.go) and how a finished
// command changes it: diff the environment before and after, patch the session with
// the difference (command/env_collector.go, command/command_inline_shell.go). Characters
// stand for bytes.
module EnvStore {
  import opened Basics

  type Env = map<string, string>

  const MAX_ENV_SIZE := 128 * 1024 - 128

  // SplitEnv: at the first `=`; without one the value is empty.
  function SplitEnv(s: string): (string, string) {
    var i := IndexOf(s, '=');
    (s[..i], if i < |s| then s[i + 1..] else "")
  }

  function Assign(k: string, v: string): string {
    k + "=" + v
  }

  predicate Fits(k: string, v: string) {
    |k| + |v| <= MAX_ENV_SIZE
  }

  // What a store made by Merge can hold.
  predicate Stored(m: Env) {
    forall k :: k in m ==> '=' !in k && Fits(k, m[k])
  }

  // Merge: entry by entry, up to the first one that is too large.
  function Merged(m: Env, envs: seq<string>): (r: (Env, bool))
    ensures Stored(m) ==> Stored(r.0)
    decreases |envs|
  {
    if envs == [] then (m, true)
    else
      var (k, v) := SplitEnv(envs[0]);
      if Fits(k, v) then Merged(m[k := v], envs[1..]) else (m, false)
  }

  // ---------- the store ----------

  class EnvStoreMap {
    var items: Env

    constructor ()
      ensures items == map[]
    {
      items := map[];
    }

    method Get(k: string) returns (v: Option<string>)
      ensures v == if k in items then Some(items[k]) else None
    {
      v := if k in items then Some(items[k]) else None;
    }

    method Set(k: string, v: string) returns (ok: bool)
      modifies this
      ensures ok == Fits(k, v) == (|k| + |v| <= MAX_ENV_SIZE)
      ensures items == if ok then old(items)[k := v] else old(items)
    {
      if |k| + |v| > MAX_ENV_SIZE { return false; }
      items := items[k := v];
      return true;
    }

    method Delete(k: string)
      modifies this
      ensures items == old(items) - {k}
    {
      items := items - {k};
    }

    method Merge(envs: seq<string>) returns (ok: bool)
      modifies this
      ensures (items, ok) == Merged(old(items), envs)
    {
      for i := 0 to |envs|
        invariant Merged(items, envs[i..]) == Merged(old(items), envs)
      {
        assert envs[i..][0] == envs[i] && envs[i..][1..] == envs[i + 1..];
        var (k, v) := SplitEnv(envs[i]);
        var stored := Set(k, v);
        if !stored { return false; }
      }
      return true;
    }
  }

  // ---------- the difference ----------

  function Changed(initial: Env, updated: Env): set<string> {
    set k | k in updated && (k !in initial || initial[k] != updated[k])
  }

  function Deleted(initial: Env, updated: Env): set<string> {
    initial.Keys - updated.Keys
  }

  function Unchanged(initial: Env, updated: Env): set<string> {
    set k | k in initial && k in updated && initial[k] == updated[k]
  }

  // Some order of a set of keys, each once.
  ghost predicate Enumerates(keys: seq<string>, s: set<string>) {
    && (forall k :: k in keys <==> k in s)
    && (forall i, j :: 0 <= i < j < |keys| ==> keys[i] != keys[j])
  }

  function Assigns(keys: seq<string>, m: Env): (envs: seq<string>)
    requires forall k :: k in keys ==> k in m
    ensures |envs| == |keys|
  {
    seq(|keys|, i requires 0 <= i < |keys| => Assign(keys[i], m[keys[i]]))
  }

  // Both loops range over a map, so the order of each result is arbitrary; `changed` names
  // the keys behind newOrUpdated.
  method DiffEnvStores(initial: EnvStoreMap, updated: EnvStoreMap)
    returns (newOrUpdated: seq<string>, same: seq<string>, deleted: seq<string>, ghost changed: seq<string>)
    ensures Enumerates(changed, Changed(initial.items, updated.items))
    ensures newOrUpdated == Assigns(changed, updated.items)
    ensures Enumerates(same, Unchanged(initial.items, updated.items))
    ensures Enumerates(deleted, Deleted(initial.items, updated.items))
  {
    newOrUpdated, same, deleted, changed := [], [], [], [];
    ghost var news, sames, olds := Changed(initial.items, updated.items),
                                   Unchanged(initial.items, updated.items),
                                   Deleted(initial.items, updated.items);
    ghost var seen: set<string> := {};
    var left := initial.items.Keys;
    while left != {}
      invariant left <= initial.items.Keys && seen == initial.items.Keys - left
      invariant Enumerates(changed, news * seen) && newOrUpdated == Assigns(changed, updated.items)
      invariant Enumerates(same, sames * seen) && Enumerates(deleted, olds * seen)
      decreases left
    {
      var k :| k in left;
      left := left - {k};
      Visit(changed, news, seen, k);
      Visit(same, sames, seen, k);
      Visit(deleted, olds, seen, k);
      seen := seen + {k};
      if k !in updated.items {
        deleted := deleted + [k];
      } else if initial.items[k] != updated.items[k] {
        newOrUpdated := newOrUpdated + [Assign(k, updated.items[k])];
        changed := changed + [k];
      } else {
        same := same + [k];
      }
    }
    assert sames * seen == sames && olds * seen == olds;
    left := updated.items.Keys;
    while left != {}
      invariant left <= updated.items.Keys && seen == initial.items.Keys + (updated.items.Keys - left)
      invariant Enumerates(changed, news * seen) && newOrUpdated == Assigns(changed, updated.items)
      decreases left
    {
      var k :| k in left;
      left := left - {k};
      if k in initial.items { continue; }
      Visit(changed, news, seen, k);
      seen := seen + {k};
      newOrUpdated := newOrUpdated + [Assign(k, updated.items[k])];
      changed := changed + [k];
    }
    assert news * seen == news;
  }

  lemma Visit(keys: seq<string>, wanted: set<string>, seen: set<string>, k: string)
    requires Enumerates(keys, wanted * seen) && k !in seen
    ensures Enumerates(if k in wanted then keys + [k] else keys, wanted * (seen + {k}))
  {
    assert k !in keys;
  }

  // ---------- patching the session ----------

  // The session environment after a command that took `initial` to `updated`.
  function Patched(session: Env, initial: Env, updated: Env): Env {
    (session + Pick(Changed(initial, updated), updated)) - Deleted(initial, updated)
  }

  function Pick(keys: set<string>, m: Env): Env
    requires keys <= m.Keys
  {
    map k | k in keys :: m[k]
  }

  method DiffEnvs(initial: seq<string>, final: seq<string>)
    returns (ok: bool, changed: seq<string>, deleted: seq<string>, ghost keys: seq<string>)
    ensures var (m0, ok0) := Merged(map[], initial);
            var (m1, ok1) := Merged(map[], final);
            && ok == (ok0 && ok1)
            && (ok ==> Enumerates(keys, Changed(m0, m1)) && changed == Assigns(keys, m1)
                       && Enumerates(deleted, Deleted(m0, m1)))
  {
    changed, deleted, keys := [], [], [];
    var withInitial := new EnvStoreMap();
    var merged := withInitial.Merge(initial);
    if !merged { return false, [], [], []; }
    var withFinal := new EnvStoreMap();
    merged := withFinal.Merge(final);
    if !merged { return false, [], [], []; }
    var same;
    changed, same, deleted, keys := DiffEnvStores(withInitial, withFinal);
    return true, changed, deleted, keys;
  }

  // collectEnv. An environment with a too large entry fails before the session is touched;
  // otherwise the session ends up patched, whatever order the difference came in.
  method CollectEnv(session: EnvStoreMap, initial: seq<string>, final: seq<string>) returns (ok: bool)
    modifies session
    ensures var (m0, ok0) := Merged(map[], initial);
            var (m1, ok1) := Merged(map[], final);
            && ok == (ok0 && ok1)
            && session.items == if ok then Patched(old(session.items), m0, m1) else old(session.items)
  {
    var differed, changed, deleted;
    ghost var keys;
    differed, changed, deleted, keys := DiffEnvs(initial, final);
    if !differed { return false; }
    ghost var m0, m1 := Merged(map[], initial).0, Merged(map[], final).0;
    MergeAssigns(session.items, keys, m1);
    assert (set k | k in keys) == Changed(m0, m1);
    var stored := session.Merge(changed);
    if !stored { return false; }
    assert (set k | k in deleted) == Deleted(m0, m1);
    DeleteEnv(session, deleted);
    return true;
  }

  method DeleteEnv(session: EnvStoreMap, keys: seq<string>)
    modifies session
    ensures session.items == old(session.items) - (set k | k in keys)
  {
    for i := 0 to |keys|
      invariant session.items == old(session.items) - (set k | k in keys[..i])
    {
      assert keys[..i + 1] == keys[..i] + [keys[i]];
      session.Delete(keys[i]);
    }
    assert keys[..|keys|] == keys;
  }

  // ---------- laws ----------

  // An entry splits at its first equals sign; without one it is a key with an empty value.
  lemma SplitsAtFirst(s: string)
    ensures var (k, v) := SplitEnv(s);
            '=' !in k && if '=' in s then s == k + "=" + v else k == s && v == ""
  {
    var i := IndexOf(s, '=');
    if i < |s| {
      assert s == s[..i] + "=" + s[i + 1..];
    } else {
      assert s[..i] == s;
    }
  }

  // What the difference of two stores lists, key by key.
  lemma DiffPerKey(initial: Env, updated: Env, k: string)
    ensures var (before, after) := (Lookup(initial, k), Lookup(updated, k));
            && (k in Changed(initial, updated) <==> after.Some? && before != after)
            && (k in Unchanged(initial, updated) <==> after.Some? && before == after)
            && (k in Deleted(initial, updated) <==> after.None? && before.Some?)
  {
  }

  lemma SplitAssign(k: string, v: string)
    requires '=' !in k
    ensures SplitEnv(Assign(k, v)) == (k, v)
  {
    var s := Assign(k, v);
    Assoc(k, "=", v);
    IndexOfConcat(k, "=" + v, '=');
    assert s[..|k|] == k && s[|k| + 1..] == v;
  }

  // Merging what a difference lists never hits the size limit and sets just these keys.
  lemma {:induction false} MergeAssigns(session: Env, keys: seq<string>, m: Env)
    requires Stored(m) && forall k :: k in keys ==> k in m
    ensures Merged(session, Assigns(keys, m)) == (session + Pick((set k | k in keys), m), true)
    decreases |keys|
  {
    if keys == [] {
      assert (set k | k in keys) == {} && session + Pick({}, m) == session;
    } else {
      var k := keys[0];
      SplitAssign(k, m[k]);
      assert Assigns(keys, m)[1..] == Assigns(keys[1..], m);
      MergeAssigns(session[k := m[k]], keys[1..], m);
      PickFirst(session, keys, m);
    }
  }

  lemma PickFirst(session: Env, keys: seq<string>, m: Env)
    requires keys != [] && forall k :: k in keys ==> k in m
    ensures session[keys[0] := m[keys[0]]] + Pick((set k | k in keys[1..]), m) == session + Pick((set k | k in keys), m)
  {
    assert forall k :: k in keys <==> k == keys[0] || k in keys[1..];
  }

  // The last entry for a key decides, independently of how Merge goes about it.
  lemma {:induction false} LastEntryWins(m: Env, envs: seq<string>, i: nat)
    requires Merged(m, envs).1 && i < |envs|
    requires forall j :: i < j < |envs| ==> SplitEnv(envs[j]).0 != SplitEnv(envs[i]).0
    ensures var (k, v) := SplitEnv(envs[i]); k in Merged(m, envs).0 && Merged(m, envs).0[k] == v
    decreases |envs|
  {
    var (k, v) := SplitEnv(envs[0]);
    if i > 0 {
      LastEntryWins(m[k := v], envs[1..], i - 1);
    } else {
      OthersKeep(m[k := v], envs[1..], k);
    }
  }

  lemma {:induction false} OthersKeep(m: Env, envs: seq<string>, k: string)
    requires Merged(m, envs).1 && forall j :: 0 <= j < |envs| ==> SplitEnv(envs[j]).0 != k
    ensures (k in Merged(m, envs).0) == (k in m) && (k in m ==> Merged(m, envs).0[k] == m[k])
    decreases |envs|
  {
    if envs == [] {
    } else {
      var (x, v) := SplitEnv(envs[0]);
      OthersKeep(m[x := v], envs[1..], k);
    }
  }

  // Key and value together, without the equals sign, are within the limit.
  predicate EntryFits(env: string) {
    var (k, v) := SplitEnv(env);
    |k| + |v| <= 128 * 1024 - 128
  }

  // Merge succeeds exactly when every entry fits.
  lemma {:induction false} MergeSucceeds(m: Env, envs: seq<string>)
    ensures Merged(m, envs).1 <==> forall j :: 0 <= j < |envs| ==> EntryFits(envs[j])
    decreases |envs|
  {
    if envs == [] {
    } else {
      var (k, v) := SplitEnv(envs[0]);
      MergeSucceeds(m[k := v], envs[1..]);
      assert forall j :: 1 <= j < |envs| ==> envs[1..][j - 1] == envs[j];
    }
  }

  lemma MergedFirst(m: Env, envs: seq<string>)
    requires envs != [] && EntryFits(envs[0])
    ensures var (k, v) := SplitEnv(envs[0]); Merged(m, envs) == Merged(m[k := v], envs[1..])
  {
  }

  lemma MergedNotAtAll(m: Env, envs: seq<string>)
    requires envs != [] && !EntryFits(envs[0])
    ensures Merged(m, envs) == (m, false) && Merged(m, []) == (m, true)
  {
  }

  // The entries before the first one that does not fit are set, and no others.
  lemma {:induction false} MergeStopsAtFirst(m: Env, envs: seq<string>, i: nat)
    requires i < |envs| && !EntryFits(envs[i]) && forall j :: 0 <= j < i ==> EntryFits(envs[j])
    ensures Merged(m, envs).0 == Merged(m, envs[..i]).0 && !Merged(m, envs).1
    decreases |envs|
  {
    if i == 0 {
      assert envs[..0] == [];
      MergedNotAtAll(m, envs);
    } else {
      var (k, v) := SplitEnv(envs[0]);
      MergedFirst(m, envs);
      MergedFirst(m, envs[..i]);
      assert envs[..i][0] == envs[0] && envs[..i][1..] == envs[1..][..i - 1];
      MergeStopsAtFirst(m[k := v], envs[1..], i - 1);
    }
  }

  // The patch carries the change over and nothing else.
  lemma PatchPerKey(session: Env, initial: Env, updated: Env, k: string)
    ensures var p := Patched(session, initial, updated);
            var before, after := Lookup(initial, k), Lookup(updated, k);
            Lookup(p, k) == if before == after then Lookup(session, k) else after
  {
  }

  function Lookup(m: Env, k: string): Option<string> {
    if k in m then Some(m[k]) else None
  }

  // The session ends up with the final environment exactly when it agreed with the final
  // environment on every key that the command left alone.
  lemma PatchReachesFinal(session: Env, initial: Env, updated: Env)
    ensures Patched(session, initial, updated) == updated
            <==> forall k :: Lookup(initial, k) == Lookup(updated, k) ==> Lookup(session, k) == Lookup(updated, k)
    ensures session == initial ==> Patched(session, initial, updated) == updated
  {
    var p := Patched(session, initial, updated);
    forall k
      ensures Lookup(p, k)
           == if Lookup(initial, k) == Lookup(updated, k) then Lookup(session, k) else Lookup(updated, k)
    {
      PatchPerKey(session, initial, updated, k);
    }
    if forall k :: Lookup(p, k) == Lookup(updated, k) {
      SameLookups(p, updated);
    }
  }

  lemma SameLookups(a: Env, b: Env)
    requires forall k :: Lookup(a, k) == Lookup(b, k)
    ensures a == b
  {
    forall k
      ensures k in a <==> k in b
      ensures k in a ==> a[k] == b[k]
    {
      assert Lookup(a, k) == Lookup(b, k);
    }
  }
}
