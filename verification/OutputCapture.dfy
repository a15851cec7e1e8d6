// Capturing the tail of a command's output and storing it in the session environment
// (runnerv2service/tail_writer.go, runnerv2service/execution.go). Characters stand for bytes.
module OutputCapture {
  import opened Basics
  import opened EnvStore
  import opened Text

  const STDOUT_ENV_NAME := "__"

  // The last n bytes.
  function LastN(s: string, n: nat): string {
    if |s| <= n then s else s[|s| - n..]
  }

  // A suffix, of length n or everything.
  lemma LastNIsSuffix(s: string, n: nat)
    ensures |LastN(s, n)| == Min(n, |s|) && s == s[..|s| - |LastN(s, n)|] + LastN(s, n)
  {
  }

  class TailCapWriter {
    const cap: int
    var buf: string

    constructor (cap: int)
      ensures this.cap == cap && buf == ""
    {
      this.cap := cap;
      buf := "";
    }

    function Room(): nat {
      if cap <= 0 then 0 else cap
    }

    // Never blocks and never refuses: everything is accepted, the tail is kept.
    method Write(p: string) returns (n: nat)
      requires |buf| <= Room()
      modifies `buf
      ensures n == |p| && buf == LastN(old(buf) + p, Room())
    {
      n := |p|;
      if cap <= 0 { return; }
      if n >= cap {
        buf := p[n - cap..];
        return;
      }
      buf := buf + p;
      if |buf| > cap {
        buf := buf[|buf| - cap..];
      }
    }
  }

  // bytes.ReplaceAll(b, NUL, nothing)
  function WithoutNul(b: string): (s: string)
    ensures |s| <= |b|
  {
    if b == "" then "" else (if b[0] == '\0' then "" else [b[0]]) + WithoutNul(b[1..])
  }

  // Exactly the NUL bytes are dropped; the others stay, in order.
  lemma {:induction false} OnlyNulIsDropped(a: string, b: string)
    ensures WithoutNul(a + b) == WithoutNul(a) + WithoutNul(b)
    ensures '\0' !in a ==> WithoutNul(a) == a
    ensures WithoutNul("\0") == "" && '\0' !in WithoutNul(a)
  {
    if a == "" {
      assert a + b == b;
    } else {
      assert (a + b)[1..] == a[1..] + b;
      OnlyNulIsDropped(a[1..], b);
      Assoc(if a[0] == '\0' then "" else [a[0]], WithoutNul(a[1..]), WithoutNul(b));
      assert '\0' !in a ==> '\0' !in a[1..] && a == [a[0]] + a[1..];
    }
  }

  // ^[A-Z_][A-Z0-9_]{1}[A-Z0-9_]*[A-Z][A-Z0-9_]*$
  predicate MatchesNaming(name: string) {
    && |name| >= 3 && !('0' <= name[0] <= '9')
    && (forall i :: 0 <= i < |name| ==> 'A' <= name[i] <= 'Z' || '0' <= name[i] <= '9' || name[i] == '_')
    && exists i :: 2 <= i < |name| && 'A' <= name[i] <= 'Z'
  }

  predicate IsUpper(c: char) {
    'A' <= c <= 'Z'
  }

  predicate IsWord(s: string) {
    forall i :: 0 <= i < |s| ==> 'A' <= s[i] <= 'Z' || '0' <= s[i] <= '9' || s[i] == '_'
  }

  // The name falls into the pieces of the regular expression.
  ghost predicate FallsInto(name: string, first: char, second: char, inner: string, upper: char, rest: string) {
    && name == [first, second] + inner + [upper] + rest
    && (IsUpper(first) || first == '_') && IsWord([second]) && IsWord(inner) && IsUpper(upper) && IsWord(rest)
  }

  lemma NamingIsTheExpression(name: string)
    ensures MatchesNaming(name) <==> exists a, b, inner, u, rest :: FallsInto(name, a, b, inner, u, rest)
  {
    if MatchesNaming(name) {
      var i :| 2 <= i < |name| && 'A' <= name[i] <= 'Z';
      assert name == [name[0], name[1]] + name[2..i] + [name[i]] + name[i + 1..];
      assert FallsInto(name, name[0], name[1], name[2..i], name[i], name[i + 1..]);
    }
    if a, b, inner, u, rest :| FallsInto(name, a, b, inner, u, rest) {
      PiecesMatch(name, a, b, inner, u, rest);
    }
  }

  lemma PiecesMatch(name: string, first: char, second: char, inner: string, upper: char, rest: string)
    requires FallsInto(name, first, second, inner, upper, rest)
    ensures MatchesNaming(name)
  {
    var n := 2 + |inner|;
    assert name[0] == first && name[1] == second && name[n] == upper;
    forall i | 0 <= i < |name|
      ensures IsWord([name[i]])
    {
      assert name[i] == if i == 0 then first else if i == 1 then second else if i < n then inner[i - 2]
                        else if i == n then upper else rest[i - n - 1];
    }
    assert forall i :: 0 <= i < |name| ==> [name[i]][0] == name[i];
  }

  // What storing the output makes of the session environment.
  function WithOutput(env: Env, output: string, knownName: string): Env {
    var stored := if Fits(STDOUT_ENV_NAME, output) then env[STDOUT_ENV_NAME := output] else env;
    if knownName != "" && MatchesNaming(knownName) && Fits(knownName, output)
    then stored[knownName := output]
    else stored
  }

  // storeOutputInEnv. Failing to store is only logged.
  method StoreOutputInEnv(session: EnvStoreMap, b: string, knownName: string)
    modifies session
    ensures session.items == WithOutput(old(session.items), WithoutNul(b), knownName)
  {
    var sanitized := WithoutNul(b);
    MergeOne(session.items, STDOUT_ENV_NAME, sanitized);
    var ok := session.Merge([Assign(STDOUT_ENV_NAME, sanitized)]);
    if knownName != "" && MatchesNaming(knownName) {
      MergeOne(session.items, knownName, sanitized);
      ok := session.Merge([knownName + "=" + sanitized]);
    }
  }

  lemma MergeOne(env: Env, k: string, v: string)
    requires '=' !in k
    ensures Merged(env, [Assign(k, v)]) == if Fits(k, v) then (env[k := v], true) else (env, false)
  {
    SplitAssign(k, v);
    assert Merged(env[k := v], [Assign(k, v)][1..]) == (env[k := v], true);
  }

  // The part of Wait that concerns stdout: capture with the cap that leaves room for the name and
  // the equals sign, then store. The capture always fits, so it can always be read back; a
  // well-formed known name has it too if both fit together, and all other keys stay.
  method CaptureOutput(session: EnvStoreMap, chunks: seq<string>, knownName: string)
    modifies session
    ensures var output := WithoutNul(LastN(Concat(chunks), MAX_ENV_SIZE - |STDOUT_ENV_NAME| - 1));
            && session.items == WithOutput(old(session.items), output, knownName)
            && forall k :: Lookup(session.items, k)
                 == if k == STDOUT_ENV_NAME then Some(output)
                    else if k == knownName && MatchesNaming(k) && |k| + |output| <= MAX_ENV_SIZE then Some(output)
                    else Lookup(old(session.items), k)
  {
    var w := new TailCapWriter(MAX_ENV_SIZE - |STDOUT_ENV_NAME| - 1);
    for i := 0 to |chunks|
      invariant fresh(w) && w.buf == LastN(Concat(chunks[..i]), w.Room()) && session.items == old(session.items)
    {
      assert chunks[..i + 1][..i] == chunks[..i];
      TailOfTail(Concat(chunks[..i]), chunks[i], w.Room());
      var _ := w.Write(chunks[i]);
    }
    assert chunks[..|chunks|] == chunks;
    ghost var env := session.items;
    StoreOutputInEnv(session, w.buf, knownName);
    StoredPerKey(env, WithoutNul(w.buf), knownName);
  }

  lemma StoredPerKey(env: Env, output: string, knownName: string)
    requires |output| < MAX_ENV_SIZE - |STDOUT_ENV_NAME|
    ensures forall k ::
              Lookup(WithOutput(env, output, knownName), k)
              == if k == STDOUT_ENV_NAME then Some(output)
                 else if k == knownName && MatchesNaming(k) && |k| + |output| <= MAX_ENV_SIZE then Some(output)
                 else Lookup(env, k)
  {
    assert !MatchesNaming(STDOUT_ENV_NAME);
  }

  // Forgetting early does not matter: the tail of the tail is the tail of the whole.
  lemma TailOfTail(a: string, b: string, n: nat)
    ensures LastN(LastN(a, n) + b, n) == LastN(a + b, n)
  {
  }
}
