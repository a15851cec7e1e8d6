// The environment travels from the child process to its parent as one byte stream: the
// entries joined by NUL, encrypted with a keystream, decrypted with the same keystream and cut up
// again by an incremental scanner (command/env_producer.go, env_crypto.go, env_collector.go).
module EnvTransport {
  import opened Basics

  type Bytes = seq<Byte>

  const NUL: Byte := 0

  // The keystream of the cipher, byte by byte: arbitrary.
  type Keystream = nat -> Byte

  // ---------- the dump format ----------

  // EnvSliceToString
  function Join(entries: seq<Bytes>): Bytes {
    if entries == [] then []
    else if |entries| == 1 then entries[0]
    else entries[0] + [NUL] + Join(entries[1..])
  }

  // The format of `env -0`: every entry is terminated.
  function Terminate(entries: seq<Bytes>): Bytes {
    if entries == [] then [] else entries[0] + [NUL] + Terminate(entries[1..])
  }

  // ---------- cutting it up ----------

  function FirstNul(data: Bytes): nat {
    IndexOf(data, NUL)
  }

  // splitNull: how far to advance, and the token if there is one.
  function SplitNull(data: Bytes, atEof: bool): (int, Option<Bytes>) {
    if atEof && data == [] then (0, None)
    else
      var i := FirstNul(data);
      if i < |data| then (i + 1, Some(data[..i]))
      else if atEof then (|data|, Some(data))
      else (0, None)
  }

  // The tokens of a whole stream.
  function Tokens(data: Bytes): seq<Bytes> {
    if data == [] then []
    else
      var i := FirstNul(data);
      [data[..i]] + if i < |data| then Tokens(data[i + 1..]) else []
  }

  datatype Scanned = Entries(entries: seq<Bytes>) | TooLong

  // What scanning yields with a limit on the token size.
  function ScanResult(data: Bytes, max: nat): Scanned {
    if AllFit(Tokens(data), max) then Entries(Tokens(data)) else TooLong
  }

  predicate AllFit(tokens: seq<Bytes>, max: nat) {
    forall i :: 0 <= i < |tokens| ==> |tokens[i]| < max
  }

  // A NUL seen in the part read so far ends the first token of the whole; without one the
  // first token is longer than that part.
  lemma FirstToken(seen: Bytes, rest: Bytes)
    ensures var i := FirstNul(seen);
            if i < |seen| then Tokens(seen + rest) == [seen[..i]] + Tokens(seen[i + 1..] + rest)
            else seen != [] ==> |Tokens(seen + rest)[0]| >= |seen|
    ensures rest == [] && seen != [] && FirstNul(seen) == |seen| ==> Tokens(seen) == [seen]
  {
    var all, i := seen + rest, FirstNul(seen);
    IndexOfConcat(seen, rest, NUL);
    if i < |seen| {
      assert all[..i] == seen[..i] && all[i + 1..] == seen[i + 1..] + rest;
    } else {
      assert seen[..|seen|] == seen;
    }
  }

  // ---------- the cipher ----------

  // XOR with the keystream from offset `at` on.
  function Xor(key: Keystream, at: nat, data: Bytes): (out: Bytes)
    ensures |out| == |data|
  {
    seq(|data|, i requires 0 <= i < |data| => data[i] ^ key(at + i))
  }

  lemma XorPointwise(key: Keystream, at: nat, data: Bytes, out: Bytes)
    requires |out| == |data| && forall i :: 0 <= i < |data| ==> out[i] == data[i] ^ key(at + i)
    ensures out == Xor(key, at, data)
  {
  }

  lemma XorTwice(key: Keystream, at: nat, data: Bytes)
    ensures Xor(key, at, Xor(key, at, data)) == data
  {
    forall i | 0 <= i < |data|
      ensures Xor(key, at, Xor(key, at, data))[i] == data[i]
    {
      XorCancels(data[i], key(at + i));
    }
  }

  lemma XorCancels(x: Byte, k: Byte)
    ensures (x ^ k) ^ k == x
  {
  }

  // Encrypting piecewise with a running offset is encrypting the whole.
  lemma XorSplits(key: Keystream, at: nat, data: Bytes, n: nat)
    requires n <= |data|
    ensures Xor(key, at, data)[..n] == Xor(key, at, data[..n])
    ensures Xor(key, at, data)[n..] == Xor(key, at + n, data[n..])
  {
  }

  // ---------- readers ----------

  // A string reader or a file. How much a call delivers is arbitrary, but it delivers
  // something unless the data is exhausted or there is no room; the end is reported alone.
  class SourceReader {
    const data: Bytes
    var pos: nat

    ghost predicate Valid()
      reads this
    {
      pos <= |data|
    }

    ghost function Rest(): Bytes
      requires Valid()
      reads this
    {
      data[pos..]
    }

    constructor (data: Bytes)
      ensures Valid() && Rest() == data
    {
      this.data := data;
      pos := 0;
    }

    method Read(p: array<Byte>) returns (n: nat, eof: bool)
      requires Valid()
      modifies `pos, p
      ensures Valid() && n <= p.Length && n <= |old(Rest())|
      ensures p[..n] == old(Rest())[..n] && p[n..] == old(p[n..])
      ensures Rest() == old(Rest())[n..]
      ensures n == 0 <==> old(Rest()) == [] || p.Length == 0
      ensures eof ==> n == 0
    {
      if pos == |data| { return 0, true; }
      if p.Length == 0 { return 0, false; }
      n :| 1 <= n <= p.Length && n <= |data| - pos;
      forall i | 0 <= i < n {
        p[i] := data[pos + i];
      }
      pos := pos + n;
      eof := false;
    }
  }

  // EnvEncryptor and EnvDecryptor: the same object, as the keystream undoes itself.
  class CipherReader {
    const source: SourceReader
    const key: Keystream
    var offset: nat

    ghost predicate Valid()
      reads this, source
    {
      source.Valid()
    }

    // What is still to be read from this reader.
    ghost function Rest(): Bytes
      requires Valid()
      reads this, source
    {
      Xor(key, offset, source.Rest())
    }

    constructor (source: SourceReader, key: Keystream)
      requires source.Valid()
      ensures this.source == source && this.key == key && offset == 0
      ensures Valid() && Rest() == Xor(key, 0, source.Rest())
    {
      this.source := source;
      this.key := key;
      offset := 0;
    }

    // Advances the stream over the first n bytes of the caller's buffer, in place.
    method XorKeyStream(p: array<Byte>, n: nat)
      requires n <= p.Length
      modifies `offset, p
      ensures p[..n] == Xor(key, old(offset), old(p[..n])) && p[n..] == old(p[n..])
      ensures offset == old(offset) + n
    {
      var i := 0;
      while i < n
        invariant 0 <= i <= n && offset == old(offset)
        invariant forall k :: 0 <= k < i ==> p[k] == old(p[k]) ^ key(offset + k)
        invariant forall k :: i <= k < p.Length ==> p[k] == old(p[k])
      {
        p[i] := p[i] ^ key(offset + i);
        i := i + 1;
      }
      XorPointwise(key, offset, old(p[..n]), p[..n]);
      offset := offset + n;
    }

    // Delivers the next bytes of the transformed stream. A read that delivers nothing
    // reports the end of the stream, which is only true if the caller gave it room.
    method Read(p: array<Byte>) returns (n: nat, eof: bool)
      requires Valid()
      modifies this, source, p
      ensures Valid() && n <= p.Length && n <= |old(Rest())|
      ensures p[..n] == old(Rest())[..n] && p[n..] == old(p[n..])
      ensures Rest() == old(Rest())[n..]
      ensures eof <==> n == 0
      ensures eof <==> old(Rest()) == [] || p.Length == 0
    {
      ghost var plain := source.Rest();
      var sourceEof: bool;
      n, sourceEof := source.Read(p);
      XorSplits(key, offset, plain, n);
      if n > 0 {
        XorKeyStream(p, n);
        return n, sourceEof;
      }
      return 0, true;
    }

    // io.Copy: reads with buffers of any size until the end.
    method ReadAll() returns (all: Bytes)
      requires Valid()
      modifies this, source
      ensures Valid() && all == old(Rest())
    {
      all := [];
      while true
        invariant Valid() && all + Rest() == old(Rest())
        decreases |Rest()|
      {
        var room: nat :| room > 0;
        var p := new Byte[room];
        ghost var rest := Rest();
        var n, eof := Read(p);
        if eof { return; }
        assert rest == p[..n] + rest[n..];
        Assoc(all, p[..n], rest[n..]);
        all := all + p[..n];
      }
    }
  }

  // ---------- the scanner ----------

  // The tokens handed out so far and the ones still to come.
  ghost predicate Progress(all: seq<Bytes>, result: seq<Bytes>, left: seq<Bytes>, max: nat) {
    all == result + left && AllFit(result, max)
  }

  lemma Took(all: seq<Bytes>, result: seq<Bytes>, left: seq<Bytes>, token: Bytes, left': seq<Bytes>, max: nat)
    requires Progress(all, result, left, max) && left == [token] + left' && |token| < max
    ensures Progress(all, result + [token], left', max)
  {
  }

  lemma Finished(all: seq<Bytes>, result: seq<Bytes>, left: seq<Bytes>, max: nat, tooLong: bool)
    requires Progress(all, result, left, max)
    requires if tooLong then left != [] && |left[0]| >= max else left == []
    ensures AllFit(all, max) == !tooLong && (!tooLong ==> all == result)
  {
    if tooLong {
      assert all[|result|] == left[0];
    }
  }

  // bufio.Scanner with the split function above and a limit on the token size.
  class Scanner {
    const source: CipherReader
    const max: nat
    var pending: Bytes
    var atEof: bool
    var tooLong: bool

    ghost predicate Valid()
      reads this, source, source.source
    {
      source.Valid() && |pending| <= max && max > 0 && (atEof ==> source.Rest() == [] && |pending| < max)
    }

    // Everything that has not been handed out as a token yet.
    ghost function Unread(): Bytes
      requires Valid()
      reads this, source, source.source
    {
      pending + source.Rest()
    }

    constructor (source: CipherReader, max: nat)
      requires source.Valid() && max > 0
      ensures this.source == source && this.max == max
      ensures Valid() && Unread() == source.Rest() && !tooLong
    {
      this.source := source;
      this.max := max;
      pending, atEof, tooLong := [], false, false;
    }

    method Scan() returns (token: Option<Bytes>)
      requires Valid() && !tooLong
      modifies this, source, source.source
      ensures Valid()
      ensures token.Some? ==> !tooLong && |token.value| < max && |Unread()| < |old(Unread())|
      ensures token.Some? ==> Tokens(old(Unread())) == [token.value] + Tokens(Unread())
      ensures token.None? && !tooLong ==> old(Unread()) == []
      ensures tooLong ==> token.None? && old(Unread()) != [] && |Tokens(old(Unread()))[0]| >= max
    {
      while true
        invariant Valid() && !tooLong && Unread() == old(Unread())
        decreases !atEof, |source.Rest()|
      {
        if |pending| > 0 || atEof {
          token := Cut();
          if token.Some? { return; }
        }
        if atEof { return None; }
        if |pending| >= max {
          tooLong := true;
          return None;
        }
        Fill();
      }
    }

    // One call of the split function on what is buffered.
    method Cut() returns (token: Option<Bytes>)
      requires Valid()
      modifies `pending
      ensures Valid()
      ensures token.Some? ==> |token.value| < max && |Unread()| < |old(Unread())|
      ensures token.Some? ==> Tokens(old(Unread())) == [token.value] + Tokens(Unread())
      ensures token.None? ==> pending == old(pending) && (atEof ==> pending == [])
      ensures token.None? && pending != [] ==> Unread() != [] && |Tokens(Unread())[0]| >= |pending|
    {
      FirstToken(pending, source.Rest());
      assert atEof ==> pending + source.Rest() == pending;
      var (advance, found) := SplitNull(pending, atEof);
      if found.Some? {
        pending := pending[advance..];
      }
      return found;
    }

    // The loop of scanEnv.
    method All() returns (r: Scanned)
      requires Valid() && !tooLong
      modifies this, source, source.source
      ensures Valid() && r == ScanResult(old(Unread()), max)
    {
      var result: seq<Bytes> := [];
      ghost var all, left := Tokens(Unread()), Tokens(Unread());
      while true
        invariant Valid() && !tooLong && left == Tokens(Unread())
        invariant Progress(all, result, left, max)
        decreases |Unread()|
      {
        var token := Scan();
        if token.None? {
          Finished(all, result, left, max, tooLong);
          return if tooLong then TooLong else Entries(result);
        }
        Took(all, result, left, token.value, Tokens(Unread()), max);
        result, left := result + [token.value], Tokens(Unread());
      }
    }

    // One read into the free part of the buffer.
    method Fill()
      requires Valid() && !atEof && |pending| < max
      modifies this, source, source.source
      ensures Valid() && Unread() == old(Unread()) && tooLong == old(tooLong)
      ensures atEof || |source.Rest()| < |old(source.Rest())|
    {
      var room: nat :| 0 < room <= max - |pending|;
      var p := new Byte[room];
      ghost var rest := source.Rest();
      var n, eof := source.Read(p);
      assert rest == p[..n] + rest[n..];
      Assoc(pending, p[..n], rest[n..]);
      pending := pending + p[..n];
      atEof := eof;
    }
  }

  // bufio.Scanner's limit as scanEnv sets it: 1 GiB.
  const MAX_TOKEN: nat := 1024 * 1024 * 1024

  method ScanEnv(reader: CipherReader, max: nat) returns (r: Scanned)
    requires reader.Valid() && max > 0
    modifies reader, reader.source
    ensures reader.Valid() && r == ScanResult(old(reader.Rest()), max)
  {
    var scanner := new Scanner(reader, max);
    r := scanner.All();
  }

  // The whole way: dump, encrypt while copying, decrypt while scanning. Each of the three
  // stages reads in pieces of arbitrary size.
  method Transport(env: seq<Bytes>, key: Keystream) returns (r: Scanned)
    ensures r == ScanResult(Join(env), MAX_TOKEN)
  {
    var dump := new SourceReader(Join(env));
    var encryptor := new CipherReader(dump, key);
    var stream := encryptor.ReadAll();
    var file := new SourceReader(stream);
    var decryptor := new CipherReader(file, key);
    XorTwice(key, 0, Join(env));
    r := ScanEnv(decryptor, MAX_TOKEN);
  }

  // ---------- what arrives ----------

  predicate NulFree(entries: seq<Bytes>) {
    forall i :: 0 <= i < |entries| ==> NUL !in entries[i]
  }

  lemma {:induction false} TokensAreNulFree(data: Bytes)
    ensures NulFree(Tokens(data))
    decreases |data|
  {
    if data == [] || FirstNul(data) == |data| {
    } else {
      TokensAreNulFree(data[FirstNul(data) + 1..]);
    }
  }

  lemma FirstNulAfter(e: Bytes, rest: Bytes)
    requires NUL !in e
    ensures Tokens(e + [NUL] + rest) == [e] + Tokens(rest)
    ensures e != [] ==> Tokens(e) == [e]
  {
    var all := e + [NUL] + rest;
    Assoc(e, [NUL], rest);
    IndexOfConcat(e, [NUL] + rest, NUL);
    assert all[..|e|] == e && all[|e| + 1..] == rest;
    assert FirstNul(e) == |e| && e[..|e|] == e;
  }

  lemma {:induction false} JoinedTokens(entries: seq<Bytes>)
    requires NulFree(entries) && entries != []
    ensures var last := entries[|entries| - 1];
            Tokens(Join(entries)) == if last == [] then entries[..|entries| - 1] else entries
    decreases |entries|
  {
    var e := entries[0];
    FirstNulAfter(e, Join(entries[1..]));
    if |entries| == 1 {
      assert entries == [e] && entries[..0] == [];
    } else {
      assert Join(entries) == e + [NUL] + Join(entries[1..]);
      JoinedTokens(entries[1..]);
      PrependEntry(entries);
    }
  }

  lemma PrependEntry(entries: seq<Bytes>)
    requires |entries| > 1
    ensures entries == [entries[0]] + entries[1..]
    ensures entries[..|entries| - 1] == [entries[0]] + entries[1..][..|entries| - 2]
    ensures entries[1..][|entries| - 2] == entries[|entries| - 1]
  {
  }

  // The joined form arrives intact exactly when no entry contains a NUL and the last one,
  // if any, is not empty.
  lemma JoinRoundTrip(entries: seq<Bytes>)
    ensures Tokens(Join(entries)) == entries
            <==> NulFree(entries) && (entries == [] || entries[|entries| - 1] != [])
  {
    TokensAreNulFree(Join(entries));
    if NulFree(entries) && entries != [] {
      JoinedTokens(entries);
    }
  }

  // The terminated form arrives intact exactly when no entry contains a NUL.
  lemma {:induction false} TerminateRoundTrip(entries: seq<Bytes>)
    ensures Tokens(Terminate(entries)) == entries <==> NulFree(entries)
    decreases |entries|
  {
    TokensAreNulFree(Terminate(entries));
    if !NulFree(entries) || entries == [] {
    } else {
      assert NulFree(entries[1..]);
      TerminateRoundTrip(entries[1..]);
      FirstNulAfter(entries[0], Terminate(entries[1..]));
      assert entries == [entries[0]] + entries[1..];
    }
  }

  // End to end, whatever the keystream and the read sizes: the parent gets the child's
  // environment back if and only if it can be told apart and fits the scanner.
  lemma ArrivesIntact(env: seq<Bytes>, max: nat)
    requires max > 0
    ensures ScanResult(Join(env), max) == Entries(env)
            <==> && NulFree(env) && (env == [] || env[|env| - 1] != [])
                 && AllFit(env, max)
  {
    JoinRoundTrip(env);
  }
}
