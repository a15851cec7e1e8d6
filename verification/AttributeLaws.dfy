// Printing attributes and parsing them back, also from inside an info string.
module AttributeLaws {
  import opened Basics
  import opened Attributes

  predicate Free(s: string, c: char) {
    c !in s
  }

  // What the format can express.
  predicate Printable(items: Items) {
    forall k :: k in items ==>
      && k != "" && Free(k, ' ') && Free(k, '=') && Free(k, '}')
      && Free(items[k], ' ') && Free(items[k], '}')
  }

  predicate BraceFree(s: string) {
    Free(s, '{') && Free(s, '}')
  }

  // ---------- extraction ----------

  // In a text without `}` but for the last rune, after a brace-free prefix, the
  // attributes are found where they are.
  lemma ExtractFinds(prefix: string, body: string)
    requires BraceFree(prefix) && Free(body, '}') && body != ""
    ensures Extract(prefix + ("{" + body + "}")) == "{" + body + "}"
  {
    var s, n := prefix + ("{" + body + "}"), |prefix|;
    assert s[n..] == "{" + body + "}";
    assert s[n] == '{' && s[n + 1] == body[0] && s[|s| - 1] == '}';
    forall k | 0 <= k < |s| - 1
      ensures s[k] != '}' && (k < n ==> s[k] != '{')
    {
      assert s[k] == if k < n then prefix[k] else if k == n then '{' else body[k - n - 1];
    }
    assert IndexOf(s, '}') == |s| - 1;
    assert Opens(s, n) && OpenAt(s, 0) == n;
  }

  lemma ExtractNothing(prefix: string)
    requires BraceFree(prefix)
    ensures Extract(prefix + "{}") == ""
  {
    var s, n := prefix + "{}", |prefix|;
    assert forall k :: 0 <= k < n ==> s[k] == prefix[k];
    assert s[n] == '{' && s[n + 1] == '}';
    assert IndexOf(s, '}') == n + 1;
    assert forall k :: 0 <= k < |s| ==> !Opens(s, k);
  }

  lemma ExtractShape(s: string)
    ensures var e := Extract(s);
            e == "" || (|e| >= 3 && e[0] == '{' && e[1] != '}' && e[|e| - 1] == '}' && Free(e[..|e| - 1], '}'))
  {
  }

  lemma ExtractIsIdempotent(s: string)
    ensures Extract(Extract(s)) == Extract(s)
  {
    ExtractShape(s);
    var e := Extract(s);
    if e != "" {
      var body := e[1..|e| - 1];
      assert e == "" + ("{" + body + "}");
      assert forall k :: 0 <= k < |body| ==> body[k] == e[..|e| - 1][k + 1];
      ExtractFinds("", body);
    }
  }

  // ---------- splitting ----------

  lemma FieldsCons(field: string, rest: string)
    requires Free(field, ' ')
    ensures Fields(field + " " + rest) == [field] + Fields(rest)
  {
    var s := field + " " + rest;
    Assoc(field, " ", rest);
    IndexOfConcat(field, " " + rest, ' ');
    assert s[..|field|] == field && s[|field| + 1..] == rest;
  }

  function Pairs(keys: seq<string>, items: Items): (pairs: seq<string>)
    requires forall k :: k in keys ==> k in items
    ensures |pairs| == |keys|
  {
    seq(|keys|, i requires 0 <= i < |keys| => Pair(keys[i], items))
  }

  lemma {:induction false} FieldsOfBody(keys: seq<string>, items: Items)
    requires Printable(items) && forall k :: k in keys ==> k in items
    ensures Fields(Body(keys, items)) == Pairs(keys, items) + [""]
    decreases |keys|
  {
    if keys == [] {
      assert Body(keys, items) == "" && Pairs(keys, items) == [];
    } else {
      FieldsOfBody(keys[1..], items);
      PairHasNoSpace(keys[0], items);
      FieldsCons(Pair(keys[0], items), Body(keys[1..], items));
      PairsCons(keys, items);
    }
  }

  lemma PairsCons(keys: seq<string>, items: Items)
    requires keys != [] && forall k :: k in keys ==> k in items
    ensures Pairs(keys, items) + [""] == [Pair(keys[0], items)] + (Pairs(keys[1..], items) + [""])
  {
  }

  lemma PairHasNoSpace(k: string, items: Items)
    requires Printable(items) && k in items
    ensures Free(Pair(k, items), ' ') && Free(Pair(k, items), '}')
  {
  }

  lemma PairSplits(k: string, items: Items)
    requires Printable(items) && k in items
    ensures KeyOf(Pair(k, items)) == k && ValueOf(Pair(k, items)) == items[k]
  {
    var p := Pair(k, items);
    Assoc(k, "=", items[k]);
    IndexOfConcat(k, "=" + items[k], '=');
    assert p[..|k|] == k && p[|k| + 1..] == items[k];
  }

  function Restrict(keys: seq<string>, items: Items): Items
    requires forall k :: k in keys ==> k in items
  {
    map k | k in keys :: items[k]
  }

  lemma {:induction false} ItemsOfPairs(keys: seq<string>, items: Items)
    requires Printable(items) && forall k :: k in keys ==> k in items
    ensures ItemsOf([""] + Pairs(keys, items)) == Restrict(keys, items)
    decreases |keys|
  {
    if keys == [] {
      ItemsOfSnoc([], "");
      assert [""] + Pairs(keys, items) == [] + [""];
    } else {
      var n := |keys| - 1;
      ItemsOfPairs(keys[..n], items);
      PairsSnoc(keys, items);
      ItemsOfPairSnoc([""] + Pairs(keys[..n], items), keys[n], items);
      RestrictSnoc(keys, items);
    }
  }

  lemma ItemsOfPairSnoc(fields: seq<string>, k: string, items: Items)
    requires Printable(items) && k in items
    ensures ItemsOf(fields + [Pair(k, items)]) == ItemsOf(fields)[k := items[k]]
  {
    ItemsOfSnoc(fields, Pair(k, items));
    PairSplits(k, items);
  }

  lemma RestrictSnoc(keys: seq<string>, items: Items)
    requires keys != [] && forall k :: k in keys ==> k in items
    ensures var n := |keys| - 1; Restrict(keys, items) == Restrict(keys[..n], items)[keys[n] := items[keys[n]]]
  {
    assert forall k :: k in keys <==> k in keys[..|keys| - 1] || k == keys[|keys| - 1];
  }

  lemma PairsSnoc(keys: seq<string>, items: Items)
    requires keys != [] && forall k :: k in keys ==> k in items
    ensures [""] + Pairs(keys, items) == ([""] + Pairs(keys[..|keys| - 1], items)) + [Pair(keys[|keys| - 1], items)]
  {
  }

  lemma ItemsOfSnoc(fields: seq<string>, item: string)
    ensures ItemsOf(fields + [item])
         == if KeyOf(item) == "" then ItemsOf(fields) else ItemsOf(fields)[KeyOf(item) := ValueOf(item)]
  {
    assert (fields + [item])[..|fields|] == fields;
  }

  // ---------- round trip ----------

  lemma {:induction false} BodyShape(keys: seq<string>, items: Items)
    requires Printable(items) && forall k :: k in keys ==> k in items
    ensures Free(Body(keys, items), '}')
    ensures keys != [] ==> |Body(keys, items)| > 0 && Body(keys, items)[|Body(keys, items)| - 1] == ' '
    decreases |keys|
  {
    if keys == [] {
    } else {
      PairHasNoSpace(keys[0], items);
      BodyShape(keys[1..], items);
    }
  }

  lemma TrimBraces(inner: string)
    requires inner != "" && !IsBrace(inner[0]) && !IsBrace(inner[|inner| - 1])
    ensures Trim("{" + inner + "}") == inner
  {
    var s := "{" + inner + "}";
    assert s[1..] == inner + "}" && (inner + "}")[0] == inner[0];
    assert TrimLeft(s) == inner + "}";
    assert (inner + "}")[..|inner|] == inner;
    assert TrimRight(inner + "}") == TrimRight(inner);
  }

  // Parsing what was printed gives the attributes back, also behind other text.
  lemma PrintThenParse(prefix: string, keys: seq<string>, items: Items)
    requires BraceFree(prefix) && Printable(items) && KeysInOrder(keys, items)
    ensures Parsed(prefix + Printed(keys, items)) == items
  {
    if keys == [] {
      assert items == map[];
      NothingParsed(prefix);
    } else {
      ParsedBody(prefix, keys, items);
      RestrictToAll(keys, items);
    }
  }

  lemma RestrictToAll(keys: seq<string>, items: Items)
    requires forall k :: k in keys <==> k in items
    ensures Restrict(keys, items) == items
  {
  }

  lemma ParsedBody(prefix: string, keys: seq<string>, items: Items)
    requires BraceFree(prefix) && Printable(items) && keys != [] && forall k :: k in keys ==> k in items
    ensures Parsed(prefix + Printed(keys, items)) == Restrict(keys, items)
  {
    TrimmedBody(prefix, keys, items);
    FieldsOfInner(keys, items);
    ItemsOfInner(keys, items);
  }

  lemma NothingParsed(prefix: string)
    requires BraceFree(prefix)
    ensures Parsed(prefix + "{}") == map[]
  {
    ExtractNothing(prefix);
    assert Fields(Trim("")) == [""];
    ItemsOfSnoc([], "");
    assert [] + [""] == [""];
  }

  lemma ItemsOfInner(keys: seq<string>, items: Items)
    requires Printable(items) && forall k :: k in keys ==> k in items
    ensures ItemsOf([""] + Pairs(keys, items) + [""]) == Restrict(keys, items)
  {
    ItemsOfSnoc([""] + Pairs(keys, items), "");
    ItemsOfPairs(keys, items);
  }

  lemma TrimmedBody(prefix: string, keys: seq<string>, items: Items)
    requires BraceFree(prefix) && Printable(items) && keys != [] && forall k :: k in keys ==> k in items
    ensures Trim(Extract(prefix + Printed(keys, items))) == " " + Body(keys, items)
  {
    var body := Body(keys, items);
    BodyShape(keys, items);
    assert Printed(keys, items) == "{" + (" " + body) + "}";
    assert Free(" " + body, '}');
    TrimmedInner(prefix, " " + body);
  }

  lemma TrimmedInner(prefix: string, inner: string)
    requires BraceFree(prefix) && inner != "" && Free(inner, '}')
    requires !IsBrace(inner[0]) && !IsBrace(inner[|inner| - 1])
    ensures Trim(Extract(prefix + ("{" + inner + "}"))) == inner
  {
    ExtractFinds(prefix, inner);
    TrimBraces(inner);
  }

  lemma FieldsOfInner(keys: seq<string>, items: Items)
    requires Printable(items) && forall k :: k in keys ==> k in items
    ensures Fields(" " + Body(keys, items)) == [""] + Pairs(keys, items) + [""]
  {
    FieldsOfBody(keys, items);
    FieldsBehindSpace(Body(keys, items), Pairs(keys, items));
  }

  lemma FieldsBehindSpace(body: string, pairs: seq<string>)
    requires Fields(body) == pairs + [""]
    ensures Fields(" " + body) == [""] + pairs + [""]
  {
    FieldsCons("", body);
    assert "" + " " + body == " " + body;
    Assoc([""], pairs, [""]);
  }

  // Whatever is parsed can be printed.
  lemma ParsedIsPrintable(s: string)
    ensures Printable(Parsed(s))
  {
    ExtractShape(s);
    var e := Extract(s);
    TrimInside(e);
    FieldsAreFree(Trim(e));
    ItemsArePrintable(Fields(Trim(e)));
  }

  lemma {:induction false} TrimLeftIsSuffix(s: string)
    ensures |TrimLeft(s)| <= |s| && TrimLeft(s) == s[|s| - |TrimLeft(s)|..]
  {
    if s == "" || !IsBrace(s[0]) {
    } else {
      TrimLeftIsSuffix(s[1..]);
    }
  }

  lemma {:induction false} TrimRightIsPrefix(s: string)
    ensures TrimRight(s) <= s && (TrimRight(s) != "" ==> !IsBrace(TrimRight(s)[|TrimRight(s)| - 1]))
  {
    if s == "" || !IsBrace(s[|s| - 1]) {
    } else {
      TrimRightIsPrefix(s[..|s| - 1]);
    }
  }

  lemma TrimInside(e: string)
    requires e == "" || (e[|e| - 1] == '}' && Free(e[..|e| - 1], '}'))
    ensures Free(Trim(e), '}')
  {
    TrimLeftIsSuffix(e);
    TrimRightIsPrefix(TrimLeft(e));
    var d := |e| - |TrimLeft(e)|;
    forall k | 0 <= k < |Trim(e)|
      ensures Trim(e)[k] != '}'
    {
      assert Trim(e)[k] == TrimLeft(e)[k] == e[d + k];
      assert d + k < |e| - 1 ==> e[d + k] == e[..|e| - 1][d + k];
    }
  }

  lemma {:induction false} FieldsAreFree(s: string)
    requires Free(s, '}')
    ensures forall i :: 0 <= i < |Fields(s)| ==> Free(Fields(s)[i], ' ') && Free(Fields(s)[i], '}')
    decreases |s|
  {
    if IndexOf(s, ' ') == |s| {
    } else {
      FieldsAreFree(s[IndexOf(s, ' ') + 1..]);
    }
  }

  lemma {:induction false} ItemsArePrintable(fields: seq<string>)
    requires forall i :: 0 <= i < |fields| ==> Free(fields[i], ' ') && Free(fields[i], '}')
    ensures Printable(ItemsOf(fields))
    decreases |fields|
  {
    if fields == [] {
    } else {
      ItemsArePrintable(fields[..|fields| - 1]);
    }
  }

  // The round trip holds exactly for the attributes that the format can express.
  lemma RoundTrip(prefix: string, keys: seq<string>, items: Items)
    requires BraceFree(prefix) && KeysInOrder(keys, items)
    ensures Parsed(prefix + Printed(keys, items)) == items <==> Printable(items)
  {
    ParsedIsPrintable(prefix + Printed(keys, items));
    if Printable(items) {
      PrintThenParse(prefix, keys, items);
    }
  }
}
