// Code block attributes in the HTML form, `{ key=value other=value }`, as printed and parsed
// in document/attributes.go.
module Attributes {
  import opened Basics
  import opened Sorting
  import opened Text

  type Items = map<string, string>

  // ---------- extractAttributes ----------

  predicate Opens(s: string, i: nat) {
    i + 1 < |s| && s[i] == '{' && s[i + 1] != '}'
  }

  // Where the first `{` that is not directly closed is, or the length of the text.
  function OpenAt(s: string, from: nat): (i: nat)
    ensures i == |s| || (from <= i < |s| && Opens(s, i))
    ensures forall k :: from <= k < i ==> !Opens(s, k)
    decreases |s| - from
  {
    if from >= |s| then |s| else if Opens(s, from) then from else OpenAt(s, from + 1)
  }

  // The attributes in an info string: up to the first `}`, from the first `{` before it.
  function Extract(s: string): string {
    var i, j := OpenAt(s, 0), IndexOf(s, '}');
    if j < |s| && i < j then s[i..j + 1] else ""
  }

  // The surrounding braces make trimming whitespace a no-op, so it is not modelled.
  method ExtractAttributes(source: string) returns (attributes: string)
    ensures attributes == Extract(source)
  {
    var start, stop := -1, -1;
    var i := 0;
    while i < |source|
      invariant 0 <= i <= |source| && stop == -1 && i <= IndexOf(source, '}')
      invariant start == -1 ==> forall k :: 0 <= k < i ==> !Opens(source, k)
      invariant start != -1 ==> 1 <= start <= i && start - 1 == OpenAt(source, 0)
    {
      if start == -1 && source[i] == '{' && i + 1 < |source| && source[i + 1] != '}' {
        assert Opens(source, i);
        start := i + 1;
      }
      if stop == -1 && source[i] == '}' {
        stop := i;
        break;
      }
      i := i + 1;
    }
    if start >= 0 && stop >= 0 {
      return source[start - 1..stop + 1];
    }
    return "";
  }

  // ---------- parsing ----------

  predicate IsBrace(c: char) {
    c == '{' || c == '}'
  }

  function TrimLeft(s: string): string {
    if s != "" && IsBrace(s[0]) then TrimLeft(s[1..]) else s
  }

  function TrimRight(s: string): string {
    if s != "" && IsBrace(s[|s| - 1]) then TrimRight(s[..|s| - 1]) else s
  }

  // bytes.Trim(s, "{}")
  function Trim(s: string): string {
    TrimRight(TrimLeft(s))
  }

  // bytes.Split
  function Fields(s: string): (fields: seq<string>)
    ensures fields != []
    decreases |s|
  {
    var i := IndexOf(s, ' ');
    if i < |s| then [s[..i]] + Fields(s[i + 1..]) else [s]
  }

  // bytes.SplitN(item, "=", 2), with an empty value if there is no `=`.
  function KeyOf(item: string): string {
    item[..IndexOf(item, '=')]
  }

  function ValueOf(item: string): string {
    var i := IndexOf(item, '=');
    if i < |item| then item[i + 1..] else ""
  }

  function ItemsOf(fields: seq<string>): Items {
    if fields == [] then map[]
    else
      var before, item := ItemsOf(fields[..|fields| - 1]), fields[|fields| - 1];
      if KeyOf(item) == "" then before else before[KeyOf(item) := ValueOf(item)]
  }

  function Parsed(raw: string): Items {
    ItemsOf(Fields(Trim(Extract(raw))))
  }

  method ParseRawAttributes(raw: string) returns (result: Items)
    ensures result == ItemsOf(Fields(raw))
  {
    var items := Fields(raw);
    result := map[];
    for i := 0 to |items|
      invariant result == ItemsOf(items[..i])
    {
      assert items[..i + 1][..i] == items[..i];
      var key, value := KeyOf(items[i]), "";
      if key != "" {
        if IndexOf(items[i], '=') < |items[i]| {
          value := ValueOf(items[i]);
        }
        result := result[key := value];
      }
    }
    assert items[..|items|] == items;
  }

  method Parse(raw: string) returns (items: Items)
    ensures items == Parsed(raw)
  {
    var rawAttr := ExtractAttributes(raw);
    items := ParseRawAttributes(Trim(rawAttr));
  }

  // ---------- printing ----------

  // The key `name` goes first.
  predicate Before(a: string, b: string) {
    (a == "name" && b != "name") || (b != "name" && Less(a, b))
  }

  predicate Ordered(keys: seq<string>) {
    forall i, j :: 0 <= i < j < |keys| ==> Before(keys[i], keys[j])
  }

  // The keys of a map in printing order.
  ghost predicate KeysInOrder(keys: seq<string>, items: Items) {
    Ordered(keys) && forall k :: k in keys <==> k in items
  }

  function Pair(key: string, items: Items): string
    requires key in items
  {
    key + "=" + items[key]
  }

  // What the format string "%s=%s " yields.
  function Entry(key: string, items: Items): string
    requires key in items
  {
    Pair(key, items) + " "
  }

  function Body(keys: seq<string>, items: Items): string
    requires forall k :: k in keys ==> k in items
  {
    if keys == [] then "" else Entry(keys[0], items) + Body(keys[1..], items)
  }

  function Printed(keys: seq<string>, items: Items): string
    requires forall k :: k in keys ==> k in items
  {
    "{" + (if keys == [] then "" else " ") + Body(keys, items) + "}"
  }

  // Ranging over the map visits the keys in an arbitrary order; sorting removes it.
  method GetSortedKeys(items: Items) returns (keys: seq<string>)
    ensures KeysInOrder(keys, items)
  {
    var unsorted: seq<string> := [];
    var left := items.Keys;
    while left != {}
      invariant forall k :: k in unsorted <==> k in items && k !in left
      invariant left <= items.Keys
      invariant Distinct(unsorted)
      decreases left
    {
      var k :| k in left;
      unsorted := unsorted + [k];
      left := left - {k};
    }
    BeforeIsStrict();
    keys := Sort(unsorted, Before);
    SortedIsOrdered(keys);
  }

  method Write(items: Items) returns (out: string)
    ensures exists keys :: KeysInOrder(keys, items) && out == Printed(keys, items)
  {
    var keys := GetSortedKeys(items);
    out := "{";
    var i := 0;
    while i < |keys|
      invariant 0 <= i <= |keys|
      invariant out == WrittenUpTo(keys, items, i)
    {
      WrittenStep(keys, items, i);
      if i == 0 {
        out := out + " ";
      }
      out := out + Entry(keys[i], items);
      i := i + 1;
    }
    WrittenEnd(keys, items);
    out := out + "}";
  }

  // The output before the i-th key is written.
  ghost function WrittenUpTo(keys: seq<string>, items: Items, i: nat): string
    requires i <= |keys| && forall k :: k in keys ==> k in items
  {
    "{" + ((if i == 0 then "" else " ") + BodyUpTo(keys, items, i))
  }

  ghost function BodyUpTo(keys: seq<string>, items: Items, n: nat): string
    requires n <= |keys| && forall k :: k in keys ==> k in items
  {
    if n == 0 then "" else BodyUpTo(keys, items, n - 1) + Entry(keys[n - 1], items)
  }

  lemma WrittenStep(keys: seq<string>, items: Items, i: nat)
    requires i < |keys| && forall k :: k in keys ==> k in items
    ensures WrittenUpTo(keys, items, i + 1)
         == WrittenUpTo(keys, items, i) + (if i == 0 then " " else "") + Entry(keys[i], items)
    ensures i > 0 ==> WrittenUpTo(keys, items, i) + "" == WrittenUpTo(keys, items, i)
  {
    var body, entry := BodyUpTo(keys, items, i), Entry(keys[i], items);
    if i == 0 {
      assert BodyUpTo(keys, items, 1) == entry;
      Assoc("{", " ", entry);
    } else {
      Assoc(" ", body, entry);
      Assoc("{", " " + body, entry);
    }
  }

  lemma WrittenEnd(keys: seq<string>, items: Items)
    requires forall k :: k in keys ==> k in items
    ensures WrittenUpTo(keys, items, |keys|) + "}" == Printed(keys, items)
  {
    BodyUpToEnd(keys, items, 0);
    assert keys[|keys|..] == [] && keys[0..] == keys;
  }

  lemma {:induction false} BodyUpToEnd(keys: seq<string>, items: Items, n: nat)
    requires n <= |keys| && forall k :: k in keys ==> k in items
    ensures BodyUpTo(keys, items, n) + Body(keys[n..], items) == BodyUpTo(keys, items, |keys|)
    decreases |keys| - n
  {
    if n == |keys| {
    } else {
      BodyUpToEnd(keys, items, n + 1);
      assert keys[n..][1..] == keys[n + 1..];
      Assoc(BodyUpTo(keys, items, n), Entry(keys[n], items), Body(keys[n + 1..], items));
    }
  }

  // ---------- the order of keys ----------

  lemma BeforeIsStrict()
    ensures StrictOrder(Before)
  {
    forall a, b
      ensures Before(a, b) ==> !Before(b, a)
    {
      LessIsTotal(a, b);
    }
    forall a, b, c | Before(a, b) && Before(b, c)
      ensures Before(a, c)
    {
      if Less(a, b) && Less(b, c) {
        LessIsTransitive(a, b, c);
      }
    }
  }

  lemma SortedIsOrdered(keys: seq<string>)
    requires Sorted(keys, Before) && Distinct(keys)
    ensures Ordered(keys)
  {
    forall i, j | 0 <= i < j < |keys|
      ensures Before(keys[i], keys[j])
    {
      LessIsTotal(keys[i], keys[j]);
    }
  }

  // There is only one printing order, so the output does not depend on the map iteration.
  lemma {:induction false} OneOrder(a: seq<string>, b: seq<string>)
    requires Ordered(a) && Ordered(b) && forall k :: k in a <==> k in b
    ensures a == b
    decreases |a|
  {
    assert a == [] || a[0] in a;
    assert b == [] || b[0] in b;
    if a == [] {
    } else {
      SameFirst(a, b);
      assert forall k :: k in a[1..] <==> k in a && k != a[0] by { FirstIsUnique(a); }
      assert forall k :: k in b[1..] <==> k in b && k != b[0] by { FirstIsUnique(b); }
      OneOrder(a[1..], b[1..]);
    }
  }

  lemma FirstIsUnique(a: seq<string>)
    requires Ordered(a) && a != []
    ensures forall i :: 0 < i < |a| ==> a[i] != a[0]
  {
    LessIsTotal(a[0], a[0]);
  }

  lemma SameFirst(a: seq<string>, b: seq<string>)
    requires Ordered(a) && Ordered(b) && a != [] && b != [] && forall k :: k in a <==> k in b
    ensures a[0] == b[0]
  {
    assert a[0] in b && b[0] in a;
    LessIsTotal(a[0], b[0]);
  }

  lemma PrintedIsUnique(items: Items, keys: seq<string>, keys': seq<string>)
    requires KeysInOrder(keys, items) && KeysInOrder(keys', items)
    ensures Printed(keys, items) == Printed(keys', items)
  {
    OneOrder(keys, keys');
  }
}
