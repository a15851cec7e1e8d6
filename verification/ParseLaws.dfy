// What parsing does with any text at all, and what printing puts where: attributes taken apart
// piece by piece.
module ParseLaws {
  import opened Basics
  import opened Attributes
  import opened AttributeLaws
  import opened Text

  // ---------- finding the attributes ----------

  // From the first brace that is not closed at once to the first closing brace, or nothing.
  lemma ExtractSpans(s: string, i: nat, j: nat)
    requires j < |s| && s[j] == '}' && '}' !in s[..j]
    ensures i + 1 < j && s[i] == '{' && '{' !in s[..i] ==> Extract(s) == s[i..j + 1]
    ensures '{' !in s[..j] || (j > 0 && s[j - 1] == '{' && '{' !in s[..j - 1]) ==> Extract(s) == ""
  {
    assert IndexOf(s, '}') == j;
    if i + 1 < j && s[i] == '{' && '{' !in s[..i] {
      assert s[i + 1] == s[..j][i + 1] && Opens(s, i);
      assert forall k :: 0 <= k < i ==> s[k] == s[..i][k];
      assert OpenAt(s, 0) == i;
    }
    if '{' !in s[..j] || (j > 0 && s[j - 1] == '{' && '{' !in s[..j - 1]) {
      forall k | 0 <= k < j
        ensures !Opens(s, k)
      {
        assert s[k] == s[..j][k];
        assert k < j - 1 ==> s[k] == s[..j - 1][k];
      }
      assert OpenAt(s, 0) >= j;
    }
  }

  lemma NothingUnclosed(s: string)
    requires '}' !in s
    ensures Extract(s) == ""
  {
  }

  predicate AllBraces(s: string) {
    forall i :: 0 <= i < |s| ==> IsBrace(s[i])
  }

  // Trimming takes all braces at both ends and nothing else.
  lemma TrimTakesBraces(s: string) returns (i: nat, j: nat)
    ensures i <= j <= |s| && Trim(s) == s[i..j]
    ensures AllBraces(s[..i]) && AllBraces(s[j..])
    ensures i < j ==> !IsBrace(s[i]) && !IsBrace(s[j - 1])
  {
    i := TrimLeftTakes(s);
    var k := TrimRightTakes(s[i..]);
    j := i + k;
    assert s[i..][..k] == s[i..j] && s[i..][k..] == s[j..];
    assert Trim(s) == s[i..j];
  }

  lemma {:induction false} TrimLeftTakes(s: string) returns (i: nat)
    ensures i <= |s| && TrimLeft(s) == s[i..] && AllBraces(s[..i]) && (i < |s| ==> !IsBrace(s[i]))
  {
    if s == "" || !IsBrace(s[0]) {
      i := 0;
    } else {
      i := TrimLeftTakes(s[1..]);
      assert s[1..][i..] == s[i + 1..];
      assert s[..i + 1] == [s[0]] + s[1..][..i];
      i := i + 1;
    }
  }

  lemma {:induction false} TrimRightTakes(s: string) returns (k: nat)
    ensures k <= |s| && TrimRight(s) == s[..k] && AllBraces(s[k..]) && (k > 0 ==> !IsBrace(s[k - 1]))
  {
    if s == "" || !IsBrace(s[|s| - 1]) {
      k := |s|;
    } else {
      k := TrimRightTakes(s[..|s| - 1]);
      assert s[..|s| - 1][..k] == s[..k];
      assert s[k..] == s[..|s| - 1][k..] + [s[|s| - 1]];
    }
  }

  // ---------- taking them apart ----------

  function Spaced(fields: seq<string>): string
    requires fields != []
  {
    if |fields| == 1 then fields[0] else fields[0] + " " + Spaced(fields[1..])
  }

  // The fields are what stands between the spaces, empty ones included.
  lemma {:induction false} FieldsRejoin(s: string)
    ensures Spaced(Fields(s)) == s && forall i :: 0 <= i < |Fields(s)| ==> Free(Fields(s)[i], ' ')
    decreases |s|
  {
    var i := IndexOf(s, ' ');
    if i == |s| {
    } else {
      var first, rest := s[..i], Fields(s[i + 1..]);
      FieldsRejoin(s[i + 1..]);
      assert Fields(s) == [first] + rest;
      SpacedCons(first, rest);
      assert s == first + " " + s[i + 1..];
      assert Free(first, ' ');
    }
  }

  lemma SpacedCons(first: string, rest: seq<string>)
    requires rest != []
    ensures Spaced([first] + rest) == first + " " + Spaced(rest)
  {
    assert ([first] + rest)[1..] == rest;
  }

  // An item is its key and its value around the first equals sign, or a key alone.
  lemma ItemIsKeyAndValue(item: string)
    ensures '=' in item ==> item == KeyOf(item) + "=" + ValueOf(item) && '=' !in KeyOf(item)
    ensures '=' !in item ==> KeyOf(item) == item && ValueOf(item) == ""
  {
    var i := IndexOf(item, '=');
    if i < |item| {
      assert item == item[..i] + "=" + item[i + 1..];
    } else {
      assert item[..i] == item;
    }
  }

  // The last item with a key decides its value; without one, or with an empty key, it is absent.
  lemma {:induction false} LastItemWins(fields: seq<string>, k: string, i: int)
    requires -1 <= i < |fields| && (i >= 0 ==> KeyOf(fields[i]) == k)
    requires forall j :: i < j < |fields| ==> KeyOf(fields[j]) != k
    ensures k in ItemsOf(fields) <==> i >= 0 && k != ""
    ensures k in ItemsOf(fields) ==> ItemsOf(fields)[k] == ValueOf(fields[i])
    decreases |fields|
  {
    if fields == [] || i == |fields| - 1 {
      if k == "" && fields != [] {
        NoEmptyKey(fields);
      }
    } else {
      LastItemWins(fields[..|fields| - 1], k, i);
    }
  }

  lemma {:induction false} NoEmptyKey(fields: seq<string>)
    ensures "" !in ItemsOf(fields)
    decreases |fields|
  {
    if fields == [] {
    } else {
      NoEmptyKey(fields[..|fields| - 1]);
    }
  }

  // ---------- the order of printing ----------

  // `name` is printed first if it is there, and all the other keys in ascending order.
  lemma NameComesFirst(keys: seq<string>, items: Items)
    requires KeysInOrder(keys, items)
    ensures "name" in items ==> keys[0] == "name" && "{ name=" + items["name"] + " " <= Printed(keys, items)
    ensures forall i, j :: 0 <= i < j < |keys| && keys[i] != "name" ==> keys[j] != "name" && Less(keys[i], keys[j])
  {
    if "name" in items {
      var i :| 0 <= i < |keys| && keys[i] == "name";
      assert i > 0 ==> Before(keys[0], keys[i]);
      var rest := Body(keys[1..], items);
      assert Printed(keys, items) == "{" + " " + ("name" + "=" + items["name"] + " " + rest) + "}";
      assert "{ name=" + items["name"] + " " + (rest + "}")
          == "{" + " " + ("name" + "=" + items["name"] + " " + rest) + "}";
    }
  }

  // What Write puts for no attributes, and for one.
  lemma PrintedForms(k: string, v: string)
    ensures Printed([], map[]) == "{}"
    ensures Printed([k], map[k := v]) == "{ " + k + "=" + v + " }"
  {
    assert [k][1..] == [];
    assert Body([k], map[k := v]) == k + "=" + v + " " + "";
  }
}
