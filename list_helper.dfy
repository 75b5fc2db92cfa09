/**
 * List operations of ListHelper: dictionary lookup, search, union, filter, traversal and
 * element-wise conversion.  A Dictionary<string, T> is its sequence of entries in
 * enumeration order (keys distinct); a null source is `None`.
 */
module ListHelper {
  import opened Wrappers
  import opened Strings

  /** Distinct keys: what a Dictionary guarantees about its entries. */
  predicate DistinctKeys<T>(entries: seq<(string, T)>) {
    forall i, j :: 0 <= i < j < |entries| ==> entries[i].0 != entries[j].0
  }

  /** The key comparison GetItem uses. */
  predicate KeyMatches(k: string, key: string, ignoreCase: bool) {
    if ignoreCase then EqualsIgnoreCase(k, key) else k == key
  }

  /** The index of the first entry whose key matches, if any. */
  function FirstMatch<T>(entries: seq<(string, T)>, key: string, ignoreCase: bool): (r: Option<nat>)
    ensures r.Some? ==> r.value < |entries| && KeyMatches(entries[r.value].0, key, ignoreCase)
    ensures forall i :: 0 <= i < |entries| && (r.None? || i < r.value) ==> !KeyMatches(entries[i].0, key, ignoreCase)
  {
    if entries == [] then None
    else if KeyMatches(entries[0].0, key, ignoreCase) then Some(0)
    else match FirstMatch(entries[1..], key, ignoreCase)
      case None => None
      case Some(k) => Some(k + 1)
  }

  /**
   * GetItem: scans the keys in enumeration order and returns the value of the first one
   * equal to `key` (ordinal, or ignoring case), else `default(T)`.
   */
  method GetItem<T>(dict: seq<(string, T)>, key: string, ignoreCase: bool, default: T) returns (r: T)
    ensures FirstMatch(dict, key, ignoreCase).Some? ==> r == dict[FirstMatch(dict, key, ignoreCase).value].1
    ensures FirstMatch(dict, key, ignoreCase).None? ==> r == default
  {
    var i := 0;
    while i < |dict|
      invariant 0 <= i <= |dict|
      invariant forall j :: 0 <= j < i ==> !KeyMatches(dict[j].0, key, ignoreCase)
    {
      var k := dict[i].0;
      if ignoreCase {
        if EqualsIgnoreCase(k, key) {
          FirstMatchIs(dict, key, ignoreCase, i);
          return dict[i].1;
        }
      } else {
        if k == key {
          FirstMatchIs(dict, key, ignoreCase, i);
          return dict[i].1;
        }
      }
      i := i + 1;
    }
    return default;
  }

  lemma FirstMatchIs<T>(entries: seq<(string, T)>, key: string, ignoreCase: bool, i: nat)
    requires i < |entries| && KeyMatches(entries[i].0, key, ignoreCase)
    requires forall j :: 0 <= j < i ==> !KeyMatches(entries[j].0, key, ignoreCase)
    ensures FirstMatch(entries, key, ignoreCase) == Some(i)
  {
    var r := FirstMatch(entries, key, ignoreCase);
    assert r.Some? && r.value <= i;
  }

  /** With the ordinal comparison and distinct keys, GetItem is the dictionary lookup. */
  lemma GetItemOrdinalIsLookup<T>(dict: seq<(string, T)>, key: string, i: nat)
    requires DistinctKeys(dict) && i < |dict| && dict[i].0 == key
    ensures FirstMatch(dict, key, false) == Some(i)
  {
    FirstMatchIs(dict, key, false, i);
  }

  /** The first index whose element satisfies `condition`, if any. */
  function FirstSatisfying<T>(data: seq<T>, condition: T -> bool): (r: Option<nat>)
    ensures r.Some? ==> r.value < |data| && condition(data[r.value])
    ensures forall i :: 0 <= i < |data| && (r.None? || i < r.value) ==> !condition(data[i])
  {
    if data == [] then None
    else if condition(data[0]) then Some(0)
    else match FirstSatisfying(data[1..], condition)
      case None => None
      case Some(k) => Some(k + 1)
  }

  /**
   * IndexOf: the counter `n` starts at -1 and is bumped before each test, so when no
   * element matches the result is the last index, |data| - 1 (and -1 only for no data).
   */
  method IndexOf<T>(data: seq<T>, condition: T -> bool) returns (n: int)
    ensures FirstSatisfying(data, condition).Some? ==> n == FirstSatisfying(data, condition).value
    ensures FirstSatisfying(data, condition).None? ==> n == |data| - 1
  {
    n := -1;
    var i := 0;
    while i < |data|
      invariant 0 <= i <= |data| && n == i - 1
      invariant forall j :: 0 <= j < i ==> !condition(data[j])
    {
      n := n + 1;
      if condition(data[i]) {
        FirstSatisfyingIs(data, condition, i);
        return n;
      }
      i := i + 1;
    }
  }

  lemma FirstSatisfyingIs<T>(data: seq<T>, condition: T -> bool, i: nat)
    requires i < |data| && condition(data[i])
    requires forall j :: 0 <= j < i ==> !condition(data[j])
    ensures FirstSatisfying(data, condition) == Some(i)
  {
    var r := FirstSatisfying(data, condition);
    assert r.Some? && r.value <= i;
  }

  /** IndexOf does not tell "no match" from "the last element matches". */
  lemma IndexOfAmbiguous()
    ensures FirstSatisfying([1, 2], (x: int) => x == 2) == Some(1)
    ensures FirstSatisfying([1, 2], (x: int) => x == 3) == None
  {
    FirstSatisfyingIs([1, 2], (x: int) => x == 2, 1);
  }

  /** The list Union builds: `list1`, then each element of `list2` not yet present. */
  function UnionOf<T(==)>(list1: seq<T>, list2: seq<T>): (r: seq<T>)
    ensures |list1| <= |r| <= |list1| + |list2|
    ensures r[..|list1|] == list1
    decreases |list2|
  {
    if list2 == [] then list1
    else
      var init := UnionOf(list1, list2[..|list2| - 1]);
      var last := list2[|list2| - 1];
      if last in init then init else init + [last]
  }

  /** Union: copies `list1` and adds each element of `list2` that `data` does not contain yet. */
  method Union<T(==)>(list1: seq<T>, list2: seq<T>) returns (data: seq<T>)
    ensures data == UnionOf(list1, list2)
  {
    data := list1;
    var i := 0;
    while i < |list2|
      invariant 0 <= i <= |list2|
      invariant data == UnionOf(list1, list2[..i])
    {
      var item := list2[i];
      assert list2[..i + 1][..i] == list2[..i];
      if item !in data {
        data := data + [item];
      }
      i := i + 1;
    }
    assert list2[..i] == list2;
  }

  /** The union holds exactly the elements of either list. */
  lemma {:induction false} UnionMembers<T>(list1: seq<T>, list2: seq<T>, x: T)
    ensures x in UnionOf(list1, list2) <==> x in list1 || x in list2
    decreases |list2|
  {
    if list2 != [] {
      var init := list2[..|list2| - 1];
      UnionMembers(list1, init, x);
      assert list2 == init + [list2[|list2| - 1]];
    }
  }

  predicate NoDuplicates<T(==)>(s: seq<T>) {
    forall i, j :: 0 <= i < j < |s| ==> s[i] != s[j]
  }

  /** A union of a duplicate-free list adds no duplicates. */
  lemma {:induction false} UnionNoDuplicates<T>(list1: seq<T>, list2: seq<T>)
    requires NoDuplicates(list1)
    ensures NoDuplicates(UnionOf(list1, list2))
    decreases |list2|
  {
    if list2 != [] {
      UnionNoDuplicates(list1, list2[..|list2| - 1]);
    }
  }

  /** The elements of `s` satisfying `f`, in their original order. */
  function Filter<T>(s: seq<T>, f: T -> bool): (r: seq<T>)
    ensures |r| <= |s|
    ensures forall i :: 0 <= i < |r| ==> f(r[i])
    decreases |s|
  {
    if s == [] then []
    else
      var init := Filter(s[..|s| - 1], f);
      if f(s[|s| - 1]) then init + [s[|s| - 1]] else init
  }

  /** Search: adds every element satisfying `func` to a new list; a null source gives []. */
  method Search<T>(source: Option<seq<T>>, func: T -> bool) returns (result: seq<T>)
    ensures source.None? ==> result == []
    ensures source.Some? ==> result == Filter(source.value, func)
  {
    result := [];
    if source.Some? {
      var s := source.value;
      var i := 0;
      while i < |s|
        invariant 0 <= i <= |s|
        invariant result == Filter(s[..i], func)
      {
        assert s[..i + 1][..i] == s[..i];
        if func(s[i]) {
          result := result + [s[i]];
        }
        i := i + 1;
      }
      assert s[..i] == s;
    }
  }

  /** Filtering keeps exactly the satisfying elements. */
  lemma {:induction false} FilterMembers<T>(s: seq<T>, f: T -> bool, x: T)
    ensures x in Filter(s, f) <==> x in s && f(x)
    decreases |s|
  {
    if s != [] {
      var init := s[..|s| - 1];
      FilterMembers(init, f, x);
      assert s == init + [s[|s| - 1]];
    }
  }

  /** Filtering keeps everything when every element satisfies the predicate. */
  lemma {:induction false} FilterAll<T>(s: seq<T>, f: T -> bool)
    requires forall i :: 0 <= i < |s| ==> f(s[i])
    ensures Filter(s, f) == s
    decreases |s|
  {
    if s != [] {
      FilterAll(s[..|s| - 1], f);
      assert s == s[..|s| - 1] + [s[|s| - 1]];
    }
  }

  /**
   * Each: calls the action on every element and collects the elements.  The action's
   * effects are outside the model; the result is the source itself.
   */
  method Each<T>(source: Option<seq<T>>) returns (result: seq<T>)
    ensures source.None? ==> result == []
    ensures source.Some? ==> result == source.value
  {
    result := [];
    if source.Some? {
      var s := source.value;
      var i := 0;
      while i < |s|
        invariant 0 <= i <= |s| && result == s[..i]
      {
        result := result + [s[i]];
        i := i + 1;
      }
      assert s[..i] == s;
    }
  }

  /**
   * Each2: collects the elements and records the calls made to the action: each element
   * with its predecessor, the default value standing in for the first one's.
   */
  method Each2<T>(source: Option<seq<T>>, default: T) returns (result: seq<T>, calls: seq<(T, T)>)
    ensures source.None? ==> result == [] && calls == []
    ensures source.Some? ==> result == source.value
    ensures source.Some? ==> |calls| == |source.value|
    ensures source.Some? ==> forall i :: 0 <= i < |calls| ==> calls[i].0 == source.value[i]
    ensures source.Some? ==> forall i :: 1 <= i < |calls| ==> calls[i].1 == source.value[i - 1]
    ensures |calls| > 0 ==> calls[0].1 == default
  {
    result := [];
    calls := [];
    if source.Some? {
      var s := source.value;
      var preItem := default;
      var i := 0;
      while i < |s|
        invariant 0 <= i <= |s| && result == s[..i] && |calls| == i
        invariant preItem == if i == 0 then default else s[i - 1]
        invariant forall k :: 0 <= k < i ==> calls[k].0 == s[k]
        invariant forall k :: 1 <= k < i ==> calls[k].1 == s[k - 1]
        invariant i > 0 ==> calls[0].1 == default
      {
        var item := s[i];
        calls := calls + [(item, preItem)];
        result := result + [item];
        preItem := item;
        i := i + 1;
      }
      assert s[..i] == s;
    }
  }

  /** Cast with a conversion function: maps element-wise, a null source gives []. */
  method Cast<T, U>(source: Option<seq<T>>, func: T -> U) returns (result: seq<U>)
    ensures source.None? ==> result == []
    ensures source.Some? ==> |result| == |source.value|
    ensures source.Some? ==> forall i :: 0 <= i < |result| ==> result[i] == func(source.value[i])
  {
    result := [];
    if source.Some? {
      var s := source.value;
      var i := 0;
      while i < |s|
        invariant 0 <= i <= |s| && |result| == i
        invariant forall k :: 0 <= k < i ==> result[k] == func(s[k])
      {
        result := result + [func(s[i])];
        i := i + 1;
      }
    }
  }
}
