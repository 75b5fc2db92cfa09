/**
 * Enumerable.OrderBy with a string key: a sort under a three-way string comparer.  OrderBy
 * is also stable; the model does not state that, since where keys determine elements every
 * sorted arrangement is the same (SortedUnique).
 * The comparer is a parameter; where a property needs it, it is required to be a total
 * order that equates only equal strings (the ordinal comparer is one).
 */
module Ordering {

  /** IComparer<string>.Compare: negative, zero or positive. */
  type Comparer = (string, string) -> int

  /** Comparing b with a gives the opposite sign of comparing a with b. */
  ghost predicate Converse(cmp: Comparer) {
    forall a, b :: cmp(a, b) <= 0 <==> cmp(b, a) >= 0
  }

  ghost predicate Transitive(cmp: Comparer) {
    forall a, b, c :: cmp(a, b) <= 0 && cmp(b, c) <= 0 ==> cmp(a, c) <= 0
  }

  /** The comparer is a total order whose only ties are equal strings. */
  ghost predicate TotalOrder(cmp: Comparer) {
    Converse(cmp) && Transitive(cmp) && forall a, b :: cmp(a, b) == 0 ==> a == b
  }

  /** Each element of `s` is determined by its key (the keys of a dictionary are distinct). */
  ghost predicate KeyDetermines<T>(s: seq<T>, key: T -> string) {
    forall a, b :: a in s && b in s && key(a) == key(b) ==> a == b
  }

  /** Each element's key compares at most equal to the next one's. */
  ghost predicate SortedBy<T>(s: seq<T>, key: T -> string, cmp: Comparer) {
    forall i :: 0 < i < |s| ==> cmp(key(s[i - 1]), key(s[i])) <= 0
  }

  /** Inserts `x` after every element whose key does not compare greater than its own. */
  function Insert<T>(x: T, s: seq<T>, key: T -> string, cmp: Comparer): (r: seq<T>)
    ensures multiset(r) == multiset(s) + multiset{x}
    ensures r[0] == x || (s != [] && r[0] == s[0])
  {
    if s == [] then [x]
    else if cmp(key(x), key(s[0])) < 0 then [x] + s
    else
      assert s == [s[0]] + s[1..];
      [s[0]] + Insert(x, s[1..], key, cmp)
  }

  /**
   * OrderBy(key): the elements in ascending key order; elements with equal keys keep their
   * original order (each later element is inserted after its equals).
   */
  function SortBy<T>(s: seq<T>, key: T -> string, cmp: Comparer): (r: seq<T>)
    ensures multiset(r) == multiset(s)
  {
    if s == [] then []
    else
      assert s == s[..|s| - 1] + [s[|s| - 1]];
      Insert(s[|s| - 1], SortBy(s[..|s| - 1], key, cmp), key, cmp)
  }

  lemma {:induction false} InsertSorted<T>(x: T, s: seq<T>, key: T -> string, cmp: Comparer)
    requires Converse(cmp)
    requires SortedBy(s, key, cmp)
    ensures SortedBy(Insert(x, s, key, cmp), key, cmp)
  {
    if s != [] && cmp(key(x), key(s[0])) >= 0 {
      var t := s[1..];
      InsertSorted(x, t, key, cmp);
      var rest := Insert(x, t, key, cmp);
      assert cmp(key(s[0]), key(rest[0])) <= 0 by {
        if rest[0] != x { assert rest[0] == s[1]; }
      }
      assert Insert(x, s, key, cmp) == [s[0]] + rest;
    }
  }

  /** In a key-sorted sequence the first key compares at most equal to every key. */
  lemma {:induction false} HeadLeast<T>(s: seq<T>, key: T -> string, cmp: Comparer, j: nat)
    requires Converse(cmp) && Transitive(cmp)
    requires SortedBy(s, key, cmp)
    requires j < |s|
    ensures cmp(key(s[0]), key(s[j])) <= 0
  {
    if j == 0 {
      assert cmp(key(s[0]), key(s[0])) <= 0 <==> cmp(key(s[0]), key(s[0])) >= 0;
    } else {
      HeadLeast(s, key, cmp, j - 1);
      assert cmp(key(s[j - 1]), key(s[j])) <= 0;
    }
  }

  /** OrderBy's result is sorted by key. */
  lemma {:induction false} SortBySorted<T>(s: seq<T>, key: T -> string, cmp: Comparer)
    requires TotalOrder(cmp)
    ensures SortedBy(SortBy(s, key, cmp), key, cmp)
  {
    if s != [] {
      SortBySorted(s[..|s| - 1], key, cmp);
      InsertSorted(s[|s| - 1], SortBy(s[..|s| - 1], key, cmp), key, cmp);
    }
  }

  /** Two key-sorted arrangements of the same elements of `u` start with the same element. */
  lemma HeadsEqual<T>(r1: seq<T>, r2: seq<T>, u: seq<T>, key: T -> string, cmp: Comparer)
    requires TotalOrder(cmp)
    requires SortedBy(r1, key, cmp) && SortedBy(r2, key, cmp)
    requires multiset(r1) == multiset(r2) <= multiset(u)
    requires KeyDetermines(u, key)
    requires r1 != []
    ensures r2 != [] && r1[0] == r2[0]
  {
    assert |r2| == |multiset(r2)| == |multiset(r1)| == |r1|;
    var a, b := r1[0], r2[0];
    assert a in multiset(r2);
    var j :| 0 <= j < |r2| && r2[j] == a;
    assert b in multiset(r1);
    var i :| 0 <= i < |r1| && r1[i] == b;
    HeadLeast(r2, key, cmp, j);
    HeadLeast(r1, key, cmp, i);
    assert cmp(key(a), key(b)) <= 0 <==> cmp(key(b), key(a)) >= 0;
    assert a in multiset(u) && b in multiset(u);
  }

  /** Removing the same first element from two equal multisets leaves equal multisets. */
  lemma TailsAgree<T>(r1: seq<T>, r2: seq<T>, u: seq<T>)
    requires r1 != [] && r2 != [] && r1[0] == r2[0]
    requires multiset(r1) == multiset(r2) <= multiset(u)
    ensures multiset(r1[1..]) == multiset(r2[1..]) <= multiset(u)
  {
    assert r1 == [r1[0]] + r1[1..];
    assert r2 == [r2[0]] + r2[1..];
    assert multiset(r1) == multiset{r1[0]} + multiset(r1[1..]);
    assert multiset(r2) == multiset{r1[0]} + multiset(r2[1..]);
    assert forall x :: multiset(r1[1..])[x] == multiset(r1)[x] - (if x == r1[0] then 1 else 0);
  }

  /**
   * Two key-sorted arrangements of the same elements of `u`, where a key determines its
   * element in `u`, are equal.
   */
  lemma {:induction false} SortedUnique<T>(r1: seq<T>, r2: seq<T>, u: seq<T>, key: T -> string, cmp: Comparer)
    requires TotalOrder(cmp)
    requires SortedBy(r1, key, cmp) && SortedBy(r2, key, cmp)
    requires multiset(r1) == multiset(r2) <= multiset(u)
    requires KeyDetermines(u, key)
    ensures r1 == r2
  {
    if r1 == [] {
      assert |multiset(r2)| == 0;
    } else {
      HeadsEqual(r1, r2, u, key, cmp);
      TailsAgree(r1, r2, u);
      SortedUnique(r1[1..], r2[1..], u, key, cmp);
      assert r1 == [r1[0]] + r1[1..];
      assert r2 == [r2[0]] + r2[1..];
    }
  }

  /**
   * OrderBy is canonical: two arrangements of the same elements sort to the same sequence,
   * when a key determines its element and the comparer is a total order.
   */
  lemma SortByCanonical<T>(s1: seq<T>, s2: seq<T>, key: T -> string, cmp: Comparer)
    requires TotalOrder(cmp)
    requires multiset(s1) == multiset(s2)
    requires KeyDetermines(s1, key)
    ensures SortBy(s1, key, cmp) == SortBy(s2, key, cmp)
  {
    var r1, r2 := SortBy(s1, key, cmp), SortBy(s2, key, cmp);
    SortBySorted(s1, key, cmp);
    SortBySorted(s2, key, cmp);
    SortedUnique(r1, r2, s1, key, cmp);
  }
}
