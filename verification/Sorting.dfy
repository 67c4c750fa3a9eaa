/** Sorting by a string key: what `std::sort` promises, and a stable sort that keeps the promise. */
module Sorting {
  import opened Sequences
  import opened Text

  predicate SortedBy<T>(s: seq<T>, key: T -> string) {
    forall i, j :: 0 <= i < j < |s| ==> !Less(key(s[j]), key(s[i]))
  }

  /** A sorted permutation; equal keys come in any order. */
  predicate IsSortOf<T(==)>(r: seq<T>, s: seq<T>, key: T -> string) {
    SortedBy(r, key) && multiset(r) == multiset(s)
  }

  ghost predicate UniqueKeys<T>(s: seq<T>, key: T -> string) {
    forall i, j :: 0 <= i < j < |s| ==> key(s[i]) != key(s[j])
  }

  function Place<T>(s: seq<T>, x: T, key: T -> string): (r: seq<T>)
  {
    if s == [] then [x]
    else if Less(key(x), key(s[0])) then [x] + s
    else [s[0]] + Place(s[1..], x, key)
  }

  function StableSort<T>(s: seq<T>, key: T -> string): (r: seq<T>)
  {
    if s == [] then [] else Place(StableSort(s[..|s| - 1], key), s[|s| - 1], key)
  }

  lemma {:induction false} PlacePermutes<T>(s: seq<T>, x: T, key: T -> string)
    ensures multiset(Place(s, x, key)) == multiset(s) + multiset{x}
  {
    if s != [] {
      assert s == [s[0]] + s[1..];
      if !Less(key(x), key(s[0])) {
        PlacePermutes(s[1..], x, key);
      }
    }
  }

  lemma {:induction false} PlaceMembers<T>(s: seq<T>, x: T, key: T -> string)
    ensures forall y :: y in Place(s, x, key) ==> y == x || y in s
  {
    if s != [] { PlaceMembers(s[1..], x, key); }
  }

  lemma {:induction false} PlaceSorts<T>(s: seq<T>, x: T, key: T -> string)
    requires SortedBy(s, key)
    ensures SortedBy(Place(s, x, key), key)
  {
    if s == [] {
    } else if Less(key(x), key(s[0])) {
      forall j | 0 <= j < |s| ensures !Less(key(s[j]), key(x)) {
        LessAsymmetric(key(x), key(s[0]));
        if j > 0 { NotLessTransitive(key(x), key(s[0]), key(s[j])); }
      }
    } else {
      var rest := Place(s[1..], x, key);
      PlaceSorts(s[1..], x, key);
      PlaceMembers(s[1..], x, key);
      forall k | 0 <= k < |rest| ensures !Less(key(rest[k]), key(s[0])) {
        assert rest[k] in rest;
      }
    }
  }

  lemma {:induction false} StableSortSorts<T>(s: seq<T>, key: T -> string)
    ensures IsSortOf(StableSort(s, key), s, key)
  {
    if s != [] {
      var front := s[..|s| - 1];
      StableSortSorts(front, key);
      PlaceSorts(StableSort(front, key), s[|s| - 1], key);
      PlacePermutes(StableSort(front, key), s[|s| - 1], key);
      assert s == front + [s[|s| - 1]];
    }
  }

  /** `std::sort`. */
  method StdSort<T(==)>(s: seq<T>, key: T -> string) returns (r: seq<T>)
    ensures IsSortOf(r, s, key)
  {
    StableSortSorts(s, key);
    r :| IsSortOf(r, s, key);
  }

  lemma UniqueKeysPermute<T>(a: seq<T>, b: seq<T>, key: T -> string)
    requires multiset(a) == multiset(b) && UniqueKeys(a, key)
    ensures UniqueKeys(b, key)
  {
    SameElements(a, b);
    AllDifferentPermutes(a, b);
    forall i, j | 0 <= i < j < |b| ensures key(b[i]) != key(b[j]) {
      assert b[i] in a && b[j] in a;
    }
  }
}
