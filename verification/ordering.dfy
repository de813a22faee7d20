/** Sorting and deduplication, for the `sort`, `dedup` and `BTreeMap` iteration the code relies on. */
module Ordering {
  import opened Text

  ghost predicate TotalOrder<T(!new)>(le: (T, T) -> bool) {
    && (forall a :: le(a, a))
    && (forall a, b :: le(a, b) || le(b, a))
    && (forall a, b :: le(a, b) && le(b, a) ==> a == b)
    && (forall a, b, c :: le(a, b) && le(b, c) ==> le(a, c))
  }

  lemma StringOrder()
    ensures TotalOrder(Le)
  {
    forall a { LeReflexive(a); }
    forall a, b { LeTotal(a, b); }
    forall a, b | Le(a, b) && Le(b, a) { LeAntisymmetric(a, b); }
    forall a, b, c | Le(a, b) && Le(b, c) { LeTransitive(a, b, c); }
  }

  function Elems<T>(s: seq<T>): set<T> {
    set x | x in s
  }

  lemma ElemsPrefix<T>(s: seq<T>, i: nat)
    requires i < |s|
    ensures Elems(s[..i + 1]) == Elems(s[..i]) + {s[i]}
  {
    assert s[..i + 1] == s[..i] + [s[i]];
  }

  lemma ElemsEmpty<T>(s: seq<T>)
    ensures Elems(s) == {} <==> s == []
  {
    if s != [] { assert s[0] in Elems(s); }
  }

  predicate NoDuplicates<T(==)>(s: seq<T>) {
    forall i, j :: 0 <= i < j < |s| ==> s[i] != s[j]
  }

  predicate Sorted<T>(s: seq<T>, le: (T, T) -> bool) {
    forall i, j :: 0 <= i < j < |s| ==> le(s[i], s[j])
  }

  predicate StrictlySorted<T(==)>(s: seq<T>, le: (T, T) -> bool) {
    forall i, j :: 0 <= i < j < |s| ==> le(s[i], s[j]) && s[i] != s[j]
  }

  /** Where a sorted sequence takes a new element, as the library's stable sort would. */
  function InsertSorted<T>(x: T, s: seq<T>, le: (T, T) -> bool): seq<T> {
    if s == [] || le(x, s[0]) then [x] + s else [s[0]] + InsertSorted(x, s[1..], le)
  }

  /** `slice::sort`. */
  function Sort<T>(s: seq<T>, le: (T, T) -> bool): seq<T> {
    if s == [] then [] else InsertSorted(s[0], Sort(s[1..], le), le)
  }

  /** `Vec::dedup`: drops an element equal to the one kept before it. */
  function Dedup<T(==)>(s: seq<T>): seq<T> {
    if |s| <= 1 then s
    else if s[0] == s[1] then Dedup(s[1..])
    else [s[0]] + Dedup(s[1..])
  }

  lemma {:induction false} InsertSortedCorrect<T(!new)>(x: T, s: seq<T>, le: (T, T) -> bool)
    requires TotalOrder(le) && Sorted(s, le)
    ensures Sorted(InsertSorted(x, s, le), le)
    ensures Elems(InsertSorted(x, s, le)) == {x} + Elems(s)
  {
    var r := InsertSorted(x, s, le);
    if s == [] {
    } else if le(x, s[0]) {
      forall j | 0 <= j < |s| ensures le(x, s[j]) {
        assert le(s[0], s[j]);
      }
    } else {
      InsertSortedCorrect(x, s[1..], le);
      var rest := InsertSorted(x, s[1..], le);
      assert s == [s[0]] + s[1..];
      forall j | 0 <= j < |rest| ensures le(s[0], rest[j]) {
        assert rest[j] in Elems(rest);
      }
      assert Elems(r) == {s[0]} + Elems(rest);
    }
  }

  lemma {:induction false} SortCorrect<T(!new)>(s: seq<T>, le: (T, T) -> bool)
    requires TotalOrder(le)
    ensures Sorted(Sort(s, le), le) && Elems(Sort(s, le)) == Elems(s)
  {
    if s != [] {
      SortCorrect(s[1..], le);
      InsertSortedCorrect(s[0], Sort(s[1..], le), le);
      assert s == [s[0]] + s[1..];
    }
  }

  lemma {:induction false} DedupCorrect<T(!new)>(s: seq<T>, le: (T, T) -> bool)
    requires TotalOrder(le) && Sorted(s, le)
    ensures StrictlySorted(Dedup(s), le) && Elems(Dedup(s)) == Elems(s)
  {
    if |s| > 1 {
      DedupCorrect(s[1..], le);
      var rest := Dedup(s[1..]);
      assert s == [s[0]] + s[1..];
      if s[0] != s[1] {
        forall j | 0 <= j < |rest| ensures le(s[0], rest[j]) && s[0] != rest[j] {
          assert rest[j] in Elems(s[1..]);
          var k :| 0 <= k < |s[1..]| && s[1..][k] == rest[j];
          assert le(s[0], s[1]) && (k > 0 ==> le(s[1], s[k + 1]));
        }
        assert Elems([s[0]] + rest) == {s[0]} + Elems(rest);
      } else {
        assert s[0] == s[1..][0];
      }
    }
  }

  /** A strictly sorted sequence is determined by its elements. */
  lemma {:induction false} StrictlySortedUnique<T(!new)>(a: seq<T>, b: seq<T>, le: (T, T) -> bool)
    requires TotalOrder(le)
    requires StrictlySorted(a, le) && StrictlySorted(b, le) && Elems(a) == Elems(b)
    ensures a == b
  {
    ElemsEmpty(a);
    ElemsEmpty(b);
    if a != [] {
      assert a[0] in Elems(b) && b[0] in Elems(a);
      assert le(a[0], b[0]) && le(b[0], a[0]);
      assert a == [a[0]] + a[1..] && b == [b[0]] + b[1..];
      assert a[0] !in a[1..] && b[0] !in b[1..];
      assert Elems(a[1..]) == Elems(a) - {a[0]};
      assert Elems(b[1..]) == Elems(b) - {b[0]};
      StrictlySortedUnique(a[1..], b[1..], le);
    }
  }

  lemma {:induction false} InsertSortedDistinct<T>(x: T, s: seq<T>, le: (T, T) -> bool)
    requires NoDuplicates(s) && x !in s
    ensures NoDuplicates(InsertSorted(x, s, le))
    ensures forall y :: y in InsertSorted(x, s, le) <==> y == x || y in s
  {
    if s != [] && !le(x, s[0]) {
      InsertSortedDistinct(x, s[1..], le);
      assert s == [s[0]] + s[1..];
      var rest := InsertSorted(x, s[1..], le);
      assert s[0] !in rest;
      assert forall j :: 0 <= j < |rest| ==> rest[j] in rest;
    }
  }

  lemma StrictlySortedSplit<T>(s: seq<T>, le: (T, T) -> bool)
    ensures StrictlySorted(s, le) <==> Sorted(s, le) && NoDuplicates(s)
  {
  }

  /** The elements of a set in order: how a `BTreeMap` with these keys is walked. */
  ghost function SortedSeq<T(!new)>(s: set<T>, le: (T, T) -> bool): (r: seq<T>)
    requires TotalOrder(le)
    ensures StrictlySorted(r, le) && Elems(r) == s
    decreases |s|
  {
    if s == {} then []
    else
      var x :| x in s;
      var rest := SortedSeq(s - {x}, le);
      assert x !in Elems(rest);
      StrictlySortedSplit(rest, le);
      InsertSortedDistinct(x, rest, le);
      StrictlySortedSplit(InsertSorted(x, rest, le), le);
      InsertSortedCorrect(x, rest, le);
      InsertSorted(x, rest, le)
  }

  /** Sort, then dedup: the set of the elements in order. */
  lemma SortDedup<T(!new)>(s: seq<T>, le: (T, T) -> bool)
    requires TotalOrder(le)
    ensures Dedup(Sort(s, le)) == SortedSeq(Elems(s), le)
  {
    SortCorrect(s, le);
    DedupCorrect(Sort(s, le), le);
    StrictlySortedUnique(Dedup(Sort(s, le)), SortedSeq(Elems(s), le), le);
  }

  /** `SortedSeq` for strings. */
  ghost function SortedStrings(s: set<string>): (r: seq<string>)
    ensures StrictlySorted(r, Le) && Elems(r) == s
  {
    StringOrder();
    SortedSeq(s, Le)
  }

  lemma SortDedupStrings(s: seq<string>)
    ensures Dedup(Sort(s, Le)) == SortedStrings(Elems(s))
  {
    StringOrder();
    SortDedup(s, Le);
  }

  /** The keys of a map in order, as a `BTreeMap` yields them. */
  method OrderedKeys(keys: set<string>) returns (r: seq<string>)
    ensures r == SortedStrings(keys)
  {
    r := [];
    var rest := keys;
    while rest != {}
      invariant rest <= keys && Elems(r) == keys - rest && NoDuplicates(r) && Sorted(r, Le)
      decreases rest
    {
      var k :| k in rest;
      InsertNewString(k, r);
      r := InsertSorted(k, r, Le);
      rest := rest - {k};
    }
    SortedStringsUnique(r, keys);
  }

  lemma InsertNewString(k: string, s: seq<string>)
    requires k !in Elems(s) && NoDuplicates(s) && Sorted(s, Le)
    ensures NoDuplicates(InsertSorted(k, s, Le)) && Sorted(InsertSorted(k, s, Le), Le)
    ensures Elems(InsertSorted(k, s, Le)) == Elems(s) + {k}
  {
    StringOrder();
    InsertSortedDistinct(k, s, Le);
    InsertSortedCorrect(k, s, Le);
  }

  lemma SortedStringsUnique(s: seq<string>, keys: set<string>)
    requires NoDuplicates(s) && Sorted(s, Le) && Elems(s) == keys
    ensures s == SortedStrings(keys)
  {
    StringOrder();
    StrictlySortedSplit(s, Le);
    StrictlySortedUnique(s, SortedStrings(keys), Le);
  }
}
