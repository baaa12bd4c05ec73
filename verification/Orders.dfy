/**
 Sorting as the Rust library calls used by the engine promise it: the same elements, in ascending order of
 their keys. The lemmas say when the outcome depends on the elements alone and not on their first order.
 */
module Orders {

  ghost predicate TotalOrder<K(!new)>(leq: (K, K) -> bool) {
    && (forall a, b :: leq(a, b) || leq(b, a))
    && (forall a, b :: leq(a, b) && leq(b, a) ==> a == b)
    && (forall a, b, c :: leq(a, b) && leq(b, c) ==> leq(a, c))
  }

  /** Ascending keys; neighbours may share a key. */
  ghost predicate SortedByKey<T, K>(s: seq<T>, key: T -> K, leq: (K, K) -> bool) {
    forall i, j | 0 <= i < j < |s| :: leq(key(s[i]), key(s[j]))
  }

  /** Ascending keys, no two equal. */
  ghost predicate StrictlySorted<T, K>(s: seq<T>, key: T -> K, leq: (K, K) -> bool) {
    forall i, j | 0 <= i < j < |s| :: leq(key(s[i]), key(s[j])) && key(s[i]) != key(s[j])
  }

  ghost predicate DistinctKeys<T, K>(s: seq<T>, key: T -> K) {
    forall i, j | 0 <= i < j < |s| :: key(s[i]) != key(s[j])
  }

  ghost predicate Ascending<T>(s: seq<T>, leq: (T, T) -> bool) {
    forall i, j | 0 <= i < j < |s| :: leq(s[i], s[j])
  }

  ghost predicate StrictlyAscending<T>(s: seq<T>, leq: (T, T) -> bool) {
    forall i, j | 0 <= i < j < |s| :: leq(s[i], s[j]) && s[i] != s[j]
  }

  function InsertByKey<T, K>(x: T, s: seq<T>, key: T -> K, leq: (K, K) -> bool): seq<T> {
    if s == [] then [x]
    else if leq(key(x), key(s[0])) then [x] + s
    else [s[0]] + InsertByKey(x, s[1..], key, leq)
  }

  /** Stable sort by key (`sort_by` on a vector). */
  function SortByKey<T, K>(s: seq<T>, key: T -> K, leq: (K, K) -> bool): seq<T> {
    if s == [] then [] else InsertByKey(s[0], SortByKey(s[1..], key, leq), key, leq)
  }

  lemma {:induction false} InsertKeepsElements<T, K>(x: T, s: seq<T>, key: T -> K, leq: (K, K) -> bool)
    ensures multiset(InsertByKey(x, s, key, leq)) == multiset(s) + multiset{x}
  {
    if s == [] || leq(key(x), key(s[0])) {
    } else {
      InsertKeepsElements(x, s[1..], key, leq);
      assert s == [s[0]] + s[1..];
    }
  }

  lemma {:induction false} InsertKeepsSorted<T, K(!new)>(x: T, s: seq<T>, key: T -> K, leq: (K, K) -> bool)
    requires TotalOrder(leq) && SortedByKey(s, key, leq)
    ensures SortedByKey(InsertByKey(x, s, key, leq), key, leq)
  {
    if s == [] || leq(key(x), key(s[0])) {
    } else {
      var rest := InsertByKey(x, s[1..], key, leq);
      InsertKeepsSorted(x, s[1..], key, leq);
      InsertKeepsElements(x, s[1..], key, leq);
      forall j | 0 <= j < |rest| ensures leq(key(s[0]), key(rest[j])) {
        assert rest[j] in multiset(rest);
        assert rest[j] == x || rest[j] in s[1..];
      }
    }
  }

  lemma {:induction false} SortSorts<T, K(!new)>(s: seq<T>, key: T -> K, leq: (K, K) -> bool)
    requires TotalOrder(leq)
    ensures SortedByKey(SortByKey(s, key, leq), key, leq)
    ensures multiset(SortByKey(s, key, leq)) == multiset(s)
  {
    if s == [] {
    } else {
      var rest := SortByKey(s[1..], key, leq);
      SortSorts(s[1..], key, leq);
      InsertKeepsSorted(s[0], rest, key, leq);
      InsertKeepsElements(s[0], rest, key, leq);
      assert SortByKey(s, key, leq) == InsertByKey(s[0], rest, key, leq);
      assert multiset(s) == multiset([s[0]] + s[1..]) by { assert s == [s[0]] + s[1..]; }
    }
  }

  /** The elements with one key, in the order they stand in. */
  ghost function WithKey<T, K(!new)>(s: seq<T>, key: T -> K, k: K): seq<T> {
    if s == [] then [] else (if key(s[0]) == k then [s[0]] else []) + WithKey(s[1..], key, k)
  }

  lemma WithKeyOfCons<T, K(!new)>(x: T, s: seq<T>, key: T -> K, k: K)
    ensures WithKey([x] + s, key, k) == if key(x) == k then [x] + WithKey(s, key, k) else WithKey(s, key, k)
  {
    assert ([x] + s)[1..] == s;
  }

  lemma {:induction false} InsertIsStable<T, K(!new)>(x: T, s: seq<T>, key: T -> K, leq: (K, K) -> bool, k: K)
    requires TotalOrder(leq)
    ensures WithKey(InsertByKey(x, s, key, leq), key, k) == WithKey([x] + s, key, k)
  {
    if s == [] || leq(key(x), key(s[0])) {
      assert InsertByKey(x, s, key, leq) == [x] + s;
    } else {
      var rest := InsertByKey(x, s[1..], key, leq);
      InsertIsStable(x, s[1..], key, leq, k);
      WithKeyOfCons(s[0], rest, key, k);
      WithKeyOfCons(x, s[1..], key, k);
      WithKeyOfCons(x, s, key, k);
      WithKeyOfCons(s[0], s[1..], key, k);
      assert s == [s[0]] + s[1..];
      DifferentKeys(x, s[0], key, leq);
    }
  }

  lemma DifferentKeys<T, K(!new)>(x: T, y: T, key: T -> K, leq: (K, K) -> bool)
    requires TotalOrder(leq) && !leq(key(x), key(y))
    ensures key(x) != key(y)
  {
    assert leq(key(y), key(y));
  }

  /** Sorting leaves elements of one key in their order. */
  lemma {:induction false} SortIsStable<T, K(!new)>(s: seq<T>, key: T -> K, leq: (K, K) -> bool, k: K)
    requires TotalOrder(leq)
    ensures WithKey(SortByKey(s, key, leq), key, k) == WithKey(s, key, k)
  {
    if s == [] {
    } else {
      SortIsStable(s[1..], key, leq, k);
      InsertIsStable(s[0], SortByKey(s[1..], key, leq), key, leq, k);
      WithKeyOfCons(s[0], SortByKey(s[1..], key, leq), key, k);
    }
  }

  /** Sort by the elements themselves. */
  function Sort<T>(s: seq<T>, leq: (T, T) -> bool): seq<T> {
    SortByKey(s, x => x, leq)
  }

  lemma SortAscends<T(!new)>(s: seq<T>, leq: (T, T) -> bool)
    requires TotalOrder(leq)
    ensures Ascending(Sort(s, leq), leq) && multiset(Sort(s, leq)) == multiset(s)
  {
    SortSorts(s, x => x, leq);
    var r := Sort(s, leq);
    assert SortedByKey(r, x => x, leq);
  }

  lemma StrictlyAscendingUnique<T(!new)>(a: seq<T>, b: seq<T>, leq: (T, T) -> bool)
    requires TotalOrder(leq)
    requires StrictlyAscending(a, leq) && StrictlyAscending(b, leq)
    requires forall x :: x in a <==> x in b
    ensures a == b
  {
    StrictlySortedUnique(a, b, x => x, leq);
  }

  /** Two strictly ascending sequences with the same elements are the same sequence. */
  lemma {:induction false} StrictlySortedUnique<T, K(!new)>(a: seq<T>, b: seq<T>, key: T -> K, leq: (K, K) -> bool)
    requires TotalOrder(leq)
    requires StrictlySorted(a, key, leq) && StrictlySorted(b, key, leq)
    requires forall x :: x in a <==> x in b
    ensures a == b
  {
    assert b != [] ==> b[0] in a;
    if a == [] {
    } else {
      assert a[0] in b && b[0] in a;
      assert a[0] == b[0];
      forall x ensures x in a[1..] <==> x in b[1..] {
        TailMembership(a, x);
        TailMembership(b, x);
        assert a[0] !in a[1..] && b[0] !in b[1..];
      }
      StrictlySortedUnique(a[1..], b[1..], key, leq);
    }
  }

  lemma TailMembership<T>(s: seq<T>, x: T)
    requires s != []
    ensures x in s <==> x == s[0] || x in s[1..]
  {
    assert s == [s[0]] + s[1..];
  }

  /** Sorting forgets the first order of elements whose keys are distinct. */
  lemma SortStrict<T, K(!new)>(s: seq<T>, key: T -> K, leq: (K, K) -> bool)
    requires TotalOrder(leq) && DistinctKeys(s, key)
    ensures StrictlySorted(SortByKey(s, key, leq), key, leq)
    ensures forall x :: x in SortByKey(s, key, leq) <==> x in s
    ensures |SortByKey(s, key, leq)| == |s|
  {
    var r := SortByKey(s, key, leq);
    SortSorts(s, key, leq);
    forall x ensures x in r <==> x in s { assert x in multiset(r) <==> x in multiset(s); }
    assert |multiset(r)| == |multiset(s)|;
    PermutationKeepsDistinctKeys(s, r, key);
  }

  lemma PermutationKeepsDistinctKeys<T, K>(s: seq<T>, r: seq<T>, key: T -> K)
    requires DistinctKeys(s, key) && multiset(r) == multiset(s)
    ensures DistinctKeys(r, key)
  {
    forall i, j | 0 <= i < j < |r| ensures key(r[i]) != key(r[j]) {
      DistinctElementsOnce(s, key, r[i]);
      assert r == r[..j] + r[j..] && r[i] in r[..j];
      assert r[j..][0] == r[j];
      assert multiset(r) == multiset(r[..j]) + multiset(r[j..]);
      assert r[i] != r[j];
      assert r[i] in multiset(s) && r[j] in multiset(s);
    }
  }

  lemma {:induction false} DistinctElementsOnce<T, K>(s: seq<T>, key: T -> K, x: T)
    requires DistinctKeys(s, key)
    ensures multiset(s)[x] <= 1
  {
    if s == [] {
    } else {
      DistinctElementsOnce(s[1..], key, x);
      assert s == [s[0]] + s[1..];
      assert s[0] !in s[1..];
    }
  }

  /** Vec::dedup: drop an element equal to the one before it. */
  function Dedup<T(==)>(s: seq<T>): seq<T> {
    if |s| < 2 then s
    else if s[0] == s[1] then Dedup(s[1..])
    else [s[0]] + Dedup(s[1..])
  }

  lemma {:induction false} DedupKeepsMembers<T>(s: seq<T>)
    ensures Dedup(s) == [] <==> s == []
    ensures s != [] ==> Dedup(s)[0] == s[0]
    ensures forall x :: x in Dedup(s) <==> x in s
  {
    if |s| < 2 {
    } else {
      DedupKeepsMembers(s[1..]);
      forall x ensures x in Dedup(s) <==> x in s { TailMembership(s, x); TailMembership(Dedup(s), x); }
    }
  }

  lemma {:induction false} DedupOfSorted<T(!new)>(s: seq<T>, leq: (T, T) -> bool)
    requires TotalOrder(leq) && Ascending(s, leq)
    ensures StrictlyAscending(Dedup(s), leq)
  {
    if |s| < 2 {
    } else {
      var rest := s[1..];
      assert Ascending(rest, leq);
      DedupOfSorted(rest, leq);
      if s[0] != s[1] {
        DedupKeepsMembers(rest);
        forall j | 0 <= j < |Dedup(rest)| ensures leq(s[0], Dedup(rest)[j]) && s[0] != Dedup(rest)[j] {
          assert Dedup(rest)[j] in rest;
          var k :| 0 <= k < |rest| && rest[k] == Dedup(rest)[j];
          assert leq(s[0], s[1]) && (k == 0 || leq(s[1], s[k + 1]));
          assert leq(s[0], s[k + 1]);
          assert s[0] != s[k + 1];
        }
      }
    }
  }

  /** `sort()` followed by `dedup()`. */
  function SortDedup<T(==)>(s: seq<T>, leq: (T, T) -> bool): seq<T> {
    Dedup(Sort(s, leq))
  }

  /** Sorting and deduplicating depends only on which elements occur. */
  lemma SortDedupCanonical<T(!new)>(s: seq<T>, leq: (T, T) -> bool)
    requires TotalOrder(leq)
    ensures StrictlyAscending(SortDedup(s, leq), leq)
    ensures forall x :: x in SortDedup(s, leq) <==> x in s
  {
    var r := Sort(s, leq);
    SortAscends(s, leq);
    DedupOfSorted(r, leq);
    DedupKeepsMembers(r);
    forall x ensures x in r <==> x in s { assert x in multiset(r) <==> x in multiset(s); }
  }

  /** Some enumeration of a finite set, as iterating a hash set gives one. */
  ghost function Enumerate<T(!new)>(s: set<T>): (r: seq<T>)
    ensures forall x :: x in r <==> x in s
    ensures |r| == |s|
  {
    if s == {} then [] else var x :| x in s; [x] + Enumerate(s - {x})
  }

  /** Two ascending sequences with the same elements, counted, are the same sequence. */
  lemma {:induction false} SortedUnique<T(!new)>(a: seq<T>, b: seq<T>, leq: (T, T) -> bool)
    requires TotalOrder(leq)
    requires Ascending(a, leq) && Ascending(b, leq)
    requires multiset(a) == multiset(b)
    ensures a == b
  {
    assert |multiset(a)| == |a| && |multiset(b)| == |b|;
    if a == [] {
    } else {
      SortedHead(a, b, leq);
      SortedHead(b, a, leq);
      MultisetOfTail(a);
      MultisetOfTail(b);
      assert multiset(a[1..]) == multiset(a) - multiset{a[0]} && multiset(b[1..]) == multiset(b) - multiset{a[0]};
      SortedUnique(a[1..], b[1..], leq);
    }
  }

  lemma MultisetOfTail<T>(s: seq<T>)
    requires s != []
    ensures multiset(s) == multiset{s[0]} + multiset(s[1..])
  {
    assert s == [s[0]] + s[1..];
  }

  lemma MultisetOfMiddle<T>(left: seq<T>, x: T, right: seq<T>)
    ensures multiset(left + [x] + right) == multiset{x} + multiset(left + right)
  {
  }

  lemma SortedHead<T(!new)>(a: seq<T>, b: seq<T>, leq: (T, T) -> bool)
    requires TotalOrder(leq) && Ascending(a, leq)
    requires a != [] && b != [] && multiset(a) == multiset(b)
    ensures leq(a[0], b[0])
  {
    assert b[0] in multiset(a);
    var k :| 0 <= k < |a| && a[k] == b[0];
  }

  /** Where the first element of a sequence sits in a rearrangement, and what is left of both without it. */
  lemma WithoutFirst<T>(a: seq<T>, b: seq<T>) returns (k: nat)
    requires multiset(a) == multiset(b) && a != []
    ensures k < |b| && b[k] == a[0] && b == b[..k] + [a[0]] + b[k + 1..]
    ensures multiset(a[1..]) == multiset(b[..k] + b[k + 1..])
  {
    assert a[0] in multiset(b);
    k :| 0 <= k < |b| && b[k] == a[0];
    var left, right := b[..k], b[k + 1..];
    assert b == left + [a[0]] + right;
    MultisetOfTail(a);
    MultisetOfMiddle(left, a[0], right);
    assert multiset(left + right) == multiset(b) - multiset{a[0]};
  }

  /** Sorting forgets the first order of its elements. */
  lemma SortIgnoresOrder<T(!new)>(a: seq<T>, b: seq<T>, leq: (T, T) -> bool)
    requires TotalOrder(leq) && multiset(a) == multiset(b)
    ensures Sort(a, leq) == Sort(b, leq)
  {
    SortAscends(a, leq);
    SortAscends(b, leq);
    SortedUnique(Sort(a, leq), Sort(b, leq), leq);
  }

  /** Rust compares strings by their bytes, which for UTF-8 is the order of their code points. */
  predicate StringLeq(a: string, b: string) {
    if a == [] then true
    else if b == [] then false
    else if a[0] == b[0] then StringLeq(a[1..], b[1..])
    else a[0] < b[0]
  }

  lemma {:induction false} StringLeqTotal(a: string, b: string)
    ensures StringLeq(a, b) || StringLeq(b, a)
    ensures StringLeq(a, b) && StringLeq(b, a) ==> a == b
  {
    if a == [] || b == [] || a[0] != b[0] {
    } else {
      StringLeqTotal(a[1..], b[1..]);
      assert a == [a[0]] + a[1..] && b == [b[0]] + b[1..];
    }
  }

  lemma {:induction false} StringLeqTransitive(a: string, b: string, c: string)
    requires StringLeq(a, b) && StringLeq(b, c)
    ensures StringLeq(a, c)
  {
    if a == [] || !(a[0] == b[0] == c[0]) {
    } else {
      StringLeqTransitive(a[1..], b[1..], c[1..]);
    }
  }

  /** Strings compare like dictionary words: at the first difference, or the prefix first. */
  lemma {:induction false} StringLeqIsLexicographic(a: string, b: string)
    ensures StringLeq(a, b) <==>
      exists k | 0 <= k <= |a| && k <= |b| :: a[..k] == b[..k] && (k == |a| || (k < |b| && a[k] < b[k]))
  {
    if a == [] {
      assert a[..0] == b[..0];
    } else if b == [] || a[0] != b[0] {
      if StringLeq(a, b) {
        assert a[..0] == b[..0];
      }
      assert forall k | 0 < k <= |a| && k <= |b| :: a[..k][0] == a[0] && b[..k][0] == b[0];
    } else {
      StringLeqIsLexicographic(a[1..], b[1..]);
      if StringLeq(a, b) {
        var k :| 0 <= k <= |a[1..]| && k <= |b[1..]| && a[1..][..k] == b[1..][..k]
          && (k == |a[1..]| || (k < |b[1..]| && a[1..][k] < b[1..][k]));
        assert a[..k + 1] == [a[0]] + a[1..][..k] && b[..k + 1] == [b[0]] + b[1..][..k];
      }
      if k :| 0 <= k <= |a| && k <= |b| && a[..k] == b[..k] && (k == |a| || (k < |b| && a[k] < b[k])) {
        assert a[1..][..k - 1] == a[..k][1..] && b[1..][..k - 1] == b[..k][1..];
      }
    }
  }

  lemma StringOrder()
    ensures TotalOrder(StringLeq)
  {
    forall a, b ensures StringLeq(a, b) || StringLeq(b, a) { StringLeqTotal(a, b); }
    forall a, b | StringLeq(a, b) && StringLeq(b, a) ensures a == b { StringLeqTotal(a, b); }
    forall a, b, c | StringLeq(a, b) && StringLeq(b, c) ensures StringLeq(a, c) { StringLeqTransitive(a, b, c); }
  }
}
