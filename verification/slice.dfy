/**
 * The two slice operations the introspection queries run on their arrays of
 * collected states: `sort_unstable_by_key` (standard library) and
 * `partition_dedup` (the crate's own slice module), both in place.
 */
module Slice {
  import opened Lexicographic

  /** Every neighbouring pair is in order by `key` (equal keys allowed). */
  ghost predicate SortedBy<T>(s: seq<T>, key: T -> string) {
    forall k :: 0 < k < |s| ==> LessEq(key(s[k - 1]), key(s[k]))
  }

  /** Every neighbouring pair is strictly in order by `key`. */
  ghost predicate StrictlySortedBy<T>(s: seq<T>, key: T -> string) {
    forall k :: 0 < k < |s| ==> Less(key(s[k - 1]), key(s[k]))
  }

  /** Elements of `s` with the same key are the same element. */
  ghost predicate KeyInjective<T>(s: seq<T>, key: T -> string) {
    forall x, y :: x in s && y in s && key(x) == key(y) ==> x == y
  }

  /** `s` with every element that equals its predecessor dropped. */
  function Dedup<T(==)>(s: seq<T>): seq<T>
    decreases |s|
  {
    if |s| <= 1 then s
    else if s[|s| - 1] == s[|s| - 2] then Dedup(s[..|s| - 1])
    else Dedup(s[..|s| - 1]) + [s[|s| - 1]]
  }

  /**
   * `sort_unstable_by_key`: sorts `a` in place by `key`; the result is a
   * permutation of the input. (Insertion sort; the order among equal keys is
   * not specified, as for the unstable sort.)
   */
  method SortByKey<T>(a: array<T>, key: T -> string)
    modifies a
    ensures SortedBy(a[..], key)
    ensures multiset(a[..]) == multiset(old(a[..]))
  {
    var i := 1;
    while i < a.Length
      invariant a.Length == 0 || 1 <= i <= a.Length
      invariant forall k :: 0 < k < i && k < a.Length ==> LessEq(key(a[k - 1]), key(a[k]))
      invariant multiset(a[..]) == multiset(old(a[..]))
    {
      InsertLast(a, i, key);
      i := i + 1;
    }
  }

  /** One insertion-sort step: sinks `a[i]` into the sorted prefix `a[..i]`. */
  method InsertLast<T>(a: array<T>, i: nat, key: T -> string)
    requires 0 < i < a.Length
    requires forall k :: 0 < k < i ==> LessEq(key(a[k - 1]), key(a[k]))
    modifies a
    ensures forall k :: 0 < k <= i ==> LessEq(key(a[k - 1]), key(a[k]))
    ensures forall k :: i < k < a.Length ==> a[k] == old(a[k])
    ensures multiset(a[..]) == multiset(old(a[..]))
  {
    var j := i;
    while j > 0 && Less(key(a[j]), key(a[j - 1]))
      invariant 0 <= j <= i
      invariant forall k :: 0 < k < j ==> LessEq(key(a[k - 1]), key(a[k]))
      invariant forall k :: j < k <= i ==> LessEq(key(a[k - 1]), key(a[k]))
      invariant 0 < j < i ==> LessEq(key(a[j - 1]), key(a[j + 1]))
      invariant forall k :: i < k < a.Length ==> a[k] == old(a[k])
      invariant multiset(a[..]) == multiset(old(a[..]))
    {
      Swap(a, j - 1, j);
      j := j - 1;
    }
    if j > 0 {
      LessTotal(key(a[j]), key(a[j - 1]));
    }
  }

  /** Exchanges `a[i]` and `a[j]`, leaving every other element where it was. */
  method Swap<T>(a: array<T>, i: nat, j: nat)
    requires i < a.Length && j < a.Length
    modifies a
    ensures a[i] == old(a[j]) && a[j] == old(a[i])
    ensures forall k :: 0 <= k < a.Length && k != i && k != j ==> a[k] == old(a[k])
    ensures multiset(a[..]) == multiset(old(a[..]))
  {
    a[i], a[j] := a[j], a[i];
  }

  /**
   * `partition_dedup`: moves the first element of every run of equal
   * neighbours to the front, in order, and the rest behind them; returns the
   * length of the front part. The array stays a permutation of the input.
   */
  method PartitionDedup<T(==)>(a: array<T>) returns (count: nat)
    modifies a
    ensures count <= a.Length
    ensures a[..count] == Dedup(old(a[..]))
    ensures multiset(a[..]) == multiset(old(a[..]))
  {
    ghost var s := a[..];
    if a.Length <= 1 {
      return a.Length;
    }
    var read, write := 1, 1;
    while read < a.Length
      invariant 1 <= write <= read <= a.Length
      invariant a[..write] == Dedup(s[..read])
      invariant a[write - 1] == s[read - 1]
      invariant forall k :: read <= k < a.Length ==> a[k] == s[k]
      invariant multiset(a[..]) == multiset(s)
    {
      assert s[..read + 1][..read] == s[..read];
      if a[read] != a[write - 1] {
        Swap(a, read, write);
        write := write + 1;
      }
      read := read + 1;
    }
    assert s[..read] == s;
    count := write;
  }

  lemma {:induction false} DedupLast<T>(s: seq<T>)
    requires s != []
    ensures Dedup(s) != [] && Dedup(s)[|Dedup(s)| - 1] == s[|s| - 1]
    decreases |s|
  {
    if |s| > 1 {
      DedupLast(s[..|s| - 1]);
    }
  }

  /** Dropping repeated neighbours keeps exactly the same elements. */
  lemma {:induction false} DedupElements<T>(s: seq<T>)
    ensures forall x :: x in Dedup(s) <==> x in s
    decreases |s|
  {
    if |s| > 1 {
      var p := s[..|s| - 1];
      DedupElements(p);
      assert s == p + [s[|s| - 1]];
      if s[|s| - 1] == s[|s| - 2] {
        assert s[|s| - 1] in p;
      }
    }
  }

  /** Deduplicating a sorted sequence whose keys name its elements leaves it strictly sorted. */
  lemma {:induction false} DedupStrictlySorted<T>(s: seq<T>, key: T -> string)
    requires SortedBy(s, key) && KeyInjective(s, key)
    ensures StrictlySortedBy(Dedup(s), key)
    decreases |s|
  {
    if |s| > 1 {
      var p := s[..|s| - 1];
      assert SortedBy(p, key) && KeyInjective(p, key);
      DedupStrictlySorted(p, key);
      if s[|s| - 1] != s[|s| - 2] {
        DedupLast(p);
        assert s[|s| - 2] in s && s[|s| - 1] in s;
        assert key(s[|s| - 2]) != key(s[|s| - 1]);
      }
    }
  }

  lemma {:induction false} StrictlySortedHeadLeast<T>(s: seq<T>, key: T -> string)
    requires StrictlySortedBy(s, key)
    ensures forall k :: 0 < k < |s| ==> Less(key(s[0]), key(s[k]))
    decreases |s|
  {
    if |s| > 2 {
      var p := s[..|s| - 1];
      assert StrictlySortedBy(p, key);
      StrictlySortedHeadLeast(p, key);
      LessTransitive(key(s[0]), key(s[|s| - 2]), key(s[|s| - 1]));
    }
  }

  /**
   * Two strictly sorted sequences holding the same elements are equal: the
   * sorted, de-duplicated arrangement of a collection is unique.
   */
  lemma {:induction false} StrictlySortedUnique<T>(x: seq<T>, y: seq<T>, key: T -> string)
    requires StrictlySortedBy(x, key) && StrictlySortedBy(y, key)
    requires forall e :: e in x <==> e in y
    ensures x == y
    decreases |x|
  {
    assert x != [] ==> x[0] in y;
    assert y != [] ==> y[0] in x;
    if x != [] && y != [] {
      StrictlySortedHeadLeast(x, key);
      StrictlySortedHeadLeast(y, key);
      if x[0] != y[0] {
        assert y[0] in x && x[0] in y;
        LessAsymmetric(key(x[0]), key(y[0]));
        assert false;
      }
      forall e
        ensures e in x[1..] <==> e in y[1..]
      {
        if e in x[1..] {
          var k :| 1 <= k < |x| && x[k] == e;
          LessIrreflexive(key(x[0]));
          assert e != y[0] && e in y;
        }
        if e in y[1..] {
          var k :| 1 <= k < |y| && y[k] == e;
          LessIrreflexive(key(y[0]));
          assert e != x[0] && e in x;
        }
      }
      assert StrictlySortedBy(x[1..], key) && StrictlySortedBy(y[1..], key);
      StrictlySortedUnique(x[1..], y[1..], key);
      assert x == [x[0]] + x[1..] && y == [y[0]] + y[1..];
    }
  }

  /**
   * The sequence of both queries: copy `items` into an array, sort it by
   * `key`, partition out repeated neighbours and keep the front part. When
   * equal keys mean equal items, the result is strictly sorted and holds
   * every item once.
   */
  method SortDedup<T(==)>(items: seq<T>, key: T -> string) returns (r: seq<T>)
    requires KeyInjective(items, key)
    ensures StrictlySortedBy(r, key)
    ensures forall x :: x in r <==> x in items
  {
    var a := new T[|items|](k requires 0 <= k < |items| => items[k]);
    assert a[..] == items;
    SortByKey(a, key);
    ghost var sorted := a[..];
    assert forall x :: x in sorted <==> x in items by {
      forall x ensures x in sorted <==> x in items {
        assert x in sorted <==> x in multiset(sorted);
        assert x in items <==> x in multiset(items);
      }
    }
    var count := PartitionDedup(a);
    DedupStrictlySorted(sorted, key);
    DedupElements(sorted);
    r := a[..count];
  }
}
