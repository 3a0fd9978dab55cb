/** Python's `sorted(items, key=itemgetter(1))` on a sequence of (tag, instant)
    pairs: an ascending, stable sort by the second component. It is modelled as
    insertion sort, which is stable by construction: an element is placed before
    every element whose key is at least its own, so among equal keys the earlier
    input element stays first. */
module StableSort {
  import opened Time

  /** Keys never decrease from left to right. */
  predicate SortedByKey<T>(s: seq<(T, Instant)>) {
    forall i, j :: 0 <= i < j < |s| ==> s[i].1 <= s[j].1
  }

  /** The entries of `s` whose key is `k`, in their order in `s`. */
  function WithKey<T>(s: seq<(T, Instant)>, k: Instant): seq<(T, Instant)> {
    if |s| == 0 then []
    else (if s[0].1 == k then [s[0]] else []) + WithKey(s[1..], k)
  }

  /** Places `e` into the sorted `t`, in front of the first entry whose key is
      at least `e`'s. */
  function Insert<T(==)>(e: (T, Instant), t: seq<(T, Instant)>): (r: seq<(T, Instant)>)
    requires SortedByKey(t)
    ensures SortedByKey(r)
    ensures multiset(r) == multiset(t) + multiset{e}
    ensures |r| == |t| + 1
    ensures r[0] == e || (|t| > 0 && r[0] == t[0])
  {
    if |t| == 0 || e.1 <= t[0].1 then
      SortedCons(e, t);
      [e] + t
    else
      var rest := Insert(e, t[1..]);
      assert t == [t[0]] + t[1..];
      SortedCons(t[0], rest);
      [t[0]] + rest
  }

  /** A sorted sequence stays sorted when an entry no larger than its head is put in front. */
  lemma SortedCons<T>(x: (T, Instant), s: seq<(T, Instant)>)
    requires SortedByKey(s)
    requires |s| > 0 ==> x.1 <= s[0].1
    ensures SortedByKey([x] + s)
  {
  }

  /** Sorts `s` by key, keeping the input order among equal keys. */
  function Sort<T(==)>(s: seq<(T, Instant)>): (r: seq<(T, Instant)>)
    ensures SortedByKey(r)
    ensures multiset(r) == multiset(s)
    ensures |r| == |s|
  {
    if |s| == 0 then []
    else
      assert s == [s[0]] + s[1..];
      Insert(s[0], Sort(s[1..]))
  }

  lemma WithKeyCons<T>(x: (T, Instant), t: seq<(T, Instant)>, k: Instant)
    ensures WithKey([x] + t, k) == (if x.1 == k then [x] else []) + WithKey(t, k)
  {
    assert ([x] + t)[1..] == t;
  }

  /** Inserting `e` puts it in front of every entry of `t` that shares its key. */
  lemma {:induction false} InsertKeepsKeyOrder<T>(e: (T, Instant), t: seq<(T, Instant)>, k: Instant)
    requires SortedByKey(t)
    ensures WithKey(Insert(e, t), k) == (if e.1 == k then [e] else []) + WithKey(t, k)
  {
    if |t| == 0 || e.1 <= t[0].1 {
      WithKeyCons(e, t, k);
    } else {
      assert SortedByKey(t[1..]);
      InsertKeepsKeyOrder(e, t[1..], k);
      WithKeyCons(t[0], Insert(e, t[1..]), k);
      WithKeyCons(t[0], t[1..], k);
      assert t == [t[0]] + t[1..];
      // t[0] sorts strictly before e, so when e has key k, t[0] does not.
      assert e.1 == k ==> t[0].1 != k;
    }
  }

  /** Stability: for every key, the entries carrying it come out of the sort in
      the order they went in. */
  lemma {:induction false} SortIsStable<T>(s: seq<(T, Instant)>, k: Instant)
    ensures WithKey(Sort(s), k) == WithKey(s, k)
  {
    if |s| > 0 {
      SortIsStable(s[1..], k);
      InsertKeepsKeyOrder(s[0], Sort(s[1..]), k);
      WithKeyCons(s[0], s[1..], k);
      assert s == [s[0]] + s[1..];
    }
  }
}
