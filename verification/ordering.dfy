/** Ordering and windowing of query results: the stable sort the batch sync
    applies to its operations, the `orderBy` of the history queries, and
    the `skip`/`take` window with its `hasMore` flag. */
module Ordering {

  /** `s` is in non-decreasing order of `key`. */
  predicate SortedBy<T>(s: seq<T>, key: T -> int) {
    forall i, j | 0 <= i < j < |s| :: key(s[i]) <= key(s[j])
  }

  /** The elements of `s` whose key is `k`, in their order in `s`. */
  function WithKey<T>(s: seq<T>, key: T -> int, k: int): seq<T> {
    if |s| == 0 then [] else Single(s[0], key, k) + WithKey(s[1..], key, k)
  }

  /** `[y]` when `y` has key `k`, else empty. */
  function Single<T>(y: T, key: T -> int, k: int): seq<T> {
    if key(y) == k then [y] else []
  }

  /** Inserts `x` after every element whose key is at most `key(x)`. */
  function Insert<T>(x: T, s: seq<T>, key: T -> int): (r: seq<T>)
    requires SortedBy(s, key)
    ensures SortedBy(r, key)
    ensures multiset(r) == multiset(s) + multiset{x}
    ensures |r| == |s| + 1
    ensures key(r[0]) == if |s| == 0 || key(x) < key(s[0]) then key(x) else key(s[0])
  {
    if |s| == 0 then [x]
    else if key(x) < key(s[0]) then [x] + s
    else
      var rest := Insert(x, s[1..], key);
      assert s == [s[0]] + s[1..];
      assert key(s[0]) <= key(rest[0]);
      assert forall j | 0 <= j < |rest| :: key(s[0]) <= key(rest[j]) by {
        forall j | 0 < j < |rest| ensures key(rest[0]) <= key(rest[j]) { }
      }
      [s[0]] + rest
  }

  /** A stable sort by `key`: `[...s].sort((a, b) => key(a) - key(b))`. */
  function SortByKey<T>(s: seq<T>, key: T -> int): (r: seq<T>)
    ensures SortedBy(r, key)
    ensures multiset(r) == multiset(s)
    ensures |r| == |s|
  {
    if |s| == 0 then []
    else
      assert s == s[..|s| - 1] + [s[|s| - 1]];
      Insert(s[|s| - 1], SortByKey(s[..|s| - 1], key), key)
  }

  lemma {:induction false} InsertWithKey<T>(x: T, s: seq<T>, key: T -> int, k: int)
    requires SortedBy(s, key)
    ensures WithKey(Insert(x, s, key), key, k) == WithKey(s, key, k) + Single(x, key, k)
    decreases |s|
  {
    if |s| == 0 {
      assert Insert(x, s, key) == [x];
      assert [x][1..] == [];
    } else if key(x) < key(s[0]) {
      assert Insert(x, s, key) == [x] + s;
      assert ([x] + s)[1..] == s;
      if key(x) == k {
        WithKeyEmpty(s, key, k);
      }
    } else {
      var rest := Insert(x, s[1..], key);
      assert Insert(x, s, key) == [s[0]] + rest;
      assert ([s[0]] + rest)[1..] == rest;
      InsertWithKey(x, s[1..], key, k);
    }
  }

  /** No element of a sorted `s` has key `k` when its first key is above `k`. */
  lemma {:induction false} WithKeyEmpty<T>(s: seq<T>, key: T -> int, k: int)
    requires SortedBy(s, key) && |s| > 0 && k < key(s[0])
    ensures WithKey(s, key, k) == []
    decreases |s|
  {
    if |s| > 1 {
      WithKeyEmpty(s[1..], key, k);
    }
  }

  /** Appending an element contributes it at the end of its key class. */
  lemma {:induction false} WithKeySnoc<T>(s: seq<T>, y: T, key: T -> int, k: int)
    ensures WithKey(s + [y], key, k) == WithKey(s, key, k) + Single(y, key, k)
    decreases |s|
  {
    if |s| == 0 {
      assert ([y])[1..] == [];
    } else {
      assert (s + [y])[1..] == s[1..] + [y];
      WithKeySnoc(s[1..], y, key, k);
    }
  }

  /** The sort is stable: the elements sharing any one key keep their
      relative order. */
  lemma {:induction false} SortStable<T>(s: seq<T>, key: T -> int, k: int)
    ensures WithKey(SortByKey(s, key), key, k) == WithKey(s, key, k)
    decreases |s|
  {
    if |s| > 0 {
      var init, last := s[..|s| - 1], s[|s| - 1];
      var sorted := SortByKey(init, key);
      assert s == init + [last];
      calc {
        WithKey(SortByKey(s, key), key, k);
        WithKey(Insert(last, sorted, key), key, k);
        { InsertWithKey(last, sorted, key, k); }
        WithKey(sorted, key, k) + Single(last, key, k);
        { SortStable(init, key, k); }
        WithKey(init, key, k) + Single(last, key, k);
        { WithKeySnoc(init, last, key, k); }
        WithKey(s, key, k);
      }
    }
  }

  /** Sorting input that is already in order changes nothing. */
  lemma {:induction false} SortSortedIdentity<T>(s: seq<T>, key: T -> int)
    requires SortedBy(s, key)
    ensures SortByKey(s, key) == s
    decreases |s|
  {
    if |s| > 0 {
      var init := s[..|s| - 1];
      assert SortedBy(init, key);
      SortSortedIdentity(init, key);
      InsertAtEnd(s[|s| - 1], init, key);
      assert init + [s[|s| - 1]] == s;
    }
  }

  lemma {:induction false} InsertAtEnd<T>(x: T, s: seq<T>, key: T -> int)
    requires SortedBy(s, key)
    requires forall j | 0 <= j < |s| :: key(s[j]) <= key(x)
    ensures Insert(x, s, key) == s + [x]
    decreases |s|
  {
    if |s| > 0 {
      InsertAtEnd(x, s[1..], key);
      assert [s[0]] + (s[1..] + [x]) == s + [x];
    }
  }

  // ---------------------------------------------------------------------
  // skip / take
  // ---------------------------------------------------------------------

  function Min(a: int, b: int): int {
    if a <= b then a else b
  }

  /** The rows a query with `skip` and `take` returns from the ordered rows. */
  function Window<T>(s: seq<T>, skip: nat, take: nat): (w: seq<T>)
    ensures |w| <= take
    ensures |w| == Min(take, if skip <= |s| then |s| - skip else 0)
    ensures forall i | 0 <= i < |w| :: skip + i < |s| && w[i] == s[skip + i]
  {
    if skip >= |s| then [] else s[skip..Min(skip + take, |s|)]
  }

  /** A window of ordered rows is ordered. */
  lemma WindowSorted<T>(s: seq<T>, skip: nat, take: nat, key: T -> int)
    requires SortedBy(s, key)
    ensures SortedBy(Window(s, skip, take), key)
  {
    var w := Window(s, skip, take);
    forall i, j | 0 <= i < j < |w| ensures key(w[i]) <= key(w[j]) {
      assert w[i] == s[skip + i] && w[j] == s[skip + j];
    }
  }

  /** `hasMore: total > skip + items.length`. */
  predicate HasMore(total: nat, skip: nat, count: nat) {
    total > skip + count
  }

  /** With the full count as `total`, `hasMore` holds iff a row lies beyond
      the returned window, that is iff the next window is non-empty. */
  lemma HasMoreIffNextWindow<T>(s: seq<T>, skip: nat, take: nat)
    requires take > 0
    ensures HasMore(|s|, skip, |Window(s, skip, take)|) <==> |Window(s, skip + take, take)| > 0
  {
  }
}
