/** Python's sorted with an integer key: a stable sort of any sequence. */
module StableSort {
  function Insert<T>(key: T -> int, x: T, xs: seq<T>): seq<T> {
    if xs == [] then [x] else if key(x) <= key(xs[0]) then [x] + xs else [xs[0]] + Insert(key, x, xs[1..])
  }

  function Sort<T>(key: T -> int, xs: seq<T>): seq<T> {
    if xs == [] then [] else Insert(key, xs[0], Sort(key, xs[1..]))
  }

  predicate Sorted<T>(key: T -> int, xs: seq<T>) {
    forall i, j :: 0 <= i < j < |xs| ==> key(xs[i]) <= key(xs[j])
  }

  // the elements with one key, in order
  function At<T>(key: T -> int, xs: seq<T>, k: int): seq<T> {
    if xs == [] then []
    else if key(xs[0]) == k then [xs[0]] + At(key, xs[1..], k)
    else At(key, xs[1..], k)
  }

  lemma {:induction false} InsertMembers<T>(key: T -> int, x: T, xs: seq<T>)
    ensures multiset(Insert(key, x, xs)) == multiset{x} + multiset(xs)
  {
    if xs != [] && key(x) > key(xs[0]) {
      InsertMembers(key, x, xs[1..]);
      assert xs == [xs[0]] + xs[1..];
    }
  }

  lemma {:induction false} InsertSorts<T>(key: T -> int, x: T, xs: seq<T>)
    requires Sorted(key, xs)
    ensures Sorted(key, Insert(key, x, xs))
    ensures forall i :: 0 <= i < |Insert(key, x, xs)| ==> Insert(key, x, xs)[i] == x || Insert(key, x, xs)[i] in xs
  {
    if xs != [] && key(x) > key(xs[0]) {
      InsertSorts(key, x, xs[1..]);
    }
  }

  /** Sorting orders and permutes... */
  lemma {:induction false} SortFacts<T>(key: T -> int, xs: seq<T>)
    ensures Sorted(key, Sort(key, xs)) && multiset(Sort(key, xs)) == multiset(xs)
  {
    if xs != [] {
      SortFacts(key, xs[1..]);
      InsertSorts(key, xs[0], Sort(key, xs[1..]));
      InsertMembers(key, xs[0], Sort(key, xs[1..]));
      assert xs == [xs[0]] + xs[1..];
    }
  }

  lemma AtCons<T>(key: T -> int, x: T, xs: seq<T>, k: int)
    ensures At(key, [x] + xs, k) == if key(x) == k then [x] + At(key, xs, k) else At(key, xs, k)
  {
    assert ([x] + xs)[1..] == xs;
  }

  lemma {:induction false} InsertStable<T>(key: T -> int, x: T, xs: seq<T>, k: int)
    ensures At(key, Insert(key, x, xs), k) == At(key, [x] + xs, k)
  {
    AtCons(key, x, xs, k);
    if xs != [] && key(x) > key(xs[0]) {
      InsertStable(key, x, xs[1..], k);
      AtCons(key, x, xs[1..], k);
      AtCons(key, xs[0], Insert(key, x, xs[1..]), k);
    }
  }

  /** ...and keeps elements with equal keys in their original order. */
  lemma {:induction false} SortStable<T>(key: T -> int, xs: seq<T>, k: int)
    ensures At(key, Sort(key, xs), k) == At(key, xs, k)
  {
    if xs != [] {
      SortStable(key, xs[1..], k);
      InsertStable(key, xs[0], Sort(key, xs[1..]), k);
      AtCons(key, xs[0], Sort(key, xs[1..]), k);
    }
  }

  /** Nothing moves in a sequence that is sorted already. */
  lemma {:induction false} SortSorted<T>(key: T -> int, xs: seq<T>)
    requires Sorted(key, xs)
    ensures Sort(key, xs) == xs
  {
    if xs != [] {
      SortSorted(key, xs[1..]);
      assert xs == [xs[0]] + xs[1..];
    }
  }
}
