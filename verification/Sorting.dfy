/** sort.Slice by (start, end), as a pure function: the extent code and the range code both call it
    before they merge neighbours. */
module Sorting {

  /** The comparison both callers pass: by start, then by end. */
  predicate Before(a: (nat, nat), b: (nat, nat)) {
    a.0 < b.0 || (a.0 == b.0 && a.1 < b.1)
  }

  ghost predicate Ascending<T(!new)>(xs: seq<T>, key: T -> (nat, nat)) {
    forall i, j :: 0 <= i < j < |xs| ==> !Before(key(xs[j]), key(xs[i]))
  }

  function Insert<T(!new)>(x: T, xs: seq<T>, key: T -> (nat, nat)): seq<T>
    decreases |xs|
  {
    if xs == [] then [x]
    else if Before(key(xs[0]), key(x)) then [xs[0]] + Insert(x, xs[1..], key)
    else [x] + xs
  }

  lemma {:induction false} InsertMultiset<T(!new)>(x: T, xs: seq<T>, key: T -> (nat, nat))
    ensures multiset(Insert(x, xs, key)) == multiset{x} + multiset(xs)
    decreases |xs|
  {
    if xs != [] {
      assert xs == [xs[0]] + xs[1..];
      InsertMultiset(x, xs[1..], key);
    }
  }

  lemma {:induction false} InsertAscending<T(!new)>(x: T, xs: seq<T>, key: T -> (nat, nat))
    requires Ascending(xs, key)
    ensures Ascending(Insert(x, xs, key), key)
    decreases |xs|
  {
    if xs != [] && Before(key(xs[0]), key(x)) {
      var rest := Insert(x, xs[1..], key);
      InsertAscending(x, xs[1..], key);
      InsertMultiset(x, xs[1..], key);
      forall j | 0 <= j < |rest| ensures !Before(key(rest[j]), key(xs[0])) {
        assert rest[j] in multiset(rest);
        if rest[j] != x {
          assert rest[j] in xs[1..];
        }
      }
    }
  }

  function Sort<T(!new)>(xs: seq<T>, key: T -> (nat, nat)): (ys: seq<T>) {
    if xs == [] then [] else Insert(xs[0], Sort(xs[1..], key), key)
  }

  /** A sorted list holds the same elements, in order. */
  lemma {:induction false} SortSorts<T(!new)>(xs: seq<T>, key: T -> (nat, nat))
    ensures multiset(Sort(xs, key)) == multiset(xs)
    ensures Ascending(Sort(xs, key), key)
  {
    if xs != [] {
      assert xs == [xs[0]] + xs[1..];
      SortSorts(xs[1..], key);
      InsertMultiset(xs[0], Sort(xs[1..], key), key);
      InsertAscending(xs[0], Sort(xs[1..], key), key);
    }
  }
}
