/** The library sorts the impact analysis relies on, and the order of strings. */
module Sorting {
  import opened Types
  import opened Reducer

  /** Lexicographic order of strings. */
  predicate Precedes(a: string, b: string) {
    b != "" && (a == "" || a[0] < b[0] || (a[0] == b[0] && Precedes(a[1..], b[1..])))
  }

  lemma {:induction false} PrecedesIsTotal(a: string, b: string)
    ensures a == b || Precedes(a, b) || Precedes(b, a)
    decreases a
  {
    if a != "" && b != "" && a[0] == b[0] {
      PrecedesIsTotal(a[1..], b[1..]);
      assert a == [a[0]] + a[1..] && b == [b[0]] + b[1..];
    }
  }

  lemma {:induction false} PrecedesIsTransitive(a: string, b: string, c: string)
    requires Precedes(a, b) && Precedes(b, c)
    ensures Precedes(a, c)
    decreases a
  {
    if a != "" && a[0] == b[0] == c[0] {
      PrecedesIsTransitive(a[1..], b[1..], c[1..]);
    }
  }

  lemma {:induction false} PrecedesIsStrict(a: string)
    ensures !Precedes(a, a)
    decreases a
  {
    if a != "" {
      PrecedesIsStrict(a[1..]);
    }
  }

  ghost predicate SortedIds(ids: seq<ClaimId>) {
    forall i, j :: 0 <= i < j < |ids| ==> Precedes(ids[i].text, ids[j].text)
  }

  ghost predicate IsLeast(id: ClaimId, ids: set<ClaimId>) {
    id in ids && forall x :: x in ids && x != id ==> Precedes(id.text, x.text)
  }

  method LeastId(ids: set<ClaimId>) returns (least: ClaimId)
    requires ids != {}
    ensures IsLeast(least, ids)
  {
    least :| least in ids;
    var todo := ids;
    while todo != {}
      invariant least in ids && todo <= ids
      invariant forall x :: x in ids - todo && x != least ==> Precedes(least.text, x.text)
      decreases |todo|
    {
      var x :| x in todo;
      PrecedesIsTotal(x.text, least.text);
      if Precedes(x.text, least.text) {
        forall y | y in ids - todo && y != x ensures Precedes(x.text, y.text) {
          if y != least {
            PrecedesIsTransitive(x.text, least.text, y.text);
          }
        }
        least := x;
      }
      todo := todo - {x};
    }
  }

  /** The claim ids of both states, sorted and without duplicates. */
  method SortIds(keys: set<ClaimId>) returns (ids: seq<ClaimId>)
    ensures Enumerates(ids, keys) && SortedIds(ids)
  {
    ids := [];
    var todo := keys;
    while todo != {}
      invariant todo <= keys && forall id :: id in ids <==> id in keys - todo
      invariant SortedIds(ids) && forall a, b :: a in ids && b in todo ==> Precedes(a.text, b.text)
      decreases |todo|
    {
      var id := LeastId(todo);
      ids := ids + [id];
      todo := todo - {id};
    }
    forall i, j | 0 <= i < j < |ids| ensures ids[i] != ids[j] {
      PrecedesIsStrict(ids[i].text);
    }
  }

  // ------------------------------------------------------------- the stable sort by a key

  type Key<!T> = T -> nat

  ghost predicate AscendingBy<T>(xs: seq<T>, key: Key<T>) {
    forall i, j :: 0 <= i < j < |xs| ==> key(xs[i]) <= key(xs[j])
  }

  /** Put `x` behind everything whose key is not above its own. */
  function Placed<T>(sorted: seq<T>, x: T, key: Key<T>): seq<T> {
    if sorted == [] || key(sorted[|sorted| - 1]) <= key(x) then sorted + [x]
    else Placed(sorted[..|sorted| - 1], x, key) + [sorted[|sorted| - 1]]
  }

  function SortedBy<T>(xs: seq<T>, key: Key<T>): seq<T> {
    if xs == [] then [] else Placed(SortedBy(xs[..|xs| - 1], key), xs[|xs| - 1], key)
  }

  lemma {:induction false} PlacedKeepsAll<T>(sorted: seq<T>, x: T, key: Key<T>)
    ensures multiset(Placed(sorted, x, key)) == multiset(sorted) + multiset{x}
  {
    if sorted != [] && key(sorted[|sorted| - 1]) > key(x) {
      var front, last := sorted[..|sorted| - 1], sorted[|sorted| - 1];
      assert sorted == front + [last];
      PlacedKeepsAll(front, x, key);
    }
  }

  ghost predicate AllUpTo<T>(xs: seq<T>, bound: nat, key: Key<T>) {
    forall x :: x in xs ==> key(x) <= bound
  }

  lemma {:induction false} PlacedIsAscending<T>(sorted: seq<T>, x: T, key: Key<T>)
    requires AscendingBy(sorted, key)
    ensures AscendingBy(Placed(sorted, x, key), key)
    ensures forall bound :: AllUpTo(sorted, bound, key) && key(x) <= bound ==> AllUpTo(Placed(sorted, x, key), bound, key)
  {
    if sorted != [] && key(sorted[|sorted| - 1]) > key(x) {
      var front, last := sorted[..|sorted| - 1], sorted[|sorted| - 1];
      PlacedIsAscending(front, x, key);
      assert AllUpTo(front, key(last), key);
      AscendingSnoc(Placed(front, x, key), last, key);
      forall bound | AllUpTo(sorted, bound, key) && key(x) <= bound ensures AllUpTo(Placed(front, x, key) + [last], bound, key) {
        assert AllUpTo(front, bound, key) && last in sorted;
      }
    } else {
      assert sorted != [] ==> AllUpTo(sorted, key(sorted[|sorted| - 1]), key);
      AscendingSnoc(sorted, x, key);
    }
  }

  lemma AscendingSnoc<T>(xs: seq<T>, x: T, key: Key<T>)
    requires AscendingBy(xs, key) && AllUpTo(xs, key(x), key)
    ensures AscendingBy(xs + [x], key)
  {
    assert forall i :: 0 <= i < |xs| ==> xs[i] in xs;
  }

  lemma {:induction false} SortingSorts<T>(xs: seq<T>, key: Key<T>)
    ensures AscendingBy(SortedBy(xs, key), key) && multiset(SortedBy(xs, key)) == multiset(xs)
    ensures AscendingBy(xs, key) ==> SortedBy(xs, key) == xs
  {
    if xs != [] {
      var front, last := xs[..|xs| - 1], xs[|xs| - 1];
      assert xs == front + [last];
      SortingSorts(front, key);
      PlacedIsAscending(SortedBy(front, key), last, key);
      PlacedKeepsAll(SortedBy(front, key), last, key);
    }
  }
}
