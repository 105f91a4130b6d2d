/**
 * A JavaScript `Set` as the browser implements it: a collection without
 * duplicates whose iteration order is the order of first insertion.
 * It is modelled as a sequence without repeated elements.
 */
module OrderedSets {

  /** No element occurs twice. */
  predicate Distinct<T(==)>(xs: seq<T>) {
    forall i, j :: 0 <= i < j < |xs| ==> xs[i] != xs[j]
  }

  /** `set.add(x)`: a new element goes to the end, a present one keeps its place. */
  function Insert<T(==)>(xs: seq<T>, x: T): (r: seq<T>)
    ensures x in r
    ensures forall y :: y in xs ==> y in r
    ensures forall y :: y in r ==> y in xs || y == x
    ensures x in xs ==> r == xs
    ensures x !in xs ==> r == xs + [x]
    ensures Distinct(xs) ==> Distinct(r)
  {
    if x in xs then xs else xs + [x]
  }

  /** `set.delete(x)`: every other element stays; `EraseAt` states that they keep their order. */
  function Erase<T(==)>(xs: seq<T>, x: T): (r: seq<T>)
    ensures x !in r
    ensures forall y :: y in r ==> y in xs
    ensures forall y :: y in xs && y != x ==> y in r
    ensures |r| <= |xs|
    ensures Distinct(xs) ==> Distinct(r)
  {
    if xs == [] then []
    else if xs[0] == x then Erase(xs[1..], x)
    else
      HeadNotInTail(xs);
      [xs[0]] + Erase(xs[1..], x)
  }

  /** In a set the first element does not occur again. */
  lemma HeadNotInTail<T>(xs: seq<T>)
    ensures Distinct(xs) && xs != [] ==> xs[0] !in xs[1..]
  {
    if Distinct(xs) && xs != [] {
      forall j | 0 <= j < |xs[1..]| ensures xs[1..][j] != xs[0] {
        assert xs[1..][j] == xs[j + 1];
      }
    }
  }

  /** Deleting an element that is not there changes nothing. */
  lemma {:induction false} EraseAbsent<T>(xs: seq<T>, x: T)
    requires x !in xs
    ensures Erase(xs, x) == xs
  {
    if xs != [] {
      EraseAbsent(xs[1..], x);
    }
  }

  /** Deleting the element at position `k` of a set closes the gap: the others keep their order. */
  lemma {:induction false} EraseAt<T>(xs: seq<T>, k: nat)
    requires Distinct(xs) && k < |xs|
    ensures Erase(xs, xs[k]) == xs[..k] + xs[k + 1..]
  {
    if k == 0 {
      EraseFirst(xs);
    } else {
      var t := xs[1..];
      assert Distinct(t) by {
        forall i, j | 0 <= i < j < |t| ensures t[i] != t[j] {
          assert t[i] == xs[i + 1] && t[j] == xs[j + 1];
        }
      }
      assert t[k - 1] == xs[k] && xs[0] != xs[k];
      EraseAt(t, k - 1);
      assert xs[..k] + xs[k + 1..] == [xs[0]] + (t[..k - 1] + t[k..]);
    }
  }

  /** Deleting twice is the same as deleting once. */
  lemma EraseTwice<T>(xs: seq<T>, x: T)
    ensures Erase(Erase(xs, x), x) == Erase(xs, x)
  {
    EraseAbsent(Erase(xs, x), x);
  }

  /** Deleting the first element of a set leaves the rest in order. */
  lemma EraseFirst<T>(xs: seq<T>)
    requires Distinct(xs) && xs != []
    ensures Erase(xs, xs[0]) == xs[1..]
  {
    HeadNotInTail(xs);
    EraseAbsent(xs[1..], xs[0]);
  }
}
