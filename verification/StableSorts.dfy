/** A stable sort by any strict weak order.
    The sort of the standard library is modelled by what it promises:
    a permutation in order, which keeps the order of equal elements. */
module StableSorts {
  /** `less` orders the values, up to ties. */
  ghost predicate WeakOrder<T(!new)>(less: (T, T) -> bool) {
    && (forall a, b :: less(a, b) ==> !less(b, a))
    && (forall a, b, c :: less(a, c) ==> less(a, b) || less(b, c))
  }

  predicate Sorted<T>(less: (T, T) -> bool, s: seq<T>) {
    forall i, j | 0 <= i < j < |s| :: !less(s[j], s[i])
  }

  function Place<T>(less: (T, T) -> bool, s: seq<T>, x: T): (r: seq<T>)
    ensures multiset(r) == multiset(s) + multiset{x}
  {
    if s == [] || !less(x, s[|s| - 1]) then s + [x] else
      assert s == s[..|s| - 1] + [s[|s| - 1]];
      Place(less, s[..|s| - 1], x) + [s[|s| - 1]]
  }

  lemma {:induction false} PlaceKeepsOrder<T(!new)>(less: (T, T) -> bool, s: seq<T>, x: T)
    requires WeakOrder(less) && Sorted(less, s)
    ensures Sorted(less, Place(less, s, x))
  {
    if s == [] {
    } else if less(x, s[|s| - 1]) {
      var last := s[|s| - 1];
      var front := Place(less, s[..|s| - 1], x);
      PlaceKeepsOrder(less, s[..|s| - 1], x);
      forall i | 0 <= i < |front| ensures !less(last, front[i]) {
        assert front[i] in multiset(front);
        assert front[i] in s[..|s| - 1] || front[i] == x;
      }
    } else {
      var last := s[|s| - 1];
      forall i | 0 <= i < |s| ensures !less(x, s[i]) {
        var y := s[i];
        assert less(x, y) ==> less(x, last) || less(last, y);
      }
    }
  }

  /** Equal elements keep their order. */
  function InOrder<T>(less: (T, T) -> bool, s: seq<T>): (r: seq<T>)
    ensures multiset(r) == multiset(s)
  {
    if s == [] then [] else
      assert s == s[..|s| - 1] + [s[|s| - 1]];
      Place(less, InOrder(less, s[..|s| - 1]), s[|s| - 1])
  }

  lemma {:induction false} InOrderIsSorted<T(!new)>(less: (T, T) -> bool, s: seq<T>)
    requires WeakOrder(less)
    ensures Sorted(less, InOrder(less, s))
  {
    if s != [] {
      InOrderIsSorted(less, s[..|s| - 1]);
      PlaceKeepsOrder(less, InOrder(less, s[..|s| - 1]), s[|s| - 1]);
    }
  }

  lemma SameElements<T>(s: seq<T>, r: seq<T>)
    requires multiset(s) == multiset(r)
    ensures |s| == |r| && forall x :: x in s <==> x in r
  {
    assert |s| == |multiset(s)| && |r| == |multiset(r)|;
    forall x ensures x in s <==> x in r {
      assert x in s <==> x in multiset(s);
    }
  }

  /** Different elements have different keys. */
  predicate DistinctBy<T, K(==)>(key: T -> K, s: seq<T>) {
    forall i, j | 0 <= i < j < |s| :: key(s[i]) != key(s[j])
  }

  lemma TwiceIn<T>(s: seq<T>, i: nat, j: nat)
    requires i < j < |s| && s[i] == s[j]
    ensures multiset(s)[s[i]] >= 2
  {
    assert s == s[..i] + [s[i]] + s[i + 1..j] + [s[j]] + s[j + 1..];
  }

  lemma {:induction false} OnceIn<T, K>(key: T -> K, s: seq<T>, x: T)
    requires DistinctBy(key, s)
    ensures multiset(s)[x] <= 1
  {
    if s != [] {
      var front, last := s[..|s| - 1], s[|s| - 1];
      assert s == front + [last];
      OnceIn(key, front, x);
      assert last !in front;
    }
  }

  /** A permutation keeps keys distinct. */
  lemma PermutedStaysDistinct<T, K>(key: T -> K, s: seq<T>, r: seq<T>)
    requires DistinctBy(key, s) && multiset(s) == multiset(r)
    ensures DistinctBy(key, r)
  {
    SameElements(s, r);
    forall i, j | 0 <= i < j < |r| ensures key(r[i]) != key(r[j]) {
      assert r[i] in r && r[j] in r;
      if r[i] == r[j] {
        TwiceIn(r, i, j);
        OnceIn(key, s, r[i]);
      }
    }
  }
}
