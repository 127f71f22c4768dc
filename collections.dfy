/**
 * Iteration over a set. The source iterates hash sets (`forEach`, `filter`)
 * in an order it does not specify; the model records the order a run chose.
 */
module Collections {
  /** `order` lists every element of `s` exactly once. */
  predicate IsOrderOf<T(==)>(order: seq<T>, s: set<T>) {
    |order| == |s| && (forall x | x in s :: x in order) && (forall i | 0 <= i < |order| :: order[i] in s)
  }

  /** A set that is not empty has an element. */
  lemma Pick<T>(s: set<T>) returns (x: T)
    requires s != {}
    ensures x in s
  {
    if forall y :: y !in s {
      assert false;
    }
    x :| x in s;
  }

  /** Some iteration order of a set: every finite set has one. */
  ghost function SomeOrder<T>(s: set<T>): (order: seq<T>)
    ensures IsOrderOf(order, s)
    decreases |s|
  {
    if s == {} then []
    else
      assert exists y :: y in s by {
        var y := Pick(s);
      }
      var x :| x in s;
      [x] + SomeOrder(s - {x})
  }

  /** The set of the elements of `xs`. */
  function Elements<T>(xs: seq<T>): set<T> {
    set x | x in xs
  }

  /** The set of the elements of an iteration order is the set iterated. */
  lemma OrderedSet<T>(order: seq<T>, s: set<T>)
    requires IsOrderOf(order, s)
    ensures Elements(order) == s
  {
    assert forall x :: x in order <==> x in s;
  }

  /** No element occurs twice. */
  predicate Distinct<T(==)>(xs: seq<T>) {
    forall i, j | 0 <= i < j < |xs| :: xs[i] != xs[j]
  }

  /** A sequence has at most as many elements as positions, and as many exactly when it is distinct. */
  lemma {:induction false} ElementsSize<T>(xs: seq<T>)
    ensures |Elements(xs)| <= |xs|
    ensures Distinct(xs) <==> |Elements(xs)| == |xs|
  {
    if xs != [] {
      var tail := xs[1..];
      ElementsSize(tail);
      var all := Elements(xs);
      var rest := Elements(tail);
      assert all == {xs[0]} + rest;
      if xs[0] in tail {
        assert all == rest;
        var j :| 0 <= j < |tail| && tail[j] == xs[0];
        assert xs[0] == xs[j + 1];
      } else {
        assert |all| == 1 + |rest|;
        if Distinct(tail) {
          forall i, j | 0 <= i < j < |xs|
            ensures xs[i] != xs[j]
          {
            if i > 0 {
              assert xs[i] == tail[i - 1] && xs[j] == tail[j - 1];
            } else {
              assert xs[j] == tail[j - 1];
            }
          }
        } else {
          var i, j :| 0 <= i < j < |tail| && tail[i] == tail[j];
          assert xs[i + 1] == xs[j + 1];
        }
      }
    } else {
      assert Elements(xs) == {};
    }
  }

  lemma DistinctTail<T>(xs: seq<T>)
    requires xs != [] && Distinct(xs)
    ensures Distinct(xs[1..]) && xs[0] !in xs[1..]
  {
    forall i, j | 0 <= i < j < |xs[1..]|
      ensures xs[1..][i] != xs[1..][j]
    {
      assert xs[1..][i] == xs[i + 1] && xs[1..][j] == xs[j + 1];
    }
    forall j | 0 <= j < |xs[1..]|
      ensures xs[1..][j] != xs[0]
    {
      assert xs[1..][j] == xs[j + 1];
    }
  }

  lemma DistinctCons<T>(x: T, xs: seq<T>)
    requires Distinct(xs) && x !in xs
    ensures Distinct([x] + xs)
  {
    forall i, j | 0 <= i < j < |[x] + xs|
      ensures ([x] + xs)[i] != ([x] + xs)[j]
    {
      assert ([x] + xs)[j] == xs[j - 1];
      if i > 0 {
        assert ([x] + xs)[i] == xs[i - 1];
      }
    }
  }

  /** An iteration order visits no element twice. */
  lemma OrderDistinct<T>(order: seq<T>, s: set<T>)
    requires IsOrderOf(order, s)
    ensures Distinct(order)
  {
    OrderedSet(order, s);
    ElementsSize(order);
  }

  /** A distinct sequence is an iteration order of its elements. */
  lemma DistinctOrder<T>(xs: seq<T>)
    requires Distinct(xs)
    ensures IsOrderOf(xs, Elements(xs))
  {
    ElementsSize(xs);
  }

  lemma {:induction false} DistinctMultiset<T>(xs: seq<T>)
    requires Distinct(xs)
    ensures forall x :: multiset(xs)[x] == if x in xs then 1 else 0
  {
    if xs != [] {
      var tail := xs[1..];
      assert Distinct(tail) by {
        forall i, j | 0 <= i < j < |tail|
          ensures tail[i] != tail[j]
        {
          assert tail[i] == xs[i + 1] && tail[j] == xs[j + 1];
        }
      }
      DistinctMultiset(tail);
      assert xs == [xs[0]] + tail;
      assert multiset(xs) == multiset{xs[0]} + multiset(tail);
      assert xs[0] !in tail by {
        forall j | 0 <= j < |tail|
          ensures tail[j] != xs[0]
        {
          assert tail[j] == xs[j + 1];
        }
      }
    }
  }

  /** Two iteration orders of one set hold the same elements, each once. */
  lemma OrdersSameMultiset<T>(a: seq<T>, b: seq<T>, s: set<T>)
    requires IsOrderOf(a, s) && IsOrderOf(b, s)
    ensures multiset(a) == multiset(b)
  {
    OrderDistinct(a, s);
    OrderDistinct(b, s);
    DistinctMultiset(a);
    DistinctMultiset(b);
    assert forall x :: multiset(a)[x] == multiset(b)[x];
  }

  /** Visits every element of `s` once, in an order the set chooses. */
  method Enumerate<T(==)>(s: set<T>) returns (order: seq<T>)
    ensures IsOrderOf(order, s)
  {
    order := [];
    var rest := s;
    while rest != {}
      invariant rest <= s
      invariant IsOrderOf(order, s - rest)
      decreases |rest|
    {
      ghost var someElement := Pick(rest);
      var x :| x in rest;
      assert s - (rest - {x}) == (s - rest) + {x};
      order := order + [x];
      rest := rest - {x};
    }
  }

  // ---------------------------------------------------------------------
  // sortedBy

  /** `xs` is in ascending order of `key`. */
  predicate SortedBy<T>(xs: seq<T>, key: T -> int) {
    forall i, j | 0 <= i < j < |xs| :: key(xs[i]) <= key(xs[j])
  }

  function InsertBy<T>(x: T, xs: seq<T>, key: T -> int): (r: seq<T>)
    requires SortedBy(xs, key)
    ensures SortedBy(r, key)
    ensures multiset(r) == multiset(xs) + multiset{x}
  {
    if xs == [] || key(x) <= key(xs[0]) then [x] + xs
    else
      var rest := InsertBy(x, xs[1..], key);
      HeadBelowRest(xs, x, rest, key);
      ConsSorted(xs[0], rest, key);
      assert xs == [xs[0]] + xs[1..];
      [xs[0]] + rest
  }

  /** What is left after the head of a sorted run, plus a larger element, is no smaller than the head. */
  lemma HeadBelowRest<T>(xs: seq<T>, x: T, rest: seq<T>, key: T -> int)
    requires SortedBy(xs, key) && xs != [] && key(xs[0]) < key(x)
    requires multiset(rest) == multiset(xs[1..]) + multiset{x}
    ensures forall k | 0 <= k < |rest| :: key(xs[0]) <= key(rest[k])
  {
    forall k | 0 <= k < |rest|
      ensures key(xs[0]) <= key(rest[k])
    {
      assert rest[k] in multiset(rest);
      if rest[k] != x {
        var j :| 0 <= j < |xs[1..]| && xs[1..][j] == rest[k];
        assert xs[j + 1] == rest[k];
      }
    }
  }

  /** A head no larger than any element of a sorted run keeps it sorted. */
  lemma ConsSorted<T>(h: T, rest: seq<T>, key: T -> int)
    requires SortedBy(rest, key)
    requires forall k | 0 <= k < |rest| :: key(h) <= key(rest[k])
    ensures SortedBy([h] + rest, key)
  {
    var r := [h] + rest;
    forall i, j | 0 <= i < j < |r|
      ensures key(r[i]) <= key(r[j])
    {
      if i > 0 {
        assert r[i] == rest[i - 1] && r[j] == rest[j - 1];
      } else {
        assert r[j] == rest[j - 1];
      }
    }
  }

  /**
   * `sortedBy(key)`: the same elements in ascending key order. The order
   * among equal keys is not stated; the model sorts on unique indices.
   */
  function SortBy<T>(xs: seq<T>, key: T -> int): (r: seq<T>)
    ensures SortedBy(r, key)
    ensures multiset(r) == multiset(xs)
  {
    if xs == [] then []
    else
      assert xs == [xs[0]] + xs[1..];
      InsertBy(xs[0], SortBy(xs[1..], key), key)
  }

  lemma FirstIsLeast<T>(a: seq<T>, key: T -> int, x: T)
    requires SortedBy(a, key) && x in multiset(a)
    ensures a != [] && key(a[0]) <= key(x)
  {
    var i :| 0 <= i < |a| && a[i] == x;
  }

  lemma TailMultiset<T>(a: seq<T>)
    requires a != []
    ensures multiset(a[1..]) == multiset(a) - multiset{a[0]}
  {
    assert a == [a[0]] + a[1..];
  }

  /** No two elements of `xs` share a key. */
  predicate UniqueKeys<T(==)>(xs: seq<T>, key: T -> int) {
    forall x, y | x in xs && y in xs && key(x) == key(y) :: x == y
  }

  lemma UniqueKeysTail<T>(xs: seq<T>, key: T -> int)
    requires xs != [] && UniqueKeys(xs, key)
    ensures UniqueKeys(xs[1..], key)
  {
    forall x, y | x in xs[1..] && y in xs[1..] && key(x) == key(y)
      ensures x == y
    {
      assert x in xs && y in xs;
    }
  }

  /** Two sorted arrangements of the same elements start with the same one. */
  lemma SameHead<T>(a: seq<T>, b: seq<T>, key: T -> int)
    requires a != [] && multiset(a) == multiset(b) && SortedBy(a, key) && SortedBy(b, key)
    requires UniqueKeys(a, key)
    ensures b != [] && a[0] == b[0]
  {
    assert a[0] in multiset(b);
    FirstIsLeast(a, key, b[0]);
    FirstIsLeast(b, key, a[0]);
    assert b[0] in a by {
      assert b[0] in multiset(a);
    }
  }

  lemma SortedTail<T>(xs: seq<T>, key: T -> int)
    requires xs != [] && SortedBy(xs, key)
    ensures SortedBy(xs[1..], key)
  {
    forall i, j | 0 <= i < j < |xs[1..]|
      ensures key(xs[1..][i]) <= key(xs[1..][j])
    {
      assert xs[1..][i] == xs[i + 1] && xs[1..][j] == xs[j + 1];
    }
  }

  /**
   * When no two elements share a key, there is only one sorted arrangement
   * of them: sorting does not depend on the order it was given.
   */
  lemma {:induction false} SortedUnique<T>(a: seq<T>, b: seq<T>, key: T -> int)
    requires multiset(a) == multiset(b) && SortedBy(a, key) && SortedBy(b, key)
    requires UniqueKeys(a, key)
    ensures a == b
    decreases |a|
  {
    if a == [] {
      assert |b| == |multiset(b)| == 0;
    } else {
      SameHead(a, b, key);
      var ta, tb := a[1..], b[1..];
      TailMultiset(a);
      TailMultiset(b);
      assert multiset(ta) == multiset(tb);
      UniqueKeysTail(a, key);
      SortedTail(a, key);
      SortedTail(b, key);
      SortedUnique(ta, tb, key);
      SameHeadAndTail(a, b);
    }
  }

  lemma SameHeadAndTail<T>(a: seq<T>, b: seq<T>)
    requires a != [] && b != [] && a[0] == b[0] && a[1..] == b[1..]
    ensures a == b
  {
    assert a == [a[0]] + a[1..] && b == [b[0]] + b[1..];
  }
}
