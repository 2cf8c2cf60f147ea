/** The standard library's stable `sort_by_key`, as an insertion sort on sequences. */
module Sorting {

  /** Puts `x` in front of the first element of `ys` whose key is not smaller. */
  function Insert<T(!new)>(x: T, ys: seq<T>, key: T -> int): (r: seq<T>)
    ensures |r| == |ys| + 1
    ensures forall e :: e in r <==> e == x || e in ys
  {
    if ys == [] || key(x) <= key(ys[0]) then [x] + ys
    else [ys[0]] + Insert(x, ys[1..], key)
  }

  /** The elements of `xs` by ascending key; elements with equal keys keep their order. */
  function SortByKey<T(!new)>(xs: seq<T>, key: T -> int): (r: seq<T>)
    ensures |r| == |xs|
    ensures forall e :: e in r <==> e in xs
  {
    if xs == [] then [] else Insert(xs[0], SortByKey(xs[1..], key), key)
  }

  ghost predicate Sorted<T(!new)>(xs: seq<T>, key: T -> int) {
    forall i, j | 0 <= i < j < |xs| :: key(xs[i]) <= key(xs[j])
  }

  lemma {:induction false} InsertSorts<T(!new)>(x: T, ys: seq<T>, key: T -> int)
    requires Sorted(ys, key)
    ensures Sorted(Insert(x, ys, key), key)
  {
    var r := Insert(x, ys, key);
    if ys == [] || key(x) <= key(ys[0]) {
      forall i, j | 0 <= i < j < |r| ensures key(r[i]) <= key(r[j]) {
        assert i > 0 ==> r[i] == ys[i - 1];
        assert r[j] == ys[j - 1];
      }
    } else {
      var rest := Insert(x, ys[1..], key);
      InsertSorts(x, ys[1..], key);
      forall i, j | 0 <= i < j < |r| ensures key(r[i]) <= key(r[j]) {
        assert r[j] == rest[j - 1] && rest[j - 1] in rest;
        if i == 0 && r[j] != x {
          var k :| 0 <= k < |ys| - 1 && ys[1..][k] == r[j];
          assert ys[k + 1] == r[j];
        }
        assert i > 0 ==> r[i] == rest[i - 1];
      }
    }
  }

  lemma {:induction false} SortSorts<T(!new)>(xs: seq<T>, key: T -> int)
    ensures Sorted(SortByKey(xs, key), key)
  {
    if xs != [] {
      SortSorts(xs[1..], key);
      InsertSorts(xs[0], SortByKey(xs[1..], key), key);
    }
  }

  // ---------------------------------------------------------------------
  // Numbers ordered by a key, equal keys by the number itself
  // ---------------------------------------------------------------------

  predicate Before(key: int -> int, a: int, b: int) {
    key(a) < key(b) || (key(a) == key(b) && a < b)
  }

  ghost predicate Ordered(xs: seq<int>, key: int -> int) {
    forall i, j | 0 <= i < j < |xs| :: Before(key, xs[i], xs[j])
  }

  lemma {:induction false} InsertOrders(x: int, ys: seq<int>, key: int -> int)
    requires Ordered(ys, key) && forall y | y in ys :: x < y
    ensures Ordered(Insert(x, ys, key), key)
  {
    var r := Insert(x, ys, key);
    if ys == [] || key(x) <= key(ys[0]) {
      forall j | 0 <= j < |ys| ensures Before(key, x, ys[j]) {
        assert ys[j] in ys;
        assert j > 0 ==> Before(key, ys[0], ys[j]);
      }
      assert r == [x] + ys;
    } else {
      var tail := ys[1..];
      forall i, j | 0 <= i < j < |tail| ensures Before(key, tail[i], tail[j]) {
        assert Before(key, ys[i + 1], ys[j + 1]);
      }
      assert forall y | y in tail :: y in ys;
      InsertOrders(x, tail, key);
      var rest := Insert(x, tail, key);
      forall j | 0 <= j < |rest| ensures Before(key, ys[0], rest[j]) {
        assert rest[j] in rest;
        if rest[j] != x {
          var k :| 0 <= k < |tail| && tail[k] == rest[j];
          assert Before(key, ys[0], ys[k + 1]);
        }
      }
      assert r == [ys[0]] + rest;
    }
  }

  /** Sorting ascending numbers by a key orders them by key and then by number. */
  lemma {:induction false} SortOrders(xs: seq<int>, key: int -> int)
    requires forall i, j | 0 <= i < j < |xs| :: xs[i] < xs[j]
    ensures Ordered(SortByKey(xs, key), key)
  {
    if xs != [] {
      SortOrders(xs[1..], key);
      forall y | y in SortByKey(xs[1..], key) ensures xs[0] < y {
        assert y in xs[1..];
      }
      InsertOrders(xs[0], SortByKey(xs[1..], key), key);
    }
  }

  lemma FirstIsLeast(xs: seq<int>, key: int -> int, k: nat)
    requires Ordered(xs, key) && k < |xs|
    ensures xs[k] == xs[0] || Before(key, xs[0], xs[k])
  {
  }

  /** Only one order of the same numbers is right. */
  lemma {:induction false} OrderIsUnique(xs: seq<int>, ys: seq<int>, key: int -> int)
    requires Ordered(xs, key) && Ordered(ys, key) && forall x :: x in xs <==> x in ys
    ensures xs == ys
  {
    EmptyTogether(xs, ys);
    EmptyTogether(ys, xs);
    if xs != [] {
      assert xs[0] in ys && ys[0] in xs;
      var i :| 0 <= i < |ys| && ys[i] == xs[0];
      var j :| 0 <= j < |xs| && xs[j] == ys[0];
      FirstIsLeast(ys, key, i);
      FirstIsLeast(xs, key, j);
      TailMembers(xs, key);
      TailMembers(ys, key);
      OrderIsUnique(xs[1..], ys[1..], key);
      assert xs == [xs[0]] + xs[1..] && ys == [ys[0]] + ys[1..];
    }
  }

  lemma EmptyTogether(xs: seq<int>, ys: seq<int>)
    requires forall x | x in ys :: x in xs
    ensures xs == [] ==> ys == []
  {
    if ys != [] {
      var y := ys[0];
      assert y in ys;
      assert xs != [];
    }
  }

  lemma TailMembers(xs: seq<int>, key: int -> int)
    requires Ordered(xs, key) && xs != []
    ensures Ordered(xs[1..], key)
    ensures forall x :: x in xs[1..] <==> x in xs && x != xs[0]
  {
    forall i, j | 0 <= i < j < |xs| - 1 ensures Before(key, xs[1..][i], xs[1..][j]) {
      assert Before(key, xs[i + 1], xs[j + 1]);
    }
    forall x ensures x in xs[1..] <==> x in xs && x != xs[0] {
      if x in xs[1..] {
        var k :| 0 <= k < |xs| - 1 && xs[1..][k] == x;
        assert Before(key, xs[0], xs[k + 1]);
      }
      if x in xs && x != xs[0] {
        var k :| 0 <= k < |xs| && xs[k] == x;
        assert xs[1..][k - 1] == x;
      }
    }
  }

  predicate IsLeast(s: set<int>, least: int) {
    least in s && forall x | x in s :: least <= x
  }

  lemma HasMember(s: set<int>)
    requires s != {}
    ensures exists x :: x in s
  {
    if forall x :: x !in s {
      assert false;
    }
  }

  lemma {:induction false} LeastExists(s: set<int>)
    requires s != {}
    ensures exists least :: IsLeast(s, least)
  {
    HasMember(s);
    var x :| x in s;
    var rest := s - {x};
    assert forall y | y in s :: y == x || y in rest;
    if rest == {} {
      assert IsLeast(s, x);
    } else {
      LeastExists(rest);
      var least :| IsLeast(rest, least);
      assert IsLeast(s, if x < least then x else least);
    }
  }

  function Least(s: set<int>): (least: int)
    requires s != {}
    ensures IsLeast(s, least)
  {
    LeastExists(s);
    var least :| IsLeast(s, least);
    least
  }

  /** The numbers of a set in ascending order. */
  function Ascending(s: set<int>): (r: seq<int>)
    ensures forall x :: x in r <==> x in s
    ensures forall i, j | 0 <= i < j < |r| :: r[i] < r[j]
  {
    if s == {} then []
    else
      var least := Least(s);
      [least] + Ascending(s - {least})
  }
}
