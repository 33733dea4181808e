/** Rows of items, one per interface number, read one after another in some order of the interfaces. */
module Listings {
  /** Row n; interfaces without one have no items. */
  function Row<T>(rows: seq<seq<T>>, n: nat): seq<T> {
    if n < |rows| then rows[n] else []
  }

  function Listing<T>(rows: seq<seq<T>>, order: seq<nat>): seq<T> {
    if order == [] then [] else Listing(rows, order[..|order| - 1]) + Row(rows, order[|order| - 1])
  }

  /** The first n interface numbers. */
  function Upto(n: nat): (order: seq<nat>)
    ensures |order| == n && forall i :: 0 <= i < n ==> order[i] == i
  {
    seq(n, i requires 0 <= i < n => i)
  }

  ghost predicate Distinct(order: seq<nat>) {
    forall i, j :: 0 <= i < j < |order| ==> order[i] != order[j]
  }

  ghost predicate Ascending(order: seq<nat>) {
    forall i, j :: 0 <= i < j < |order| ==> order[i] < order[j]
  }

  /** The order stays below n, and rows below n that are not in it are empty. */
  ghost predicate Covers<T>(rows: seq<seq<T>>, order: seq<nat>, n: nat) {
    && (forall m :: m in order ==> m < n)
    && (forall m: nat :: m < n && m !in order ==> Row(rows, m) == [])
  }

  lemma ListingSnoc<T>(rows: seq<seq<T>>, order: seq<nat>, n: nat)
    ensures Listing(rows, order + [n]) == Listing(rows, order) + Row(rows, n)
  {
    assert (order + [n])[..|order|] == order;
  }

  lemma ListingUpto<T>(rows: seq<seq<T>>, n: nat)
    ensures Listing(rows, Upto(n + 1)) == Listing(rows, Upto(n)) + Row(rows, n)
  {
    assert Upto(n + 1) == Upto(n) + [n];
    ListingSnoc(rows, Upto(n), n);
  }

  lemma FirstCovered<T>(rows: seq<seq<T>>, order: seq<nat>, n: nat)
    requires Covers(rows, order, n)
    ensures order != [] ==> order[0] < n
  {
    if order != [] {
      assert order[0] in order;
    }
  }

  lemma LastAscending(init: seq<nat>, last: nat, n: nat)
    requires Ascending(init + [last]) && n in init + [last] && forall m :: m in init + [last] ==> m <= n
    ensures last == n && forall m :: m in init ==> m < n
  {
    var order := init + [last];
    assert order[|init|] == last && last in order;
    forall m | m in init
      ensures m < last
    {
      var i :| 0 <= i < |init| && init[i] == m;
      assert order[i] == m;
    }
  }

  /** An ascending order of rows up to n that reads row n, without it. */
  lemma DropLast<T>(rows: seq<seq<T>>, order: seq<nat>, n: nat) returns (init: seq<nat>)
    requires Ascending(order) && n in order && Covers(rows, order, n + 1)
    ensures Ascending(init) && Covers(rows, init, n)
    ensures Listing(rows, order) == Listing(rows, init) + Row(rows, n)
  {
    var last := order[|order| - 1];
    init := order[..|order| - 1];
    assert order == init + [last];
    LastAscending(init, last, n);
    ListingSnoc(rows, init, n);
  }

  /** In ascending order, the listing is that of all rows. */
  lemma {:induction false} AscendingListing<T>(rows: seq<seq<T>>, order: seq<nat>, n: nat)
    requires Covers(rows, order, n) && Ascending(order)
    ensures Listing(rows, order) == Listing(rows, Upto(n))
    decreases n
  {
    if n == 0 {
      FirstCovered(rows, order, n);
    } else {
      ListingUpto(rows, n - 1);
      if n - 1 in order {
        var init := DropLast(rows, order, n - 1);
        AscendingListing(rows, init, n - 1);
      } else {
        AscendingListing(rows, order, n - 1);
      }
    }
  }

  lemma {:induction false} ListingSplit<T>(rows: seq<seq<T>>, x: seq<nat>, y: seq<nat>)
    ensures Listing(rows, x + y) == Listing(rows, x) + Listing(rows, y)
    decreases |y|
  {
    if y == [] {
      assert x + y == x;
    } else {
      var init, last := y[..|y| - 1], y[|y| - 1];
      assert x + y == (x + init) + [last];
      assert y == init + [last];
      ListingSplit(rows, x, init);
      ListingSnoc(rows, x + init, last);
      ListingSnoc(rows, init, last);
    }
  }

  /** Taking one interface out of the order takes out its row. */
  lemma ListingWithout<T>(rows: seq<seq<T>>, order: seq<nat>, k: nat)
    requires k < |order|
    ensures multiset(Listing(rows, order)) ==
      multiset(Listing(rows, order[..k] + order[k + 1..])) + multiset(Row(rows, order[k]))
  {
    var x, n, y := order[..k], order[k], order[k + 1..];
    assert order == (x + [n]) + y;
    ListingSplit(rows, x + [n], y);
    ListingSnoc(rows, x, n);
    ListingSplit(rows, x, y);
  }

  lemma WithoutOne(order: seq<nat>, k: nat, rest: seq<nat>)
    requires Distinct(order) && k < |order| && rest == order[..k] + order[k + 1..]
    ensures Distinct(rest) && order[k] !in rest && (forall m :: m in order <==> m in rest || m == order[k])
  {
    assert order == order[..k] + [order[k]] + order[k + 1..];
    assert forall i :: 0 <= i < |rest| ==> rest[i] == order[if i < k then i else i + 1];
  }

  /** An order of rows up to n that reads row n, without it. */
  lemma TakeOut<T>(rows: seq<seq<T>>, order: seq<nat>, n: nat) returns (rest: seq<nat>)
    requires Distinct(order) && n in order && Covers(rows, order, n + 1)
    ensures Distinct(rest) && Covers(rows, rest, n)
    ensures multiset(Listing(rows, order)) == multiset(Listing(rows, rest)) + multiset(Row(rows, n))
  {
    var k :| 0 <= k < |order| && order[k] == n;
    rest := order[..k] + order[k + 1..];
    ListingWithout(rows, order, k);
    WithoutOne(order, k, rest);
  }

  /** In any order, the listing is a permutation of that of all rows. */
  lemma {:induction false} ListingPermuted<T>(rows: seq<seq<T>>, order: seq<nat>, n: nat)
    requires Covers(rows, order, n) && Distinct(order)
    ensures multiset(Listing(rows, order)) == multiset(Listing(rows, Upto(n)))
    decreases n
  {
    if n == 0 {
      FirstCovered(rows, order, n);
    } else {
      ListingUpto(rows, n - 1);
      if n - 1 in order {
        var rest := TakeOut(rows, order, n - 1);
        ListingPermuted(rows, rest, n - 1);
      } else {
        ListingPermuted(rows, order, n - 1);
      }
    }
  }
}
