/**
 The result of an inventory search and its derived out-of-stock view.

 The view is not a stored field: it is recomputed from the statuses every time it
 is read, and a serialized search result carries only the statuses. Modelling it
 as a function of `statuses` makes "never stored redundantly" hold by construction.
 */
module SearchResult {
  import opened Domain

  /** An item counts as out of stock when its quantity is zero or negative. */
  predicate IsOutOfStock(status: ItemStatus) {
    status.quantity <= 0
  }

  datatype InventorySearchResult = InventorySearchResult(statuses: seq<ItemStatus>) {
    /** The statuses whose quantity is at most zero, in their original order,
        recomputed from `statuses` on every read. */
    function OutOfStockItems(): (r: seq<ItemStatus>)
      ensures |r| <= |statuses|
      ensures forall x :: x in r <==> x in statuses && IsOutOfStock(x)
    {
      OutOfStockMembershipAll(statuses);
      OutOfStock(statuses)
    }
  }

  /** A search result built without statuses. */
  const EmptySearchResult := InventorySearchResult([])

  /** The order-preserving filter that keeps exactly the out-of-stock statuses. */
  function OutOfStock(statuses: seq<ItemStatus>): (r: seq<ItemStatus>)
    ensures |r| <= |statuses|
    ensures forall k :: 0 <= k < |r| ==> IsOutOfStock(r[k])
  {
    if statuses == [] then []
    else if IsOutOfStock(statuses[0]) then [statuses[0]] + OutOfStock(statuses[1..])
    else OutOfStock(statuses[1..])
  }

  /** The complementary filter: the statuses that still have stock. */
  function InStock(statuses: seq<ItemStatus>): (r: seq<ItemStatus>)
    ensures |r| <= |statuses|
    ensures forall k :: 0 <= k < |r| ==> !IsOutOfStock(r[k])
  {
    if statuses == [] then []
    else if IsOutOfStock(statuses[0]) then InStock(statuses[1..])
    else [statuses[0]] + InStock(statuses[1..])
  }

  /** Materialises the out-of-stock view by one left-to-right pass over the
      statuses, appending each out-of-stock status to the list being built. */
  method OutOfStockToList(statuses: seq<ItemStatus>) returns (items: seq<ItemStatus>)
    ensures items == OutOfStock(statuses)
  {
    items := [];
    var i := 0;
    while i < |statuses|
      invariant 0 <= i <= |statuses|
      invariant items == OutOfStock(statuses[..i])
    {
      OutOfStockAppend(statuses[..i], [statuses[i]]);
      assert statuses[..i + 1] == statuses[..i] + [statuses[i]];
      if IsOutOfStock(statuses[i]) {
        items := items + [statuses[i]];
      }
      i := i + 1;
    }
    assert statuses[..i] == statuses;
  }

  /** Filtering a concatenation filters each part and concatenates the results. */
  lemma {:induction false} OutOfStockAppend(a: seq<ItemStatus>, b: seq<ItemStatus>)
    ensures OutOfStock(a + b) == OutOfStock(a) + OutOfStock(b)
    decreases |a|
  {
    if a == [] {
      assert a + b == b;
    } else {
      assert (a + b)[0] == a[0];
      assert (a + b)[1..] == a[1..] + b;
      OutOfStockAppend(a[1..], b);
    }
  }

  /** A single status is in the view exactly when its quantity is at most zero:
      zero and negative quantities are out of stock, one and above are not. */
  lemma OutOfStockSingleton(status: ItemStatus)
    ensures status.quantity <= 0 ==> OutOfStock([status]) == [status]
    ensures status.quantity >= 1 ==> OutOfStock([status]) == []
  {
    assert [status][1..] == [];
  }

  /** A status occurs in the view if and only if it occurs among the statuses and
      is out of stock: the view is sound (nothing in stock gets in, nothing is
      invented) and complete (no out-of-stock status is dropped). */
  lemma {:induction false} OutOfStockMembership(statuses: seq<ItemStatus>, x: ItemStatus)
    ensures x in OutOfStock(statuses) <==> x in statuses && IsOutOfStock(x)
    decreases |statuses|
  {
    if statuses != [] {
      OutOfStockMembership(statuses[1..], x);
      assert x in statuses <==> x == statuses[0] || x in statuses[1..] by {
        assert statuses == [statuses[0]] + statuses[1..];
      }
    }
  }

  /** The membership fact for every status at once. */
  lemma OutOfStockMembershipAll(statuses: seq<ItemStatus>)
    ensures forall x :: x in OutOfStock(statuses) <==> x in statuses && IsOutOfStock(x)
  {
    forall x {
      OutOfStockMembership(statuses, x);
    }
  }

  /** Every out-of-stock position of the statuses contributes its status to the view. */
  lemma OutOfStockComplete(statuses: seq<ItemStatus>, i: int)
    requires 0 <= i < |statuses| && IsOutOfStock(statuses[i])
    ensures statuses[i] in OutOfStock(statuses)
  {
    OutOfStockMembership(statuses, statuses[i]);
  }

  /** Every out-of-stock status occurs in the view exactly as often as among the
      statuses; every in-stock status occurs zero times. */
  lemma {:induction false} OutOfStockMultiplicity(statuses: seq<ItemStatus>, x: ItemStatus)
    ensures multiset(OutOfStock(statuses))[x] == if IsOutOfStock(x) then multiset(statuses)[x] else 0
    decreases |statuses|
  {
    if statuses != [] {
      assert statuses == [statuses[0]] + statuses[1..];
      OutOfStockMultiplicity(statuses[1..], x);
    }
  }

  /** The out-of-stock and in-stock views partition the statuses: together they
      hold every status exactly once, so the view is never longer than the input. */
  lemma {:induction false} OutOfStockPartition(statuses: seq<ItemStatus>)
    ensures multiset(OutOfStock(statuses)) + multiset(InStock(statuses)) == multiset(statuses)
    ensures |OutOfStock(statuses)| + |InStock(statuses)| == |statuses|
    decreases |statuses|
  {
    if statuses != [] {
      assert statuses == [statuses[0]] + statuses[1..];
      OutOfStockPartition(statuses[1..]);
    }
  }

  /** The view equals the statuses exactly when every status is out of stock. */
  lemma {:induction false} OutOfStockUnchangedIff(statuses: seq<ItemStatus>)
    ensures OutOfStock(statuses) == statuses <==> forall i :: 0 <= i < |statuses| ==> IsOutOfStock(statuses[i])
    decreases |statuses|
  {
    if statuses != [] {
      OutOfStockUnchangedIff(statuses[1..]);
      if !IsOutOfStock(statuses[0]) {
        assert |OutOfStock(statuses)| < |statuses|;
      } else if forall i :: 0 <= i < |statuses| ==> IsOutOfStock(statuses[i]) {
        assert forall i :: 0 <= i < |statuses[1..]| ==> statuses[1..][i] == statuses[i + 1];
      } else {
        var i :| 0 <= i < |statuses| && !IsOutOfStock(statuses[i]);
        OutOfStockMembership(statuses, statuses[i]);
      }
    }
  }

  /** The view is empty exactly when every status is in stock. */
  lemma {:induction false} OutOfStockEmptyIff(statuses: seq<ItemStatus>)
    ensures OutOfStock(statuses) == [] <==> forall i :: 0 <= i < |statuses| ==> !IsOutOfStock(statuses[i])
  {
    if OutOfStock(statuses) != [] {
      var x := OutOfStock(statuses)[0];
      OutOfStockMembership(statuses, x);
    }
    if i :| 0 <= i < |statuses| && IsOutOfStock(statuses[i]) {
      OutOfStockComplete(statuses, i);
    }
  }

  /** Filtering the out-of-stock view again changes nothing. */
  lemma {:induction false} OutOfStockIdempotent(statuses: seq<ItemStatus>)
    ensures OutOfStock(OutOfStock(statuses)) == OutOfStock(statuses)
  {
    OutOfStockUnchangedIff(OutOfStock(statuses));
  }

  /** A search result built with default statuses has an empty out-of-stock view. */
  lemma EmptySearchResultHasNoOutOfStock()
    ensures EmptySearchResult.OutOfStockItems() == []
  {
  }

  /** The view of a search result is the filter of its statuses: a status is in it
      iff it is one of the result's statuses and out of stock. */
  lemma OutOfStockItemsMembership(result: InventorySearchResult, x: ItemStatus)
    ensures x in result.OutOfStockItems() <==> x in result.statuses && IsOutOfStock(x)
  {
    OutOfStockMembership(result.statuses, x);
  }
}
