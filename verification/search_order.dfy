/**
 Order preservation of the out-of-stock view, stated independently of the filter.

 A sequence `r` is "picked" from `statuses` by an index list `idx` when `idx` is
 strictly increasing, `r` lists the statuses at those positions in that order, and
 the positions are exactly the out-of-stock ones. The lemmas below show that the
 out-of-stock view is picked this way and that it is the only sequence that is, so
 the view is the in-order subsequence of the out-of-stock statuses: no status is
 reordered, dropped, duplicated or invented.
 */
module SearchOrder {
  import opened Domain
  import opened SearchResult

  /** `r` lists, in order, the statuses at positions `idx`. */
  ghost predicate Selects(statuses: seq<ItemStatus>, r: seq<ItemStatus>, idx: seq<int>) {
    && |idx| == |r|
    && forall k :: 0 <= k < |idx| ==> 0 <= idx[k] < |statuses| && r[k] == statuses[idx[k]]
  }

  ghost predicate StrictlyIncreasing(idx: seq<int>) {
    forall k, l :: 0 <= k < l < |idx| ==> idx[k] < idx[l]
  }

  /** The positions in `idx` are exactly those of the out-of-stock statuses. */
  ghost predicate CoversOutOfStock(statuses: seq<ItemStatus>, idx: seq<int>) {
    forall i :: 0 <= i < |statuses| ==> (IsOutOfStock(statuses[i]) <==> i in idx)
  }

  /** `r` lists, in order, the statuses at the strictly increasing positions `idx`,
      and those positions are exactly the out-of-stock ones. */
  ghost predicate Picks(statuses: seq<ItemStatus>, r: seq<ItemStatus>, idx: seq<int>) {
    Selects(statuses, r, idx) && StrictlyIncreasing(idx) && CoversOutOfStock(statuses, idx)
  }

  /** The positions of the out-of-stock statuses, in increasing order. */
  function OutOfStockPositions(statuses: seq<ItemStatus>): (idx: seq<int>)
    ensures forall k :: 0 <= k < |idx| ==> 0 <= idx[k] < |statuses|
    decreases |statuses|
  {
    if statuses == [] then []
    else
      var n := |statuses| - 1;
      var front := OutOfStockPositions(statuses[..n]);
      if IsOutOfStock(statuses[n]) then front + [n] else front
  }

  /** Splitting off the last status splits the view the same way. */
  lemma {:induction false} OutOfStockSnoc(statuses: seq<ItemStatus>)
    requires statuses != []
    ensures OutOfStock(statuses)
         == OutOfStock(statuses[..|statuses| - 1])
          + (if IsOutOfStock(statuses[|statuses| - 1]) then [statuses[|statuses| - 1]] else [])
  {
    var n := |statuses| - 1;
    SplitLast(statuses);
    OutOfStockAppend(statuses[..n], [statuses[n]]);
    OutOfStockSingleton(statuses[n]);
  }

  /** A picking of all statuses but the last extends to all statuses. */
  lemma PicksSnoc(statuses: seq<ItemStatus>, r: seq<ItemStatus>, idx: seq<int>)
    requires statuses != []
    requires Picks(statuses[..|statuses| - 1], r, idx)
    ensures IsOutOfStock(statuses[|statuses| - 1]) ==> Picks(statuses, r + [statuses[|statuses| - 1]], idx + [|statuses| - 1])
    ensures !IsOutOfStock(statuses[|statuses| - 1]) ==> Picks(statuses, r, idx)
  {
  }

  /** When the last status is out of stock, a picking of all statuses ends with
      it, and the rest is a picking of all statuses but the last. */
  lemma PicksUnsnocOut(statuses: seq<ItemStatus>, r: seq<ItemStatus>, idx: seq<int>)
    requires statuses != [] && IsOutOfStock(statuses[|statuses| - 1])
    requires Picks(statuses, r, idx)
    ensures |idx| > 0 && idx[|idx| - 1] == |statuses| - 1
    ensures Picks(statuses[..|statuses| - 1], r[..|r| - 1], idx[..|idx| - 1])
  {
  }

  /** When the last status is in stock, a picking of all statuses is a picking of
      all statuses but the last. */
  lemma PicksUnsnocIn(statuses: seq<ItemStatus>, r: seq<ItemStatus>, idx: seq<int>)
    requires statuses != [] && !IsOutOfStock(statuses[|statuses| - 1])
    requires Picks(statuses, r, idx)
    ensures Picks(statuses[..|statuses| - 1], r, idx)
  {
  }

  /** The out-of-stock view is picked from the statuses by the out-of-stock positions. */
  lemma {:induction false} OutOfStockIsPicked(statuses: seq<ItemStatus>)
    ensures Picks(statuses, OutOfStock(statuses), OutOfStockPositions(statuses))
    decreases |statuses|
  {
    if statuses != [] {
      var n := |statuses| - 1;
      OutOfStockIsPicked(statuses[..n]);
      OutOfStockSnoc(statuses);
      PicksSnoc(statuses, OutOfStock(statuses[..n]), OutOfStockPositions(statuses[..n]));
    }
  }

  /** Every selected position lies within the statuses. */
  lemma SelectsInRange(statuses: seq<ItemStatus>, r: seq<ItemStatus>, idx: seq<int>, k: int)
    requires Selects(statuses, r, idx) && 0 <= k < |idx|
    ensures 0 <= idx[k] < |statuses| && r[k] == statuses[idx[k]]
  {
  }

  /** Nothing can be picked from no statuses but the empty sequence. */
  lemma PickedFromEmpty(r: seq<ItemStatus>, idx: seq<int>)
    requires Picks([], r, idx)
    ensures r == [] && idx == []
  {
    if |idx| > 0 {
      SelectsInRange([], r, idx, 0);
      assert false;
    }
  }

  /** A non-empty sequence is its front followed by its last element. */
  lemma SplitLast<T>(s: seq<T>)
    requires s != []
    ensures s == s[..|s| - 1] + [s[|s| - 1]]
  {
  }

  /** The inductive step when the last status is out of stock: a picking whose
      front is the view of all statuses but the last is the view of all statuses. */
  lemma PickedStepOut(statuses: seq<ItemStatus>, r: seq<ItemStatus>, idx: seq<int>)
    requires statuses != [] && IsOutOfStock(statuses[|statuses| - 1])
    requires |idx| > 0 && idx[|idx| - 1] == |statuses| - 1 && |r| == |idx|
    requires r[|r| - 1] == statuses[|statuses| - 1]
    requires r[..|r| - 1] == OutOfStock(statuses[..|statuses| - 1])
    requires idx[..|idx| - 1] == OutOfStockPositions(statuses[..|statuses| - 1])
    ensures r == OutOfStock(statuses)
    ensures idx == OutOfStockPositions(statuses)
  {
    OutOfStockSnoc(statuses);
    SplitLast(r);
    SplitLast(idx);
  }

  /** Any sequence picked from the statuses is the out-of-stock view, and its
      positions are the out-of-stock positions. */
  lemma {:induction false} PickedIsOutOfStock(statuses: seq<ItemStatus>, r: seq<ItemStatus>, idx: seq<int>)
    requires Picks(statuses, r, idx)
    ensures r == OutOfStock(statuses)
    ensures idx == OutOfStockPositions(statuses)
    decreases |statuses|
  {
    if statuses == [] {
      PickedFromEmpty(r, idx);
    } else {
      var n := |statuses| - 1;
      if IsOutOfStock(statuses[n]) {
        PicksUnsnocOut(statuses, r, idx);
        PickedIsOutOfStock(statuses[..|statuses| - 1], r[..|r| - 1], idx[..|idx| - 1]);
        SelectsInRange(statuses, r, idx, |idx| - 1);
        PickedStepOut(statuses, r, idx);
      } else {
        PicksUnsnocIn(statuses, r, idx);
        PickedIsOutOfStock(statuses[..n], r, idx);
        OutOfStockSnoc(statuses);
      }
    }
  }

  /** A sequence is the out-of-stock view of the statuses if and only if it is the
      in-order selection of exactly the out-of-stock positions. */
  lemma OutOfStockCharacterization(statuses: seq<ItemStatus>, r: seq<ItemStatus>)
    ensures r == OutOfStock(statuses) <==> exists idx :: Picks(statuses, r, idx)
  {
    if r == OutOfStock(statuses) {
      OutOfStockIsPicked(statuses);
    }
    if idx :| Picks(statuses, r, idx) {
      PickedIsOutOfStock(statuses, r, idx);
    }
  }
}
