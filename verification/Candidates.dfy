/** Asking the index: `candidates` returns exactly what the linear scan returns, or nothing at all. */
module Candidates {
  import opened Options
  import opened Boxes
  import opened Grid
  import opened IdRanges
  import opened SpatialIndex

  /** The shape of an index that the query code relies on. */
  predicate WellShaped(idx: Index) {
    && |idx.ids| == |idx.boxes|
    && (forall i :: 0 <= i < |idx.spanning| ==> idx.spanning[i] < |idx.ids|)
    && (forall k, i :: k in idx.cells && 0 <= i < |idx.cells[k]| ==> idx.cells[k][i] < |idx.ids|)
    && (idx.ids != [] ==> idx.extent.Some?)
  }

  /** What each feature contributes to the answer for `view`: its id, or nothing. */
  function Parts(idx: Index, view: Box): (parts: seq<seq<u64>>)
    requires |idx.ids| == |idx.boxes|
    ensures |parts| == |idx.ids|
    ensures forall s :: 0 <= s < |parts| ==>
              parts[s] == if Intersects(idx.boxes[s], view) then [idx.ids[s]] else []
  {
    seq(|idx.ids|, s requires 0 <= s < |idx.ids| =>
      if Intersects(idx.boxes[s], view) then [idx.ids[s]] else [])
  }

  /** The contributions of the slots in `order`, one after the other. */
  function Pick(parts: seq<seq<u64>>, order: seq<nat>): seq<u64>
    requires Below(order, |parts|)
  {
    if order == [] then [] else Pick(parts, order[..|order| - 1]) + parts[order[|order| - 1]]
  }

  function UpTo(n: nat): (r: seq<nat>)
    ensures |r| == n && forall i :: 0 <= i < n ==> r[i] == i
  {
    seq(n, i => i)
  }

  /** What the unindexed scan returns: the ids of all features meeting the view, in file order. */
  function ScanIds(idx: Index, view: Box): seq<u64>
    requires |idx.ids| == |idx.boxes|
  {
    Pick(Parts(idx, view), UpTo(|idx.ids|))
  }

  /** `sort_unstable`: any sort of numbers gives this sequence. */
  function Sort(s: seq<u64>): (r: seq<u64>)
    ensures NonDecreasing(r) && multiset(r) == multiset(s)
  {
    if s == [] then []
    else
      assert s == s[..|s| - 1] + [s[|s| - 1]];
      Insert(Sort(s[..|s| - 1]), s[|s| - 1])
  }

  /** Where `x` goes in a sorted sequence: after everything not above it. */
  function Rank(s: seq<u64>, x: u64): (k: nat)
    requires NonDecreasing(s)
    ensures k <= |s|
    ensures forall i :: 0 <= i < k ==> s[i] <= x
    ensures forall i :: k <= i < |s| ==> x < s[i]
  {
    if s == [] then 0
    else if s[|s| - 1] <= x then |s|
    else Rank(s[..|s| - 1], x)
  }

  function Insert(s: seq<u64>, x: u64): (r: seq<u64>)
    requires NonDecreasing(s)
    ensures NonDecreasing(r) && multiset(r) == multiset(s) + multiset{x}
  {
    var k := Rank(s, x);
    InsertKeepsOrder(s, x, k);
    InsertKeepsAll(s, x, k);
    s[..k] + [x] + s[k..]
  }

  lemma {:induction false} InsertKeepsOrder(s: seq<u64>, x: u64, k: nat)
    requires NonDecreasing(s) && k <= |s|
    requires (forall i :: 0 <= i < k ==> s[i] <= x) && (forall i :: k <= i < |s| ==> x < s[i])
    ensures NonDecreasing(s[..k] + [x] + s[k..])
  {
    var r := s[..k] + [x] + s[k..];
    assert forall i :: 0 <= i < |r| ==> r[i] == if i < k then s[i] else if i == k then x else s[i - 1];
  }

  lemma {:induction false} InsertKeepsAll(s: seq<u64>, x: u64, k: nat)
    requires k <= |s|
    ensures multiset(s[..k] + [x] + s[k..]) == multiset(s) + multiset{x}
  {
    var a, b := s[..k], s[k..];
    assert s == a + b;
    assert multiset(a + [x] + b) == multiset(a) + multiset{x} + multiset(b);
  }

  // ---------------------------------------------------------------- any order gives the same ids

  predicate Distinct(order: seq<nat>) { forall i, j :: 0 <= i < j < |order| ==> order[i] != order[j] }

  predicate Below(order: seq<nat>, n: nat) { forall i :: 0 <= i < |order| ==> order[i] < n }

  /** The same contributions, without their order. */
  ghost function Bag(parts: seq<seq<u64>>, order: seq<nat>): multiset<u64>
    requires Below(order, |parts|)
  {
    if order == [] then multiset{}
    else Bag(parts, order[..|order| - 1]) + multiset(parts[order[|order| - 1]])
  }

  lemma {:induction false} PickIsBag(parts: seq<seq<u64>>, order: seq<nat>)
    requires Below(order, |parts|)
    ensures multiset(Pick(parts, order)) == Bag(parts, order)
  {
    if order != [] {
      PickIsBag(parts, order[..|order| - 1]);
    }
  }

  /** What a set of slots contributes. */
  ghost function SetBag(parts: seq<seq<u64>>, slots: set<nat>): multiset<u64>
    requires forall s :: s in slots ==> s < |parts|
  {
    if slots == {} then multiset{}
    else
      var s :| s in slots;
      SetBag(parts, slots - {s}) + multiset(parts[s])
  }

  lemma {:induction false} SetBagWithout(parts: seq<seq<u64>>, slots: set<nat>, s: nat)
    requires s in slots && forall t :: t in slots ==> t < |parts|
    ensures SetBag(parts, slots) == SetBag(parts, slots - {s}) + multiset(parts[s])
    decreases |slots|
  {
    var t :| t in slots && SetBag(parts, slots) == SetBag(parts, slots - {t}) + multiset(parts[t]);
    if t != s {
      SetBagWithout(parts, slots - {t}, s);
      SetBagWithout(parts, slots - {s}, t);
      assert slots - {t} - {s} == slots - {s} - {t};
    }
  }

  function SlotSet(order: seq<nat>): set<nat> { set s | s in order }

  /** Visits of distinct slots contribute what the set of them does. */
  lemma {:induction false} BagIsSetBag(parts: seq<seq<u64>>, order: seq<nat>)
    requires Below(order, |parts|) && Distinct(order)
    ensures Bag(parts, order) == SetBag(parts, SlotSet(order))
    decreases |order|
  {
    if order == [] {
      assert SlotSet(order) == {};
    } else {
      var n := |order| - 1;
      BagIsSetBag(parts, order[..n]);
      assert SlotSet(order) - {order[n]} == SlotSet(order[..n]);
      SetBagWithout(parts, SlotSet(order), order[n]);
    }
  }

  /** Slots that contribute nothing may be left out. */
  lemma {:induction false} EmptyPartsDoNotCount(parts: seq<seq<u64>>, some: set<nat>, all: set<nat>)
    requires some <= all && forall s :: s in all ==> s < |parts|
    requires forall s :: s in all && s !in some ==> parts[s] == []
    ensures SetBag(parts, some) == SetBag(parts, all)
    decreases |all - some|
  {
    if some != all {
      var s :| s in all && s !in some;
      assert all - {s} - some == all - some - {s};
      EmptyPartsDoNotCount(parts, some, all - {s});
      SetBagWithout(parts, all, s);
    }
  }

  /** Visiting distinct slots in any order, without missing a contribution, picks what the scan picks. */
  lemma {:induction false} AnyOrderPicksTheSame(parts: seq<seq<u64>>, order: seq<nat>, n: nat)
    requires n <= |parts| && Distinct(order) && Below(order, n)
    requires forall s :: 0 <= s < n && parts[s] != [] ==> s in order
    ensures multiset(Pick(parts, order)) == multiset(Pick(parts, UpTo(n)))
  {
    PickIsBag(parts, order);
    PickIsBag(parts, UpTo(n));
    BagIsSetBag(parts, order);
    BagIsSetBag(parts, UpTo(n));
    SlotsUpTo(n);
    SlotsVisited(order, n);
    EmptyPartsDoNotCount(parts, SlotSet(order), SlotSet(UpTo(n)));
  }

  lemma {:induction false} SlotsUpTo(n: nat)
    ensures forall s: nat :: s in SlotSet(UpTo(n)) <==> s < n
  {
    forall s: nat | s < n
      ensures s in UpTo(n)
    {
      assert UpTo(n)[s] == s;
    }
  }

  lemma {:induction false} SlotsVisited(order: seq<nat>, n: nat)
    requires Below(order, n)
    ensures forall s: nat :: s in SlotSet(order) <==> s in order
    ensures forall s: nat :: s in SlotSet(order) ==> s < n
  {
  }

  // ---------------------------------------------------------------- the query

  /** What the loops keep: `order` lists the slots marked in `seen`, once each, and `out` is what
      they contribute. */
  ghost predicate Tracks(idx: Index, view: Box, seen: array<bool>, order: seq<nat>, out: seq<u64>)
    reads seen
  {
    && |idx.ids| == |idx.boxes| == seen.Length
    && Below(order, |idx.ids|) && Distinct(order)
    && (forall s :: 0 <= s < seen.Length ==> (seen[s] <==> s in order))
    && out == Pick(Parts(idx, view), order)
  }

  /** `consider`: look at a slot unless it was looked at before. */
  method Consider(idx: Index, view: Box, seen: array<bool>, slot: nat, out0: seq<u64>, ghost order0: seq<nat>)
    returns (out: seq<u64>, ghost order: seq<nat>)
    requires Tracks(idx, view, seen, order0, out0) && slot < |idx.ids|
    modifies seen
    ensures Tracks(idx, view, seen, order, out)
    ensures order0 <= order && slot in order
  {
    out, order := out0, order0;
    if !seen[slot] {
      seen[slot] := true;
      order := order0 + [slot];
      assert order[..|order| - 1] == order0;
      if Intersects(idx.boxes[slot], view) {
        out := out + [idx.ids[slot]];
      }
    }
  }

  method ConsiderAll(idx: Index, view: Box, seen: array<bool>, slots: seq<nat>, out0: seq<u64>, ghost order0: seq<nat>)
    returns (out: seq<u64>, ghost order: seq<nat>)
    requires Tracks(idx, view, seen, order0, out0) && Below(slots, |idx.ids|)
    modifies seen
    ensures Tracks(idx, view, seen, order, out)
    ensures order0 <= order && forall i :: 0 <= i < |slots| ==> slots[i] in order
  {
    out, order := out0, order0;
    for i := 0 to |slots|
      invariant Tracks(idx, view, seen, order, out)
      invariant order0 <= order && forall j :: 0 <= j < i ==> slots[j] in order
    {
      out, order := Consider(idx, view, seen, slots[i], out, order);
    }
  }

  ghost predicate Visited(idx: Index, k: Cell, order: seq<nat>) {
    k in idx.cells ==> forall i :: 0 <= i < |idx.cells[k]| ==> idx.cells[k][i] in order
  }

  /** The loops over the view's rectangle. */
  method ConsiderCells(idx: Index, view: Box, r: Rect, seen: array<bool>, out0: seq<u64>, ghost order0: seq<nat>)
    returns (out: seq<u64>, ghost order: seq<nat>)
    requires Tracks(idx, view, seen, order0, out0) && WellShaped(idx) && r.Valid()
    modifies seen
    ensures Tracks(idx, view, seen, order, out)
    ensures order0 <= order && forall k: Cell :: r.Contains(k) ==> Visited(idx, k, order)
  {
    out, order := out0, order0;
    for c := r.c0 to r.c1 + 1
      invariant Tracks(idx, view, seen, order, out) && order0 <= order
      invariant forall k: Cell :: r.Contains(k) && k.0 < c ==> Visited(idx, k, order)
    {
      for row := r.r0 to r.r1 + 1
        invariant Tracks(idx, view, seen, order, out) && order0 <= order
        invariant forall k: Cell :: r.Contains(k) && (k.0 < c || (k.0 == c && k.1 < row)) ==> Visited(idx, k, order)
      {
        if (c, row) in idx.cells {
          out, order := ConsiderAll(idx, view, seen, idx.cells[(c, row)], out, order);
        }
        assert Visited(idx, (c, row), order);
      }
    }
  }

  // ---------------------------------------------------------------- why no hit is missed

  lemma {:induction false} BuiltIsWellShaped(idx: Index, rows: seq<Row>)
    requires IsIndexOf(idx, rows)
    ensures WellShaped(idx)
  {
    if Spread(idx.extent) {
      var e, n := idx.extent.value, |rows|;
      forall i | 0 <= i < |idx.spanning|
        ensures idx.spanning[i] < n
      {
        BroadMembers(e, idx.boxes, n, idx.spanning[i]);
      }
      forall k, i | k in idx.cells && 0 <= i < |idx.cells[k]|
        ensures idx.cells[k][i] < n
      {
        GridIsExact(e, idx.boxes, n, k);
        ExpectedMembers(e, idx.boxes, n, k, idx.cells[k][i]);
      }
    }
  }

  /** Over any extent, a feature meeting the view is in the overflow list or in a bucket of the view's
      rectangle. */
  lemma {:induction false} HitsAreReachable(extent: Box, boxes: seq<Box>, view: Box, s: nat)
    requires AllOriented(boxes) && Oriented(view) && s < |boxes| && Intersects(boxes[s], view)
    ensures || s in BroadSlots(extent, boxes, |boxes|)
            || exists k :: RectOf(extent, view).Contains(k) && s in SlotsAt(GridOf(extent, boxes, |boxes|), k)
  {
    if Broad(extent, boxes[s]) {
      BroadMembers(extent, boxes, |boxes|, s);
    } else {
      var k := IntersectingShareACell(extent, boxes[s], view);
      GridIsExact(extent, boxes, |boxes|, k);
      ExpectedMembers(extent, boxes, |boxes|, k, s);
    }
  }

  /** `candidates`: `None` where the index cannot narrow, otherwise the sorted ids of exactly the
      features meeting the view, one per feature. */
  method CandidateIds(idx: Index, view: RawBox, ghost rows: seq<Row>) returns (r: Option<seq<u64>>)
    requires IsIndexOf(idx, rows)
    ensures r.Some? <==> idx.ids != [] && idx.cells != map[] && view.Usable()
    ensures r.Some? ==> NonDecreasing(r.value) && multiset(r.value) == multiset(ScanIds(idx, view.ToBox()))
  {
    BuiltIsWellShaped(idx, rows);
    if idx.ids == [] || idx.cells == map[] {
      return None;
    }
    if !view.Usable() {
      return None;
    }
    var v := view.ToBox();
    var rect := RectOf(idx.extent.value, v);
    var seen := new bool[|idx.ids|](i => false);
    var out: seq<u64> := [];
    ghost var order: seq<nat> := [];
    out, order := ConsiderAll(idx, v, seen, idx.spanning, out, order);
    ghost var afterSpanning := order;
    out, order := ConsiderCells(idx, v, rect, seen, out, order);
    ghost var parts := Parts(idx, v);
    forall s | 0 <= s < |parts| && parts[s] != []
      ensures s in order
    {
      HitsAreReachable(idx.extent.value, idx.boxes, v, s);
      if s in idx.spanning {
        assert s in afterSpanning;
      } else {
        var k :| rect.Contains(k) && s in SlotsAt(idx.cells, k);
        assert Visited(idx, k, order);
      }
    }
    AnyOrderPicksTheSame(parts, order, |idx.ids|);
    r := Some(Sort(out));
  }

  /** The grid is empty exactly when the extent collapses or every feature is too broad to bucket. */
  lemma {:induction false} GridIsEmptyWhen(idx: Index, rows: seq<Row>)
    requires IsIndexOf(idx, rows)
    ensures idx.cells == map[] <==>
            !Spread(idx.extent) || forall s :: 0 <= s < |idx.boxes| ==> Broad(idx.extent.value, idx.boxes[s])
  {
    if Spread(idx.extent) {
      var e, n := idx.extent.value, |rows|;
      NoEmptyBuckets(e, idx.boxes, n);
      forall s | 0 <= s < n && !Broad(e, idx.boxes[s])
        ensures idx.cells != map[]
      {
        var r := RectOf(e, idx.boxes[s]);
        GridIsExact(e, idx.boxes, n, (r.c0, r.r0));
        ExpectedMembers(e, idx.boxes, n, (r.c0, r.r0), s);
      }
      if idx.cells != map[] {
        var k :| k in idx.cells;
        GridIsExact(e, idx.boxes, n, k);
        ExpectedMembers(e, idx.boxes, n, k, idx.cells[k][0]);
      }
    }
  }

  predicate NoneEmpty(cells: Cells) { forall k :: k in cells ==> cells[k] != [] }

  lemma {:induction false} ColumnNoneEmpty(cells: Cells, c: nat, r0: nat, n: nat, slot: nat)
    requires NoneEmpty(cells)
    ensures NoneEmpty(PlaceColumn(cells, c, r0, n, slot))
  {
    if n > 0 {
      ColumnNoneEmpty(cells, c, r0, n - 1, slot);
    }
  }

  lemma {:induction false} ColumnsNoneEmpty(cells: Cells, r: Rect, m: nat, slot: nat)
    requires NoneEmpty(cells) && r.Valid()
    ensures NoneEmpty(PlaceColumns(cells, r, m, slot))
  {
    if m > 0 {
      ColumnsNoneEmpty(cells, r, m - 1, slot);
      ColumnNoneEmpty(PlaceColumns(cells, r, m - 1, slot), r.c0 + m - 1, r.r0, r.Rows(), slot);
    }
  }

  lemma {:induction false} NoEmptyBuckets(extent: Box, boxes: seq<Box>, n: nat)
    requires AllOriented(boxes) && n <= |boxes|
    ensures NoneEmpty(GridOf(extent, boxes, n))
  {
    if n > 0 {
      NoEmptyBuckets(extent, boxes, n - 1);
      if !Broad(extent, boxes[n - 1]) {
        var r := RectOf(extent, boxes[n - 1]);
        ColumnsNoneEmpty(GridOf(extent, boxes, n - 1), r, r.Columns(), n - 1);
      }
    }
  }
}
