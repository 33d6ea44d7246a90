/** Compression of a sorted id list into inclusive ranges, and what the ranges mean. */
module IdRanges {
  import opened Options

  const U64_MAX: nat := 0xFFFF_FFFF_FFFF_FFFF
  type u64 = x: nat | x <= U64_MAX

  datatype Range = Range(lo: nat, hi: nat)

  /** Most ranges the engine puts in one statement. */
  const MAX_ID_RANGES: nat := 4096

  predicate Increasing(ids: seq<nat>) { forall i, j :: 0 <= i < j < |ids| ==> ids[i] < ids[j] }

  predicate NonDecreasing(ids: seq<nat>) { forall i, j :: 0 <= i < j < |ids| ==> ids[i] <= ids[j] }

  predicate Within(x: nat, r: Range) { r.lo <= x <= r.hi }

  predicate InRanges(x: nat, ranges: seq<Range>) {
    exists k :: 0 <= k < |ranges| && Within(x, ranges[k])
  }

  /** Sorted, well-formed, and no two ranges overlap or touch. */
  predicate Separated(ranges: seq<Range>) {
    && (forall k :: 0 <= k < |ranges| ==> ranges[k].lo <= ranges[k].hi)
    && (forall k, l :: 0 <= k < l < |ranges| ==> ranges[k].hi + 1 < ranges[l].lo)
  }

  /** The ranges name exactly the ids. */
  ghost predicate Denote(ranges: seq<Range>, ids: seq<nat>) {
    forall x: nat :: InRanges(x, ranges) <==> x in ids
  }

  /** The loop's state after one more id: the last range grows, or a new one starts. */
  function Extend(runs: seq<Range>, x: nat): seq<Range> {
    var m := |runs| - 1;
    if runs != [] && x == runs[m].hi + 1
    then runs[..m] + [Range(runs[m].lo, x)]
    else runs + [Range(x, x)]
  }

  /** What the loop pushes for `ids`, without the limit: one range per maximal run of successors. */
  function RunsOf(ids: seq<nat>): seq<Range> {
    if ids == [] then [] else Extend(RunsOf(ids[..|ids| - 1]), ids[|ids| - 1])
  }

  lemma {:induction false} RunsOnlyGrow(ids: seq<nat>, k: nat)
    requires k <= |ids|
    ensures |RunsOf(ids[..k])| <= |RunsOf(ids)|
    decreases |ids|
  {
    if k < |ids| {
      var n := |ids| - 1;
      assert ids[..n][..k] == ids[..k];
      RunsOnlyGrow(ids[..n], k);
    } else {
      assert ids[..k] == ids;
    }
  }

  lemma {:induction false} RunsStep(ids: seq<nat>, i: nat)
    requires i < |ids|
    ensures RunsOf(ids[..i + 1]) == Extend(RunsOf(ids[..i]), ids[i])
  {
    assert ids[..i + 1][..i] == ids[..i];
  }

  /** The loop's two branches are the two cases of `Extend`. */
  lemma {:induction false} ExtendOpenRange(out: seq<Range>, lo: nat, hi: nat, x: nat)
    ensures Extend(out + [Range(lo, hi)], x) ==
            if x == hi + 1 then out + [Range(lo, x)] else out + [Range(lo, hi)] + [Range(x, x)]
  {
    assert (out + [Range(lo, hi)])[..|out|] == out;
  }

  /** `hi + 1` in `u64` arithmetic. */
  function WrappingSuccessor(hi: u64): u64 { if hi == U64_MAX then 0 else hi + 1 }

  /** The two largest ids are both the largest `u64`. */
  predicate EndsInTwoMaxima(ids: seq<nat>) { |ids| >= 2 && ids[|ids| - 2] == ids[|ids| - 1] == U64_MAX }

  /** How many ids lie below the largest `u64`, which is where the first such id stands. */
  function BelowMax(ids: seq<u64>): (p: nat)
    requires NonDecreasing(ids)
    ensures p <= |ids|
    ensures forall i :: 0 <= i < p ==> ids[i] < U64_MAX
    ensures forall i :: p <= i < |ids| ==> ids[i] == U64_MAX
  {
    if ids == [] || ids[|ids| - 1] < U64_MAX then |ids| else BelowMax(ids[..|ids| - 1])
  }

  /** A second largest `u64` follows the first, and the limit has not stopped the loop before it. */
  predicate Overflows(ids: seq<u64>, maxRanges: nat)
    requires NonDecreasing(ids)
  {
    EndsInTwoMaxima(ids) && |RunsOf(ids[..BelowMax(ids) + 1])| <= maxRanges + 1
  }

  lemma {:induction false} RunsBetween(ids: seq<nat>, k: nat, l: nat)
    requires k <= l <= |ids|
    ensures |RunsOf(ids[..k])| <= |RunsOf(ids[..l])|
  {
    assert ids[..l][..k] == ids[..k];
    RunsOnlyGrow(ids[..l], k);
  }

  /** The smallest list that overflows, under the engine's own limit. */
  lemma {:induction false} TwoMaximaOverflow()
    ensures Overflows([U64_MAX, U64_MAX], MAX_ID_RANGES)
  {
    var ids: seq<u64> := [U64_MAX, U64_MAX];
    assert BelowMax(ids) == 0;
    assert ids[..1] == [U64_MAX] && [U64_MAX][..0] == [];
    assert RunsOf([U64_MAX]) == Extend(RunsOf([]), U64_MAX);
  }

  lemma {:induction false} DistinctNeverOverflow(ids: seq<u64>, maxRanges: nat)
    requires Increasing(ids)
    ensures NonDecreasing(ids) && !Overflows(ids, maxRanges)
  {
  }

  /** Stopped by the limit at `ids[i]`, the loop has overflowed exactly if the id before was the
      largest. */
  lemma {:induction false} StoppedAt(ids: seq<u64>, i: nat, maxRanges: nat)
    requires NonDecreasing(ids) && 1 <= i < |ids|
    requires |RunsOf(ids[..i])| <= maxRanges + 1 < |RunsOf(ids[..i + 1])|
    ensures Overflows(ids, maxRanges) <==> ids[i - 1] == U64_MAX
  {
    var p := BelowMax(ids);
    if p < i {
      RunsBetween(ids, p + 1, i);
    } else if p < |ids| {
      RunsBetween(ids, i + 1, p + 1);
    }
  }

  /** Not stopped before the last id, it has overflowed exactly if the two last are the largest. */
  lemma {:induction false} NotStopped(ids: seq<u64>, maxRanges: nat)
    requires NonDecreasing(ids) && ids != [] && |RunsOf(ids)| <= maxRanges + 1
    ensures Overflows(ids, maxRanges) <==> EndsInTwoMaxima(ids)
  {
    var p := BelowMax(ids);
    if p < |ids| {
      RunsOnlyGrow(ids, p + 1);
    }
  }

  /** The source's loop. `overflow` reports that `hi + 1` left `u64` on the way, which a checked
      build turns into a panic and an unchecked one wraps; the wrapped value never equals the next
      id of a sorted list, so the result is the same. For distinct ids it never happens; for others it
      happens exactly when the largest `u64` occurs twice and the limit lets the loop get there. */
  method Compress(ids: seq<u64>, maxRanges: nat) returns (r: Option<seq<Range>>, overflow: bool)
    requires NonDecreasing(ids)
    ensures r.Some? <==> |RunsOf(ids)| <= maxRanges
    ensures r.Some? ==> r.value == RunsOf(ids)
    ensures overflow <==> Overflows(ids, maxRanges)
    ensures r.Some? ==> (overflow <==> EndsInTwoMaxima(ids))
    ensures Increasing(ids) ==> !overflow
  {
    overflow := false;
    if ids == [] {
      return Some([]), false;
    }
    var out: seq<Range> := [];
    var lo: u64, hi: u64 := ids[0], ids[0];
    RunsStep(ids, 0);
    for i := 1 to |ids|
      invariant out + [Range(lo, hi)] == RunsOf(ids[..i])
      invariant hi == ids[i - 1]
      invariant |out| <= maxRanges
      invariant overflow <==> i >= 2 && ids[i - 2] == U64_MAX
    {
      RunsStep(ids, i);
      ExtendOpenRange(out, lo, hi, ids[i]);
      overflow := overflow || hi == U64_MAX;
      if ids[i] == WrappingSuccessor(hi) {
        hi := ids[i];
      } else {
        out := out + [Range(lo, hi)];
        lo, hi := ids[i], ids[i];
        if |out| > maxRanges {
          RunsOnlyGrow(ids, i + 1);
          StoppedAt(ids, i, maxRanges);
          return None, overflow;
        }
      }
    }
    assert ids[..|ids|] == ids;
    NotStopped(ids, maxRanges);
    out := out + [Range(lo, hi)];
    if |out| > maxRanges {
      return None, overflow;
    }
    return Some(out), overflow;
  }

  // ---------------------------------------------------------------- the ranges name the ids

  lemma {:induction false} InExtended(runs: seq<Range>, x: nat, y: nat)
    requires forall k :: 0 <= k < |runs| ==> runs[k].lo <= runs[k].hi
    ensures InRanges(y, Extend(runs, x)) <==> InRanges(y, runs) || y == x
  {
    var after, m := Extend(runs, x), |runs| - 1;
    if InRanges(y, runs) {
      var k :| 0 <= k < |runs| && Within(y, runs[k]);
      assert Within(y, after[k]);
    }
    assert Within(x, after[|after| - 1]);
    if InRanges(y, after) {
      var k :| 0 <= k < |after| && Within(y, after[k]);
      assert k < m ==> Within(y, runs[k]);
      assert y == x || (m >= 0 && Within(y, runs[if k < m then k else m]));
    }
  }

  /** A repeated id starts a new range, so the union is exact for every list. */
  lemma {:induction false} RunsDenote(ids: seq<nat>)
    ensures Denote(RunsOf(ids), ids)
    ensures forall k :: 0 <= k < |RunsOf(ids)| ==> RunsOf(ids)[k].lo <= RunsOf(ids)[k].hi
  {
    if ids != [] {
      var n := |ids| - 1;
      RunsDenote(ids[..n]);
      forall y: nat
        ensures InRanges(y, RunsOf(ids)) <==> y in ids
      {
        InExtended(RunsOf(ids[..n]), ids[n], y);
        assert ids == ids[..n] + [ids[n]];
      }
    }
  }

  lemma {:induction false} RunsSeparated(ids: seq<nat>)
    requires Increasing(ids)
    ensures Separated(RunsOf(ids))
    ensures ids != [] ==> RunsOf(ids) != [] && RunsOf(ids)[|RunsOf(ids)| - 1].hi == ids[|ids| - 1]
  {
    if ids != [] {
      var n := |ids| - 1;
      RunsSeparated(ids[..n]);
      ExtendSeparated(RunsOf(ids[..n]), ids[n]);
    }
  }

  lemma {:induction false} ExtendSeparated(runs: seq<Range>, x: nat)
    requires Separated(runs) && (runs != [] ==> runs[|runs| - 1].hi < x)
    ensures Separated(Extend(runs, x))
  {
  }

  // ---------------------------------------------------------------- fewest ranges

  /** Ids whose predecessor is missing: where a run has to start. */
  ghost predicate StartsRun(x: nat, ids: seq<nat>) { x in ids && (x == 0 || x - 1 !in ids) }

  ghost function Starts(ids: seq<nat>): set<nat> { set x | x in ids && StartsRun(x, ids) }

  ghost function Lows(ranges: seq<Range>): set<nat> {
    set k | 0 <= k < |ranges| :: ranges[k].lo
  }

  lemma {:induction false} FewLows(ranges: seq<Range>)
    ensures |Lows(ranges)| <= |ranges|
  {
    if ranges == [] {
      assert Lows(ranges) == {};
    } else {
      var n := |ranges| - 1;
      FewLows(ranges[..n]);
      assert Lows(ranges) == Lows(ranges[..n]) + {ranges[n].lo};
    }
  }

  lemma {:induction false} ManyLows(ranges: seq<Range>)
    requires Separated(ranges)
    ensures |Lows(ranges)| == |ranges|
  {
    if ranges == [] {
      assert Lows(ranges) == {};
    } else {
      var n := |ranges| - 1;
      ManyLows(ranges[..n]);
      assert Lows(ranges) == Lows(ranges[..n]) + {ranges[n].lo};
      assert ranges[n].lo !in Lows(ranges[..n]);
    }
  }

  lemma {:induction false} SubsetIsNoLarger<T>(a: set<T>, b: set<T>)
    requires a <= b
    ensures |a| <= |b|
  {
    assert b == a + (b - a);
  }

  /** Every run start is the low end of some range of any description of the same ids. */
  lemma {:induction false} StartsAreLows(ranges: seq<Range>, ids: seq<nat>)
    requires Denote(ranges, ids)
    ensures Starts(ids) <= Lows(ranges)
  {
    forall x | x in Starts(ids)
      ensures x in Lows(ranges)
    {
      assert InRanges(x, ranges);
      var k :| 0 <= k < |ranges| && Within(x, ranges[k]);
      if x > 0 {
        assert !InRanges(x - 1, ranges);
        assert !Within(x - 1, ranges[k]);
      }
      assert ranges[k].lo == x;
    }
  }

  lemma {:induction false} LowsAreStarts(ranges: seq<Range>, ids: seq<nat>)
    requires Denote(ranges, ids) && Separated(ranges)
    ensures Lows(ranges) <= Starts(ids)
  {
    forall k | 0 <= k < |ranges|
      ensures ranges[k].lo in Starts(ids)
    {
      var x := ranges[k].lo;
      assert Within(x, ranges[k]) && InRanges(x, ranges);
      assert x > 0 ==> !InRanges(x - 1, ranges);
    }
  }

  /** For distinct ids the ranges are sorted, disjoint and non-adjacent, name exactly the ids, and no
      other list of ranges naming exactly the ids is shorter; in particular `None` means the limit
      could not have been met by any list. */
  lemma {:induction false} RangesAreOptimal(ids: seq<nat>, other: seq<Range>)
    requires Increasing(ids) && Denote(other, ids)
    ensures Separated(RunsOf(ids)) && Denote(RunsOf(ids), ids)
    ensures |RunsOf(ids)| <= |other|
  {
    RunsSeparated(ids);
    RunsDenote(ids);
    var runs := RunsOf(ids);
    StartsAreLows(other, ids);
    LowsAreStarts(runs, ids);
    ManyLows(runs);
    FewLows(other);
    SubsetIsNoLarger(Lows(runs), Lows(other));
  }
}
