/**
 * Support-weighted nearest merge of change-point candidates across window sizes
 * (testAll_reproducibility.py, aggregate_change_points_by_window, lines 270-320).
 *
 * Records are visited in sorted order (coarse windows first). A record merges into
 * the closest later record of a strictly smaller window that lies within
 * windowSize * alpha of it; the target's support and window set grow in place and
 * the merged record is dropped. A record with no such target survives.
 */
module ChangePointAggregation {
  import opened Wrappers
  import opened ChangePointRecords

  function Distance(a: Record, b: Record): nat
  {
    if a.cp >= b.cp then a.cp - b.cp else b.cp - a.cp
  }

  /** The merge-candidate test of lines 305-309: b has a strictly smaller window and
      lies within a's window size times alpha. */
  predicate InRange(a: Record, b: Record, alpha: real)
  {
    b.windowSize < a.windowSize && WithinTolerance(Distance(a, b), a.windowSize, alpha)
  }

  /** dist <= window_size * alpha, evaluated exactly. */
  predicate WithinTolerance(dist: nat, windowSize: int, alpha: real)
  {
    (dist as real) <= (windowSize as real) * alpha
  }

  /** The candidate Python's min picks at line 314 among the records at indices
      [lo, hi), scanned left to right: a later in-range record replaces the best so
      far only when it is strictly closer. */
  function ClosestUpTo(recs: seq<Record>, a: Record, lo: nat, hi: nat, alpha: real): (c: Option<nat>)
    requires lo <= hi <= |recs|
    ensures c.Some? ==> lo <= c.value < hi
    decreases hi - lo
  {
    if hi == lo then None
    else
      var prev := ClosestUpTo(recs, a, lo, hi - 1, alpha);
      if !InRange(a, recs[hi - 1], alpha) then prev
      else if prev.Some? && Distance(a, recs[prev.value]) <= Distance(a, recs[hi - 1]) then prev
      else Some(hi - 1)
  }

  /** The scan finds the in-range record of least distance, the first one on a tie,
      which is what min over the candidate list returns; and nothing exactly when no
      record in [lo, hi) is in range. */
  lemma {:induction false} ClosestUpToSpec(recs: seq<Record>, a: Record, lo: nat, hi: nat, alpha: real)
    requires lo <= hi <= |recs|
    ensures var c := ClosestUpTo(recs, a, lo, hi, alpha);
            && (c.None? <==> forall k :: lo <= k < hi ==> !InRange(a, recs[k], alpha))
            && (c.Some? ==> lo <= c.value < hi && InRange(a, recs[c.value], alpha))
            && (c.Some? ==> forall k :: lo <= k < hi && InRange(a, recs[k], alpha) ==>
                              Distance(a, recs[c.value]) <= Distance(a, recs[k]))
            && (c.Some? ==> forall k :: lo <= k < c.value && InRange(a, recs[k], alpha) ==>
                              Distance(a, recs[c.value]) < Distance(a, recs[k]))
    decreases hi - lo
  {
    if lo < hi {
      ClosestUpToSpec(recs, a, lo, hi - 1, alpha);
    }
  }

  /** The merge target of the record at index i: the closest candidate after it. */
  function Target(recs: seq<Record>, i: nat, alpha: real): (r: Option<nat>)
    requires i < |recs|
    ensures r.Some? ==> i < r.value < |recs|
  {
    ClosestUpTo(recs, recs[i], i + 1, |recs|, alpha)
  }

  /** Lines 315-316: the target takes over a's support and supporting windows. */
  function Absorb(target: Record, a: Record): Record
  {
    target.(support := target.support + a.support,
            supportingWindows := target.supportingWindows + a.supportingWindows)
  }

  /** The records that survive when the loop of lines 299-318 runs from index i on
      the current record list recs. */
  function MergeFrom(recs: seq<Record>, i: nat, alpha: real): seq<Record>
    decreases |recs| - i
  {
    if i >= |recs| then []
    else match Target(recs, i, alpha)
      case None => [recs[i]] + MergeFrom(recs, i + 1, alpha)
      case Some(j) => MergeFrom(recs[j := Absorb(recs[j], recs[i])], i + 1, alpha)
  }

  /** The result of aggregate_change_points_by_window. */
  function Aggregate(windows: WindowCandidates, alpha: real): seq<Record>
  {
    if |windows| == 0 then [] else MergeFrom(SortedRecords(windows), 0, alpha)
  }

  /** Lines 300-314 for the record at index i: scan the later records, keep the
      in-range one of least distance. Python collects the candidates and takes
      min over them by distance, which returns the first minimum; keeping the best
      so far and replacing it only on a strictly smaller distance does the same. */
  method FindClosest(records: array<Record>, i: nat, alpha: real) returns (closest: Option<nat>)
    requires i < records.Length
    ensures closest == Target(records[..], i, alpha)
  {
    ghost var s := records[..];
    var a := records[i];
    closest := None;
    var bestDist := 0;
    for j := i + 1 to records.Length
      invariant closest == ClosestUpTo(s, a, i + 1, j, alpha)
      invariant closest.Some? ==> bestDist == Distance(a, s[closest.value])
    {
      var b := records[j];
      assert b == s[j];
      if b.windowSize >= a.windowSize {
        continue;
      }
      var dist := Distance(a, b);
      if WithinTolerance(dist, a.windowSize, alpha) {
        if closest.None? || dist < bestDist {
          closest := Some(j);
          bestDist := dist;
        }
      }
    }
  }

  lemma {:induction false} FreshRecordsSnoc(windowSize: int, cps: seq<int>, t: nat)
    requires t < |cps|
    ensures FreshRecords(windowSize, cps[..t + 1]) == FreshRecords(windowSize, cps[..t]) + [Fresh(cps[t], windowSize)]
  {
    var l := FreshRecords(windowSize, cps[..t + 1]);
    var r := FreshRecords(windowSize, cps[..t]) + [Fresh(cps[t], windowSize)];
    assert |l| == |r|;
    forall k | 0 <= k < |l| ensures l[k] == r[k] {
      if k < t {
        assert cps[..t + 1][k] == cps[..t][k];
      }
    }
  }

  /** Lines 282-292: one fresh record per candidate, window by window. */
  method FlattenCandidates(windows: WindowCandidates) returns (flat: seq<Record>)
    ensures flat == Flatten(windows)
  {
    flat := [];
    for k := 0 to |windows|
      invariant flat == Flatten(windows[..k])
    {
      var (ws, cps) := windows[k];
      for t := 0 to |cps|
        invariant flat == Flatten(windows[..k]) + FreshRecords(ws, cps[..t])
      {
        FreshRecordsSnoc(ws, cps, t);
        flat := flat + [Fresh(cps[t], ws)];
      }
      assert cps[..|cps|] == cps;
      FlattenAppend(windows, k);
    }
    assert windows[..|windows|] == windows;
  }

  /** Lines 297-318 on the sorted record array: each record is absorbed by its target
      in place, or kept. */
  method MergeInPlace(records: array<Record>, alpha: real) returns (merged: seq<Record>)
    modifies records
    ensures merged == MergeFrom(old(records[..]), 0, alpha)
  {
    ghost var sorted := records[..];
    merged := [];
    for i := 0 to records.Length
      invariant merged + MergeFrom(records[..], i, alpha) == MergeFrom(sorted, 0, alpha)
    {
      var target := FindClosest(records, i, alpha);
      match target {
        case None =>
          assert MergeFrom(records[..], i, alpha) == [records[i]] + MergeFrom(records[..], i + 1, alpha);
          merged := merged + [records[i]];
        case Some(j) =>
          ghost var before := records[..];
          records[j] := Absorb(records[j], records[i]);
          assert records[..] == before[j := Absorb(before[j], before[i])];
      }
    }
  }

  /** aggregate_change_points_by_window: flatten, sort in place, then merge by index
      into the record array, so that a target's grown support is what it carries
      when its own turn comes. */
  method AggregateChangePoints(windows: WindowCandidates, alpha: real) returns (merged: seq<Record>)
    ensures merged == Aggregate(windows, alpha)
  {
    if |windows| == 0 {
      return [];
    }
    var flat := FlattenCandidates(windows);
    var records := new Record[|flat|](k requires 0 <= k < |flat| => flat[k]);
    assert records[..] == flat;
    SortRecords(records);
    FlattenFacts(windows);
    SortedFreshUnique(SortedRecords(windows), records[..]);
    merged := MergeInPlace(records, alpha);
  }
}
