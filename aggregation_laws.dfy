/**
 * What the merge loop of aggregate_change_points_by_window guarantees
 * (testAll_reproducibility.py, lines 283-318): support is conserved, survivors are
 * exactly the records with no merge target and keep the location and window they
 * were created with, and every survivor's window bookkeeping is consistent.
 */
module AggregationLaws {
  import opened Wrappers
  import opened ChangePointRecords
  import opened ChangePointAggregation

  function SumSupport(s: seq<Record>): nat
  {
    if s == [] then 0 else s[0].support + SumSupport(s[1..])
  }

  lemma {:induction false} SumSupportCons(r: Record, s: seq<Record>)
    ensures SumSupport([r] + s) == r.support + SumSupport(s)
  {
    assert ([r] + s)[1..] == s;
  }

  lemma {:induction false} SumSupportUpdate(s: seq<Record>, j: nat, r: Record)
    requires j < |s|
    ensures SumSupport(s[j := r]) + s[j].support == SumSupport(s) + r.support
  {
    if j == 0 {
      assert s[j := r][1..] == s[1..];
    } else {
      assert s[j := r][1..] == s[1..][j - 1 := r];
      SumSupportUpdate(s[1..], j - 1, r);
    }
  }

  lemma {:induction false} SumSupportFresh(s: seq<Record>)
    requires forall k :: 0 <= k < |s| ==> IsFresh(s[k])
    ensures SumSupport(s) == |s|
  {
    if s != [] {
      SumSupportFresh(s[1..]);
    }
  }

  /** Each visited record's support either stays with it (it survives) or is added to
      exactly one later record, so the survivors carry all of it. */
  lemma {:induction false} MergeConservesSupport(recs: seq<Record>, i: nat, alpha: real)
    requires i <= |recs|
    ensures SumSupport(MergeFrom(recs, i, alpha)) == SumSupport(recs[i..])
    decreases |recs| - i
  {
    if i < |recs| {
      assert recs[i..] == [recs[i]] + recs[i + 1..];
      SumSupportCons(recs[i], recs[i + 1..]);
      match Target(recs, i, alpha)
      case None =>
        MergeConservesSupport(recs, i + 1, alpha);
        SumSupportCons(recs[i], MergeFrom(recs, i + 1, alpha));
      case Some(j) =>
        var absorbed := Absorb(recs[j], recs[i]);
        var next := recs[j := absorbed];
        MergeConservesSupport(next, i + 1, alpha);
        assert next[i + 1..] == recs[i + 1..][j - i - 1 := absorbed];
        SumSupportUpdate(recs[i + 1..], j - i - 1, absorbed);
    }
  }

  /** Support conservation: the survivors' supports add up to the number of input
      candidates. */
  lemma AggregateConservesSupport(windows: WindowCandidates, alpha: real)
    ensures SumSupport(Aggregate(windows, alpha)) == CandidateCount(windows)
  {
    var recs := SortedRecords(windows);
    SumSupportFresh(recs);
    if |windows| > 0 {
      MergeConservesSupport(recs, 0, alpha);
      assert recs[0..] == recs;
    }
  }

  /** The location and window of a record, the two fields merging never changes. */
  function Shape(r: Record): (int, int)
  {
    (r.cp, r.windowSize)
  }

  function Shapes(s: seq<Record>): (r: seq<(int, int)>)
    ensures |r| == |s|
  {
    if s == [] then [] else [Shape(s[0])] + Shapes(s[1..])
  }

  predicate SameShape(s: seq<Record>, t: seq<Record>)
  {
    |s| == |t| && forall k :: 0 <= k < |s| ==> Shape(s[k]) == Shape(t[k])
  }

  /** The choice of a target looks only at locations and windows, never at support. */
  lemma {:induction false} ClosestRespectsShape(s: seq<Record>, t: seq<Record>, a: Record, b: Record,
                                                lo: nat, hi: nat, alpha: real)
    requires SameShape(s, t) && Shape(a) == Shape(b)
    requires lo <= hi <= |s|
    ensures ClosestUpTo(s, a, lo, hi, alpha) == ClosestUpTo(t, b, lo, hi, alpha)
    decreases hi - lo
  {
    if lo < hi {
      ClosestRespectsShape(s, t, a, b, lo, hi - 1, alpha);
      assert Shape(s[hi - 1]) == Shape(t[hi - 1]);
    }
  }

  /** Reference definition of the survivors: the input records, in sorted order, that
      have no merge target among the records after them. */
  function Unmerged(recs: seq<Record>, i: nat, alpha: real): seq<(int, int)>
    decreases |recs| - i
  {
    if i >= |recs| then []
    else (if Target(recs, i, alpha).None? then [Shape(recs[i])] else []) + Unmerged(recs, i + 1, alpha)
  }

  /** Survivors, in order, are exactly the unmerged input records, each with the
      location and window size it was created with; merging into a record never
      changes whether that record itself survives. */
  lemma {:induction false} SurvivorsAreUnmerged(recs: seq<Record>, cur: seq<Record>, i: nat, alpha: real)
    requires SameShape(recs, cur)
    requires i <= |recs|
    ensures Shapes(MergeFrom(cur, i, alpha)) == Unmerged(recs, i, alpha)
    decreases |recs| - i
  {
    if i < |recs| {
      ClosestRespectsShape(cur, recs, cur[i], recs[i], i + 1, |recs|, alpha);
      assert Target(cur, i, alpha) == Target(recs, i, alpha);
      var rest := Unmerged(recs, i + 1, alpha);
      match Target(cur, i, alpha)
      case None =>
        SurvivorsAreUnmerged(recs, cur, i + 1, alpha);
        var m := MergeFrom(cur, i + 1, alpha);
        assert MergeFrom(cur, i, alpha) == [cur[i]] + m;
        ShapesCons(cur[i], m);
        assert Unmerged(recs, i, alpha) == [Shape(recs[i])] + rest;
      case Some(j) =>
        var next := cur[j := Absorb(cur[j], cur[i])];
        assert MergeFrom(cur, i, alpha) == MergeFrom(next, i + 1, alpha);
        assert SameShape(recs, next) by {
          forall k | 0 <= k < |next| ensures Shape(recs[k]) == Shape(next[k]) {
            assert Shape(next[k]) == Shape(cur[k]);
          }
        }
        SurvivorsAreUnmerged(recs, next, i + 1, alpha);
        assert Unmerged(recs, i, alpha) == [] + rest;
    }
  }

  lemma ShapesCons(r: Record, s: seq<Record>)
    ensures Shapes([r] + s) == [Shape(r)] + Shapes(s)
  {
    assert ([r] + s)[1..] == s;
  }

  lemma {:induction false} UnmergedContains(recs: seq<Record>, i: nat, k: nat, alpha: real)
    requires i <= k < |recs|
    requires Target(recs, k, alpha).None?
    ensures Shape(recs[k]) in Unmerged(recs, i, alpha)
    decreases k - i
  {
    if i < k {
      UnmergedContains(recs, i + 1, k, alpha);
    }
  }

  /** Every candidate of the smallest window size survives: nothing lies below it. */
  lemma SmallestWindowSurvives(windows: WindowCandidates, alpha: real, k: nat)
    requires k < |SortedRecords(windows)|
    requires forall m :: 0 <= m < |SortedRecords(windows)| ==>
               SortedRecords(windows)[k].windowSize <= SortedRecords(windows)[m].windowSize
    ensures Shape(SortedRecords(windows)[k]) in Shapes(Aggregate(windows, alpha))
  {
    var recs := SortedRecords(windows);
    ClosestUpToSpec(recs, recs[k], k + 1, |recs|, alpha);
    assert Target(recs, k, alpha).None?;
    UnmergedContains(recs, 0, k, alpha);
    SurvivorsAreUnmerged(recs, recs, 0, alpha);
  }

  /** The bookkeeping a record keeps: its own window is among its supporting windows
      and is the smallest of them, they are all input window sizes, and there are no
      more of them than its support. */
  predicate WellKept(r: Record, sizes: set<int>)
  {
    && r.windowSize in r.supportingWindows
    && r.supportingWindows <= sizes
    && |r.supportingWindows| <= r.support
    && forall w :: w in r.supportingWindows ==> r.windowSize <= w
  }

  lemma AbsorbKeeps(target: Record, a: Record, sizes: set<int>)
    requires WellKept(target, sizes) && WellKept(a, sizes)
    requires target.windowSize < a.windowSize
    ensures WellKept(Absorb(target, a), sizes)
  {
    var u := target.supportingWindows + a.supportingWindows;
    assert |u| <= |target.supportingWindows| + |a.supportingWindows| by {
      assert |u| + |target.supportingWindows * a.supportingWindows| ==
             |target.supportingWindows| + |a.supportingWindows|;
    }
  }

  lemma {:induction false} MergeKeepsBookkeeping(recs: seq<Record>, i: nat, alpha: real, sizes: set<int>)
    requires i <= |recs|
    requires forall k :: 0 <= k < |recs| ==> WellKept(recs[k], sizes)
    ensures forall r :: r in MergeFrom(recs, i, alpha) ==> WellKept(r, sizes)
    decreases |recs| - i
  {
    if i < |recs| {
      match Target(recs, i, alpha)
      case None =>
        MergeKeepsBookkeeping(recs, i + 1, alpha, sizes);
      case Some(j) =>
        ClosestUpToSpec(recs, recs[i], i + 1, |recs|, alpha);
        AbsorbKeeps(recs[j], recs[i], sizes);
        MergeKeepsBookkeeping(recs[j := Absorb(recs[j], recs[i])], i + 1, alpha, sizes);
    }
  }

  /** Survivor bookkeeping: window_size is in supporting_windows (and is its least
      element), supporting_windows holds only input window sizes, and
      1 <= |supporting_windows| <= support. */
  lemma SurvivorBookkeeping(windows: WindowCandidates, alpha: real)
    ensures forall r :: r in Aggregate(windows, alpha) ==>
              WellKept(r, WindowSizes(windows)) && 1 <= |r.supportingWindows| <= r.support
  {
    if |windows| > 0 {
      var recs := SortedRecords(windows);
      MergeKeepsBookkeeping(recs, 0, alpha, WindowSizes(windows));
    }
  }

  lemma TwoWindowRecords()
    ensures SortedRecords([(10, [100]), (3, [102])]) == [Fresh(100, 10), Fresh(102, 3)]
  {
    var windows: WindowCandidates := [(10, [100]), (3, [102])];
    var coarse, fine := Fresh(100, 10), Fresh(102, 3);
    assert FreshRecords(10, [100]) == [coarse];
    assert FreshRecords(3, [102]) == [fine];
    assert windows[1..][1..] == [];
    assert Flatten(windows[1..]) == [fine];
    assert Flatten(windows) == [coarse, fine];
    SortedFreshUnique([coarse, fine], SortedRecords(windows));
  }

  /** Merge direction on the two-window example {10: [100], 3: [102]} with alpha 1.0:
      the coarse candidate merges into the fine one, and the survivor keeps the fine
      window's location 102. */
  lemma MergeDirectionExample()
    ensures Aggregate([(10, [100]), (3, [102])], 1.0) == [Record(102, 3, 2, {3, 10})]
  {
    var coarse, fine := Fresh(100, 10), Fresh(102, 3);
    TwoWindowRecords();
    var recs := [coarse, fine];
    assert Target(recs, 0, 1.0) == Some(1) by {
      assert InRange(coarse, fine, 1.0);
    }
    var next := recs[1 := Absorb(fine, coarse)];
    assert MergeFrom(recs, 0, 1.0) == MergeFrom(next, 1, 1.0);
    assert Target(next, 1, 1.0) == None;
    assert MergeFrom(next, 1, 1.0) == [next[1]];
    assert next[1] == Record(102, 3, 2, {3, 10}) by {
      assert {3} + {10} == {3, 10};
    }
  }

  lemma SameWindowFlatten()
    ensures Flatten([(10, [100, 104]), (3, [102])]) == [Fresh(100, 10), Fresh(104, 10), Fresh(102, 3)]
  {
    var windows: WindowCandidates := [(10, [100, 104]), (3, [102])];
    var a, b, fine := Fresh(100, 10), Fresh(104, 10), Fresh(102, 3);
    assert FreshRecords(10, [100, 104]) == [a, b] by {
      assert [100, 104][1..] == [104];
      assert FreshRecords(10, [104]) == [b];
    }
    assert FreshRecords(3, [102]) == [fine];
    assert windows[1..][1..] == [];
    assert Flatten(windows[1..]) == [fine];
  }

  lemma SameWindowSorted(recs: seq<Record>)
    requires SortedByKey(recs)
    requires multiset(recs) == multiset([Fresh(100, 10), Fresh(104, 10), Fresh(102, 3)])
    ensures recs == [Fresh(100, 10), Fresh(104, 10), Fresh(102, 3)]
  {
    var a, b, fine := Fresh(100, 10), Fresh(104, 10), Fresh(102, 3);
    assert SortedByKey([a, b, fine]);
    assert forall r :: r in [a, b, fine] ==> IsFresh(r);
    SortedFreshUnique([a, b, fine], recs);
  }

  lemma SameWindowRecords()
    ensures SortedRecords([(10, [100, 104]), (3, [102])]) == [Fresh(100, 10), Fresh(104, 10), Fresh(102, 3)]
  {
    SameWindowFlatten();
    SameWindowSorted(SortedRecords([(10, [100, 104]), (3, [102])]));
  }

  /** The first coarse candidate skips its neighbour of the same window and is
      absorbed by the fine record. */
  lemma SameWindowFirstStep()
    ensures MergeFrom([Fresh(100, 10), Fresh(104, 10), Fresh(102, 3)], 0, 1.0)
         == MergeFrom([Fresh(100, 10), Fresh(104, 10), Record(102, 3, 2, {3, 10})], 1, 1.0)
  {
    var a, b, fine := Fresh(100, 10), Fresh(104, 10), Fresh(102, 3);
    var recs := [a, b, fine];
    assert Target(recs, 0, 1.0) == Some(2) by {
      assert !InRange(a, b, 1.0) && InRange(a, fine, 1.0);
    }
    assert Absorb(fine, a) == Record(102, 3, 2, {3, 10}) by {
      assert {3} + {10} == {3, 10};
    }
    assert recs[2 := Absorb(fine, a)] == [a, b, Record(102, 3, 2, {3, 10})];
  }

  /** The second coarse candidate is absorbed by the same fine record. */
  lemma SameWindowSecondStep()
    ensures MergeFrom([Fresh(100, 10), Fresh(104, 10), Record(102, 3, 2, {3, 10})], 1, 1.0)
         == [Record(102, 3, 3, {3, 10})]
  {
    var a, b, m := Fresh(100, 10), Fresh(104, 10), Record(102, 3, 2, {3, 10});
    var s1 := [a, b, m];
    assert Target(s1, 1, 1.0) == Some(2) by {
      assert InRange(b, m, 1.0);
    }
    var s2 := s1[2 := Absorb(m, b)];
    assert MergeFrom(s1, 1, 1.0) == MergeFrom(s2, 2, 1.0);
    assert Target(s2, 2, 1.0) == None;
    assert MergeFrom(s2, 2, 1.0) == [s2[2]];
    assert s2[2] == Record(102, 3, 3, {3, 10}) by {
      assert {3, 10} + {10} == {3, 10};
    }
  }

  /** Two candidates of the same coarse window can merge into one fine target, so the
      supporting-window count can fall below the support: {10: [100, 104], 3: [102]}. */
  lemma SameWindowMergesExample()
    ensures Aggregate([(10, [100, 104]), (3, [102])], 1.0) == [Record(102, 3, 3, {3, 10})]
  {
    SameWindowRecords();
    SameWindowFirstStep();
    SameWindowSecondStep();
  }
}
