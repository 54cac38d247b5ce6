/**
 * Support filter on top of the aggregation
 * (testAll_reproducibility.py, deduplicate_change_points_by_window, lines 324-356).
 */
module ChangePointDeduplication {
  import opened Wrappers
  import opened ChangePointRecords
  import opened ChangePointAggregation
  import opened AggregationLaws

  /** Line 354-356: the change points of the records whose support reaches the
      threshold, in record order. */
  function SupportedCps(recs: seq<Record>, minSupport: int): (r: seq<int>)
    ensures |r| <= |recs|
  {
    if recs == [] then []
    else (if recs[0].support >= minSupport then [recs[0].cp] else []) + SupportedCps(recs[1..], minSupport)
  }

  /** deduplicate_change_points_by_window. */
  function Deduplicate(windows: WindowCandidates, alpha: real, minSupport: int): (r: seq<int>)
    ensures CandidateCount(windows) == 0 ==> r == []
  {
    if |windows| == 0 then []
    else
      var aggregated := Aggregate(windows, alpha);
      if |aggregated| == 0 then [] else SupportedCps(aggregated, minSupport)
  }

  /** A change point is kept exactly when some survivor at that location reaches the
      threshold. */
  lemma {:induction false} SupportedCpsMembership(recs: seq<Record>, minSupport: int, c: int)
    ensures c in SupportedCps(recs, minSupport) <==>
            exists k :: 0 <= k < |recs| && recs[k].cp == c && recs[k].support >= minSupport
  {
    if recs != [] {
      SupportedCpsMembership(recs[1..], minSupport, c);
      if exists k :: 0 <= k < |recs| && recs[k].cp == c && recs[k].support >= minSupport {
        var k :| 0 <= k < |recs| && recs[k].cp == c && recs[k].support >= minSupport;
        if k > 0 {
          assert recs[1..][k - 1] == recs[k];
        }
      }
      if exists k :: 0 <= k < |recs[1..]| && recs[1..][k].cp == c && recs[1..][k].support >= minSupport {
        var k :| 0 <= k < |recs[1..]| && recs[1..][k].cp == c && recs[1..][k].support >= minSupport;
        assert recs[k + 1] == recs[1..][k];
      }
    }
  }

  /** Deduplicate returns the locations of the survivors with support at least the
      threshold, and no others. */
  lemma DeduplicateMembership(windows: WindowCandidates, alpha: real, minSupport: int, c: int)
    ensures c in Deduplicate(windows, alpha, minSupport) <==>
            exists r :: r in Aggregate(windows, alpha) && r.cp == c && r.support >= minSupport
  {
    var agg := Aggregate(windows, alpha);
    SupportedCpsMembership(agg, minSupport, c);
    if exists r :: r in agg && r.cp == c && r.support >= minSupport {
      var r :| r in agg && r.cp == c && r.support >= minSupport;
      var k :| 0 <= k < |agg| && agg[k] == r;
    }
  }

  /** a is a subsequence of b. */
  predicate IsSubsequence(a: seq<int>, b: seq<int>)
    decreases |b|
  {
    if a == [] then true
    else if b == [] then false
    else if a[0] == b[0] then IsSubsequence(a[1..], b[1..])
    else IsSubsequence(a, b[1..])
  }

  lemma {:induction false} SubsequenceOfSkip(a: seq<int>, x: int, b: seq<int>)
    requires IsSubsequence(a, b)
    ensures IsSubsequence(a, [x] + b)
    decreases |b|, 1
  {
    assert ([x] + b)[1..] == b;
    if a != [] && a[0] == x {
      SubsequenceOfTail(a, b);
    }
  }

  lemma {:induction false} SubsequenceOfTail(a: seq<int>, b: seq<int>)
    requires a != [] && IsSubsequence(a, b)
    ensures IsSubsequence(a[1..], b)
    decreases |b|, 0
  {
    assert b != [];
    assert [b[0]] + b[1..] == b;
    if a[0] == b[0] {
      SubsequenceOfSkip(a[1..], b[0], b[1..]);
    } else {
      SubsequenceOfTail(a, b[1..]);
      SubsequenceOfSkip(a[1..], b[0], b[1..]);
    }
  }

  lemma {:induction false} SupportedCpsMonotone(recs: seq<Record>, low: int, high: int)
    requires low <= high
    ensures IsSubsequence(SupportedCps(recs, high), SupportedCps(recs, low))
  {
    if recs == [] {
    } else {
      SupportedCpsMonotone(recs[1..], low, high);
      var tailHigh := SupportedCps(recs[1..], high);
      var tailLow := SupportedCps(recs[1..], low);
      if recs[0].support >= high {
        assert SupportedCps(recs, high) == [recs[0].cp] + tailHigh;
        assert SupportedCps(recs, low) == [recs[0].cp] + tailLow;
        assert ([recs[0].cp] + tailHigh)[1..] == tailHigh;
        assert ([recs[0].cp] + tailLow)[1..] == tailLow;
      } else if recs[0].support >= low {
        assert SupportedCps(recs, high) == tailHigh;
        assert SupportedCps(recs, low) == [recs[0].cp] + tailLow;
        SubsequenceOfSkip(tailHigh, recs[0].cp, tailLow);
      } else {
        assert SupportedCps(recs, high) == tailHigh;
        assert SupportedCps(recs, low) == tailLow;
      }
    }
  }

  /** Raising the support threshold only removes change points: the result is a
      subsequence of the result for any lower threshold. */
  lemma ThresholdMonotone(windows: WindowCandidates, alpha: real, low: int, high: int)
    requires low <= high
    ensures IsSubsequence(Deduplicate(windows, alpha, high), Deduplicate(windows, alpha, low))
  {
    if |windows| > 0 && |Aggregate(windows, alpha)| > 0 {
      SupportedCpsMonotone(Aggregate(windows, alpha), low, high);
    }
  }

  /** The kept change points come in the order of the aggregated records: the result
      is a subsequence of the locations of all survivors. */
  lemma DedupOrder(windows: WindowCandidates, alpha: real, minSupport: int)
    ensures IsSubsequence(Deduplicate(windows, alpha, minSupport), Cps(Aggregate(windows, alpha)))
  {
    var agg := Aggregate(windows, alpha);
    var low := if minSupport < 0 then minSupport else 0;
    SupportedCpsMonotone(agg, low, minSupport);
    AllSupportedCps(agg, low);
  }

  function Cps(recs: seq<Record>): (r: seq<int>)
    ensures |r| == |recs|
  {
    if recs == [] then [] else [recs[0].cp] + Cps(recs[1..])
  }

  lemma {:induction false} CpsAt(recs: seq<Record>, k: nat)
    requires k < |recs|
    ensures Cps(recs)[k] == recs[k].cp
  {
    if k > 0 {
      CpsAt(recs[1..], k - 1);
    }
  }

  lemma {:induction false} CpsAppend(a: seq<Record>, b: seq<Record>)
    ensures Cps(a + b) == Cps(a) + Cps(b)
  {
    if a == [] {
      assert a + b == b;
    } else {
      assert (a + b)[1..] == a[1..] + b;
      CpsAppend(a[1..], b);
    }
  }

  /** Removing the record at index k removes its change point from the multiset. */
  lemma CpsPick(t: seq<Record>, k: nat)
    requires k < |t|
    ensures multiset(Cps(t)) == multiset(Cps(t[..k] + t[k + 1..])) + multiset{t[k].cp}
  {
    var x, y := t[..k], t[k + 1..];
    CpsSplit(t, k);
    CpsAppend(x, y);
    IntsMultisetSplit(Cps(x), t[k].cp, Cps(y));
  }

  /** Cps(t) splits around any index k. */
  lemma {:induction false} CpsSplit(t: seq<Record>, k: nat)
    requires k < |t|
    ensures Cps(t) == Cps(t[..k]) + [t[k].cp] + Cps(t[k + 1..])
  {
    var u := t[1..];
    assert Cps(t) == [t[0].cp] + Cps(u);
    if k == 0 {
      assert Cps(t[..0]) == [];
    } else {
      CpsSplit(u, k - 1);
      var p := t[..k];
      assert u[..k - 1] == p[1..];
      assert u[k..] == t[k + 1..];
      assert u[k - 1] == t[k];
      assert Cps(p) == [t[0].cp] + Cps(p[1..]);
    }
  }

  lemma IntsMultisetSplit(a: seq<int>, c: int, b: seq<int>)
    ensures multiset(a + [c] + b) == multiset(a + b) + multiset{c}
  {
  }

  /** Records that are a permutation of each other have change-point lists that are a
      permutation of each other. */
  lemma {:induction false} CpsPermutation(s: seq<Record>, t: seq<Record>)
    requires multiset(s) == multiset(t)
    ensures multiset(Cps(s)) == multiset(Cps(t))
    decreases |s|
  {
    if s == [] {
      assert |t| == |multiset(t)| == 0;
    } else {
      assert s[0] in multiset(t);
      var k :| 0 <= k < |t| && t[k] == s[0];
      var rest := t[..k] + t[k + 1..];
      assert multiset(s) == multiset{s[0]} + multiset(s[1..]) by {
        assert s == [s[0]] + s[1..];
      }
      assert multiset(t) == multiset{s[0]} + multiset(rest) by {
        assert t == t[..k] + [t[k]] + t[k + 1..];
      }
      MultisetCancel(s[0], multiset(s[1..]), multiset(rest));
      CpsPermutation(s[1..], rest);
      CpsPick(t, k);
    }
  }

  /** With one window size nothing can merge, so every record survives alone. */
  lemma {:induction false} SingleWindowNoMerge(recs: seq<Record>, i: nat, alpha: real)
    requires i <= |recs|
    requires forall k :: 0 <= k < |recs| ==> recs[k].windowSize == recs[0].windowSize
    ensures MergeFrom(recs, i, alpha) == recs[i..]
    decreases |recs| - i
  {
    if i < |recs| {
      ClosestUpToSpec(recs, recs[i], i + 1, |recs|, alpha);
      assert Target(recs, i, alpha).None?;
      SingleWindowNoMerge(recs, i + 1, alpha);
      assert recs[i..] == [recs[i]] + recs[i + 1..];
    }
  }

  /** The sorted records of a single window size are that window's records ordered by
      change point. */
  lemma SingleWindowRecords(windowSize: int, cps: seq<int>)
    ensures var recs := SortedRecords([(windowSize, cps)]);
            && multiset(recs) == multiset(FreshRecords(windowSize, cps))
            && (forall k :: 0 <= k < |recs| ==> recs[k].windowSize == windowSize && recs[k].support == 1)
  {
    var windows := [(windowSize, cps)];
    assert WindowSizes(windows) == {windowSize};
    assert Flatten(windows) == FreshRecords(windowSize, cps) + Flatten([]) by {
      assert windows[1..] == [];
    }
  }

  /** With a single window size and a threshold of at most 1, deduplication returns
      the input change points sorted ascending: nothing merges, every record keeps
      support 1, and line 295 sorts them by change point. */
  lemma SingleWindowSortsInput(windowSize: int, cps: seq<int>, alpha: real, minSupport: int)
    requires minSupport <= 1
    ensures var r := Deduplicate([(windowSize, cps)], alpha, minSupport);
            (forall i, j :: 0 <= i < j < |r| ==> r[i] <= r[j]) && multiset(r) == multiset(cps)
  {
    var windows := [(windowSize, cps)];
    var recs := SortedRecords(windows);
    SingleWindowRecords(windowSize, cps);
    SingleWindowNoMerge(recs, 0, alpha);
    assert recs[0..] == recs;
    AllSupportedCps(recs, minSupport);
    CpsPermutation(recs, FreshRecords(windowSize, cps));
    FreshRecordsCps(windowSize, cps);
    var r := Cps(recs);
    assert Deduplicate(windows, alpha, minSupport) == r;
    forall i, j | 0 <= i < j < |r| ensures r[i] <= r[j] {
      CpsAt(recs, i);
      CpsAt(recs, j);
      assert KeyLe(recs[i], recs[j]);
    }
  }

  /** With a single window size and a threshold above 1, deduplication returns
      nothing: no record can gain support beyond 1 without a smaller window. */
  lemma SingleWindowHighThreshold(windowSize: int, cps: seq<int>, alpha: real, minSupport: int)
    requires minSupport > 1
    ensures Deduplicate([(windowSize, cps)], alpha, minSupport) == []
  {
    var windows := [(windowSize, cps)];
    var recs := SortedRecords(windows);
    SingleWindowRecords(windowSize, cps);
    SingleWindowNoMerge(recs, 0, alpha);
    assert recs[0..] == recs;
    NoSupportedCps(recs, minSupport);
  }

  lemma {:induction false} NoSupportedCps(recs: seq<Record>, minSupport: int)
    requires forall k :: 0 <= k < |recs| ==> recs[k].support < minSupport
    ensures SupportedCps(recs, minSupport) == []
  {
    if recs != [] {
      NoSupportedCps(recs[1..], minSupport);
    }
  }

  lemma {:induction false} AllSupportedCps(recs: seq<Record>, minSupport: int)
    requires forall k :: 0 <= k < |recs| ==> recs[k].support >= minSupport
    ensures SupportedCps(recs, minSupport) == Cps(recs)
  {
    if recs != [] {
      AllSupportedCps(recs[1..], minSupport);
    }
  }

  lemma FreshRecordsCps(windowSize: int, cps: seq<int>)
    ensures Cps(FreshRecords(windowSize, cps)) == cps
  {
    var r := FreshRecords(windowSize, cps);
    forall k | 0 <= k < |cps| ensures Cps(r)[k] == cps[k] {
      CpsAt(r, k);
    }
  }

  lemma ThresholdBoundaryRecords()
    ensures Flatten([(10, [100]), (5, [101]), (3, [102])]) == [Fresh(100, 10), Fresh(101, 5), Fresh(102, 3)]
  {
    var windows: WindowCandidates := [(10, [100]), (5, [101]), (3, [102])];
    assert FreshRecords(10, [100]) == [Fresh(100, 10)];
    assert FreshRecords(5, [101]) == [Fresh(101, 5)];
    assert FreshRecords(3, [102]) == [Fresh(102, 3)];
    assert windows[1..][1..][1..] == [];
    assert Flatten(windows[1..][1..]) == [Fresh(102, 3)];
    assert Flatten(windows[1..]) == [Fresh(101, 5), Fresh(102, 3)];
  }

  lemma ThresholdBoundarySorted(recs: seq<Record>)
    requires SortedByKey(recs)
    requires multiset(recs) == multiset([Fresh(100, 10), Fresh(101, 5), Fresh(102, 3)])
    ensures recs == [Fresh(100, 10), Fresh(101, 5), Fresh(102, 3)]
  {
    var s := [Fresh(100, 10), Fresh(101, 5), Fresh(102, 3)];
    assert SortedByKey(s);
    assert forall r :: r in s ==> IsFresh(r);
    SortedFreshUnique(s, recs);
  }

  lemma ThreeWindowRecords()
    ensures SortedRecords([(10, [100]), (5, [101]), (3, [102])]) == [Fresh(100, 10), Fresh(101, 5), Fresh(102, 3)]
  {
    ThresholdBoundaryRecords();
    ThresholdBoundarySorted(SortedRecords([(10, [100]), (5, [101]), (3, [102])]));
  }

  /** The first step of the chain: the coarsest record picks the nearer of its two
      in-range candidates. */
  lemma ThreeWindowFirstStep()
    ensures MergeFrom([Fresh(100, 10), Fresh(101, 5), Fresh(102, 3)], 0, 1.0)
         == MergeFrom([Fresh(100, 10), Record(101, 5, 2, {5, 10}), Fresh(102, 3)], 1, 1.0)
  {
    var a, b, c := Fresh(100, 10), Fresh(101, 5), Fresh(102, 3);
    var recs := [a, b, c];
    assert InRange(a, b, 1.0) && InRange(a, c, 1.0);
    assert ClosestUpTo(recs, a, 1, 2, 1.0) == Some(1);
    assert ClosestUpTo(recs, a, 1, 3, 1.0) == Some(1);
    assert Target(recs, 0, 1.0) == Some(1);
    assert Absorb(b, a) == Record(101, 5, 2, {5, 10}) by {
      assert {5} + {10} == {5, 10};
    }
    assert MergeFrom(recs, 0, 1.0) == MergeFrom(recs[1 := Absorb(b, a)], 1, 1.0);
    assert recs[1 := Absorb(b, a)] == [a, Record(101, 5, 2, {5, 10}), c];
  }

  /** The second step of the chain: the merged window-5 record is absorbed by the
      window-3 record, which then survives alone. */
  lemma ThreeWindowSecondStep()
    ensures MergeFrom([Fresh(100, 10), Record(101, 5, 2, {5, 10}), Fresh(102, 3)], 1, 1.0)
         == [Record(102, 3, 3, {3, 5, 10})]
  {
    var a, b, c := Fresh(100, 10), Record(101, 5, 2, {5, 10}), Fresh(102, 3);
    var s1 := [a, b, c];
    assert Target(s1, 1, 1.0) == Some(2) by {
      assert InRange(b, c, 1.0);
    }
    var s2 := s1[2 := Absorb(c, b)];
    assert MergeFrom(s1, 1, 1.0) == MergeFrom(s2, 2, 1.0);
    assert Target(s2, 2, 1.0) == None;
    assert MergeFrom(s2, 2, 1.0) == [s2[2]];
    assert s2[2] == Record(102, 3, 3, {3, 5, 10}) by {
      assert {3} + {5, 10} == {3, 5, 10};
    }
  }

  /** Three window sizes chain into one point of support 3, {10: [100], 5: [101],
      3: [102]} with alpha 1.0. */
  lemma ThreeWindowChainExample()
    ensures Aggregate([(10, [100]), (5, [101]), (3, [102])], 1.0) == [Record(102, 3, 3, {3, 5, 10})]
  {
    ThreeWindowRecords();
    ThreeWindowFirstStep();
    ThreeWindowSecondStep();
  }

  /** The threshold boundary: the point of support 3 is kept with threshold 3 and
      dropped with threshold 4. */
  lemma ThresholdBoundaryExample()
    ensures Deduplicate([(10, [100]), (5, [101]), (3, [102])], 1.0, 3) == [102]
    ensures Deduplicate([(10, [100]), (5, [101]), (3, [102])], 1.0, 4) == []
  {
    ThreeWindowChainExample();
    var agg := [Record(102, 3, 3, {3, 5, 10})];
    assert SupportedCps(agg, 3) == [102];
    assert SupportedCps(agg, 4) == [];
  }
}
