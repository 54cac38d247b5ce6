/**
 * Candidate change-point records of the multi-window aggregation
 * (testAll_reproducibility.py, aggregate_change_points_by_window, steps 1 and 2):
 * flattening the per-window candidate lists into records and sorting them by
 * window size descending, then change point ascending.
 */
module ChangePointRecords {

  /** One candidate: its change point, the window size that produced it, how many
      candidates were merged into it and which window sizes they came from. */
  datatype Record = Record(cp: int, windowSize: int, support: nat, supportingWindows: set<int>)

  /** The detector output for several window sizes, as an insertion-ordered dictionary
      from window size to the list of candidate change points found with it. */
  type WindowCandidates = seq<(int, seq<int>)>

  /** A record as the flattening step creates it. */
  function Fresh(cp: int, windowSize: int): Record
  {
    Record(cp, windowSize, 1, {windowSize})
  }

  predicate IsFresh(r: Record)
  {
    r.support == 1 && r.supportingWindows == {r.windowSize}
  }

  /** The window sizes that are keys of the input dictionary. */
  function WindowSizes(windows: WindowCandidates): set<int>
  {
    set k | 0 <= k < |windows| :: windows[k].0
  }

  /** Total number of candidates over all window sizes. */
  function CandidateCount(windows: WindowCandidates): nat
  {
    if windows == [] then 0 else |windows[0].1| + CandidateCount(windows[1..])
  }

  /** The records created for one window size, in list order. */
  function FreshRecords(windowSize: int, cps: seq<int>): (r: seq<Record>)
    ensures |r| == |cps|
    ensures forall k :: 0 <= k < |r| ==> r[k] == Fresh(cps[k], windowSize)
  {
    if cps == [] then [] else [Fresh(cps[0], windowSize)] + FreshRecords(windowSize, cps[1..])
  }

  /** Step 1: all records, window by window in dictionary order. */
  function Flatten(windows: WindowCandidates): seq<Record>
  {
    if windows == [] then [] else FreshRecords(windows[0].0, windows[0].1) + Flatten(windows[1..])
  }

  lemma {:induction false} FlattenAppend(windows: WindowCandidates, k: nat)
    requires k < |windows|
    ensures Flatten(windows[..k + 1]) == Flatten(windows[..k]) + FreshRecords(windows[k].0, windows[k].1)
  {
    if k == 0 {
      assert windows[..1][1..] == [];
    } else {
      assert windows[..k + 1][1..] == windows[1..][..k];
      assert windows[..k][1..] == windows[1..][..k - 1];
      FlattenAppend(windows[1..], k - 1);
    }
  }

  lemma {:induction false} FlattenFacts(windows: WindowCandidates)
    ensures |Flatten(windows)| == CandidateCount(windows)
    ensures forall r :: r in Flatten(windows) ==> IsFresh(r) && r.windowSize in WindowSizes(windows)
  {
    if windows != [] {
      FlattenFacts(windows[1..]);
      var head := FreshRecords(windows[0].0, windows[0].1);
      forall r | r in Flatten(windows)
        ensures IsFresh(r) && r.windowSize in WindowSizes(windows)
      {
        if r in head {
          assert r.windowSize == windows[0].0;
        } else {
          assert r in Flatten(windows[1..]);
          var k :| 0 <= k < |windows[1..]| && windows[1..][k].0 == r.windowSize;
          assert windows[k + 1].0 == r.windowSize;
        }
      }
    }
  }

  /** The sort key of line 295: larger window first, then smaller change point. */
  predicate KeyLe(a: Record, b: Record)
  {
    a.windowSize > b.windowSize || (a.windowSize == b.windowSize && a.cp <= b.cp)
  }

  predicate SortedByKey(s: seq<Record>)
  {
    forall i, j :: 0 <= i < j < |s| ==> KeyLe(s[i], s[j])
  }

  lemma SortedCons(h: Record, t: seq<Record>)
    requires SortedByKey(t)
    requires forall e :: e in t ==> KeyLe(h, e)
    ensures SortedByKey([h] + t)
  {
    forall i, j | 0 <= i < j < |[h] + t| ensures KeyLe(([h] + t)[i], ([h] + t)[j]) {
      if i == 0 {
        assert ([h] + t)[j] == t[j - 1];
        assert t[j - 1] in t;
      } else {
        assert ([h] + t)[i] == t[i - 1] && ([h] + t)[j] == t[j - 1];
      }
    }
  }

  /** Inserting into a sorted list. */
  function Insert(x: Record, s: seq<Record>): (r: seq<Record>)
    requires SortedByKey(s)
    ensures SortedByKey(r)
    ensures multiset(r) == multiset(s) + multiset{x}
  {
    if s == [] then [x]
    else if KeyLe(x, s[0]) then
      SortedCons(x, s);
      assert s == [s[0]] + s[1..];
      [x] + s
    else
      var rest := Insert(x, s[1..]);
      assert s == [s[0]] + s[1..];
      assert forall e :: e in rest ==> KeyLe(s[0], e) by {
        forall e | e in rest ensures KeyLe(s[0], e) {
          assert e in multiset(rest);
          if e != x {
            assert e in multiset(s[1..]);
            var k :| 0 <= k < |s[1..]| && s[1..][k] == e;
            assert s[k + 1] == e;
          }
        }
      }
      SortedCons(s[0], rest);
      [s[0]] + rest
  }

  /** A reference sort: insertion sort on values. */
  function SortByKey(s: seq<Record>): (r: seq<Record>)
    ensures SortedByKey(r)
    ensures multiset(r) == multiset(s)
  {
    if s == [] then []
    else
      assert s == [s[0]] + s[1..];
      Insert(s[0], SortByKey(s[1..]))
  }

  /** Steps 1 and 2 together: the record list after flattening and sorting. */
  function SortedRecords(windows: WindowCandidates): (r: seq<Record>)
    ensures SortedByKey(r)
    ensures multiset(r) == multiset(Flatten(windows))
    ensures |r| == CandidateCount(windows)
    ensures forall k :: 0 <= k < |r| ==> IsFresh(r[k]) && r[k].windowSize in WindowSizes(windows)
  {
    var r := SortByKey(Flatten(windows));
    FlattenFacts(windows);
    assert |r| == |multiset(r)| == |Flatten(windows)|;
    forall k | 0 <= k < |r| ensures IsFresh(r[k]) && r[k].windowSize in WindowSizes(windows) {
      assert r[k] in multiset(r);
      assert r[k] in Flatten(windows);
    }
    r
  }

  lemma MultisetCancel(x: Record, a: multiset<Record>, b: multiset<Record>)
    requires multiset{x} + a == multiset{x} + b
    ensures a == b
  {
    assert a == (multiset{x} + a) - multiset{x};
    assert b == (multiset{x} + b) - multiset{x};
  }

  /** Two sorted permutations of fresh records start with the same record: each head
      occurs in the other list, so each key is at most the other. */
  lemma SortedFreshHeads(s: seq<Record>, t: seq<Record>)
    requires s != [] && t != []
    requires SortedByKey(s) && SortedByKey(t)
    requires multiset(s) == multiset(t)
    requires forall r :: r in s ==> IsFresh(r)
    ensures s[0] == t[0]
  {
    assert s[0] in multiset(t);
    assert t[0] in multiset(s);
    var p :| 0 <= p < |s| && s[p] == t[0];
    var q :| 0 <= q < |t| && t[q] == s[0];
    assert IsFresh(s[0]) && IsFresh(t[0]);
    assert p == 0 || KeyLe(s[0], t[0]);
    assert q == 0 || KeyLe(t[0], s[0]);
  }

  /** The sort key determines a fresh record, so a list of fresh records has only one
      sorted order: any sort of the flattened records yields SortedRecords. */
  lemma {:induction false} SortedFreshUnique(s: seq<Record>, t: seq<Record>)
    requires SortedByKey(s) && SortedByKey(t)
    requires multiset(s) == multiset(t)
    requires forall r :: r in s ==> IsFresh(r)
    ensures s == t
  {
    if s == [] {
      assert |t| == |multiset(t)| == 0;
    } else {
      assert |t| == |multiset(t)| == |multiset(s)| == |s|;
      SortedFreshHeads(s, t);
      assert multiset(s) == multiset{s[0]} + multiset(s[1..]) by {
        assert s == [s[0]] + s[1..];
      }
      assert multiset(t) == multiset{s[0]} + multiset(t[1..]) by {
        assert t == [t[0]] + t[1..];
      }
      MultisetCancel(s[0], multiset(s[1..]), multiset(t[1..]));
      assert forall r :: r in s[1..] ==> r in s;
      SortedFreshUnique(s[1..], t[1..]);
      assert s == [s[0]] + s[1..] && t == [t[0]] + t[1..];
    }
  }

  method Swap(a: array<Record>, i: int, j: int)
    requires 0 <= i < j < a.Length
    modifies a
    ensures a[i] == old(a[j]) && a[j] == old(a[i])
    ensures forall m :: 0 <= m < a.Length && m != i && m != j ==> a[m] == old(a[m])
    ensures multiset(a[..]) == multiset(old(a[..]))
  {
    a[i], a[j] := a[j], a[i];
  }

  /** The in-place sort of line 295 (Python's list.sort with a key), as an
      insertion sort by adjacent swaps. */
  method SortRecords(a: array<Record>)
    modifies a
    ensures SortedByKey(a[..])
    ensures multiset(a[..]) == multiset(old(a[..]))
  {
    var i := 0;
    while i < a.Length
      invariant 0 <= i <= a.Length
      invariant forall p, q :: 0 <= p < q < i ==> KeyLe(a[p], a[q])
      invariant multiset(a[..]) == multiset(old(a[..]))
    {
      var j := i;
      while 0 < j && !KeyLe(a[j - 1], a[j])
        invariant 0 <= j <= i
        invariant multiset(a[..]) == multiset(old(a[..]))
        invariant forall p, q :: 0 <= p < q <= i && p != j && q != j ==> KeyLe(a[p], a[q])
        invariant forall q :: j < q <= i ==> KeyLe(a[j], a[q])
      {
        Swap(a, j - 1, j);
        j := j - 1;
      }
      i := i + 1;
    }
  }
}
