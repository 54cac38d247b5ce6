/**
 * The task list of the evaluation (testAll_reproducibility.py, build_arguments_list,
 * lines 641-679): enabled approaches keyed by function name, the cartesian product
 * of each approach's parameter lists, meta-parameters merged on top, every
 * combination crossed with every log, the whole list shuffled and numbered.
 *
 * Python dictionaries are modelled in two ways. A dictionary whose key order
 * matters (the parameter grid, the selected approaches) is a sequence of
 * (key, value) pairs; a dictionary of keyword arguments is a Dafny map, and
 * Python's right-biased `|` is Dafny's right-biased map `+`.
 */
module TaskBuilder {
  import opened Wrappers

  /** The YAML values that can appear in a configuration or an argument dictionary. */
  datatype Value = Int(i: int) | Real(r: real) | Bool(b: bool) | Str(s: string) | List(items: seq<Value>) | Null

  /** Keyword arguments of one detector call. */
  type Args = map<string, Value>

  /** The `params` dictionary of an approach: parameter name to its candidate values,
      in dictionary order. */
  type ParamGrid = seq<(string, seq<Value>)>

  /** One entry of `config["approaches"]`. Optional keys are Options. */
  datatype Approach = Approach(enabled: Option<bool>, functionName: string, metaParams: Option<Args>, params: Option<ParamGrid>)

  /** `config["meta-parameters"]`: the F1 lag and the single-progress-bar switch. */
  datatype MetaParameters = MetaParameters(f1Lag: Value, doSingleBar: bool)

  datatype Config = Config(approaches: seq<Approach>, meta: MetaParameters)

  /** A log path with the indices of its true change points. */
  type LogEntry = (string, seq<int>)

  /** A task: the name of the function to call and its keyword arguments. */
  type Task = (string, Args)

  /** The two ways build_arguments_list raises: `approach["params"]` missing on an
      enabled approach (a KeyError, line 642), and an empty `params` dictionary, which
      `zip(*args.items())` cannot unpack into keys and values (a ValueError, line 646). */
  datatype BuildError = MissingParams(functionName: string) | EmptyParams(functionName: string)

  /** The approaches selected at line 642, keyed by function: (meta-params, params). */
  type Selected = seq<(string, (Args, ParamGrid))>

  function KeySet<V(==)>(d: seq<(string, V)>): set<string>
  {
    set p | p in d :: p.0
  }

  predicate DistinctKeys<V>(d: seq<(string, V)>)
  {
    forall i, j :: 0 <= i < j < |d| ==> d[i].0 != d[j].0
  }

  lemma KeySetCons<V>(x: (string, V), d: seq<(string, V)>)
    ensures KeySet([x] + d) == {x.0} + KeySet(d)
  {
    assert forall p :: p in [x] + d ==> p == x || p in d;
    assert forall p :: p in d ==> p in [x] + d;
  }

  /** A key that is not yet present can go in front of a list of distinct keys. */
  lemma DistinctCons<V>(x: (string, V), d: seq<(string, V)>)
    ensures DistinctKeys(d) && x.0 !in KeySet(d) ==> DistinctKeys([x] + d)
  {
    if DistinctKeys(d) && x.0 !in KeySet(d) {
      DistinctConsHolds(x, d);
    }
  }

  lemma DistinctConsHolds<V>(x: (string, V), d: seq<(string, V)>)
    requires DistinctKeys(d) && x.0 !in KeySet(d)
    ensures DistinctKeys([x] + d)
  {
    forall i, j | 0 <= i < j < |[x] + d| ensures ([x] + d)[i].0 != ([x] + d)[j].0 {
      if i == 0 {
        assert ([x] + d)[j] == d[j - 1] && d[j - 1] in d;
      } else {
        assert ([x] + d)[i] == d[i - 1] && ([x] + d)[j] == d[j - 1];
      }
    }
  }

  /** A list of distinct keys keeps them distinct without its head, whose key it no
      longer holds. */
  lemma DistinctTail<V>(d: seq<(string, V)>)
    requires d != []
    ensures DistinctKeys(d) ==> DistinctKeys(d[1..]) && d[0].0 !in KeySet(d[1..])
  {
    if DistinctKeys(d) {
      forall p | p in d[1..] ensures p.0 != d[0].0 {
        var j :| 0 <= j < |d[1..]| && d[1..][j] == p;
        assert d[j + 1] == p;
      }
    }
  }

  /** Dictionary assignment `d[k] = v` on an insertion-ordered dictionary: an existing
      key keeps its position and takes the new value, a new key goes last. */
  function Put<V(==)>(d: seq<(string, V)>, k: string, v: V): (r: seq<(string, V)>)
    ensures KeySet(r) == KeySet(d) + {k}
    ensures forall p :: p in r && p.0 != k ==> p in d
    ensures DistinctKeys(d) ==> DistinctKeys(r) && forall p :: p in r && p.0 == k ==> p.1 == v
  {
    if d == [] then [(k, v)]
    else if d[0].0 == k then
      assert d == [d[0]] + d[1..];
      KeySetCons(d[0], d[1..]);
      KeySetCons((k, v), d[1..]);
      DistinctTail(d);
      DistinctCons((k, v), d[1..]);
      [(k, v)] + d[1..]
    else
      var rest := Put(d[1..], k, v);
      assert d == [d[0]] + d[1..];
      KeySetCons(d[0], d[1..]);
      KeySetCons(d[0], rest);
      DistinctTail(d);
      DistinctCons(d[0], rest);
      [d[0]] + rest
  }

  /** `approach.get("enabled", True) == True`: a missing flag counts as enabled. */
  predicate Enabled(a: Approach)
  {
    a.enabled != Some(false)
  }

  /** `approach.get("meta-params", dict())`. */
  function MetaOf(a: Approach): Args
  {
    if a.metaParams.Some? then a.metaParams.value else map[]
  }

  /** The dictionary comprehension of line 642, evaluated left to right. */
  function Selection(apps: seq<Approach>): Result<Selected, BuildError>
  {
    if apps == [] then Success([])
    else match Selection(apps[..|apps| - 1])
      case Failure(e) => Failure(e)
      case Success(prev) =>
        var a := apps[|apps| - 1];
        if !Enabled(a) then Success(prev)
        else if a.params.None? then Failure(MissingParams(a.functionName))
        else Success(Put(prev, a.functionName, (MetaOf(a), a.params.value)))
  }

  predicate MissesParams(a: Approach)
  {
    Enabled(a) && a.params.None?
  }

  /** Selection fails exactly when an enabled approach has no `params`, and then it
      names the first such approach. */
  lemma {:induction false} SelectionFailure(apps: seq<Approach>)
    ensures Selection(apps).Failure? <==> exists i :: 0 <= i < |apps| && MissesParams(apps[i])
    ensures Selection(apps).Failure? ==>
              exists i :: 0 <= i < |apps| && MissesParams(apps[i])
                          && Selection(apps).error == MissingParams(apps[i].functionName)
                          && forall k :: 0 <= k < i ==> !MissesParams(apps[k])
  {
    if apps != [] {
      var n := |apps| - 1;
      var init := apps[..n];
      SelectionFailure(init);
      assert forall k :: 0 <= k < n ==> init[k] == apps[k];
      if exists i :: 0 <= i < |init| && MissesParams(init[i]) {
        var i :| 0 <= i < |init| && MissesParams(init[i]);
        assert MissesParams(apps[i]);
      }
      if Selection(init).Success? && MissesParams(apps[n]) {
        assert forall k :: 0 <= k < n ==> !MissesParams(init[k]);
      }
    }
  }

  /** A function appears in the selection exactly when some enabled approach names
      it; each appears once. */
  lemma {:induction false} SelectionKeys(apps: seq<Approach>)
    requires Selection(apps).Success?
    ensures DistinctKeys(Selection(apps).value)
    ensures forall f :: f in KeySet(Selection(apps).value) <==>
              exists i :: 0 <= i < |apps| && Enabled(apps[i]) && apps[i].functionName == f
  {
    if apps != [] {
      var n := |apps| - 1;
      var init := apps[..n];
      SelectionKeys(init);
      assert forall k :: 0 <= k < n ==> init[k] == apps[k];
      forall f | exists i :: 0 <= i < |apps| && Enabled(apps[i]) && apps[i].functionName == f
        ensures f in KeySet(Selection(apps).value)
      {
        var i :| 0 <= i < |apps| && Enabled(apps[i]) && apps[i].functionName == f;
        if i < n {
          assert init[i] == apps[i];
        }
      }
    }
  }

  /** The approach whose settings an entry carries is the LAST enabled approach with
      that function: a later approach with the same function replaces earlier ones. */
  predicate IsLastEnabled(apps: seq<Approach>, i: int, f: string)
  {
    0 <= i < |apps| && Enabled(apps[i]) && apps[i].functionName == f
    && forall k :: i < k < |apps| ==> !(Enabled(apps[k]) && apps[k].functionName == f)
  }

  /** Entry p carries the meta-params and params of the last enabled approach with
      its function name. */
  ghost predicate CarriesLast(apps: seq<Approach>, p: (string, (Args, ParamGrid)))
  {
    exists i :: IsLastEnabled(apps, i, p.0) && apps[i].params.Some?
                && p.1 == (MetaOf(apps[i]), apps[i].params.value)
  }

  lemma {:induction false} SelectionValues(apps: seq<Approach>)
    requires Selection(apps).Success?
    ensures forall p :: p in Selection(apps).value ==> CarriesLast(apps, p)
  {
    if apps != [] {
      var init := apps[..|apps| - 1];
      SelectionValues(init);
      forall p | p in Selection(apps).value ensures CarriesLast(apps, p) {
        SelectionValueStep(apps, p);
      }
    }
  }

  /** One step of SelectionValues: the last approach either sets the entry or leaves
      it as the earlier approaches made it. */
  lemma SelectionValueStep(apps: seq<Approach>, p: (string, (Args, ParamGrid)))
    requires apps != [] && Selection(apps).Success? && p in Selection(apps).value
    requires p in Selection(apps[..|apps| - 1]).value ==> CarriesLast(apps[..|apps| - 1], p)
    ensures CarriesLast(apps, p)
  {
    var n := |apps| - 1;
    var init := apps[..n];
    var a := apps[n];
    var prev := Selection(init).value;
    if Enabled(a) {
      var v := (MetaOf(a), a.params.value);
      assert Selection(apps).value == Put(prev, a.functionName, v);
      if p.0 == a.functionName {
        SelectionKeys(init);
        assert p.1 == v;
        assert IsLastEnabled(apps, n, p.0);
        return;
      }
    }
    assert p in prev;
    assert CarriesLast(init, p);
    var i :| IsLastEnabled(init, i, p.0) && init[i].params.Some?
             && p.1 == (MetaOf(init[i]), init[i].params.value);
    assert apps[i] == init[i];
    LastEnabledExtends(apps, i, p.0);
  }

  /** An approach stays the last enabled one for f when the next approach does not
      enable f. */
  lemma LastEnabledExtends(apps: seq<Approach>, i: int, f: string)
    requires apps != [] && IsLastEnabled(apps[..|apps| - 1], i, f)
    requires !(Enabled(apps[|apps| - 1]) && apps[|apps| - 1].functionName == f)
    ensures IsLastEnabled(apps, i, f)
  {
    var init := apps[..|apps| - 1];
    forall k | i < k < |apps| ensures !(Enabled(apps[k]) && apps[k].functionName == f) {
      if k < |init| {
        assert apps[k] == init[k];
      }
    }
  }

  /** The list of lists produced by itertools.product, first list varying slowest. */
  function Prepend(x: Value, ps: seq<seq<Value>>): (r: seq<seq<Value>>)
    ensures |r| == |ps|
    ensures forall i :: 0 <= i < |ps| ==> r[i] == [x] + ps[i]
  {
    seq(|ps|, i requires 0 <= i < |ps| => [x] + ps[i])
  }

  function ProductWith(xs: seq<Value>, rest: seq<seq<Value>>): (r: seq<seq<Value>>)
    ensures |r| == |xs| * |rest|
  {
    if xs == [] then []
    else
      var tail := ProductWith(xs[1..], rest);
      assert |xs| * |rest| == |rest| + (|xs| - 1) * |rest|;
      Prepend(xs[0], rest) + tail
  }

  function Product(lists: seq<seq<Value>>): (r: seq<seq<Value>>)
    ensures |r| == ProductSize(lists)
  {
    if lists == [] then [[]] else ProductWith(lists[0], Product(lists[1..]))
  }

  /** The product of the list lengths. */
  function ProductSize(lists: seq<seq<Value>>): nat
  {
    if lists == [] then 1 else |lists[0]| * ProductSize(lists[1..])
  }

  lemma {:induction false} ProductWithMembership(xs: seq<Value>, rest: seq<seq<Value>>, p: seq<Value>)
    ensures p in ProductWith(xs, rest) <==> |p| > 0 && p[0] in xs && p[1..] in rest
  {
    if xs != [] {
      ProductWithMembership(xs[1..], rest, p);
      var head := Prepend(xs[0], rest);
      if p in head {
        var i :| 0 <= i < |head| && head[i] == p;
        assert p[1..] == rest[i];
      }
      if |p| > 0 && p[0] == xs[0] && p[1..] in rest {
        var i :| 0 <= i < |rest| && rest[i] == p[1..];
        assert head[i] == p;
      }
      assert xs == [xs[0]] + xs[1..];
    }
  }

  /** A combination is in the product exactly when it picks one value from each list. */
  lemma {:induction false} ProductMembership(lists: seq<seq<Value>>, p: seq<Value>)
    ensures p in Product(lists) <==> |p| == |lists| && forall i :: 0 <= i < |p| ==> p[i] in lists[i]
  {
    if lists == [] {
      assert Product(lists) == [[]];
    } else {
      ProductWithMembership(lists[0], Product(lists[1..]), p);
      if |p| > 0 {
        ProductMembership(lists[1..], p[1..]);
        if |p| == |lists| && forall i :: 0 <= i < |p| ==> p[i] in lists[i] {
          forall i | 0 <= i < |p[1..]| ensures p[1..][i] in lists[1..][i] {
            assert p[i + 1] in lists[i + 1];
          }
        }
        if p[0] in lists[0] && p[1..] in Product(lists[1..]) {
          forall i | 0 <= i < |p| ensures p[i] in lists[i] {
            if i > 0 {
              assert p[1..][i - 1] in lists[1..][i - 1];
            }
          }
        }
      }
    }
  }

  /** dict(zip(keys, values)): pairs up to the shorter list, a repeated key taking its
      last value. */
  function ZipDict(keys: seq<string>, values: seq<Value>): (r: Args)
    ensures r.Keys == set i | 0 <= i < |keys| && i < |values| :: keys[i]
  {
    if keys == [] || values == [] then map[]
    else
      var rest := ZipDict(keys[1..], values[1..]);
      assert forall i :: 1 <= i < |keys| && i < |values| ==> keys[i] == keys[1..][i - 1];
      assert forall i :: 0 <= i < |keys[1..]| && i < |values[1..]| ==> keys[1..][i] == keys[i + 1];
      map[keys[0] := values[0]] + rest
  }

  lemma {:induction false} ZipDictAt(keys: seq<string>, values: seq<Value>, i: nat)
    requires |keys| == |values| && i < |keys|
    requires forall p, q :: 0 <= p < q < |keys| ==> keys[p] != keys[q]
    ensures ZipDict(keys, values)[keys[i]] == values[i]
  {
    if i > 0 {
      ZipDictAt(keys[1..], values[1..], i - 1);
    } else if |keys| > 1 {
      assert keys[0] !in ZipDict(keys[1..], values[1..]).Keys;
    }
  }

  function GridKeys(grid: ParamGrid): (r: seq<string>)
    ensures |r| == |grid| && forall i :: 0 <= i < |grid| ==> r[i] == grid[i].0
  {
    seq(|grid|, i requires 0 <= i < |grid| => grid[i].0)
  }

  function GridValues(grid: ParamGrid): (r: seq<seq<Value>>)
    ensures |r| == |grid| && forall i :: 0 <= i < |grid| ==> r[i] == grid[i].1
  {
    seq(|grid|, i requires 0 <= i < |grid| => grid[i].1)
  }

  /** permutations_dicts of line 647: one argument dictionary per combination. */
  function Permutations(grid: ParamGrid): (r: seq<Args>)
    ensures |r| == ProductSize(GridValues(grid))
  {
    var combos := Product(GridValues(grid));
    seq(|combos|, i requires 0 <= i < |combos| => ZipDict(GridKeys(grid), combos[i]))
  }

  lemma GridKeySet(grid: ParamGrid)
    ensures KeySet(grid) == set i | 0 <= i < |grid| :: GridKeys(grid)[i]
  {
    var keys := GridKeys(grid);
    forall f | f in KeySet(grid) ensures exists i :: 0 <= i < |keys| && keys[i] == f {
      var p :| p in grid && p.0 == f;
      var i :| 0 <= i < |grid| && grid[i] == p;
      assert keys[i] == f;
    }
  }

  /** A dictionary is one of the permutations exactly when it has the grid's keys and
      takes at each key one of that key's candidate values. */
  lemma PermutationsMembership(grid: ParamGrid, m: Args)
    requires DistinctKeys(grid)
    ensures m in Permutations(grid) <==>
            m.Keys == KeySet(grid) && forall i :: 0 <= i < |grid| ==> m[grid[i].0] in grid[i].1
  {
    if m in Permutations(grid) {
      PermutationShape(grid, m);
    }
    if m.Keys == KeySet(grid) && forall i :: 0 <= i < |grid| ==> m[grid[i].0] in grid[i].1 {
      ShapeIsPermutation(grid, m);
    }
  }

  lemma PermutationShape(grid: ParamGrid, m: Args)
    requires DistinctKeys(grid) && m in Permutations(grid)
    ensures m.Keys == KeySet(grid) && forall i :: 0 <= i < |grid| ==> m[grid[i].0] in grid[i].1
  {
    var keys, lists := GridKeys(grid), GridValues(grid);
    var combos := Product(lists);
    GridKeySet(grid);
    var k :| 0 <= k < |combos| && ZipDict(keys, combos[k]) == m;
    ProductMembership(lists, combos[k]);
    forall i | 0 <= i < |grid| ensures m[grid[i].0] in grid[i].1 {
      ZipDictAt(keys, combos[k], i);
    }
  }

  lemma ShapeIsPermutation(grid: ParamGrid, m: Args)
    requires DistinctKeys(grid)
    requires m.Keys == KeySet(grid) && forall i :: 0 <= i < |grid| ==> m[grid[i].0] in grid[i].1
    ensures m in Permutations(grid)
  {
    var keys, lists := GridKeys(grid), GridValues(grid);
    var p := seq(|grid|, i requires 0 <= i < |grid| => m[grid[i].0]);
    assert p in Product(lists) by {
      assert forall i :: 0 <= i < |p| ==> p[i] in lists[i];
      ProductMembership(lists, p);
    }
    var combos := Product(lists);
    var k :| 0 <= k < |combos| && combos[k] == p;
    assert ZipDict(keys, p) == m by {
      ZipDictOf(grid, m, p);
    }
    assert Permutations(grid)[k] == ZipDict(keys, combos[k]);
  }

  lemma ZipDictOf(grid: ParamGrid, m: Args, p: seq<Value>)
    requires DistinctKeys(grid) && m.Keys == KeySet(grid)
    requires |p| == |grid| && forall i :: 0 <= i < |grid| ==> p[i] == m[grid[i].0]
    ensures ZipDict(GridKeys(grid), p) == m
  {
    var keys := GridKeys(grid);
    GridKeySet(grid);
    var z := ZipDict(keys, p);
    forall i | 0 <= i < |keys| ensures z[keys[i]] == m[keys[i]] {
      ZipDictAt(keys, p, i);
    }
    assert z.Keys == m.Keys;
  }

  function Min(a: int, b: int): int
  {
    if a <= b then a else b
  }

  /** Lines 646-652 for one selected approach: its combinations (only the first in a
      test run), each with the meta-params merged over it. */
  function EntryTasks(f: string, meta: Args, grid: ParamGrid, isTestRun: bool): (r: seq<Task>)
    ensures |r| == if isTestRun then Min(1, ProductSize(GridValues(grid))) else ProductSize(GridValues(grid))
    ensures forall t :: t in r <==>
              exists k :: 0 <= k < (if isTestRun then Min(1, |Permutations(grid)|) else |Permutations(grid)|)
                          && t == (f, Permutations(grid)[k] + meta)
  {
    var perms := Permutations(grid);
    var used := if isTestRun then perms[..Min(1, |perms|)] else perms;
    var r := seq(|used|, i requires 0 <= i < |used| => (f, used[i] + meta));
    assert forall t :: t in r ==> exists k :: 0 <= k < |used| && t == (f, perms[k] + meta);
    assert forall k :: 0 <= k < |used| ==> r[k] == (f, perms[k] + meta);
    r
  }

  /** The loop of lines 644-652 over the selected approaches. */
  function ExpandSelected(sel: Selected, isTestRun: bool): Result<seq<Task>, BuildError>
  {
    if sel == [] then Success([])
    else match ExpandSelected(sel[..|sel| - 1], isTestRun)
      case Failure(e) => Failure(e)
      case Success(prev) =>
        var (f, (meta, grid)) := sel[|sel| - 1];
        if grid == [] then Failure(EmptyParams(f)) else Success(prev + EntryTasks(f, meta, grid, isTestRun))
  }

  lemma {:induction false} ExpandFailurePersists(sel: Selected, k: nat, isTestRun: bool)
    requires k <= |sel| && ExpandSelected(sel[..k], isTestRun).Failure?
    ensures ExpandSelected(sel, isTestRun) == ExpandSelected(sel[..k], isTestRun)
    decreases |sel| - k
  {
    if k < |sel| {
      assert sel[..k + 1][..k] == sel[..k];
      ExpandFailurePersists(sel, k + 1, isTestRun);
    } else {
      assert sel[..k] == sel;
    }
  }

  /** Expansion fails exactly when a selected approach has an empty `params`
      dictionary, and then it names the first such approach. */
  lemma {:induction false} ExpandSelectedFailure(sel: Selected, isTestRun: bool)
    ensures ExpandSelected(sel, isTestRun).Failure? <==> exists k :: 0 <= k < |sel| && sel[k].1.1 == []
    ensures ExpandSelected(sel, isTestRun).Failure? ==>
              exists k :: 0 <= k < |sel| && sel[k].1.1 == []
                          && ExpandSelected(sel, isTestRun).error == EmptyParams(sel[k].0)
                          && forall m :: 0 <= m < k ==> sel[m].1.1 != []
  {
    if sel != [] {
      var n := |sel| - 1;
      var init := sel[..n];
      ExpandSelectedFailure(init, isTestRun);
      assert forall m :: 0 <= m < n ==> init[m] == sel[m];
      if exists k :: 0 <= k < |init| && init[k].1.1 == [] {
        var k :| 0 <= k < |init| && init[k].1.1 == [];
        assert sel[k].1.1 == [];
      }
    }
  }

  /** The sum over the selected approaches of the product of their list lengths. */
  function SumOfProducts(sel: Selected): nat
  {
    if sel == [] then 0 else SumOfProducts(sel[..|sel| - 1]) + ProductSize(GridValues(sel[|sel| - 1].1.1))
  }

  /** The number of selected approaches with at least one combination. */
  function NonEmptyCount(sel: Selected): nat
  {
    if sel == [] then 0
    else NonEmptyCount(sel[..|sel| - 1]) + (if ProductSize(GridValues(sel[|sel| - 1].1.1)) > 0 then 1 else 0)
  }

  lemma {:induction false} ExpandSelectedCount(sel: Selected, isTestRun: bool)
    requires ExpandSelected(sel, isTestRun).Success?
    ensures |ExpandSelected(sel, isTestRun).value| == if isTestRun then NonEmptyCount(sel) else SumOfProducts(sel)
  {
    if sel != [] {
      ExpandSelectedCount(sel[..|sel| - 1], isTestRun);
    }
  }

  lemma EntryTasksMembership(f: string, meta: Args, grid: ParamGrid, t: Task)
    ensures t in EntryTasks(f, meta, grid, false) <==> exists m :: m in Permutations(grid) && t == (f, m + meta)
  {
    var perms := Permutations(grid);
    if exists m :: m in perms && t == (f, m + meta) {
      var m :| m in perms && t == (f, m + meta);
      var q :| 0 <= q < |perms| && perms[q] == m;
    }
  }

  /** The expanded tasks are exactly the tasks of the selected approaches' entries. */
  lemma {:induction false} ExpandSelectedEntries(sel: Selected, t: Task)
    requires ExpandSelected(sel, false).Success?
    ensures t in ExpandSelected(sel, false).value <==>
            exists k :: 0 <= k < |sel| && t in EntryTasks(sel[k].0, sel[k].1.0, sel[k].1.1, false)
  {
    if sel != [] {
      var n := |sel| - 1;
      var init := sel[..n];
      ExpandSelectedEntries(init, t);
      var prev := ExpandSelected(init, false).value;
      var last := EntryTasks(sel[n].0, sel[n].1.0, sel[n].1.1, false);
      assert ExpandSelected(sel, false).value == prev + last;
      assert forall k :: 0 <= k < n ==> init[k] == sel[k];
      if t in prev {
        var k :| 0 <= k < n && t in EntryTasks(init[k].0, init[k].1.0, init[k].1.1, false);
        assert t in EntryTasks(sel[k].0, sel[k].1.0, sel[k].1.1, false);
      }
    }
  }

  lemma {:induction false} ExpandSelectedTestEntries(sel: Selected, t: Task)
    requires ExpandSelected(sel, true).Success?
    ensures t in ExpandSelected(sel, true).value <==>
            exists k :: 0 <= k < |sel| && t in EntryTasks(sel[k].0, sel[k].1.0, sel[k].1.1, true)
  {
    if sel != [] {
      var n := |sel| - 1;
      var init := sel[..n];
      ExpandSelectedTestEntries(init, t);
      var prev := ExpandSelected(init, true).value;
      var last := EntryTasks(sel[n].0, sel[n].1.0, sel[n].1.1, true);
      assert ExpandSelected(sel, true).value == prev + last;
      assert forall k :: 0 <= k < n ==> init[k] == sel[k];
      if t in prev {
        var k :| 0 <= k < n && t in EntryTasks(init[k].0, init[k].1.0, init[k].1.1, true);
        assert t in EntryTasks(sel[k].0, sel[k].1.0, sel[k].1.1, true);
      }
    }
  }

  /** Without a test run, the tasks before crossing with the logs are exactly the
      combinations of every selected approach with its meta-params merged over them. */
  lemma ExpandSelectedMembership(sel: Selected, t: Task)
    requires ExpandSelected(sel, false).Success?
    ensures t in ExpandSelected(sel, false).value <==>
            exists k, m :: 0 <= k < |sel| && m in Permutations(sel[k].1.1) && t == (sel[k].0, m + sel[k].1.0)
  {
    ExpandSelectedEntries(sel, t);
    if t in ExpandSelected(sel, false).value {
      var k :| 0 <= k < |sel| && t in EntryTasks(sel[k].0, sel[k].1.0, sel[k].1.1, false);
      EntryTasksMembership(sel[k].0, sel[k].1.0, sel[k].1.1, t);
    }
    if exists k, m :: 0 <= k < |sel| && m in Permutations(sel[k].1.1) && t == (sel[k].0, m + sel[k].1.0) {
      var k, m :| 0 <= k < |sel| && m in Permutations(sel[k].1.1) && t == (sel[k].0, m + sel[k].1.0);
      EntryTasksMembership(sel[k].0, sel[k].1.0, sel[k].1.1, t);
    }
  }

  /** In a test run, each selected approach with at least one combination contributes
      exactly its first combination with its meta-params merged over it. */
  lemma ExpandSelectedTestMembership(sel: Selected, t: Task)
    requires ExpandSelected(sel, true).Success?
    ensures t in ExpandSelected(sel, true).value <==>
            exists k :: 0 <= k < |sel| && |Permutations(sel[k].1.1)| > 0
                        && t == (sel[k].0, Permutations(sel[k].1.1)[0] + sel[k].1.0)
  {
    ExpandSelectedTestEntries(sel, t);
    if t in ExpandSelected(sel, true).value {
      var k :| 0 <= k < |sel| && t in EntryTasks(sel[k].0, sel[k].1.0, sel[k].1.1, true);
      EntryTestTask(sel[k].0, sel[k].1.0, sel[k].1.1, t);
    }
    if exists k :: 0 <= k < |sel| && |Permutations(sel[k].1.1)| > 0
                   && t == (sel[k].0, Permutations(sel[k].1.1)[0] + sel[k].1.0) {
      var k :| 0 <= k < |sel| && |Permutations(sel[k].1.1)| > 0
               && t == (sel[k].0, Permutations(sel[k].1.1)[0] + sel[k].1.0);
      EntryTestTask(sel[k].0, sel[k].1.0, sel[k].1.1, t);
    }
  }

  lemma EntryTestTask(f: string, meta: Args, grid: ParamGrid, t: Task)
    ensures t in EntryTasks(f, meta, grid, true) <==>
            |Permutations(grid)| > 0 && t == (f, Permutations(grid)[0] + meta)
  {
    var perms := Permutations(grid);
    var r := EntryTasks(f, meta, grid, true);
    if t in r {
      var k :| 0 <= k < Min(1, |perms|) && t == (f, perms[k] + meta);
      assert k == 0;
    }
    if |perms| > 0 && t == (f, perms[0] + meta) {
      assert 0 < Min(1, |perms|);
      assert exists k :: 0 <= k < Min(1, |perms|) && t == (f, perms[k] + meta);
    }
  }

  /** The shared per-log arguments of lines 657-665. */
  function LogArgs(meta: MetaParameters, log: LogEntry): Args
  {
    map["F1_LAG" := meta.f1Lag, "filepath" := Str(log.0), "cp_locations" := List(Ints(log.1)),
        "show_progress_bar" := Bool(!meta.doSingleBar)]
  }

  function Ints(xs: seq<int>): (r: seq<Value>)
    ensures |r| == |xs| && forall i :: 0 <= i < |xs| ==> r[i] == Int(xs[i])
  {
    seq(|xs|, i requires 0 <= i < |xs| => Int(xs[i]))
  }

  /** Lines 654-655: a test run keeps only the first log. */
  function UsedLogs(logs: seq<LogEntry>, isTestRun: bool): (r: seq<LogEntry>)
    ensures !isTestRun ==> r == logs
    ensures isTestRun && logs != [] ==> r == [logs[0]]
    ensures isTestRun && logs == [] ==> r == []
  {
    if isTestRun then logs[..Min(1, |logs|)] else logs
  }

  function SharedArgs(meta: MetaParameters, logs: seq<LogEntry>): (r: seq<Args>)
    ensures |r| == |logs| && forall i :: 0 <= i < |logs| ==> r[i] == LogArgs(meta, logs[i])
  {
    seq(|logs|, i requires 0 <= i < |logs| => LogArgs(meta, logs[i]))
  }

  /** Lines 667-671: every task with every log's shared arguments merged over it,
      task-major. */
  function Cross(tasks: seq<Task>, shared: seq<Args>): (r: seq<Task>)
    ensures |r| == |tasks| * |shared|
  {
    if tasks == [] then []
    else
      var row := seq(|shared|, j requires 0 <= j < |shared| => (tasks[0].0, tasks[0].1 + shared[j]));
      assert |tasks| * |shared| == |shared| + (|tasks| - 1) * |shared|;
      row + Cross(tasks[1..], shared)
  }

  lemma {:induction false} CrossMembership(tasks: seq<Task>, shared: seq<Args>, t: Task)
    ensures t in Cross(tasks, shared) <==>
            exists i, j :: 0 <= i < |tasks| && 0 <= j < |shared| && t == (tasks[i].0, tasks[i].1 + shared[j])
  {
    if tasks != [] {
      CrossMembership(tasks[1..], shared, t);
      var row := seq(|shared|, j requires 0 <= j < |shared| => (tasks[0].0, tasks[0].1 + shared[j]));
      assert Cross(tasks, shared) == row + Cross(tasks[1..], shared);
      if exists i, j :: 0 <= i < |tasks| && 0 <= j < |shared| && t == (tasks[i].0, tasks[i].1 + shared[j]) {
        var i, j :| 0 <= i < |tasks| && 0 <= j < |shared| && t == (tasks[i].0, tasks[i].1 + shared[j]);
        if i == 0 {
          assert row[j] == t;
        } else {
          assert tasks[1..][i - 1] == tasks[i];
        }
      }
      if t in Cross(tasks[1..], shared) {
        var i, j :| 0 <= i < |tasks[1..]| && 0 <= j < |shared| && t == (tasks[1..][i].0, tasks[1..][i].1 + shared[j]);
        assert tasks[i + 1] == tasks[1..][i];
      }
    }
  }

  /** The task list before the shuffle. */
  function Expanded(config: Config, logs: seq<LogEntry>, isTestRun: bool): Result<seq<Task>, BuildError>
  {
    match Selection(config.approaches)
    case Failure(e) => Failure(e)
    case Success(sel) =>
      match ExpandSelected(sel, isTestRun)
      case Failure(e) => Failure(e)
      case Success(tasks) => Success(Cross(tasks, SharedArgs(config.meta, UsedLogs(logs, isTestRun))))
  }

  /** The task count: the sum over the selected approaches of the product of their
      parameter-list lengths, times the number of logs; in a test run, one task for
      each approach that has a combination, times at most one log. */
  lemma TaskCount(config: Config, logs: seq<LogEntry>, isTestRun: bool)
    requires Expanded(config, logs, isTestRun).Success?
    ensures Selection(config.approaches).Success?
    ensures var sel := Selection(config.approaches).value;
            |Expanded(config, logs, isTestRun).value|
            == if isTestRun then NonEmptyCount(sel) * Min(1, |logs|) else SumOfProducts(sel) * |logs|
  {
    ExpandSelectedCount(Selection(config.approaches).value, isTestRun);
  }

  /** Without a test run, a task is in the list exactly when it is some selected
      approach's combination, with the approach's meta-params merged over it and the
      shared arguments of some log merged over both. */
  lemma TaskMembership(config: Config, logs: seq<LogEntry>, t: Task)
    requires Expanded(config, logs, false).Success?
    ensures Selection(config.approaches).Success?
    ensures var sel := Selection(config.approaches).value;
            t in Expanded(config, logs, false).value <==>
            exists k, m, l :: 0 <= k < |sel| && m in Permutations(sel[k].1.1) && l in logs
                              && t == (sel[k].0, m + sel[k].1.0 + LogArgs(config.meta, l))
  {
    var sel := Selection(config.approaches).value;
    var tasks := ExpandSelected(sel, false).value;
    assert Expanded(config, logs, false).value == Cross(tasks, SharedArgs(config.meta, logs));
    CrossedTaskIff(tasks, config.meta, logs, t);
    if t in Expanded(config, logs, false).value {
      var x, l :| x in tasks && l in logs && t == (x.0, x.1 + LogArgs(config.meta, l));
      ExpandSelectedMembership(sel, x);
      var k, m :| 0 <= k < |sel| && m in Permutations(sel[k].1.1) && x == (sel[k].0, m + sel[k].1.0);
      assert t == (sel[k].0, m + sel[k].1.0 + LogArgs(config.meta, l));
    }
    if exists k, m, l :: 0 <= k < |sel| && m in Permutations(sel[k].1.1) && l in logs
                         && t == (sel[k].0, m + sel[k].1.0 + LogArgs(config.meta, l)) {
      var k, m, l :| 0 <= k < |sel| && m in Permutations(sel[k].1.1) && l in logs
                     && t == (sel[k].0, m + sel[k].1.0 + LogArgs(config.meta, l));
      var x := (sel[k].0, m + sel[k].1.0);
      ExpandSelectedMembership(sel, x);
      assert x in tasks && t == (x.0, x.1 + LogArgs(config.meta, l));
    }
  }

  /** The crossed tasks are exactly the tasks with one log's shared arguments merged
      over them. */
  lemma CrossedTaskIff(tasks: seq<Task>, meta: MetaParameters, logs: seq<LogEntry>, t: Task)
    ensures t in Cross(tasks, SharedArgs(meta, logs)) <==>
            exists x, l :: x in tasks && l in logs && t == (x.0, x.1 + LogArgs(meta, l))
  {
    var shared := SharedArgs(meta, logs);
    CrossMembership(tasks, shared, t);
    if t in Cross(tasks, shared) {
      var i, j :| 0 <= i < |tasks| && 0 <= j < |shared| && t == (tasks[i].0, tasks[i].1 + shared[j]);
      assert tasks[i] in tasks && logs[j] in logs;
      assert t == (tasks[i].0, tasks[i].1 + LogArgs(meta, logs[j]));
    }
    if exists x, l :: x in tasks && l in logs && t == (x.0, x.1 + LogArgs(meta, l)) {
      var x, l :| x in tasks && l in logs && t == (x.0, x.1 + LogArgs(meta, l));
      var i :| 0 <= i < |tasks| && tasks[i] == x;
      var j :| 0 <= j < |logs| && logs[j] == l;
      assert t == (tasks[i].0, tasks[i].1 + shared[j]);
    }
  }

  /** Every task carries the shared arguments of one of the logs, and they override
      whatever the approach and its meta-params set; in particular
      show_progress_bar is the negation of DO_SINGLE_BAR. */
  lemma TasksCarrySharedArgs(config: Config, logs: seq<LogEntry>, isTestRun: bool, t: Task)
    requires Expanded(config, logs, isTestRun).Success?
    requires t in Expanded(config, logs, isTestRun).value
    ensures exists l :: l in logs && Carries(t.1, LogArgs(config.meta, l))
    ensures "show_progress_bar" in t.1 && t.1["show_progress_bar"] == Bool(!config.meta.doSingleBar)
    ensures "F1_LAG" in t.1 && t.1["F1_LAG"] == config.meta.f1Lag
  {
    var sel := Selection(config.approaches).value;
    var tasks := ExpandSelected(sel, isTestRun).value;
    var used := UsedLogs(logs, isTestRun);
    assert Expanded(config, logs, isTestRun).value == Cross(tasks, SharedArgs(config.meta, used));
    CrossedTask(tasks, config.meta, used, t);
    var i, j :| 0 <= i < |tasks| && 0 <= j < |used| && t == (tasks[i].0, tasks[i].1 + LogArgs(config.meta, used[j]));
    var l := used[j];
    assert l in logs;
    CarriesLogArgs(tasks[i].1, config.meta, l);
    assert Carries(t.1, LogArgs(config.meta, l));
  }

  /** Every argument in extra is present in args with the same value. */
  predicate Carries(args: Args, extra: Args)
  {
    forall k :: k in extra ==> k in args && args[k] == extra[k]
  }

  /** A crossed task is some task with some log's shared arguments merged over it. */
  lemma CrossedTask(tasks: seq<Task>, meta: MetaParameters, used: seq<LogEntry>, t: Task)
    requires t in Cross(tasks, SharedArgs(meta, used))
    ensures exists i, j :: 0 <= i < |tasks| && 0 <= j < |used| && t == (tasks[i].0, tasks[i].1 + LogArgs(meta, used[j]))
  {
    var shared := SharedArgs(meta, used);
    CrossMembership(tasks, shared, t);
    var i, j :| 0 <= i < |tasks| && 0 <= j < |shared| && t == (tasks[i].0, tasks[i].1 + shared[j]);
    assert shared[j] == LogArgs(meta, used[j]);
  }

  /** Python's `a | b` with b the shared arguments of a log: every shared argument
      is present with its shared value. */
  lemma CarriesLogArgs(base: Args, meta: MetaParameters, l: LogEntry)
    ensures var a := base + LogArgs(meta, l);
            && Carries(a, LogArgs(meta, l))
            && "show_progress_bar" in a && a["show_progress_bar"] == Bool(!meta.doSingleBar)
            && "F1_LAG" in a && a["F1_LAG"] == meta.f1Lag
  {
  }

  /** Lines 673-678: each task numbered by its final position; the number overrides
      any `position` argument it already had. */
  function WithPositions(tasks: seq<Task>): (r: seq<Task>)
    ensures |r| == |tasks|
    ensures forall i :: 0 <= i < |r| ==> r[i].0 == tasks[i].0 && r[i].1.Keys == tasks[i].1.Keys + {"position"}
    ensures forall i :: 0 <= i < |r| ==> r[i].1["position"] == Int(i)
    ensures forall i, k :: 0 <= i < |r| && k in tasks[i].1 && k != "position" ==> r[i].1[k] == tasks[i].1[k]
  {
    seq(|tasks|, i requires 0 <= i < |tasks| => (tasks[i].0, tasks[i].1 + map["position" := Int(i)]))
  }

  /** np.random.shuffle on the task list (line 673), the Fisher-Yates direction numpy
      uses; each swap partner is an arbitrary index not above the current one. */
  method Shuffle(a: array<Task>)
    modifies a
    ensures multiset(a[..]) == multiset(old(a[..]))
  {
    var i := a.Length;
    while i > 1
      invariant 0 <= i <= a.Length
      invariant multiset(a[..]) == multiset(old(a[..]))
    {
      i := i - 1;
      var j :| 0 <= j <= i;
      a[i], a[j] := a[j], a[i];
    }
  }

  /** build_arguments_list. On success the result is a permutation of the expanded
      task list, numbered 0..n-1 in its final order. */
  method BuildArgumentsList(config: Config, logs: seq<LogEntry>, isTestRun: bool) returns (r: Result<seq<Task>, BuildError>)
    ensures r.Failure? <==> Expanded(config, logs, isTestRun).Failure?
    ensures r.Failure? ==> r == Expanded(config, logs, isTestRun)
    ensures r.Success? ==> exists s :: multiset(s) == multiset(Expanded(config, logs, isTestRun).value)
                                       && r.value == WithPositions(s)
  {
    var selection := Selection(config.approaches);
    if selection.Failure? {
      return Failure(selection.error);
    }
    var sel := selection.value;
    var arguments: seq<Task> := [];
    for k := 0 to |sel|
      invariant ExpandSelected(sel[..k], isTestRun) == Success(arguments)
    {
      var (f, (meta, grid)) := sel[k];
      assert sel[..k + 1][..k] == sel[..k];
      if grid == [] {
        ExpandFailurePersists(sel, k + 1, isTestRun);
        return Failure(EmptyParams(f));
      }
      arguments := arguments + EntryTasks(f, meta, grid, isTestRun);
    }
    assert sel[..|sel|] == sel;
    var used := UsedLogs(logs, isTestRun);
    var crossed := Cross(arguments, SharedArgs(config.meta, used));
    assert Expanded(config, logs, isTestRun) == Success(crossed);
    var a := new Task[|crossed|](i requires 0 <= i < |crossed| => crossed[i]);
    assert a[..] == crossed;
    Shuffle(a);
    r := Success(WithPositions(a[..]));
  }
}
