# Reproducibility test harness: a Dafny model of its core

The harness runs process-drift detection approaches over a set of event logs,
combines the change points that multi-window detectors report, and collects
every task's result rows into one CSV file. This project models four parts of
`testAll_reproducibility.py` and proves properties of them:

- **Change-point aggregation** (lines 270-320). The candidates of every window size become
  fresh records: support 1, the window as its own set of windows. The records are sorted by
  window size descending and then by location ascending. Each record is then absorbed into
  the closest remaining record of a strictly smaller window whose distance is at most
  `alpha * window`. The absorbing record keeps its location, adds the absorbed support and
  takes the union of the two window sets.
  - This is modelled by `AggregateChangePoints`, an imperative method over an array of
    records: an in-place insertion sort, then a scan with an inner linear search.
  - The method is proved equal to the functional definition `Aggregate`.
- **Deduplication** (lines 324-356). Deduplication keeps the locations of the aggregated
  records whose support reaches `min_support`, in the order of the aggregated records.
- **Task list construction** (`build_arguments_list`, lines 641-679).
  - The selected approaches are the last enabled one per function name. An enabled
    approach without `params` fails.
  - Each approach's parameter grid is expanded into its cartesian product, where an empty
    grid fails. A test run keeps only the first combination of each grid.
  - Every combination is merged with the approach's meta-parameters, then crossed with the
    per-log arguments: path, change points, progress-bar flag and `F1_LAG`. A test run
    uses only the first log.
  - The list is shuffled in place (`Shuffle`, a Fisher-Yates over an array, with an
    arbitrary choice at each step) and numbered with `position`.
- **Result collection** (`write_results_to_buffer`, lines 681-694, and lines 714-758 of
  `main`). The result buffer is a table whose columns are the sorted union of all keys seen
  so far. The collector is a class, `ResultCollector`, holding the loop's mutable state.
  - In single-bar mode, every non-"not applicable" result is appended as it arrives.
    After every 100th such result, the file is rewritten or appended with the rows not
    yet written.
  - Otherwise all results are gathered and written once.
  - A final write dumps the whole table, unless a task fault ended the run.

How the code behaves in four places that are easy to misread:

- **Merge direction.** The larger-window record is absorbed into the smaller-window one.
  Window 10 at location 100 and window 3 at location 102, with alpha 1, give one record at
  location 102, window 3, with support 2 and windows {3, 10}
  (`AggregationLaws.MergeDirectionExample`).
- **No final write after a fault.** An exception raised inside the `with Pool` block
  leaves `main` before the final write of line 758. In single-bar mode the file then holds
  what the last periodic flush wrote; in bulk mode it is untouched
  (`ResultCollection.CollectResults`).
- **A single window is sorted.** With one window size and a threshold of at most 1, the
  result is the input locations sorted ascending. It equals the input only when the input
  is already sorted (`ChangePointDeduplication.SingleWindowSortsInput`).
- **Positions follow the shuffled order.** The list is shuffled first and then numbered
  0..n-1, so each task's `position` is its index in the returned list
  (`TaskBuilder.BuildArgumentsList`).

Other observations:

- `max_ws` (line 280) is computed and never used.
- Streaming mode and bulk mode agree unless some result consists only of rows without
  keys (`ResultCollection.StreamingMatchesBulk`). In that case streaming mode drops the
  result, because the frame it builds has no columns, while bulk mode keeps such rows as
  all-missing rows when another result in the batch brings a column
  (`ResultCollection.EmptyRowModesDiffer`). When no result brings a column, both modes
  give the empty table.

Modules, one file each:

- `Wrappers` (`wrappers.dfy`): `Option`, `Result`.
- `ChangePointRecords` (`records.dfy`): records, flattening, the sort order, the sort.
- `ChangePointAggregation` (`aggregation.dfy`): the merge.
- `AggregationLaws` (`aggregation_laws.dfy`): merge laws and worked examples.
- `ChangePointDeduplication` (`deduplication.dfy`): deduplication.
- `TaskBuilder` (`task_builder.dfy`): the task list.
- `ResultBuffer` (`result_buffer.dfy`): the result buffer.
- `ResultCollection` (`result_collection.dfy`): the collection loop.

## Model

| member | source | states |
|---|---|---|
| ChangePointRecords.FreshRecords | testAll_reproducibility.py:282-292 | each candidate of a window becomes exactly one record at its location, support 1, windows {w}, in input order |
| ChangePointRecords.Flatten | testAll_reproducibility.py:282-292 | defines step 1: each window's fresh records, windows in dictionary order; its count and freshness are stated by FlattenFacts |
| ChangePointRecords.FlattenFacts | testAll_reproducibility.py:283-292 | flattening yields one record per candidate, every one fresh and of a window size in the input |
| ChangePointRecords.SortedRecords | testAll_reproducibility.py:283-295 | the sorted records are ordered by window descending then location ascending, and are a permutation of the flattened candidates |
| ChangePointRecords.SortedFreshUnique | testAll_reproducibility.py:295 | two sorted permutations of the same fresh records are equal, so the sort result is determined |
| ChangePointRecords.SortRecords | testAll_reproducibility.py:295 | the in-place sort leaves the array sorted by (window desc, location asc) and a permutation of its old contents |
| ChangePointAggregation.Distance | testAll_reproducibility.py:308 | defines `abs(a.cp - b.cp)` as a natural number |
| ChangePointAggregation.WithinTolerance | testAll_reproducibility.py:309 | defines `dist <= window_size * alpha` on exact reals |
| ChangePointAggregation.InRange | testAll_reproducibility.py:305-310 | defines a merge candidate: a strictly smaller window, within tolerance of a's window times alpha |
| ChangePointAggregation.Absorb | testAll_reproducibility.py:315-316 | defines absorption: the target adds a's support and the union of the window sets, keeping its location and window; AbsorbKeeps states what it keeps |
| ChangePointAggregation.Target | testAll_reproducibility.py:299-314 | defines the merge target of record i as the closest in-range later record of a smaller window; its contract bounds the target after i and inside the list |
| ChangePointAggregation.MergeFrom | testAll_reproducibility.py:297-318 | defines the loop from index i: a record without a target is kept, otherwise its support and windows go to its target and it is dropped |
| ChangePointAggregation.Aggregate | testAll_reproducibility.py:270-320 | defines the aggregation: no windows give no records, otherwise the merge over the sorted fresh records |
| ChangePointAggregation.ClosestUpToSpec | testAll_reproducibility.py:303-314 | the search finds nothing iff no later record of a smaller window is within tolerance; otherwise it finds one that is at minimal distance and the first such |
| ChangePointAggregation.FindClosest | testAll_reproducibility.py:299-314 | the array scan returns exactly the merge target of record i |
| ChangePointAggregation.FlattenCandidates | testAll_reproducibility.py:282-292 | the loop over the windows returns exactly the flattened fresh records, window by window in input order |
| ChangePointAggregation.MergeInPlace | testAll_reproducibility.py:297-318 | the in-place merge over the sorted array returns the survivors the functional merge defines for the array's initial contents |
| ChangePointAggregation.AggregateChangePoints | testAll_reproducibility.py:270-320 | the method's result equals the functional aggregation of the candidates |
| AggregationLaws.MergeConservesSupport | testAll_reproducibility.py:299-318 | merging conserves the total support of the records |
| AggregationLaws.AggregateConservesSupport | testAll_reproducibility.py:283-318 | the supports of the aggregated records sum to the number of candidates |
| AggregationLaws.ClosestRespectsShape | testAll_reproducibility.py:303-314 | the choice of target depends only on locations and windows, not on support or window sets |
| AggregationLaws.SurvivorsAreUnmerged | testAll_reproducibility.py:299-318 | the surviving records are exactly the sorted records that had no target, in sorted order |
| AggregationLaws.SmallestWindowSurvives | testAll_reproducibility.py:305-318 | every candidate of the smallest window size survives aggregation, at its own location and window |
| AggregationLaws.AbsorbKeeps | testAll_reproducibility.py:315-316 | absorbing keeps the bookkeeping: the window set holds the record's own window as its smallest member, lies within the input windows and has no more members than the support |
| AggregationLaws.MergeKeepsBookkeeping | testAll_reproducibility.py:299-318 | every record after merging still satisfies that window-set bookkeeping |
| AggregationLaws.SurvivorBookkeeping | testAll_reproducibility.py:286-318 | every aggregated record's window set holds its own window as its smallest member, lies within the input windows and has between 1 and support members |
| AggregationLaws.MergeDirectionExample | testAll_reproducibility.py:295-318 | windows 10 at 100 and 3 at 102 with alpha 1 give one record at 102, window 3, support 2, windows {3,10} |
| AggregationLaws.SameWindowMergesExample | testAll_reproducibility.py:303-316 | two records of window 10 can both be absorbed by the same window-3 record, giving support 3 |
| ChangePointDeduplication.SupportedCps | testAll_reproducibility.py:354-356 | the filtered list is no longer than the records |
| ChangePointDeduplication.Deduplicate | testAll_reproducibility.py:342-356 | no candidates give an empty result |
| ChangePointDeduplication.SupportedCpsMembership | testAll_reproducibility.py:354-356 | a location is kept iff some record at it has support at least the threshold |
| ChangePointDeduplication.DeduplicateMembership | testAll_reproducibility.py:342-356 | a location is in the result iff some aggregated record at it reaches the threshold |
| ChangePointDeduplication.DedupOrder | testAll_reproducibility.py:342-356 | the kept locations are a subsequence of the locations of the aggregated records, so they keep their order |
| ChangePointDeduplication.SupportedCpsMonotone | testAll_reproducibility.py:354 | raising the threshold yields a subsequence of the result at the lower threshold |
| ChangePointDeduplication.ThresholdMonotone | testAll_reproducibility.py:342-356 | the deduplicated list at a higher threshold is a subsequence of the list at a lower one |
| ChangePointDeduplication.SingleWindowNoMerge | testAll_reproducibility.py:303-306 | records that all share one window size never merge |
| ChangePointDeduplication.SingleWindowSortsInput | testAll_reproducibility.py:284-356 | with one window and threshold at most 1, the result is the input locations sorted ascending (sorted, same multiset) |
| ChangePointDeduplication.SingleWindowHighThreshold | testAll_reproducibility.py:342-356 | with one window size and a threshold above 1, nothing merges, every support stays 1 and the result is empty |
| ChangePointDeduplication.ThreeWindowChainExample | testAll_reproducibility.py:299-318 | windows 10, 5, 3 at 100, 101, 102 with alpha 1 chain into one record at 102 with support 3 |
| ChangePointDeduplication.ThresholdBoundaryExample | testAll_reproducibility.py:342-356 | on that chain, threshold 3 keeps [102] and threshold 4 keeps nothing |
| TaskBuilder.Enabled | testAll_reproducibility.py:642 | defines `approach.get("enabled", True) == True`: an approach is skipped only when its flag is false |
| TaskBuilder.MetaOf | testAll_reproducibility.py:642 | defines `approach.get("meta-params", dict())` |
| TaskBuilder.Put | testAll_reproducibility.py:642 | ordered-dict assignment adds the key, keeps other entries, and for distinct keys stays distinct and maps the key to the new value |
| TaskBuilder.Selection | testAll_reproducibility.py:642 | defines the comprehension over the approaches in order: disabled ones are skipped, an enabled one without params fails, the rest are put under their function name |
| TaskBuilder.SelectionFailure | testAll_reproducibility.py:642 | selection fails iff some enabled approach lacks params, and then names the first one |
| TaskBuilder.SelectionKeys | testAll_reproducibility.py:642 | the selection has distinct keys, exactly the function names of enabled approaches |
| TaskBuilder.SelectionValues | testAll_reproducibility.py:642 | each selected entry carries the meta-parameters and params of the last enabled approach with that function name |
| TaskBuilder.Product | testAll_reproducibility.py:647 | the cartesian product has as many tuples as the product of the list lengths |
| TaskBuilder.ProductMembership | testAll_reproducibility.py:647 | a tuple is in the product iff it has one entry per list and each entry is drawn from its list |
| TaskBuilder.ZipDict | testAll_reproducibility.py:647 | `dict(zip(keys, v))` stops at the shorter list: its keys are exactly the keys with a value at the same index |
| TaskBuilder.ZipDictAt | testAll_reproducibility.py:647 | zipping distinct keys with values maps each key to its value |
| TaskBuilder.Permutations | testAll_reproducibility.py:646-647 | the grid's combinations, one dict per product tuple; there are as many as the product of the list lengths |
| TaskBuilder.PermutationsMembership | testAll_reproducibility.py:646-647 | a dict is a grid combination iff its keys are the grid's keys and each value is drawn from that key's list |
| TaskBuilder.EntryTasks | testAll_reproducibility.py:647-652 | one approach's tasks number all combinations (at most one on a test run), each being the combination updated with the meta-parameters |
| TaskBuilder.ExpandSelected | testAll_reproducibility.py:644-652 | defines the loop over the selection: an empty grid fails, otherwise each approach's tasks are appended in selection order |
| TaskBuilder.ExpandSelectedFailure | testAll_reproducibility.py:644-646 | expansion fails iff some selected approach has an empty grid, naming the first |
| TaskBuilder.ExpandSelectedCount | testAll_reproducibility.py:644-652 | the expanded list has the sum of the grid sizes, or on a test run one for each approach with at least one combination |
| TaskBuilder.ExpandSelectedMembership | testAll_reproducibility.py:644-652 | in a full (non-test) run, a task is expanded iff it is some approach's combination updated with its meta-parameters |
| TaskBuilder.ExpandSelectedTestMembership | testAll_reproducibility.py:644-650 | in a test run, a task is expanded iff it is the first combination of some approach that has one, updated with its meta-parameters |
| TaskBuilder.UsedLogs | testAll_reproducibility.py:654-655 | a test run uses exactly the first log (none if there are none); a full run uses the log list itself |
| TaskBuilder.LogArgs | testAll_reproducibility.py:657-665 | defines one log's shared arguments: F1_LAG, the path, the change points and the negated single-bar flag |
| TaskBuilder.Expanded | testAll_reproducibility.py:641-671 | defines the task list before the shuffle: selection, then expansion, then the cross with the used logs' arguments, failing with the first error |
| TaskBuilder.SharedArgs | testAll_reproducibility.py:657-665 | the list comprehension has one entry per log it is given, each that log's shared arguments, in log order |
| TaskBuilder.Cross | testAll_reproducibility.py:667-671 | crossing gives one task per pair of approach task and log |
| TaskBuilder.CrossMembership | testAll_reproducibility.py:667-671 | a crossed task is exactly some approach task's arguments updated with some log's arguments |
| TaskBuilder.TaskCount | testAll_reproducibility.py:642-671 | the task count is the sum of grid sizes times the log count, or on a test run the number of approaches with at least one combination times at most one log |
| TaskBuilder.TaskMembership | testAll_reproducibility.py:642-671 | in a full (non-test) run, a task is built iff it is a selected function with a grid combination, updated by its meta-parameters and then by one log's arguments |
| TaskBuilder.TasksCarrySharedArgs | testAll_reproducibility.py:657-671 | every task carries one log's arguments, the negated single-bar flag as show_progress_bar, and F1_LAG |
| TaskBuilder.WithPositions | testAll_reproducibility.py:675-678 | numbering keeps each task's function and arguments and sets position to its list index |
| TaskBuilder.Shuffle | testAll_reproducibility.py:673 | the shuffled array is a permutation of its old contents |
| TaskBuilder.BuildArgumentsList | testAll_reproducibility.py:641-679 | the method fails iff the expansion fails, with the same error; otherwise it returns a permutation of the expanded tasks numbered by position |
| ResultBuffer.RowColumns | testAll_reproducibility.py:682 | defines the columns of `pd.DataFrame(new_rows)`: the union of the rows' keys |
| ResultBuffer.IsEmptyFrame | testAll_reproducibility.py:683-684 | defines `df_new.empty` for a list of rows as having no column |
| ResultBuffer.SortedColumns | testAll_reproducibility.py:686 | the columns are strictly sorted and are exactly the given keys |
| ResultBuffer.SortedUnique | testAll_reproducibility.py:686 | two strictly sorted lists of the same strings are equal |
| ResultBuffer.WriteResultsToBuffer | testAll_reproducibility.py:681-694 | a result with no columns leaves the buffer as it was; otherwise the rows are appended and the columns become the sorted union of old and new keys |
| ResultBuffer.WriteKeepsWellFormed | testAll_reproducibility.py:681-694 | writing keeps every row's keys among the strictly sorted columns |
| ResultBuffer.WriteColumnsAreSorted | testAll_reproducibility.py:686 | the new columns are the one strictly sorted list of the union |
| ResultBuffer.Buffered | testAll_reproducibility.py:731-735 | defines the buffer after one write_results_to_buffer call per result, starting from the empty frame |
| ResultBuffer.BufferedContents | testAll_reproducibility.py:735 | after a series of writes the buffer holds exactly the rows of the results with columns, and the sorted set of their keys |
| ResultBuffer.BufferedPrefix | testAll_reproducibility.py:735 | an earlier buffer's rows are a prefix of a later one's, and its columns are a subset |
| ResultBuffer.BufferedSameRows | testAll_reproducibility.py:738-742 | if no rows were added since an earlier point, the buffer is unchanged since then |
| ResultBuffer.BufferedRowsHaveColumns | testAll_reproducibility.py:683-686 | a buffer with rows has columns |
| ResultCollection.AdwinResult | testAll_reproducibility.py:208-210 | the ADWIN wrapper is not applicable iff the log is no longer than the minimum window |
| ResultCollection.ApplicableMembership | testAll_reproducibility.py:732-733 | the applicable results are exactly the row lists of results that are not "not applicable" |
| ResultCollection.Applicable | testAll_reproducibility.py:753 | filtering keeps at most as many results as were delivered |
| ResultCollection.Flat | testAll_reproducibility.py:754 | defines the flattening of the results' row lists, in order |
| ResultCollection.FlushPoint | testAll_reproducibility.py:738 | the last flush point is a multiple of 100, at most the count and less than 100 below it |
| ResultCollection.ResultCollector.constructor | testAll_reproducibility.py:716-727 | the collector starts with an empty buffer, counter 0, no columns written and the old file |
| ResultCollection.ResultCollector.Receive | testAll_reproducibility.py:731-750 | receiving a result keeps the collector's state equal to the expected state of the applicable results so far |
| ResultCollection.ResultCollector.CollectAll | testAll_reproducibility.py:752-755 | bulk mode writes the flattened applicable rows into the buffer in one call; the file, counters, written columns and ghost history stay as they were |
| ResultCollection.ResultCollector.FinalWrite | testAll_reproducibility.py:758 | the final write makes the file the whole table; the table and every other field stay as they were |
| ResultCollection.Expected | testAll_reproducibility.py:726-750 | defines the loop state after the applicable results: the whole buffer, and the file and written columns as of the last flush point that wrote rows |
| ResultCollection.FlushedFile | testAll_reproducibility.py:738-750 | defines the file the periodic flushes leave behind, the one a fault exposes |
| ResultCollection.BulkTable | testAll_reproducibility.py:752-755 | defines the bulk table: one buffer write of the flattened applicable rows into the empty frame |
| ResultCollection.FlushCase | testAll_reproducibility.py:738-750 | at a 100th result, the flush makes the file the whole buffer, whether by appending or rewriting |
| ResultCollection.NoFlushCase | testAll_reproducibility.py:738 | between flush points only the buffer changes |
| ResultCollection.CollectResults | testAll_reproducibility.py:729-758 | the table is the streamed or bulk buffer; the file is the whole table, or after a fault the last flushed state (streaming) or the old file (bulk) |
| ResultCollection.FlushedFileIsPrefix | testAll_reproducibility.py:738-750 | the file on disk is the buffer as of the last flush point, missing only the rows of fewer than 100 later results |
| ResultCollection.StreamingMatchesBulk | testAll_reproducibility.py:731-755 | without results made only of key-less rows, streaming and bulk mode build the same table |
| ResultCollection.EmptyRowModesDiffer | testAll_reproducibility.py:731-755 | when another result brings a column, a result made of one key-less row is dropped by streaming mode but kept by bulk mode as an all-missing row |

## Left out

- The detector wrappers (`testBose`, `testMartjushev`, `testEarthMover`, and the others)
  and their algorithms are left out. They call libraries that are not part of this model.
  Only the ADWIN wrapper's "log too short" guard is modelled (`AdwinResult`).
- `callFunction` is left out, because it is dynamic dispatch on a function name. Task
  outcomes are an input sequence.
- `get_logpaths_with_changepoints` is left out, because it reads files. This includes its
  fallback to `[]` when a name cannot be parsed. The logs are an input list of
  (path, change points) pairs.
- The process pool, `imap`/`map`, the tqdm lock and the progress bars are left out. The
  order in which results arrive is an input sequence; `imap` delivers them in task order.
- numpy's random generator is left out. `Shuffle` makes an arbitrary choice at each step,
  so `BuildArgumentsList` promises some permutation, not a particular one.
- Command-line parsing, YAML loading, the directory creation loop, the timers and the
  duration formatting are left out; they are I/O or clocks.
- CSV text is left out: the file is modelled as a header plus rows. pandas dtype coercion
  is left out too, and a missing key in a row stands for a NaN cell.
- The `result is np.NaN` identity test is modelled by a separate `NotApplicable` result.
- An approach's `enabled` flag is modelled as an optional boolean, and only an explicit
  false disables it. Other truthy or falsy YAML values are not modelled.
- `main` raises `KeyError` at line 711 for any approach without an `enabled` key, after
  `build_arguments_list` (line 706) has already applied the line-642 default. That loop
  only creates directories and is not modelled; `Enabled` follows line 642.
- `alpha` is an exact real. Floating-point rounding in `alpha * window_size` is not
  modelled.
- A missing `function` key in an approach, which raises in the source, is not modelled: the
  function name is a required field of `Approach`.
- TaskBuilder.SelectionKeys: states the set of selected function names but not their
  order, which the shuffle makes irrelevant to the result.
- TaskBuilder.BuildArgumentsList: does not state which permutation the shuffle chooses,
  because the model has no random generator.
- ResultCollection.ResultCollector.Receive: states the new state through its `Valid()`
  invariant rather than field by field.
