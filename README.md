# A verified model of the `90file.js` utilities

`90file.js` is one file holding about ninety small JavaScript utilities. This
project models the sequential, integer- and string-based core of it in Dafny and
proves what each utility promises:

- the stateful primitives: `LRUCache`, `memoize`, `throttle`, `retry`,
  `Stopwatch`, `EventEmitter`, `once`, `Pipeline`;
- the codecs: Roman numerals, run-length compression, `HH:MM:SS` and `HH:MM`
  formatting;
- the array, string, graph and dynamic-programming algorithms: binary and
  rotated search, merging, in-place rotation, first missing positive, majority
  vote, stock profit, longest increasing subsequence, coin change, intervals,
  bracket matching, subsets, permutations, matrix transpose and rotation,
  topological sort, cycle detection, largest island, minimum window, longest
  consecutive run, pair sums, set operations, `uniqueByKey`, `mostFrequent`,
  reversing word order, rotation test and nested sums.

There is one module per utility family (one `.dfy` file each), plus `Common`
(`Option`, `Attempt`, `Distinct`, JavaScript's truncating `%`) and `Decimal`
(digit strings and `padStart(2, "0")`).

How the model is built:

- **Objects that the source updates in place** are classes whose fields their
  methods reassign: `LRUCache`, the `memoize` closure (`Memoized`), `throttle`
  (`ThrottledFn`), `once` (`OnceWrapper`), `Stopwatch`, `EventEmitter`
  (`Emitter`) and `Pipeline`. Each method's `ensures` ties the new state to a
  pure transition function of the old state. The lemmas prove what the source
  promises about those functions.
- **Loops** are methods with loop invariants, proved against a specification
  function or a direct statement of the result.
- **In-place array algorithms** (`rotateArray`, `firstMissingPositive`,
  `rotateMatrix90`, the binary searches, the `largestIsland` visited grid) keep
  their `array`.
- **Time, thrown errors and callbacks** become explicit inputs:
  - `Date.now()` becomes a `now` parameter;
  - a function that may throw becomes a function returning `Attempt`
    (`Returned(v)` or `Threw(e)`);
  - `retry`'s `fn` becomes a function from the attempt number to an `Attempt`.

## Model

| member | source | states |
|---|---|---|
| LruCache.LRUCache.constructor | 90file.js:652-655 | a new cache keeps the capacity as given, unchecked, and starts empty |
| LruCache.LRUCache.Get | 90file.js:656-662 | `get` is `Access` on the recency order and key/value map, and keeps them well formed |
| LruCache.LRUCache.Set | 90file.js:663-670 | `set` is `Write` on the recency order and key/value map, and keeps them well formed |
| LruCache.AccessSemantics | 90file.js:656-662 | a miss returns nothing and changes nothing; a hit returns the stored value, keeps the key/value pairs and moves the key to the most-recent end, leaving the other keys in order |
| LruCache.AccessKeepsWellFormed | 90file.js:656-662 | after `get`, the recency order still lists each stored key exactly once |
| LruCache.WriteKeepsWellFormed | 90file.js:663-670 | after `set`, the recency order still lists each stored key exactly once |
| LruCache.Evict | 90file.js:666-669 | dropping the oldest key from both the order and the map keeps them in step |
| LruCache.WriteWithinCapacity | 90file.js:663-670 | a cache holding at most `cap` entries still holds at most `cap` after `set` |
| LruCache.WriteIntoFullCache | 90file.js:663-670 | writing a new key into a full cache removes exactly the least recently used key and appends the new one |
| LruCache.WriteWithoutOverflow | 90file.js:663-665 | with no overflow, the key moves to the most-recent end with its new value and nothing is evicted |
| LruCache.WriteIntoZeroCapacity | 90file.js:652-670 | with capacity 0, `set` inserts the key and immediately evicts it, leaving the cache empty |
| LruCache.WriteThenAccess | 90file.js:656-670 | with capacity at least 1, reading a key right after writing it returns the written value |
| Memoize.Memoized.constructor | 90file.js:32-33 | a memoized function starts with an empty cache and no invocations of `fn` |
| Memoize.Memoized.Invoke | 90file.js:34-40 | a call returns the cached value for its key, or calls `fn`, caches a returned value and records the invocation |
| Memoize.FirstSuccess | 90file.js:32-41 | the first call with a given key whose `fn` returned; every earlier call with that key threw |
| Memoize.ReplayCache | 90file.js:36-38 | after any sequence of calls, a key is cached exactly when some call with it returned, and it holds the value of the first such call, never overwritten |
| Memoize.ReplayResult | 90file.js:34-40 | each call invokes `fn` only if no earlier call with an equal key returned; otherwise it returns that call's value |
| Memoize.InvokedOncePerKey | 90file.js:36-38 | if `fn` is invoked on a later call, every earlier call with an equal key threw |
| Throttle.ThrottledFn.constructor | 90file.js:4-7 | a throttled function starts with `last = 0`, no timer and no arguments |
| Throttle.ThrottledFn.Call | 90file.js:9-26 | a call is the `OnCall` transition, and it records an invocation of `fn` exactly when it runs one |
| Throttle.ThrottledFn.Fire | 90file.js:20-24 | the timer firing is the `OnTimer` transition, and it runs `fn` with the latest arguments |
| Throttle.ThrottledEdges | 90file.js:11-25 | a call records its arguments. At or past the wait it runs `fn` at once, disarms the timer and sets `last = now`. Inside the window it never runs `fn`, arms a timer and keeps an armed timer's due time |
| Throttle.StepsKeepInv | 90file.js:14-24 | calls and timer firings keep the timer due exactly `wait` after `last` whenever it is armed |
| Throttle.RunSpaced | 90file.js:9-26 | over any sequence of calls and firings, successive runs of `fn` are at least `wait` apart |
| Throttle.FiringBound | 90file.js:9-26 | over a time span `span`, `fn` runs at most `span / wait + 1` times |
| Retry.Run | 90file.js:706-717 | returns the first successful attempt's value after exactly that many calls. If every attempt throws, it makes `retries + 1` calls and rethrows the last error. With `retries < 0` it makes no call and throws `undefined`. It sleeps only between attempts, and only when `delayMs` is non-zero |
| Retry.FirstResolved | 90file.js:708-715 | the first attempt below the bound that returns; all before it throw |
| Retry.ScheduleShape | 90file.js:708-715 | the log of `k` attempts alternates attempt, sleep, attempt, … and ends with the last attempt, never a sleep |
| Stopwatch.StopwatchObj.constructor | 90file.js:959-963 | a new stopwatch is stopped, with nothing elapsed |
| Stopwatch.StopwatchObj.Start | 90file.js:964-968 | `start` is `AfterStart`: it starts a stopped watch at `now`, and does nothing to a running one |
| Stopwatch.StopwatchObj.Stop | 90file.js:969-973 | `stop` is `AfterStop`: it adds the running span to `elapsed`, and does nothing to a stopped watch |
| Stopwatch.StopwatchObj.Reset | 90file.js:974-978 | `reset` returns to the fresh state |
| Stopwatch.StopwatchObj.GetTimeMs | 90file.js:979-981 | the reading is `elapsed`, plus the current span while running |
| Stopwatch.ReadingAdvances | 90file.js:979-981 | between two readings the time advances by the elapsed wall time while running, and not at all when stopped |
| Stopwatch.StartStopContinuous | 90file.js:964-973 | starting or stopping does not change the reading at that instant |
| Stopwatch.StartStopIdempotent | 90file.js:964-973 | a second `start` (or `stop`) in a row has no effect |
| Stopwatch.SessionReading | 90file.js:958-982 | after start/stop over a list of spans, the watch is stopped and reads the sum of the spans |
| EventEmitter.Emitter.constructor | 90file.js:61-63 | a new emitter has no events |
| EventEmitter.Emitter.On | 90file.js:64-68 | `on` is `AfterOn` and keeps every listed handler set non-empty and duplicate-free |
| EventEmitter.Emitter.Off | 90file.js:69-74 | `off` is `AfterOff` and keeps every listed handler set non-empty and duplicate-free |
| EventEmitter.Emitter.Emit | 90file.js:75-80 | `emit` reports whether the event has handlers, and which it calls in order |
| EventEmitter.StepsKeepInv | 90file.js:64-74 | `on` and `off` keep each listed event's handlers non-empty and duplicate-free |
| EventEmitter.OnThenEmit | 90file.js:64-80 | after `on(e, h)`, emitting `e` succeeds and calls `h`; `h` is appended if it was not already registered |
| EventEmitter.OffThenEmit | 90file.js:69-80 | after `off(e, h)`, emitting `e` calls every other handler but not `h`, and fails when none remain |
| EventEmitter.OffUndoesOn | 90file.js:64-74 | `off` right after `on` of a handler that was not registered restores the registry exactly |
| Once.OnceWrapper.constructor | 90file.js:531-533 | a new wrapper has not been called and has no result |
| Once.OnceWrapper.Invoke | 90file.js:534-539 | a call is the `Call` transition, and it counts an invocation of `fn` exactly when it runs one |
| Once.ReplayRunsOnce | 90file.js:534-539 | over any calls, `fn` runs on the first call only. Later calls return the first result, or `undefined` if the first call threw |
| Pipeline.PipelineObj.constructor | 90file.js:1313 | a new pipeline has no stages |
| Pipeline.PipelineObj.Use | 90file.js:1314 | `use` appends the function as the last stage |
| Pipeline.RunStages | 90file.js:1315 | `run(value)`: the stages applied in order; its meaning is stated by `RunStagesAppend`, `UseRunsLast` and `EmptyRun` |
| Pipeline.RunStagesAppend | 90file.js:1315 | running two stage lists in sequence equals running their concatenation |
| Pipeline.UseRunsLast | 90file.js:1314-1315 | a stage added with `use` runs last, on the output of the earlier stages |
| Pipeline.EmptyRun | 90file.js:1315 | an empty pipeline returns its input |
| Roman.ToRoman | 90file.js:86-100 | the result spells the greedy decomposition of `num` over the 13-entry table |
| Roman.EmitOne | 90file.js:94-97 | emitting one symbol and subtracting its value leaves the same total spelling |
| Roman.GreedyAscending | 90file.js:93-98 | symbols are emitted in table order (non-increasing value); nothing is emitted for `num <= 0` |
| Roman.GreedyTotal | 90file.js:93-98 | the values of the emitted symbols add up to `num` |
| Roman.FromRoman | 90file.js:105-115 | the loop computes `Decode`: subtract a letter worth less than the next, otherwise add it; any other character makes the result not a number |
| Roman.SymbolDecodes | 90file.js:86-91 | each table symbol is made of numeral letters and reads back as its value |
| Roman.SpellDecodes | 90file.js:86-115 | a spelling in table order reads back as the sum of its symbols' values |
| Roman.RomanRoundTrip | 90file.js:86-115 | `fromRoman(toRoman(n)) == n` for every natural `n` |
| RunLength.CompressString | 90file.js:1281-1293 | the result encodes the maximal runs of `s` as character followed by decimal count |
| RunLength.Scan | 90file.js:1285-1291 | one step of the loop extends the current run or writes it out, keeping the runs written plus those still to come equal to all runs of `s` |
| RunLength.RunsDecode | 90file.js:1281-1293 | the runs of a string spell the string back |
| RunLength.RunsShape | 90file.js:1281-1293 | every run is at least one long and uses a character of `s` |
| RunLength.ExpandCompressed | 90file.js:1298-1307 | the loop computes `Expand`: a character, then all following digits as its count (none means 1) |
| RunLength.ReadDigits | 90file.js:1303 | the inner loop takes exactly the maximal run of digits |
| RunLength.ExpandEncode | 90file.js:1281-1307 | positive-length runs of non-digit characters expand back from their encoding |
| RunLength.RunLengthRoundTrip | 90file.js:1279-1307 | `expandCompressed(compressString(s)) == s` for every string with no digit characters |
| Durations.SecondsToHHMMSS | 90file.js:987-993 | `secondsToHHMMSS(sec)`; its meaning is stated by `ClockRoundTrip` |
| Durations.ClockRoundTrip | 90file.js:987-993 | the text reads back as `max(0, sec)`; its last two fields are two digits each with values below 60, so the text is the canonical one (never "00:00:75"); it is exactly `HH:MM:SS` below 100 hours |
| Durations.TotalDurationHHMM | 90file.js:882-887 | `totalDurationHHMM(tasks)`; its meaning is stated by `TotalRoundTrip`, `TotalMinutesAppend` and `NegativeTotal` |
| Durations.TotalRoundTrip | 90file.js:882-887 | a non-negative total reads back as the total, and its minute field is two digits with a value below 60 (never "00:75") |
| Durations.TotalMinutesAppend | 90file.js:883 | the total of concatenated task lists is the sum of their totals |
| Durations.NegativeTotal | 90file.js:883-886 | a negative total keeps JavaScript's signs (floored hours, truncated minutes: -5 minutes is "-1:-5"); a present zero `durationMinutes` is not skipped |
| Decimal.NatToStringValue | 90file.js:992 | `String(n)` of a natural number reads back as `n` |
| Decimal.Pad2Value | 90file.js:992 | `padStart(2, "0")` keeps the value of the digits, and gives exactly two digits below 100 |
| Search.BinarySearch | 90file.js:407-416 | a returned index holds the target; on a sorted array, -1 means the target is absent |
| Search.SearchRotated | 90file.js:918-933 | a returned index holds the target; on a rotated strictly increasing array, -1 means the target is absent |
| Search.RotatedStep | 90file.js:924-930 | the half the loop keeps is the one that holds the target |
| Search.AllIndices | 90file.js:938-942 | the result is exactly the indices holding the value, in increasing order |
| MergeSorted.Merge | 90file.js:421-431 | the result is a permutation of `a ++ b`, and sorted when both inputs are |
| MergeSorted.AppendRest | 90file.js:428-429 | a tail loop appends the rest of one input |
| RotateArray.Rotate | 90file.js:261-274 | the array ends rotated right by `k`: element `i` moves to `(i + k) mod n` |
| RotateArray.Reverse | 90file.js:266-268 | `reverse(i, j)` reverses exactly the cells from `i` to `j` |
| RotateArray.RotateByReversals | 90file.js:270-272 | the three reversals compose to a right rotation by `k mod n` |
| RotateArray.RotateMoves | 90file.js:261-274 | in the rotation, element `i` sits at `(i + k) mod n` |
| FirstMissing.FirstMissingPositive | 90file.js:512-526 | the result is the least positive integer missing from the input; the array ends as a permutation of its contents |
| FirstMissing.SwapStep | 90file.js:515-522 | each swap places one more value at its home cell, so the inner loop terminates, and keeps the contents |
| FirstMissing.FirstGap | 90file.js:524-525 | the first cell not holding its own value names a missing positive, and every smaller positive is present |
| Majority.MajorityElement | 90file.js:279-289 | a returned value occurs in more than half the positions; `null` means no value does |
| Majority.Vote | 90file.js:280-284 | after the voting pass, every value other than the candidate occurs at most `(n - count) / 2` times |
| Majority.Occurrences | 90file.js:286-287 | the counting pass counts the candidate's occurrences |
| MaxProfit.MaxProfit | 90file.js:1253-1260 | the result is the largest `prices[j] - prices[i]` with `i < j`, or 0 when no sale gains |
| Lis.LisLength | 90file.js:1024-1036 | the result is the length of a longest strictly increasing subsequence |
| Lis.LowerBound | 90file.js:1027-1032 | the binary search finds the first entry of `tails` not below `x` |
| Lis.TailsIncreasing | 90file.js:1026-1034 | `tails` stays strictly increasing |
| Lis.TailsWitnessed | 90file.js:1026-1034 | each `tails[L]` ends some increasing subsequence of length `L + 1` |
| Lis.TailsBounded | 90file.js:1026-1034 | no increasing subsequence is longer than `tails`, or ends lower than the entry for its length |
| Lis.TailsLength | 90file.js:1035 | the final length of `tails` is both attained and an upper bound |
| CoinChange.CoinChange | 90file.js:1239-1248 | the result is `Best(coins, amount)`, or -1 when the amount cannot be made |
| CoinChange.AddCoin | 90file.js:1242-1246 | one pass of the inner loop turns the table for the earlier coins into the table for one more coin |
| CoinChange.BestStep | 90file.js:1243-1244 | the recurrence `dp[a] = min(dp[a], dp[a - c] + 1)` computes `Best` for one more coin |
| CoinChange.BestSound | 90file.js:1239-1248 | a finite `Best` is the length of some multiset of coins summing to the amount |
| CoinChange.BestOptimal | 90file.js:1239-1248 | no multiset of coins summing to the amount is shorter than `Best` |
| CoinChange.CoinChangeMeaning | 90file.js:1239-1248 | `Best` is the minimum number of coins, and is attained whenever it is finite |
| Intervals.MergeIntervals | 90file.js:577-588 | on valid intervals, each result interval ends before the next starts, and the result covers exactly the same real points as the input, which by `CoverDetermines` fixes it; the result is empty exactly when the input is |
| Intervals.MergeSorted | 90file.js:580-587 | the merge loop over start-sorted intervals keeps its result separated and covering the same real points as the intervals read so far |
| Intervals.SortByStart | 90file.js:579 | the sort by start is a permutation, sorted by start |
| Intervals.SortKeeps | 90file.js:579 | sorting keeps the covered points and validity |
| Intervals.MergeInto | 90file.js:584 | widening the last interval with an overlapping one keeps the result separated and adds exactly the new points |
| Intervals.MergeAfter | 90file.js:585 | appending an interval that starts past the last one keeps the result separated and adds exactly its points |
| Intervals.InsertInterval | 90file.js:593-607 | inserting into sorted separated intervals gives sorted separated intervals covering exactly the old real points plus the new interval's, which by `CoverDetermines` fixes the result |
| Intervals.AbsorbOverlapping | 90file.js:599-603 | the middle loop absorbs exactly the intervals overlapping the new one, and the widened interval covers them and the new one |
| Intervals.CoverDetermines | 90file.js:577-607 | two valid lists, each interval ending before the next starts, that cover the same real points are equal: the merge and insert contracts determine their results |
| Intervals.TouchingKeptApart | 90file.js:584 | intervals that only touch on the integers, `[1,2]` and `[3,4]`, must stay apart, as the source merges only when `s <= last[1]` |
| Intervals.InsertFinish | 90file.js:604-606 | the three parts join into a separated list with the promised coverage |
| Intervals.CanAttendMeetings | 90file.js:947-953 | the result is whether consecutive meetings, sorted by start, do not overlap; for positive-length meetings, that is whether no two meetings overlap |
| Intervals.EachAfterPrevious | 90file.js:949-952 | the loop is true exactly when each meeting starts at or after the previous one ends |
| Intervals.CanAttendMeaning | 90file.js:947-953 | for positive-length meetings, the sorted consecutive check decides pairwise compatibility of the whole multiset |
| Intervals.ZeroLengthOrder | 90file.js:947-953 | with a zero-length meeting, the stable sort makes the answer depend on input order: `[5,5],[5,7]` passes, `[5,7],[5,5]` fails |
| Brackets.IsValidBrackets | 90file.js:120-130 | the result is exactly membership in the bracket grammar, with other characters allowed only at depth zero |
| Brackets.Accept | 90file.js:120-130 | the stack run ends empty exactly on accepted strings |
| Brackets.Complete | 90file.js:120-130 | every string in the grammar runs the stack back to where it started |
| Brackets.Sound | 90file.js:120-130 | every string the stack run accepts is in the grammar |
| Brackets.BracketsOnlyBalanced | 90file.js:120-130 | on strings of brackets only, acceptance is ordinary balance |
| Brackets.OtherOutside | 90file.js:123-127 | a character other than a bracket is accepted outside all brackets |
| Brackets.OtherInside | 90file.js:123-127 | a character other than a bracket inside brackets, a mismatched closer and an unopened closer are rejected |
| Subsets.Subsets | 90file.js:395-402 | the result has `2^n` entries: every subsequence of `arr`, each kept in order |
| Subsets.PowerSetAt | 90file.js:397-400 | each element doubles the list: the old entries followed by them extended with the element |
| Subsets.PowerSetSound | 90file.js:395-402 | every entry picks `arr`'s elements at some increasing indices |
| Subsets.PowerSetComplete | 90file.js:395-402 | every choice of increasing indices appears as an entry |
| Subsets.SubsetsMeaning | 90file.js:395-402 | the result is all `2^n` subsequences |
| Permutations.AllPermutations | 90file.js:369-390 | the result has `n!` entries, each a rearrangement of `arr`, and every arrangement of its positions appears |
| Permutations.Backtrack | 90file.js:374-387 | a backtracking call restores `used` and returns the completions of the current path |
| Permutations.PermutationsMeaning | 90file.js:369-390 | the specification of the result has `n!` entries, each a rearrangement of `arr`, and it lists every arrangement |
| Permutations.PermsCount | 90file.js:374-387 | from a path with `u` unused positions there are `u!` completions |
| Permutations.PermsSound | 90file.js:374-387 | each completion uses the path plus exactly the unused elements |
| Permutations.PermsComplete | 90file.js:374-387 | every ordering of the unused positions gives a completion |
| Matrix.Transpose | 90file.js:303-310 | the result has `n` rows of length `m`, and `out[j][i] == matrix[i][j]` |
| Matrix.TransposeTwice | 90file.js:303-310 | transposing a rectangular matrix with non-empty rows twice gives it back |
| Matrix.TransposeInPlace | 90file.js:318-322 | the first phase transposes the square in place |
| Matrix.ReverseRow | 90file.js:324 | reversing a row leaves the other rows alone |
| Matrix.RotateMatrix90 | 90file.js:315-326 | the square ends rotated a quarter turn clockwise: `a[i][j]` is the old `a[n-1-j][i]` |
| Matrix.RotateFourTimes | 90file.js:315-326 | four quarter turns give the matrix back |
| TopoSort.TopoSort | 90file.js:1161-1181 | for distinct nodes that hold every edge's ends, the result is non-null exactly when a topological order exists, and then it is one. A non-null result has one entry per node, each once, closed under edges and edge-ordered. Duplicate nodes, with every edge target among the nodes, give `null`. Distinct nodes with an edge target outside them give `null` whenever the graph over all keys is acyclic, so `null` does not mean a cycle there (see Left out) |
| TopoSort.ReadEdges | 90file.js:1164-1167 | the edge loop builds the successor lists and in-degrees, adding unknown targets as keys |
| TopoSort.ZeroQueue | 90file.js:1168-1169 | the queue starts with exactly the zero in-degree keys, each once |
| TopoSort.Emit | 90file.js:1172-1178 | one turn dequeues the head, appends it and keeps Kahn's invariant |
| TopoSort.Relax | 90file.js:1175-1178 | lowering the successors' in-degrees enqueues exactly those that reach zero |
| TopoSort.Complete | 90file.js:1172-1180 | if a topological order exists, the queue empties only after every node is emitted |
| TopoSort.Finish | 90file.js:1180 | the length test decides the existence of a topological order when the nodes are distinct and hold every edge's ends; with distinct nodes and an edge target outside them, an acyclic graph still gives `null` |
| DirectedCycle.HasDirectedCycle | 90file.js:1186-1204 | the result is true exactly when the graph has a directed cycle |
| DirectedCycle.Dfs | 90file.js:1189-1198 | a visit that reports a cycle is right; otherwise it finishes `u` after the nodes already finished, keeping the DFS invariant |
| DirectedCycle.ClosesCycle | 90file.js:1193 | meeting a node on the current path closes a cycle |
| DirectedCycle.NoCycle | 90file.js:1200-1203 | once every node is finished in DFS order, there is no cycle |
| LargestIsland.LargestIsland | 90file.js:1321-1347 | the result is the size of a largest 4-connected group of 1s, or 0 when there is none |
| LargestIsland.Dfs | 90file.js:1327-1337 | `dfs` marks only cells of its start's island, leaves what it marked closed under land neighbours, and returns how many it marked |
| LargestIsland.ScanRow | 90file.js:1340-1344 | scanning a row floods every new island and keeps the best size |
| LargestIsland.Flooded | 90file.js:1327-1337 | a closed flood from a land cell is exactly its island |
| MinWindow.MinWindow | 90file.js:1209-1234 | an empty `t` gives "". Otherwise "" means no window of `s` holds `t` as a multiset, and a non-empty result is a window that does, the shortest, and the rightmost among the shortest: the source compares `r - l` with the stored length `best[1] - best[0]`, so a later window of equal length replaces the earlier one |
| MinWindow.ShrinkWindow | 90file.js:1225-1230 | the inner loop drops characters from the left while the window holds `t`, recording each shorter window |
| MinWindow.Full | 90file.js:1223-1229 | `have` reaches the length of `t` exactly when the window holds `t` as a multiset |
| MinWindow.Covered | 90file.js:1223 | adding a character raises `have` exactly when it was still needed |
| MinWindow.Uncovered | 90file.js:1229 | dropping a character lowers `have` exactly when it then falls short |
| Consecutive.LongestConsecutive | 90file.js:1265-1276 | the result is the length of the longest run of consecutive integers among the values |
| Consecutive.ToSet | 90file.js:1266 | `new Set(nums)` holds exactly the values of `nums`, and its iteration lists each once |
| Consecutive.RunStart | 90file.js:1269 | every run can be extended down to a start with no predecessor, which is no shorter |
| PairsSum.PairsSum | 90file.js:208-225 | the result lists each value pair `(a, b)` with `a <= b` summing to the target exactly once, and only pairs drawn from two different positions |
| PairsSum.Consider | 90file.js:212-222 | one turn keeps the pairs found sound, distinct and complete for the prefix read |
| PairsSum.Extend | 90file.js:213-221 | after reading `nums[k]`, every pair ending at `k` is listed |
| Collections.Intersection | 90file.js:436-441 | the result lists each value of `a` that is in `b` once, in first-occurrence order |
| Collections.Difference | 90file.js:446-451 | the result lists each value of `a` that is not in `b` once, in first-occurrence order |
| Collections.KeepUnique | 90file.js:436-451 | the shared loop keeps each value of `a` whose membership in `b` is as asked, once, in first-occurrence order |
| Collections.UniqueByKey | 90file.js:1121-1132 | the result keeps the first object for each key, in order, with every key present exactly once |
| Collections.Admit | 90file.js:1126-1129 | an object with a new key is the first with that key, and keeping it preserves the loop invariant |
| Collections.MostFrequent | 90file.js:868-877 | the count is the largest multiplicity, and the value is the first to reach it; an empty array has no value |
| Words.ReverseWordsOrder | 90file.js:477-479 | `reverseWordsOrder(s)`; its meaning is stated by `ReverseWordsMeaning` |
| Words.ReverseWordsMeaning | 90file.js:477-479 | a blank string gives ""; otherwise the result's words are the input's words in reverse order, and reversing twice normalises the spacing |
| Words.SplitJoin | 90file.js:478 | splitting on white space undoes joining clean words with spaces |
| Words.TrimEnds | 90file.js:478 | a trimmed string is empty or starts and ends with a character that is not white space |
| Words.IsRotation | 90file.js:505-507 | `isRotation(a, b)`; its meaning is stated by `IsRotationMeaning` |
| Words.IsRotationMeaning | 90file.js:505-507 | `b` occurs in `a + a` with equal lengths exactly when it is a suffix of `a` followed by the matching prefix |
| NestedSum.SumNested | 90file.js:639-646 | `sumNestedArray(arr)`; its meaning is stated by `SumNestedFlatten` and `SumNestedAppend` |
| NestedSum.SumNestedFlatten | 90file.js:639-646 | the nested sum is the sum of the flattened numbers |
| NestedSum.SumNestedAppend | 90file.js:639-646 | the sum of a concatenation adds up, and a nested array counts its own sum |

## Left out

- `limitConcurrency`, `promisePool`, `asyncMemoize`: their point is interleaving Promises. That is concurrency, not sequential logic.
- `promisify`, `fetchAllInOrder`, `loadImage`, `sleep`: callback, network and timer plumbing. `retry` counts its sleeps instead of waiting.
- `closestWithClass`, `delegateClick`, `countElements`: browser DOM APIs.
- `deepClone`, `deepEqual`, `deepFreeze`, `myBind`: reflection over JavaScript object graphs and `this`, with no Dafny counterpart.
- `formatDate`, `datesBetween`: depend on `Date` and the local time zone.
- `shuffle`, `randomIntUnbiased`, `kthLargest`: randomness and `crypto`.
- `isValidEmail`, `isStrongPassword`, `isValidJSON`, `parseQuery`, `toQuery`: delegate to regular expressions, `JSON.parse` and `URLSearchParams`.
- `isPowerOfTwo`: relies on 32-bit bitwise coercion of doubles.
- Outside the modelled core: `missingNumber1toN`, `longestCommonPrefix`, `isPalindrome`, `wordCount`, `longestWord`, `reverseEachWord`, `snakeToCamel`, `camelToSnake`, `flattenDot`, `unflattenDot`, `fibMemo`, `fibIter`, `listToTree`, `treeToFlat`, `sortByKeys`, `arraysEqual`, `countVowelsConsonants`, `separateLettersDigits`, `mutualFriends`, `flattenBracket`. They are not part of this model.
- The blog back end and client under `blog/` and `src/`: ORM, authentication and UI code around calls that cannot be seen.
- Numbers: JavaScript numbers are modelled as unbounded integers throughout. Fractions, `NaN`, `Infinity` as an input and precision loss above 2^53 are not modelled. `coinChange`'s `Infinity` is the `Inf` sentinel, and `minWindow`'s `Infinity` is the absent `best`.
- Strings are sequences of characters. UTF-16 surrogate pairs are not distinguished from single characters.
- `this` and `lastThis` forwarding in `throttle`, `memoize` and `once`: calls carry their arguments only.
- `throttle`'s timer: the `setTimeout` callback is the separate `Fire(now)` step, allowed once its due time is reached. `Date.now()` is a `now` parameter in `throttle` and `Stopwatch`.
- `EventEmitter.on` returns an unsubscribe closure; the model does not return it, and `off` covers the same effect. Handlers are opaque values: `emit` returns the handlers it calls, in order, and the effects of calling them are not modelled.
- `memoize`'s default key, `JSON.stringify(args)`, is abstracted to any deterministic `keyFn`.
- Map keys and set members are compared with Dafny equality, standing for JavaScript's SameValueZero.
- Intervals.MergeIntervals: does not model that the source sorts the caller's array in place and then widens the copied first interval of the result. The model sorts a copy with a stable insertion sort by start, as `Array.prototype.sort` is stable.
- Intervals.CanAttendMeetings: does not model the in-place sort of the caller's array.
- Intervals.InsertInterval: states its coverage and separation only for valid, separated input and a valid new interval. The source promises nothing for other input, and the model still runs the same loops on it.
- TopoSort.TopoSort: requires every edge's source to be among `nodes`. Otherwise the source throws a `TypeError` at `adj.get(u).push(v)`. Edge targets outside `nodes` are handled as the source handles them, and then the length test at 90file.js:1180 does not detect cycles: nodes `[a]` with edges `[[a,b]]` have no cycle yet give `null` (the model proves this case in general), and nodes `[a,b,c]` with edges `[[b,c],[c,b],[a,x],[a,y]]` have a cycle yet give `[a,x,y]`, which leaves out `b` and `c`. The model computes the same results; its contract promises a topological order only when the nodes hold every edge's ends.
- DirectedCycle.HasDirectedCycle: takes the key order of `Object.keys(adj)` as a parameter listing the keys exactly. JavaScript's conversion of keys to strings is not modelled.
- CoinChange.CoinChange: requires `amount >= 0` and non-negative coins. A negative amount makes `Array(amount + 1)` throw a `RangeError` or return a value from an empty table, and a negative coin reads `dp[a - c]` above `amount`.
- RotateArray.Rotate: takes `k` as a natural number. A negative `k` leaves a negative remainder that makes the source swap in properties at negative indices.
- Matrix.RotateMatrix90: works on a square two-dimensional array. Rows of other lengths, and arrays of rows that share storage, are not modelled.
- Matrix.Transpose: requires every row to be at least as long as the first. For a shorter row the source copies `undefined` cells.
- LargestIsland.LargestIsland: takes the grid as rows of integers with the width of the first row, as the source does. Cells holding anything other than numbers are not modelled.
- Durations.TotalRoundTrip: the round trip is stated for non-negative totals. Negative totals are covered by the concrete cases of `NegativeTotal`.
- `secondsToHHMMSS`: `Math.floor` of a fractional `sec` is not modelled.
- `sumNestedArray` over entries that are neither numbers nor arrays, where JavaScript's `+` concatenates strings, is not modelled.
- RunLength.ExpandCompressed: a count too large for `String.prototype.repeat`, which throws a `RangeError`, is not modelled.
- `retry` models `fn` as a function from the attempt number to its outcome. The asynchronous scheduling of the attempts is not modelled.
