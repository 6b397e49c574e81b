# Interleaved lower-bound binary search

This project models the batched binary search of `Program.cs` in two forms.

- The **sequential driver** (`Impl.Sequential`) answers each query with a branchless lower-bound search:
  - probe `low + size / 2`;
  - move `low` up to the probe when the probed key is below the query;
  - shrink `size` by `size / 2` whatever the comparison said;
  - finish with a one-step fix-up.
- The **explicit round-robin interleaver** is `ManySearches` plus `InterleavedEnumerable`.
  - There are `G` lanes, and lane `i` takes the queries `i, i + G, i + 2G, ...`.
  - Each lane runs the same search, but suspends once per probe: after the prefetch hint and before reading the probed key.
  - A driver advances every live lane by one `MoveNext`, in slot order, pass after pass. It empties a slot when its lane is exhausted.

The search core is in `search.dfy`, module `BinarySearch`. The lower bound is the pure specification function `LowerBound`. What the loop and its fix-up compute from a window `(low, size)` is the function `SearchFrom`. `Answer` is `SearchFrom` run on the whole array. The number of loop iterations is `Steps(|keys|)`, which does not depend on the query. `Search` and `Sequential` are the imperative loops, proved against these functions.

The interleaver is in `interleaving.dfy`, module `Interleaving`. It has these parts:

- **Lane.** A C# iterator object becomes a class with one field per local the iterator keeps alive across a `yield`. A program counter (`Start`, `Suspended`, `Finished`) records where the body stands.
- **MoveNext.** `Lane.MoveNext` runs exactly the code between two suspension points.
- **ResultSink.** The shared result list is a `ResultSink` object that lanes append to.
- **Driver.** The driver keeps an `array<Lane?>` and nulls slots in place.
- **Driver proof.** A ghost `Stage` describes all slots between two passes:
  - `Fresh`: no lane has started.
  - `Probing(b, m)`: the lane in slot `j` is suspended in query `b + j` after `m` comparisons.
  - `Drained`: every slot is empty.

Each pass moves the stage one step forward. From the stage, the proof reads off what the sink holds.

The main results are these.

- **Sorted input.** On a non-decreasing array, every answer is the lower bound: the first index whose key is at least the query, or the array length.
- **Probe count.** A search does `Steps(|keys|)` probes, whatever the query. `Steps(n)` is the ceiling of `log2 n`.
- **Interleaved results.** With `G >= 1`, the interleaved results are a permutation of the sequential ones. They are *equal* to the sequential ones, in query order, when `G == 1` or the array does not have exactly one key. This holds for any array, sorted or not, because both drivers run the same search.
- **One key, several lanes.** In that case no lane ever suspends, and the first pass drains each lane in turn. The results are lane 0's answers, then lane 1's, and so on: exactly `Columns(Expected(keys, values), G, G)`. `ColumnsArePermutation` shows this is still a permutation of the sequential results.
- **Negative capacity.** Both drivers set `res.Capacity = V` first. A negative `V` is rejected before any search runs, and the model returns `None`.

Several specification functions have no contract of their own. The contracts above are stated in terms of them:

- `Expected(keys, values)` is the sequential driver's result list: the answer to each query, in query order (Program.cs:37-50).
- `Column(answers, G, c)` is what the lane starting at query `c` appends when it runs all of its queries: the answers to `c, c + G, c + 2G, ...` (Program.cs:99-116).
- `Columns(answers, G, k)` is lanes `0 .. k - 1` run to completion one after another.
- `LiveCount(tasks)` is the number of non-empty slots. It is the driver's decreasing `G` (Program.cs:126-135).

Keys and query values are read-only for a whole batch, so they are modelled as sequences (`keys`, `values`). Integers are unbounded.

## Model

| member | source | states |
|---|---|---|
| BinarySearch.LowerBound | Program.cs:39-50 | The lower bound is at most the array length. Every key before it is below the query, and the key at it, if any, is at least the query. |
| BinarySearch.Steps | Program.cs:41-46 | The number of search iterations on a window of `n` candidates is zero exactly when `n <= 1`. |
| BinarySearch.StepsIsCeilLog2 | Program.cs:41-46 | The iteration count is the ceiling of `log2 n`: `n <= 2^Steps(n)`, and `2^(Steps(n)-1) < n` for `n >= 2`. |
| BinarySearch.SearchFrom | Program.cs:41-49 | The loop and the fix-up, started on a window `(low, size)` inside the array, return an index in `[low, low + size]`. |
| BinarySearch.Answer | Program.cs:39-49 | A complete search returns an index in `[0, |keys|]`, so the result of an empty array is 0. |
| BinarySearch.BelowLowerBound | Program.cs:45 | On a sorted array, a probed key below the query lies before the lower bound, so moving `low` to the probe keeps the lower bound in the window. |
| BinarySearch.SearchFromFindsLowerBound | Program.cs:41-49 | On a sorted array, a search whose window contains the lower bound ends exactly on it. |
| BinarySearch.AnswerIsLowerBound | Program.cs:39-49 | On a sorted array, a complete search returns the lower bound. |
| BinarySearch.Search | Program.cs:39-49 | One search returns `Answer`, which lies within `[0, |keys|]` and is the lower bound on a sorted array. It does exactly `Steps(|keys|)` probes, every one inside the array. |
| BinarySearch.Sequential | Program.cs:33-52 | A negative capacity `V` is rejected (`res.Capacity`). Otherwise one result is appended per query, in query order. Result `q` is the answer to `values[q]`, and the lower bound of `values[q]` on a sorted array. |
| Interleaving.ResultSink.constructor | Program.cs:123 | A new result list is empty. |
| Interleaving.ResultSink.Add | Program.cs:116 | Appending adds exactly one result at the end. |
| Interleaving.ShiftColumn | Program.cs:99-101 | After prepending a query, lane `c >= 1` takes the queries that lane `c - 1` took before. |
| Interleaving.FirstColumnAfterPrepend | Program.cs:99-101 | After prepending a query, lane 0 takes the new query, then the queries that the last lane took before. |
| Interleaving.ShiftColumns | Program.cs:99-101 | After prepending, the first `k` lanes' results are lane 0's, then those of lanes `0 .. k - 2` from before. |
| Interleaving.ColumnsArePermutation | Program.cs:99-101 | The lanes `0 .. G - 1`, run one after another, produce every answer exactly once: a permutation of the answers in query order. |
| Interleaving.UnitStrideColumn | Program.cs:99-101 | With one lane, the lane's results are all answers in query order. |
| Interleaving.ColumnsOfUniform | Program.cs:99-101 | When every answer is equal, running the lanes one after another gives exactly the answers in query order. |
| Interleaving.Lane.constructor | Program.cs:97-98 | A new enumerator has not started, and its cursor is its first query index. |
| Interleaving.Lane.MoveNext | Program.cs:97-118 | One resumption of the lane's body. It keeps the lane state valid, and returns true exactly when the lane is suspended again. If there are no probes, it runs every remaining query and appends their answers in query order. Otherwise it does one comparison, and the last comparison of a query appends that query's answer and starts the query `stride` later. |
| Interleaving.Lane.Narrow | Program.cs:110-112 | Reading the probe and halving the window keeps the window in the array and its `SearchFrom` equal to the query's answer. It uses up one of the `Steps` comparisons. |
| Interleaving.Lane.Finish | Program.cs:115-116 | The fix-up leaves `low` at what the search of the remaining window of at most one candidate returns, and appends exactly that index to the results. |
| Interleaving.Lane.Resume | Program.cs:110-116 | After the `yield`, the lane suspends again exactly when comparisons remain for this query. Otherwise it appends the query's answer. The cursor is left unchanged, at the query after this one for the lane, where `BeginQuery` already moved it. |
| Interleaving.Lane.BeginQuery | Program.cs:99-109 | Starting a query advances the cursor by the stride. The lane suspends exactly when a search needs a probe; otherwise it appends the answer at once. |
| Interleaving.Lane.RunQueries | Program.cs:99-117 | The outer loop from the cursor either suspends at the first probe of the next query, or, with no probes needed, appends the answers of every remaining query of the lane and finishes. |
| Interleaving.AllLive | Program.cs:125-126 | When every slot holds a lane, the live count is the number of slots. |
| Interleaving.NoneLive | Program.cs:127 | A live count of zero means every slot is empty, so the driver's loop ends only when all lanes are done. |
| Interleaving.SomeLive | Program.cs:127 | A positive live count means some slot still holds a lane. |
| Interleaving.RetireOne | Program.cs:134-135 | Emptying a live slot lowers the live count by exactly one, matching `G--`. |
| Interleaving.Advance | Program.cs:131-136 | An empty slot is skipped. Otherwise its lane moves one step, and the slot is emptied exactly when the lane reports that it is exhausted. |
| Interleaving.Visit | Program.cs:131-136 | The same step as `Advance`, as seen from the whole array: a proof wrapper with no code of its own. One visit changes only slot `i`. The other slots keep their lanes and their lanes' states. |
| Interleaving.EmittedDuringEnds | Program.cs:129-137 | The results at the start and at the end of a pass match the stage before and after the pass. |
| Interleaving.CreateLanes | Program.cs:125 | Slot `j` of a new array of `G` slots holds a fresh, unstarted lane for the queries `j, j + G, ...`. |
| Interleaving.Pass | Program.cs:129-137 | One pass advances every live slot by one step, in slot order. It moves every slot to the next stage, and the live count stays equal to the number of non-empty slots. |
| Interleaving.DrainedResults | Program.cs:127-138 | Once every slot is empty, the sink holds one answer per query, as a permutation of the sequential results. They are in query order when `G == 1` or the array does not have exactly one key. With exactly one key they are the lanes' columns one after another. |
| Interleaving.DrainedColumns | Program.cs:99-117 | Lanes run to completion one after another append one answer per query, as a permutation of the answers. They are in query order with one lane or an empty array. |
| Interleaving.InterleavedEnumerable | Program.cs:121-139 | A negative capacity `V` or a negative `G` is rejected, and `G == 0` gives no results. For `G >= 1` the driver ends with one result per query, as a permutation of the sequential results. They are equal to the sequential results in order when `G == 1` or the array does not have exactly one key. With exactly one key they are lane 0's answers, then lane 1's, and so on. |

## Left out

- `Impl.Setup` (Program.cs:18-31) generates random test data with `System.Random`. It is not part of the search logic.
- `Prefetch` (Program.cs:54-61) is an unsafe pointer and an SSE prefetch instruction. It is a hint to the memory system with no observable effect, so the model keeps only its position, as a comment where the lane suspends.
- `InterleavedTask` (Program.cs:63-90) hands scheduling to the .NET task runtime (`await Task.Yield()`, `Task.WaitAll`), so its order depends on the runtime and its appends may run on thread-pool threads. Its lane body matches `ManySearches` except that its query loop is bounded by `V` (Program.cs:69) rather than `values.Length` (Program.cs:99).
- `Bench` and `Program.Main` (Program.cs:143-175) are the benchmark harness and the entry point.
- `res.Capacity = V` (Program.cs:36, 124) is modelled only as its rejection of a negative `V`, returned as `None` rather than an exception. Reserving storage has no observable effect.
- `Sequential`'s second parameter `_` (Program.cs:33) and the local `remaining` (Program.cs:126) are never used, so they are not modelled.
- The C# routines throw their result list away. The model returns it, so that its contents can be stated.
- `Sequential` and `InterleavedEnumerable` model the query loop over `values` in `values` order.
  - The C# `foreach` over an `int[]` is that same loop.
  - The `values` array is not written during a batch, so it is a sequence.
- Interleaving.Lane.MoveNext: the lane's cursor `i += G` is an `int` in C#. It could wrap past `int.MaxValue` for query counts near `2^31`, and the model's cursor is unbounded, so it does not model that overflow.
- Interleaving.InterleavedEnumerable: a negative `G` throws `ArgumentOutOfRangeException` in `Enumerable.Range`, and a negative `V` throws the same exception in the `Capacity` setter. The model returns `None` for both rather than modelling the exceptions. The same holds for a negative `V` in `BinarySearch.Sequential`.
- Sortedness is stated as non-decreasing keys. The lower-bound guarantee holds for that weaker condition, so strictly increasing keys are a special case. The interleaved-equals-sequential result does not need sorted keys at all.
- The code has only the lower-bound search. There is no exact-match variant that stops early on an equal key, so none is modelled.
- `G` larger than the number of queries is accepted by the code, and the extra lanes finish at once. The model follows the code and does not reject that input.
