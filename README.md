# Jacinle worker pool and tensor indexing helpers, in Dafny

This project models two parts of Jacinle and proves properties of the models.

The first part is `jacinle.concurrency.pool.Pool`, a process pool with a `map` that chunks its input. The module `WorkerPool` models:

- the dispatcher thread, which numbers the elements of a job, cuts them into chunks, puts the chunks on the task queue and reports the element count;
- the worker, which applies `func` to every element of a chunk and sends back a `RESULT` or an `EXC` message;
- the collector loop of `map`, which reads messages until the count is reached or an exception is reported, then optionally sorts the pairs by index;
- the `start` / `try_start` / `terminate` lifecycle, as a class holding the started flag and the dispatcher queue.

Queues are sequences of the entries put on them. The order in which the result queue receives messages from the workers and the dispatcher is up to the scheduler, so the collector is a function of an arbitrary arrival stream, and `Pool.map` takes that stream as a parameter. `func` is a function to `Outcome`: it either returns a value or raises an error. The stable `list.sort(key=lambda x: x[0])` is the module `StableSort`, a stable insertion sort on (index, value) pairs.

The second part is `jactorch.functional.indexing`. The module `Indexing` models `reversed`, `one_hot`, `one_hot_nd`, `inverse_permutation`, `index_one_hot`, `set_index_one_hot_` and `index_one_hot_ellipsis`. Tensors are a shape plus integer data in row-major order. `view` is the reshaping in module `Layout`. An operation that torch refuses returns `None` or `ok == false`. Examples are an index out of range, a `view` whose sizes do not match, and the `assert` in `index_one_hot_ellipsis`.

`map` is meant to return `func` of every element for every chunk size. As written, the dispatcher resets its chunk after every element, not only after a full chunk. So for `chunksize >= 2` and a non-empty input it puts no chunk on the task queue, and `map` waits for ever. The model follows the code: `WorkerPool.Dispatcher` uses the as-written `DispatchJob`. The intended behaviour is proved about `DispatchJobIntended` (see Findings).

## Model

| member | source | states |
|---|---|---|
| `WorkerPool.Enumerate` | jacinle/concurrency/pool.py:107-108 | pair i of the result is (i, items[i]) and there are exactly as many pairs as items |
| `WorkerPool.DispatchJob` | jacinle/concurrency/pool.py:105-115 | the dispatcher loop as written sends the chunks `WrittenChunks(items, chunksize)` and counts exactly `len(items)` elements |
| `WorkerPool.WrittenChunksSingletons` | jacinle/concurrency/pool.py:105-114 | with `chunksize <= 1`, the as-written dispatcher sends one chunk per element and the chunks concatenate to the numbered input |
| `WorkerPool.ChunksOf` | jacinle/concurrency/pool.py:105-114 | intended chunking: the chunks concatenate back to the input, each is non-empty and at most `size` long, and all but the last are exactly `size` long |
| `WorkerPool.ChunksOfSnoc` | jacinle/concurrency/pool.py:110-114 | appending a non-empty short chunk after a whole number of full chunks appends exactly that chunk |
| `WorkerPool.ChunksOfUnit` | jacinle/concurrency/pool.py:110-111 | with chunk size 1, every element is its own chunk |
| `WorkerPool.DispatchJobIntended` | jacinle/concurrency/pool.py:105-115 | with the chunk reset inside the `if`, the loop sends exactly `ChunksOf(Enumerate(items), max(chunksize, 1))` and counts `len(items)` |
| `WorkerPool.WrittenMatchesIntended` | jacinle/concurrency/pool.py:110-114 | the as-written chunks equal the intended chunks if and only if `chunksize <= 1` or the input is empty |
| `WorkerPool.FirstShutdown` | jacinle/concurrency/pool.py:96-101 | every request before the returned position is a job, and the position holds a `None` unless it is the end of the queue |
| `WorkerPool.FirstShutdownIs` | jacinle/concurrency/pool.py:96-101 | the first `None` is the unique position preceded only by jobs and holding a `None` or the end of the queue |
| `WorkerPool.PutStops` | jacinle/concurrency/pool.py:99-100 | the loop appends exactly `nr_workers` stop entries to the task queue |
| `WorkerPool.Dispatcher` | jacinle/concurrency/pool.py:95-115 | the dispatcher serves the jobs before the first `None` in order, writes their chunks, then one `None` per worker, and stops after taking that `None`; it sends one count per job, equal to the job's length |
| `WorkerPool.JobTasksAreChunks` | jacinle/concurrency/pool.py:111-114 | serving jobs writes only chunks to the task queue, never a stop entry |
| `WorkerPool.ChunkMsg` | jacinle/concurrency/pool.py:85-93 | a chunk gives `RESULT` if and only if `func` returns on every element, with pair k being (index k, `func(value k)`); otherwise it gives `EXC` with the error of the first element that raised |
| `WorkerPool.ChunkMsgFails` | jacinle/concurrency/pool.py:88-93 | if element i is the first to raise, the message is the `EXC` of that error |
| `WorkerPool.ChunkMsgReturns` | jacinle/concurrency/pool.py:86-90 | a chunk on which `func` always returns gives the `RESULT` of its mapped pairs |
| `WorkerPool.RunChunk` | jacinle/concurrency/pool.py:85-93 | the loop over a chunk sends exactly `ChunkMsg(func, chunk)` |
| `WorkerPool.FirstStop` | jacinle/concurrency/pool.py:80-83 | every task before the returned position is a chunk, and the position holds a stop entry unless it is the end of the queue |
| `WorkerPool.Worker` | jacinle/concurrency/pool.py:79-93 | the worker sends one message per chunk before the first `None`, message k being `ChunkMsg` of chunk k, and takes that `None` off the queue |
| `WorkerPool.WorkerStopsAfterJobs` | jacinle/concurrency/pool.py:79-83 | on the queue the dispatcher writes before shutdown, a worker's first stop entry comes right after all the chunks |
| `WorkerPool.RunStep` | jacinle/concurrency/pool.py:124-132 | reading one more message adds its pairs if it is a `RESULT` and replaces the count if it is a `COUNT` |
| `WorkerPool.RunSpec` | jacinle/concurrency/pool.py:121-139 | the collector loop, run from any consistent state, meets the characterization stated for `Collect` |
| `WorkerPool.Collect` | jacinle/concurrency/pool.py:121-139 | the collector stops after the first message that makes it done: an `EXC`, or a count reached by the pairs so far. It has then gathered exactly the pairs read, in arrival order. It reports the `EXC` that stopped it, and when nothing makes it done it reads every message and blocks |
| `WorkerPool.Values` | jacinle/concurrency/pool.py:142 | the result has one value per pair, the second component of that pair |
| `WorkerPool.Mapped` | jacinle/concurrency/pool.py:89 | value i is what `func` returns on element i |
| `WorkerPool.MapPairsAppend` | jacinle/concurrency/pool.py:88-89 | mapping the pairs of a concatenation maps each part |
| `WorkerPool.PayloadsOfChunks` | jacinle/concurrency/pool.py:88-90 | when `func` returns on every element, every chunk gives a `RESULT`, and the pairs of those results in chunk order are the mapped pairs of all the chunks |
| `WorkerPool.PayloadsAppend` | jacinle/concurrency/pool.py:128-132 | the pairs collected from two message streams in sequence are those of the first followed by those of the second |
| `WorkerPool.LastCountAppend` | jacinle/concurrency/pool.py:126-127 | messages that are not counts leave the last count unchanged |
| `WorkerPool.PayloadsGrow` | jacinle/concurrency/pool.py:132 | with non-empty results, a proper prefix of the stream carries fewer pairs than the whole stream |
| `WorkerPool.CountAmongResultsPrefix` | jacinle/concurrency/pool.py:138-139 | with non-empty results and the count equal to their total, no proper prefix of the stream lets the collector stop |
| `WorkerPool.CountAmongResults` | jacinle/concurrency/pool.py:121-139 | with the dispatcher's count arriving anywhere among non-empty results, the collector reads every message, stops on the last one because of the count, and has gathered every pair |
| `WorkerPool.MappedChunks` | jacinle/concurrency/pool.py:88-90 | chunks that concatenate to the numbered input give non-empty results whose pairs are the numbered mapped values |
| `WorkerPool.ValuesOfMapped` | jacinle/concurrency/pool.py:140-142 | sorted or not, the values of the numbered mapped pairs are the mapped input |
| `WorkerPool.IntendedMapReturnsMapped` | jacinle/concurrency/pool.py:117-142 | with the intended dispatcher and a `func` that always returns, with the results arriving in chunk order, `map` ends on the count wherever it arrives among them, and returns `func` of every element in input order, with or without the sort |
| `WorkerPool.WrittenMapReturnsMapped` | jacinle/concurrency/pool.py:117-142 | with the dispatcher as written, `chunksize <= 1` and the results in chunk order, `map` returns `func` of every element in input order |
| `WorkerPool.PayloadsRearranged` | jacinle/concurrency/pool.py:128-132 | results arriving in another order give the same pairs, counted with multiplicity |
| `WorkerPool.RearrangedResults` | jacinle/concurrency/pool.py:121-132 | a reordering of non-empty `RESULT` messages is again made of non-empty `RESULT` messages and carries the same pairs, as many of them |
| `WorkerPool.IntendedMapAnyArrivalOrder` | jacinle/concurrency/pool.py:117-142 | with the intended dispatcher and a `func` that always returns, for results arriving in any order and the count at any position among them, `map` ends on the count and, sorted, returns `func` of every element in input order |
| `WorkerPool.WrittenMapAnyArrivalOrder` | jacinle/concurrency/pool.py:117-142 | the same for the dispatcher as written with `chunksize <= 1` |
| `WorkerPool.PayloadsOfChunksAtMost` | jacinle/concurrency/pool.py:85-93 | the workers send at most one pair per element of the chunks |
| `WorkerPool.PayloadsOfChunksShort` | jacinle/concurrency/pool.py:85-93 | when some chunk gives an `EXC`, the workers send strictly fewer pairs than there are elements |
| `WorkerPool.ChunksShort` | jacinle/concurrency/pool.py:85-93 | when `func` raises on some element, the workers' messages for a chunking of the numbered input hold an `EXC`, no count, and fewer pairs than elements |
| `WorkerPool.CollectFailsShort` | jacinle/concurrency/pool.py:121-139 | on a stream that holds an `EXC`, whose counts all say n and whose results carry fewer than n pairs, the collector fails on the first `EXC` with the pairs of the messages before it |
| `WorkerPool.StreamFails` | jacinle/concurrency/pool.py:121-139 | such messages in any order, with the count n at any point, make the collector fail on the first `EXC`, one of those messages, with fewer than n pairs |
| `WorkerPool.IntendedMapRaises` | jacinle/concurrency/pool.py:117-142 | with the intended dispatcher and a `func` that raises on some element, for results in any order and the count anywhere, `map` stops on the first `EXC` and returns only the pairs that arrived before it, fewer than the elements; the error is one `func` raised on an element |
| `WorkerPool.WrittenMapRaises` | jacinle/concurrency/pool.py:117-142 | the same for the dispatcher as written with `chunksize <= 1` |
| `WorkerPool.WrittenDispatchStalls` | jacinle/concurrency/pool.py:110-115 | with the dispatcher as written, `chunksize >= 2` and a non-empty input, no chunk is sent and the collector, seeing only the count, blocks |
| `WorkerPool.EmptyJobStops` | jacinle/concurrency/pool.py:115-139 | for an empty input the count 0 stops the collector at once with no pairs |
| `WorkerPool.Pool.constructor` | jacinle/concurrency/pool.py:41-53 | a new pool is not started and its dispatcher queue is empty |
| `WorkerPool.Pool.Start` | jacinle/concurrency/pool.py:55-68 | `start` succeeds exactly when the pool was not started, after which it is started; the dispatcher queue is unchanged |
| `WorkerPool.Pool.TryStart` | jacinle/concurrency/pool.py:70-72 | after `try_start` the pool is started, and has been started exactly once |
| `WorkerPool.Pool.Map` | jacinle/concurrency/pool.py:117-142 | `map` starts the pool if needed and queues the job; its loop gathers exactly `Collect(arrivals)`; the callback sees every collected pair in arrival order; the result is the values of the pairs, stably sorted by index when `sort` is true |
| `WorkerPool.Pool.Terminate` | jacinle/concurrency/pool.py:74-75 | on a started pool, `terminate` appends one `None` to the dispatcher queue; on a pool never started it fails and changes nothing |
| `StableSort.InsertSorted` | jacinle/concurrency/pool.py:141 | inserting into a sorted list keeps it sorted |
| `StableSort.InsertWithIndex` | jacinle/concurrency/pool.py:141 | inserting a pair puts it before every pair already present with the same index |
| `StableSort.SortByIndex` | jacinle/concurrency/pool.py:141 | the result is sorted by index, and for every index the pairs with that index keep their order |
| `StableSort.InsertMultiset` | jacinle/concurrency/pool.py:141 | inserting adds exactly that pair to the multiset |
| `StableSort.SortIsPermutation` | jacinle/concurrency/pool.py:141 | the sort is a permutation of its input |
| `StableSort.SortOfSorted` | jacinle/concurrency/pool.py:141 | sorting a list already sorted by index leaves it unchanged |
| `StableSort.SortedDeterminedByIndices` | jacinle/concurrency/pool.py:141 | two sorted lists with the same pairs per index, in the same order, are equal |
| `StableSort.SortRestoresNumbered` | jacinle/concurrency/pool.py:141 | any reordering of pairs numbered 0, 1, 2, … in order sorts back to that numbered list |
| `StableSort.SortIgnoresArrivalOrder` | jacinle/concurrency/pool.py:141 | two arrival orders with the same pairs per index, in the same order, sort to the same list |
| `Layout.FlattenChunks` | jactorch/functional/indexing.py:28-31 | viewing flat data as rows and flattening again gives the data back |
| `Layout.ChunksFlatten` | jactorch/functional/indexing.py:28-31 | flattening rows of equal width and viewing the result as rows gives the rows back |
| `Layout.Flatten3View3` | jactorch/functional/indexing.py:28-31 | viewing flat data as (A, S, R) blocks and flattening again gives the data back |
| `Layout.View3Flatten3` | jactorch/functional/indexing.py:28-31 | flattening (A, S, R) blocks and viewing the result as (A, S, R) gives the blocks back |
| `Indexing.ReverseAxis` | jactorch/functional/indexing.py:27-28 | a dim in [0, ndim) names itself and a dim in [-ndim, 0) counts from the end; a dim >= ndim, or any dim of a 0-dimensional tensor, is refused; a dim below -ndim is not refused: the slice `xsize[dim:]` adds ndim once more, so it names axis 2*ndim + dim, or axis 0 when that is negative |
| `Indexing.ReversedBelowRange` | jactorch/functional/indexing.py:27-28 | as written, for -2*ndim <= dim < -ndim, `reversed(x, dim)` is `reversed(x, dim + ndim)` |
| `Indexing.ReversedDimMinusThree` | jactorch/functional/indexing.py:27-28 | as written, dim -3 on a 2 x 3 tensor is accepted |
| `Indexing.ReversedChecked` | jactorch/functional/indexing.py:24-31 | with torch's range check on dim: the result exists exactly when -ndim <= dim < ndim and the tensor has elements, and then it is the result of `reversed` |
| `Indexing.ReversedCheckedRefusesDimMinusThree` | jactorch/functional/indexing.py:27-28 | with the check, dim -3 on a 2 x 3 tensor is refused |
| `Indexing.Reversed` | jactorch/functional/indexing.py:24-31 | the result exists exactly when dim names an axis and the tensor has elements; it has the shape of the input |
| `Indexing.ReversedAt` | jactorch/functional/indexing.py:28-31 | element (a, k, c) of the result is element (a, S-1-k, c) of the input, viewed as (A, S, R) around the flipped axis |
| `Indexing.ReversedInvolutive` | jactorch/functional/indexing.py:24-31 | reversing twice along the same dim gives back the tensor |
| `Indexing.OneHot` | jactorch/functional/indexing.py:35-40 | the result exists exactly when every index is in [0, C); row i then holds 1 at column index[i] and 0 everywhere else |
| `Indexing.Argmax` | jactorch/functional/indexing.py:35-40 | the first position of the largest entry of a row |
| `Indexing.OneHotArgmax` | jactorch/functional/indexing.py:35-40 | the argmax of row r of the one-hot matrix is index[r] |
| `Indexing.OneHotNd` | jactorch/functional/indexing.py:44-46 | the result exists exactly when every index is in [0, C), and its shape is the index shape followed by C |
| `Indexing.OneHotNdAt` | jactorch/functional/indexing.py:44-46 | entry (p, c) of the flattened result is 1 exactly when c is the p-th index |
| `Indexing.IndexOf` | jactorch/functional/indexing.py:55-59 | the first position holding v, or the length when there is none |
| `Indexing.PermutationOnto` | jactorch/functional/indexing.py:55-59 | every value in [0, n) appears in a permutation of length n |
| `Indexing.InverseIsInverse` | jactorch/functional/indexing.py:55-59 | the inverse is a permutation, and composed with the permutation either way it gives the identity |
| `Indexing.InverseInvolutive` | jactorch/functional/indexing.py:55-59 | the inverse of the inverse is the permutation |
| `Indexing.InversePermutation` | jactorch/functional/indexing.py:55-59 | the scatter `inv[perm[j]] = j` yields the inverse of the permutation |
| `Indexing.DotOneHot` | jactorch/functional/indexing.py:62-64 | the dot product of a row with the one-hot vector of column k is the entry at k |
| `Indexing.IndexOneHot` | jactorch/functional/indexing.py:62-64 | the gather exists exactly when every index is within its row; entry i is then the dot product of row i with the one-hot vector of index[i] |
| `Indexing.Scattered` | jactorch/functional/indexing.py:67-71 | the scatter keeps the sizes and changes no entry other than (r, index[r]) |
| `Indexing.SetIndexOneHot` | jactorch/functional/indexing.py:67-71 | the in-place scatter succeeds exactly when torch accepts it; it then writes the fill value at (r, index[r]) and nothing else, and otherwise leaves the tensor as it was (see Left out) |
| `Indexing.GetAfterSet` | jactorch/functional/indexing.py:62-71 | gathering at the positions just scattered to returns the fill values |
| `Indexing.SetAfterGet` | jactorch/functional/indexing.py:62-71 | scattering back the values just gathered leaves the matrix unchanged |
| `Indexing.IndexOneHotEllipsis` | jactorch/functional/indexing.py:74-82 | as written: a result is valid, has the shape `shape[:dim] + shape[dim+1:]` under Python slicing, and exists only with one index per leading position |
| `Indexing.EllipsisEmptyTrailing` | jactorch/functional/indexing.py:78-81 | when the axes after dim hold no element nothing is gathered and no index is checked: a (2, 3, 0) tensor, dim 1, index [5, 7] gives an empty (2, 0) tensor |
| `Indexing.EllipsisAt` | jactorch/functional/indexing.py:77-82 | entry (p, q) of the result is entry (p, index[p], q) of the (P, K, Q) view |
| `Indexing.EllipsisOnMatrix` | jactorch/functional/indexing.py:62-82 | on a matrix with dim 1, the ellipsis gather is the gather of `index_one_hot` |
| `Indexing.IndexOneHotEllipsisNormalized` | jactorch/functional/indexing.py:74-82 | with a negative dim counted from the end: the result exists exactly when there is one index per leading position and, unless the axes after dim hold no element, every index is in range; its shape drops axis dim |
| `Indexing.EllipsisAgreesExceptLastAxis` | jactorch/functional/indexing.py:76-77 | as written and as intended agree for every dim other than -1 |
| `Indexing.EllipsisLastAxisFails` | jactorch/functional/indexing.py:76-77 | as written, dim -1 on a 2 x 3 tensor is refused |
| `Indexing.EllipsisLastAxisIntended` | jactorch/functional/indexing.py:74-82 | as intended, dim -1 on a 2 x 3 tensor gathers one entry per row |

## Left out

- Processes, threads and blocking queues are not modelled. Each queue is the sequence of entries put on it. The order of messages on the result queue is a parameter, because the scheduler chooses it.
- The queue capacity `nr_workers * 8` and the blocking it causes are left out. So are the dispatcher queue of size 1 and the `join` calls in `terminate`, which only wait.
- `nr_workers=None` meaning `mp.cpu_count()` is not modelled. The caller passes the number of workers.
- `Pool.Map`: `func` is not carried in the queued job. The worker receives it as a parameter, because Dafny cannot compare functions stored in a request.
- `Pool.Map`: the callback is modelled as the log of pairs it is called with, not as arbitrary code.
- `_format_exc`, the `print` in the worker and the `logger.warning` in `map` are left out. The text of an `EXC` message is the raised error itself.
- `TQDMPool`, `default_pool`, `multiprocessing_map` and `tqdm_multiprocessing_map` are not modelled. They are wrappers around `Pool.map`.
- `StableSort.SortByIndex`: Python's `list.sort` is modelled by a stable insertion sort. Only its result is modelled, not its algorithm.
- `one_hot_dim` is not modelled. It is `one_hot_nd` followed by a transpose.
- Data types, devices, `no_grad`, contiguity and autograd are not modelled. Float entries, such as the 0/1 of `one_hot`, are modelled as integers.
- `Indexing.IndexOneHot` and `Indexing.SetIndexOneHot` model `dim = 1` on a matrix only. The general axis of `gather` and `scatter_` is left out. `index_one_hot_ellipsis` covers gathering along an arbitrary axis.
- `Indexing.SetIndexOneHot`: when an index is out of range, torch may already have written some rows before it raises; the model checks every index first and then leaves the tensor unchanged, so it does not promise what a failed call leaves behind.
- `Indexing.InversePermutation` requires a permutation. For other inputs torch's scatter either fails or leaves the choice of writer unspecified.

## Findings

| source | as written | input that shows it | evidently intended | confidence | as-written member | corrected member |
|---|---|---|---|---|---|---|
| jacinle/concurrency/pool.py:112 | `chunk = list()` runs after every element, so a chunk is only sent when one element reaches `chunksize` | `map` with `chunksize=2` on `[1, 2, 3]`: no chunk is sent, only the count 3, and `map` waits for ever | reset the chunk only after sending it, inside the `if` | not executed | `WorkerPool.WrittenDispatchStalls` (with `WorkerPool.DispatchJob`) | `WorkerPool.IntendedMapReturnsMapped` and `WorkerPool.IntendedMapAnyArrivalOrder` (with `WorkerPool.DispatchJobIntended`) |
| jactorch/functional/indexing.py:76-77 | `tensor_shape[:dim]` and `tensor_shape[dim+1:]` use the raw `dim`; with `dim=-1`, `dim+1` is 0 and the second slice is the whole shape | a 2 x 3 tensor, `dim=-1`, index `[0, 2]`: the view asks for 2 x 3 x 6 elements and fails | count a negative `dim` from the end first, as `reversed` does | not executed | `Indexing.EllipsisLastAxisFails` (with `Indexing.IndexOneHotEllipsis`) | `Indexing.EllipsisLastAxisIntended` (with `Indexing.IndexOneHotEllipsisNormalized`) |
| jactorch/functional/indexing.py:27-28 | `dim = x.dim() + dim` is applied once and the result is used as a slice bound, which Python clamps and counts from the end again | a 2 x 3 tensor with `dim=-3`: no error is raised and the last axis is flipped | refuse a dim outside [-ndim, ndim), as torch does for its own dim arguments | not executed | `Indexing.ReversedBelowRange` (with `Indexing.ReverseAxis`) | `Indexing.ReversedChecked` (with `Indexing.ReversedCheckedRefusesDimMinusThree`) |
