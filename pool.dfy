/**
 * The bookkeeping of `jacinle.concurrency.pool.Pool`, without its processes,
 * threads and blocking queues: the dispatcher that numbers and chunks the
 * input of a `map` job, the worker that evaluates a chunk, the collector loop
 * of `map` over the stream of messages that arrive on the result queue, and
 * the started flag of the pool's lifecycle.
 *
 * A queue is a sequence of the entries put on it. The order in which the
 * result queue receives the messages of several workers and of the
 * dispatcher is chosen by the scheduler, so the collector is stated for an
 * arbitrary arrival stream.
 */
module WorkerPool {
  import opened Wrappers
  import opened Layout
  import opened StableSort

  /** What `func(val)` does on one element: return a value or raise. */
  datatype Outcome<W> = Returned(value: W) | Raised(error: string)

  /** A message on the result queue, with the tags of `_ResultType`. */
  datatype Msg<W> = Count(n: nat) | Result(pairs: seq<(int, W)>) | Exc(text: string)

  /** An entry of the task queue: a chunk of numbered elements, or the `None` that stops a worker. */
  datatype Task<V> = Chunk(pairs: seq<(int, V)>) | Stop

  /** An entry of the dispatcher queue: a `map` job, or the `None` put by `terminate`. */
  datatype Request<V> = Job(items: seq<V>, chunksize: int) | Shutdown

  /**
   * How the collector loop of `map` ends: the count was reached, a worker
   * reported an exception, or the stream ran out and the real loop would wait
   * on the result queue for ever.
   */
  datatype Ending = Counted | Failed(text: string) | Blocked

  /** What the collector gathered, and how many messages it read. */
  datatype Collected<W> = Collected(pairs: seq<(int, W)>, consumed: nat, ending: Ending)

  // ---------------------------------------------------------------------
  // Dispatcher
  // ---------------------------------------------------------------------

  /** `enumerate(iterable)` as a list of (index, element) pairs. */
  function Enumerate<V>(items: seq<V>): (r: seq<(int, V)>)
    ensures |r| == |items|
    ensures forall i :: 0 <= i < |items| ==> r[i] == (i, items[i])
  {
    seq(|items|, i requires 0 <= i < |items| => (i, items[i]))
  }

  /**
   * The chunks the dispatcher loop puts on the task queue for one job, as
   * the loop is written: the chunk is emptied after every element, so it
   * reaches `chunksize` only when `chunksize <= 1`.
   */
  function WrittenChunks<V>(items: seq<V>, chunksize: int): seq<seq<(int, V)>>
  {
    if chunksize <= 1 then seq(|items|, i requires 0 <= i < |items| => [(i, items[i])])
    else []
  }

  /**
   * One job of `_task_dispatcher`, as written: returns the chunks put on the
   * task queue and the number carried by the `('count', nr_total)` message.
   */
  method DispatchJob<V>(items: seq<V>, chunksize: int) returns (chunks: seq<seq<(int, V)>>, count: nat)
    ensures count == |items|
    ensures chunks == WrittenChunks(items, chunksize)
  {
    var nrTotal := 0;
    var chunk: seq<(int, V)> := [];
    chunks := [];
    var i := 0;
    while i < |items|
      invariant 0 <= i <= |items| && nrTotal == i && chunk == []
      invariant chunks == WrittenChunks(items[..i], chunksize)
    {
      if chunksize <= 1 {
        var next := WrittenChunks(items[..i + 1], chunksize);
        assert |next| == i + 1;
        assert forall k :: 0 <= k < i ==> next[k] == chunks[k];
        assert next == chunks + [[(i, items[i])]];
        assert [] + [(i, items[i])] == [(i, items[i])];
      }
      chunk := chunk + [(i, items[i])];
      nrTotal := nrTotal + 1;
      if |chunk| >= chunksize {
        chunks := chunks + [chunk];
      }
      chunk := [];
      i := i + 1;
    }
    if |chunk| > 0 {
      chunks := chunks + [chunk];
    }
    assert items[..i] == items;
    count := nrTotal;
  }

  /** With `chunksize <= 1` the dispatcher sends every element alone, numbered by its position. */
  lemma WrittenChunksSingletons<V>(items: seq<V>, chunksize: int)
    requires chunksize <= 1
    ensures |WrittenChunks(items, chunksize)| == |items|
    ensures Flatten(WrittenChunks(items, chunksize)) == Enumerate(items)
  {
    var cs := WrittenChunks(items, chunksize);
    FlattenSingletons(cs);
  }

  /** The chunk size the dispatcher evidently means: `chunksize`, and 1 for anything smaller. */
  function ChunkSize(chunksize: int): (size: nat)
    ensures size >= 1 && (chunksize >= 1 ==> size == chunksize)
  {
    if chunksize <= 1 then 1 else chunksize
  }

  /** s cut into consecutive chunks of `size` elements, the last one possibly shorter. */
  function ChunksOf<T>(s: seq<T>, size: nat): (cs: seq<seq<T>>)
    requires size >= 1
    ensures Flatten(cs) == s
    ensures forall c :: 0 <= c < |cs| ==> 0 < |cs[c]| <= size
    ensures forall c :: 0 <= c < |cs| - 1 ==> |cs[c]| == size
    decreases |s|
  {
    if s == [] then []
    else if |s| <= size then [s]
    else
      var rest := ChunksOf(s[size..], size);
      assert ([s[..size]] + rest)[1..] == rest;
      assert s == s[..size] + s[size..];
      [s[..size]] + rest
  }

  /** A last chunk of at most `size` elements after a whole number of full chunks. */
  lemma {:induction false} ChunksOfSnoc<T>(s: seq<T>, c: seq<T>, size: nat, m: nat)
    requires size >= 1 && |s| == m * size && 0 < |c| <= size
    ensures ChunksOf(s + c, size) == ChunksOf(s, size) + [c]
    decreases m
  {
    if m == 0 {
      assert s + c == c;
    } else {
      MulPred(m, size);
      assert (s + c)[..size] == s[..size];
      assert (s + c)[size..] == s[size..] + c;
      if m == 1 {
        assert s[size..] + c == c;
      } else {
        ChunksOfSnoc(s[size..], c, size, m - 1);
      }
    }
  }

  /** With chunks of one element, the chunking is the sequence of singletons. */
  lemma {:induction false} ChunksOfUnit<T>(s: seq<T>)
    ensures ChunksOf(s, 1) == seq(|s|, i requires 0 <= i < |s| => [s[i]])
  {
    var t := seq(|s|, i requires 0 <= i < |s| => [s[i]]);
    if |s| > 1 {
      ChunksOfUnit(s[1..]);
      assert s[..1] == [s[0]];
      var r := ChunksOf(s, 1);
      assert r == [[s[0]]] + ChunksOf(s[1..], 1);
      assert |r| == |t|;
      assert forall i :: 0 <= i < |s| ==> r[i] == t[i];
    } else if |s| == 1 {
      assert s == [s[0]];
      assert t == [[s[0]]];
    }
  }

  /** The step of the intended dispatcher loop that sends a full chunk. */
  lemma FullChunk<T>(all: seq<T>, done: nat, next: nat, size: nat, full: nat)
    requires size >= 1 && done == full * size && done < next <= |all| && next - done == size
    ensures next == (full + 1) * size
    ensures ChunksOf(all[..next], size) == ChunksOf(all[..done], size) + [all[done..next]]
  {
    MulPred(full + 1, size);
    assert all[..next] == all[..done] + all[done..next];
    ChunksOfSnoc(all[..done], all[done..next], size, full);
  }

  /** The step of the intended dispatcher loop that adds one element to the open chunk. */
  lemma IntendedStep<V>(all: seq<(int, V)>, done: nat, i: nat, size: nat, chunk: seq<(int, V)>)
    requires done <= i < |all| && chunk == all[done..i] && |chunk| < size
    requires all[i].0 == i
    ensures all[done..i + 1] == chunk + [(i, all[i].1)]
    ensures 0 < |chunk + [(i, all[i].1)]| <= size
  {
    assert all[i] == (i, all[i].1);
  }

  /**
   * The state of the intended dispatcher loop after the first i pairs of all:
   * `full` chunks of `size` pairs have gone out and the rest is the open chunk.
   */
  ghost predicate Filling<V>(all: seq<(int, V)>, size: nat, i: nat, done: nat, full: nat,
                             chunk: seq<(int, V)>, chunks: seq<seq<(int, V)>>)
  {
    size >= 1 && done <= i <= |all| && done == full * size && |chunk| < size
    && chunk == all[done..i] && chunks == ChunksOf(all[..done], size)
  }

  /** Adding pair i to the open chunk, and sending it out when it is full, keeps `Filling`. */
  lemma FillingStep<V>(all: seq<(int, V)>, chunksize: int, i: nat, done: nat, full: nat,
                       chunk: seq<(int, V)>, chunks: seq<seq<(int, V)>>)
    requires Filling(all, ChunkSize(chunksize), i, done, full, chunk, chunks) && i < |all| && all[i].0 == i
    ensures var chunk' := chunk + [(i, all[i].1)];
      if |chunk'| >= chunksize
      then Filling(all, ChunkSize(chunksize), i + 1, i + 1, full + 1, [], chunks + [chunk'])
      else Filling(all, ChunkSize(chunksize), i + 1, done, full, chunk', chunks)
  {
    var size := ChunkSize(chunksize);
    IntendedStep(all, done, i, size, chunk);
    var chunk' := chunk + [(i, all[i].1)];
    if |chunk'| >= chunksize {
      assert |chunk'| == size;
      FullChunk(all, done, i + 1, size, full);
    }
  }

  /** At the end of the input, the open chunk, if any, is the last one. */
  lemma FillingDone<V>(all: seq<(int, V)>, size: nat, done: nat, full: nat,
                       chunk: seq<(int, V)>, chunks: seq<seq<(int, V)>>)
    requires Filling(all, size, |all|, done, full, chunk, chunks)
    ensures (if |chunk| > 0 then chunks + [chunk] else chunks) == ChunksOf(all, size)
  {
    if |chunk| > 0 {
      assert all == all[..done] + chunk;
      ChunksOfSnoc(all[..done], chunk, size, full);
    } else {
      assert all[..done] == all;
    }
  }

  /**
   * The dispatcher loop with `chunk = list()` inside the `if`: full chunks go
   * out as they fill, and the trailing partial chunk after the loop.
   */
  method DispatchJobIntended<V>(items: seq<V>, chunksize: int) returns (chunks: seq<seq<(int, V)>>, count: nat)
    ensures count == |items|
    ensures chunks == ChunksOf(Enumerate(items), ChunkSize(chunksize))
  {
    ghost var all := Enumerate(items);
    var nrTotal := 0;
    var chunk: seq<(int, V)> := [];
    chunks := [];
    ghost var done := 0;
    ghost var full := 0;
    var i := 0;
    while i < |items|
      invariant i <= |items| && nrTotal == i
      invariant Filling(all, ChunkSize(chunksize), i, done, full, chunk, chunks)
    {
      FillingStep(all, chunksize, i, done, full, chunk, chunks);
      assert all[i].1 == items[i];
      chunk := chunk + [(i, items[i])];
      nrTotal := nrTotal + 1;
      if |chunk| >= chunksize {
        chunks := chunks + [chunk];
        chunk := [];
        done := i + 1;
        full := full + 1;
      }
      i := i + 1;
    }
    FillingDone(all, ChunkSize(chunksize), done, full, chunk, chunks);
    if |chunk| > 0 {
      chunks := chunks + [chunk];
    }
    count := nrTotal;
  }

  /**
   * The dispatcher as written agrees with the intended chunking exactly when
   * `chunksize <= 1` or the input is empty.
   */
  lemma WrittenMatchesIntended<V>(items: seq<V>, chunksize: int)
    ensures WrittenChunks(items, chunksize) == ChunksOf(Enumerate(items), ChunkSize(chunksize))
        <==> chunksize <= 1 || items == []
  {
    var e := Enumerate(items);
    if chunksize <= 1 {
      ChunksOfUnit(e);
    } else if items != [] {
      assert Flatten(ChunksOf(e, ChunkSize(chunksize))) != [];
    }
  }

  /** The task queue entries for a list of chunks. */
  function AsTasks<V>(cs: seq<seq<(int, V)>>): (ts: seq<Task<V>>)
    ensures |ts| == |cs| && forall k :: 0 <= k < |cs| ==> ts[k] == Chunk(cs[k])
  {
    seq(|cs|, k requires 0 <= k < |cs| => Chunk(cs[k]))
  }

  /** `nr_workers` copies of the `None` that stops a worker. */
  function Stops<V>(n: nat): (ts: seq<Task<V>>)
    ensures |ts| == n && forall k :: 0 <= k < n ==> ts[k] == Stop
  {
    seq(n, k => Stop)
  }

  /** Position of the first `None` on the dispatcher queue, or its length if there is none. */
  function FirstShutdown<V>(reqs: seq<Request<V>>): (n: nat)
    ensures n <= |reqs|
    ensures forall k :: 0 <= k < n ==> reqs[k].Job?
    ensures n < |reqs| ==> reqs[n].Shutdown?
  {
    if reqs == [] || reqs[0].Shutdown? then 0 else 1 + FirstShutdown(reqs[1..])
  }

  /** The task queue entries the dispatcher writes for a sequence of jobs. */
  function JobTasks<V>(jobs: seq<Request<V>>): seq<Task<V>>
  {
    if jobs == [] then []
    else
      var last := jobs[|jobs| - 1];
      JobTasks(jobs[..|jobs| - 1])
        + (if last.Job? then AsTasks(WrittenChunks(last.items, last.chunksize)) else [])
  }

  /** `for i in range(nr_workers): task_queue.put(None)`. */
  method PutStops<V>(tasks: seq<Task<V>>, nrWorkers: nat) returns (tasks': seq<Task<V>>)
    ensures tasks' == tasks + Stops(nrWorkers)
  {
    tasks' := tasks;
    var i := 0;
    while i < nrWorkers
      invariant 0 <= i <= nrWorkers
      invariant tasks' == tasks + Stops(i)
    {
      assert Stops<V>(i + 1) == Stops(i) + [Stop];
      tasks' := tasks' + [Stop];
      i := i + 1;
    }
  }

  lemma JobTasksStep<V>(reqs: seq<Request<V>>, taken: nat)
    requires taken < |reqs| && reqs[taken].Job?
    ensures JobTasks(reqs[..taken + 1])
         == JobTasks(reqs[..taken]) + AsTasks(WrittenChunks(reqs[taken].items, reqs[taken].chunksize))
  {
    var pre := reqs[..taken + 1];
    assert pre[..|pre| - 1] == reqs[..taken];
    assert pre[|pre| - 1] == reqs[taken];
  }

  /** The dispatcher has served the first `taken` requests, all of them jobs. */
  ghost predicate Served<V>(reqs: seq<Request<V>>, taken: nat, tasks: seq<Task<V>>, counts: seq<nat>)
  {
    taken <= FirstShutdown(reqs)
    && tasks == JobTasks(reqs[..taken])
    && |counts| == taken
    && forall k :: 0 <= k < taken ==> counts[k] == |reqs[k].items|
  }

  lemma ServedJob<V>(reqs: seq<Request<V>>, taken: nat, tasks: seq<Task<V>>, counts: seq<nat>,
                     chunks: seq<seq<(int, V)>>, count: nat)
    requires Served(reqs, taken, tasks, counts) && taken < |reqs| && reqs[taken].Job?
    requires chunks == WrittenChunks(reqs[taken].items, reqs[taken].chunksize) && count == |reqs[taken].items|
    ensures Served(reqs, taken + 1, tasks + AsTasks(chunks), counts + [count])
  {
    JobTasksStep(reqs, taken);
  }

  /** The dispatcher's result when it stops on the `None` at `n`, or at the end of its queue. */
  lemma ServedAll<V>(reqs: seq<Request<V>>, n: nat, tasks: seq<Task<V>>, counts: seq<nat>)
    requires Served(reqs, n, tasks, counts) && (n == |reqs| || reqs[n].Shutdown?)
    ensures n == FirstShutdown(reqs)
    ensures tasks == JobTasks(reqs[..FirstShutdown(reqs)])
    ensures |counts| == FirstShutdown(reqs)
    ensures forall k :: 0 <= k < |counts| ==> reqs[k].Job? && counts[k] == |reqs[k].items|
  {
  }

  /**
   * `_task_dispatcher`: serves the jobs on the dispatcher queue in order and,
   * at the first `None`, puts one `None` per worker on the task queue and
   * stops. Returns the task queue, the counts it sent and how many requests
   * it took off its queue.
   */
  method Dispatcher<V>(reqs: seq<Request<V>>, nrWorkers: nat) returns (tasks: seq<Task<V>>, counts: seq<nat>, taken: nat)
    ensures taken == (if FirstShutdown(reqs) < |reqs| then FirstShutdown(reqs) + 1 else |reqs|)
    ensures tasks == JobTasks(reqs[..FirstShutdown(reqs)])
                     + (if FirstShutdown(reqs) < |reqs| then Stops(nrWorkers) else [])
    ensures |counts| == FirstShutdown(reqs)
    ensures forall k :: 0 <= k < |counts| ==> reqs[k].Job? && counts[k] == |reqs[k].items|
  {
    tasks := [];
    counts := [];
    taken := 0;
    while taken < |reqs|
      invariant taken <= |reqs| && Served(reqs, taken, tasks, counts)
    {
      var req := reqs[taken];
      if req.Shutdown? {
        ServedAll(reqs, taken, tasks, counts);
        tasks := PutStops(tasks, nrWorkers);
        taken := taken + 1;
        return;
      }
      var chunks, count := DispatchJob(req.items, req.chunksize);
      ServedJob(reqs, taken, tasks, counts, chunks, count);
      tasks := tasks + AsTasks(chunks);
      counts := counts + [count];
      taken := taken + 1;
    }
    ServedAll(reqs, taken, tasks, counts);
  }

  /** The first `None` is at n when every request before n is a job and n holds a `None` or is the end. */
  lemma {:induction false} FirstShutdownIs<V>(reqs: seq<Request<V>>, n: nat)
    requires n <= |reqs| && forall k :: 0 <= k < n ==> reqs[k].Job?
    requires n < |reqs| ==> reqs[n].Shutdown?
    ensures FirstShutdown(reqs) == n
    decreases n
  {
    if n > 0 {
      assert reqs[0].Job?;
      FirstShutdownIs(reqs[1..], n - 1);
    }
  }

  /** Every entry the dispatcher writes for jobs is a chunk; the `None`s come only at shutdown. */
  lemma {:induction false} JobTasksAreChunks<V>(jobs: seq<Request<V>>)
    ensures forall k :: 0 <= k < |JobTasks(jobs)| ==> JobTasks(jobs)[k].Chunk?
  {
    if jobs != [] {
      JobTasksAreChunks(jobs[..|jobs| - 1]);
    }
  }

  // ---------------------------------------------------------------------
  // Worker
  // ---------------------------------------------------------------------

  /**
   * The message a worker sends for one chunk: every index paired with `func`
   * of its value, in the chunk's order, or, if `func` raises on some element,
   * only the exception of the first element that raises.
   */
  function ChunkMsg<V, W>(f: V -> Outcome<W>, chunk: seq<(int, V)>): (m: Msg<W>)
    ensures m.Result? || m.Exc?
    ensures m.Result? <==> forall k :: 0 <= k < |chunk| ==> f(chunk[k].1).Returned?
    ensures m.Result? ==> |m.pairs| == |chunk|
    ensures m.Result? ==> forall k :: 0 <= k < |chunk| ==> m.pairs[k] == (chunk[k].0, f(chunk[k].1).value)
    ensures m.Exc? ==> exists k :: 0 <= k < |chunk| && f(chunk[k].1) == Raised(m.text)
                                   && forall j :: 0 <= j < k ==> f(chunk[j].1).Returned?
    decreases |chunk|
  {
    if chunk == [] then Result([])
    else
      match f(chunk[0].1)
      case Raised(e) => Exc(e)
      case Returned(w) =>
        var rest := ChunkMsg(f, chunk[1..]);
        if rest.Exc? then
          ghost var k :| 0 <= k < |chunk| - 1 && f(chunk[1..][k].1) == Raised(rest.text)
                         && forall j :: 0 <= j < k ==> f(chunk[1..][j].1).Returned?;
          assert f(chunk[k + 1].1) == Raised(rest.text);
          rest
        else
          Result([(chunk[0].0, w)] + rest.pairs)
  }

  /** The first element on which `func` raises decides the worker's message. */
  lemma {:induction false} ChunkMsgFails<V, W>(f: V -> Outcome<W>, chunk: seq<(int, V)>, i: nat)
    requires i < |chunk| && f(chunk[i].1).Raised?
    requires forall k :: 0 <= k < i ==> f(chunk[k].1).Returned?
    ensures ChunkMsg(f, chunk) == Exc(f(chunk[i].1).error)
  {
    if i > 0 {
      ChunkMsgFails(f, chunk[1..], i - 1);
    }
  }

  /** The body of the worker loop for one chunk. */
  method RunChunk<V, W>(f: V -> Outcome<W>, chunk: seq<(int, V)>) returns (m: Msg<W>)
    ensures m == ChunkMsg(f, chunk)
  {
    var result: seq<(int, W)> := [];
    var i := 0;
    while i < |chunk|
      invariant 0 <= i <= |chunk|
      invariant forall k :: 0 <= k < i ==> f(chunk[k].1).Returned?
      invariant |result| == i
      invariant forall k :: 0 <= k < i ==> result[k] == (chunk[k].0, f(chunk[k].1).value)
    {
      var out := f(chunk[i].1);
      if out.Raised? {
        ChunkMsgFails(f, chunk, i);
        return Exc(out.error);
      }
      result := result + [(chunk[i].0, out.value)];
      i := i + 1;
    }
    m := Result(result);
    assert ChunkMsg(f, chunk).pairs == result;
  }

  /** Position of the first `None` on a task queue, or its length if there is none. */
  function FirstStop<V>(tasks: seq<Task<V>>): (n: nat)
    ensures n <= |tasks|
    ensures forall k :: 0 <= k < n ==> tasks[k].Chunk?
    ensures n < |tasks| ==> tasks[n].Stop?
  {
    if tasks == [] || tasks[0].Stop? then 0 else 1 + FirstStop(tasks[1..])
  }

  /**
   * `_worker`: takes tasks off the queue until the first `None`, sending one
   * message per chunk. Returns the messages sent and the number of tasks taken.
   */
  method Worker<V, W>(f: V -> Outcome<W>, tasks: seq<Task<V>>) returns (sent: seq<Msg<W>>, taken: nat)
    ensures taken == (if FirstStop(tasks) < |tasks| then FirstStop(tasks) + 1 else |tasks|)
    ensures |sent| == FirstStop(tasks)
    ensures forall k :: 0 <= k < |sent| ==> sent[k] == ChunkMsg(f, tasks[k].pairs)
  {
    sent := [];
    taken := 0;
    while taken < |tasks|
      invariant taken <= |tasks|
      invariant forall k :: 0 <= k < taken ==> tasks[k].Chunk?
      invariant |sent| == taken
      invariant forall k :: 0 <= k < taken ==> sent[k] == ChunkMsg(f, tasks[k].pairs)
    {
      var task := tasks[taken];
      if task.Stop? {
        taken := taken + 1;
        return;
      }
      var m := RunChunk(f, task.pairs);
      sent := sent + [m];
      taken := taken + 1;
    }
  }

  /**
   * A worker reading what the dispatcher wrote, with at least one worker,
   * serves every chunk and stops at the first `None` after them.
   */
  lemma WorkerStopsAfterJobs<V>(jobs: seq<Request<V>>, nrWorkers: nat)
    requires nrWorkers >= 1
    ensures FirstStop(JobTasks(jobs) + Stops(nrWorkers)) == |JobTasks(jobs)|
  {
    JobTasksAreChunks(jobs);
    var ts := JobTasks(jobs) + Stops(nrWorkers);
    assert ts[|JobTasks(jobs)|] == Stop;
  }

  // ---------------------------------------------------------------------
  // Collector
  // ---------------------------------------------------------------------

  /** The pairs of all `RESULT` messages of ms, in arrival order. */
  function Payloads<W>(ms: seq<Msg<W>>): seq<(int, W)>
  {
    if ms == [] then []
    else Payloads(ms[..|ms| - 1]) + (if ms[|ms| - 1].Result? then ms[|ms| - 1].pairs else [])
  }

  /** The number of the latest `COUNT` message of ms, if any. */
  function LastCount<W>(ms: seq<Msg<W>>): Option<nat>
  {
    if ms == [] then None
    else if ms[|ms| - 1].Count? then Some(ms[|ms| - 1].n)
    else LastCount(ms[..|ms| - 1])
  }

  /**
   * The collector leaves its loop right after reading the messages ms: the
   * last one is an `EXC`, or a count has arrived and at least that many
   * pairs have been collected.
   */
  predicate Done<W>(ms: seq<Msg<W>>)
  {
    ms != []
    && (ms[|ms| - 1].Exc? || (LastCount(ms).Some? && |Payloads(ms)| >= LastCount(ms).value))
  }

  /** The collector loop from message `used` on, with the pairs and count gathered so far. */
  function Run<W>(ms: seq<Msg<W>>, used: nat, acc: seq<(int, W)>, total: Option<nat>): Collected<W>
    requires used <= |ms|
    decreases |ms| - used
  {
    if used == |ms| then Collected(acc, used, Blocked)
    else
      var m := ms[used];
      var acc' := if m.Result? then acc + m.pairs else acc;
      var total' := if m.Count? then Some(m.n) else total;
      if m.Exc? then Collected(acc, used + 1, Failed(m.text))
      else if total'.Some? && |acc'| >= total'.value then Collected(acc', used + 1, Counted)
      else Run(ms, used + 1, acc', total')
  }

  /** Reading one more message updates the pairs, the count and the stop test as `Run` does. */
  lemma RunStep<W>(ms: seq<Msg<W>>, used: nat)
    requires used < |ms|
    ensures var m := ms[used];
      Payloads(ms[..used + 1]) == Payloads(ms[..used]) + (if m.Result? then m.pairs else [])
      && LastCount(ms[..used + 1]) == (if m.Count? then Some(m.n) else LastCount(ms[..used]))
  {
    var next := ms[..used + 1];
    assert next[..used] == ms[..used];
    assert next[used] == ms[used];
  }

  /** `Run` from a consistent state meets the characterization of the collector. */
  ghost predicate Characterizes<W>(ms: seq<Msg<W>>, c: Collected<W>)
  {
    c.consumed <= |ms|
    && c.pairs == Payloads(ms[..c.consumed])
    && (forall j :: 0 < j < c.consumed ==> !Done(ms[..j]))
    && (c.ending.Blocked? ==> c.consumed == |ms| && !Done(ms))
    && (!c.ending.Blocked? ==> Done(ms[..c.consumed]))
    && (c.ending.Failed? ==> 0 < c.consumed && ms[c.consumed - 1] == Exc(c.ending.text))
    && (c.ending.Counted? ==> 0 < c.consumed && !ms[c.consumed - 1].Exc?)
  }

  lemma {:induction false} RunSpec<W>(ms: seq<Msg<W>>, used: nat, acc: seq<(int, W)>, total: Option<nat>)
    requires used <= |ms|
    requires acc == Payloads(ms[..used]) && total == LastCount(ms[..used])
    requires forall j :: 0 < j <= used ==> !Done(ms[..j])
    ensures used <= Run(ms, used, acc, total).consumed
    ensures Characterizes(ms, Run(ms, used, acc, total))
    decreases |ms| - used
  {
    if used == |ms| {
      assert ms[..used] == ms;
    } else {
      RunStep(ms, used);
      var m := ms[used];
      var acc' := if m.Result? then acc + m.pairs else acc;
      var total' := if m.Count? then Some(m.n) else total;
      if m.Exc? {
        StopAt(ms, used, Collected(acc, used + 1, Failed(m.text)));
      } else if total'.Some? && |acc'| >= total'.value {
        StopAt(ms, used, Collected(acc', used + 1, Counted));
      } else {
        assert !Done(ms[..used + 1]);
        RunSpec(ms, used + 1, acc', total');
        assert Run(ms, used, acc, total) == Run(ms, used + 1, acc', total');
      }
    }
  }

  /** A collector that stops on message `used`, the first after which it is done. */
  lemma StopAt<W>(ms: seq<Msg<W>>, used: nat, c: Collected<W>)
    requires used < |ms| && c.consumed == used + 1
    requires c.pairs == Payloads(ms[..used + 1])
    requires forall j :: 0 < j <= used ==> !Done(ms[..j])
    requires Done(ms[..used + 1]) && !c.ending.Blocked?
    requires c.ending.Failed? ==> ms[used] == Exc(c.ending.text)
    requires c.ending.Counted? ==> !ms[used].Exc?
    ensures Characterizes(ms, c)
  {
  }

  /**
   * The collector loop of `map` over the arrival stream ms: it reads messages
   * until the first one after which it is `Done`, has gathered exactly the
   * `RESULT` pairs read so far, and reports an `EXC` when that is what
   * stopped it; if no message makes it done it reads them all and blocks.
   */
  function Collect<W>(ms: seq<Msg<W>>): (c: Collected<W>)
    ensures c.consumed <= |ms|
    ensures c.pairs == Payloads(ms[..c.consumed])
    ensures forall j :: 0 < j < c.consumed ==> !Done(ms[..j])
    ensures c.ending.Blocked? ==> c.consumed == |ms| && !Done(ms)
    ensures !c.ending.Blocked? ==> Done(ms[..c.consumed])
    ensures c.ending.Failed? ==> 0 < c.consumed && ms[c.consumed - 1] == Exc(c.ending.text)
    ensures c.ending.Counted? ==> 0 < c.consumed && !ms[c.consumed - 1].Exc?
  {
    RunSpec(ms, 0, [], None);
    var c := Run(ms, 0, [], None);
    assert Characterizes(ms, c);
    c
  }

  lemma CollectIsRun<W>(ms: seq<Msg<W>>)
    ensures Collect(ms) == Run(ms, 0, [], None)
  {
  }

  /** For an empty input the dispatcher's `count` is 0, and the collector stops on it with no pairs. */
  lemma EmptyJobStops<W>(rest: seq<Msg<W>>)
    ensures Collect([Count(0)] + rest) == Collected([], 1, Counted)
  {
  }

  /** `[r[1] for r in all_result]`. */
  function Values<W>(pairs: seq<(int, W)>): (vs: seq<W>)
    ensures |vs| == |pairs| && forall k :: 0 <= k < |pairs| ==> vs[k] == pairs[k].1
  {
    seq(|pairs|, k requires 0 <= k < |pairs| => pairs[k].1)
  }

  // ---------------------------------------------------------------------
  // A whole `map` call
  // ---------------------------------------------------------------------

  /** `func` succeeds on every element. */
  predicate AllReturn<V, W>(f: V -> Outcome<W>, items: seq<V>)
  {
    forall i :: 0 <= i < |items| ==> f(items[i]).Returned?
  }

  /** `[func(x) for x in items]` when `func` never raises. */
  function Mapped<V, W>(f: V -> Outcome<W>, items: seq<V>): (ws: seq<W>)
    requires AllReturn(f, items)
    ensures |ws| == |items| && forall i :: 0 <= i < |items| ==> ws[i] == f(items[i]).value
  {
    seq(|items|, i requires 0 <= i < |items| => f(items[i]).value)
  }

  /** The messages workers send for the chunks cs, in the order of the chunks. */
  function ChunkMsgs<V, W>(f: V -> Outcome<W>, cs: seq<seq<(int, V)>>): (ms: seq<Msg<W>>)
    ensures |ms| == |cs| && forall j :: 0 <= j < |cs| ==> ms[j] == ChunkMsg(f, cs[j])
  {
    seq(|cs|, j requires 0 <= j < |cs| => ChunkMsg(f, cs[j]))
  }

  /** `func` succeeds on the value of every pair of the chunk. */
  predicate PairsReturn<V, W>(f: V -> Outcome<W>, chunk: seq<(int, V)>)
  {
    forall k :: 0 <= k < |chunk| ==> f(chunk[k].1).Returned?
  }

  /** A chunk with `func` applied to its values, indices kept. */
  function MapPairs<V, W>(f: V -> Outcome<W>, chunk: seq<(int, V)>): (r: seq<(int, W)>)
    requires PairsReturn(f, chunk)
    ensures |r| == |chunk| && forall k :: 0 <= k < |chunk| ==> r[k] == (chunk[k].0, f(chunk[k].1).value)
  {
    seq(|chunk|, k requires 0 <= k < |chunk| => (chunk[k].0, f(chunk[k].1).value))
  }

  lemma MapPairsAppend<V, W>(f: V -> Outcome<W>, a: seq<(int, V)>, b: seq<(int, V)>)
    requires PairsReturn(f, a + b)
    ensures PairsReturn(f, a) && PairsReturn(f, b)
    ensures MapPairs(f, a + b) == MapPairs(f, a) + MapPairs(f, b)
  {
    assert forall k :: 0 <= k < |a| ==> (a + b)[k] == a[k];
    assert forall k :: 0 <= k < |b| ==> (a + b)[|a| + k] == b[k];
  }

  /** The pairs of the result messages of several chunks, read in chunk order. */
  lemma {:induction false} PayloadsOfChunks<V, W>(f: V -> Outcome<W>, cs: seq<seq<(int, V)>>)
    requires PairsReturn(f, Flatten(cs))
    ensures forall j :: 0 <= j < |cs| ==> ChunkMsg(f, cs[j]).Result?
    ensures Payloads(ChunkMsgs(f, cs)) == MapPairs(f, Flatten(cs))
    decreases |cs|
  {
    if cs != [] {
      var init := cs[..|cs| - 1];
      var last := cs[|cs| - 1];
      assert cs == init + [last];
      FlattenAppend(init, [last]);
      assert Flatten([last]) == last;
      MapPairsAppend(f, Flatten(init), last);
      PayloadsOfChunks(f, init);
      ChunkMsgReturns(f, last);
      ChunkMsgsPayloadsSnoc(f, init, last);
      forall j | 0 <= j < |cs| ensures ChunkMsg(f, cs[j]).Result? {
        if j < |init| {
          assert cs[j] == init[j];
        }
      }
    }
  }

  /** A chunk on which `func` always succeeds gives the `RESULT` of its mapped pairs. */
  lemma ChunkMsgReturns<V, W>(f: V -> Outcome<W>, chunk: seq<(int, V)>)
    requires PairsReturn(f, chunk)
    ensures ChunkMsg(f, chunk) == Result(MapPairs(f, chunk))
  {
    var m := ChunkMsg(f, chunk);
    assert m.pairs == MapPairs(f, chunk);
  }

  lemma {:induction false} PayloadsAppend<W>(a: seq<Msg<W>>, b: seq<Msg<W>>)
    ensures Payloads(a + b) == Payloads(a) + Payloads(b)
    decreases |b|
  {
    if b == [] {
      assert a + b == a;
    } else {
      var b' := b[..|b| - 1];
      assert (a + b)[..|a + b| - 1] == a + b';
      PayloadsAppend(a, b');
    }
  }

  lemma {:induction false} LastCountAppend<W>(a: seq<Msg<W>>, b: seq<Msg<W>>)
    requires forall i :: 0 <= i < |b| ==> !b[i].Count?
    ensures LastCount(a + b) == LastCount(a)
    decreases |b|
  {
    if b == [] {
      assert a + b == a;
    } else {
      var b' := b[..|b| - 1];
      assert (a + b)[..|a + b| - 1] == a + b';
      LastCountAppend(a, b');
    }
  }

  /** Every message is a `RESULT` with at least one pair. */
  predicate NonEmptyResults<W>(ms: seq<Msg<W>>)
  {
    forall i :: 0 <= i < |ms| ==> ms[i].Result? && ms[i].pairs != []
  }

  lemma PayloadsGrow<W>(ms: seq<Msg<W>>, u: nat)
    requires NonEmptyResults(ms) && u < |ms|
    ensures |Payloads(ms[..u])| < |Payloads(ms)|
  {
    assert ms == ms[..u] + ([ms[u]] + ms[u + 1..]);
    PayloadsAppend(ms[..u], [ms[u]] + ms[u + 1..]);
    PayloadsAppend([ms[u]], ms[u + 1..]);
    assert [ms[u]][..0] == [];
  }

  /** No proper prefix of the stream, count included, lets the collector stop. */
  lemma CountAmongResultsPrefix<W>(ms: seq<Msg<W>>, p: nat, j: nat)
    requires NonEmptyResults(ms) && p <= |ms|
    requires 0 < j <= |ms|
    ensures !Done((ms[..p] + [Count(|Payloads(ms)|)] + ms[p..])[..j])
  {
    if j <= p {
      BeforeCountNotDone(ms, p, |Payloads(ms)|, j);
    } else {
      AfterCountNotDone(ms, p, j);
    }
  }

  /** Before the count arrives the collector cannot stop on results alone. */
  lemma BeforeCountNotDone<W>(ms: seq<Msg<W>>, p: nat, L: nat, j: nat)
    requires NonEmptyResults(ms) && 0 < j <= p <= |ms|
    ensures !Done((ms[..p] + [Count(L)] + ms[p..])[..j])
  {
    var pre := (ms[..p] + [Count(L)] + ms[p..])[..j];
    assert pre == [] + ms[..j];
    LastCountAppend([], ms[..j]);
  }

  /** After the count, the collector stops no earlier than on the last result. */
  lemma AfterCountNotDone<W>(ms: seq<Msg<W>>, p: nat, j: nat)
    requires NonEmptyResults(ms) && p < j <= |ms|
    ensures !Done((ms[..p] + [Count(|Payloads(ms)|)] + ms[p..])[..j])
  {
    var L := |Payloads(ms)|;
    var pre := (ms[..p] + [Count(L)] + ms[p..])[..j];
    AfterCountLastCount(ms, p, L, j);
    AfterCountPayloads(ms, p, L, j);
    PayloadsGrow(ms, j - 1);
  }

  lemma AfterCountLastCount<W>(ms: seq<Msg<W>>, p: nat, L: nat, j: nat)
    requires NonEmptyResults(ms) && p < j <= |ms|
    ensures LastCount((ms[..p] + [Count(L)] + ms[p..])[..j]) == Some(L)
  {
    var head := ms[..p] + [Count(L)];
    var mid := ms[p..j - 1];
    assert (head + ms[p..])[..j] == head + mid;
    assert forall i :: 0 <= i < |mid| ==> mid[i] == ms[p + i];
    LastCountAppend(head, mid);
    assert LastCount(head) == Some(L);
  }

  lemma AfterCountPayloads<W>(ms: seq<Msg<W>>, p: nat, L: nat, j: nat)
    requires p < j <= |ms|
    ensures Payloads((ms[..p] + [Count(L)] + ms[p..])[..j]) == Payloads(ms[..j - 1])
  {
    var head := ms[..p] + [Count(L)];
    var mid := ms[p..j - 1];
    assert (head + ms[p..])[..j] == head + mid;
    PayloadsAppend(head, mid);
    PayloadsAfterCount(ms[..p], L);
    assert ms[..j - 1] == ms[..p] + mid;
    PayloadsAppend(ms[..p], mid);
  }

  /** The whole stream, count included, holds every pair. */
  lemma CountAmongResultsPayloads<W>(ms: seq<Msg<W>>, p: nat, L: nat)
    requires p <= |ms|
    ensures Payloads(ms[..p] + [Count(L)] + ms[p..]) == Payloads(ms)
  {
    var a, t := ms[..p], ms[p..];
    PayloadsAfterCount(a, L);
    PayloadsAppend(a + [Count(L)], t);
    assert ms == a + t;
    PayloadsAppend(a, t);
  }

  lemma PayloadsAfterCount<W>(a: seq<Msg<W>>, L: nat)
    ensures Payloads(a + [Count(L)]) == Payloads(a)
  {
    var h := a + [Count(L)];
    assert h[..|h| - 1] == a;
  }

  /** The latest count of the whole stream is the dispatcher's. */
  lemma CountAmongResultsCount<W>(ms: seq<Msg<W>>, p: nat, L: nat)
    requires NonEmptyResults(ms) && p <= |ms|
    ensures LastCount(ms[..p] + [Count(L)] + ms[p..]) == Some(L)
  {
    var head := ms[..p] + [Count(L)];
    assert LastCount(head) == Some(L);
    var tail := ms[p..];
    assert forall i :: 0 <= i < |tail| ==> tail[i] == ms[p + i];
    LastCountAppend(head, tail);
  }

  /**
   * Results that each carry at least one pair, with the dispatcher's count
   * arriving after any number p of them: the collector reads every message,
   * stops on the last one because the count is reached, and has gathered
   * every pair in arrival order.
   */
  lemma CountAmongResults<W>(ms: seq<Msg<W>>, p: nat)
    requires NonEmptyResults(ms) && p <= |ms|
    ensures Collect(ms[..p] + [Count(|Payloads(ms)|)] + ms[p..])
         == Collected(Payloads(ms), |ms| + 1, Counted)
  {
    var L := |Payloads(ms)|;
    var s := ms[..p] + [Count(L)] + ms[p..];
    forall j | 0 < j < |s| ensures !Done(s[..j]) {
      CountAmongResultsPrefix(ms, p, j);
    }
    CountAmongResultsPayloads(ms, p, L);
    CountAmongResultsCount(ms, p, L);
    var c := Collect(s);
    assert s[..|s|] == s;
    assert !c.ending.Blocked?;
    assert c.consumed == |s|;
    assert s[|s| - 1].Result? || s[|s| - 1].Count?;
  }

  /**
   * `map` with the intended dispatcher, every element mapped without an
   * exception and the count arriving at any point among the in-order
   * results: the collector finishes on the count with every pair, and the
   * returned values are `func` of the input, sorted or not.
   */
  lemma IntendedMapReturnsMapped<V, W>(f: V -> Outcome<W>, items: seq<V>, chunksize: int, p: nat, sort: bool)
    requires AllReturn(f, items)
    requires p <= |ChunksOf(Enumerate(items), ChunkSize(chunksize))|
    ensures var ms := ChunkMsgs(f, ChunksOf(Enumerate(items), ChunkSize(chunksize)));
      var c := Collect(ms[..p] + [Count(|items|)] + ms[p..]);
      c.ending == Counted && c.pairs == Enumerate(Mapped(f, items))
      && Values(if sort then SortByIndex(c.pairs) else c.pairs) == Mapped(f, items)
  {
    var e := Enumerate(items);
    var cs := ChunksOf(e, ChunkSize(chunksize));
    var ms := ChunkMsgs(f, cs);
    MappedChunks(f, items, cs);
    CountAmongResults(ms, p);
    ValuesOfMapped(f, items, sort);
  }

  /** The workers' messages for a chunking of the numbered input carry every mapped pair. */
  lemma MappedChunks<V, W>(f: V -> Outcome<W>, items: seq<V>, cs: seq<seq<(int, V)>>)
    requires AllReturn(f, items)
    requires Flatten(cs) == Enumerate(items) && forall j :: 0 <= j < |cs| ==> cs[j] != []
    ensures NonEmptyResults(ChunkMsgs(f, cs))
    ensures Payloads(ChunkMsgs(f, cs)) == Enumerate(Mapped(f, items))
    ensures |Payloads(ChunkMsgs(f, cs))| == |items|
  {
    var e := Enumerate(items);
    assert forall k :: 0 <= k < |e| ==> e[k].1 == items[k];
    assert PairsReturn(f, e);
    PayloadsOfChunks(f, cs);
    assert MapPairs(f, e) == Enumerate(Mapped(f, items));
  }

  /** The numbered mapped values are already sorted, so sorting keeps them. */
  lemma ValuesOfMapped<V, W>(f: V -> Outcome<W>, items: seq<V>, sort: bool)
    requires AllReturn(f, items)
    ensures var pairs := Enumerate(Mapped(f, items));
      Values(if sort then SortByIndex(pairs) else pairs) == Mapped(f, items)
  {
    SortOfSorted(Enumerate(Mapped(f, items)));
  }

  /**
   * With `chunksize <= 1` the dispatcher as written sends the intended
   * chunks, so `map` returns `func` of the input.
   */
  lemma WrittenMapReturnsMapped<V, W>(f: V -> Outcome<W>, items: seq<V>, chunksize: int, p: nat, sort: bool)
    requires AllReturn(f, items) && chunksize <= 1 && p <= |items|
    ensures var ms := ChunkMsgs(f, WrittenChunks(items, chunksize));
      var c := Collect(ms[..p] + [Count(|items|)] + ms[p..]);
      c.ending == Counted && Values(if sort then SortByIndex(c.pairs) else c.pairs) == Mapped(f, items)
  {
    WrittenMatchesIntended(items, chunksize);
    IntendedMapReturnsMapped(f, items, chunksize, p, sort);
  }

  /** Removing message m splits the pairs collected around it. */
  lemma PayloadsWithout<W>(l: seq<Msg<W>>, m: Msg<W>, r: seq<Msg<W>>)
    ensures multiset(Payloads(l + [m] + r)) == multiset(Payloads(l + r)) + multiset(Payloads([m]))
  {
    PayloadsAppend(l + [m], r);
    PayloadsAppend(l, [m]);
    PayloadsAppend(l, r);
    MultisetWithout(Payloads(l), Payloads([m]), Payloads(r));
  }

  lemma MultisetWithout<T>(l: seq<T>, x: seq<T>, r: seq<T>)
    ensures multiset(l + x + r) == multiset(l + r) + multiset(x)
  {
    assert multiset(l + x + r) == multiset(l) + multiset(x) + multiset(r);
    assert multiset(l + r) == multiset(l) + multiset(r);
  }

  /** Messages arriving in another order carry the same pairs, in another order. */
  lemma {:induction false} PayloadsRearranged<W>(a: seq<Msg<W>>, b: seq<Msg<W>>)
    requires multiset(a) == multiset(b)
    ensures multiset(Payloads(a)) == multiset(Payloads(b))
    decreases |a|
  {
    if a == [] {
      assert |b| == |multiset(b)| == 0;
    } else {
      var x := a[|a| - 1];
      var a' := a[..|a| - 1];
      assert a == a' + [x];
      assert x in multiset(b);
      var i :| 0 <= i < |b| && b[i] == x;
      var b' := b[..i] + b[i + 1..];
      assert b == b[..i] + [x] + b[i + 1..];
      assert multiset(b') == multiset(b) - multiset{x};
      assert multiset(a') == multiset(a) - multiset{x};
      PayloadsRearranged(a', b');
      PayloadsWithout(b[..i], x, b[i + 1..]);
      PayloadsAppend(a', [x]);
    }
  }

  /**
   * With the intended dispatcher and a `func` that always returns, the
   * workers' results may reach `map` in any order, with the count at any
   * point among them: the collector still ends on the count, and with `sort`
   * the values come back in input order.
   */
  lemma IntendedMapAnyArrivalOrder<V, W>(f: V -> Outcome<W>, items: seq<V>, chunksize: int,
                                        arrived: seq<Msg<W>>, p: nat)
    requires AllReturn(f, items)
    requires multiset(arrived) == multiset(ChunkMsgs(f, ChunksOf(Enumerate(items), ChunkSize(chunksize))))
    requires p <= |arrived|
    ensures var c := Collect(arrived[..p] + [Count(|items|)] + arrived[p..]);
      c.ending == Counted && Values(SortByIndex(c.pairs)) == Mapped(f, items)
  {
    var ms := ChunkMsgs(f, ChunksOf(Enumerate(items), ChunkSize(chunksize)));
    MappedChunks(f, items, ChunksOf(Enumerate(items), ChunkSize(chunksize)));
    RearrangedResults(arrived, ms);
    CountAmongResults(arrived, p);
    SortRestoresNumbered(Payloads(arrived), Enumerate(Mapped(f, items)));
  }

  /** A rearrangement of non-empty results is non-empty results carrying the same pairs. */
  lemma RearrangedResults<W>(arrived: seq<Msg<W>>, ms: seq<Msg<W>>)
    requires multiset(arrived) == multiset(ms) && NonEmptyResults(ms)
    ensures NonEmptyResults(arrived)
    ensures multiset(Payloads(arrived)) == multiset(Payloads(ms))
    ensures |Payloads(arrived)| == |Payloads(ms)|
  {
    forall i | 0 <= i < |arrived| ensures arrived[i].Result? && arrived[i].pairs != [] {
      assert arrived[i] in multiset(ms);
    }
    PayloadsRearranged(arrived, ms);
    assert |Payloads(arrived)| == |multiset(Payloads(arrived))|;
    assert |Payloads(ms)| == |multiset(Payloads(ms))|;
  }

  /**
   * With `chunksize <= 1` the dispatcher as written sends one chunk per
   * element; in whatever order their results arrive, `map` with `sort`
   * returns `func` of the input in input order.
   */
  lemma WrittenMapAnyArrivalOrder<V, W>(f: V -> Outcome<W>, items: seq<V>, chunksize: int,
                                       arrived: seq<Msg<W>>, p: nat)
    requires AllReturn(f, items) && chunksize <= 1
    requires multiset(arrived) == multiset(ChunkMsgs(f, WrittenChunks(items, chunksize)))
    requires p <= |arrived|
    ensures var c := Collect(arrived[..p] + [Count(|items|)] + arrived[p..]);
      c.ending == Counted && Values(SortByIndex(c.pairs)) == Mapped(f, items)
  {
    WrittenMatchesIntended(items, chunksize);
    IntendedMapAnyArrivalOrder(f, items, chunksize, arrived, p);
  }

  // ---------------------------------------------------------------------
  // A `map` call on which `func` raises
  // ---------------------------------------------------------------------

  /** A prefix of the stream carries no more pairs than the whole stream. */
  lemma PayloadsPrefix<W>(ms: seq<Msg<W>>, j: nat)
    requires j <= |ms|
    ensures |Payloads(ms[..j])| <= |Payloads(ms)|
  {
    assert ms == ms[..j] + ms[j..];
    PayloadsAppend(ms[..j], ms[j..]);
  }

  /** When every count on the stream says n, the latest count is n or there is none yet. */
  lemma {:induction false} LastCountOnly<W>(ms: seq<Msg<W>>, n: nat)
    requires forall i :: 0 <= i < |ms| && ms[i].Count? ==> ms[i].n == n
    ensures LastCount(ms) == None || LastCount(ms) == Some(n)
    decreases |ms|
  {
    if ms != [] && !ms[|ms| - 1].Count? {
      var init := ms[..|ms| - 1];
      assert forall i :: 0 <= i < |init| ==> init[i] == ms[i];
      LastCountOnly(init, n);
    }
  }

  /** When every count says n and the stream holds fewer than n pairs, no prefix reaches its count. */
  lemma CountNeverReached<W>(s: seq<Msg<W>>, n: nat, j: nat)
    requires j <= |s|
    requires forall i :: 0 <= i < |s| && s[i].Count? ==> s[i].n == n
    requires |Payloads(s)| < n
    ensures LastCount(s[..j]).Some? ==> |Payloads(s[..j])| < LastCount(s[..j]).value
  {
    var pre := s[..j];
    assert forall i :: 0 <= i < |pre| ==> pre[i] == s[i];
    LastCountOnly(pre, n);
    PayloadsPrefix(s, j);
  }

  /** The collector is done right after reading an `EXC`. */
  lemma ExcMakesDone<W>(s: seq<Msg<W>>, j: nat)
    requires j < |s|
    ensures s[j].Exc? ==> Done(s[..j + 1])
  {
    assert s[..j + 1][j] == s[j];
  }

  /**
   * A stream that holds an `EXC`, whose counts all say n and whose results
   * carry fewer than n pairs in all: the count can never be reached, so the
   * collector stops on the first `EXC`, with the pairs of the messages
   * before it.
   */
  lemma CollectFailsShort<W>(s: seq<Msg<W>>, n: nat, x: nat)
    requires x < |s| && s[x].Exc?
    requires forall i :: 0 <= i < |s| && s[i].Count? ==> s[i].n == n
    requires |Payloads(s)| < n
    ensures var c := Collect(s);
      c.ending.Failed? && 0 < c.consumed <= x + 1
      && s[c.consumed - 1] == Exc(c.ending.text)
      && (forall j :: 0 <= j < c.consumed - 1 ==> !s[j].Exc?)
      && c.pairs == Payloads(s[..c.consumed - 1])
  {
    CollectStopsOnExc(s, n, x);
    CollectStopsOnFirstExc(s);
  }

  /** Such a stream makes the collector fail no later than on message x. */
  lemma CollectStopsOnExc<W>(s: seq<Msg<W>>, n: nat, x: nat)
    requires x < |s| && s[x].Exc?
    requires forall i :: 0 <= i < |s| && s[i].Count? ==> s[i].n == n
    requires |Payloads(s)| < n
    ensures var c := Collect(s);
      c.ending.Failed? && 0 < c.consumed <= x + 1
  {
    var c := Collect(s);
    CountNeverReached(s, n, c.consumed);
    ExcMakesDone(s, x);
    assert s[..|s|] == s;
  }

  /** A collector that fails has read no `EXC` before the last message, nor its pairs. */
  lemma CollectStopsOnFirstExc<W>(s: seq<Msg<W>>)
    ensures var c := Collect(s);
      c.ending.Failed? ==>
        (forall j :: 0 <= j < c.consumed - 1 ==> !s[j].Exc?)
        && c.pairs == Payloads(s[..c.consumed - 1])
  {
    var c := Collect(s);
    forall j | 0 <= j < c.consumed - 1 ensures !s[j].Exc? {
      ExcMakesDone(s, j);
    }
    if c.consumed > 0 {
      RunStep(s, c.consumed - 1);
    }
  }

  /** Workers send at most one pair per element of the chunks. */
  lemma {:induction false} PayloadsOfChunksAtMost<V, W>(f: V -> Outcome<W>, cs: seq<seq<(int, V)>>)
    ensures |Payloads(ChunkMsgs(f, cs))| <= |Flatten(cs)|
    decreases |cs|
  {
    if cs != [] {
      var init, last := cs[..|cs| - 1], cs[|cs| - 1];
      assert cs == init + [last];
      FlattenSnocLength(init, last);
      ChunkMsgsPayloadsSnoc(f, init, last);
      PayloadsOfChunksAtMost(f, init);
    }
  }

  /** When chunk j gives an `EXC`, the workers send strictly fewer pairs than elements. */
  lemma {:induction false} PayloadsOfChunksShort<V, W>(f: V -> Outcome<W>, cs: seq<seq<(int, V)>>, j: nat)
    requires j < |cs| && ChunkMsg(f, cs[j]).Exc?
    ensures |Payloads(ChunkMsgs(f, cs))| < |Flatten(cs)|
    decreases |cs|
  {
    var init, last := cs[..|cs| - 1], cs[|cs| - 1];
    assert cs == init + [last];
    FlattenSnocLength(init, last);
    ChunkMsgsPayloadsSnoc(f, init, last);
    if j == |cs| - 1 {
      PayloadsOfChunksAtMost(f, init);
    } else {
      assert init[j] == cs[j];
      PayloadsOfChunksShort(f, init, j);
    }
  }

  /** One more chunk adds the pairs of its `RESULT`, or none for an `EXC`. */
  lemma ChunkMsgsPayloadsSnoc<V, W>(f: V -> Outcome<W>, init: seq<seq<(int, V)>>, last: seq<(int, V)>)
    ensures var m := ChunkMsg(f, last);
      Payloads(ChunkMsgs(f, init + [last])) == Payloads(ChunkMsgs(f, init)) + (if m.Result? then m.pairs else [])
  {
    var ms := ChunkMsgs(f, init + [last]);
    assert ms[..|ms| - 1] == ChunkMsgs(f, init);
    assert ms[|ms| - 1] == ChunkMsg(f, last);
  }

  /** When `func` raises on some element, some chunk of the numbered input gives an `EXC`. */
  lemma SomeChunkRaises<V, W>(f: V -> Outcome<W>, items: seq<V>, cs: seq<seq<(int, V)>>) returns (j: nat)
    requires !AllReturn(f, items) && Flatten(cs) == Enumerate(items)
    ensures j < |cs| && ChunkMsg(f, cs[j]).Exc?
  {
    var i :| 0 <= i < |items| && !f(items[i]).Returned?;
    var e := Enumerate(items);
    assert e[i] in Flatten(cs);
    FlattenMember(cs, e[i]);
    var k;
    j, k :| 0 <= j < |cs| && 0 <= k < |cs[j]| && cs[j][k] == e[i];
    assert !f(cs[j][k].1).Returned?;
  }

  /** The text of a chunk's `EXC` is the error `func` raised on some element of the input. */
  lemma ChunkExcFromItem<V, W>(f: V -> Outcome<W>, items: seq<V>, cs: seq<seq<(int, V)>>, j: nat)
    requires Flatten(cs) == Enumerate(items) && j < |cs| && ChunkMsg(f, cs[j]).Exc?
    ensures exists i :: 0 <= i < |items| && f(items[i]) == Raised(ChunkMsg(f, cs[j]).text)
  {
    var m := ChunkMsg(f, cs[j]);
    var k :| 0 <= k < |cs[j]| && f(cs[j][k].1) == Raised(m.text);
    FlattenHas(cs, j, k);
    var e := Enumerate(items);
    var i :| 0 <= i < |e| && e[i] == cs[j][k];
    assert f(items[i]) == Raised(m.text);
  }

  /** A message on the stream other than the dispatcher's count is one of the arrived messages. */
  lemma InStream<W>(arrived: seq<Msg<W>>, p: nat, n: nat, i: nat)
    requires p <= |arrived| && i <= |arrived| && i != p
    ensures (arrived[..p] + [Count(n)] + arrived[p..])[i] in multiset(arrived)
  {
    var s := arrived[..p] + [Count(n)] + arrived[p..];
    var a := if i < p then i else i - 1;
    assert s[i] == arrived[a];
  }

  /**
   * The workers' messages for a chunking of the numbered input, when `func`
   * raises on some element: no count, some `EXC`, fewer pairs than elements.
   */
  lemma ChunksShort<V, W>(f: V -> Outcome<W>, items: seq<V>, cs: seq<seq<(int, V)>>)
    requires !AllReturn(f, items) && Flatten(cs) == Enumerate(items)
    ensures var ms := ChunkMsgs(f, cs);
      (exists j :: 0 <= j < |ms| && ms[j].Exc?)
      && (forall j :: 0 <= j < |ms| ==> !ms[j].Count?)
      && |Payloads(ms)| < |items|
  {
    var j := SomeChunkRaises(f, items, cs);
    PayloadsOfChunksShort(f, cs, j);
  }

  /**
   * Messages with no count, some `EXC` and fewer than n pairs, arriving in
   * any order with the count n at any point: the collector stops on the
   * first `EXC`, one of those messages, with the pairs read before it.
   */
  lemma StreamFails<W>(arrived: seq<Msg<W>>, ms: seq<Msg<W>>, p: nat, n: nat)
    requires multiset(arrived) == multiset(ms) && p <= |arrived|
    requires exists j :: 0 <= j < |ms| && ms[j].Exc?
    requires forall j :: 0 <= j < |ms| ==> !ms[j].Count?
    requires |Payloads(ms)| < n
    ensures var s := arrived[..p] + [Count(n)] + arrived[p..];
      var c := Collect(s);
      c.ending.Failed? && 0 < c.consumed
      && s[c.consumed - 1] == Exc(c.ending.text)
      && (forall j :: 0 <= j < c.consumed - 1 ==> !s[j].Exc?)
      && c.pairs == Payloads(s[..c.consumed - 1])
      && |c.pairs| < n
      && Exc(c.ending.text) in multiset(ms)
  {
    var s := arrived[..p] + [Count(n)] + arrived[p..];
    var x := StreamShort(arrived, ms, p, n);
    CollectFailsShort(s, n, x);
    var c := Collect(s);
    ExcOnStream(arrived, ms, p, n, c.consumed - 1);
    PayloadsPrefix(s, c.consumed - 1);
  }

  /** An `EXC` on the stream is one of the messages. */
  lemma ExcOnStream<W>(arrived: seq<Msg<W>>, ms: seq<Msg<W>>, p: nat, n: nat, k: nat)
    requires multiset(arrived) == multiset(ms) && p <= |arrived| && k <= |arrived|
    ensures var s := arrived[..p] + [Count(n)] + arrived[p..];
      s[k].Exc? ==> s[k] in multiset(ms)
  {
    if k != p {
      InStream(arrived, p, n, k);
    }
  }

  /** The stream of such messages holds an `EXC`, only the count n, and fewer than n pairs. */
  lemma StreamShort<W>(arrived: seq<Msg<W>>, ms: seq<Msg<W>>, p: nat, n: nat) returns (x: nat)
    requires multiset(arrived) == multiset(ms) && p <= |arrived|
    requires exists j :: 0 <= j < |ms| && ms[j].Exc?
    requires forall j :: 0 <= j < |ms| ==> !ms[j].Count?
    requires |Payloads(ms)| < n
    ensures var s := arrived[..p] + [Count(n)] + arrived[p..];
      x < |s| && s[x].Exc?
      && (forall i :: 0 <= i < |s| && s[i].Count? ==> s[i].n == n)
      && |Payloads(s)| < n
  {
    StreamPairs(arrived, ms, p, n);
    x := StreamExc(arrived, ms, p, n);
    var s := arrived[..p] + [Count(n)] + arrived[p..];
    forall i | 0 <= i < |s| && i != p ensures !s[i].Count? {
      StreamNoOtherCount(arrived, ms, p, n, i);
    }
  }

  /** Rearranged and with the count added, the messages carry as many pairs as before. */
  lemma StreamPairs<W>(arrived: seq<Msg<W>>, ms: seq<Msg<W>>, p: nat, n: nat)
    requires multiset(arrived) == multiset(ms) && p <= |arrived|
    ensures |Payloads(arrived[..p] + [Count(n)] + arrived[p..])| == |Payloads(ms)|
  {
    PayloadsRearranged(arrived, ms);
    assert |Payloads(arrived)| == |multiset(Payloads(arrived))| == |multiset(Payloads(ms))| == |Payloads(ms)|;
    CountAmongResultsPayloads(arrived, p, n);
  }

  /** An `EXC` among the messages is somewhere on the stream. */
  lemma StreamExc<W>(arrived: seq<Msg<W>>, ms: seq<Msg<W>>, p: nat, n: nat) returns (x: nat)
    requires multiset(arrived) == multiset(ms) && p <= |arrived|
    requires exists j :: 0 <= j < |ms| && ms[j].Exc?
    ensures var s := arrived[..p] + [Count(n)] + arrived[p..];
      x < |s| && s[x].Exc?
  {
    var s := arrived[..p] + [Count(n)] + arrived[p..];
    var j :| 0 <= j < |ms| && ms[j].Exc?;
    assert ms[j] in multiset(arrived);
    var a :| 0 <= a < |arrived| && arrived[a] == ms[j];
    x := if a < p then a else a + 1;
    assert s[x] == arrived[a];
  }

  /** Only the dispatcher's message on the stream is a count. */
  lemma StreamNoOtherCount<W>(arrived: seq<Msg<W>>, ms: seq<Msg<W>>, p: nat, n: nat, i: nat)
    requires multiset(arrived) == multiset(ms) && p <= |arrived|
    requires forall j :: 0 <= j < |ms| ==> !ms[j].Count?
    requires i <= |arrived| && i != p
    ensures !(arrived[..p] + [Count(n)] + arrived[p..])[i].Count?
  {
    InStream(arrived, p, n, i);
    var k :| 0 <= k < |ms| && ms[k] == (arrived[..p] + [Count(n)] + arrived[p..])[i];
  }

  /**
   * `map` with the intended dispatcher and a `func` that raises on some
   * element, the workers' messages arriving in any order and the count at
   * any point among them: the collector stops on the first `EXC` and
   * returns only the pairs of the results that came before it, fewer than
   * the elements; the error is one `func` raised on an element.
   */
  lemma IntendedMapRaises<V, W>(f: V -> Outcome<W>, items: seq<V>, chunksize: int,
                                arrived: seq<Msg<W>>, p: nat)
    requires !AllReturn(f, items)
    requires multiset(arrived) == multiset(ChunkMsgs(f, ChunksOf(Enumerate(items), ChunkSize(chunksize))))
    requires p <= |arrived|
    ensures var s := arrived[..p] + [Count(|items|)] + arrived[p..];
      var c := Collect(s);
      c.ending.Failed? && 0 < c.consumed
      && s[c.consumed - 1] == Exc(c.ending.text)
      && (forall j :: 0 <= j < c.consumed - 1 ==> !s[j].Exc?)
      && c.pairs == Payloads(s[..c.consumed - 1])
      && |c.pairs| < |items|
      && exists i :: 0 <= i < |items| && f(items[i]) == Raised(c.ending.text)
  {
    var cs := ChunksOf(Enumerate(items), ChunkSize(chunksize));
    var ms := ChunkMsgs(f, cs);
    ChunksShort(f, items, cs);
    StreamFails(arrived, ms, p, |items|);
    var c := Collect(arrived[..p] + [Count(|items|)] + arrived[p..]);
    var j :| 0 <= j < |ms| && ms[j] == Exc(c.ending.text);
    ChunkExcFromItem(f, items, cs, j);
  }

  /** The same for the dispatcher as written with `chunksize <= 1`. */
  lemma WrittenMapRaises<V, W>(f: V -> Outcome<W>, items: seq<V>, chunksize: int,
                               arrived: seq<Msg<W>>, p: nat)
    requires !AllReturn(f, items) && chunksize <= 1
    requires multiset(arrived) == multiset(ChunkMsgs(f, WrittenChunks(items, chunksize)))
    requires p <= |arrived|
    ensures var s := arrived[..p] + [Count(|items|)] + arrived[p..];
      var c := Collect(s);
      c.ending.Failed? && 0 < c.consumed
      && s[c.consumed - 1] == Exc(c.ending.text)
      && (forall j :: 0 <= j < c.consumed - 1 ==> !s[j].Exc?)
      && c.pairs == Payloads(s[..c.consumed - 1])
      && |c.pairs| < |items|
      && exists i :: 0 <= i < |items| && f(items[i]) == Raised(c.ending.text)
  {
    WrittenMatchesIntended(items, chunksize);
    IntendedMapRaises(f, items, chunksize, arrived, p);
  }

  /**
   * With `chunksize >= 2` and a non-empty input, the dispatcher as written
   * puts no chunk on the task queue, so the only message `map` can receive
   * is the count, which is never reached: the collector waits for ever.
   */
  lemma WrittenDispatchStalls<V, W>(items: seq<V>, chunksize: int)
    requires chunksize >= 2 && items != []
    ensures WrittenChunks(items, chunksize) == []
    ensures Collect<W>([Count(|items|)]) == Collected([], 1, Blocked)
  {
    var s: seq<Msg<W>> := [Count(|items|)];
    assert Run(s, 1, [], Some(|items|)) == Collected([], 1, Blocked);
  }

  // ---------------------------------------------------------------------
  // The pool object
  // ---------------------------------------------------------------------

  /** A `Pool`: its worker count, its started flag and what was put on its dispatcher queue. */
  class Pool<V> {
    const nrWorkers: nat
    var started: bool
    /** How often `start` has run to completion. */
    ghost var starts: nat
    /** The requests put on the dispatcher queue, oldest first. */
    var requests: seq<Request<V>>

    ghost predicate Valid()
      reads this
    {
      starts == (if started then 1 else 0)
      && (!started ==> requests == [])
    }

    /** `Pool(nr_workers)`; `None` for the number of CPUs is the caller's choice here. */
    constructor (nrWorkers: nat)
      ensures Valid() && !started && this.nrWorkers == nrWorkers && requests == []
    {
      this.nrWorkers := nrWorkers;
      started := false;
      starts := 0;
      requests := [];
    }

    /** `start`: its `assert not self.__started` fails (ok is false, nothing changes) on a started pool. */
    method Start() returns (ok: bool)
      requires Valid()
      modifies this
      ensures Valid() && started
      ensures ok == !old(started)
      ensures requests == old(requests)
    {
      if started {
        return false;
      }
      started := true;
      starts := starts + 1;
      ok := true;
    }

    /** `try_start`: starts the pool only if it is not started yet. */
    method TryStart()
      requires Valid()
      modifies this
      ensures Valid() && started && starts == 1
      ensures requests == old(requests)
    {
      if !started {
        var ok := Start();
      }
    }

    /**
     * `map(func, iterable, chunksize, sort, callback)`: starts the pool if
     * needed, queues the job and runs the collector loop over the messages
     * arrivals that reach the result queue. Returns the values, the
     * (index, value) calls made to the callback, and what was collected.
     */
    method Map<W>(items: seq<V>, chunksize: int, sort: bool, hasCallback: bool, arrivals: seq<Msg<W>>)
      returns (out: seq<W>, calls: seq<(int, W)>, c: Collected<W>)
      requires Valid()
      modifies this
      ensures Valid() && started && starts == 1
      ensures requests == old(requests) + [Job(items, chunksize)]
      ensures c == Collect(arrivals)
      ensures calls == (if hasCallback then c.pairs else [])
      ensures out == Values(if sort then SortByIndex(c.pairs) else c.pairs)
    {
      TryStart();
      requests := requests + [Job(items, chunksize)];
      var allResult: seq<(int, W)> := [];
      var nrTotal: Option<nat> := None;
      var ending := Blocked;
      calls := [];
      ghost var goal := Run(arrivals, 0, [], None);
      var i := 0;
      while i < |arrivals|
        invariant i <= |arrivals|
        invariant Run(arrivals, i, allResult, nrTotal) == goal
        invariant calls == (if hasCallback then allResult else [])
        invariant ending == Blocked
      {
        var m := arrivals[i];
        i := i + 1;
        if m.Count? {
          nrTotal := Some(m.n);
        } else if m.Result? {
          if hasCallback {
            calls := calls + m.pairs;
          }
          allResult := allResult + m.pairs;
        } else {
          ending := Failed(m.text);
          break;
        }
        if nrTotal.Some? && |allResult| >= nrTotal.value {
          ending := Counted;
          break;
        }
      }
      c := Collected(allResult, i, ending);
      CollectIsRun(arrivals);
      if sort {
        allResult := SortByIndex(allResult);
      }
      out := Values(allResult);
    }

    /** `terminate`: puts the `None` that shuts the dispatcher down; on a pool never started it fails. */
    method Terminate() returns (ok: bool)
      requires Valid()
      modifies this
      ensures Valid()
      ensures ok == started && started == old(started)
      ensures requests == old(requests) + (if ok then [Shutdown] else [])
    {
      if !started {
        return false;
      }
      requests := requests + [Shutdown];
      ok := true;
    }
  }
}
