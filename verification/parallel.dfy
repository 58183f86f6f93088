/*
 * Parallel: the bookkeeping of mangabook/parallel.py — DownloadManager's
 * tallies and id sets, ProcessingTask's order and ProcessingQueue's
 * statistics, and the memory layer of ApiCache. Coroutines run one after
 * the other here; what a download coroutine returned, raised or whether it
 * timed out is an input, and so are the clock and what a cache file held.
 */
module Parallel {
  import opened Text
  import opened Dicts

  // ---------------------------------------------------------------------
  // DownloadManager
  // ---------------------------------------------------------------------

  /** A chapter job; only its "id" is looked at here. */
  datatype ChapterJob = ChapterJob(id: Option<string>)

  /** A chapter result dict: "success" (false when absent), "error", "message". */
  datatype ChapterResult = ChapterResult(success: bool, error: Option<string>, message: Option<string>)

  /** How the downloader coroutine of one chapter ended. */
  datatype Attempt = Returned(result: ChapterResult) | TimedOut | Threw(message: string)

  /** job.get("id", "unknown"). */
  function ChapterId(job: ChapterJob): string {
    if job.id.Some? then job.id.value else "unknown"
  }

  function ChapterIds(jobs: seq<ChapterJob>): (r: seq<string>)
    ensures |r| == |jobs|
  {
    seq(|jobs|, i requires 0 <= i < |jobs| => ChapterId(jobs[i]))
  }

  /** _download_chapter's result: the returned one, or an error result. */
  function Settle(attempt: Attempt, timeout: nat): (r: ChapterResult)
    ensures attempt.Returned? ==> r == attempt.result
    ensures attempt.TimedOut? ==> !r.success && r.error == Some("timeout")
    ensures attempt.Threw? ==> !r.success && r.error == Some("exception") && r.message == Some(attempt.message)
  {
    match attempt
    case Returned(result) => result
    case TimedOut =>
      ChapterResult(false, Some("timeout"), Some("Download timed out after " + NatToString(timeout) + " seconds"))
    case Threw(message) => ChapterResult(false, Some("exception"), Some(message))
  }

  function Settled(attempts: seq<Attempt>, timeout: nat): (r: seq<ChapterResult>)
    ensures |r| == |attempts| && forall i :: 0 <= i < |attempts| ==> r[i] == Settle(attempts[i], timeout)
  {
    seq(|attempts|, i requires 0 <= i < |attempts| => Settle(attempts[i], timeout))
  }

  /** The number of successful results. */
  function Successes(rs: seq<ChapterResult>): (n: nat)
    ensures n <= |rs|
  {
    if rs == [] then 0 else Successes(rs[..|rs| - 1]) + (if rs[|rs| - 1].success then 1 else 0)
  }

  /** The "chapters" dict: each result under its chapter id, a later result
      replacing an earlier one of the same id. */
  function Keyed(ids: seq<string>, rs: seq<ChapterResult>): Dict<string, ChapterResult>
    requires |ids| == |rs|
  {
    if ids == [] then [] else Put(Keyed(ids[..|ids| - 1], rs[..|rs| - 1]), ids[|ids| - 1], rs[|rs| - 1])
  }

  /** The manager's `results` after recording each result under its id. */
  function Recorded(results: map<string, ChapterResult>, ids: seq<string>, rs: seq<ChapterResult>): map<string, ChapterResult>
    requires |ids| == |rs|
  {
    if ids == [] then results
    else Recorded(results, ids[..|ids| - 1], rs[..|rs| - 1])[ids[|ids| - 1] := rs[|rs| - 1]]
  }

  /** The ids whose result's success is `success`. */
  function IdsWith(ids: seq<string>, rs: seq<ChapterResult>, success: bool): (r: set<string>)
    requires |ids| == |rs|
  {
    if ids == [] then {}
    else
      IdsWith(ids[..|ids| - 1], rs[..|rs| - 1], success)
      + (if rs[|rs| - 1].success == success then {ids[|ids| - 1]} else {})
  }

  /** What download_chapters returns. */
  datatype DownloadSummary = DownloadSummary(success: bool, chapters: Dict<string, ChapterResult>,
                                             completed: nat, failed: nat, total: nat)

  datatype ManagerStats = ManagerStats(completed: nat, failed: nat, inProgress: nat, total: nat)

  class DownloadManager {
    const maxConcurrent: int
    const timeout: nat
    var results: map<string, ChapterResult>
    var inProgress: set<string>
    var completed: set<string>
    var failed: set<string>

    constructor(maxConcurrent: int := 5, timeout: nat := 30)
      ensures this.maxConcurrent == maxConcurrent && this.timeout == timeout
      ensures results == map[] && inProgress == {} && completed == {} && failed == {}
    {
      this.maxConcurrent := maxConcurrent;
      this.timeout := timeout;
      results, inProgress, completed, failed := map[], {}, {}, {};
    }

    /**
     * _download_chapter: the result is the returned one, or an error result
     * "timeout" or "exception"; it is recorded under the chapter id, and
     * the id is no longer in progress however the download ended.
     */
    method DownloadChapter(job: ChapterJob, attempt: Attempt) returns (r: ChapterResult)
      modifies this
      ensures r == Settle(attempt, timeout)
      ensures results == old(results)[ChapterId(job) := r]
      ensures inProgress == old(inProgress) - {ChapterId(job)}
      ensures completed == old(completed) && failed == old(failed)
    {
      var chapterId := ChapterId(job);
      inProgress := inProgress + {chapterId};
      r := Settle(attempt, timeout);
      results := results[chapterId := r];
      inProgress := inProgress - {chapterId};
    }

    /**
     * download_chapters: every job is downloaded (attempts[i] is how the
     * i-th ended); the summary counts the completed and the failed
     * chapters, which add up to the number of jobs, and succeeds exactly
     * when none failed. The ids of the chapters join `completed` or
     * `failed` by their result.
     */
    method DownloadChapters(jobs: seq<ChapterJob>, attempts: seq<Attempt>) returns (summary: DownloadSummary)
      requires |attempts| == |jobs|
      modifies this
      ensures jobs == [] ==> summary == DownloadSummary(true, [], 0, 0, 0)
      ensures var ids, rs := ChapterIds(jobs), Settled(attempts, timeout);
        && summary.total == |jobs|
        && summary.completed == Successes(rs)
        && summary.completed + summary.failed == summary.total
        && (summary.success <==> summary.failed == 0)
        && summary.chapters == Keyed(ids, rs)
        && results == Recorded(old(results), ids, rs)
        && inProgress == old(inProgress) - Elements(ids)
        && completed == old(completed) + IdsWith(ids, rs, true)
        && failed == old(failed) + IdsWith(ids, rs, false)
    {
      if jobs == [] {
        return DownloadSummary(true, [], 0, 0, 0);
      }
      var settled := RunAll(jobs, attempts);
      summary := Tally(jobs, settled);
    }

    /** The download of each job in turn: the results are recorded and the
        ids are no longer in progress. */
    method RunAll(jobs: seq<ChapterJob>, attempts: seq<Attempt>) returns (settled: seq<ChapterResult>)
      requires |attempts| == |jobs|
      modifies this
      ensures settled == Settled(attempts, timeout)
      ensures results == Recorded(old(results), ChapterIds(jobs), settled)
      ensures inProgress == old(inProgress) - Elements(ChapterIds(jobs))
      ensures completed == old(completed) && failed == old(failed)
    {
      ghost var ids, rs := ChapterIds(jobs), Settled(attempts, timeout);
      settled := [];
      var i := 0;
      while i < |jobs|
        invariant i <= |jobs|
        invariant settled == rs[..i]
        invariant results == Recorded(old(results), ids[..i], rs[..i])
        invariant inProgress == old(inProgress) - Elements(ids[..i])
        invariant completed == old(completed) && failed == old(failed)
      {
        var r := DownloadChapter(jobs[i], attempts[i]);
        assert ids[..i + 1][..i] == ids[..i] && rs[..i + 1][..i] == rs[..i];
        ElementsSnoc(ids[..i], ids[i]);
        assert ids[..i + 1] == ids[..i] + [ids[i]];
        settled := settled + [r];
        i := i + 1;
      }
      assert ids[..i] == ids && rs[..i] == rs;
    }

    /** The tally of download_chapters over the results of the jobs. */
    method Tally(jobs: seq<ChapterJob>, rs: seq<ChapterResult>) returns (summary: DownloadSummary)
      requires |rs| == |jobs|
      modifies this
      ensures summary.total == |jobs| && summary.completed == Successes(rs)
      ensures summary.completed + summary.failed == summary.total
      ensures summary.success <==> summary.failed == 0
      ensures summary.chapters == Keyed(ChapterIds(jobs), rs)
      ensures completed == old(completed) + IdsWith(ChapterIds(jobs), rs, true)
      ensures failed == old(failed) + IdsWith(ChapterIds(jobs), rs, false)
      ensures results == old(results) && inProgress == old(inProgress)
    {
      ghost var ids := ChapterIds(jobs);
      var chapters: Dict<string, ChapterResult> := [];
      var done, failedCount := 0, 0;
      var i := 0;
      while i < |jobs|
        invariant i <= |jobs|
        invariant chapters == Keyed(ids[..i], rs[..i])
        invariant done == Successes(rs[..i]) && done + failedCount == i
        invariant completed == old(completed) + IdsWith(ids[..i], rs[..i], true)
        invariant failed == old(failed) + IdsWith(ids[..i], rs[..i], false)
        invariant results == old(results) && inProgress == old(inProgress)
      {
        var chapterId := ChapterId(jobs[i]);
        TallyStep(ids, rs, i);
        chapters := Put(chapters, chapterId, rs[i]);
        if rs[i].success {
          done := done + 1;
        } else {
          failedCount := failedCount + 1;
        }
        Mark(chapterId, rs[i].success);
        UnionAssoc(old(completed), IdsWith(ids[..i], rs[..i], true), if rs[i].success then {ids[i]} else {});
        UnionAssoc(old(failed), IdsWith(ids[..i], rs[..i], false), if rs[i].success then {} else {ids[i]});
        i := i + 1;
      }
      assert ids[..i] == ids;
      assert rs[..i] == rs;
      summary := DownloadSummary(failedCount == 0, chapters, done, failedCount, |jobs|);
    }

    /** Adds a chapter id to the completed or the failed set. */
    method Mark(chapterId: string, success: bool)
      modifies this
      ensures completed == old(completed) + (if success then {chapterId} else {})
      ensures failed == old(failed) + (if success then {} else {chapterId})
      ensures results == old(results) && inProgress == old(inProgress)
    {
      if success {
        completed := completed + {chapterId};
      } else {
        failed := failed + {chapterId};
      }
    }

    /** get_stats: the sizes of the three id sets and their sum. */
    function GetStats(): (s: ManagerStats)
      reads this
      ensures s.completed == |completed| && s.failed == |failed| && s.inProgress == |inProgress|
      ensures s.total == s.completed + s.failed + s.inProgress
    {
      ManagerStats(|completed|, |failed|, |inProgress|, |completed| + |failed| + |inProgress|)
    }
  }

  lemma ElementsSnoc<T>(s: seq<T>, x: T)
    ensures Elements(s + [x]) == Elements(s) + {x}
  {
    assert (s + [x])[|s|] == x;
    forall y | y in Elements(s) ensures y in Elements(s + [x]) {
      var j :| 0 <= j < |s| && s[j] == y;
      assert (s + [x])[j] == y;
    }
  }

  lemma UnionAssoc<T>(a: set<T>, b: set<T>, c: set<T>)
    ensures a + b + c == a + (b + c)
  {
  }

  /** One more result extends the tally by that result. */
  lemma TallyStep(ids: seq<string>, rs: seq<ChapterResult>, i: nat)
    requires |ids| == |rs| && i < |ids|
    ensures Keyed(ids[..i + 1], rs[..i + 1]) == Put(Keyed(ids[..i], rs[..i]), ids[i], rs[i])
    ensures Successes(rs[..i + 1]) == Successes(rs[..i]) + (if rs[i].success then 1 else 0)
    ensures IdsWith(ids[..i + 1], rs[..i + 1], true)
            == IdsWith(ids[..i], rs[..i], true) + (if rs[i].success then {ids[i]} else {})
    ensures IdsWith(ids[..i + 1], rs[..i + 1], false)
            == IdsWith(ids[..i], rs[..i], false) + (if rs[i].success then {} else {ids[i]})
  {
    assert ids[..i + 1][..i] == ids[..i] && rs[..i + 1][..i] == rs[..i];
  }

  /** Every id in IdsWith comes from the ids. */
  lemma {:induction false} IdsWithFromIds(ids: seq<string>, rs: seq<ChapterResult>, success: bool, x: string)
    requires |ids| == |rs| && x in IdsWith(ids, rs, success)
    ensures x in ids
  {
    var n := |ids| - 1;
    if x != ids[n] {
      IdsWithFromIds(ids[..n], rs[..n], success, x);
      var j :| 0 <= j < n && ids[..n][j] == x;
      assert ids[j] == x;
    }
  }

  /** With distinct ids the last id is in no set of the earlier ones. */
  lemma LastIdIsNew(ids: seq<string>, rs: seq<ChapterResult>, success: bool)
    requires |ids| == |rs| && ids != [] && Distinct(ids)
    ensures ids[|ids| - 1] !in IdsWith(ids[..|ids| - 1], rs[..|rs| - 1], success)
  {
    var n := |ids| - 1;
    if ids[n] in IdsWith(ids[..n], rs[..n], success) {
      IdsWithFromIds(ids[..n], rs[..n], success, ids[n]);
      assert false;
    }
  }

  /** Dropping the last element keeps the others distinct. */
  lemma DistinctInit<T>(s: seq<T>)
    requires s != [] && Distinct(s)
    ensures Distinct(s[..|s| - 1])
  {
  }

  /** A new id joins either of two disjoint sets without a clash. */
  lemma AddNewId(a: set<string>, b: set<string>, x: string)
    requires x !in a && x !in b && a !! b
    ensures |a + {x}| == |a| + 1 && (a + {x}) !! b && a !! (b + {x})
  {
  }

  /**
   * With distinct chapter ids on a fresh manager, get_stats after
   * download_chapters counts every chapter once: the completed ids are as
   * many as the successes, the failed ids as the failures, no id is in
   * both, and the total is the number of jobs.
   */
  lemma {:induction false} DistinctIdsCounted(ids: seq<string>, rs: seq<ChapterResult>)
    requires |ids| == |rs| && Distinct(ids)
    ensures |IdsWith(ids, rs, true)| == Successes(rs)
    ensures |IdsWith(ids, rs, false)| == |rs| - Successes(rs)
    ensures IdsWith(ids, rs, true) !! IdsWith(ids, rs, false)
    ensures |IdsWith(ids, rs, true)| + |IdsWith(ids, rs, false)| == |ids|
  {
    if ids != [] {
      var n := |ids| - 1;
      DistinctInit(ids);
      DistinctIdsCounted(ids[..n], rs[..n]);
      LastIdIsNew(ids, rs, true);
      LastIdIsNew(ids, rs, false);
      var x, a, b := ids[n], IdsWith(ids[..n], rs[..n], true), IdsWith(ids[..n], rs[..n], false);
      AddNewId(a, b, x);
      if rs[n].success {
        assert IdsWith(ids, rs, true) == a + {x} && IdsWith(ids, rs, false) == b;
      } else {
        assert IdsWith(ids, rs, true) == a && IdsWith(ids, rs, false) == b + {x};
      }
    }
  }

  // ---------------------------------------------------------------------
  // ProcessingTask and ProcessingQueue
  // ---------------------------------------------------------------------

  datatype TaskStatus = Pending | Running | Completed | Failed

  /** A processing task; its status changes only while the queue processes it. */
  datatype Task = Task(id: string, taskType: string, priority: int, status: TaskStatus)

  /** ProcessingTask.__lt__: a task comes first when its priority is higher. */
  predicate TaskLess(a: Task, b: Task) {
    a.priority > b.priority
  }

  /** The order of the queue's entries (priority, task): Python compares the
      numbers first and the tasks only on equal numbers. */
  predicate EntryLess(a: (int, Task), b: (int, Task)) {
    a.0 < b.0 || (a.0 == b.0 && a.1 != b.1 && TaskLess(a.1, b.1))
  }

  /** An entry the priority queue may hand out next: none is below it. */
  predicate Poppable(entries: seq<(int, Task)>, i: int) {
    0 <= i < |entries| && forall j :: 0 <= j < |entries| ==> !EntryLess(entries[j], entries[i])
  }

  /** The entry add_task enqueues. */
  function EntryOf(task: Task): (int, Task) {
    (task.priority, task)
  }

  /**
   * As written, the queue serves the LOWEST priority first: an entry the
   * queue may hand out has a priority no greater than any other's, and
   * between tasks of equal priority __lt__ never decides.
   */
  lemma LowestPriorityServedFirst(entries: seq<(int, Task)>, i: int)
    requires Poppable(entries, i)
    requires forall j :: 0 <= j < |entries| ==> entries[j] == EntryOf(entries[j].1)
    ensures forall j :: 0 <= j < |entries| ==> entries[i].1.priority <= entries[j].1.priority
    ensures forall a: Task, b: Task :: a.priority == b.priority ==> !EntryLess(EntryOf(a), EntryOf(b))
  {
    forall j | 0 <= j < |entries| ensures entries[i].1.priority <= entries[j].1.priority {
      assert !EntryLess(entries[j], entries[i]);
    }
  }

  /** A queue holding a task of priority 10 added before one of priority 0
      hands out the priority-0 task first, and never the priority-10 one. */
  lemma HighPriorityWaits(high: Task, low: Task)
    requires high.priority == 10 && low.priority == 0
    ensures !Poppable([EntryOf(high), EntryOf(low)], 0)
    ensures Poppable([EntryOf(high), EntryOf(low)], 1)
  {
    var entries := [EntryOf(high), EntryOf(low)];
    assert EntryLess(entries[1], entries[0]);
    assert !EntryLess(entries[0], entries[1]) && !EntryLess(entries[1], entries[1]);
  }

  /** The intended order: higher priority first, and among equal priorities
      the task added first (its position `order` among the tasks added). */
  predicate CorrectedLess(a: (int, nat, Task), b: (int, nat, Task)) {
    a.0 < b.0 || (a.0 == b.0 && a.1 < b.1)
  }

  /** The corrected entry: the negated priority, then the insertion number. */
  function CorrectedEntryOf(task: Task, order: nat): (int, nat, Task) {
    (-task.priority, order, task)
  }

  predicate CorrectedPoppable(entries: seq<(int, nat, Task)>, i: int) {
    0 <= i < |entries| && forall j :: 0 <= j < |entries| ==> !CorrectedLess(entries[j], entries[i])
  }

  /** With corrected entries the queue hands out a task of the highest
      priority, the earliest added among those. */
  lemma CorrectedServesHighestFirst(entries: seq<(int, nat, Task)>, i: int)
    requires CorrectedPoppable(entries, i)
    requires forall j :: 0 <= j < |entries| ==> entries[j] == CorrectedEntryOf(entries[j].2, entries[j].1)
    ensures forall j :: 0 <= j < |entries| ==> entries[i].2.priority >= entries[j].2.priority
    ensures forall j :: 0 <= j < |entries| && entries[j].2.priority == entries[i].2.priority ==>
      entries[i].1 <= entries[j].1
  {
    forall j | 0 <= j < |entries| ensures entries[i].2.priority >= entries[j].2.priority {
      assert !CorrectedLess(entries[j], entries[i]);
    }
  }

  /** The number of tasks with the given status. */
  function CountStatus(tasks: Dict<string, Task>, status: TaskStatus): (n: nat)
    ensures n <= |tasks|
  {
    if tasks == [] then 0
    else CountStatus(tasks[..|tasks| - 1], status) + (if tasks[|tasks| - 1].1.status == status then 1 else 0)
  }

  /** Every task has exactly one of the four statuses, so their counts add up
      to the number of tasks. */
  lemma {:induction false} StatusCountsSum(tasks: Dict<string, Task>)
    ensures CountStatus(tasks, Pending) + CountStatus(tasks, Running)
            + CountStatus(tasks, Completed) + CountStatus(tasks, Failed) == |tasks|
  {
    if tasks != [] {
      StatusCountsSum(tasks[..|tasks| - 1]);
    }
  }

  datatype QueueStats = QueueStats(total: nat, pending: nat, running: nat, completed: nat, failed: nat)

  class ProcessingQueue {
    const maxWorkers: int
    var tasks: Dict<string, Task>
    var entries: seq<(int, Task)>

    constructor(maxWorkers: int := 4)
      ensures this.maxWorkers == maxWorkers && tasks == [] && entries == []
    {
      this.maxWorkers := maxWorkers;
      tasks, entries := [], [];
    }

    /** add_task: the task is stored under its id (replacing a task of the
        same id) and (priority, task) joins the priority queue. */
    method AddTask(task: Task)
      modifies this
      ensures tasks == Put(old(tasks), task.id, task)
      ensures entries == old(entries) + [EntryOf(task)]
    {
      tasks := Put(tasks, task.id, task);
      entries := entries + [(task.priority, task)];
    }

    /** get_stats: the number of tasks and, counted in a loop over them, how
        many have each status. */
    method GetStats() returns (s: QueueStats)
      ensures s.total == |tasks|
      ensures s.pending == CountStatus(tasks, Pending) && s.running == CountStatus(tasks, Running)
      ensures s.completed == CountStatus(tasks, Completed) && s.failed == CountStatus(tasks, Failed)
      ensures s.pending + s.running + s.completed + s.failed == s.total
    {
      s := QueueStats(|tasks|, 0, 0, 0, 0);
      var i := 0;
      while i < |tasks|
        invariant i <= |tasks| && s.total == |tasks|
        invariant s.pending == CountStatus(tasks[..i], Pending) && s.running == CountStatus(tasks[..i], Running)
        invariant s.completed == CountStatus(tasks[..i], Completed) && s.failed == CountStatus(tasks[..i], Failed)
      {
        assert tasks[..i + 1][..i] == tasks[..i];
        match tasks[i].1.status {
          case Pending => s := s.(pending := s.pending + 1);
          case Running => s := s.(running := s.running + 1);
          case Completed => s := s.(completed := s.completed + 1);
          case Failed => s := s.(failed := s.failed + 1);
        }
        i := i + 1;
      }
      assert tasks[..i] == tasks;
      StatusCountsSum(tasks);
    }
  }

  // ---------------------------------------------------------------------
  // ApiCache (memory layer)
  // ---------------------------------------------------------------------

  /** A cache entry: when it was stored and the data. */
  datatype CacheEntry<V> = CacheEntry(timestamp: int, data: V)

  /** What reading the key's cache file gave. */
  datatype CacheFile<V> = NoFile | Corrupt | File(entry: CacheEntry<V>)

  /** An entry is served while its age is below max_age. */
  predicate Fresh<V>(e: CacheEntry<V>, maxAge: int, now: int) {
    e.timestamp + maxAge > now
  }

  /** clear_expired drops an entry only once its age is above max_age. */
  predicate Expired<V>(e: CacheEntry<V>, maxAge: int, now: int) {
    e.timestamp + maxAge < now
  }

  /**
   * get, on the memory cache `memory` and with `file` what the key's cache
   * file held: the answer and the memory cache afterwards. A fresh memory
   * entry answers; an expired one is dropped; then a fresh file entry
   * answers and is kept in memory, and anything else answers None.
   */
  function Lookup<V>(memory: map<string, CacheEntry<V>>, maxAge: int, key: string, now: int,
                     file: CacheFile<V>): (r: (Option<V>, map<string, CacheEntry<V>>))
    ensures key in memory && Fresh(memory[key], maxAge, now) ==> r == (Some(memory[key].data), memory)
    ensures r.0.Some? ==> key in r.1 && Fresh(r.1[key], maxAge, now) && r.0.value == r.1[key].data
    ensures forall k :: k != key ==> (k in r.1 <==> k in memory) && (k in memory ==> r.1[k] == memory[k])
    ensures key in memory && !Fresh(memory[key], maxAge, now) && !(file.File? && Fresh(file.entry, maxAge, now))
            ==> r.0.None? && key !in r.1
  {
    if key in memory && Fresh(memory[key], maxAge, now) then (Some(memory[key].data), memory)
    else
      var m := memory - {key};
      if file.File? && Fresh(file.entry, maxAge, now) then (Some(file.entry.data), m[key := file.entry])
      else (None, m)
  }

  /** The memory cache after clear_expired: the entries not yet expired. */
  function Unexpired<V>(memory: map<string, CacheEntry<V>>, maxAge: int, now: int): (r: map<string, CacheEntry<V>>)
    ensures forall k :: k in r <==> k in memory && !Expired(memory[k], maxAge, now)
    ensures forall k :: k in r ==> r[k] == memory[k]
  {
    map k | k in memory && !Expired(memory[k], maxAge, now) :: memory[k]
  }

  class ApiCache<V> {
    const maxAge: int
    var memory: map<string, CacheEntry<V>>

    constructor(maxAge: int := 3600)
      ensures this.maxAge == maxAge && memory == map[]
    {
      this.maxAge := maxAge;
      memory := map[];
    }

    /** get: see Lookup. */
    method Get(key: string, now: int, file: CacheFile<V>) returns (r: Option<V>)
      modifies this
      ensures (r, memory) == Lookup(old(memory), maxAge, key, now, file)
    {
      assert key !in memory ==> memory - {key} == memory;
      if key in memory {
        var entry := memory[key];
        if entry.timestamp + maxAge > now {
          return Some(entry.data);
        } else {
          memory := memory - {key};
        }
      }
      if file.File? && file.entry.timestamp + maxAge > now {
        memory := memory[key := file.entry];
        return Some(file.entry.data);
      }
      return None;
    }

    /** set: the key's entry is the value, stored now. */
    method Set(key: string, value: V, now: int)
      modifies this
      ensures memory == old(memory)[key := CacheEntry(now, value)]
    {
      memory := memory[key := CacheEntry(now, value)];
    }

    /** clear: one key, or with no key every entry. */
    method Clear(key: Option<string> := None)
      modifies this
      ensures key.None? ==> memory == map[]
      ensures key.Some? ==> memory == old(memory) - {key.value}
    {
      if key.None? {
        memory := map[];
      } else {
        memory := memory - {key.value};
      }
    }

    /**
     * clear_expired: drops the expired memory entries one by one and
     * answers how many entries went, those and the `fileCleared` cache
     * files the file layer removed.
     */
    method ClearExpired(now: int, fileCleared: nat) returns (cleared: nat)
      modifies this
      ensures memory == Unexpired(old(memory), maxAge, now)
      ensures cleared == |old(memory).Keys| - |memory.Keys| + fileCleared
    {
      var expired := set k | k in memory && memory[k].timestamp + maxAge < now;
      ghost var kept := Unexpired(memory, maxAge, now);
      cleared := 0;
      while expired != {}
        invariant expired <= memory.Keys
        invariant forall k :: k in memory ==> k in old(memory) && memory[k] == old(memory)[k]
        invariant forall k :: k in old(memory) ==> (k in memory <==> k in kept || k in expired)
        invariant expired !! kept.Keys
        invariant cleared + |memory.Keys| == |old(memory).Keys|
        decreases |expired|
      {
        var k :| k in expired;
        assert memory.Keys - {k} == (memory - {k}).Keys;
        memory := memory - {k};
        expired := expired - {k};
        cleared := cleared + 1;
      }
      assert memory == kept;
      cleared := cleared + fileCleared;
    }
  }

  /** After set, a get made before max_age has passed answers the stored
      value from memory, whatever the cache file holds. */
  lemma SetThenGet<V>(memory: map<string, CacheEntry<V>>, maxAge: int, key: string, value: V,
                      stored: int, now: int, file: CacheFile<V>)
    requires now < stored + maxAge
    ensures Lookup(memory[key := CacheEntry(stored, value)], maxAge, key, now, file).0 == Some(value)
  {
  }

  /** An entry exactly max_age old is neither served by get nor dropped by
      clear_expired. */
  lemma BoundaryEntry<V>(memory: map<string, CacheEntry<V>>, maxAge: int, key: string, now: int)
    requires key in memory && memory[key].timestamp + maxAge == now
    ensures Lookup(memory, maxAge, key, now, NoFile).0.None?
    ensures key in Unexpired(memory, maxAge, now)
  {
  }
}
