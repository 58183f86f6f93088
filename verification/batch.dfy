/*
 * Batch: DownloadQueue (mangabook/batch.py), the persistent queue of
 * download jobs and the history of finished ones. Reading and writing the
 * JSON queue file are not part of this model; the clock is a parameter, and
 * so is what process_manga returned or raised for the job being processed.
 */
module Batch {
  import opened Text
  import Sorting
  import History
  import Dicts

  type Timestamp = int

  /** At most this many finished jobs are kept. */
  const HistoryLimit := 100

  datatype Status = Pending | Running | Completed | Failed

  /** What processing a job gave: the result dict of process_manga, or the
      message of the exception it raised. */
  datatype JobResult =
    | Processed(successful: int, epubFiles: seq<string>, error: Option<string>)
    | Raised(message: string)

  datatype Job = Job(id: string, mangaId: string, mangaTitle: string, volumes: seq<string>,
                     outputDir: string, keepRaw: bool, quality: int, kobo: bool, priority: int,
                     status: Status, addedAt: Timestamp, startedAt: Option<Timestamp>,
                     completedAt: Option<Timestamp>, result: Option<JobResult>)

  /** The job id: the manga id, '_' and the whole seconds of the clock. */
  function JobId(mangaId: string, seconds: nat): (r: string)
    ensures StartsWith(r, mangaId + "_")
    ensures IsDigits(r[|mangaId| + 1..])
  {
    assert (mangaId + "_" + NatToString(seconds))[|mangaId| + 1..] == NatToString(seconds);
    mangaId + "_" + NatToString(seconds)
  }

  /** Two jobs of one manga get the same id only when added in the same second. */
  lemma JobIdInjective(mangaId: string, s1: nat, s2: nat)
    requires JobId(mangaId, s1) == JobId(mangaId, s2)
    ensures s1 == s2
  {
    var n := |mangaId| + 1;
    assert JobId(mangaId, s1)[n..] == NatToString(s1);
    assert JobId(mangaId, s2)[n..] == NatToString(s2);
    NatToStringInjective(s1, s2);
  }

  /** `output_dir or config.get_output_dir()`: an empty directory counts as none. */
  function OutputDirOf(outputDir: Option<string>, configured: string): (r: string)
    ensures outputDir.Some? && outputDir.value != [] ==> r == outputDir.value
    ensures outputDir.None? || outputDir.value == [] ==> r == configured
  {
    if outputDir.Some? && outputDir.value != [] then outputDir.value else configured
  }

  /** sort(key=priority, reverse=True): highest priority first. */
  function ByPriority(j: Job): Sorting.Rank {
    Sorting.Finite(-(j.priority as real))
  }

  /** The first job with the given id. */
  function FirstWithId(jobs: seq<Job>, jobId: string): (r: Option<nat>)
    ensures r.Some? ==> r.value < |jobs| && jobs[r.value].id == jobId
    ensures r.Some? ==> forall j :: 0 <= j < r.value ==> jobs[j].id != jobId
    ensures r.None? <==> forall j :: 0 <= j < |jobs| ==> jobs[j].id != jobId
  {
    if jobs == [] then None
    else if jobs[0].id == jobId then Some(0)
    else
      match FirstWithId(jobs[1..], jobId)
      case None => None
      case Some(i) => Some(i + 1)
  }

  /** The first index holding the id is the one FirstWithId finds. */
  lemma FirstWithIdAt(jobs: seq<Job>, jobId: string, i: nat)
    requires i < |jobs| && jobs[i].id == jobId
    requires forall j :: 0 <= j < i ==> jobs[j].id != jobId
    ensures FirstWithId(jobs, jobId) == Some(i)
  {
    var r := FirstWithId(jobs, jobId);
    assert r.Some?;
    assert !(r.value < i) && !(r.value > i);
  }

  /** Where get_job finds a job: the current job, then the queue, then the history. */
  function SearchJobs(current: Option<Job>, queue: seq<Job>, history: seq<Job>, jobId: string): Option<Job> {
    if current.Some? && current.value.id == jobId then current
    else match FirstWithId(queue, jobId)
      case Some(i) => Some(queue[i])
      case None =>
        match FirstWithId(history, jobId)
        case Some(i) => Some(history[i])
        case None => None
  }

  /** get_job finds a job exactly when one of the three places holds its id;
      the current job wins over the queue, and the queue over the history. */
  lemma SearchJobsProperties(current: Option<Job>, queue: seq<Job>, history: seq<Job>, jobId: string)
    ensures var r := SearchJobs(current, queue, history, jobId);
      && (r.Some? ==> r.value.id == jobId)
      && (r.None? <==>
            (current.None? || current.value.id != jobId)
            && (forall j :: 0 <= j < |queue| ==> queue[j].id != jobId)
            && (forall j :: 0 <= j < |history| ==> history[j].id != jobId))
      && (current.Some? && current.value.id == jobId ==> r == current)
      && (forall i :: 0 <= i < |queue| && queue[i].id == jobId ==>
            (current.None? || current.value.id != jobId) ==> r.Some? && r.value in queue)
  {
  }

  /** The job as it leaves process_next_job. */
  function Finished(job: Job, result: JobResult, startedAt: Timestamp, completedAt: Timestamp): (r: Job)
    ensures r.status == Completed <==> result.Processed? && result.successful > 0
    ensures r.status == Failed <==> !(result.Processed? && result.successful > 0)
    ensures r.id == job.id && r.priority == job.priority && r.volumes == job.volumes
  {
    job.(status := if result.Processed? && result.successful > 0 then Completed else Failed,
         startedAt := Some(startedAt), completedAt := Some(completedAt), result := Some(result))
  }

  /** The metadata of the download record for a processed job. */
  function DownloadMetadata(job: Job, result: JobResult): History.Metadata
    requires result.Processed?
  {
    if result.successful > 0 then
      map["job_id" := History.Str(job.id), "epub_files" := History.Strs(result.epubFiles)]
    else
      map["job_id" := History.Str(job.id),
          "error" := History.Str(if result.error.Some? then result.error.value else "Unknown error")]
  }

  /** The history after a finished job: the job first, at most 100 jobs. */
  function WithFinished(history: seq<Job>, job: Job): (r: seq<Job>)
    ensures |r| <= HistoryLimit
    ensures |r| == if |history| < HistoryLimit then |history| + 1 else HistoryLimit
    ensures r[0] == job && r[1..] == history[..|r| - 1]
  {
    SliceTo([job] + history, HistoryLimit)
  }

  /** What _load_queue found: no file, a file it could not read, or the stored lists. */
  datatype StoredQueue = NoFile | Unreadable | Stored(queue: seq<Job>, history: seq<Job>, lastUpdated: Timestamp)

  class DownloadQueue {
    var queue: seq<Job>
    var history: seq<Job>
    var lastUpdated: Timestamp
    var currentJob: Option<Job>

    /** __init__: the stored queue, or an empty one updated now; no job is current. */
    constructor(stored: StoredQueue, now: Timestamp)
      ensures stored.Stored? ==> queue == stored.queue && history == stored.history
                                 && lastUpdated == stored.lastUpdated
      ensures !stored.Stored? ==> queue == [] && history == [] && lastUpdated == now
      ensures currentJob.None?
    {
      if stored.Stored? {
        queue, history, lastUpdated := stored.queue, stored.history, stored.lastUpdated;
      } else {
        queue, history, lastUpdated := [], [], now;
      }
      currentJob := None;
    }

    /**
     * add_job: a pending job whose id is the manga id and the seconds of
     * the clock joins the queue, which is then sorted by priority, highest
     * first (see AddJobPlacement for where the new job lands).
     */
    method AddJob(mangaId: string, mangaTitle: string, volumes: seq<string>, now: Timestamp, seconds: nat,
                  configuredOutputDir: string, outputDir: Option<string> := None, keepRaw: bool := false,
                  quality: int := 85, kobo: bool := true, priority: int := 0) returns (job: Job)
      modifies this
      ensures job == Job(JobId(mangaId, seconds), mangaId, mangaTitle, volumes,
                         OutputDirOf(outputDir, configuredOutputDir), keepRaw, quality, kobo, priority,
                         Pending, now, None, None, None)
      ensures queue == Sorting.SortBy(old(queue) + [job], ByPriority)
      ensures Sorting.SortedBy(queue, ByPriority) && multiset(queue) == multiset(old(queue)) + multiset{job}
      ensures lastUpdated == now
      ensures history == old(history) && currentJob == old(currentJob)
    {
      job := Job(JobId(mangaId, seconds), mangaId, mangaTitle, volumes,
                 OutputDirOf(outputDir, configuredOutputDir), keepRaw, quality, kobo, priority,
                 Pending, now, None, None, None);
      queue := queue + [job];
      lastUpdated := now;
      queue := Sorting.SortBy(queue, ByPriority);
    }

    /** get_job, searching with loops in the order SearchJobs describes. */
    method GetJob(jobId: string) returns (r: Option<Job>)
      ensures r == SearchJobs(currentJob, queue, history, jobId)
    {
      if currentJob.Some? && currentJob.value.id == jobId {
        return currentJob;
      }
      var i := 0;
      while i < |queue|
        invariant i <= |queue|
        invariant forall j :: 0 <= j < i ==> queue[j].id != jobId
      {
        if queue[i].id == jobId {
          FirstWithIdAt(queue, jobId, i);
          return Some(queue[i]);
        }
        i := i + 1;
      }
      i := 0;
      while i < |history|
        invariant i <= |history|
        invariant forall j :: 0 <= j < i ==> history[j].id != jobId
      {
        if history[i].id == jobId {
          FirstWithIdAt(history, jobId, i);
          return Some(history[i]);
        }
        i := i + 1;
      }
      return None;
    }

    /** get_queue: a copy of the queue, in queue order. */
    method GetQueue() returns (q: seq<Job>)
      ensures q == queue
    {
      q := queue;
    }

    /** get_history: history[:limit], most recently finished first. */
    method GetHistory(limit: int := 10) returns (h: seq<Job>)
      ensures h == SliceTo(history, limit)
      ensures limit >= 0 ==> |h| == if limit <= |history| then limit else |history|
    {
      h := SliceTo(history, limit);
    }

    /**
     * remove_job: deletes the first queued job with the id and answers
     * true; answers false and changes nothing when no queued job has it.
     * Finished jobs and the current job are not looked at.
     */
    method RemoveJob(jobId: string, now: Timestamp) returns (removed: bool)
      modifies this
      ensures removed <==> exists j :: 0 <= j < |old(queue)| && old(queue)[j].id == jobId
      ensures removed ==>
        var k := FirstWithId(old(queue), jobId).value;
        queue == old(queue)[..k] + old(queue)[k + 1..] && lastUpdated == now
      ensures !removed ==> queue == old(queue) && lastUpdated == old(lastUpdated)
      ensures history == old(history) && currentJob == old(currentJob)
    {
      var i := 0;
      while i < |queue|
        invariant i <= |queue|
        invariant queue == old(queue) && lastUpdated == old(lastUpdated)
        invariant forall j :: 0 <= j < i ==> queue[j].id != jobId
      {
        if queue[i].id == jobId {
          FirstWithIdAt(queue, jobId, i);
          queue := queue[..i] + queue[i + 1..];
          lastUpdated := now;
          return true;
        }
        i := i + 1;
      }
      return false;
    }

    /** clear_queue: empties the queue and answers how many jobs it held. */
    method ClearQueue(now: Timestamp) returns (count: nat)
      modifies this
      ensures count == |old(queue)| && queue == []
      ensures lastUpdated == now && history == old(history) && currentJob == old(currentJob)
    {
      count := |queue|;
      queue := [];
      lastUpdated := now;
    }

    /** clear_history: empties the history and answers how many jobs it held. */
    method ClearHistory(now: Timestamp) returns (count: nat)
      modifies this
      ensures count == |old(history)| && history == []
      ensures lastUpdated == now && queue == old(queue) && currentJob == old(currentJob)
    {
      count := |history|;
      history := [];
      lastUpdated := now;
    }

    /**
     * process_next_job: nothing on an empty queue. Otherwise the head of
     * the queue is taken off and processed; `outcome` is what processing
     * it returned or raised. A returned result is recorded as a download of
     * the manga (successful exactly when at least one volume was), a raised
     * one is not. The finished job goes to the front of the history, which
     * keeps at most 100 jobs, and no job is current afterwards.
     */
    method ProcessNextJob(outcome: JobResult, startedAt: Timestamp, completedAt: Timestamp,
                          mangaHistory: History.MangaHistory) returns (r: Option<Job>)
      requires mangaHistory.Valid()
      modifies this, mangaHistory
      ensures mangaHistory.Valid()
      ensures old(queue) == [] ==>
        r.None? && queue == old(queue) && history == old(history) && currentJob == old(currentJob)
        && mangaHistory.manga == old(mangaHistory.manga)
      ensures old(queue) != [] ==>
        && r == Some(Finished(old(queue)[0], outcome, startedAt, completedAt))
        && queue == old(queue)[1..]
        && history == WithFinished(old(history), r.value)
        && currentJob.None?
      ensures old(queue) != [] && outcome.Processed? ==>
        var job := old(queue)[0];
        && mangaHistory.lastUpdated == completedAt
        && Dicts.Get(mangaHistory.manga, job.mangaId).Some?
        && var e := Dicts.Get(mangaHistory.manga, job.mangaId).value;
        && e.downloads == History.StartEntry(old(mangaHistory.manga), job.mangaId, job.mangaTitle, completedAt).downloads
             + [History.Download(completedAt, job.volumes, outcome.successful > 0, DownloadMetadata(job, outcome))]
        && (forall k :: k != job.mangaId ==> Dicts.Get(mangaHistory.manga, k) == Dicts.Get(old(mangaHistory.manga), k))
      ensures old(queue) != [] && outcome.Raised? ==> mangaHistory.manga == old(mangaHistory.manga)
      ensures lastUpdated == old(lastUpdated)
    {
      if queue == [] {
        return None;
      }
      var job := queue[0];
      queue := queue[1..];
      currentJob := Some(job);
      job := job.(status := Running, startedAt := Some(startedAt));
      currentJob := Some(job);
      if outcome.Processed? {
        job := job.(status := if outcome.successful > 0 then Completed else Failed,
                    completedAt := Some(completedAt), result := Some(outcome));
        mangaHistory.RecordMangaDownload(job.mangaId, job.mangaTitle, job.volumes, completedAt,
                                         outcome.successful > 0, Some(DownloadMetadata(job, outcome)));
      } else {
        job := job.(status := Failed, completedAt := Some(completedAt), result := Some(outcome));
      }
      history := [job] + history;
      if |history| > HistoryLimit {
        history := history[..HistoryLimit];
      }
      currentJob := None;
      return Some(job);
    }
  }

  /** The sorted queue is `queue` with `job` at index k, behind every job of
      at least its priority and ahead of every job of lower priority. */
  predicate AddedAt(queue: seq<Job>, job: Job, k: nat)
    requires k <= |queue|
  {
    && Sorting.SortBy(queue + [job], ByPriority) == queue[..k] + [job] + queue[k..]
    && (forall i :: 0 <= i < k ==> queue[i].priority >= job.priority)
    && (forall i :: k <= i < |queue| ==> queue[i].priority < job.priority)
  }

  /**
   * Where add_job puts a new job in a queue sorted by priority: after every
   * job of at least its priority and before every job of lower priority,
   * so jobs of equal priority are served in the order they were added; the
   * other jobs keep their order.
   */
  lemma AddJobPlacement(queue: seq<Job>, job: Job)
    requires Sorting.SortedBy(queue, ByPriority)
    ensures exists k :: 0 <= k <= |queue| && AddedAt(queue, job, k)
  {
    Sorting.SortAppendSorted(queue, job, ByPriority);
    Sorting.InsertAt(queue, job, ByPriority);
    var k := Sorting.InsertIndex(queue, job, ByPriority);
    assert Sorting.SortBy(queue + [job], ByPriority) == queue[..k] + [job] + queue[k..];
    PriorityBefore(queue, job, k);
    PriorityAfter(queue, job, k);
    assert AddedAt(queue, job, k);
  }

  lemma PriorityBefore(queue: seq<Job>, job: Job, k: nat)
    requires Sorting.SortedBy(queue, ByPriority) && k <= |queue|
    requires k > 0 ==> !Sorting.Below(ByPriority(job), ByPriority(queue[k - 1]))
    ensures forall i :: 0 <= i < k ==> queue[i].priority >= job.priority
  {
    forall i | 0 <= i < k ensures queue[i].priority >= job.priority {
      assert job.priority <= queue[k - 1].priority;
      if i < k - 1 {
        assert !Sorting.Below(ByPriority(queue[k - 1]), ByPriority(queue[i]));
      }
    }
  }

  lemma PriorityAfter(queue: seq<Job>, job: Job, k: nat)
    requires k <= |queue|
    requires forall i :: k <= i < |queue| ==> Sorting.Below(ByPriority(job), ByPriority(queue[i]))
    ensures forall i :: k <= i < |queue| ==> queue[i].priority < job.priority
  {
    forall i | k <= i < |queue| ensures queue[i].priority < job.priority {
      assert Sorting.Below(ByPriority(job), ByPriority(queue[i]));
    }
  }

  /** In a queue sorted by priority the head, which process_next_job takes,
      has the highest priority. */
  lemma HeadHasTopPriority(queue: seq<Job>)
    requires Sorting.SortedBy(queue, ByPriority) && queue != []
    ensures forall i :: 0 <= i < |queue| ==> queue[0].priority >= queue[i].priority
  {
    forall i | 0 < i < |queue| ensures queue[0].priority >= queue[i].priority {
      assert !Sorting.Below(ByPriority(queue[i]), ByPriority(queue[0]));
    }
  }
}
