/*
 * VolumeDownload: download_volume and download_manga_volumes of
 * mangabook/downloader.py — which chapters of a volume are downloaded and
 * in what order, what the volume's result counts, the manifest calls made
 * for the volume, and the tally over several volumes.
 *
 * The API's volume listing, the cache lookup, whether a manifest was found
 * on disk, and how each chapter's download coroutine ended are inputs.
 */
module VolumeDownload {
  import opened Text
  import opened Dicts
  import opened Downloader
  import Sorting
  import Utils
  import ChapterOrder
  import Parallel

  // ---------------------------------------------------------------------
  // Volumes
  // ---------------------------------------------------------------------

  /** A chapter of the API's volume listing: its id and, when given, its title. */
  datatype ChapterData = ChapterData(id: string, title: Option<string>)

  /** A volume of the listing: its "chapters" dict, keyed by chapter number
      (empty when the listing has none). */
  datatype VolumeData = VolumeData(chapters: Dict<string, ChapterData>)

  /** The API's volume listing, keyed by volume number. */
  type Volumes = Dict<string, VolumeData>

  /** How the download coroutine of one chapter ended: it ran to its end
      on the given input, or it timed out, or it raised. */
  datatype ChapterRun = Completes(input: ChapterInput) | TimesOut | Fails(message: string)

  /** A chapter of chapter_data: id, number and title. */
  datatype ChapterEntry = ChapterEntry(id: string, number: string, title: string)

  /** What download_volume returns: a volume that is not found or has no
      chapters, with zero counts and zero stats; or the outcome of the
      download, with the calls made on the volume manifest. */
  datatype VolumeResult =
    | NotDownloaded(message: string)
    | Downloaded(chaptersDownloaded: nat, totalChapters: nat, chapters: Dict<string, Parallel.ChapterResult>,
                 stats: Stats, calls: seq<ManifestCall>)

  /** result["success"]: some chapter succeeded. */
  predicate VolumeSuccess(r: VolumeResult) {
    r.Downloaded? && r.chaptersDownloaded > 0
  }

  /** result["stats"]. */
  function VolumeStatsOf(r: VolumeResult): Stats {
    if r.Downloaded? then r.stats else NoStats
  }

  /** The listing used: the cached one when the cache is used and holds
      one, otherwise the one the API answers. */
  function VolumesOf(useCache: bool, cached: Option<Volumes>, fetched: Volumes): Volumes {
    if useCache && cached.Some? then cached.value else fetched
  }

  /** The key looked up: volume "0" falls back to "none" when the listing
      has no "0" but has "none". */
  function VolumeKey(volumes: Volumes, volumeNumber: string): (r: string)
    ensures r == volumeNumber || r == "none"
    ensures r != volumeNumber <==> volumeNumber == "0" && "0" !in Keys(volumes) && "none" in Keys(volumes)
  {
    if volumeNumber == "0" && "0" !in Keys(volumes) && "none" in Keys(volumes) then "none" else volumeNumber
  }

  /** data.get("title", f"Chapter {chapter_num}"). */
  function ChapterTitle(number: string, data: ChapterData): string {
    if data.title.Some? then data.title.value else "Chapter " + number
  }

  /** A chapter is kept when no ids are asked for or its id is among them. */
  predicate Wanted(id: string, chapterIds: Option<seq<string>>) {
    chapterIds.None? || id in chapterIds.value
  }

  /** chapter_data before the sort: the wanted chapters in listing order. */
  function Selected(chapters: Dict<string, ChapterData>, chapterIds: Option<seq<string>>): (r: seq<ChapterEntry>)
    ensures |r| <= |chapters|
  {
    if chapters == [] then []
    else
      var n := |chapters| - 1;
      Selected(chapters[..n], chapterIds)
        + (if Wanted(chapters[n].1.id, chapterIds) then [EntryOf(chapters[n])] else [])
  }

  /** The chapter_data entry of one (number, data) pair of the listing. */
  function EntryOf(chapter: (string, ChapterData)): ChapterEntry {
    ChapterEntry(chapter.1.id, chapter.0, ChapterTitle(chapter.0, chapter.1))
  }

  /** The sort key of a chapter entry. */
  function EntryKey(e: ChapterEntry): Sorting.Rank {
    ChapterOrder.ChapterKey(e.number)
  }

  /** The manifest calls of the chapter loop: one update per chapter, with
      its sanitised title. */
  function AddChapterCalls(entries: seq<ChapterEntry>): (r: seq<ManifestCall>)
    ensures |r| == |entries|
  {
    seq(|entries|, i requires 0 <= i < |entries| =>
      AddChapter(entries[i].id, entries[i].number, Utils.SanitizeFilename(entries[i].title)))
  }

  /** The download jobs, one per chapter, in chapter order. */
  function Jobs(entries: seq<ChapterEntry>): (r: seq<Parallel.ChapterJob>)
    ensures |r| == |entries|
  {
    seq(|entries|, i requires 0 <= i < |entries| => Parallel.ChapterJob(Some(entries[i].id)))
  }

  /** How the chapter coroutine of one chapter ends, as the download
      manager sees it: a finished download succeeds when some page did. */
  function ChapterAttempt(e: ChapterEntry, run: ChapterRun, keepRaw: bool, checkLocal: bool, forceDownload: bool): Parallel.Attempt
  {
    match run
    case Completes(input) =>
      var d := ChapterDownloadOf(e.id, input, keepRaw, checkLocal, forceDownload, true);
      Parallel.Returned(Parallel.ChapterResult(d.successful > 0, None, None))
    case TimesOut => Parallel.TimedOut
    case Fails(message) => Parallel.Threw(message)
  }

  function ChapterAttempts(entries: seq<ChapterEntry>, run: string -> ChapterRun, keepRaw: bool, checkLocal: bool,
                           forceDownload: bool): (r: seq<Parallel.Attempt>)
    ensures |r| == |entries|
  {
    seq(|entries|, i requires 0 <= i < |entries| =>
      ChapterAttempt(entries[i], run(entries[i].id), keepRaw, checkLocal, forceDownload))
  }

  /** What a chapter adds to the volume's stats and manifest calls: only a
      download that ran to its end does. */
  function ChapterShare(e: ChapterEntry, run: ChapterRun, keepRaw: bool, checkLocal: bool, forceDownload: bool): (Stats, seq<ManifestCall>)
  {
    match run
    case Completes(input) =>
      var d := ChapterDownloadOf(e.id, input, keepRaw, checkLocal, forceDownload, true);
      (d.stats, d.calls)
    case _ => (NoStats, [])
  }

  /** The volume's stats: the field-by-field sum over its chapters. */
  function VolumeStats(entries: seq<ChapterEntry>, run: string -> ChapterRun, keepRaw: bool, checkLocal: bool,
                       forceDownload: bool): Stats
  {
    if entries == [] then NoStats
    else
      var n := |entries| - 1;
      AddStats(VolumeStats(entries[..n], run, keepRaw, checkLocal, forceDownload),
               ChapterShare(entries[n], run(entries[n].id), keepRaw, checkLocal, forceDownload).0)
  }

  /** The manifest calls of the chapter downloads, chapter after chapter. */
  function VolumeChapterCalls(entries: seq<ChapterEntry>, run: string -> ChapterRun, keepRaw: bool, checkLocal: bool,
                              forceDownload: bool): seq<ManifestCall>
  {
    if entries == [] then []
    else
      var n := |entries| - 1;
      VolumeChapterCalls(entries[..n], run, keepRaw, checkLocal, forceDownload)
        + ChapterShare(entries[n], run(entries[n].id), keepRaw, checkLocal, forceDownload).1
  }

  /** The calls that get the manifest: a load when local files are
      checked and downloads not forced, then a creation when nothing was
      loaded or downloads are forced. */
  function ManifestStart(mangaId: string, mangaTitle: string, key: string, checkLocal: bool, forceDownload: bool,
                         found: bool): seq<ManifestCall>
  {
    (if checkLocal && !forceDownload then [LoadManifest(key)] else [])
      + (if !(checkLocal && !forceDownload) || !found then [CreateManifest(mangaId, mangaTitle, key)] else [])
  }

  /** chapter_data after the sort: the wanted chapters by chapter number,
      numbers that are no number last, ties in listing order. */
  function VolumeEntries(chapters: Dict<string, ChapterData>, chapterIds: Option<seq<string>>): (r: seq<ChapterEntry>)
    ensures Sorting.SortedBy(r, EntryKey)
    ensures multiset(r) == multiset(Selected(chapters, chapterIds))
  {
    Sorting.SortBy(Selected(chapters, chapterIds), EntryKey)
  }

  /**
   * What download_volume gives for the listing used, when `found` says
   * whether a manifest was loaded. A volume missing from the listing, or
   * without chapters, is not downloaded. Otherwise the chapters counted as
   * downloaded are those the download manager saw succeed; the stats add
   * up the chapters' stats; and the manifest calls are: getting the
   * manifest, one update per chapter, the chapters' own calls, and last
   * the volume status.
   */
  function VolumeOf(mangaId: string, mangaTitle: string, volumeNumber: string, volumes: Volumes,
                    chapterIds: Option<seq<string>>, checkLocal: bool, forceDownload: bool, keepRaw: bool,
                    found: bool, run: string -> ChapterRun, timeout: nat): VolumeResult
  {
    var key := VolumeKey(volumes, volumeNumber);
    if key !in Keys(volumes) then NotDownloaded("Volume " + key + " not found")
    else
      var chapters := Get(volumes, key).value.chapters;
      if chapters == [] then NotDownloaded("No chapters found")
      else
        var entries := VolumeEntries(chapters, chapterIds);
        var rs := Parallel.Settled(ChapterAttempts(entries, run, keepRaw, checkLocal, forceDownload), timeout);
        var done := Parallel.Successes(rs);
        Downloaded(done, |entries|, Parallel.Keyed(Parallel.ChapterIds(Jobs(entries)), rs),
                   VolumeStats(entries, run, keepRaw, checkLocal, forceDownload),
                   ManifestStart(mangaId, mangaTitle, key, checkLocal, forceDownload, found)
                     + AddChapterCalls(entries)
                     + VolumeChapterCalls(entries, run, keepRaw, checkLocal, forceDownload)
                     + [VolumeStatus(done == |entries|)])
  }

  /**
   * download_volume. The listing is the cached one or the API's; volume
   * "0" may fall back to "none". Each chapter's download runs to its end,
   * times out or raises as `run` says for its id; the download manager
   * then tallies the results and records them.
   */
  method DownloadVolume(mangaId: string, mangaTitle: string, volumeNumber: string, useCache: bool,
                        cached: Option<Volumes>, fetched: Volumes, chapterIds: Option<seq<string>>,
                        checkLocal: bool, forceDownload: bool, keepRaw: bool, found: bool,
                        run: string -> ChapterRun, manager: Parallel.DownloadManager)
    returns (r: VolumeResult)
    modifies manager
    ensures r == VolumeOf(mangaId, mangaTitle, volumeNumber, VolumesOf(useCache, cached, fetched), chapterIds,
                          checkLocal, forceDownload, keepRaw, found, run, manager.timeout)
    ensures r.NotDownloaded? ==>
              && manager.results == old(manager.results) && manager.inProgress == old(manager.inProgress)
              && manager.completed == old(manager.completed) && manager.failed == old(manager.failed)
    ensures r.Downloaded? ==>
              var volumes := VolumesOf(useCache, cached, fetched);
              var entries := VolumeEntries(Get(volumes, VolumeKey(volumes, volumeNumber)).value.chapters, chapterIds);
              var ids := Parallel.ChapterIds(Jobs(entries));
              var rs := Parallel.Settled(ChapterAttempts(entries, run, keepRaw, checkLocal, forceDownload),
                                         manager.timeout);
              && manager.results == Parallel.Recorded(old(manager.results), ids, rs)
              && manager.inProgress == old(manager.inProgress) - Elements(ids)
              && manager.completed == old(manager.completed) + Parallel.IdsWith(ids, rs, true)
              && manager.failed == old(manager.failed) + Parallel.IdsWith(ids, rs, false)
  {
    var volumes := VolumesOf(useCache, cached, fetched);
    var key := VolumeKey(volumes, volumeNumber);
    if key !in Keys(volumes) {
      return NotDownloaded("Volume " + key + " not found");
    }
    var chapters := Get(volumes, key).value.chapters;
    if chapters == [] {
      return NotDownloaded("No chapters found");
    }
    var start := StartManifest(mangaId, mangaTitle, key, checkLocal, forceDownload, found);
    var selected := SelectChapters(chapters, chapterIds);
    var entries := Sorting.SortBy(selected, EntryKey);
    var jobs, chapterCalls := ChapterJobs(entries);
    var attempts, stats, downloadCalls := RunChapters(entries, run, keepRaw, checkLocal, forceDownload);
    var summary := manager.DownloadChapters(jobs, attempts);
    var done := summary.completed;
    r := Downloaded(done, |entries|, summary.chapters, stats,
                    start + chapterCalls + downloadCalls + [VolumeStatus(done == |entries|)]);
  }

  /** Getting the manifest: loaded when local files are checked and
      downloads not forced, created when none was found or downloads are
      forced. */
  method StartManifest(mangaId: string, mangaTitle: string, key: string, checkLocal: bool, forceDownload: bool,
                       found: bool)
    returns (calls: seq<ManifestCall>)
    ensures calls == ManifestStart(mangaId, mangaTitle, key, checkLocal, forceDownload, found)
  {
    var present := false;
    calls := [];
    if checkLocal && !forceDownload {
      present := found;
      calls := calls + [LoadManifest(key)];
    }
    if !present || forceDownload {
      calls := calls + [CreateManifest(mangaId, mangaTitle, key)];
    }
  }

  /** The filter loop of download_volume: the wanted chapters, in listing order. */
  method SelectChapters(chapters: Dict<string, ChapterData>, chapterIds: Option<seq<string>>)
    returns (selected: seq<ChapterEntry>)
    ensures selected == Selected(chapters, chapterIds)
  {
    selected := [];
    var i := 0;
    while i < |chapters|
      invariant i <= |chapters|
      invariant selected == Selected(chapters[..i], chapterIds)
    {
      var (number, data) := chapters[i];
      PrefixSnoc(chapters, i);
      if chapterIds.None? || data.id in chapterIds.value {
        selected := selected + [ChapterEntry(data.id, number, if data.title.Some? then data.title.value else "Chapter " + number)];
      }
      i := i + 1;
    }
    assert chapters[..i] == chapters;
  }

  /** The job loop of download_volume: a manifest update and a job per
      chapter, the title sanitised. */
  method ChapterJobs(entries: seq<ChapterEntry>) returns (jobs: seq<Parallel.ChapterJob>, calls: seq<ManifestCall>)
    ensures jobs == Jobs(entries) && calls == AddChapterCalls(entries)
  {
    ghost var allJobs, allCalls := Jobs(entries), AddChapterCalls(entries);
    jobs, calls := [], [];
    var i := 0;
    while i < |entries|
      invariant i <= |entries|
      invariant jobs == allJobs[..i] && calls == allCalls[..i]
    {
      var chapterTitle := Utils.SanitizeFilename(entries[i].title);
      PrefixSnoc(allJobs, i);
      PrefixSnoc(allCalls, i);
      calls := calls + [AddChapter(entries[i].id, entries[i].number, chapterTitle)];
      jobs := jobs + [Parallel.ChapterJob(Some(entries[i].id))];
      i := i + 1;
    }
    assert allJobs[..i] == allJobs && allCalls[..i] == allCalls;
  }

  /** chapter_downloader on one chapter: how it ended, and what it adds to
      the volume's stats and manifest calls. */
  method RunChapter(e: ChapterEntry, run: ChapterRun, keepRaw: bool, checkLocal: bool, forceDownload: bool)
    returns (attempt: Parallel.Attempt, stats: Stats, calls: seq<ManifestCall>)
    ensures attempt == ChapterAttempt(e, run, keepRaw, checkLocal, forceDownload)
    ensures (stats, calls) == ChapterShare(e, run, keepRaw, checkLocal, forceDownload)
  {
    match run {
      case Completes(input) =>
        var d := DownloadChapterImages(e.id, input, keepRaw, checkLocal, forceDownload, true);
        attempt := Parallel.Returned(Parallel.ChapterResult(d.successful > 0, None, None));
        stats, calls := d.stats, d.calls;
      case TimesOut =>
        attempt, stats, calls := Parallel.TimedOut, NoStats, [];
      case Fails(message) =>
        attempt, stats, calls := Parallel.Threw(message), NoStats, [];
    }
  }

  /** The chapter downloads of a volume, one after the other: how each
      ended, the volume's stats, and the chapters' manifest calls. */
  method RunChapters(entries: seq<ChapterEntry>, run: string -> ChapterRun, keepRaw: bool, checkLocal: bool,
                     forceDownload: bool)
    returns (attempts: seq<Parallel.Attempt>, stats: Stats, calls: seq<ManifestCall>)
    ensures attempts == ChapterAttempts(entries, run, keepRaw, checkLocal, forceDownload)
    ensures stats == VolumeStats(entries, run, keepRaw, checkLocal, forceDownload)
    ensures calls == VolumeChapterCalls(entries, run, keepRaw, checkLocal, forceDownload)
  {
    ghost var all := ChapterAttempts(entries, run, keepRaw, checkLocal, forceDownload);
    attempts, stats, calls := [], NoStats, [];
    var i := 0;
    while i < |entries|
      invariant i <= |entries|
      invariant attempts == all[..i]
      invariant stats == VolumeStats(entries[..i], run, keepRaw, checkLocal, forceDownload)
      invariant calls == VolumeChapterCalls(entries[..i], run, keepRaw, checkLocal, forceDownload)
    {
      var attempt, share, more := RunChapter(entries[i], run(entries[i].id), keepRaw, checkLocal, forceDownload);
      RunStep(entries, i, run, keepRaw, checkLocal, forceDownload);
      PrefixSnoc(all, i);
      attempts, stats, calls := attempts + [attempt], AddStats(stats, share), calls + more;
      i := i + 1;
    }
    assert entries[..i] == entries && all[..i] == all;
  }

  /** One more chapter adds its share to the stats and the calls. */
  lemma RunStep(entries: seq<ChapterEntry>, i: nat, run: string -> ChapterRun, keepRaw: bool, checkLocal: bool,
                forceDownload: bool)
    requires i < |entries|
    ensures var share := ChapterShare(entries[i], run(entries[i].id), keepRaw, checkLocal, forceDownload);
      && VolumeStats(entries[..i + 1], run, keepRaw, checkLocal, forceDownload)
         == AddStats(VolumeStats(entries[..i], run, keepRaw, checkLocal, forceDownload), share.0)
      && VolumeChapterCalls(entries[..i + 1], run, keepRaw, checkLocal, forceDownload)
         == VolumeChapterCalls(entries[..i], run, keepRaw, checkLocal, forceDownload) + share.1
  {
    PrefixSnoc(entries, i);
  }

  // ---------------------------------------------------------------------
  // What is proved about a volume
  // ---------------------------------------------------------------------

  /** The number of chapters whose download ran to its end and stored or
      skipped some page. */
  function Succeeded(entries: seq<ChapterEntry>, run: string -> ChapterRun, keepRaw: bool, checkLocal: bool,
                     forceDownload: bool): (n: nat)
    ensures n <= |entries|
  {
    if entries == [] then 0
    else
      var k := |entries| - 1;
      Succeeded(entries[..k], run, keepRaw, checkLocal, forceDownload)
        + (if ChapterSucceeded(entries[k], run(entries[k].id), keepRaw, checkLocal, forceDownload) then 1 else 0)
  }

  predicate ChapterSucceeded(e: ChapterEntry, run: ChapterRun, keepRaw: bool, checkLocal: bool, forceDownload: bool) {
    run.Completes? && ChapterDownloadOf(e.id, run.input, keepRaw, checkLocal, forceDownload, true).successful > 0
  }

  /** The download manager counts a chapter as completed exactly when its
      download ran to its end and stored or skipped some page: a chapter
      that timed out or raised is never counted. */
  lemma {:induction false} SuccessesAreSucceeded(entries: seq<ChapterEntry>, run: string -> ChapterRun, keepRaw: bool,
                                                 checkLocal: bool, forceDownload: bool, timeout: nat)
    ensures Parallel.Successes(Parallel.Settled(ChapterAttempts(entries, run, keepRaw, checkLocal, forceDownload), timeout))
            == Succeeded(entries, run, keepRaw, checkLocal, forceDownload)
  {
    if entries != [] {
      var k := |entries| - 1;
      SettledPrefix(entries, run, keepRaw, checkLocal, forceDownload, timeout);
      SuccessesAreSucceeded(entries[..k], run, keepRaw, checkLocal, forceDownload, timeout);
      SettledSuccess(entries[k], run(entries[k].id), keepRaw, checkLocal, forceDownload, timeout);
    }
  }

  lemma SettledPrefix(entries: seq<ChapterEntry>, run: string -> ChapterRun, keepRaw: bool, checkLocal: bool,
                      forceDownload: bool, timeout: nat)
    requires entries != []
    ensures var rs := Parallel.Settled(ChapterAttempts(entries, run, keepRaw, checkLocal, forceDownload), timeout);
      var k := |entries| - 1;
      && rs[..k] == Parallel.Settled(ChapterAttempts(entries[..k], run, keepRaw, checkLocal, forceDownload), timeout)
      && rs[k] == Parallel.Settle(ChapterAttempt(entries[k], run(entries[k].id), keepRaw, checkLocal, forceDownload),
                                  timeout)
  {
  }

  lemma SettledSuccess(e: ChapterEntry, run: ChapterRun, keepRaw: bool, checkLocal: bool, forceDownload: bool,
                       timeout: nat)
    ensures Parallel.Settle(ChapterAttempt(e, run, keepRaw, checkLocal, forceDownload), timeout).success
            == ChapterSucceeded(e, run, keepRaw, checkLocal, forceDownload)
  {
  }

  /** download_chapter_images never counts a failure, so neither does a volume. */
  lemma {:induction false} VolumeStatsNoFailures(entries: seq<ChapterEntry>, run: string -> ChapterRun, keepRaw: bool,
                                                 checkLocal: bool, forceDownload: bool)
    ensures VolumeStats(entries, run, keepRaw, checkLocal, forceDownload).failed == 0
  {
    if entries != [] {
      var k := |entries| - 1;
      VolumeStatsNoFailures(entries[..k], run, keepRaw, checkLocal, forceDownload);
      var e := entries[k];
      if run(e.id).Completes? {
        ChapterCounts(e.id, run(e.id).input, keepRaw, checkLocal, forceDownload, true);
      }
    }
  }

  /** The filter keeps exactly the wanted chapters of the listing, and
      every chapter when no ids are asked for. */
  lemma {:induction false} SelectedMembers(chapters: Dict<string, ChapterData>, chapterIds: Option<seq<string>>)
    ensures forall e :: e in Selected(chapters, chapterIds) <==>
      exists j :: 0 <= j < |chapters| && Wanted(chapters[j].1.id, chapterIds) && e == EntryOf(chapters[j])
    ensures chapterIds.None? ==> |Selected(chapters, chapterIds)| == |chapters|
  {
    if chapters != [] {
      var n := |chapters| - 1;
      var front := chapters[..n];
      SelectedMembers(front, chapterIds);
      var r := Selected(chapters, chapterIds);
      forall e | e in r
        ensures exists j :: 0 <= j < |chapters| && Wanted(chapters[j].1.id, chapterIds) && e == EntryOf(chapters[j])
      {
        if e in Selected(front, chapterIds) {
          var j :| 0 <= j < |front| && Wanted(front[j].1.id, chapterIds) && e == EntryOf(front[j]);
          assert chapters[j] == front[j];
        } else {
          assert Wanted(chapters[n].1.id, chapterIds) && e == EntryOf(chapters[n]);
        }
      }
      forall e | exists j :: 0 <= j < |chapters| && Wanted(chapters[j].1.id, chapterIds) && e == EntryOf(chapters[j])
        ensures e in r
      {
        var j :| 0 <= j < |chapters| && Wanted(chapters[j].1.id, chapterIds) && e == EntryOf(chapters[j]);
        if j < n {
          assert front[j] == chapters[j];
          assert e in Selected(front, chapterIds);
        }
      }
    }
  }

  /**
   * What download_volume promises. It gives up exactly when the volume
   * key is missing or the volume has no chapters. Otherwise: the chapters
   * are the wanted ones of the listing, sorted by number; the chapters
   * counted as downloaded are those whose download finished and stored or
   * skipped a page; no failure is counted in the stats; the manifest is
   * first loaded (checking local files without forcing) or created; and
   * the last manifest call marks the volume complete exactly when every
   * chapter was downloaded.
   */
  lemma VolumeOutcome(mangaId: string, mangaTitle: string, volumeNumber: string, volumes: Volumes,
                      chapterIds: Option<seq<string>>, checkLocal: bool, forceDownload: bool, keepRaw: bool,
                      found: bool, run: string -> ChapterRun, timeout: nat)
    ensures var r := VolumeOf(mangaId, mangaTitle, volumeNumber, volumes, chapterIds, checkLocal, forceDownload,
                              keepRaw, found, run, timeout);
      var key := VolumeKey(volumes, volumeNumber);
      && (r.NotDownloaded? <==> key !in Keys(volumes) || Get(volumes, key).value.chapters == [])
      && (r.Downloaded? ==>
            var chapters := Get(volumes, key).value.chapters;
            var entries := VolumeEntries(chapters, chapterIds);
            && r.totalChapters == |entries| <= |chapters|
            && (chapterIds.None? ==> r.totalChapters == |chapters|)
            && (forall e :: e in entries <==>
                  exists j :: 0 <= j < |chapters| && Wanted(chapters[j].1.id, chapterIds) && e == EntryOf(chapters[j]))
            && r.chaptersDownloaded == Succeeded(entries, run, keepRaw, checkLocal, forceDownload) <= r.totalChapters
            && r.stats.failed == 0
            && r.calls[0] == (if checkLocal && !forceDownload then LoadManifest(key)
                              else CreateManifest(mangaId, mangaTitle, key))
            && r.calls[|r.calls| - 1] == VolumeStatus(r.chaptersDownloaded == r.totalChapters))
  {
    var key := VolumeKey(volumes, volumeNumber);
    if key in Keys(volumes) && Get(volumes, key).value.chapters != [] {
      var chapters := Get(volumes, key).value.chapters;
      var entries := VolumeEntries(chapters, chapterIds);
      VolumeEntriesMembers(chapters, chapterIds);
      SuccessesAreSucceeded(entries, run, keepRaw, checkLocal, forceDownload, timeout);
      VolumeStatsNoFailures(entries, run, keepRaw, checkLocal, forceDownload);
    }
  }

  /** The sorted chapters are the wanted ones of the listing. */
  lemma VolumeEntriesMembers(chapters: Dict<string, ChapterData>, chapterIds: Option<seq<string>>)
    ensures var entries := VolumeEntries(chapters, chapterIds);
      && |entries| <= |chapters|
      && (chapterIds.None? ==> |entries| == |chapters|)
      && forall e :: e in entries <==>
           exists j :: 0 <= j < |chapters| && Wanted(chapters[j].1.id, chapterIds) && e == EntryOf(chapters[j])
  {
    var entries := VolumeEntries(chapters, chapterIds);
    SelectedMembers(chapters, chapterIds);
    assert |entries| == |Selected(chapters, chapterIds)| by {
      assert |multiset(entries)| == |multiset(Selected(chapters, chapterIds))|;
    }
    forall e ensures e in entries <==> e in Selected(chapters, chapterIds) {
      assert e in entries <==> e in multiset(entries);
    }
  }

  // ---------------------------------------------------------------------
  // download_manga_volumes: the tally over the volumes
  // ---------------------------------------------------------------------

  /** The results dict of download_manga_volumes, without its timestamps. */
  datatype MangaResults = MangaResults(volumes: Dict<string, VolumeResult>, successful: nat, failed: nat, total: nat,
                                       stats: Stats)

  /** The tally after the given (volume number, result) pairs. */
  function Tallied(pairs: seq<(string, VolumeResult)>, total: nat): MangaResults {
    MangaResults(VolumesDict(pairs), CountSuccessful(pairs), CountFailed(pairs), total, SumStats(pairs))
  }

  /** results["volumes"]: each result under its volume number. */
  function VolumesDict(pairs: seq<(string, VolumeResult)>): Dict<string, VolumeResult> {
    if pairs == [] then []
    else Put(VolumesDict(pairs[..|pairs| - 1]), pairs[|pairs| - 1].0, pairs[|pairs| - 1].1)
  }

  function CountSuccessful(pairs: seq<(string, VolumeResult)>): nat {
    if pairs == [] then 0
    else CountSuccessful(pairs[..|pairs| - 1]) + (if VolumeSuccess(pairs[|pairs| - 1].1) then 1 else 0)
  }

  function CountFailed(pairs: seq<(string, VolumeResult)>): nat {
    if pairs == [] then 0
    else CountFailed(pairs[..|pairs| - 1]) + (if VolumeSuccess(pairs[|pairs| - 1].1) then 0 else 1)
  }

  /** results["stats"]: the volumes' stats added field by field. */
  function SumStats(pairs: seq<(string, VolumeResult)>): Stats {
    if pairs == [] then NoStats
    else AddStats(SumStats(pairs[..|pairs| - 1]), VolumeStatsOf(pairs[|pairs| - 1].1))
  }

  /** The volume results in the order of the requested volume numbers. */
  function VolumePairs(volumes: seq<string>, outcome: string -> VolumeResult): (r: seq<(string, VolumeResult)>)
    ensures |r| == |volumes|
  {
    seq(|volumes|, i requires 0 <= i < |volumes| => (volumes[i], outcome(volumes[i])))
  }

  /** The result loop of download_manga_volumes, over the results the
      volume downloads gave, one per requested volume, in request order. */
  method DownloadMangaVolumes(volumes: seq<string>, outcome: string -> VolumeResult) returns (res: MangaResults)
    ensures res == Tallied(VolumePairs(volumes, outcome), |volumes|)
  {
    var pairs := VolumePairs(volumes, outcome);
    res := MangaResults([], 0, 0, |volumes|, NoStats);
    var i := 0;
    while i < |pairs|
      invariant i <= |pairs|
      invariant res == Tallied(pairs[..i], |volumes|)
    {
      var (volume, r) := pairs[i];
      PrefixSnoc(pairs, i);
      var successful, failed := res.successful, res.failed;
      if r.Downloaded? && r.chaptersDownloaded > 0 {
        successful := successful + 1;
      } else {
        failed := failed + 1;
      }
      res := res.(volumes := Put(res.volumes, volume, r), successful := successful, failed := failed,
                  stats := AddStats(res.stats, VolumeStatsOf(r)));
      i := i + 1;
    }
    assert pairs[..i] == pairs;
  }

  /** Every result is counted once, as a success or a failure. */
  lemma {:induction false} TalliedCounts(pairs: seq<(string, VolumeResult)>)
    ensures CountSuccessful(pairs) + CountFailed(pairs) == |pairs|
  {
    if pairs != [] {
      TalliedCounts(pairs[..|pairs| - 1]);
    }
  }

  /** The requested volume numbers, as a set. */
  function Numbers(pairs: seq<(string, VolumeResult)>): set<string> {
    set i | 0 <= i < |pairs| :: pairs[i].0
  }

  /** No later pair has the same volume number as pair i. */
  predicate LastFor(pairs: seq<(string, VolumeResult)>, i: nat)
    requires i < |pairs|
  {
    forall j :: i < j < |pairs| ==> pairs[j].0 != pairs[i].0
  }

  /** results["volumes"] has one key per volume number. */
  lemma {:induction false} VolumesDictKeys(pairs: seq<(string, VolumeResult)>)
    ensures DistinctKeys(VolumesDict(pairs)) && Keys(VolumesDict(pairs)) == Numbers(pairs)
  {
    if pairs != [] {
      var n := |pairs| - 1;
      VolumesDictKeys(pairs[..n]);
      var d := VolumesDict(pairs[..n]);
      PutKeys(d, pairs[n].0, pairs[n].1);
      PutDistinct(d, pairs[n].0, pairs[n].1);
      NumbersSnoc(pairs);
    }
  }

  /** Under each volume number, results["volumes"] holds the result that
      came last for it. */
  lemma {:induction false} VolumesDictLookup(pairs: seq<(string, VolumeResult)>, i: nat)
    requires i < |pairs| && LastFor(pairs, i)
    ensures Get(VolumesDict(pairs), pairs[i].0) == Some(pairs[i].1)
  {
    var n := |pairs| - 1;
    var front := pairs[..n];
    PutGet(VolumesDict(front), pairs[n].0, pairs[n].1, pairs[i].0);
    if i < n {
      assert front[i] == pairs[i];
      assert pairs[n].0 != pairs[i].0;
      assert LastFor(front, i) by {
        forall j | i < j < n ensures front[j].0 != front[i].0 {
          assert front[j] == pairs[j];
        }
      }
      VolumesDictLookup(front, i);
    }
  }

  lemma NumbersSnoc(pairs: seq<(string, VolumeResult)>)
    requires pairs != []
    ensures Numbers(pairs) == Numbers(pairs[..|pairs| - 1]) + {pairs[|pairs| - 1].0}
  {
    var n := |pairs| - 1;
    var front := pairs[..n];
    forall x | x in Numbers(pairs) ensures x in Numbers(front) + {pairs[n].0} {
      var i :| 0 <= i < |pairs| && pairs[i].0 == x;
      if i < n {
        assert front[i].0 == x;
      }
    }
    forall x | x in Numbers(front) ensures x in Numbers(pairs) {
      var i :| 0 <= i < n && front[i].0 == x;
      assert pairs[i].0 == x;
    }
  }

  /** The stats of a longer run of volumes are those of its two parts added. */
  lemma {:induction false} SumStatsSplit(a: seq<(string, VolumeResult)>, b: seq<(string, VolumeResult)>)
    ensures SumStats(a + b) == AddStats(SumStats(a), SumStats(b))
  {
    if b == [] {
      assert a + b == a;
      var s := SumStats(a);
      assert SumStats(b) == NoStats;
      AddNoStats(s);
    } else {
      var n := |b| - 1;
      var x, y, z := SumStats(a), SumStats(b[..n]), VolumeStatsOf(b[n].1);
      assert (a + b)[..|a + b| - 1] == a + b[..n];
      assert (a + b)[|a + b| - 1] == b[n];
      assert SumStats(a + b) == AddStats(SumStats(a + b[..n]), z);
      SumStatsSplit(a, b[..n]);
      assert SumStats(b) == AddStats(y, z);
      assert AddStats(AddStats(x, y), z) == AddStats(x, AddStats(y, z));
    }
  }
}
