/*
 * Downloader: the bookkeeping of mangabook/downloader.py — per page the
 * skip check, the attempt loop with its temp file, and the counters; per
 * chapter the status rules and the sums of the counters.
 *
 * Everything outside is an input: whether a page's file exists and is a
 * valid image, what each attempt to fetch a page gave, whether moving the
 * temp file succeeded, what the API answered. The manifest helpers of
 * mangabook/utils.py that the module imports (update_manifest_page,
 * update_manifest_chapter, create_volume_manifest, load_manifest,
 * save_manifest) are not part of this model: the manifest is the list of
 * calls made on it, in order.
 */
module Downloader {
  import opened Text

  // ---------------------------------------------------------------------
  // Pages
  // ---------------------------------------------------------------------

  /** A page is fetched at most this many times. */
  const MaxAttempts := 3

  const ImageExtensions: seq<string> := ["jpg", "jpeg", "png", "gif", "webp"]

  /** url.split('.')[-1].lower(): the URL after its last dot, lower-cased. */
  function AfterLastDot(url: string): (r: string)
    ensures |r| <= |url|
  {
    match LastIndexOf(url, '.')
    case None => Lower(url)
    case Some(i) => Lower(url[i + 1..])
  }

  /** The file extension of a page: the URL's last dot-suffix, lower-cased,
      when the last path segment has a dot and the suffix is a known image
      extension, and "jpg" otherwise. */
  function Extension(url: string): (r: string)
    ensures r in ImageExtensions
    ensures '.' !in BaseName(url) || AfterLastDot(url) !in ImageExtensions ==> r == "jpg"
    ensures r != "jpg" ==> '.' in BaseName(url) && r == AfterLastDot(url)
  {
    if '.' in BaseName(url) && AfterLastDot(url) in ImageExtensions then AfterLastDot(url) else "jpg"
  }

  /** A page is skipped exactly when its file exists and is a valid image,
      local files are checked and downloads are not forced. */
  predicate Skip(local: LocalFile, checkLocal: bool, forceDownload: bool) {
    local.Present? && local.valid && checkLocal && !forceDownload
  }

  /** The page's file before the download: missing, or present and valid or not. */
  datatype LocalFile = Missing | Present(valid: bool)

  /** What one attempt gave: a saved file that is or is not a valid image,
      a refused download (the fetch returned false), or an exception. */
  datatype Fetch = SavedValid | SavedInvalid | Refused | Raised

  /**
   * How a queued page ended: whether it was stored (validated and in
   * place, counted successful), whether it counted as downloaded, the
   * number of fetches and of retries, and whether the final file and the
   * temp file are there afterwards.
   */
  datatype PageEnd = PageEnd(stored: bool, downloaded: bool, attempts: nat, retries: nat,
                             finalPresent: bool, tempPresent: bool)

  /**
   * The attempt loop from attempt k on, for page p, with the final file
   * present or not. With keep_raw the download goes straight to the final
   * path; otherwise to a temp file, moved to the final path after the
   * image validated. A failed attempt removes the file it wrote to and
   * counts a retry. A failed move counts as a retry too, but the page
   * stays downloaded and the loop ends.
   */
  function Attempts(fetch: (nat, nat) -> Fetch, moveOk: (nat, nat) -> bool, keepRaw: bool, p: nat,
                    k: nat, finalPresent: bool): (r: PageEnd)
    requires k <= MaxAttempts
    ensures k < r.attempts <= MaxAttempts || (k == MaxAttempts && r.attempts == k)
    ensures r.retries == r.attempts - (if r.stored then 1 else 0)
    ensures r.stored ==> r.downloaded
    ensures !r.downloaded ==> r.attempts == MaxAttempts
    ensures keepRaw ==> (r.downloaded <==> r.stored)
    ensures !r.tempPresent
    ensures keepRaw && k < MaxAttempts ==> r.finalPresent == r.stored
    ensures !keepRaw ==> r.finalPresent == (finalPresent || r.stored)
    decreases MaxAttempts - k
  {
    if k == MaxAttempts then PageEnd(false, false, k, k, finalPresent, false)
    else match fetch(p, k)
      case SavedValid =>
        if keepRaw || moveOk(p, k) then PageEnd(true, true, k + 1, k, true, false)
        else PageEnd(false, true, k + 1, k + 1, finalPresent, false)
      case _ => Attempts(fetch, moveOk, keepRaw, p, k + 1, if keepRaw then false else finalPresent)
  }

  /**
   * The attempt loop for one queued page: at most three fetches; each
   * failed one removes the file written and counts a retry; a valid image
   * ends the loop, moved from the temp file unless keep_raw.
   */
  method FetchPage(fetch: (nat, nat) -> Fetch, moveOk: (nat, nat) -> bool, keepRaw: bool, p: nat,
                   finalExists: bool) returns (end: PageEnd)
    ensures end == Attempts(fetch, moveOk, keepRaw, p, 0, finalExists)
  {
    var retryCount, retries, attempts := 0, 0, 0;
    var success, downloaded, stored := false, false, false;
    var finalPresent, tempPresent := finalExists, false;
    while !success && retryCount < MaxAttempts
      invariant retryCount <= MaxAttempts
      invariant !success ==> retries == retryCount && attempts == retryCount
      invariant !success ==> !stored && !downloaded && !tempPresent
      invariant !success ==>
                  Attempts(fetch, moveOk, keepRaw, p, 0, finalExists)
                  == Attempts(fetch, moveOk, keepRaw, p, retryCount, finalPresent)
      invariant success ==>
                  Attempts(fetch, moveOk, keepRaw, p, 0, finalExists)
                  == PageEnd(stored, downloaded, attempts, retries, finalPresent, tempPresent)
      decreases MaxAttempts - retryCount, if success then 0 else 1
    {
      var fetched := fetch(p, retryCount);
      attempts := attempts + 1;
      // the download writes to the final path with keep_raw, else to the temp file
      if fetched == SavedValid || fetched == SavedInvalid {
        if keepRaw { finalPresent := true; } else { tempPresent := true; }
      }
      if fetched == SavedValid {
        success := true;
        downloaded := true;
        if keepRaw {
          stored := true;
        } else if moveOk(p, retryCount) {
          finalPresent, tempPresent := true, false;
          stored := true;
        } else {
          retryCount, retries := retryCount + 1, retries + 1;
          tempPresent := false;
        }
      } else {
        retryCount, retries := retryCount + 1, retries + 1;
        if keepRaw { finalPresent := false; } else { tempPresent := false; }
      }
    }
    end := PageEnd(stored, downloaded, attempts, retries, finalPresent, tempPresent);
  }

  /** How one page of a chapter went: skipped, or fetched and ended so. */
  datatype PageOutcome = Skipped | Fetched(end: PageEnd)

  /** What happened to page number p (1-based) of a chapter. */
  function PageOutcomeOf(local: nat -> LocalFile, fetch: (nat, nat) -> Fetch, moveOk: (nat, nat) -> bool,
                         keepRaw: bool, checkLocal: bool, forceDownload: bool, p: nat): (r: PageOutcome)
    ensures r.Skipped? <==> Skip(local(p), checkLocal, forceDownload)
  {
    if Skip(local(p), checkLocal, forceDownload) then Skipped
    else Fetched(Attempts(fetch, moveOk, keepRaw, p, 0, local(p).Present?))
  }

  /** The outcomes of pages 1..n. */
  function PageOutcomes(local: nat -> LocalFile, fetch: (nat, nat) -> Fetch, moveOk: (nat, nat) -> bool,
                        keepRaw: bool, checkLocal: bool, forceDownload: bool, n: nat): (r: seq<PageOutcome>)
    ensures |r| == n
  {
    if n == 0 then []
    else PageOutcomes(local, fetch, moveOk, keepRaw, checkLocal, forceDownload, n - 1)
         + [PageOutcomeOf(local, fetch, moveOk, keepRaw, checkLocal, forceDownload, n)]
  }

  /** Entry i of the outcomes is the outcome of page i + 1. */
  lemma {:induction false} OutcomeAt(local: nat -> LocalFile, fetch: (nat, nat) -> Fetch, moveOk: (nat, nat) -> bool,
                                     keepRaw: bool, checkLocal: bool, forceDownload: bool, n: nat, i: nat)
    requires i < n
    ensures PageOutcomes(local, fetch, moveOk, keepRaw, checkLocal, forceDownload, n)[i]
            == PageOutcomeOf(local, fetch, moveOk, keepRaw, checkLocal, forceDownload, i + 1)
  {
    if i < n - 1 {
      OutcomeAt(local, fetch, moveOk, keepRaw, checkLocal, forceDownload, n - 1, i);
    }
  }

  function CountSkipped(os: seq<PageOutcome>): (n: nat)
    ensures n <= |os|
  {
    if os == [] then 0 else CountSkipped(os[..|os| - 1]) + (if os[|os| - 1].Skipped? then 1 else 0)
  }

  /** Pages fetched, validated and in place: the successful downloads. */
  function CountStored(os: seq<PageOutcome>): (n: nat)
    ensures n <= |os|
  {
    if os == [] then 0
    else CountStored(os[..|os| - 1]) + (if os[|os| - 1].Fetched? && os[|os| - 1].end.stored then 1 else 0)
  }

  /** Pages fetched whose image validated, moved into place or not. */
  function CountDownloaded(os: seq<PageOutcome>): (n: nat)
    ensures n <= |os|
  {
    if os == [] then 0
    else CountDownloaded(os[..|os| - 1]) + (if os[|os| - 1].Fetched? && os[|os| - 1].end.downloaded then 1 else 0)
  }

  /** Pages downloaded whose temp file could not be moved into place. */
  function CountMoveFailures(os: seq<PageOutcome>): (n: nat)
    ensures n <= |os|
  {
    if os == [] then 0
    else CountMoveFailures(os[..|os| - 1])
         + (if os[|os| - 1].Fetched? && os[|os| - 1].end.downloaded && !os[|os| - 1].end.stored then 1 else 0)
  }

  function SumRetries(os: seq<PageOutcome>): nat {
    if os == [] then 0 else SumRetries(os[..|os| - 1]) + (if os[|os| - 1].Fetched? then os[|os| - 1].end.retries else 0)
  }

  /** The pages (1-based) that the check queues for download, in order. */
  function QueuedPages(os: seq<PageOutcome>): seq<nat> {
    if os == [] then []
    else
      var n := |os| - 1;
      QueuedPages(os[..n]) + (if os[n].Fetched? then [n + 1] else [])
  }

  /** Every queued page is a page of the chapter that is not skipped. */
  lemma {:induction false} QueuedPagesFetched(os: seq<PageOutcome>)
    ensures forall j :: 0 <= j < |QueuedPages(os)| ==>
      1 <= QueuedPages(os)[j] <= |os| && os[QueuedPages(os)[j] - 1].Fetched?
  {
    if os != [] {
      var n := |os| - 1;
      QueuedPagesFetched(os[..n]);
      var r, all := QueuedPages(os[..n]), QueuedPages(os);
      assert all == r + (if os[n].Fetched? then [n + 1] else []);
      forall j | 0 <= j < |all| ensures 1 <= all[j] <= |os| && os[all[j] - 1].Fetched? {
        if j < |r| {
          assert all[j] == r[j] && os[..n][r[j] - 1] == os[r[j] - 1];
        }
      }
    }
  }

  lemma {:induction false} QueuedPageAt(os: seq<PageOutcome>, queued: seq<nat>, q: nat)
    requires queued == QueuedPages(os) && q < |queued|
    ensures 1 <= queued[q] <= |os| && os[queued[q] - 1].Fetched?
  {
    QueuedPagesFetched(os);
  }

  /** What the download loop counts: stored and downloaded pages, and retries. */
  datatype FetchTally = FetchTally(stored: nat, downloaded: nat, retries: nat)

  /** What one page adds to the download loop's counters. */
  function Contribution(o: PageOutcome): FetchTally {
    if o.Skipped? then FetchTally(0, 0, 0)
    else FetchTally(if o.end.stored then 1 else 0, if o.end.downloaded then 1 else 0, o.end.retries)
  }

  function Plus(a: FetchTally, b: FetchTally): FetchTally {
    FetchTally(a.stored + b.stored, a.downloaded + b.downloaded, a.retries + b.retries)
  }

  /** What page p (1-based) adds to the counters; a page number out of
      range adds nothing. */
  function PageContribution(os: seq<PageOutcome>, p: nat): FetchTally {
    if 1 <= p <= |os| then Contribution(os[p - 1]) else FetchTally(0, 0, 0)
  }

  /** The counters after the download loop went over the listed pages. */
  function Tally(os: seq<PageOutcome>, pages: seq<nat>): FetchTally {
    if pages == [] then FetchTally(0, 0, 0)
    else Plus(Tally(os, pages[..|pages| - 1]), PageContribution(os, pages[|pages| - 1]))
  }

  /** Going over the queued pages only counts the same stored and
      downloaded pages and the same retries as counting over all pages: a
      skipped page contributes to none of them. */
  lemma {:induction false} QueuedTally(os: seq<PageOutcome>)
    ensures Tally(os, QueuedPages(os)) == FetchTally(CountStored(os), CountDownloaded(os), SumRetries(os))
  {
    if os != [] {
      var n := |os| - 1;
      var before := QueuedPages(os[..n]);
      QueuedTally(os[..n]);
      QueuedPagesFetched(os[..n]);
      TallyPrefix(os, n, before);
      if os[n].Fetched? {
        var after := before + [n + 1];
        assert QueuedPages(os) == after;
        assert after[..|after| - 1] == before;
      } else {
        assert QueuedPages(os) == before;
      }
    }
  }

  lemma {:induction false} TallyPrefix(os: seq<PageOutcome>, n: nat, pages: seq<nat>)
    requires n <= |os|
    requires forall j :: 0 <= j < |pages| ==> 1 <= pages[j] <= n
    ensures Tally(os, pages) == Tally(os[..n], pages)
  {
    if pages != [] {
      TallyPrefix(os, n, pages[..|pages| - 1]);
    }
  }

  /** The stats dict of a download: downloaded, skipped, failed, retries. */
  datatype Stats = Stats(downloaded: nat, skipped: nat, failed: nat, retries: nat)

  const NoStats := Stats(0, 0, 0, 0)

  lemma AddNoStats(a: Stats)
    ensures AddStats(a, NoStats) == a
  {
  }

  function AddStats(a: Stats, b: Stats): (r: Stats)
    ensures r.downloaded == a.downloaded + b.downloaded && r.skipped == a.skipped + b.skipped
    ensures r.failed == a.failed + b.failed && r.retries == a.retries + b.retries
  {
    Stats(a.downloaded + b.downloaded, a.skipped + b.skipped, a.failed + b.failed, a.retries + b.retries)
  }

  // ---------------------------------------------------------------------
  // The manifest, as the calls made on it
  // ---------------------------------------------------------------------

  /** The page record given to update_manifest_page, status "valid"; its
      file path is made from the page number and Extension(url). */
  datatype PageRecord = PageRecord(pageNumber: nat, url: string, skipped: bool)

  datatype ManifestCall =
    | CreateManifest(mangaId: string, mangaTitle: string, volume: string)
    | LoadManifest(volume: string)
    | UpdatePage(chapterId: string, page: PageRecord)
    | ChapterTotals(chapterId: string, totalPages: nat, successfulPages: nat, complete: bool)
    | AddChapter(chapterId: string, number: string, title: string)
    | VolumeStatus(complete: bool)

  /** The record of a skipped page (status "valid", skipped). */
  function SkippedPage(urls: seq<string>, p: nat): PageRecord
    requires 1 <= p <= |urls|
  {
    PageRecord(p, urls[p - 1], true)
  }

  /** The record of a page stored after download (status "valid"). */
  function StoredPage(urls: seq<string>, p: nat): PageRecord
    requires 1 <= p <= |urls|
  {
    PageRecord(p, urls[p - 1], false)
  }

  /** The page updates of the check: one per skipped page, in page order. */
  function SkipCalls(chapterId: string, urls: seq<string>, os: seq<PageOutcome>): (r: seq<ManifestCall>)
    requires |os| == |urls|
    ensures |r| == CountSkipped(os)
  {
    if os == [] then []
    else
      var n := |os| - 1;
      SkipCalls(chapterId, urls[..n], os[..n])
        + (if os[n].Skipped? then [UpdatePage(chapterId, SkippedPage(urls, n + 1))] else [])
  }

  /** The page updates of the downloads: one per listed page that was
      stored, in the order listed. */
  function StoreCalls(chapterId: string, urls: seq<string>, os: seq<PageOutcome>, pages: seq<nat>): (r: seq<ManifestCall>)
    requires |os| == |urls|
  {
    if pages == [] then []
    else
      var n := |pages| - 1;
      var p := pages[n];
      StoreCalls(chapterId, urls, os, pages[..n])
        + (if Stored(os, p) then [UpdatePage(chapterId, StoredPage(urls, p))] else [])
  }

  /** One page update for each stored page among the listed ones. */
  lemma {:induction false} StoreCallsCount(chapterId: string, urls: seq<string>, os: seq<PageOutcome>, pages: seq<nat>)
    requires |os| == |urls|
    ensures |StoreCalls(chapterId, urls, os, pages)| == Tally(os, pages).stored
  {
    if pages != [] {
      StoreCallsCount(chapterId, urls, os, pages[..|pages| - 1]);
    }
  }

  /** Page p (1-based) was fetched and stored. */
  predicate Stored(os: seq<PageOutcome>, p: nat) {
    1 <= p <= |os| && os[p - 1].Fetched? && os[p - 1].end.stored
  }

  // ---------------------------------------------------------------------
  // Chapters
  // ---------------------------------------------------------------------

  /** What the outside world holds for one chapter: the page URLs the API
      gave (None when it gave none or failed), which page files exist and
      are valid images, what each fetch gives and whether each move works. */
  datatype ChapterInput = ChapterInput(urls: Option<seq<string>>, local: nat -> LocalFile,
                                       fetch: (nat, nat) -> Fetch, moveOk: (nat, nat) -> bool)

  /** What download_chapter_images returns, and the manifest calls it made. */
  datatype ChapterDownload = ChapterDownload(successful: nat, total: nat, stats: Stats, calls: seq<ManifestCall>)

  /** The chapter's page URLs; none when the API gave none. */
  function UrlsOf(input: ChapterInput): seq<string> {
    if input.urls.Some? then input.urls.value else []
  }

  /** The outcomes of the chapter's pages. */
  function ChapterOutcomes(input: ChapterInput, keepRaw: bool, checkLocal: bool, forceDownload: bool): (r: seq<PageOutcome>)
    ensures |r| == |UrlsOf(input)|
  {
    PageOutcomes(input.local, input.fetch, input.moveOk, keepRaw, checkLocal, forceDownload, |UrlsOf(input)|)
  }

  /**
   * What download_chapter_images gives: no URLs give (0, 0, zero stats)
   * and no manifest call. Otherwise the successful pages are the skipped
   * and the stored ones; the stats count the downloaded and the skipped
   * pages and the retries, and "failed" stays 0 as written. With a
   * manifest, each skipped and then each stored page is recorded, and last
   * the chapter's totals, complete exactly when every page succeeded.
   */
  function ChapterDownloadOf(chapterId: string, input: ChapterInput, keepRaw: bool, checkLocal: bool,
                             forceDownload: bool, tracking: bool): ChapterDownload
  {
    if input.urls.None? || input.urls.value == [] then ChapterDownload(0, 0, NoStats, [])
    else
      var urls, os := UrlsOf(input), ChapterOutcomes(input, keepRaw, checkLocal, forceDownload);
      ChapterSummary(chapterId, |urls|, CountSkipped(os), CountStored(os), CountDownloaded(os), SumRetries(os),
                     SkipCalls(chapterId, urls, os), StoreCalls(chapterId, urls, os, QueuedPages(os)), tracking)
  }

  /** The result from the counts and the calls of the two phases. */
  function ChapterSummary(chapterId: string, total: nat, skipped: nat, stored: nat, downloaded: nat, retries: nat,
                          skipCalls: seq<ManifestCall>, storeCalls: seq<ManifestCall>, tracking: bool): ChapterDownload
  {
    var successful := skipped + stored;
    ChapterDownload(successful, total, Stats(downloaded, skipped, 0, retries),
                    if tracking then skipCalls + storeCalls + [ChapterTotals(chapterId, total, successful, successful == total)]
                    else [])
  }

  /**
   * download_chapter_images: every page is checked first, and the pages
   * not skipped are then fetched in order.
   */
  method DownloadChapterImages(chapterId: string, input: ChapterInput, keepRaw: bool, checkLocal: bool,
                               forceDownload: bool, tracking: bool) returns (d: ChapterDownload)
    ensures d == ChapterDownloadOf(chapterId, input, keepRaw, checkLocal, forceDownload, tracking)
  {
    if input.urls.None? || input.urls.value == [] {
      return ChapterDownload(0, 0, NoStats, []);
    }
    var urls := input.urls.value;
    var skipped, skipCalls, queued := CheckPages(chapterId, input, keepRaw, checkLocal, forceDownload, tracking);
    var stored, downloaded, retries, storeCalls :=
      FetchQueued(chapterId, input, keepRaw, checkLocal, forceDownload, tracking, queued);
    d := ChapterSummary(chapterId, |urls|, skipped, stored, downloaded, retries, skipCalls, storeCalls, tracking);
  }

  /** The check of download_chapter_images: a page whose file is there and
      valid is skipped (counted, and recorded when tracking); the others are
      queued for download, in page order. */
  method CheckPages(chapterId: string, input: ChapterInput, keepRaw: bool, checkLocal: bool,
                    forceDownload: bool, tracking: bool)
    returns (skipped: nat, calls: seq<ManifestCall>, queued: seq<nat>)
    ensures var os := ChapterOutcomes(input, keepRaw, checkLocal, forceDownload);
      && skipped == CountSkipped(os)
      && calls == (if tracking then SkipCalls(chapterId, UrlsOf(input), os) else [])
      && queued == QueuedPages(os)
  {
    var urls := UrlsOf(input);
    ghost var os := ChapterOutcomes(input, keepRaw, checkLocal, forceDownload);
    skipped, calls, queued := 0, [], [];
    var i := 0;
    while i < |urls|
      invariant i <= |urls|
      invariant skipped == CountSkipped(os[..i])
      invariant calls == (if tracking then SkipCalls(chapterId, urls[..i], os[..i]) else [])
      invariant queued == QueuedPages(os[..i])
    {
      var page := i + 1;
      var skip := Skip(input.local(page), checkLocal, forceDownload);
      CheckStep(chapterId, input, keepRaw, checkLocal, forceDownload, i);
      if tracking {
        calls := calls + SkipCall(chapterId, urls, page, skip);
      }
      if skip {
        skipped := skipped + 1;
      } else {
        queued := queued + [page];
      }
      i := i + 1;
    }
    assert os[..i] == os && urls[..i] == urls;
  }

  /** The page update a skipped page leads to. */
  function SkipCall(chapterId: string, urls: seq<string>, page: nat, skip: bool): seq<ManifestCall>
    requires 1 <= page <= |urls|
  {
    if skip then [UpdatePage(chapterId, SkippedPage(urls, page))] else []
  }

  /** One step of the check: the counters, the page updates and the queue
      grow by what page i + 1 does. */
  lemma CheckStep(chapterId: string, input: ChapterInput, keepRaw: bool, checkLocal: bool,
                  forceDownload: bool, i: nat)
    requires i < |UrlsOf(input)|
    ensures var urls, os := UrlsOf(input), ChapterOutcomes(input, keepRaw, checkLocal, forceDownload);
      var skip := Skip(input.local(i + 1), checkLocal, forceDownload);
      && CountSkipped(os[..i + 1]) == CountSkipped(os[..i]) + (if skip then 1 else 0)
      && SkipCalls(chapterId, urls[..i + 1], os[..i + 1])
         == SkipCalls(chapterId, urls[..i], os[..i]) + SkipCall(chapterId, urls, i + 1, skip)
      && QueuedPages(os[..i + 1]) == QueuedPages(os[..i]) + (if skip then [] else [i + 1])
  {
    var urls, os := UrlsOf(input), ChapterOutcomes(input, keepRaw, checkLocal, forceDownload);
    OutcomeAt(input.local, input.fetch, input.moveOk, keepRaw, checkLocal, forceDownload, |urls|, i);
    assert os[..i + 1][..i] == os[..i] && urls[..i + 1][..i] == urls[..i];
    assert os[..i + 1][i] == os[i];
    assert SkippedPage(urls[..i + 1], i + 1) == SkippedPage(urls, i + 1);
  }

  /** The download loop of download_chapter_images over the queued pages:
      the stored pages, the downloaded pages, the retries, and the page
      updates of the stored pages when tracking. */
  method FetchQueued(chapterId: string, input: ChapterInput, keepRaw: bool, checkLocal: bool,
                     forceDownload: bool, tracking: bool, queued: seq<nat>)
    returns (stored: nat, downloaded: nat, retries: nat, calls: seq<ManifestCall>)
    requires queued == QueuedPages(ChapterOutcomes(input, keepRaw, checkLocal, forceDownload))
    ensures var os := ChapterOutcomes(input, keepRaw, checkLocal, forceDownload);
      && stored == CountStored(os) && downloaded == CountDownloaded(os) && retries == SumRetries(os)
      && calls == (if tracking then StoreCalls(chapterId, UrlsOf(input), os, queued) else [])
  {
    var urls := UrlsOf(input);
    ghost var os := ChapterOutcomes(input, keepRaw, checkLocal, forceDownload);
    var tally := FetchTally(0, 0, 0);
    calls := [];
    var q := 0;
    while q < |queued|
      invariant q <= |queued|
      invariant tally == Tally(os, queued[..q])
      invariant calls == (if tracking then StoreCalls(chapterId, urls, os, queued[..q]) else [])
    {
      var page, end := FetchQueuedPage(input, keepRaw, checkLocal, forceDownload, queued, q);
      FetchStep(chapterId, urls, os, queued, q, end);
      tally := Plus(tally, Contribution(Fetched(end)));
      if tracking {
        calls := calls + StoreCall(chapterId, urls, page, end);
      }
      q := q + 1;
    }
    assert queued[..q] == queued;
    FetchedAll(os, queued);
    stored, downloaded, retries := tally.stored, tally.downloaded, tally.retries;
  }

  /** The page update a fetched page leads to: one when its file was stored. */
  function StoreCall(chapterId: string, urls: seq<string>, page: nat, end: PageEnd): seq<ManifestCall>
    requires 1 <= page <= |urls|
  {
    if end.stored then [UpdatePage(chapterId, StoredPage(urls, page))] else []
  }

  lemma StoreCallsSnoc(chapterId: string, urls: seq<string>, os: seq<PageOutcome>, pages: seq<nat>, p: nat)
    requires |os| == |urls|
    ensures StoreCalls(chapterId, urls, os, pages + [p])
            == StoreCalls(chapterId, urls, os, pages)
               + (if Stored(os, p) then [UpdatePage(chapterId, StoredPage(urls, p))] else [])
  {
    assert (pages + [p])[..|pages|] == pages;
  }

  /** After the download loop went over all queued pages, its counters are
      those of the whole chapter. */
  lemma FetchedAll(os: seq<PageOutcome>, queued: seq<nat>)
    requires queued == QueuedPages(os)
    ensures Tally(os, queued[..|queued|]) == FetchTally(CountStored(os), CountDownloaded(os), SumRetries(os))
  {
    assert queued[..|queued|] == queued;
    QueuedTally(os);
  }

  /** One step of the download loop: the counters and the page updates
      grow by what the next queued page's outcome adds. */
  lemma FetchStep(chapterId: string, urls: seq<string>, os: seq<PageOutcome>, queued: seq<nat>, q: nat, end: PageEnd)
    requires |os| == |urls| && q < |queued|
    requires 1 <= queued[q] <= |os| && os[queued[q] - 1] == Fetched(end)
    ensures Tally(os, queued[..q + 1]) == Plus(Tally(os, queued[..q]), Contribution(Fetched(end)))
    ensures StoreCalls(chapterId, urls, os, queued[..q + 1])
            == StoreCalls(chapterId, urls, os, queued[..q]) + StoreCall(chapterId, urls, queued[q], end)
  {
    PrefixSnoc(queued, q);
    assert PageContribution(os, queued[q]) == Contribution(Fetched(end));
    StoreCallsSnoc(chapterId, urls, os, queued[..q], queued[q]);
  }

  /** The attempt loop run on the q-th queued page ends as that page's
      outcome says. */
  method FetchQueuedPage(input: ChapterInput, keepRaw: bool, checkLocal: bool, forceDownload: bool,
                         queued: seq<nat>, q: nat)
    returns (page: nat, end: PageEnd)
    requires queued == QueuedPages(ChapterOutcomes(input, keepRaw, checkLocal, forceDownload)) && q < |queued|
    ensures page == queued[q] && 1 <= page <= |UrlsOf(input)|
    ensures ChapterOutcomes(input, keepRaw, checkLocal, forceDownload)[page - 1] == Fetched(end)
  {
    page := queued[q];
    QueuedPageAt(ChapterOutcomes(input, keepRaw, checkLocal, forceDownload), queued, q);
    end := FetchPage(input.fetch, input.moveOk, keepRaw, page, input.local(page).Present?);
    OutcomeAt(input.local, input.fetch, input.moveOk, keepRaw, checkLocal, forceDownload, |UrlsOf(input)|, page - 1);
  }

  /** A page end as the attempt loop leaves it. */
  predicate Plausible(e: PageEnd, keepRaw: bool) {
    && (e.stored ==> e.downloaded) && e.retries <= MaxAttempts
    && (keepRaw ==> (e.downloaded <==> e.stored))
  }

  lemma {:induction false} OutcomeCounts(os: seq<PageOutcome>, keepRaw: bool)
    requires forall i :: 0 <= i < |os| && os[i].Fetched? ==> Plausible(os[i].end, keepRaw)
    ensures CountSkipped(os) + CountStored(os) <= |os|
    ensures CountStored(os) + CountMoveFailures(os) == CountDownloaded(os)
    ensures keepRaw ==> CountMoveFailures(os) == 0
    ensures SumRetries(os) <= MaxAttempts * |os|
  {
    if os != [] {
      OutcomeCounts(os[..|os| - 1], keepRaw);
    }
  }

  /**
   * The counters of a chapter add up: the successful pages are the skipped
   * and the stored ones and at most all pages, so the chapter is complete
   * only when no page gave up; with keep_raw every downloaded page is
   * stored; "failed" stays 0; each page counts at most three retries; and
   * with a manifest the last call records the chapter's totals.
   */
  lemma ChapterCounts(chapterId: string, input: ChapterInput, keepRaw: bool, checkLocal: bool,
                      forceDownload: bool, tracking: bool)
    ensures var d := ChapterDownloadOf(chapterId, input, keepRaw, checkLocal, forceDownload, tracking);
      var os := ChapterOutcomes(input, keepRaw, checkLocal, forceDownload);
      && d.total == |UrlsOf(input)|
      && d.successful == d.stats.skipped + CountStored(os) <= d.total
      && d.stats.downloaded == CountStored(os) + CountMoveFailures(os)
      && (keepRaw ==> d.successful == d.stats.skipped + d.stats.downloaded)
      && d.stats.failed == 0
      && d.stats.retries <= MaxAttempts * d.total
      && (!tracking ==> d.calls == [])
      && (tracking && d.total > 0 ==>
            d.calls[|d.calls| - 1] == ChapterTotals(chapterId, d.total, d.successful, d.successful == d.total))
  {
    var os := ChapterOutcomes(input, keepRaw, checkLocal, forceDownload);
    forall i | 0 <= i < |os| && os[i].Fetched?
      ensures Plausible(os[i].end, keepRaw)
    {
      OutcomeAt(input.local, input.fetch, input.moveOk, keepRaw, checkLocal, forceDownload, |os|, i);
    }
    OutcomeCounts(os, keepRaw);
  }
}
