/*
 * Workflow: the bookkeeping of process_manga in mangabook/workflow.py. The
 * downloads, image processing, EPUB writing and epubcheck runs are not
 * modelled; what they gave is the input. What is modelled is the choice of
 * builder and extension, the output file name, which images each chapter
 * contributes once the cover is set aside, the per-volume counters and
 * lists, the download statistics summed in the summary, the validation
 * counts of display_results_summary, and the answers of validate_epub.
 */
module Workflow {
  import opened Text
  import opened Dicts
  import Utils
  import Downloader
  import VolumeDownload

  // ---------------------------------------------------------------------
  // Builder and extension
  // ---------------------------------------------------------------------

  datatype BuilderClass = EPUBBuilder | KepubBuilder | EnhancedEPUBBuilder | EnhancedKepubBuilder

  predicate KoboBuilder(b: BuilderClass) {
    b == KepubBuilder || b == EnhancedKepubBuilder
  }

  predicate EnhancedBuilder(b: BuilderClass) {
    b == EnhancedEPUBBuilder || b == EnhancedKepubBuilder
  }

  const KepubExt := ".kepub.epub"
  const EpubExt := ".epub"

  /** The builder class and file extension for the use_enhanced_builder and
      kobo options. */
  function BuilderFor(useEnhanced: bool, kobo: bool): (r: (BuilderClass, string))
    ensures KoboBuilder(r.0) <==> kobo
    ensures EnhancedBuilder(r.0) <==> useEnhanced
    ensures r.1 == KepubExt <==> kobo
    ensures r.1 == EpubExt <==> !kobo
  {
    if useEnhanced then
      if kobo then (EnhancedKepubBuilder, KepubExt) else (EnhancedEPUBBuilder, EpubExt)
    else
      if kobo then (KepubBuilder, KepubExt) else (EPUBBuilder, EpubExt)
  }

  // ---------------------------------------------------------------------
  // Output file name
  // ---------------------------------------------------------------------

  /** `chapter_name.split()[1]`, or None where that raises IndexError. */
  function ChapterNumber(name: string): Option<string> {
    var w := Words(name);
    if |w| >= 2 then Some(w[1]) else None
  }

  /** The chapter numbers extracted from the chapter names, in order, by
      `number` (ChapterNumber in the program; a parameter so that what is
      proved about the list does not depend on how a name is split). */
  function ChapterNumbers(names: seq<string>, number: string -> Option<string>): (r: seq<string>)
    ensures |r| <= |names|
  {
    if names == [] then []
    else
      var init := ChapterNumbers(names[..|names| - 1], number);
      match number(names[|names| - 1])
      case Some(n) => init + [n]
      case None => init
  }

  /** int(x) for a float: truncation toward zero. */
  function Trunc(x: real): int {
    if x >= 0.0 then x.Floor else -((-x).Floor)
  }

  /** f"{n:03d}": at least three characters, zero-padded after the sign. */
  function Format03(n: int): string {
    if n >= 0 then Pad3(n)
    else
      var d := NatToString(-n);
      "-" + (if |d| == 1 then "0" + d else d)
  }

  /** The volume number of a collection file name: the zero-padded integer
      part of float(v), or v itself where float() raises ValueError. */
  function CollectionLabel(v: string): string {
    match ParseDecimal(v)
    case Some(x) => Format03(Trunc(x))
    case None => v
  }

  /** vol_title, the book title given to the builder. */
  function VolumeTitle(title: string, v: string): string {
    title + " - Volume " + v
  }

  /** The epub_filename that builder.write receives. `collection` is kobo
      and create_kobo_collection; `chapterNames` are the sorted chapter
      directory names. */
  function EpubFileName(title: string, v: string, chapterNames: seq<string>, ext: string, collection: bool): string {
    if collection then CollectionFileName(title, v, chapterNames, ext)
    else StandardFileName(title, v, ext)
  }

  /** The reader-friendly name of a file in a Kobo collection. */
  function CollectionFileName(title: string, v: string, chapterNames: seq<string>, ext: string): string {
    if v == "0" then UngroupedFileName(title, ChapterNumbers(chapterNames, ChapterNumber), ext)
    else title + " - Volume " + CollectionLabel(v) + ext
  }

  /** The collection name of the ungrouped volume, from the chapter numbers
      found. */
  function UngroupedFileName(title: string, nums: seq<string>, ext: string): string {
    if nums == [] then title + " - Ungrouped Chapters" + ext
    else if |nums| == 1 then title + " - Chapters " + nums[0] + ext
    else title + " - Chapters " + nums[0] + "-" + nums[|nums| - 1] + ext
  }

  /** The name outside a collection, built from the sanitized book title. */
  function StandardFileName(title: string, v: string, ext: string): string {
    Utils.SanitizeFilename(VolumeTitle(title, v)) + UngroupedSuffix(v) + ext
  }

  /** What a standard file name adds for the ungrouped volume. */
  function UngroupedSuffix(v: string): string {
    if v == "0" then "_ungrouped_chapters" else ""
  }

  /** Every file name ends with the chosen extension. */
  lemma FileNameExtension(title: string, v: string, chapterNames: seq<string>, ext: string, collection: bool)
    ensures EndsWith(EpubFileName(title, v, chapterNames, ext, collection), ext)
  {
    var name := EpubFileName(title, v, chapterNames, ext, collection);
    var stem := name[..|name| - |ext|];
    if collection {
      if v == "0" {
        var nums := ChapterNumbers(chapterNames, ChapterNumber);
        assert name == UngroupedFileName(title, nums, ext);
        assert name == stem + ext;
      } else {
        assert name == stem + ext;
      }
    } else {
      assert name == stem + ext;
    }
  }

  /** With kobo set, every file name ends in ".kepub.epub", whichever builder
      and naming mode are used: the files the collection report globs for. */
  lemma KoboNamesMatchGlob(useEnhanced: bool, title: string, v: string, chapterNames: seq<string>, createCollection: bool)
    ensures EndsWith(EpubFileName(title, v, chapterNames, BuilderFor(useEnhanced, true).1, createCollection), KepubExt)
  {
    FileNameExtension(title, v, chapterNames, KepubExt, createCollection);
  }

  /** In a collection the ungrouped volume is named after the first and last
      chapter numbers found, the only one when there is one, and "Ungrouped
      Chapters" when none is found. */
  lemma UngroupedCollectionName(title: string, chapterNames: seq<string>, ext: string)
    ensures var name := EpubFileName(title, "0", chapterNames, ext, true);
      var nums := ChapterNumbers(chapterNames, ChapterNumber);
      && (nums == [] ==> name == title + " - Ungrouped Chapters" + ext)
      && (|nums| == 1 ==> name == title + " - Chapters " + nums[0] + ext)
      && (|nums| >= 2 ==> name == title + " - Chapters " + nums[0] + "-" + nums[|nums| - 1] + ext)
  {
    assert EpubFileName(title, "0", chapterNames, ext, true)
      == UngroupedFileName(title, ChapterNumbers(chapterNames, ChapterNumber), ext);
  }

  /** A chapter number is a non-empty word without whitespace. */
  lemma ChapterNumberWord(name: string)
    requires ChapterNumber(name).Some?
    ensures var n := ChapterNumber(name).value;
      n != [] && forall i :: 0 <= i < |n| ==> !IsSpace(n[i])
  {
  }

  /** No chapter number is found exactly when no name has one. */
  lemma {:induction false} NoChapterNumbers(names: seq<string>, number: string -> Option<string>)
    ensures ChapterNumbers(names, number) == [] <==> forall k :: 0 <= k < |names| ==> number(names[k]).None?
  {
    if names != [] {
      var init := names[..|names| - 1];
      var last := names[|names| - 1];
      NoChapterNumbers(init, number);
      if number(last).Some? {
        assert ChapterNumbers(names, number) != [];
      } else {
        assert ChapterNumbers(names, number) == ChapterNumbers(init, number);
        forall k | 0 <= k < |init| ensures names[k] == init[k] { }
      }
    }
  }

  /** In a collection the ungrouped volume is called "Ungrouped Chapters"
      exactly when no chapter name has a second word to take as its number. */
  lemma UngroupedWithoutNumbers(title: string, chapterNames: seq<string>, ext: string)
    ensures EpubFileName(title, "0", chapterNames, ext, true) == title + " - Ungrouped Chapters" + ext
      <==> forall k :: 0 <= k < |chapterNames| ==> ChapterNumber(chapterNames[k]).None?
  {
    NoChapterNumbers(chapterNames, ChapterNumber);
    var nums := ChapterNumbers(chapterNames, ChapterNumber);
    assert EpubFileName(title, "0", chapterNames, ext, true) == UngroupedFileName(title, nums, ext);
    if nums != [] {
      NumberedNotUngrouped(title, nums, ext);
    }
  }

  lemma NumberedNotUngrouped(title: string, nums: seq<string>, ext: string)
    requires nums != []
    ensures UngroupedFileName(title, nums, ext) != title + " - Ungrouped Chapters" + ext
  {
    var name := UngroupedFileName(title, nums, ext);
    var rest := if |nums| == 1 then nums[0] else nums[0] + "-" + nums[|nums| - 1];
    assert name == title + " - Chapters " + rest + ext;
    assert name[|title| + 3] == 'C';
    assert (title + " - Ungrouped Chapters" + ext)[|title| + 3] == 'U';
  }

  /** Leading zeros do not change the value of a digit string. */
  lemma {:induction false} LeadingZero(s: string)
    requires IsDigits(s) || s == []
    ensures forall i :: 0 <= i < |"0" + s| ==> IsDigit(("0" + s)[i])
    ensures DigitsValue("0" + s) == DigitsValue(s)
  {
    if s != [] {
      var t := "0" + s;
      assert t[..|t| - 1] == "0" + s[..|s| - 1];
      LeadingZero(s[..|s| - 1]);
    }
  }

  lemma {:induction false} NatToStringLength(n: nat)
    ensures n < 10 ==> |NatToString(n)| == 1
    ensures n < 100 ==> |NatToString(n)| <= 2
    ensures n < 1000 ==> |NatToString(n)| <= 3
  {
    if n >= 10 {
      NatToStringLength(n / 10);
    }
  }

  /** f"{n:03d}" for n >= 0 is a digit string of n's value, exactly three
      characters long below 1000. */
  lemma Format03Value(n: nat)
    ensures IsDigits(Format03(n)) && DigitsValue(Format03(n)) == n
    ensures n < 1000 ==> |Format03(n)| == 3
  {
    var d := NatToString(n);
    NatToStringValue(n);
    NatToStringLength(n);
    if |d| == 1 {
      LeadingZero(d);
      LeadingZero("0" + d);
      assert "00" + d == "0" + ("0" + d);
    } else if |d| == 2 {
      LeadingZero(d);
    }
  }

  /** In a collection a volume float() reads as x >= 0 is labelled with the
      digits of int(x), zero-padded to three. */
  lemma NumericCollectionName(title: string, v: string, chapterNames: seq<string>, ext: string, x: real)
    requires v != "0" && ParseDecimal(v) == Some(x) && x >= 0.0
    ensures exists digits ::
      && EpubFileName(title, v, chapterNames, ext, true) == title + " - Volume " + digits + ext
      && IsDigits(digits) && DigitsValue(digits) == x.Floor && |digits| >= 3
      && (x < 1000.0 ==> |digits| == 3)
  {
    Format03Value(x.Floor);
    var digits := Format03(x.Floor);
    assert EpubFileName(title, v, chapterNames, ext, true) == title + " - Volume " + digits + ext;
  }

  /** A volume float() rejects keeps its own name. */
  lemma RawCollectionName(title: string, v: string, chapterNames: seq<string>, ext: string)
    requires v != "0" && ParseDecimal(v).None?
    ensures EpubFileName(title, v, chapterNames, ext, true) == title + " - Volume " + v + ext
  {
  }

  /** Two volumes whose numbers truncate to the same integer get the same
      collection file name: "1" and "1.5" both become "Volume 001". */
  lemma SameIntegerSameName(title: string, v: string, w: string, chapterNames: seq<string>, ext: string)
    requires v != "0" && w != "0"
    requires ParseDecimal(v).Some? && ParseDecimal(w).Some?
    requires Trunc(ParseDecimal(v).value) == Trunc(ParseDecimal(w).value)
    ensures EpubFileName(title, v, chapterNames, ext, true) == EpubFileName(title, w, chapterNames, ext, true)
  {
  }

  /** Outside a collection the name is the sanitized book title, clean of
      characters a file name may not hold, then "_ungrouped_chapters" for
      volume "0" only, then the extension. */
  lemma {:induction false} StandardName(title: string, v: string, chapterNames: seq<string>, ext: string)
    ensures var stem := Utils.SanitizeFilename(VolumeTitle(title, v));
      && Utils.CleanFilename(stem)
      && EpubFileName(title, v, chapterNames, ext, false) == stem + UngroupedSuffix(v) + ext
      && (UngroupedSuffix(v) != [] <==> v == "0")
  {
  }

  // ---------------------------------------------------------------------
  // Cover and chapter contents
  // ---------------------------------------------------------------------

  /** A chapter directory name and its processed images, in order. */
  type Chapter = (string, seq<string>)

  /** all_images: the images of the sorted chapters, one after another. */
  function AllImages(chapters: seq<Chapter>): seq<string> {
    if chapters == [] then []
    else AllImages(chapters[..|chapters| - 1]) + chapters[|chapters| - 1].1
  }

  /** The cover: the official volume cover when one was found and
      downloaded, otherwise the first image. */
  function CoverImage(official: Option<string>, allImages: seq<string>): (r: Option<string>)
    ensures r.None? <==> official.None? && allImages == []
  {
    if official.Some? then official
    else if allImages != [] then Some(allImages[0])
    else None
  }

  /** The images a chapter contributes: all of them, less the first when it
      is the cover. */
  function ChapterImages(images: seq<string>, cover: Option<string>): seq<string> {
    if cover.Some? && images != [] && cover.value == images[0] then images[1..] else images
  }

  /** Whether the chapter loses its first image to the cover. */
  predicate LosesCover(images: seq<string>, cover: Option<string>) {
    cover.Some? && images != [] && cover.value == images[0]
  }

  /** The add_chapter calls: each chapter with images left, in order. */
  function Added(chapters: seq<Chapter>, cover: Option<string>): seq<Chapter> {
    if chapters == [] then []
    else
      var c := chapters[|chapters| - 1];
      var images := ChapterImages(c.1, cover);
      Added(chapters[..|chapters| - 1], cover) + (if images != [] then [(c.0, images)] else [])
  }

  /** The loop over the sorted chapters. */
  method AddChapters(chapters: seq<Chapter>, cover: Option<string>) returns (added: seq<Chapter>)
    ensures added == Added(chapters, cover)
  {
    added := [];
    var i := 0;
    while i < |chapters|
      invariant i <= |chapters|
      invariant added == Added(chapters[..i], cover)
    {
      var name, images := chapters[i].0, chapters[i].1;
      if images != [] {
        var chapterImages := images;
        if cover.Some? && images != [] && cover.value == images[0] {
          chapterImages := images[1..];
        }
        if chapterImages != [] {
          added := added + [(name, chapterImages)];
        }
      }
      assert chapters[..i + 1][..i] == chapters[..i];
      i := i + 1;
    }
    assert chapters[..i] == chapters;
  }

  /** How many chapters lose their first image to the cover. */
  function Dropped(chapters: seq<Chapter>, cover: Option<string>): nat {
    if chapters == [] then 0
    else Dropped(chapters[..|chapters| - 1], cover) + (if LosesCover(chapters[|chapters| - 1].1, cover) then 1 else 0)
  }

  lemma AllImagesSnoc(chapters: seq<Chapter>, c: Chapter)
    ensures AllImages(chapters + [c]) == AllImages(chapters) + c.1
  {
    assert (chapters + [c])[..|chapters|] == chapters;
  }

  /** Chapter c is what add_chapter receives for the directory ch. */
  predicate Contributes(ch: Chapter, cover: Option<string>, c: Chapter) {
    ch.0 == c.0 && c.1 == ChapterImages(ch.1, cover) && c.1 != []
  }

  /** A chapter is added exactly when it has an image besides a leading
      cover, and it is added with those images. */
  lemma {:induction false} AddedMembers(chapters: seq<Chapter>, cover: Option<string>, c: Chapter)
    ensures c in Added(chapters, cover) <==> exists k :: 0 <= k < |chapters| && Contributes(chapters[k], cover, c)
  {
    if chapters != [] {
      var init := chapters[..|chapters| - 1];
      var last := chapters[|chapters| - 1];
      AddedMembers(init, cover, c);
      var images := ChapterImages(last.1, cover);
      assert Added(chapters, cover) == Added(init, cover) + (if images != [] then [(last.0, images)] else []);
      if exists k :: 0 <= k < |init| && Contributes(init[k], cover, c) {
        var k :| 0 <= k < |init| && Contributes(init[k], cover, c);
        assert chapters[k] == init[k];
      }
      if exists k :: 0 <= k < |chapters| && Contributes(chapters[k], cover, c) {
        var k :| 0 <= k < |chapters| && Contributes(chapters[k], cover, c);
        if k < |init| {
          assert init[k] == chapters[k];
        }
      }
    }
  }

  /** No image is lost but the dropped covers: the added chapters hold all
      images less one per chapter that started with the cover. */
  lemma {:induction false} AddedImageCount(chapters: seq<Chapter>, cover: Option<string>)
    ensures |AllImages(Added(chapters, cover))| + Dropped(chapters, cover) == |AllImages(chapters)|
  {
    if chapters != [] {
      var init := chapters[..|chapters| - 1];
      var c := chapters[|chapters| - 1];
      AddedImageCount(init, cover);
      var images := ChapterImages(c.1, cover);
      assert |c.1| == |images| + (if LosesCover(c.1, cover) then 1 else 0);
      assert AllImages(chapters) == AllImages(init) + c.1;
      if images != [] {
        assert Added(chapters, cover) == Added(init, cover) + [(c.0, images)];
        AllImagesSnoc(Added(init, cover), (c.0, images));
      } else {
        assert Added(chapters, cover) == Added(init, cover) + [];
        assert Added(init, cover) + [] == Added(init, cover);
      }
    }
  }

  /** When the first image is the cover, the chapter it comes from loses it,
      so the cover is not repeated as a page. */
  lemma {:induction false} FirstImageDropped(chapters: seq<Chapter>)
    requires AllImages(chapters) != []
    ensures Dropped(chapters, Some(AllImages(chapters)[0])) >= 1
  {
    var init := chapters[..|chapters| - 1];
    var c := chapters[|chapters| - 1];
    if AllImages(init) != [] {
      assert AllImages(chapters)[0] == AllImages(init)[0];
      FirstImageDropped(init);
    } else {
      assert AllImages(chapters) == c.1;
    }
  }

  /** Without an official cover the first image becomes the cover and is
      taken out of its chapter. */
  lemma FallbackCoverDropped(chapters: seq<Chapter>)
    requires AllImages(chapters) != []
    ensures var cover := CoverImage(None, AllImages(chapters));
      cover == Some(AllImages(chapters)[0])
      && |AllImages(Added(chapters, cover))| < |AllImages(chapters)|
  {
    var cover := CoverImage(None, AllImages(chapters));
    FirstImageDropped(chapters);
    AddedImageCount(chapters, cover);
  }

  // ---------------------------------------------------------------------
  // validate_epub
  // ---------------------------------------------------------------------

  /** The outcome of running epubcheck: its exit code and output, or an
      exception. */
  datatype EpubCheckRun = Exited(returncode: int, stdout: string, stderr: string) | RunRaised(message: string)

  /** The dict validate_epub returns; valid None means not validated. */
  datatype Validation = Validation(valid: Option<bool>, error: Option<string>, output: Option<string>)

  /** validate_epub, with the file's existence, the epubcheck lookup and the
      run as inputs. */
  function ValidateEpub(path: string, fileExists: bool, epubcheckOnPath: bool, run: EpubCheckRun): Validation {
    if !fileExists then Validation(Some(false), Some("File not found: " + path), None)
    else if !epubcheckOnPath then Validation(None, Some("EpubCheck not found in PATH"), None)
    else match run
      case Exited(code, out, err) =>
        if code == 0 then Validation(Some(true), None, Some(out))
        else Validation(Some(false), Some(err), Some(out))
      case RunRaised(message) => Validation(Some(false), Some(message), None)
  }

  /** A file is valid exactly when it exists, epubcheck is found and exits
      with 0; it is not validated exactly when it exists and epubcheck is
      not found; every other case is invalid and says why. */
  lemma ValidateEpubOutcomes(path: string, fileExists: bool, epubcheckOnPath: bool, run: EpubCheckRun)
    ensures var r := ValidateEpub(path, fileExists, epubcheckOnPath, run);
      && (r.valid == Some(true) <==> fileExists && epubcheckOnPath && run.Exited? && run.returncode == 0)
      && (r.valid.None? <==> fileExists && !epubcheckOnPath)
      && (r.valid == Some(false) <==> !fileExists || (epubcheckOnPath && !(run.Exited? && run.returncode == 0)))
      && (r.valid != Some(true) ==> r.error.Some?)
      && (!fileExists ==> r.error == Some("File not found: " + path))
  {
  }

  // ---------------------------------------------------------------------
  // Validation counts of display_results_summary
  // ---------------------------------------------------------------------

  /** How many validation results have the given valid value. */
  function CountValid(results: Dict<string, Validation>, valid: Option<bool>): nat {
    if results == [] then 0
    else CountValid(results[..|results| - 1], valid) + (if results[|results| - 1].1.valid == valid then 1 else 0)
  }

  /** Valid, invalid and not validated split the results: each is counted
      once. */
  lemma {:induction false} ValidationCountsPartition(results: Dict<string, Validation>)
    ensures CountValid(results, Some(true)) + CountValid(results, Some(false)) + CountValid(results, None) == |results|
  {
    if results != [] {
      ValidationCountsPartition(results[..|results| - 1]);
      match results[|results| - 1].1.valid {
        case None =>
        case Some(b) => assert b || !b;
      }
    }
  }

  // ---------------------------------------------------------------------
  // The per-volume loop of process_manga
  // ---------------------------------------------------------------------

  /** What the steps after the download gave: no processed image, a failed
      write, an exception, or a written EPUB with its validation. */
  datatype Processing = NoImages | WriteFailed | Raised(error: string) | Written(path: string, validation: Validation)

  /** One volume of the loop: its number, what download_volume returned
      (None when it raised), the chapter directories whose images gave
      nothing, in the order they were visited (up to the exception, when
      processing raised), and how processing went. */
  datatype VolumeRun = VolumeRun(volume: string, download: Option<VolumeDownload.VolumeResult>,
                                 failedChapters: seq<string>, processing: Processing)

  /** results["volumes"][v]: the "Download failed" stand-in, or the download
      result with the error of a later exception. */
  datatype VolumeRecord = DownloadFailed | Result(result: VolumeDownload.VolumeResult, error: Option<string>)

  /** The results dict, without its timestamps. */
  datatype Results = Results(volumes: Dict<string, VolumeRecord>, successful: nat, failed: nat, skipped: nat,
                             epubFiles: seq<string>, validationResults: Dict<string, Validation>, warnings: seq<string>)

  const Initial := Results([], 0, 0, 0, [], [], [])

  function NoImagesWarning(v: string): string {
    "No processed images found for volume " + v
  }

  function ChapterWarning(chapter: string): string {
    "Failed to process images in " + chapter
  }

  /** One warning per chapter directory whose images gave nothing. */
  function ChapterWarnings(chapters: seq<string>): (r: seq<string>)
    ensures |r| == |chapters|
  {
    if chapters == [] then []
    else ChapterWarnings(chapters[..|chapters| - 1]) + [ChapterWarning(chapters[|chapters| - 1])]
  }

  datatype Kind = Success | Failure | Skip

  /** Which counter a volume increments. */
  function KindOf(run: VolumeRun): Kind {
    match run.download
    case None => Failure
    case Some(r) =>
      if !VolumeDownload.VolumeSuccess(r) then Failure
      else match run.processing
        case NoImages => Skip
        case WriteFailed => Failure
        case Raised(_) => Failure
        case Written(_, _) => Success
  }

  /** One pass of the loop body. */
  function Step(res: Results, run: VolumeRun, validate: bool): Results {
    match run.download
    case None => res.(failed := res.failed + 1, volumes := Put(res.volumes, run.volume, DownloadFailed))
    case Some(r) =>
      var volumes := Put(res.volumes, run.volume, Result(r, None));
      if !VolumeDownload.VolumeSuccess(r) then res.(volumes := volumes, failed := res.failed + 1)
      else
        var warnings := res.warnings + ChapterWarnings(run.failedChapters);
        match run.processing
        case NoImages =>
          res.(volumes := volumes, warnings := warnings + [NoImagesWarning(run.volume)], skipped := res.skipped + 1)
        case WriteFailed => res.(volumes := volumes, warnings := warnings, failed := res.failed + 1)
        case Raised(e) =>
          res.(volumes := Put(volumes, run.volume, Result(r, Some(e))), warnings := warnings, failed := res.failed + 1)
        case Written(path, validation) =>
          res.(volumes := volumes, warnings := warnings, epubFiles := res.epubFiles + [path],
               validationResults := if validate then Put(res.validationResults, path, validation) else res.validationResults,
               successful := res.successful + 1)
  }

  /** The results after the given volumes. */
  function Processed(runs: seq<VolumeRun>, validate: bool): Results {
    if runs == [] then Initial
    else Step(Processed(runs[..|runs| - 1], validate), runs[|runs| - 1], validate)
  }

  /** The loop over the volumes, updating the results as it goes. */
  method ProcessVolumes(runs: seq<VolumeRun>, validate: bool) returns (res: Results)
    ensures res == Processed(runs, validate)
  {
    res := Initial;
    var i := 0;
    while i < |runs|
      invariant i <= |runs|
      invariant res == Processed(runs[..i], validate)
    {
      res := ProcessVolume(res, runs[i], validate);
      assert runs[..i + 1][..i] == runs[..i];
      i := i + 1;
    }
    assert runs[..i] == runs;
  }

  /** The body of the loop for one volume. */
  method ProcessVolume(res: Results, run: VolumeRun, validate: bool) returns (next: Results)
    ensures next == Step(res, run, validate)
  {
    next := res;
    if run.download.None? {
      next := next.(failed := next.failed + 1, volumes := Put(next.volumes, run.volume, DownloadFailed));
      return;
    }
    var r := run.download.value;
    next := next.(volumes := Put(next.volumes, run.volume, Result(r, None)));
    if !VolumeDownload.VolumeSuccess(r) {
      next := next.(failed := next.failed + 1);
      return;
    }
    var warnings := AddChapterWarnings(next.warnings, run.failedChapters);
    next := next.(warnings := warnings);
    match run.processing {
      case NoImages =>
        next := next.(warnings := next.warnings + [NoImagesWarning(run.volume)], skipped := next.skipped + 1);
      case WriteFailed =>
        next := next.(failed := next.failed + 1);
      case Raised(e) =>
        next := next.(volumes := Put(next.volumes, run.volume, Result(r, Some(e))), failed := next.failed + 1);
      case Written(path, validation) =>
        next := next.(epubFiles := next.epubFiles + [path]);
        if validate {
          next := next.(validationResults := Put(next.validationResults, path, validation));
        }
        next := next.(successful := next.successful + 1);
    }
  }

  /** The loop over the chapter directories, as far as the warnings go. */
  method AddChapterWarnings(warnings: seq<string>, failedChapters: seq<string>) returns (w: seq<string>)
    ensures w == warnings + ChapterWarnings(failedChapters)
  {
    w := warnings;
    var j := 0;
    while j < |failedChapters|
      invariant j <= |failedChapters|
      invariant w == warnings + ChapterWarnings(failedChapters[..j])
    {
      w := w + [ChapterWarning(failedChapters[j])];
      assert failedChapters[..j + 1][..j] == failedChapters[..j];
      j := j + 1;
    }
    assert failedChapters[..j] == failedChapters;
  }

  /** How many volumes are of the given kind. */
  function CountKind(runs: seq<VolumeRun>, k: Kind): nat {
    if runs == [] then 0
    else CountKind(runs[..|runs| - 1], k) + (if KindOf(runs[|runs| - 1]) == k then 1 else 0)
  }

  /** The EPUB paths written, in order. */
  function WrittenPaths(runs: seq<VolumeRun>): seq<string> {
    if runs == [] then []
    else
      var run := runs[|runs| - 1];
      WrittenPaths(runs[..|runs| - 1]) + (if KindOf(run) == Success then [run.processing.path] else [])
  }

  /** One pass increments exactly the counter of the volume's kind, by one. */
  lemma StepCounts(res: Results, run: VolumeRun, validate: bool)
    ensures var next := Step(res, run, validate);
      && next.successful == res.successful + (if KindOf(run) == Success then 1 else 0)
      && next.failed == res.failed + (if KindOf(run) == Failure then 1 else 0)
      && next.skipped == res.skipped + (if KindOf(run) == Skip then 1 else 0)
  {
  }

  /** Each counter counts the volumes of its kind, so every volume is
      counted exactly once. */
  lemma {:induction false} ProcessedCounts(runs: seq<VolumeRun>, validate: bool)
    ensures var res := Processed(runs, validate);
      && res.successful == CountKind(runs, Success)
      && res.failed == CountKind(runs, Failure)
      && res.skipped == CountKind(runs, Skip)
      && res.successful + res.failed + res.skipped == |runs|
  {
    if runs != [] {
      ProcessedCounts(runs[..|runs| - 1], validate);
      StepCounts(Processed(runs[..|runs| - 1], validate), runs[|runs| - 1], validate);
    }
  }

  /** How many chapter directories failed in the volumes whose download
      succeeded: the ones whose images the loop tried to process. */
  function FailedChapterCount(runs: seq<VolumeRun>): nat {
    if runs == [] then 0
    else
      var run := runs[|runs| - 1];
      FailedChapterCount(runs[..|runs| - 1]) +
        (if run.download.Some? && VolumeDownload.VolumeSuccess(run.download.value) then |run.failedChapters| else 0)
  }

  /** One pass adds a warning per failed chapter and one more when the
      volume is skipped. */
  lemma StepWarnings(res: Results, run: VolumeRun, validate: bool)
    ensures |Step(res, run, validate).warnings| == |res.warnings|
      + (if run.download.Some? && VolumeDownload.VolumeSuccess(run.download.value) then |run.failedChapters| else 0)
      + (if KindOf(run) == Skip then 1 else 0)
  {
  }

  /** The EPUB files are the written paths, one per successful volume; there
      is one warning per skipped volume and one per chapter whose images
      failed. */
  lemma {:induction false} ProcessedLists(runs: seq<VolumeRun>, validate: bool)
    ensures var res := Processed(runs, validate);
      && res.epubFiles == WrittenPaths(runs)
      && |res.epubFiles| == res.successful
      && |res.warnings| == res.skipped + FailedChapterCount(runs)
  {
    if runs != [] {
      var init := runs[..|runs| - 1];
      ProcessedLists(init, validate);
      StepWarnings(Processed(init, validate), runs[|runs| - 1], validate);
      StepCounts(Processed(init, validate), runs[|runs| - 1], validate);
    }
  }

  /** A volume that is written still reports its failed chapters: its
      warnings come before the next volume's. */
  lemma WrittenKeepsChapterWarnings(res: Results, run: VolumeRun, validate: bool)
    requires KindOf(run) == Success
    ensures Step(res, run, validate).warnings == res.warnings + ChapterWarnings(run.failedChapters)
  {
  }

  /** Every volume of the loop has an entry in results["volumes"], and no
      other key is there. */
  lemma {:induction false} ProcessedVolumeKeys(runs: seq<VolumeRun>, validate: bool)
    ensures Keys(Processed(runs, validate).volumes) == VolumeNumbers(runs)
  {
    if runs != [] {
      var init := runs[..|runs| - 1];
      ProcessedVolumeKeys(init, validate);
      StepVolumeKeys(Processed(init, validate), runs[|runs| - 1], validate);
      VolumeNumbersSnoc(runs);
    }
  }

  /** The volume numbers of the loop. */
  function VolumeNumbers(runs: seq<VolumeRun>): set<string> {
    set k | 0 <= k < |runs| :: runs[k].volume
  }

  lemma VolumeNumbersSnoc(runs: seq<VolumeRun>)
    requires runs != []
    ensures VolumeNumbers(runs) == VolumeNumbers(runs[..|runs| - 1]) + {runs[|runs| - 1].volume}
  {
    var init := runs[..|runs| - 1];
    forall x | x in VolumeNumbers(runs) ensures x in VolumeNumbers(init) + {runs[|runs| - 1].volume} {
      var k :| 0 <= k < |runs| && runs[k].volume == x;
      if k < |init| { assert init[k] == runs[k]; }
    }
    forall x | x in VolumeNumbers(init) ensures x in VolumeNumbers(runs) {
      var k :| 0 <= k < |init| && init[k].volume == x;
      assert runs[k] == init[k];
    }
  }

  /** One pass adds the volume's number to the keys of results["volumes"]. */
  lemma StepVolumeKeys(res: Results, run: VolumeRun, validate: bool)
    ensures Keys(Step(res, run, validate).volumes) == Keys(res.volumes) + {run.volume}
  {
    var next := Step(res, run, validate);
    if run.download.None? {
      assert next.volumes == Put(res.volumes, run.volume, DownloadFailed);
      PutKeys(res.volumes, run.volume, DownloadFailed);
    } else {
      var r := run.download.value;
      var volumes := Put(res.volumes, run.volume, Result(r, None));
      PutKeys(res.volumes, run.volume, Result(r, None));
      if VolumeDownload.VolumeSuccess(r) && run.processing.Raised? {
        assert next.volumes == Put(volumes, run.volume, Result(r, Some(run.processing.error)));
        PutKeys(volumes, run.volume, Result(r, Some(run.processing.error)));
      } else {
        assert next.volumes == volumes;
      }
    }
  }

  /** With validation on, the validation results are keyed by exactly the
      EPUB files written; with it off there are none. */
  lemma {:induction false} ProcessedValidationKeys(runs: seq<VolumeRun>, validate: bool)
    ensures var res := Processed(runs, validate);
      && (validate ==> Keys(res.validationResults) == Elements(res.epubFiles))
      && (!validate ==> res.validationResults == [])
  {
    if runs != [] {
      var init := runs[..|runs| - 1];
      var run := runs[|runs| - 1];
      var before := Processed(init, validate);
      ProcessedValidationKeys(init, validate);
      if validate && KindOf(run) == Success {
        var path := run.processing.path;
        PutKeys(before.validationResults, path, run.processing.validation);
        ElementsSnoc(before.epubFiles, path);
      }
    }
  }

  lemma ElementsSnoc(s: seq<string>, x: string)
    ensures Elements(s + [x]) == Elements(s) + {x}
  {
    var t := s + [x];
    forall y | y in Elements(t) ensures y in Elements(s) + {x} {
      var i :| 0 <= i < |t| && t[i] == y;
      if i < |s| { assert s[i] == y; }
    }
    forall y | y in Elements(s) ensures y in Elements(t) {
      var i :| 0 <= i < |s| && s[i] == y;
      assert t[i] == y;
    }
    assert t[|s|] == x;
  }

  // ---------------------------------------------------------------------
  // Download statistics of the summary
  // ---------------------------------------------------------------------

  /** The stats a volume entry holds: download results carry them, the
      "Download failed" stand-in does not. */
  function RecordStats(rec: VolumeRecord): Option<Downloader.Stats> {
    match rec
    case DownloadFailed => None
    case Result(r, _) => Some(VolumeDownload.VolumeStatsOf(r))
  }

  /** Adding up: a key appears once some entry has it. */
  function Merge(a: Option<Downloader.Stats>, b: Option<Downloader.Stats>): Option<Downloader.Stats> {
    match (a, b)
    case (None, _) => b
    case (_, None) => a
    case (Some(x), Some(y)) => Some(Downloader.AddStats(x, y))
  }

  /** download_stats: None while it is empty. */
  function DownloadStats(volumes: Dict<string, VolumeRecord>): Option<Downloader.Stats> {
    if volumes == [] then None
    else Merge(DownloadStats(volumes[..|volumes| - 1]), RecordStats(volumes[|volumes| - 1].1))
  }

  /** The summing loop over the volume entries. */
  method SumDownloadStats(volumes: Dict<string, VolumeRecord>) returns (stats: Option<Downloader.Stats>)
    ensures stats == DownloadStats(volumes)
  {
    stats := None;
    var i := 0;
    while i < |volumes|
      invariant i <= |volumes|
      invariant stats == DownloadStats(volumes[..i])
    {
      var rec := volumes[i].1;
      if rec.Result? {
        var s := VolumeDownload.VolumeStatsOf(rec.result);
        var sum := if stats.Some? then stats.value else Downloader.NoStats;
        stats := Some(Downloader.Stats(sum.downloaded + s.downloaded, sum.skipped + s.skipped,
                                       sum.failed + s.failed, sum.retries + s.retries));
      }
      assert volumes[..i + 1][..i] == volumes[..i];
      i := i + 1;
    }
    assert volumes[..i] == volumes;
  }

  lemma MergeAssociative(a: Option<Downloader.Stats>, b: Option<Downloader.Stats>, c: Option<Downloader.Stats>)
    ensures Merge(Merge(a, b), c) == Merge(a, Merge(b, c))
  {
  }

  /** The statistics are empty exactly when no entry is a download result. */
  lemma {:induction false} DownloadStatsEmpty(volumes: Dict<string, VolumeRecord>)
    ensures DownloadStats(volumes).None? <==> forall i :: 0 <= i < |volumes| ==> volumes[i].1 == DownloadFailed
  {
    if volumes != [] {
      var init := volumes[..|volumes| - 1];
      DownloadStatsEmpty(init);
      assert forall i :: 0 <= i < |init| ==> init[i] == volumes[i];
    }
  }

  /** The statistics of two runs of entries add up field by field. */
  lemma {:induction false} DownloadStatsAppend(a: Dict<string, VolumeRecord>, b: Dict<string, VolumeRecord>)
    ensures DownloadStats(a + b) == Merge(DownloadStats(a), DownloadStats(b))
  {
    if b != [] {
      var init := b[..|b| - 1];
      DownloadStatsAppend(a, init);
      assert (a + b)[..|a + b| - 1] == a + init;
      MergeAssociative(DownloadStats(a), DownloadStats(init), RecordStats(b[|b| - 1].1));
    } else {
      assert a + b == a;
    }
  }
}
