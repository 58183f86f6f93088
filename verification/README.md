# mangabook in Dafny

mangabook downloads manga chapters page by page from MangaDex and packs each
volume into an EPUB, or a Kobo KEPUB. This project models the part of
mangabook that does the bookkeeping, and proves what that part promises.
It covers:

- the page downloader: it skips valid files, runs a retry loop over a temporary
  file, and keeps counters. Its status rules apply per chapter and per volume;
- the download manager and the API cache;
- the EPUB builder's state (images, chapters, spine, table of contents,
  cover and reading direction);
- the enhanced writer, which lays the book out itself. It writes the package
  document with sanitised ids, the NCX with its play order and the
  navigation document with its fallbacks. It then zips the book with
  `mimetype` stored first, as section 3.3 of EPUB Open Container Format
  3.0.1 requires;
- the Kobo transform, which adds sentence spans and patches the package,
  navigation and NCX files;
- the workflow's file naming, cover de-duplication and counters;
- the command-line volume selection;
- the small tables: the batch queue, the reading history and the error log.

Mutable objects are classes whose methods are proved against specification
functions of the old state. Each source file keeps the form it has in the
program. Loops are methods with invariants, and pure helpers are functions
and lemmas. Python dicts are insertion-ordered association lists (module
`Dicts`), and Python's stable `list.sort` is a stable insertion sort (module
`Sorting`).

Everything the program does not compute itself is a parameter:

- the network, the file system, the clock and the epubcheck run;
- what each page fetch or image check gives;
- what ebooklib adds on its own;
- what a chapter download does within the download manager.

The volume-manifest helpers that downloader.py imports are not part of this
model. The manifest is the list of calls made on it, in order.

## Model

| member | source | states |
|---|---|---|
| Text.Lower | mangabook/epub/kobo.py:153 | lower-casing keeps the length and maps each ASCII letter to its lower case, leaving every other character alone |
| Text.LowerEndsWith | mangabook/epub/kobo.py:153-154 | a lower-cased name still ends with the lower-cased extension it ended with, so endswith checks survive lower() |
| Text.ReplaceChar | mangabook/epub/enhanced_builder.py:270 | str.replace on one character changes exactly the occurrences of that character and nothing else |
| Text.TrimStart | mangabook/cli.py:467 | the result is a suffix of the input, everything dropped is strippable and the result does not start with a strippable character |
| Text.TrimEnd | mangabook/cli.py:467 | the result is a prefix of the input, everything dropped is strippable and the result does not end with a strippable character |
| Text.StripBy | mangabook/utils.py:131 | strip(chars) leaves no strippable character at either end, and gives "" exactly when every character is strippable |
| Text.Strip | mangabook/cli.py:467 | strip() leaves no whitespace at either end, and gives "" exactly when the text is all whitespace |
| Text.Split | mangabook/cli.py:466 | split(",") gives at least one piece and no piece holds the separator |
| Text.JoinSplit | mangabook/cli.py:466 | joining the pieces of split(",") with "," gives the input back, so nothing is lost or reordered |
| Text.TakeWhileNot | mangabook/epub/kobo.py:276 | the longest prefix whose characters all fail the test: it stops at the first character that passes or at the end |
| Text.Words | mangabook/workflow.py:283 | split() yields non-empty words holding no whitespace |
| Text.NatToString | mangabook/epub/kobo.py:262 | str(i) of a natural number is a non-empty run of digits |
| Text.NatToStringValue | mangabook/epub/kobo.py:262 | reading the digits of str(i) back gives i |
| Text.NatToStringInjective | mangabook/epub/kobo.py:262 | different page numbers never print the same, so the kobo_p_{i} ids are distinct |
| Text.Pad3 | mangabook/workflow.py:300 | f"{n:03d}" is all digits and at least three characters long |
| Text.ParseDecimal | mangabook/cli.py:497-499 | float() accepts only text that is not all whitespace; plain decimal text is read with an optional sign and at most one dot |
| Text.DecimalLiteralParses | mangabook/cli.py:470-479 | every literal the range pattern accepts is a number float() can read |
| Text.SliceTo | mangabook/utils.py:290 | s[:k] is a prefix of s whose length is k, capped at len(s), and for negative k counts from the end, bottoming out at 0 |
| Text.SliceFrom | mangabook/epub/enhanced_builder.py:185 | s[k:] drops the first k characters, or everything when k is past the end |
| Text.BaseName | mangabook/epub/enhanced_builder.py:70-72 | os.path.basename gives a name holding no "/" that the path ends with |
| Text.LastIndexOf | mangabook/downloader.py:243 | the index of the last occurrence of a character, with none after it, or none when the character does not occur |
| Text.Suffix | mangabook/epub/enhanced_builder.py:179 | a path suffix is empty or a dot and at least one more character that the name ends with |
| Text.Stem | mangabook/epub/kobo.py:493 | stem followed by suffix gives the name back |
| Dicts.IndexOf | mangabook/cli.py:350 | the index found holds the key and no earlier pair does |
| Dicts.Get | mangabook/history.py:155-157 | a lookup finds a value exactly when the key is present |
| Dicts.Put | mangabook/cli.py:350-356 | assigning to a present key keeps the length, a new key adds one pair |
| Dicts.PutProperties | mangabook/cli.py:350-356 | after an assignment the key holds the new value, every other key its old one, and the keys gain the new key and stay distinct |
| Dicts.PutGet | mangabook/history.py:113-121 | the lookup of the assigned key gives the new value and of any other key the old one |
| Dicts.PutKeys | mangabook/cli.py:350-356 | the keys after an assignment are the old keys plus the new one, the old ones in their old places |
| Dicts.Remove | mangabook/cli.py:378-379 | `del`/pop of a present key removes one pair; an absent key changes nothing |
| Dicts.RemoveGet | mangabook/history.py:270 | deleting a key leaves every other key's value alone |
| Dicts.RemoveKeys | mangabook/history.py:270 | deleting a key removes it from the keys and nothing else |
| Dicts.RemoveProperties | mangabook/history.py:266-271 | deleting a key removes it and nothing else, and keeps the order of the other keys |
| Sorting.SortBy | mangabook/batch.py:126 | list.sort(key=…) gives a sorted permutation of the list |
| Sorting.SortByStable | mangabook/batch.py:126 | the sort is stable: elements with equal keys keep their order |
| Sorting.SortAppendSorted | mangabook/batch.py:122-126 | sorting a sorted list with one element appended inserts that element after every element whose key is not above its own |
| Sorting.SortOfSorted | mangabook/batch.py:126 | a sorted list is left as it is |
| Sorting.InsertSorted | mangabook/batch.py:126 | inserting after the last element not above keeps the list sorted |
| Sorting.InsertMultiset | mangabook/batch.py:126 | inserting adds exactly the one element |
| ChapterOrder.Without | mangabook/cli.py:383 | removing the dots leaves no dot and every other character of the number |
| ChapterOrder.ChapterKeyAsWritten | mangabook/cli.py:382-384 | as written, a number whose dot-free form is not all digits sorts as +inf |
| ChapterOrder.ChapterKey | mangabook/cli.py:382-384 | as intended, a number gets a finite key exactly when its dot-free form is all digits and it reads as a decimal, and then its value; every other number sorts last |
| ChapterOrder.ChapterKeyAgrees | mangabook/downloader.py:446 | wherever the key as written does not raise, it is the intended key |
| ChapterOrder.DecimalChapterKey | mangabook/downloader.py:446 | every plain decimal chapter number gets its own value as key, as written and as intended |
| ChapterOrder.ThreePartNumberRaises | mangabook/cli.py:382-384 | "1.2.3" passes the digit test but float() rejects it: the key as written raises, the intended key puts it after every number |
| Utils.ReplaceInvalid | mangabook/utils.py:22 | every character of INVALID_FILENAME_CHARS becomes "_" and every other character is kept, position by position (also line 129) |
| Utils.SanitizeFilename | mangabook/utils.py:119-135 | the result holds no invalid character, is never empty, and neither starts nor ends with a dot or a space |
| Utils.ReplaceInvalidValid | mangabook/utils.py:129 | after the substitution no invalid filename character is left |
| Utils.UnnamedClean | mangabook/utils.py:133-134 | the fallback name "unnamed" is itself a clean file name |
| Utils.StripKeeps | mangabook/utils.py:131 | strip(". ") only removes characters, so it cannot bring an invalid character back |
| Utils.StripByNothingToStrip | mangabook/utils.py:131 | strip(". ") leaves a name with nothing to strip at either end unchanged |
| Utils.SanitizeFilenameIdempotent | mangabook/utils.py:119-135 | sanitising a sanitised name changes nothing |
| Utils.SanitizeFilenameKeepsClean | mangabook/utils.py:119-135 | a name that is already clean is returned as it is |
| Utils.TruncateString | mangabook/utils.py:273-290 | "" for empty text; text no longer than max_length unchanged; longer text cut to a prefix and suffixed, exactly max_length long when the suffix fits, and following Python's negative slice otherwise |
| Utils.Visible | mangabook/utils.py:201-202 | the non-whitespace characters, never more than the text has |
| Utils.CollapseSpace | mangabook/utils.py:202 | re.sub(r'\s+', ' ') is empty only for empty text, keeps whether the text starts and ends with whitespace, leaves no two adjacent whitespace characters and uses only " " for whitespace |
| Utils.VisibleAllSpace | mangabook/utils.py:202 | text made only of whitespace has no visible characters |
| Utils.VisibleAppend | mangabook/utils.py:202 | the visible characters of a concatenation are those of each part, in order |
| Utils.CollapseSpaceKeepsVisible | mangabook/utils.py:202 | collapsing whitespace keeps every other character, in order |
| Utils.FormatMangaTitle | mangabook/utils.py:189-203 | "Unknown" for an empty title; otherwise the title stripped at both ends with no double whitespace, and "" exactly when the title is all whitespace |
| Utils.VisibleTrimStart | mangabook/utils.py:202 | stripping leading whitespace keeps the visible characters |
| Utils.VisibleTrimEnd | mangabook/utils.py:202 | stripping trailing whitespace keeps the visible characters |
| Utils.FormatMangaTitleKeepsText | mangabook/utils.py:189-203 | formatting a non-empty title keeps all its visible characters, in order |
| Utils.VolumeDirName | mangabook/utils.py:184 | the volume directory is "volume_" followed by the volume number as given |
| Utils.VolumeDirNameInjective | mangabook/utils.py:174-186 | two different volumes never share a directory |
| Utils.Repeat | mangabook/utils.py:260 | "-" * w is w dashes |
| Utils.LJust | mangabook/utils.py:256 | ljust(w) starts with the text and is exactly w long when the text is shorter, the text itself otherwise |
| Utils.Max | mangabook/utils.py:250 | max of two ints: at least both arguments and equal to one of them |
| Utils.Min | mangabook/utils.py:250 | min of two ints: at most both arguments and equal to one of them |
| Utils.Widen | mangabook/utils.py:249-250 | one row's cells widen only the columns they fall in and keep the number of columns |
| Utils.ColumnWidths | mangabook/utils.py:246-250 | there is one width per header |
| Utils.ColumnWidthsBounds | mangabook/utils.py:246-250 | each column is at least as wide as its header and no cell widens it past the larger of the header and width // num_cols |
| Utils.TableLineCount | mangabook/utils.py:252-270 | a table with rows has one line per row plus the header and the separator, and starts with the header line |
| Utils.HeaderCellsFit | mangabook/utils.py:256 | each header is padded to exactly its column's width and keeps its text |
| Utils.CreateTable | mangabook/utils.py:230-270 | "No data to display." when there are no rows, otherwise the header, the separator and one line per row, joined by newlines |
| Utils.MeasureColumns | mangabook/utils.py:246-250 | the width loops compute exactly ColumnWidths |
| Utils.Retry | mangabook/utils.py:328-346 | no call when max_attempts < 1; otherwise between one and max_attempts calls, every call but the last raised a retried exception, the result is the last call's value or its exception, a retried exception ends the loop only at max_attempts, and the sleeps start at delay and grow by backoff |
| Utils.RetryOnAsync | mangabook/utils.py:328-346 | decorating an async function makes one call that returns the coroutine without awaiting it, so nothing is ever retried or slept |
| Builder.PageUid | mangabook/epub/builder.py:223-225 | the uid of page k of a chapter is the chapter id, "_" and k |
| Builder.HtmlId | mangabook/epub/builder.py:226 | every page the builder creates is a document ebooklib numbers itself, chapter_0 on |
| Builder.ImageItems | mangabook/epub/builder.py:213-219 | a chapter adds one image per loadable path, numbered on from the images already there |
| Builder.ImageIdInjective | mangabook/epub/builder.py:214 | distinct image numbers give distinct ids image_n |
| Builder.ImageIdsDistinct | mangabook/epub/builder.py:214 | the images of a builder have pairwise distinct ids |
| Builder.PageUidInjective | mangabook/epub/builder.py:223-225 | a page uid determines its chapter id and page number, the last "_" separating them |
| Builder.PageFileNameInjective | mangabook/epub/builder.py:275 | a page file name pages/{uid}.xhtml determines chapter id and page number too |
| Builder.NormalizeDirection | mangabook/epub/builder.py:356-358 | the stored direction is rtl or ltr; a given rtl or ltr is kept and anything else becomes rtl |
| Builder.NormalizeDirectionIdempotent | mangabook/epub/builder.py:356-358 | normalising a normalised direction changes nothing |
| Builder.EpubFileName | mangabook/epub/builder.py:330-336 | the name write uses ends in ".epub" in any letter case, starts with the name given, and is the given name itself when that already ends so |
| Builder.EpubFileNameIdempotent | mangabook/epub/builder.py:335-336 | a name that already went through the extension rule is kept as it is |
| Builder.JoinPath | mangabook/epub/builder.py:339 | the target path ends in the file name (an absolute name replaces the directory) |
| Builder.Present | mangabook/epub/builder.py:190-193 | the paths add_chapter turns into pages are the existing readable ones, in order (also lines 251-252) |
| Builder.ChapterPages | mangabook/epub/builder.py:221-229 | one page per loadable path of a chapter |
| Builder.ChapterItems | mangabook/epub/builder.py:213-226 | the book gets each image followed by its page |
| Builder.ChapterReset | mangabook/epub/builder.py:243-248 | add_chapter starts with a book and an empty page list for the chapter |
| Builder.LtrOnBookRaises | mangabook/epub/builder.py:367-374 | as written, set_reading_direction("ltr") on an existing book raises TypeError, keeping every writing-mode meta; every other call agrees with the intended version |
| Builder.LtrUndoesRtl | mangabook/epub/builder.py:361-374 | as intended, "ltr" removes one primary-writing-mode meta, so it undoes an "rtl" and leaves none on a book that had the one _init_book adds |
| Builder.BookedValid | mangabook/epub/builder.py:101-141 | _init_book keeps the builder's invariant: images numbered, chapter pages placed in the spine, the toc flat |
| Builder.WithImageValid | mangabook/epub/builder.py:183-233 | add_image keeps the invariant |
| Builder.WithImagesValid | mangabook/epub/builder.py:251-252 | adding images in turn keeps the invariant |
| Builder.WithChapterValid | mangabook/epub/builder.py:235-260 | add_chapter keeps the invariant |
| Builder.WithCoverValid | mangabook/epub/builder.py:143-181 | set_cover keeps the invariant |
| Builder.FinalizedValid | mangabook/epub/builder.py:299-315 | finalize keeps the invariant |
| Builder.WithDirectionValid | mangabook/epub/builder.py:350-378 | set_reading_direction keeps the invariant |
| Builder.WithImageMissing | mangabook/epub/builder.py:189-193 | add_image with a missing path leaves all builder state unchanged |
| Builder.WithImageAppends | mangabook/epub/builder.py:196-229 | add_image with a loadable path appends exactly one image image_{n} for the old number n of images, and one page pages/{chapter}_{k}.xhtml for the old chapter length k, to the chapter and to the spine |
| Builder.WithImageOnBook | mangabook/epub/builder.py:196-233 | on a book that has the chapter, an unreadable path changes nothing and a readable one appends its image and page |
| Builder.Prepared | mangabook/epub/builder.py:196-202 | before reading the file add_image has a book and the chapter |
| Builder.WithImagePrepared | mangabook/epub/builder.py:196-202 | preparing first changes nothing add_image does for an existing path |
| Builder.AppendedSizes | mangabook/epub/builder.py:221-229 | the pages added to an empty chapter are the chapter's pages, each also in the spine |
| Builder.AppendedSnoc | mangabook/epub/builder.py:213-229 | one more loadable path appends one image and one page |
| Builder.WithImagesAppend | mangabook/epub/builder.py:248-252 | adding images to an emptied chapter appends, for every loadable path in order, its image and its page |
| Builder.WithChapterEffect | mangabook/epub/builder.py:235-260 | add_chapter resets the chapter, adds the loadable images in the order given, and appends exactly one flat toc link, to the first page, only when a page was added |
| Builder.ChapterPagesNamed | mangabook/epub/builder.py:223-225 | page k of a chapter is named pages/{chapter}_{k}.xhtml, k its index within the chapter (also line 275) |
| Builder.WithImageImages | mangabook/epub/builder.py:213-219 | add_image appends to the images exactly when the path is loadable |
| Builder.WithImagesImages | mangabook/epub/builder.py:214 | images are numbered over the whole builder, whatever their chapter |
| Builder.WithImagesKeep | mangabook/epub/builder.py:183-233 | adding images leaves the cover and the reading direction alone |
| Builder.WithImagesBook | mangabook/epub/builder.py:189-198 | after adding images there is a book exactly when there was one or one of the paths exists |
| Builder.FromImagesPages | mangabook/epub/builder.py:422-431 | without an explicit cover the first image is the cover and is not added again as a page: the pages come from the other images |
| Builder.WithCoverRecords | mangabook/epub/builder.py:149-157 | set_cover records an existing path, readable or not, and ignores a missing one |
| Builder.WrittenKeeps | mangabook/epub/builder.py:317-348 | write leaves the cover and the reading direction alone |
| Builder.FromImagesCover | mangabook/epub/builder.py:419-428 | the cover is the explicit one, or else the first image, when that file exists; the direction is the normalised one given |
| Builder.FinalizedAttaches | mangabook/epub/builder.py:299-313 | finalize sets the book's spine and toc to the builder's and adds the NCX and Nav items after the book's items |
| Builder.WrittenOutcome | mangabook/epub/builder.py:325-327 | write without a book raises AttributeError; otherwise it finalizes exactly when the book's spine is empty |
| Builder.WrittenPath | mangabook/epub/builder.py:329-339 | the target path ends in ".epub" in any case and lies in the output directory unless the name is absolute |
| Builder.ImagePageRaises | mangabook/epub/builder.py:212-233 | as written, add_image on a loadable path records the image but, because making its page raises, adds no page: spine, chapter and page count are unchanged, where the intended add_image appends a page to the spine; any other path is handled as intended (also line 295) |
| Builder.WithImagesAsWrittenEffect | mangabook/epub/builder.py:251-252 | as written, adding images records every loadable one, numbered over the builder, and leaves the spine, the toc, the cover and the chapter's pages alone |
| Builder.ChapterLinkMissing | mangabook/epub/builder.py:235-260 | as written, add_chapter records the loadable images but leaves the chapter empty and adds no toc link, where the intended add_chapter adds one link whenever an image loaded |
| Builder.CoverPageRaises | mangabook/epub/builder.py:143-181 | as written, set_cover on a loadable path records the cover and adds ebooklib's cover items but no cover page, where the intended set_cover appends the page to the spine; any other path is handled as intended |
| Builder.FromImagesNoPages | mangabook/epub/builder.py:397-431 | as written, create_from_images builds a book with an empty spine that still records every loadable page image, and writes it exactly when there is a book |
| Builder.EpubBuilder.constructor | mangabook/epub/builder.py:70-99 | no book, no images, chapters, spine or toc, no cover, direction rtl |
| Builder.EpubBuilder.InitBook | mangabook/epub/builder.py:101-141 | a new book holding the two stylesheets, with direction rtl and one writing-mode meta when the direction is rtl |
| Builder.EpubBuilder.AddImage | mangabook/epub/builder.py:183-233 | the fields end as add_image's specification says, and the invariant holds |
| Builder.EpubBuilder.Prepare | mangabook/epub/builder.py:196-202 | a book and the chapter, nothing else changed |
| Builder.EpubBuilder.AddLoadedImage | mangabook/epub/builder.py:204-229 | the image, its page, and the page at the end of the chapter and of the spine |
| Builder.EpubBuilder.AddImages | mangabook/epub/builder.py:251-252 | the loop of add_chapter ends in the state of adding the paths one after the other |
| Builder.EpubBuilder.ResetChapter | mangabook/epub/builder.py:243-248 | a book and the chapter emptied |
| Builder.EpubBuilder.AddChapter | mangabook/epub/builder.py:235-260 | the fields end as add_chapter's specification says, and the invariant holds |
| Builder.EpubBuilder.SetCover | mangabook/epub/builder.py:143-181 | the fields end as set_cover's specification says, and the invariant holds |
| Builder.EpubBuilder.AddCoverPage | mangabook/epub/builder.py:171-177 | ebooklib's cover items, then the cover page at the end of the items and of the spine |
| Builder.EpubBuilder.Finalize | mangabook/epub/builder.py:299-315 | the fields end as finalize's specification says |
| Builder.EpubBuilder.SetReadingDirection | mangabook/epub/builder.py:350-378 | the fields end as the intended set_reading_direction says |
| Builder.EpubBuilder.Write | mangabook/epub/builder.py:317-348 | the new state and the target path or error are what write's specification gives |
| Builder.CreateFromImages | mangabook/epub/builder.py:397-436 | a fresh builder ends in the state and result create_from_images' specification gives |
| Opf.SubInvalid | mangabook/epub/enhanced_builder.py:422 | re.sub keeps every letter, digit, "-", "_" and "." and puts "_" in place of every other character, keeping the length (also line 463) |
| Opf.CleanIdProperties | mangabook/epub/enhanced_builder.py:461-463 | a clean id holds only pattern characters, keeps the length, keeps an id that was clean already, and cleaning twice is cleaning once |
| Opf.ManifestIdAsWrittenKeepsNewline | mangabook/epub/enhanced_builder.py:420-422 | as written, a clean id followed by a newline passes the anchored re.match, so the manifest keeps the newline while the spine refers to the id with "_" in its place (also lines 461-463) |
| Opf.ManifestIdIsCleanId | mangabook/epub/enhanced_builder.py:415-422 | with the whole string checked, the manifest id is the id the spine uses: pattern characters only, no colon |
| Opf.SpineIdOfRewrittenItem | mangabook/epub/enhanced_builder.py:412-422 | an item rewritten by the manifest loop and cleaned again by the valid-id loop yields the id of the item cleaned once (also lines 458-464) |
| Opf.Underscored | mangabook/epub/enhanced_builder.py:270 | replacing the spaces keeps the length and leaves no space (also line 412) |
| Opf.UnderscoredIdempotent | mangabook/epub/enhanced_builder.py:270 | replacing the spaces twice is replacing them once (also line 412) |
| Opf.ExtractItems | mangabook/epub/enhanced_builder.py:252-296 | the extraction loop leaves every item's file name without spaces, in place |
| Opf.Manifest | mangabook/epub/enhanced_builder.py:407-438 | the manifest has at most one entry per item |
| Opf.ManifestTurnsManifest | mangabook/epub/enhanced_builder.py:407-438 | the loop's accumulators are the manifest, the set of its file names and whether an entry has the nav property |
| Opf.CreateManifest | mangabook/epub/enhanced_builder.py:407-438 | the manifest loop rewrites each item's file name and id in place, emits exactly Manifest, and finds the nav property exactly when an entry has it |
| Opf.ManifestEntriesFromFirst | mangabook/epub/enhanced_builder.py:425-438 | every entry comes from the first item with its file name and holds that item's rewritten id, file name, media type and properties |
| Opf.ManifestFileNames | mangabook/epub/enhanced_builder.py:425-438 | no two entries share an href, and the hrefs are exactly the items' space-free file names |
| Opf.ManifestIdsClean | mangabook/epub/enhanced_builder.py:415-422 | every manifest id holds only pattern characters and no colon |
| Opf.ManifestKeepsDuplicateIds | mangabook/epub/enhanced_builder.py:425-438 | two items with different files and the same id give two entries with the same id, since only file names are de-duplicated |
| Opf.FirstNamed | mangabook/epub/enhanced_builder.py:443-450 | the search finds the first item, in book order, with the file name, or none when no item has it |
| Opf.NavMarked | mangabook/epub/enhanced_builder.py:440-450 | marking keeps one entry per entry |
| Opf.MarkNav | mangabook/epub/enhanced_builder.py:440-450 | the fallback loop marks exactly as NavMarked says |
| Opf.ManifestHasFirst | mangabook/epub/enhanced_builder.py:425-438 | the first item with a file name not seen before has its entry in the manifest |
| Opf.NavDeclared | mangabook/epub/enhanced_builder.py:407-450 | whenever some item is nav.xhtml, the manifest declares a navigation document: an entry with the nav property or a marked one |
| Opf.NavEntryMarked | mangabook/epub/enhanced_builder.py:440-450 | the entry of the first nav.xhtml item is the one the fallback marks |
| Opf.CollectValidIds | mangabook/epub/enhanced_builder.py:456-464 | the valid-id loop cleans every item's id in place and collects exactly the clean ids |
| Opf.SpineRefs | mangabook/epub/enhanced_builder.py:467-490 | at most one itemref per spine item |
| Opf.SpineItemRefs | mangabook/epub/enhanced_builder.py:467-490 | the spine loop writes exactly SpineRefs |
| Opf.SpineRefsProperties | mangabook/epub/enhanced_builder.py:467-490 | every itemref names a valid id, and every spine item whose clean id is valid is referred to |
| Opf.SpineRefsAllValid | mangabook/epub/enhanced_builder.py:467-490 | when every spine item's clean id is valid, the spine is kept whole and in order |
| Opf.SpineRefsAppend | mangabook/epub/enhanced_builder.py:467-490 | the itemrefs of two spine parts are those of each part in turn |
| Opf.SpineRefsCongruent | mangabook/epub/enhanced_builder.py:480-488 | the itemrefs depend only on the clean ids of the spine items |
| Opf.ManifestCongruent | mangabook/epub/enhanced_builder.py:407-438 | the manifest depends on the items only as the manifest loop rewrites them |
| Opf.NavMarkedKeeps | mangabook/epub/enhanced_builder.py:445-448 | marking the navigation document changes no id, href, media type or properties of an entry |
| Opf.ValidIdsAfterManifest | mangabook/epub/enhanced_builder.py:412-422 | the valid ids are the same whether or not the extraction and manifest loops rewrote the items first (also lines 456-464) |
| Opf.NamesExtracted | mangabook/epub/enhanced_builder.py:270 | extraction does not change the file names the manifest sees (also line 412) |
| Opf.SpineRefsRepeatedFirst | mangabook/epub/enhanced_builder.py:467-490 | a spine opening with the same valid item twice refers to it twice first |
| Navigation.ChildPoints | mangabook/epub/enhanced_builder.py:537-549 | a parent's children become navPoints numbered on from the counter, one per child in order |
| Navigation.NcxPoints | mangabook/epub/enhanced_builder.py:516-567 | the navMap holds one top-level navPoint per toc entry |
| Navigation.PointOrder | mangabook/epub/enhanced_builder.py:528-549 | a navPoint comes before its children in document order |
| Navigation.NcxNumbering | mangabook/epub/enhanced_builder.py:516-567 | playOrder runs 1, 2, ..., n through the navPoints in document order, a parent before its children, and every id is "navpoint-" followed by its playOrder |
| Navigation.NcxNamed | mangabook/epub/enhanced_builder.py:528 | every navPoint's id is "navpoint-" followed by its playOrder (also lines 542 and 558) |
| Navigation.NcxPlayOrders | mangabook/epub/enhanced_builder.py:516-567 | the playOrders run 1, 2, ..., n in document order |
| Navigation.EntryPointOrder | mangabook/epub/enhanced_builder.py:519-567 | an entry numbered from p takes the playOrders p, p + 1, ... |
| Navigation.NcxPointsFollowToc | mangabook/epub/enhanced_builder.py:519-567 | each navPoint carries its entry's title and its href with the spaces replaced, numbered after the entries before it |
| Navigation.CreateNcx | mangabook/epub/enhanced_builder.py:508-588 | the NCX loop writes exactly NcxPoints and leaves every href of book.toc with its spaces replaced |
| Navigation.ChildNavPoints | mangabook/epub/enhanced_builder.py:537-549 | the inner loop numbers the children as ChildPoints and replaces their hrefs' spaces in place |
| Navigation.NavHrefProperties | mangabook/epub/enhanced_builder.py:614-647 | a nav href holds no space; a leading "OEBPS/" is dropped, any other href only has its spaces replaced |
| Navigation.NavHrefAfterNcx | mangabook/epub/enhanced_builder.py:526 | replacing the spaces first, as the NCX writer already did, changes no nav href (also line 615) |
| Navigation.FirstContentPage | mangabook/epub/enhanced_builder.py:659-663 | the fallback page is the first item, in book order, that is an XHTML document other than nav.xhtml, or none when there is none |
| Navigation.NavDocumentProperties | mangabook/epub/enhanced_builder.py:590-706 | the nav lists the toc titles when there is a toc, otherwise falls back to the cover page and then to the first content page, and has landmarks exactly when some item is cover.xhtml |
| Navigation.NavDocumentAfterNcx | mangabook/epub/enhanced_builder.py:526 | the toc the NCX writer leaves gives the same nav document as the toc it was given (also line 615) |
| Navigation.CreateNavDocument | mangabook/epub/enhanced_builder.py:590-706 | the nav loops produce exactly NavDocument and store each nav href back into book.toc |
| Navigation.FirstContentItem | mangabook/epub/enhanced_builder.py:659-663 | the search loop finds exactly FirstContentPage |
| Navigation.FirstContentPageAt | mangabook/epub/enhanced_builder.py:659-663 | the page found is the one at the first index that is a content page |
| Navigation.NavItems | mangabook/epub/enhanced_builder.py:608-650 | the toc loop writes exactly TocLis and stores the nav hrefs back into book.toc |
| Navigation.KoboNcx | mangabook/epub/enhanced_builder.py:739-767 | the rewrite keeps one navPoint per navPoint |
| Navigation.UpdateTocNcx | mangabook/epub/enhanced_builder.py:739-767 | the navPoint loop writes back exactly KoboNcx |
| Navigation.KoboNcxProperties | mangabook/epub/enhanced_builder.py:755-760 | afterwards every navPoint id contains "kobo", ids that had it are kept and playOrders are untouched; a navPoint without an id leaves the file unchanged |
| Navigation.NcxNodes | mangabook/epub/enhanced_builder.py:516-567 | the enhanced writer's NCX read back has one node per navPoint |
| Navigation.PointIdNoKobo | mangabook/epub/enhanced_builder.py:528 | no id "navpoint-n" contains "kobo" |
| Navigation.KoboNcxOfWriter | mangabook/epub/enhanced_builder.py:508-588 | on the enhanced writer's NCX the Kobo rewrite renames the i-th navPoint "kobo_nav_i" and keeps playOrder i (also lines 739-767) |
| Navigation.KoboNcxRenames | mangabook/epub/enhanced_builder.py:755-760 | when no id contains "kobo", every navPoint is renamed by its position |
| Enhanced.WithoutCoverItems | mangabook/epub/enhanced_builder.py:190-199 | the items left after the removal loop are the book's items, in order, without those whose id is "cover" or "cover-img" or whose file is cover.xhtml |
| Enhanced.WithoutCoverItemsMembers | mangabook/epub/enhanced_builder.py:190-199 | an item is kept exactly when it is not a cover item |
| Enhanced.WithCoverValid | mangabook/epub/enhanced_builder.py:155-250 | set_cover keeps the builder's invariant |
| Enhanced.WithCoverEffect | mangabook/epub/enhanced_builder.py:155-250 | a missing image changes nothing; an existing one is recorded and the book created; a readable one leaves every non-cover item, then one cover-img item with property cover-image and the cover page, and puts the cover page in front of the spine |
| Enhanced.WithCoverTwice | mangabook/epub/enhanced_builder.py:190-243 | after set_cover twice the book holds one cover page while the spine starts with two, since the first is removed from the items and not from the spine |
| Enhanced.FixAttributes | mangabook/epub/enhanced_builder.py:311-318 | each attribute is fixed on its own, in place |
| Enhanced.FixReferencesAsWritten | mangabook/epub/enhanced_builder.py:298-331 | the fix as written keeps the number of pieces and rewrites each one in the program's order: the attribute substitutions, then the namespace fix, decided on the whole substituted content, then the as-written self-closing rule |
| Enhanced.FixReferences | mangabook/epub/enhanced_builder.py:298-331 | the same three steps in the same order, with every img, br and hr tag closed |
| Enhanced.BareBreakStaysOpen | mangabook/epub/enhanced_builder.py:325 | as written, a bare `<br>` is left an unclosed start tag, while `<br class="x">` is closed |
| Enhanced.IdValueProperties | mangabook/epub/enhanced_builder.py:315-317 | an id value after the whitespace runs become "_" holds no whitespace, and a second fix leaves it alone |
| Enhanced.FixAttributeProperties | mangabook/epub/enhanced_builder.py:311-317 | the fix keeps the attribute name, leaves no space in href and src values and no whitespace in id values, and fixing twice is fixing once |
| Enhanced.FixReferencesProperties | mangabook/epub/enhanced_builder.py:298-331 | after the fix no href or src value holds a space, no id value holds whitespace, every img, br and hr start tag is self-closing, text, the doctype and tag names are untouched, a bare `<html>` gains the XHTML namespace exactly when the content has "<!DOCTYPE html>" and no "xmlns", and a second fix changes nothing |
| Enhanced.WalkEntries | mangabook/epub/enhanced_builder.py:126-148 | the walk adds one deflated entry per file other than the root mimetype |
| Enhanced.WriteZip | mangabook/epub/enhanced_builder.py:118-148 | the loop writes exactly the archive ZipOf describes: the stored mimetype, then the walk's entries |
| Enhanced.WalkEntriesProperties | mangabook/epub/enhanced_builder.py:126-148 | every walked entry is deflated, is not the mimetype and is a listed file; every listed file other than the mimetype is an entry; no name occurs twice |
| Enhanced.ZipProperties | mangabook/epub/enhanced_builder.py:118-148 | the archive opens with the mimetype, stored, holds it only once, holds every other file of the directory once, deflated, and nothing else |
| Enhanced.Rewritten | mangabook/epub/enhanced_builder.py:270 | the write keeps one item per item of the book (also lines 412-422) |
| Enhanced.TargetName | mangabook/epub/enhanced_builder.py:58-74 | the file name written holds no separator and is a suffix of the ".epub" name the title or argument gives |
| Enhanced.Written | mangabook/epub/enhanced_builder.py:33-153 | write raises ValueError exactly when there are no images and no book or the spine is empty after finalize; otherwise the book is finalized with a spine, and an existing "<dir>/<name>" is kept unless forced, else written |
| Enhanced.EmptySpineRaises | mangabook/epub/enhanced_builder.py:44-55 | a book with an empty spine, as every book is when no page could be made and no enhanced cover was set, is not written: write raises ValueError, "No spine items in EPUB" unless there is no book and no image |
| Enhanced.BaseNameSuffix | mangabook/epub/enhanced_builder.py:70-72 | os.path.basename keeps a suffix of the name that holds no separator |
| Enhanced.TargetNameSuffix | mangabook/epub/enhanced_builder.py:58-72 | a separator-free suffix of the ".epub" name, in any case, survives in the file name written |
| Enhanced.TargetNameEpub | mangabook/epub/enhanced_builder.py:58-72 | the file name written ends in ".epub" in any case |
| Enhanced.ManifestOfProperties | mangabook/epub/enhanced_builder.py:405-451 | the manifest's hrefs are distinct, each the space-free file name of an item, and its ids hold only letters, digits, "-", "_" and "." |
| Enhanced.ManifestOfComplete | mangabook/epub/enhanced_builder.py:405-438 | every item of the book has a manifest entry for its space-free file name |
| Enhanced.ManifestOfMarks | mangabook/epub/enhanced_builder.py:405-451 | the manifest is the one the item loop builds, with the nav property added to nav.xhtml when no item carried it |
| Enhanced.SpineOfProperties | mangabook/epub/enhanced_builder.py:453-492 | every itemref is the clean id of an item of the book, every spine item whose clean id is valid is referred to in order, and when every spine item is a book item none is skipped |
| Enhanced.PackageZip | mangabook/epub/enhanced_builder.py:98-148 | the archive of the laid-out package has the mimetype first and stored, then every item file once, deflated |
| Enhanced.RewrittenRec | mangabook/epub/enhanced_builder.py:270 | rewriting an item again leaves its file name and clean id as the first write left them (also lines 412-422 and 461-463) |
| Enhanced.WriteAgainSamePackage | mangabook/epub/enhanced_builder.py:98-148 | a second write of the items and spine as the first left them gives the same package, so renaming items in place is harmless (also lines 270 and 412-422) |
| Enhanced.CoverTwiceSpine | mangabook/epub/enhanced_builder.py:240-243 | after set_cover twice on readable images the written spine opens with the itemref "cover" twice (also lines 467-490) |
| Enhanced.SpineOfCoverTwice | mangabook/epub/enhanced_builder.py:467-490 | a spine opening with the cover page twice gives two "cover" itemrefs |
| Enhanced.CoverPageValid | mangabook/epub/enhanced_builder.py:457-464 | the cover page's id is valid and clean as "cover" |
| Enhanced.WriteOpf | mangabook/epub/enhanced_builder.py:252-296 | the item loops produce exactly the manifest, spine itemrefs and rewritten items ManifestOf, SpineOf and Rewritten describe (also lines 353-506) |
| Enhanced.WriteNavigation | mangabook/epub/enhanced_builder.py:508-706 | the toc loops produce exactly the NCX points and the nav document of the space-free toc |
| Enhanced.WritePackage | mangabook/epub/enhanced_builder.py:98-148 | the files laid out and the archive are exactly PackageOf of the items, spine, toc and walk order |
| Enhanced.EnhancedEpubBuilder.SetCover | mangabook/epub/enhanced_builder.py:155-250 | the builder's new state is WithCover of the old, and its invariant holds |
| Enhanced.EnhancedEpubBuilder.ReplaceCover | mangabook/epub/enhanced_builder.py:190-243 | the cover items are replaced by cover-img and the cover page, and the cover page is put in front of the spine |
| Enhanced.EnhancedEpubBuilder.Write | mangabook/epub/enhanced_builder.py:33-153 | the builder's new state and the outcome are exactly Written of the old state |
| Enhanced.RemoveCoverItems | mangabook/epub/enhanced_builder.py:190-199 | the collecting loop and the removal leave exactly WithoutCoverItems |
| Enhanced.EnhancedKepubBuilder.Write | mangabook/epub/enhanced_builder.py:710-737 | the Kobo write is the enhanced write under the ".kepub.epub" name followed by the Kobo modifications of the file written or kept |
| Enhanced.KepubTargetName | mangabook/epub/enhanced_builder.py:721-732 | the file the Kobo writer writes or keeps ends in ".kepub.epub" in any case |
| Enhanced.KeptNameTarget | mangabook/epub/enhanced_builder.py:58-72 | the parent's rule keeps a ".kepub.epub" name, reduced to its last component (also lines 725-730) |
| Enhanced.EnhancedEpubBuilder.constructor | mangabook/epub/enhanced_builder.py:30 | a new enhanced builder starts from the base builder's initial state, with the title, output directory and environment given |
| Enhanced.EnhancedKepubBuilder.constructor | mangabook/epub/enhanced_builder.py:707 | a new enhanced Kobo builder wraps a fresh enhanced builder in the base builder's initial state, with the title, output directory and environment given |
| Kobo.KepubFileNameProperties | mangabook/epub/kobo.py:149-157 | the Kobo name ends in ".kepub.epub" in any case: a name that already ends so is kept, a final ".epub" is replaced rather than doubled, any other name gains the extension |
| Kobo.KepubFileNameOfGiven | mangabook/epub/kobo.py:153-157 | a given name is kept, has its ".epub" replaced, or gains ".kepub.epub", as its lower-cased ending says |
| Kobo.KepubFileNameEnds | mangabook/epub/kobo.py:149-157 | the Kobo name ends in ".kepub.epub", so the parent's ".epub" rule leaves it alone |
| Kobo.SplitParts | mangabook/epub/kobo.py:276 | re.split with one capturing group gives an odd number of parts |
| Kobo.SplitPartsConcat | mangabook/epub/kobo.py:276 | joining the parts of the split gives the text back |
| Kobo.SplitPartsWellSplit | mangabook/epub/kobo.py:276 | the parts alternate between delimiter-free text and maximal runs of ".", "!" and "?" |
| Kobo.SplitOfConcat | mangabook/epub/kobo.py:276 | splitting the text of a well-formed split gives the split back |
| Kobo.SpanTurnsPairs | mangabook/epub/kobo.py:280-291 | after each text-and-delimiters pair the loop has emitted one span for the pair and holds the next text |
| Kobo.PairTurn | mangabook/epub/kobo.py:281-291 | a run of delimiters closes the sentence it ends, which is emitted, and empties the accumulator |
| Kobo.SentencesForm | mangabook/epub/kobo.py:276-298 | the sentences of a text are the non-blank text-and-delimiters pairs and the non-blank tail |
| Kobo.SentencesCover | mangabook/epub/kobo.py:276-298 | the spans' text is the paragraph text but for a blank, delimiter-free tail: a text not ending in whitespace is kept exactly, and no span means a blank text |
| Kobo.SentencesShape | mangabook/epub/kobo.py:276-298 | every span is non-blank, every span but the last ends with a delimiter and the last ends with one or holds none, and no span after the first starts with a delimiter |
| Kobo.SplitSpansIdempotent | mangabook/epub/kobo.py:276-298 | cutting the spans' text of a well-formed split again gives the same spans |
| Kobo.SentencesIdempotent | mangabook/epub/kobo.py:276-298 | cutting the spans' text of a paragraph again gives the same spans |
| Kobo.SplitParagraph | mangabook/epub/kobo.py:276-298 | the loop makes span k, from 1, hold the k-th sentence and carry the id pid-k |
| Kobo.SpanIdsDistinct | mangabook/epub/kobo.py:282-296 | span ids within a paragraph are all different |
| Kobo.ProcessXhtml | mangabook/epub/kobo.py:237-321 | the page is rewritten exactly as KoboPage says: namespace, then each paragraph, then each image div, in document order |
| Kobo.ProcessParagraphs | mangabook/epub/kobo.py:258-298 | the paragraph loop rewrites each paragraph as KoboParagraph says for its index |
| Kobo.RewriteParagraph | mangabook/epub/kobo.py:259-298 | one turn rewrites the paragraph exactly as KoboParagraph says |
| Kobo.ProcessImageDivs | mangabook/epub/kobo.py:300-312 | the image-div loop rewrites each div as KoboImageDivs says |
| Kobo.SentencesNotBlank | mangabook/epub/kobo.py:269-298 | a non-blank paragraph gets at least one span and its spans' text is not blank |
| Kobo.KoboParagraphProperties | mangabook/epub/kobo.py:259-298 | a paragraph ends with a non-empty id, its own or kobo_p_i; a blank one keeps its content; any other is rebuilt from spans pid-1, pid-2, ... holding its sentences in order |
| Kobo.KoboPageProperties | mangabook/epub/kobo.py:237-321 | every paragraph and image div is rewritten in place, the namespace is added only where missing, every img ends inside a koboSpan with an existing one kept, and a second pass changes nothing |
| Kobo.ProcessNav | mangabook/epub/kobo.py:344-362 | the list-item loop rewrites the nav exactly as KoboNav says |
| Kobo.KoboNavProperties | mangabook/epub/kobo.py:323-371 | afterwards every anchor sits in a koboSpan, an existing span kept and a new one carrying the anchor's text and its item number; the html element carries the Kobo namespace and the nav an id; a document the rewrite fails on is left as it was |
| Kobo.FirstWhere | mangabook/epub/kobo.py:404-408 | the search finds the first manifest item satisfying the test, or none when no item does (also lines 418-422) |
| Kobo.FindFirst | mangabook/epub/kobo.py:404-408 | the search loops find exactly FirstWhere (also lines 418-422) |
| Kobo.AddMetaTags | mangabook/epub/kobo.py:440-461 | the meta loop adds exactly what AddMetas says |
| Kobo.UpdateContentOpf | mangabook/epub/kobo.py:373-468 | the package document is rewritten exactly as KoboOpf says |
| Kobo.AddMetasProperties | mangabook/epub/kobo.py:440-461 | the existing metas stay first and in order, every Kobo meta name is present afterwards, a new meta is a Kobo meta whose name had none, and with every name present nothing is added |
| Kobo.KoboOpfProperties | mangabook/epub/kobo.py:373-468 | the manifest is unchanged; the spine gains page-progression-direction rtl only when the builder reads right to left and none was set; its toc names the first NCX item; the first nav item is appended once with linear yes when the spine does not reference it; a second pass changes nothing |
| Kobo.KoboWalk | mangabook/epub/kobo.py:221-230 | the walk adds at most one entry per file |
| Kobo.Rezip | mangabook/epub/kobo.py:214-230 | the ZIP loop writes exactly RezipEntries: the stored mimetype when present, then the walk's entries |
| Kobo.ProcessPages | mangabook/epub/kobo.py:194-196 | every page file of the walk is rewritten as a page and no other file changes |
| Kobo.ProcessDocument | mangabook/epub/kobo.py:198-211 | the navigation, package or NCX document is rewritten when it exists and no other file changes |
| Kobo.KoboFilesSteps | mangabook/epub/kobo.py:194-211 | the page loop followed by the three documents rewrites every file as KoboFiles says |
| Kobo.ContentSteps | mangabook/epub/kobo.py:194-211 | a file's rewrite is its page step followed, for the three documents, by its document step |
| Kobo.ApplyKoboModifications | mangabook/epub/kobo.py:175-235 | the modifications give exactly KoboApplied: the pages, then the navigation, package and NCX documents, then the new archive |
| Kobo.KoboWalkProperties | mangabook/epub/kobo.py:221-230 | every walked entry is deflated, a listed file and not named mimetype; every listed file not named mimetype is an entry; no name occurs twice |
| Kobo.RezipShape | mangabook/epub/kobo.py:214-230 | the new archive starts with the mimetype, stored, when there is one, stores nothing else, and holds only files of the directory, each once |
| Kobo.ArchiveShape | mangabook/epub/kobo.py:214-230 | an optional stored mimetype followed by distinct deflated entries is an archive of that shape |
| Kobo.RezipKeeps | mangabook/epub/kobo.py:214-230 | every file of the directory is in the new archive, except files named mimetype below the root |
| Kobo.WalkKeeps | mangabook/epub/kobo.py:221-230 | a walked file not named mimetype is in the new archive |
| Kobo.RezipDrops | mangabook/epub/kobo.py:224-226 | a file named mimetype below the root is dropped from the new archive |
| Kobo.KoboAppliedProperties | mangabook/epub/kobo.py:175-235 | with the NCX step available the archive is rewritten: each page as a page, the three documents as such, every other file carried over, and the entries as RezipEntries |
| Kobo.KepubBuilderKeepsArchive | mangabook/epub/kobo.py:209-212 | as written, a builder without _update_toc_ncx leaves every archive holding OEBPS/toc.ncx unchanged, while the enhanced Kobo builder rewrites it (also lines 503-507) |
| Kobo.ConvertedNameShape | mangabook/epub/kobo.py:493-497 | the converted name has no directory part and ends in ".kepub.epub" |
| Kobo.ConvertedNamePlain | mangabook/epub/kobo.py:493-497 | "b.epub" becomes "b.kepub.epub" |
| Kobo.ConvertedNameDoubled | mangabook/epub/kobo.py:493-497 | "b.epub.epub" also becomes "b.kepub.epub": the stem's ".epub" is dropped |
| Kobo.ConvertProperties | mangabook/epub/kobo.py:471-517 | a missing EPUB raises FileNotFoundError; otherwise the copy goes to the output directory, or next to the EPUB, under the converted name, and a copy of an archive with an NCX comes out as it went in |
| Kobo.SpineRefers | mangabook/epub/kobo.py:426-429 | the spine search finds the nav id exactly when some itemref refers to it |
| Downloader.AfterLastDot | mangabook/downloader.py:243 | the text after the URL's last dot is no longer than the URL |
| Downloader.Extension | mangabook/downloader.py:240-245 | the page extension is always a known image extension: the URL's lower-cased last dot-suffix when the last path segment has a dot and the suffix is jpg, jpeg, png, gif or webp, and "jpg" otherwise |
| Downloader.Attempts | mangabook/downloader.py:281-327 | from any attempt on, the loop ends within three attempts, and it counts a retry for every attempt except the one that stored the page |
| Downloader.FetchPage | mangabook/downloader.py:281-327 | the attempt loop for one page ends as Attempts describes from attempt 0: at most three fetches, a failed fetch or invalid image counting a retry and removing the file, a valid image ending the loop and moved into place unless keep_raw |
| Downloader.PageOutcomeOf | mangabook/downloader.py:258-277 | a page is skipped exactly when its file exists and is valid, local files are checked and downloads are not forced |
| Downloader.PageOutcomes | mangabook/downloader.py:237-277 | one outcome per page |
| Downloader.OutcomeAt | mangabook/downloader.py:237-238 | entry i is the outcome of page i + 1 |
| Downloader.CountSkipped | mangabook/downloader.py:273 | at most one skip per page |
| Downloader.CountStored | mangabook/downloader.py:292-299 | at most one stored image per page (also lines 330-331) |
| Downloader.CountDownloaded | mangabook/downloader.py:294-296 | at most one download counted per page |
| Downloader.CountMoveFailures | mangabook/downloader.py:297-299 | at most one failed move per page |
| Downloader.QueuedPagesFetched | mangabook/downloader.py:266-277 | every queued page is a page of the chapter that was not skipped |
| Downloader.QueuedPageAt | mangabook/downloader.py:277-280 | the q-th queued page is a page of the chapter that was not skipped |
| Downloader.QueuedTally | mangabook/downloader.py:280-333 | going over the queued pages counts the same stored pages, downloads and retries as going over every page, since a skipped page adds to none of them |
| Downloader.TallyPrefix | mangabook/downloader.py:280-333 | the counters over pages that lie within the first n depend only on the first n outcomes |
| Downloader.AddNoStats | mangabook/downloader.py:495-497 | adding zero stats changes nothing |
| Downloader.AddStats | mangabook/downloader.py:495-497 | adding two stats adds downloaded, skipped, failed and retries separately |
| Downloader.SkipCalls | mangabook/downloader.py:266-270 | one manifest page update per skipped page |
| Downloader.StoreCallsCount | mangabook/downloader.py:328-330 | one manifest page update per stored page among the listed pages |
| Downloader.ChapterOutcomes | mangabook/downloader.py:219-277 | one outcome per page URL the API gave |
| Downloader.DownloadChapterImages | mangabook/downloader.py:176-345 | the check loop and the download loop give exactly the successful count, total, stats and manifest calls ChapterDownloadOf describes |
| Downloader.CheckPages | mangabook/downloader.py:236-277 | the check loop counts exactly the skipped pages, records them when a manifest is kept, and queues the other pages in page order |
| Downloader.CheckStep | mangabook/downloader.py:237-277 | one step of the check loop adds exactly what page i + 1 does to the counters, the page updates and the queue |
| Downloader.FetchQueued | mangabook/downloader.py:280-333 | the download loop over the queued pages counts exactly the stored pages, the downloads and the retries of the whole chapter, with one page update per stored page when a manifest is kept |
| Downloader.StoreCallsSnoc | mangabook/downloader.py:328-330 | the page updates for one more listed page are those before plus that page's update |
| Downloader.FetchedAll | mangabook/downloader.py:280-333 | after all queued pages, the counters are those of the whole chapter |
| Downloader.FetchStep | mangabook/downloader.py:280-333 | one step of the download loop adds exactly the next queued page's contribution |
| Downloader.FetchQueuedPage | mangabook/downloader.py:280-327 | the attempt loop on the q-th queued page ends as that page's outcome says |
| Downloader.OutcomeCounts | mangabook/downloader.py:237-333 | skipped plus stored pages are at most all pages, and stored pages plus failed moves are the downloads |
| Downloader.ChapterCounts | mangabook/downloader.py:176-345 | the chapter's counters add up: total is the number of URLs, successful is skipped plus stored and at most total, with keep_raw every download is stored, "failed" stays 0, retries are at most three per page, and with a manifest the last call records the chapter totals and "complete" exactly when every page succeeded |
| VolumeDownload.VolumeKey | mangabook/downloader.py:390-392 | the key looked up differs from the requested volume exactly when "0" is asked for, the listing has no "0" and has "none", and then it is "none" |
| VolumeDownload.Selected | mangabook/downloader.py:436-443 | the filter never yields more chapters than the listing has |
| VolumeDownload.SelectChapters | mangabook/downloader.py:436-443 | the filter loop computes exactly Selected: the wanted chapters in listing order |
| VolumeDownload.SelectedMembers | mangabook/downloader.py:436-443 | a chapter entry is kept exactly when some listed chapter is wanted and gives that entry, and every chapter is kept when no ids are asked for |
| VolumeDownload.VolumeEntries | mangabook/downloader.py:446 | the sorted chapters are ordered by the float-or-inf key and are a permutation of the selected ones |
| VolumeDownload.VolumeEntriesMembers | mangabook/downloader.py:436-446 | the sorted chapters are exactly the wanted ones of the listing, never more than it has, and all of it when no ids are asked for |
| VolumeDownload.AddChapterCalls | mangabook/downloader.py:451-470 | the job loop makes one manifest update per chapter |
| VolumeDownload.Jobs | mangabook/downloader.py:451-479 | there is one download job per chapter |
| VolumeDownload.ChapterJobs | mangabook/downloader.py:451-479 | the job loop computes exactly the jobs and the manifest updates, one of each per chapter, with sanitised titles |
| VolumeDownload.StartManifest | mangabook/downloader.py:421-432 | the manifest is loaded when local files are checked without forcing, and created when none was loaded or downloads are forced |
| VolumeDownload.ChapterAttempts | mangabook/downloader.py:482-516 | there is one outcome per chapter |
| VolumeDownload.RunChapter | mangabook/downloader.py:482-510 | one chapter's download ends as its run says, and adds its stats and manifest calls only when it runs to its end |
| VolumeDownload.RunChapters | mangabook/downloader.py:482-516 | running the chapters one after the other gives each chapter's outcome, the volume's summed stats and the chapters' manifest calls |
| VolumeDownload.RunStep | mangabook/downloader.py:493-496 | one more chapter adds its share to the volume's stats |
| VolumeDownload.Succeeded | mangabook/downloader.py:503 | the chapters counted as downloaded are never more than the chapters (also line 519) |
| VolumeDownload.SuccessesAreSucceeded | mangabook/downloader.py:503 | the download manager counts a chapter as completed exactly when its download ran to its end and stored or skipped some page; a timed-out or raising chapter never counts (also lines 512-519) |
| VolumeDownload.SettledPrefix | mangabook/downloader.py:512-516 | settling the results of a longer run of chapters settles its prefix the same way |
| VolumeDownload.SettledSuccess | mangabook/downloader.py:503 | a settled chapter succeeds exactly when it ran to its end with some page stored or skipped |
| VolumeDownload.VolumeStatsNoFailures | mangabook/downloader.py:330-333 | the volume's "failed" stat stays 0, since the chapter download never reaches its failure count (also lines 493-496) |
| VolumeDownload.DownloadVolume | mangabook/downloader.py:347-538 | download_volume gives exactly VolumeOf of the listing used; when it gives up the download manager is untouched, otherwise the manager records one settled result per chapter job |
| VolumeDownload.VolumeOutcome | mangabook/downloader.py:347-538 | it gives up exactly when the volume key is missing or has no chapters; otherwise the total is the wanted chapters, the downloaded count is those that succeeded and never more, no failure is counted, the manifest is first loaded or created, and the last manifest call marks the volume complete exactly when every chapter was downloaded |
| VolumeDownload.VolumePairs | mangabook/downloader.py:608-618 | one (volume, result) pair per requested volume |
| VolumeDownload.DownloadMangaVolumes | mangabook/downloader.py:622-635 | the result loop computes exactly the tally of the volume results in request order |
| VolumeDownload.TalliedCounts | mangabook/downloader.py:626-629 | every volume result is counted once, as a success or a failure |
| VolumeDownload.VolumesDictKeys | mangabook/downloader.py:624 | results["volumes"] has exactly one key per volume number |
| VolumeDownload.VolumesDictLookup | mangabook/downloader.py:624 | under each volume number results["volumes"] holds the result that came last for it |
| VolumeDownload.NumbersSnoc | mangabook/downloader.py:624 | the volume numbers of a longer run of pairs are those of its prefix and the last pair's |
| VolumeDownload.SumStatsSplit | mangabook/downloader.py:632-635 | the summed stats of two runs of volumes are the sums of each added field by field |
| Parallel.ChapterIds | mangabook/parallel.py:162-163 | one chapter id per job |
| Parallel.Settle | mangabook/parallel.py:195-227 | a returned result is kept; a timeout gives an unsuccessful result with error "timeout"; an exception gives one with error "exception" and its message |
| Parallel.Settled | mangabook/parallel.py:143-155 | each job's result is its own attempt settled |
| Parallel.Successes | mangabook/parallel.py:166-167 | the successes are at most the results |
| Parallel.DownloadManager.constructor | mangabook/parallel.py:105-117 | a new manager has the given limits, no results and three empty id sets |
| Parallel.DownloadManager.DownloadChapter | mangabook/parallel.py:181-230 | the result is the settled attempt, recorded under the chapter id, and the id is no longer in progress however the download ended |
| Parallel.DownloadManager.DownloadChapters | mangabook/parallel.py:119-179 | no jobs give an empty successful summary; otherwise the summary counts the completed and failed chapters, which add up to the jobs, succeeds exactly when none failed, and keys each result by its chapter id |
| Parallel.DownloadManager.RunAll | mangabook/parallel.py:142-155 | every job's settled result is recorded under its id and no id stays in progress |
| Parallel.DownloadManager.Tally | mangabook/parallel.py:158-179 | the tally counts the successes as completed and the rest as failed, adding up to the jobs, succeeds exactly when none failed, and adds each id to the completed or the failed set |
| Parallel.DownloadManager.Mark | mangabook/parallel.py:166-171 | the chapter id joins the completed set on success and the failed set otherwise, and nothing else changes |
| Parallel.DownloadManager.GetStats | mangabook/parallel.py:232-243 | the stats are the sizes of the three id sets and their sum |
| Parallel.TallyStep | mangabook/parallel.py:162-171 | one more result adds its chapter, one success or none, and its id to one of the two sets |
| Parallel.IdsWithFromIds | mangabook/parallel.py:162-171 | every id in the completed or failed set is a job's id |
| Parallel.LastIdIsNew | mangabook/parallel.py:162-171 | with distinct ids the last job's id is in no set of the earlier jobs |
| Parallel.DistinctIdsCounted | mangabook/parallel.py:119-179 | with distinct chapter ids on a fresh manager, the completed ids are as many as the successes and the failed ids as the failures, no id is in both, and together they count every chapter once (also lines 232-243) |
| Parallel.LowestPriorityServedFirst | mangabook/parallel.py:269-273 | as written, the queue hands out an entry whose priority is no greater than any other's, and between tasks of equal priority __lt__ never decides (also lines 310-317) |
| Parallel.HighPriorityWaits | mangabook/parallel.py:256 | as written, a priority-10 task added before a priority-0 task is not handed out first; the priority-0 task is (also lines 310-317) |
| Parallel.CorrectedServesHighestFirst | mangabook/parallel.py:256 | with the priority negated in the entry and ties broken by insertion order, the queue hands out a task of the highest priority, the earliest added among those (also lines 269-273) |
| Parallel.CountStatus | mangabook/parallel.py:429-430 | a status count is at most the number of tasks |
| Parallel.StatusCountsSum | mangabook/parallel.py:267 | every task has exactly one of the four statuses, so their counts add up to the number of tasks (also lines 421-432) |
| Parallel.ProcessingQueue.constructor | mangabook/parallel.py:297-308 | a new queue has the given worker limit, no tasks and an empty priority queue |
| Parallel.ProcessingQueue.AddTask | mangabook/parallel.py:310-317 | the task is stored under its id, replacing a task with the same id, and (priority, task) joins the priority queue |
| Parallel.ProcessingQueue.GetStats | mangabook/parallel.py:415-432 | total is the number of tasks and the loop counts each status, the counts adding up to the total |
| Parallel.Lookup | mangabook/parallel.py:488-528 | a fresh memory entry answers; an expired one is dropped; a fresh file entry then answers and is kept in memory; no other key changes; an answer is always a fresh memory entry |
| Parallel.Unexpired | mangabook/parallel.py:583-591 | clear_expired keeps exactly the memory entries not yet expired, unchanged |
| Parallel.ApiCache.constructor | mangabook/parallel.py:443-472 | a new cache has the given max_age and an empty memory cache |
| Parallel.ApiCache.Get | mangabook/parallel.py:488-528 | the answer and the memory cache afterwards are exactly Lookup |
| Parallel.ApiCache.Set | mangabook/parallel.py:530-544 | the key's memory entry becomes the value, stored now |
| Parallel.ApiCache.Clear | mangabook/parallel.py:555-572 | no key empties the memory cache; a key removes only that key |
| Parallel.ApiCache.ClearExpired | mangabook/parallel.py:574-608 | the memory cache keeps exactly its unexpired entries, and the count is the entries dropped plus the cache files removed |
| Parallel.SetThenGet | mangabook/parallel.py:500-501 | after set, a get before max_age has passed answers the stored value from memory, whatever the cache file holds (also lines 538-544) |
| Parallel.BoundaryEntry | mangabook/parallel.py:500 | an entry exactly max_age old is neither served by get nor dropped by clear_expired (also line 586) |
| Listing.OrElse | mangabook/cli.py:346-347 | `x or default` gives the value when it is a non-empty text, and the default for None or "" |
| Listing.RowOf | mangabook/cli.py:368-374 | a chapter's row keeps its id and records the volume it was grouped under |
| Listing.Touch | mangabook/cli.py:350-359 | afterwards the chapter's volume is a key of the dict |
| Listing.SortEntries | mangabook/cli.py:382-385 | sorting the chapters of each volume keeps one entry per volume |
| Listing.GetVolumes | mangabook/cli.py:334-385 | the grouping, pruning and sorting loops build exactly VolumesOf the chapter list |
| Listing.DropEmptyUngrouped | mangabook/cli.py:377-379 | "0" is removed exactly when no chapter landed in it |
| Listing.AddChapterTo | mangabook/cli.py:344-375 | one turn creates the volume's entry when missing, appends the chapter's row and adds one to the count |
| Listing.SortVolumes | mangabook/cli.py:382-385 | the loop sorts every volume's chapters in place, as SortEntries says |
| Listing.RowsInEmpty | mangabook/cli.py:344-375 | a volume holds no rows exactly when no chapter names it |
| Listing.GroupingKeys | mangabook/cli.py:334-375 | after the grouping loop the keys are "0" and the volumes the chapters name, each once |
| Listing.TouchGet | mangabook/cli.py:350-359 | a missing volume gets an empty entry named "Volume v", an existing "0" is renamed "Ungrouped Chapters", and every other key is left alone |
| Listing.GroupingGet | mangabook/cli.py:334-375 | after the grouping loop "0" and every named volume hold the rows of their chapters in list order, their count and their display name, and no other volume is there |
| Listing.AddOther | mangabook/cli.py:344-375 | adding a chapter leaves the other volumes alone |
| Listing.AddSame | mangabook/cli.py:344-375 | adding a chapter appends its row to its volume and adds one to its count |
| Listing.EntryForSnoc | mangabook/cli.py:344-375 | one more chapter extends only its own volume's entry, by its row and one count |
| Listing.VolumesGet | mangabook/cli.py:334-385 | exactly the named volumes are there, "0" only when some chapter has no volume; each holds its chapters sorted by chapter number, as a reordering of their rows, with their count |
| Listing.RowsInHas | mangabook/cli.py:346 | every chapter's row is among the rows of the volume its attributes name, "0" when none (also line 368) |
| Listing.ChapterLands | mangabook/cli.py:334-385 | every chapter lands in the result, in the volume its attributes name |
| Listing.VolumeEntryShape | mangabook/cli.py:368-385 | a volume's count is the number of its chapters, which are sorted by key and are a permutation of its rows |
| Listing.VolumesKeys | mangabook/cli.py:334-379 | the result's keys are exactly the named volumes |
| Listing.VolumesDistinct | mangabook/cli.py:334-379 | each volume is a key once |
| Cli.RangeBounds | mangabook/cli.py:35 | a part matches the range pattern only as two decimal literals (digits, optionally a dot and digits) joined by "-" (also lines 470-474) |
| Cli.Pieces | mangabook/cli.py:467-468 | one stripped piece per comma-separated part |
| Cli.ParseVolumeSelection | mangabook/cli.py:449-508 | the loops build exactly the selection Selection describes: everything for "all", otherwise the union of what each stripped part selects |
| Cli.SelectPart | mangabook/cli.py:469-506 | one part selects its range, its exact name, or the first numerically equal volume |
| Cli.SelectRange | mangabook/cli.py:481-488 | a range selects the available volumes float() reads as numbers from start to end, skipping the ones it rejects |
| Cli.FindVolume | mangabook/cli.py:498-499 | next() stops at the first volume equal to the number, or raises at the first volume float() rejects, or finds nothing |
| Cli.AllAnyCase | mangabook/cli.py:461-463 | "all" in any letter case selects exactly the available volumes |
| Cli.NumericMatchFound | mangabook/cli.py:498 | next() finds the first equal volume when every volume before it is another number |
| Cli.NumericMatchRaises | mangabook/cli.py:498 | next() raises ValueError at the first volume float() rejects when no volume before it matched (also lines 505-506) |
| Cli.NumericMatchNotFound | mangabook/cli.py:498-503 | next() runs out exactly when every volume is another number |
| Cli.FoundIsAvailable | mangabook/cli.py:498-501 | what next() finds is an available volume that float() reads as the number typed |
| Cli.EmptyIsNoNumber | mangabook/cli.py:497 | float("") raises ValueError |
| Cli.FoundIsTruthy | mangabook/cli.py:499-500 | since float("") raises, a volume next() finds is never "", so `if matching_vol` always passes |
| Cli.LiteralValue | mangabook/cli.py:476-479 | a range bound needs no stripping or sign: float() reads it as its decimal value, and it holds no "-" |
| Cli.RangeBoundsMatch | mangabook/cli.py:35 | a part matches the range pattern exactly when it is two decimal literals joined by "-" (also lines 470-474) |
| Cli.InRangeEmpty | mangabook/cli.py:485 | a range whose start is above its end selects nothing |
| Cli.RangePart | mangabook/cli.py:470-490 | a range part selects exactly the available volumes float() reads as a number from its start to its end; volumes float() rejects are skipped and a start above the end selects nothing |
| Cli.ExactMatchWins | mangabook/cli.py:493-494 | a part that is not a range and names an available volume selects that volume |
| Cli.FirstNumericMatch | mangabook/cli.py:495-501 | otherwise a number selects the first available volume float() reads as the same number, when every volume before it is a number |
| Cli.RejectedBeforeMatch | mangabook/cli.py:495-506 | a volume float() rejects before the first numeric match makes the part invalid: it selects nothing and does not raise |
| Cli.PartWithin | mangabook/cli.py:466-506 | a part selects only available volumes, and at most one unless it is a range |
| Cli.PiecesAt | mangabook/cli.py:467-468 | each piece is the stripped comma-separated part |
| Cli.UnionWithin | mangabook/cli.py:466-506 | the parts together select only available volumes |
| Cli.SelectionWithin | mangabook/cli.py:459-508 | whatever is typed, the selection is a subset of the available volumes |
| Cli.UnionMembers | mangabook/cli.py:466-506 | a volume is in the union exactly when one of the parts selects it |
| Cli.SelectionIsUnion | mangabook/cli.py:466-506 | any input other than "all" is split on commas, each part stripped and read on its own, and a volume is selected exactly when one part selects it |
| Cli.SelectionCandidates | mangabook/cli.py:521-546 | the loop, the sort and the final "0" build exactly the candidate list CandidatesOf describes |
| Cli.ListedMembers | mangabook/cli.py:521-525 | the names collected are the keys other than "0", "null", "None" and "Unknown" |
| Cli.CandidatesMembers | mangabook/cli.py:521-546 | the candidates are the volume names other than "null", "None" and "Unknown" |
| Cli.CandidatesShape | mangabook/cli.py:528-546 | the candidates are sorted by float() with rejected names last, and "0", when present, comes last and only once |
| Cli.VolumeSelectionPrompt | mangabook/cli.py:548-567 | no candidates give the empty set without asking; otherwise the answer is the selection of the first answer (empty reading as "all") that selects something |
| Cli.FirstSelectionWithin | mangabook/cli.py:560-565 | what the prompt returns is non-empty, made of candidates, and the selection of one of the answers |
| Cli.PromptSelectsOffered | mangabook/cli.py:521-565 | the prompt selects only volumes get_volumes found, never "null", "None" or "Unknown" |
| Workflow.BuilderFor | mangabook/workflow.py:238-258 | the Kobo builders and the ".kepub.epub" extension are chosen exactly when kobo is set, the enhanced builders exactly when use_enhanced_builder is |
| Workflow.ChapterNumbers | mangabook/workflow.py:280-285 | the chapter numbers found are never more than the chapter names |
| Workflow.FileNameExtension | mangabook/workflow.py:262-310 | every EPUB file name ends with the chosen extension |
| Workflow.KoboNamesMatchGlob | mangabook/workflow.py:262-310 | with kobo set every file name ends in ".kepub.epub", whichever builder and naming mode |
| Workflow.UngroupedCollectionName | mangabook/workflow.py:277-296 | in a collection the ungrouped volume is named "Chapters first-last" from the chapter numbers found, "Chapters n" for one, and "Ungrouped Chapters" for none |
| Workflow.ChapterNumberWord | mangabook/workflow.py:283 | a chapter number is a non-empty word without whitespace |
| Workflow.NoChapterNumbers | mangabook/workflow.py:280-285 | no chapter number is found exactly when no chapter name has a second word |
| Workflow.UngroupedWithoutNumbers | mangabook/workflow.py:277-296 | the ungrouped volume is called "Ungrouped Chapters" exactly when no chapter name has a second word |
| Workflow.NumberedNotUngrouped | mangabook/workflow.py:287-294 | once some chapter number is found the name is never "Ungrouped Chapters" |
| Workflow.LeadingZero | mangabook/workflow.py:300 | a leading zero keeps a digit string's value |
| Workflow.NatToStringLength | mangabook/workflow.py:300 | numbers below 10, 100 and 1000 print in at most one, two and three digits |
| Workflow.Format03Value | mangabook/workflow.py:300 | f"{n:03d}" of n >= 0 is a digit string of n's value, exactly three characters long below 1000 |
| Workflow.NumericCollectionName | mangabook/workflow.py:297-300 | a collection volume float() reads as x >= 0 is labelled with the digits of int(x), zero-padded to at least three |
| Workflow.RawCollectionName | mangabook/workflow.py:301-303 | a volume float() rejects keeps its own name in the collection file name |
| Workflow.SameIntegerSameName | mangabook/workflow.py:298-300 | two volumes whose numbers truncate to the same integer get the same collection file name |
| Workflow.StandardName | mangabook/workflow.py:304-310 | outside a collection the name is the sanitised volume title, clean of invalid characters, then "_ungrouped_chapters" exactly for volume "0", then the extension |
| Workflow.CoverImage | mangabook/workflow.py:214-235 | there is no cover exactly when no official cover was downloaded and there are no images; the downloaded official cover wins, otherwise the first image |
| Workflow.AddChapters | mangabook/workflow.py:338-347 | the chapter loop makes exactly the add_chapter calls Added describes |
| Workflow.AllImagesSnoc | mangabook/workflow.py:197 | the images of one more chapter follow the images of the ones before |
| Workflow.AddedMembers | mangabook/workflow.py:338-347 | a chapter is added exactly when it has an image besides a leading cover, and with exactly those images |
| Workflow.AddedImageCount | mangabook/workflow.py:338-347 | no image is lost except one per chapter whose first image is the cover |
| Workflow.FirstImageDropped | mangabook/workflow.py:328-347 | when the first image is the cover, its chapter loses it, so the cover is not repeated as a page |
| Workflow.FallbackCoverDropped | mangabook/workflow.py:229-235 | without an official cover the first image is the cover and the added chapters hold fewer images than there are (also lines 338-347) |
| Workflow.ValidateEpubOutcomes | mangabook/workflow.py:579-629 | valid exactly when the file exists, epubcheck is found and exits 0; not validated exactly when the file exists and epubcheck is missing; invalid otherwise, with the reason |
| Workflow.ValidationCountsPartition | mangabook/workflow.py:555-557 | valid, invalid and not validated together count every validation result once |
| Workflow.ChapterWarnings | mangabook/workflow.py:187-189 | one "Failed to process images in" warning per chapter directory whose images gave nothing |
| Workflow.AddChapterWarnings | mangabook/workflow.py:178-189 | the chapter-directory loop appends exactly those warnings, in order, after the ones already there |
| Workflow.ProcessVolume | mangabook/workflow.py:147-412 | the loop body for one volume updates the results exactly as Step says |
| Workflow.ProcessVolumes | mangabook/workflow.py:131-412 | the volume loop ends with exactly the results Processed describes |
| Workflow.StepCounts | mangabook/workflow.py:149 | one pass increments exactly the counter of the volume's kind, by one (also lines 158, 361, 399, 408 and 412) |
| Workflow.ProcessedCounts | mangabook/workflow.py:147-412 | the successful, failed and skipped counters each count the volumes of their kind, so each volume is counted once |
| Workflow.StepWarnings | mangabook/workflow.py:187-189 | one pass adds a warning per chapter whose images failed and one more when the volume is skipped (also line 398) |
| Workflow.ProcessedLists | mangabook/workflow.py:187-189 | the EPUB files are the written paths, one per successful volume, and the warnings are one per skipped volume plus one per failed chapter (also lines 366 and 398) |
| Workflow.WrittenKeepsChapterWarnings | mangabook/workflow.py:187-189 | a written volume still reports its failed chapters, right after the earlier warnings (also line 366) |
| Workflow.ProcessedVolumeKeys | mangabook/workflow.py:150 | every volume of the loop has an entry in results["volumes"], and nothing else does (also line 154) |
| Workflow.VolumeNumbersSnoc | mangabook/workflow.py:150 | the volume numbers of one more run are those before plus its own (also line 154) |
| Workflow.StepVolumeKeys | mangabook/workflow.py:150 | one pass adds the volume's number to the keys of results["volumes"] (also line 154) |
| Workflow.ProcessedValidationKeys | mangabook/workflow.py:369-372 | with validation on the validation results are keyed by exactly the EPUB files written; with it off there are none |
| Workflow.ElementsSnoc | mangabook/workflow.py:366 | appending a path adds it to the set of files written |
| Workflow.SumDownloadStats | mangabook/workflow.py:442-446 | the summing loop computes exactly DownloadStats |
| Workflow.MergeAssociative | mangabook/workflow.py:446 | adding up stats is associative, so the order of grouping does not matter |
| Workflow.DownloadStatsEmpty | mangabook/workflow.py:442-448 | the statistics are empty exactly when no volume entry carries stats |
| Workflow.DownloadStatsAppend | mangabook/workflow.py:442-446 | the statistics of two runs of entries add up field by field |
| Batch.JobId | mangabook/batch.py:105 | a job id starts with the manga id and "_" and continues with the clock's whole seconds in digits |
| Batch.JobIdInjective | mangabook/batch.py:105 | two jobs of one manga get the same id only when added in the same second |
| Batch.OutputDirOf | mangabook/batch.py:109 | a job keeps the output directory it was given unless that is missing or empty, and then takes the configured one |
| Batch.FirstWithId | mangabook/batch.py:186-188 | the index found holds the id and no earlier job does; nothing is found exactly when no job has the id |
| Batch.FirstWithIdAt | mangabook/batch.py:186-188 | the first index holding the id is the one the search stops at |
| Batch.SearchJobsProperties | mangabook/batch.py:143-156 | get_job finds a job exactly when the current job, the queue or the history holds its id, and the current job wins over the queue, the queue over the history |
| Batch.Finished | mangabook/batch.py:257-259 | a finished job is completed exactly when processing returned more than zero successful volumes, and failed otherwise, including when processing raised; id, priority and volumes are kept (also lines 298-302) |
| Batch.WithFinished | mangabook/batch.py:290-292 | the finished job goes to the front of the history, which keeps the earlier jobs in order and never holds more than 100 (also lines 307-309) |
| Batch.DownloadQueue.constructor | mangabook/batch.py:29-46 | the stored queue and history are loaded; a missing or unreadable file gives empty ones updated now; no job is current (also lines 48-71) |
| Batch.DownloadQueue.AddJob | mangabook/batch.py:84-131 | the new job is pending, carries the id, directory and options given, and the queue becomes the old queue plus the job, stably sorted by priority, highest first |
| Batch.DownloadQueue.GetJob | mangabook/batch.py:133-156 | the loops answer what the search order current job, queue, history gives |
| Batch.DownloadQueue.GetQueue | mangabook/batch.py:158-164 | a copy of the queue in queue order |
| Batch.DownloadQueue.GetHistory | mangabook/batch.py:166-175 | history[:limit], Python slice semantics included, so its length is min(limit, len) for a limit of at least 0 |
| Batch.DownloadQueue.RemoveJob | mangabook/batch.py:177-195 | answers true exactly when a queued job has the id, and then removes only the first such job and updates the time; otherwise nothing changes |
| Batch.DownloadQueue.ClearQueue | mangabook/batch.py:197-207 | answers the old queue length and leaves the queue empty, the history and current job untouched |
| Batch.DownloadQueue.ClearHistory | mangabook/batch.py:209-219 | answers the old history length and leaves the history empty, the queue and current job untouched |
| Batch.DownloadQueue.ProcessNextJob | mangabook/batch.py:221-316 | nothing on an empty queue; otherwise the head leaves the queue, is finished by the outcome, goes to the front of the history (capped at 100), is recorded in the manga history with exactly one more download when processing returned, and no job is current afterwards |
| Batch.AddJobPlacement | mangabook/batch.py:122-126 | the new job lands behind every job of at least its priority and ahead of every job of lower priority, the other jobs keeping their order, so equal priorities are served first-come first-served |
| Batch.PriorityBefore | mangabook/batch.py:126 | every job ahead of the new one has at least its priority |
| Batch.PriorityAfter | mangabook/batch.py:126 | every job behind the new one has a lower priority |
| Batch.HeadHasTopPriority | mangabook/batch.py:126 | the job process_next_job takes has the highest priority in the queue (also line 230) |
| History.LoadHistory | mangabook/history.py:45-75 | a missing or unreadable file gives an empty history updated now; a file read keeps its manga and its last update and gains an empty manga dict or the current time for what it lacks |
| History.UnionList | mangabook/history.py:127-133 | the new volume list has no duplicates and holds exactly the old volumes and the new ones |
| History.LastRead | mangabook/history.py:211-216 | the latest read is none exactly when the manga was never read, and otherwise one of the reads' timestamps and no earlier than any of them |
| History.Summaries | mangabook/history.py:199-218 | one summary per manga, in dict order |
| History.MangaListProperties | mangabook/history.py:191-223 | the list holds one summary per manga, is a permutation of the summaries, is sorted latest update first, and every summary counts its manga's downloads and carries its latest read |
| History.UpdatedAfter | mangabook/history.py:236-239 | a summary is kept exactly when it was updated after the cutoff |
| History.ReadAfter | mangabook/history.py:252-255 | a summary is kept exactly when it was read and its last read is after the cutoff |
| History.GetValid | mangabook/history.py:155-168 | an entry of valid history data has distinct volume reads |
| History.PutValid | mangabook/history.py:140 | storing an entry with distinct volume reads keeps the history data valid |
| History.ReadProperties | mangabook/history.py:162-168 | a read keeps the volume keys distinct, adds exactly one to that volume's read count, sets its last read to now and leaves every other volume's record alone |
| History.MangaHistory.constructor | mangabook/history.py:24-43 | a new history holds what _load_history gives and is valid |
| History.MangaHistory.RecordMangaDownload | mangabook/history.py:89-143 | the manga's entry, created and first seen now when missing, gains exactly one download and the union of its volumes with the new ones, is updated now, and no other entry changes |
| History.MangaHistory.RecordMangaRead | mangabook/history.py:145-175 | nothing changes for an unknown manga; otherwise only that manga's entry changes: the volume's read count goes up by one, its last read and the entry's and the history's last update become now |
| History.MangaHistory.GetMangaList | mangabook/history.py:191-223 | the loop and the sort give exactly MangaList |
| History.MangaHistory.GetRecentlyUpdated | mangabook/history.py:225-239 | the manga list, keeping the manga updated after now less the given days |
| History.MangaHistory.GetRecentlyRead | mangabook/history.py:241-255 | the manga list, keeping the manga read after now less the given days |
| History.MangaHistory.DeleteMangaHistory | mangabook/history.py:257-271 | true exactly when the manga was there; only its entry goes, and the history's last update becomes now exactly when it did |
| Errors.CategoryValue | mangabook/error.py:23-34 | every category's value is non-empty and holds no bracket, so the text of an error can be read back |
| Errors.CategoryOf | mangabook/error.py:23-34 | looking a value up finds the category whose value it is, and nothing for any other text |
| Errors.CategoryOfValue | mangabook/error.py:23-34 | every category is found again from its value, so the ten values are distinct |
| Errors.ErrorString | mangabook/error.py:51-52 | the text of an error is its message, " [", the category's value and "]" |
| Errors.ErrorStringRoundTrip | mangabook/error.py:51-52 | the message and the category can be read back from the text of an error, whatever the message holds |
| Errors.FatalCount | mangabook/error.py:217 | the fatal errors counted are at most the errors logged, and none exactly when every error is recoverable |
| Errors.AddMessageProperties | mangabook/error.py:210-213 | a turn of the grouping loop adds the message under its key, keeps the keys distinct and leaves every other key's messages alone |
| Errors.AddMessageIsPut | mangabook/error.py:211-213 | a turn of the grouping loop assigns the key its old list, or [], with the message appended |
| Errors.AddMessageTotal | mangabook/error.py:210-213 | each turn of the grouping loop adds one message in all |
| Errors.GroupedProperties | mangabook/error.py:208-213 | each category value appears once among the groups, its list holds exactly the messages of the errors of that category in log order, and the lists together hold one message per error |
| Errors.ErrorHandler.constructor | mangabook/error.py:58-66 | a new handler has the debug flag given, an empty log and no log file |
| Errors.ErrorHandler.SetLogFile | mangabook/error.py:68-74 | the log file becomes the path given and nothing else changes |
| Errors.ErrorHandler.Handle | mangabook/error.py:86-118 | the error logged and returned carries str(error), the category, the details or an empty dict and the recoverable flag, and it is appended to the log |
| Errors.ErrorHandler.SafeExecute | mangabook/error.py:156-177 | the call's value when it returns, with the log unchanged; otherwise None with exactly one recoverable error of the given category appended |
| Errors.ErrorHandler.SafeExecuteAsync | mangabook/error.py:179-200 | the same as safe_execute on the awaited outcome |
| Errors.ErrorHandler.GetSummary | mangabook/error.py:202-220 | the summary holds the number of errors, the number of fatal ones, the messages grouped by category value, and the log file |
| Errors.HandledCounts | mangabook/error.py:86-118 | handling an error adds one to the total and, when it is not recoverable, one to the fatal count, and its message is appended to its category's list (also lines 202-220) |

## Left out

- Enhanced.Written: the builder state after `write` is the state before the items were renamed and the toc hrefs rewritten in place (mangabook/epub/enhanced_builder.py:270, 412-422, 526-646). `Enhanced.WriteOpf` computes the rewritten items, and `Enhanced.WriteAgainSamePackage` proves that writing those again gives the same package, but they are not stored back into the builder.
- Enhanced.FixReferences: `_fix_xhtml_references` runs on each extracted .xhtml file (mangabook/epub/enhanced_builder.py:293-296). Page bodies are not modelled as text, so it is stated on its own, over a tag-token model of the markup, and not wired into `Enhanced.PackageOf`. The token model simplifies the text substitutions. The href, src and id substitutions apply only to attributes of start tags, and only to double-quoted values; the program's patterns also match in character data. The "<!DOCTYPE html>" test, the "xmlns" test and the "<html>" replacement (mangabook/epub/enhanced_builder.py:320-322) look inside single pieces only. So an occurrence that spans two pieces, or a doctype spelled otherwise, is not seen.
- Text.ParseDecimal: reads only plain decimal text (whitespace, a sign, digits with at most one dot). Python's float() also reads "inf", "nan", exponents such as "1e3" and underscores such as "1_0"; the model reads these as non-numbers.
- Workflow.CollectionLabel: for a volume named "inf", `int(float(v))` raises OverflowError (mangabook/workflow.py:299). `except ValueError` does not catch it, so the volume fails (mangabook/workflow.py:403-409). The model labels it "Volume inf". "1e3" is "Volume 1000" in the program and "Volume 1e3" here.
- Text.IsDigits: ASCII digits only; str.isdigit also accepts other Unicode digits such as "²".
- Text.Lower: ASCII letters only; str.lower also maps non-ASCII letters.
- Parallel.DownloadManager.DownloadChapters: chapter downloads run one after the other. With concurrent runs, two jobs with the same chapter id can both be in flight; the second `in_progress.remove` then raises KeyError (mangabook/parallel.py:193, 230). The sequential model never has two in flight.
- Batch.DownloadQueue.ProcessNextJob: the `Processed` outcome is what process_manga would return. As written, process_manga's `finally` block (mangabook/workflow.py:511-519) reads `e`. That name is unbound on the normal path and deleted after the `except` block, so every call raises UnboundLocalError. Only the `Raised` branch is reached; the model keeps both branches as mangabook/batch.py:245-304 handles them.
- Workflow.ProcessVolumes: the same `finally` block means the results dict never reaches the caller. The model states what the loop builds, not what process_manga returns.
- Builder.JoinPath: `Path(dir) / name` as plain concatenation. Path's normalisation is not modelled: collapsed double slashes, a dropped trailing slash and "." segments.
- Workflow.ValidateEpub: the "File not found" message holds the path as given. `str(Path(epub_path))` normalisation is not modelled, as for `Builder.JoinPath`.
- Kobo.ApplyKoboModifications: the original file is removed (mangabook/epub/kobo.py:214) before the new archive is written. The model replaces the archive in one step, so a failure while re-zipping, which leaves no file at all, is not modelled.
- Listing.GetVolumes: the `scanlation_groups` set of each volume (mangabook/cli.py:340, 354, 361-365) is not modelled. Only the volume table shows it (mangabook/cli.py:437-438), and that table is console output.
- The Kobo collection report (mangabook/workflow.py:464-477) is console output and is not modelled. It globs `sanitize_filename(manga_title.replace('_', ' '))` under the collection root, while the files were written under `sanitize_filename(manga_title)` (mangabook/workflow.py:270). For a title with "_", such as "A_B", these are different directories, so the report finds no files.
- Errors.ErrorHandler.SetLogFile: keeps the path as given, without `str(Path(...))` normalisation. The file logging handler it installs is not modelled.
- Utils.Retry: the delays slept are recorded, not slept. Logging is not modelled.
- KepubBuilder `_init_book` and `_create_image_page` (mangabook/epub/kobo.py:82-133) run on the Kobo paths, including the default EnhancedKepubBuilder, which inherits both (mangabook/epub/enhanced_builder.py:707; mangabook/workflow.py:41, 243-245). They change only the metadata, the default stylesheet's content and the page markup (mangabook/epub/kobo.py:86-96, 109-133), none of which the model tracks. The `_create_image_page` override calls the base method first, so it inherits the failure of mangabook/epub/builder.py:295 described under Builder.WithImage.
- Enhanced.EnhancedKepubBuilder.Write: the extracted archive contents and their listing, which the Kobo pass reads, are inputs. They are not tied to `outcome.package.zip` of the write just made. For a kept file they are that file's contents, which this write did not produce.
- Builder.WithImage: states the intended add_image, which makes a page for each loadable image. As written, `_create_image_page` passes the string "style_default" to ebooklib's `EpubHtml.add_item` (mangabook/epub/builder.py:295). That method calls `get_type()` on its argument, so it raises AttributeError. add_image catches the error (lines 232-233) after the image was added (lines 219-220), so no page, chapter entry, spine entry or page number is added. Builder.WithImageAsWritten models this and Builder.ImagePageRaises states it (see Findings). The members named in the next lines state the intended pages in the same way.
- Builder.WithCover: states the intended cover page. As written, set_cover adds ebooklib's cover items, and making the page then raises, caught at mangabook/epub/builder.py:180-181 (Builder.WithCoverAsWritten, Builder.CoverPageRaises).
- Builder.WithChapter: states the intended toc link to the chapter's first page. As written, the chapter has no page, so no link is added (Builder.WithChapterAsWritten, Builder.ChapterLinkMissing).
- Builder.FromImages: states the intended pages. As written, the book's spine is empty (Builder.FromImagesAsWritten, Builder.FromImagesNoPages).
- Builder.ChapterPages: the pages the intended add_image makes. As written there are none (see Builder.WithImage).
- Builder.ChapterItems: the image and page pairs of the intended add_image. As written only the images are added (see Builder.WithImage).
- Builder.WithImageAppends: states the intended page. As written no page is appended (see Builder.WithImage).
- Builder.WithImageOnBook: states the intended page. As written no page is appended (see Builder.WithImage).
- Builder.AppendedSizes: counts the intended pages. As written the chapter and the spine do not grow (see Builder.WithImage).
- Builder.AppendedSnoc: states the intended page. As written only the image is appended (see Builder.WithImage).
- Builder.WithImagesAppend: states the intended pages. As written only the images are appended (see Builder.WithImage).
- Builder.WithChapterEffect: states the intended pages and toc link. As written there are neither (see Builder.WithChapter).
- Builder.FromImagesPages: states the intended pages. As written the spine is empty (see Builder.FromImages).
- Builder.EpubBuilder.AddImage: keeps the state of the intended add_image, with its page (see Builder.WithImage).
- Builder.EpubBuilder.AddLoadedImage: appends the intended page (see Builder.WithImage).
- Builder.EpubBuilder.AddImages: appends the intended pages (see Builder.WithImage).
- Builder.EpubBuilder.AddChapter: adds the intended pages and toc link (see Builder.WithChapter).
- Builder.EpubBuilder.SetCover: adds the intended cover page (see Builder.WithCover).
- Builder.EpubBuilder.AddCoverPage: the intended cover page, which as written is never made (see Builder.WithCover).
- Builder.CreateFromImages: builds the intended book, with pages (see Builder.FromImages).
- The volume-manifest helpers are not part of this model: create_volume_manifest, update_manifest_page, update_manifest_chapter, load_manifest, save_manifest, generate_page_path, generate_chapter_path and is_valid_image. They are recorded as calls, and their outcomes are inputs.
- Concurrency is not modelled: gather_with_concurrency, semaphores, ProcessingQueue.process and the thread and process pools. A chapter download's timeout or exception is an outcome value.
- Network, credentials and the MangaDex client (api.py, auth.py) are not modelled: their answers are parameters.
- The file system, tempfile, zipfile, os.walk, shutil and JSON files are not modelled. Files are a map from path to content, a walk is any listing of the files, and a ZIP is an ordered list of (name, stored or deflated) entries.
- ebooklib's own behaviour is a parameter: its ids, its NCX and Nav items, and the metadata its extra-metadata loop iterates. BeautifulSoup and ElementTree trees are small values holding the elements and attributes that are read or written. PIL is not modelled.
- Volume numbers compared numerically are exact reals, not IEEE doubles.
- The clock is a parameter wherever "now" is read: timestamps, the dcterms:modified value and the cache ages. `time.time()` is a float; the cache's clock is an integer here, so sub-second ages are not modelled.
- The click commands, prompts' display, progress bars and the ui module are output only and not modelled.

## Findings

| source | as written | input that shows it | evidently intended | confidence | as-written member | corrected member |
|---|---|---|---|---|---|---|
| mangabook/downloader.py:446 | the chapter sort key calls float() on any number whose dot-free form is all digits (also mangabook/cli.py:381-384) | chapter number "1.2.3": float raises ValueError and the whole sort fails | numbers that are not numbers sort last, like other non-numeric ones | high, not executed | ChapterOrder.ThreePartNumberRaises | ChapterOrder.DecimalChapterKey |
| mangabook/epub/enhanced_builder.py:420-422 | the id check `re.match('^[a-zA-Z0-9\-_\.]+$')` lets a trailing newline through, because `$` matches before it | item id "page\n" is kept, and the manifest id is not a valid XML id | every manifest id holds only letters, digits, '-', '_' and '.' | high, not executed | Opf.ManifestIdAsWrittenKeepsNewline | Opf.ManifestIdIsCleanId |
| mangabook/parallel.py:317 | add_task puts (priority, task) into a min-heap, although the priority is documented as "higher values = higher priority" (line 256) | a priority-10 task added before a priority-0 task: the priority-0 task is served first | the highest priority is served first | high, not executed | Parallel.HighPriorityWaits | Parallel.CorrectedServesHighestFirst |
| mangabook/epub/enhanced_builder.py:325 | the self-closing rewrite for img, br and hr tags needs at least one character between the tag name and the closing bracket | "<br>" is left unclosed, which is not well-formed XHTML | every img, br and hr tag is self-closed | high, not executed | Enhanced.BareBreakStaysOpen | Enhanced.FixReferencesProperties |
| mangabook/epub/kobo.py:209-212 | _apply_kobo_modifications calls self._update_toc_ncx, which only EnhancedKepubBuilder defines | convert_epub_to_kepub on any archive with OEBPS/toc.ncx: the AttributeError is caught, and the rewritten pages and package are thrown away | the Kobo changes are zipped into the KEPUB | medium, not executed | Kobo.KepubBuilderKeepsArchive | Kobo.KoboAppliedProperties |
| mangabook/epub/builder.py:370-374 | after set_direction('ltr') the loop indexes each key of book.metadata, and the None namespace key from _init_book makes `meta[0]` raise TypeError | set_reading_direction("ltr") after the book was created | the direction becomes ltr and the vertical writing-mode meta is removed | medium, not executed | Builder.LtrOnBookRaises | Builder.LtrUndoesRtl |
| mangabook/epub/builder.py:295 | `_create_image_page` calls `page.add_item("style_default")` with a string, and ebooklib's EpubHtml.add_item calls `get_type()` on its argument, so every page creation raises AttributeError; add_image and set_cover catch it (lines 232-233, 180-181) | add_image on any readable image: the image is added, but no page, spine entry or chapter entry is, and add_chapter adds no toc link | each image gets its page in the chapter and the spine, linked to the default stylesheet | medium, not executed | Builder.ImagePageRaises | Builder.WithImageAppends |
