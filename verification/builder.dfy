/*
 * Builder: EPUBBuilder (mangabook/epub/builder.py). The builder turns a list
 * of page images into an ebooklib EpubBook. It keeps the images, one XHTML
 * page per image, the pages of each chapter, the reading order (spine) and
 * the table of contents, and hands spine and table of contents to the book
 * when it is finalized.
 *
 * The book itself is ebooklib's. Here it is the list of items it holds, plus
 * the flag `attached` that says whether book.spine and book.toc are the
 * builder's own lists (they are from finalize on: Python assigns the list
 * objects, so later additions show through). What ebooklib adds on its own
 * (the cover image and cover page of EpubBook.set_cover, the NCX and Nav
 * items, the id of an item added without one) are parameters of the builder.
 */
module Builder {
  import opened Text
  import Utils

  /** An item of the book, described by what created it: one given in full
      (stylesheets, and what ebooklib adds), the n-th image of add_image, or
      a page of _create_image_page that is the n-th document the book
      numbered itself. */
  datatype Item =
    | Plain(id: string, fileName: string, mediaType: string, properties: seq<string>)
    | Image(number: nat, chapter: string, source: string)
    | Html(number: nat, uid: string)
  {
    function Id(): string {
      match this
      case Plain(id, _, _, _) => id
      case Image(n, _, _) => ImageId(n)
      case Html(n, _) => HtmlId(n)
    }

    function FileName(): string {
      match this
      case Plain(_, f, _, _) => f
      case Image(_, c, path) => ImageFileName(c, path)
      case Html(_, uid) => PageFileName(uid)
    }

    function MediaType(): string {
      match this
      case Plain(_, _, t, _) => t
      case Image(_, _, path) => MediaTypeFor(Lower(Suffix(BaseName(path))))
      case Html(_, _) => XhtmlType
    }
  }

  /** epub.Link(href, title, uid). */
  datatype Link = Link(href: string, title: string, uid: string)

  /** A table-of-contents entry: a link, or a (parent, children) pair. */
  datatype TocEntry = Flat(link: Link) | Nested(parent: Link, children: seq<Link>)

  const XhtmlType: string := "application/xhtml+xml"

  /** The two stylesheets _init_book adds to a new book. */
  function InitialItems(): seq<Item> {
    [Plain("style_default", "style/default.css", "text/css", []),
     Plain("style_cover", "style/cover.css", "text/css", [])]
  }

  /** The media type add_image and set_cover derive from a lower-cased suffix. */
  function MediaTypeFor(ext: string): string {
    if ext == ".jpg" || ext == ".jpeg" then "image/jpeg" else "image/" + SliceFrom(ext, 1)
  }

  function ImageId(n: nat): string { "image_" + NatToString(n) }

  function ImageFileName(chapterId: string, path: string): string {
    "images/" + chapterId + "/" + BaseName(path)
  }

  /** The uid of the k-th page of a chapter. */
  function PageUid(chapterId: string, k: nat): string { chapterId + "_" + NatToString(k) }

  function PageFileName(uid: string): string { "pages/" + uid + ".xhtml" }

  /** The id ebooklib gives the n-th document added without an id of its
      own: every page the builder creates is one of those. */
  function HtmlId(n: nat): string { "chapter_" + NatToString(n) }


  /** The images a chapter adds for the given loadable paths, numbered from i0. */
  function ImageItems(i0: nat, chapterId: string, paths: seq<string>): (r: seq<Item>)
    ensures |r| == |paths|
  {
    if paths == [] then []
    else
      var k := |paths| - 1;
      ImageItems(i0, chapterId, paths[..k]) + [Image(i0 + k, chapterId, paths[k])]
  }

  function FileNames(s: seq<Item>): set<string> {
    set p | p in s :: p.FileName()
  }

  lemma FileNamesGrow(s: seq<Item>, t: seq<Item>)
    ensures FileNames(s) <= FileNames(s + t)
    ensures FileNames(t) <= FileNames(s + t)
  {
    forall f | f in FileNames(s) ensures f in FileNames(s + t) {
      var p :| p in s && p.FileName() == f;
      assert p in s + t;
    }
    forall f | f in FileNames(t) ensures f in FileNames(s + t) {
      var p :| p in t && p.FileName() == f;
      assert p in s + t;
    }
  }

  /** Image i has id image_i. */
  predicate ImagesNumbered(images: seq<Item>) {
    forall i :: 0 <= i < |images| ==> images[i].Id() == ImageId(i)
  }

  /** Page k of chapter c is pages/c_k.xhtml and is in the spine. */
  predicate ChaptersPlaced(chapters: map<string, seq<Item>>, spine: seq<Item>) {
    forall c, k :: c in chapters && 0 <= k < |chapters[c]| ==>
      chapters[c][k].FileName() == PageFileName(PageUid(c, k)) && chapters[c][k] in spine
  }

  /** Every entry of the table of contents is a flat link to a spine page. */
  predicate TocFlat(toc: seq<TocEntry>, spine: seq<Item>) {
    forall e :: e in toc ==> e.Flat? && e.link.href in FileNames(spine)
  }

  lemma ImagesNumberedAppend(images: seq<Item>, image: Item)
    requires ImagesNumbered(images) && image.Id() == ImageId(|images|)
    ensures ImagesNumbered(images + [image])
  {
  }

  lemma ChaptersPlacedGrow(chapters: map<string, seq<Item>>, spine: seq<Item>, t: seq<Item>)
    requires ChaptersPlaced(chapters, spine)
    ensures ChaptersPlaced(chapters, spine + t)
  {
    forall c: string, k: int | c in chapters && 0 <= k < |chapters[c]| ensures chapters[c][k] in spine + t {
      assert chapters[c][k] in spine;
    }
  }

  lemma ChaptersPlacedAdd(chapters: map<string, seq<Item>>, spine: seq<Item>, cid: string, pages: seq<Item>, page: Item)
    requires ChaptersPlaced(chapters, spine)
    requires pages == if cid in chapters then chapters[cid] else []
    requires page.FileName() == PageFileName(PageUid(cid, |pages|))
    ensures ChaptersPlaced(chapters[cid := pages + [page]], spine + [page])
  {
    ChaptersPlacedGrow(chapters, spine, [page]);
    var m: map<string, seq<Item>> := chapters[cid := pages + [page]];
    forall c: string, k: int | c in m && 0 <= k < |m[c]|
      ensures m[c][k].FileName() == PageFileName(PageUid(c, k)) && m[c][k] in spine + [page]
    {
      if c == cid && k == |pages| {
        assert m[c][k] == page;
      } else if c == cid {
        assert m[c][k] == chapters[c][k];
      }
    }
  }

  lemma ChaptersPlacedReset(chapters: map<string, seq<Item>>, spine: seq<Item>, cid: string, pages: seq<Item>)
    requires ChaptersPlaced(chapters, spine)
    requires pages == [] || (cid in chapters && pages == chapters[cid])
    ensures ChaptersPlaced(chapters[cid := pages], spine)
  {
  }

  lemma TocFlatGrow(toc: seq<TocEntry>, spine: seq<Item>, t: seq<Item>)
    requires TocFlat(toc, spine)
    ensures TocFlat(toc, spine + t)
  {
    FileNamesGrow(spine, t);
  }

  /** Distinct image numbers give distinct ids. */
  lemma ImageIdInjective(m: nat, n: nat)
    requires ImageId(m) == ImageId(n)
    ensures m == n
  {
    assert NatToString(m) == ImageId(m)[6..];
    assert NatToString(n) == ImageId(n)[6..];
    NatToStringInjective(m, n);
  }

  /** Image ids numbered from 0 are pairwise distinct. */
  lemma ImageIdsDistinct(images: seq<Item>)
    requires ImagesNumbered(images)
    ensures forall i, j :: 0 <= i < j < |images| ==> images[i].Id() != images[j].Id()
  {
    forall i, j | 0 <= i < j < |images| ensures images[i].Id() != images[j].Id() {
      if images[i].Id() == images[j].Id() {
        ImageIdInjective(i, j);
      }
    }
  }

  /** The last '_' of a page uid separates chapter id and page number, so
      the uid determines both. */
  lemma {:induction false} PageUidInjective(c1: string, k1: nat, c2: string, k2: nat)
    requires PageUid(c1, k1) == PageUid(c2, k2)
    ensures c1 == c2 && k1 == k2
  {
    var u1, u2 := PageUid(c1, k1), PageUid(c2, k2);
    var d1, d2 := NatToString(k1), NatToString(k2);
    assert u1 == c1 + "_" + d1;
    assert u2 == c2 + "_" + d2;
    assert u1[|u1| - |d1| - 1] == '_' && u2[|u2| - |d2| - 1] == '_';
    assert forall i :: |u1| - |d1| <= i < |u1| ==> IsDigit(u1[i]);
    assert forall i :: |u2| - |d2| <= i < |u2| ==> IsDigit(u2[i]);
    assert |d1| == |d2|;
    assert d1 == u1[|u1| - |d1|..];
    assert d2 == u2[|u2| - |d2|..];
    assert c1 == u1[..|c1|];
    assert c2 == u2[..|c2|];
    NatToStringInjective(k1, k2);
  }

  /** So does the page's file name. */
  lemma PageFileNameInjective(c1: string, k1: nat, c2: string, k2: nat)
    requires PageFileName(PageUid(c1, k1)) == PageFileName(PageUid(c2, k2))
    ensures c1 == c2 && k1 == k2
  {
    var u1, u2 := PageUid(c1, k1), PageUid(c2, k2);
    var f := PageFileName(u1);
    assert u1 == f[6..|f| - 6];
    assert u2 == f[6..|f| - 6];
    PageUidInjective(c1, k1, c2, k2);
  }

  /** set_reading_direction: anything other than rtl or ltr becomes rtl. */
  function NormalizeDirection(d: string): (r: string)
    ensures r == "rtl" || r == "ltr"
    ensures r == d <==> (d == "rtl" || d == "ltr")
    ensures d != "ltr" ==> r == "rtl"
  {
    if d == "rtl" || d == "ltr" then d else "rtl"
  }

  lemma NormalizeDirectionIdempotent(d: string)
    ensures NormalizeDirection(NormalizeDirection(d)) == NormalizeDirection(d)
  {
  }

  lemma LowerEpub(s: string)
    ensures EndsWith(Lower(s + ".epub"), ".epub")
  {
    var l := Lower(s + ".epub");
    assert l[|s|..] == ".epub";
  }

  /** The file name write uses: the given one, with ".epub" appended unless
      it already ends in it (in any case), or the sanitised title. */
  function EpubFileName(filename: Option<string>, title: string): (r: string)
    ensures EndsWith(Lower(r), ".epub")
    ensures filename.Some? ==> StartsWith(r, filename.value)
    ensures filename.Some? && EndsWith(Lower(filename.value), ".epub") ==> r == filename.value
    ensures filename.Some? && !EndsWith(Lower(filename.value), ".epub") ==> r == filename.value + ".epub"
    ensures filename.None? ==> r == Utils.SanitizeFilename(title) + ".epub"
  {
    var f := if filename.Some? then filename.value else Utils.SanitizeFilename(title) + ".epub";
    LowerEpub(f);
    LowerEpub(Utils.SanitizeFilename(title));
    if EndsWith(Lower(f), ".epub") then f else f + ".epub"
  }

  /** A name that already ends in ".epub" is kept as it is. */
  lemma EpubFileNameIdempotent(f: string, title: string)
    ensures EpubFileName(Some(EpubFileName(Some(f), title)), title) == EpubFileName(Some(f), title)
  {
  }

  /** Path(dir) / name: an absolute name replaces the directory. */
  function JoinPath(dir: string, name: string): (r: string)
    ensures EndsWith(r, name)
  {
    if StartsWith(name, "/") then name else dir + "/" + name
  }


  /** What the builder depends on but does not compute: the file system and
      the parts ebooklib adds on its own. */
  datatype Env = Env(
    /** The paths for which Path.exists() holds. */
    files: set<string>,
    /** Existing paths whose contents cannot be read (open raises). */
    unreadable: set<string>,
    /** The cover image and cover page EpubBook.set_cover adds. */
    libCoverItems: seq<Item>,
    ncxItem: Item,
    navItem: Item)

  /** add_image makes a page of path: it exists and can be read. */
  predicate Loadable(env: Env, path: string) { path in env.files && path !in env.unreadable }

  /** The paths of a list that add_image turns into pages, in order. */
  function Present(env: Env, paths: seq<string>): (r: seq<string>)
    ensures |r| <= |paths|
  {
    if paths == [] then []
    else
      var k := |paths| - 1;
      Present(env, paths[..k]) + (if Loadable(env, paths[k]) then [paths[k]] else [])
  }

  /** The pages add_chapter creates for the loadable paths, when the book
      spine held n0 pages before the first of them. */
  function ChapterPages(n0: nat, chapterId: string, paths: seq<string>): (r: seq<Item>)
    ensures |r| == |paths|
  {
    if paths == [] then []
    else
      var k := |paths| - 1;
      ChapterPages(n0, chapterId, paths[..k]) + [Html(n0 + k, PageUid(chapterId, k))]
  }

  /** The items add_chapter adds to the book: each image followed by its page. */
  function ChapterItems(n0: nat, i0: nat, chapterId: string, paths: seq<string>): (r: seq<Item>)
    ensures |r| == 2 * |paths|
  {
    if paths == [] then []
    else
      var k := |paths| - 1;
      ChapterItems(n0, i0, chapterId, paths[..k])
        + [Image(i0 + k, chapterId, paths[k]), Html(n0 + k, PageUid(chapterId, k))]
  }

  /** The fields of an EPUBBuilder together with the book's items. */
  datatype BuilderState = BuilderState(
    /** self.book is not None. */
    hasBook: bool,
    /** book.items */
    items: seq<Item>,
    images: seq<Item>,
    chapters: map<string, seq<Item>>,
    spine: seq<Item>,
    toc: seq<TocEntry>,
    /** book.spine and book.toc are the builder's spine and toc. */
    attached: bool,
    readingDirection: string,
    /** The direction set on the book. */
    bookDirection: Option<string>,
    /** The primary-writing-mode metas added to the book. */
    writingModeMetas: nat,
    coverImage: Option<string>,
    /** The documents ebooklib numbered itself, chapter_0 on. */
    htmlCount: nat)

  /** The state __init__ leaves. */
  function Initial(): BuilderState {
    BuilderState(false, [], [], map[], [], [], false, "rtl", None, 0, None, 0)
  }

  /** What every reachable state satisfies. */
  predicate ValidState(s: BuilderState) {
    && (s.readingDirection == "rtl" || s.readingDirection == "ltr")
    && (!s.hasBook ==> s.items == [] && s.images == [] && s.spine == [] && s.toc == [] && s.chapters == map[] && !s.attached)
    && ImagesNumbered(s.images)
    && ChaptersPlaced(s.chapters, s.spine)
    && TocFlat(s.toc, s.spine)
  }

  /** book.spine: ebooklib's empty default until finalize attaches the builder's. */
  function BookSpine(s: BuilderState): seq<Item> { if s.attached then s.spine else [] }

  function BookToc(s: BuilderState): seq<TocEntry> { if s.attached then s.toc else [] }

  /** _init_book, run when there is no book yet. */
  function Booked(s: BuilderState): BuilderState {
    if s.hasBook then s
    else s.(hasBook := true, items := InitialItems(),
            bookDirection := if s.readingDirection == "rtl" then Some("rtl") else None,
            writingModeMetas := if s.readingDirection == "rtl" then 1 else 0)
  }

  function PagesOf(chapters: map<string, seq<Item>>, c: string): seq<Item> {
    if c in chapters then chapters[c] else []
  }

  /** add_image(path, chapterId). */
  function WithImage(env: Env, s: BuilderState, path: string, chapterId: string): BuilderState {
    if path !in env.files then s
    else
      var s1 := Booked(s);
      var pages := PagesOf(s1.chapters, chapterId);
      if path in env.unreadable then s1.(chapters := s1.chapters[chapterId := pages])
      else
        var image := Image(|s1.images|, chapterId, path);
        var page := Html(s1.htmlCount, PageUid(chapterId, |pages|));
        s1.(items := s1.items + [image, page], images := s1.images + [image],
            chapters := s1.chapters[chapterId := pages + [page]], spine := s1.spine + [page],
            htmlCount := s1.htmlCount + 1)
  }

  /** add_image for each path in turn. */
  function WithImages(env: Env, s: BuilderState, paths: seq<string>, chapterId: string): BuilderState {
    if paths == [] then s
    else WithImage(env, WithImages(env, s, paths[..|paths| - 1], chapterId), paths[|paths| - 1], chapterId)
  }

  /** The start of add_chapter: a book, and the chapter emptied. */
  function ChapterReset(s: BuilderState, chapterId: string): (r: BuilderState)
    ensures r.hasBook && chapterId in r.chapters && r.chapters[chapterId] == []
  {
    var s1 := Booked(s);
    s1.(chapters := s1.chapters[chapterId := []])
  }

  /** add_chapter(chapterId, title, paths). */
  function WithChapter(env: Env, s: BuilderState, chapterId: string, title: string, paths: seq<string>): BuilderState {
    var s2 := WithImages(env, ChapterReset(s, chapterId), paths, chapterId);
    var pages := PagesOf(s2.chapters, chapterId);
    if pages != [] then s2.(toc := s2.toc + [Flat(Link(pages[0].FileName(), title, chapterId))]) else s2
  }

  /** set_cover(path): ebooklib's cover items, then a page for "cover.jpg"
      at the end of the spine. */
  function WithCover(env: Env, s: BuilderState, path: string): BuilderState {
    if path !in env.files then s
    else
      var s1 := Booked(s.(coverImage := Some(path)));
      if path in env.unreadable then s1
      else
        var page := Html(s1.htmlCount, "cover");
        s1.(items := s1.items + env.libCoverItems + [page], spine := s1.spine + [page],
            htmlCount := s1.htmlCount + 1)
  }

  /** finalize(). */
  function Finalized(env: Env, s: BuilderState): BuilderState {
    var s1 := Booked(s);
    s1.(attached := true, items := s1.items + [env.ncxItem, env.navItem])
  }

  /** set_reading_direction(direction) as intended: "rtl" on a book adds a
      primary-writing-mode meta, "ltr" removes the first one there is. */
  function WithDirection(s: BuilderState, direction: string): BuilderState {
    var d := NormalizeDirection(direction);
    if s.hasBook then
      s.(readingDirection := d, bookDirection := Some(d),
         writingModeMetas := if d == "rtl" then s.writingModeMetas + 1
                             else if s.writingModeMetas > 0 then s.writingModeMetas - 1 else 0)
    else s.(readingDirection := d)
  }

  /** set_reading_direction(direction) as written: on a book, "ltr" sets the
      book's direction and then walks the metadata namespaces, and the
      None namespace that _init_book's generator meta created makes
      `meta[0]` raise TypeError before any meta is removed. */
  function WithDirectionAsWritten(s: BuilderState, direction: string): (BuilderState, Option<string>) {
    var d := NormalizeDirection(direction);
    if s.hasBook && d == "ltr" then (s.(readingDirection := d, bookDirection := Some(d)), Some("TypeError"))
    else (WithDirection(s, direction), None)
  }

  /** As written, turning a book to "ltr" raises and keeps its writing-mode
      metas; every other call agrees with the intended version. */
  lemma LtrOnBookRaises(s: BuilderState, direction: string)
    ensures var (r, raised) := WithDirectionAsWritten(s, direction);
      && (raised.Some? <==> s.hasBook && direction == "ltr")
      && (raised.Some? ==> raised.value == "TypeError" && r.writingModeMetas == s.writingModeMetas)
      && (raised.None? ==> r == WithDirection(s, direction))
  {
  }

  /** As intended, "ltr" undoes "rtl" on a book: the writing-mode metas are
      back to what they were, and a book with the one meta _init_book adds
      has none left. */
  lemma LtrUndoesRtl(s: BuilderState)
    requires s.hasBook
    ensures WithDirection(WithDirection(s, "rtl"), "ltr").writingModeMetas == s.writingModeMetas
    ensures s.writingModeMetas <= 1 ==> WithDirection(s, "ltr").writingModeMetas == 0
    ensures WithDirection(s, "ltr").bookDirection == Some("ltr")
  {
  }

  /** write(filename) up to the call into ebooklib: the new state and the
      target path, or the AttributeError reading book.spine raises without
      a book. */
  function Written(env: Env, s: BuilderState, outputDir: string, title: string, filename: Option<string>): (BuilderState, Result<string>) {
    if !s.hasBook then (s, Err("AttributeError"))
    else
      ((if BookSpine(s) == [] then Finalized(env, s) else s), Ok(JoinPath(outputDir, EpubFileName(filename, title))))
  }

  /** create_from_images: the explicit cover, or else the first image, is
      the cover; the other images become pages of chapter "default". */
  function FromImages(env: Env, title: string, outputDir: string, paths: seq<string>, cover: string, direction: string): (BuilderState, Result<string>) {
    var s0 := WithDirection(Initial(), direction);
    var s1 := if cover != "" then WithCover(env, s0, cover) else if paths != [] then WithCover(env, s0, paths[0]) else s0;
    var pages := if cover == "" && paths != [] then paths[1..] else paths;
    Written(env, WithImages(env, s1, pages, "default"), outputDir, title, None)
  }

  // Invariants the operations keep.

  lemma BookedValid(s: BuilderState)
    requires ValidState(s)
    ensures ValidState(Booked(s))
  {
  }

  lemma WithImageValid(env: Env, s: BuilderState, path: string, chapterId: string)
    requires ValidState(s)
    ensures ValidState(WithImage(env, s, path, chapterId))
  {
    if path in env.files {
      var s1 := Booked(s);
      var pages := PagesOf(s1.chapters, chapterId);
      if path in env.unreadable {
        ChaptersPlacedReset(s1.chapters, s1.spine, chapterId, pages);
      } else {
        var page := Html(s1.htmlCount, PageUid(chapterId, |pages|));
        ImagesNumberedAppend(s1.images, Image(|s1.images|, chapterId, path));
        ChaptersPlacedAdd(s1.chapters, s1.spine, chapterId, pages, page);
        TocFlatGrow(s1.toc, s1.spine, [page]);
      }
    }
  }

  lemma {:induction false} WithImagesValid(env: Env, s: BuilderState, paths: seq<string>, chapterId: string)
    requires ValidState(s)
    ensures ValidState(WithImages(env, s, paths, chapterId))
  {
    if paths != [] {
      WithImagesValid(env, s, paths[..|paths| - 1], chapterId);
      WithImageValid(env, WithImages(env, s, paths[..|paths| - 1], chapterId), paths[|paths| - 1], chapterId);
    }
  }

  lemma WithChapterValid(env: Env, s: BuilderState, chapterId: string, title: string, paths: seq<string>)
    requires ValidState(s)
    ensures ValidState(WithChapter(env, s, chapterId, title, paths))
  {
    var s1 := Booked(s);
    ChaptersPlacedReset(s1.chapters, s1.spine, chapterId, []);
    var s2 := WithImages(env, ChapterReset(s, chapterId), paths, chapterId);
    WithImagesValid(env, ChapterReset(s, chapterId), paths, chapterId);
    var pages := PagesOf(s2.chapters, chapterId);
    if pages != [] {
      assert pages[0] == s2.chapters[chapterId][0];
      assert pages[0] in s2.spine;
      assert pages[0].FileName() in FileNames(s2.spine);
    }
  }

  lemma WithCoverValid(env: Env, s: BuilderState, path: string)
    requires ValidState(s)
    ensures ValidState(WithCover(env, s, path))
  {
    if path in env.files && path !in env.unreadable {
      var s1 := Booked(s.(coverImage := Some(path)));
      var page := Html(s1.htmlCount, "cover");
      ChaptersPlacedGrow(s1.chapters, s1.spine, [page]);
      TocFlatGrow(s1.toc, s1.spine, [page]);
    }
  }

  lemma FinalizedValid(env: Env, s: BuilderState)
    requires ValidState(s)
    ensures ValidState(Finalized(env, s))
  {
  }

  lemma WithDirectionValid(s: BuilderState, direction: string)
    requires ValidState(s)
    ensures ValidState(WithDirection(s, direction))
  {
  }

  // What each operation does.

  /** add_image with a missing path changes nothing. */
  lemma WithImageMissing(env: Env, s: BuilderState, path: string, chapterId: string)
    requires path !in env.files
    ensures WithImage(env, s, path, chapterId) == s
  {
  }

  /** add_image with a loadable path appends one image image_{n}, where n is
      the old number of images, and one page pages/{chapter}_{k}.xhtml, where
      k is the old length of the chapter, to the chapter and the spine. */
  lemma WithImageAppends(env: Env, s: BuilderState, path: string, chapterId: string)
    requires Loadable(env, path)
    ensures var r := WithImage(env, s, path, chapterId);
      var pages := PagesOf(s.chapters, chapterId);
      && r.hasBook
      && |r.images| == |s.images| + 1 && r.images[..|s.images|] == s.images
      && r.images[|s.images|].Id() == ImageId(|s.images|)
      && r.images[|s.images|].FileName() == "images/" + chapterId + "/" + BaseName(path)
      && |r.spine| == |s.spine| + 1 && r.spine[..|s.spine|] == s.spine
      && r.spine[|s.spine|].FileName() == PageFileName(PageUid(chapterId, |pages|))
      && r.chapters == s.chapters[chapterId := pages + [r.spine[|s.spine|]]]
      && r.toc == s.toc && r.readingDirection == s.readingDirection && r.coverImage == s.coverImage
  {
    var s1 := Booked(s);
    assert s1.chapters == s.chapters && s1.images == s.images && s1.spine == s.spine;
  }

  /** add_image on a book that already has the chapter: nothing changes for
      a path that cannot be loaded, otherwise the image and the page given
      are appended. */
  lemma WithImageOnBook(env: Env, s: BuilderState, path: string, chapterId: string, image: Item, page: Item)
    requires s.hasBook && chapterId in s.chapters
    requires image == Image(|s.images|, chapterId, path)
    requires page == Html(s.htmlCount, PageUid(chapterId, |s.chapters[chapterId]|))
    ensures !Loadable(env, path) ==> WithImage(env, s, path, chapterId) == s
    ensures Loadable(env, path) ==>
      WithImage(env, s, path, chapterId)
        == s.(items := s.items + [image, page], images := s.images + [image],
              chapters := s.chapters[chapterId := s.chapters[chapterId] + [page]], spine := s.spine + [page],
              htmlCount := s.htmlCount + 1)
  {
    assert s.chapters[chapterId := s.chapters[chapterId]] == s.chapters;
  }

  /** What add_image does before it reads the file: make sure there is a
      book and the chapter exists. */
  function Prepared(s: BuilderState, chapterId: string): (r: BuilderState)
    ensures r.hasBook && chapterId in r.chapters
  {
    var s1 := Booked(s);
    s1.(chapters := s1.chapters[chapterId := PagesOf(s1.chapters, chapterId)])
  }

  lemma WithImagePrepared(env: Env, s: BuilderState, path: string, chapterId: string)
    requires path in env.files
    ensures WithImage(env, s, path, chapterId) == WithImage(env, Prepared(s, chapterId), path, chapterId)
  {
    var s1 := Booked(s);
    assert s1.chapters[chapterId := PagesOf(s1.chapters, chapterId)][chapterId := PagesOf(s1.chapters, chapterId)]
      == s1.chapters[chapterId := PagesOf(s1.chapters, chapterId)];
  }

  lemma ChapterPagesSnoc(n0: nat, chapterId: string, paths: seq<string>, p: string)
    ensures ChapterPages(n0, chapterId, paths + [p])
      == ChapterPages(n0, chapterId, paths) + [Html(n0 + |paths|, PageUid(chapterId, |paths|))]
  {
    assert (paths + [p])[..|paths|] == paths;
  }

  lemma ChapterItemsSnoc(n0: nat, i0: nat, chapterId: string, paths: seq<string>, p: string)
    ensures ChapterItems(n0, i0, chapterId, paths + [p])
      == ChapterItems(n0, i0, chapterId, paths)
         + [Image(i0 + |paths|, chapterId, p), Html(n0 + |paths|, PageUid(chapterId, |paths|))]
  {
    assert (paths + [p])[..|paths|] == paths;
  }

  /** The state after add_image has added the given loadable paths, in
      order, to an empty chapter of an existing book. */
  function Appended(s: BuilderState, added: seq<string>, chapterId: string): BuilderState {
    var pages := ChapterPages(s.htmlCount, chapterId, added);
    s.(items := s.items + ChapterItems(s.htmlCount, |s.images|, chapterId, added),
       images := s.images + ImageItems(|s.images|, chapterId, added),
       chapters := s.chapters[chapterId := pages],
       spine := s.spine + pages,
       htmlCount := s.htmlCount + |added|)
  }

  lemma AppendedSizes(s: BuilderState, added: seq<string>, chapterId: string)
    ensures var m := Appended(s, added, chapterId);
      && m.hasBook == s.hasBook && chapterId in m.chapters
      && m.chapters[chapterId] == ChapterPages(s.htmlCount, chapterId, added)
      && m.htmlCount == s.htmlCount + |added|
      && |m.chapters[chapterId]| == |added|
      && |m.spine| == |s.spine| + |added| && |m.images| == |s.images| + |added|
  {
  }

  lemma SeqAppendAssoc<T>(a: seq<T>, b: seq<T>, c: seq<T>)
    ensures a + (b + c) == (a + b) + c
  {
  }

  lemma AppendedSnocFields(s: BuilderState, added: seq<string>, p: string, chapterId: string)
    ensures var m := Appended(s, added, chapterId);
      var r := Appended(s, added + [p], chapterId);
      var page := Html(s.htmlCount + |added|, PageUid(chapterId, |added|));
      var image := Image(|s.images| + |added|, chapterId, p);
      && r.items == m.items + [image, page]
      && r.images == m.images + [image]
      && r.spine == m.spine + [page]
      && r.chapters == m.chapters[chapterId := m.chapters[chapterId] + [page]]
      && r.htmlCount == m.htmlCount + 1
  {
    var n0, i0 := s.htmlCount, |s.images|;
    ChapterPagesSnoc(n0, chapterId, added, p);
    ChapterItemsSnoc(n0, i0, chapterId, added, p);
    ImageItemsSnoc(i0, chapterId, added, p);
    var page := Html(n0 + |added|, PageUid(chapterId, |added|));
    var image := Image(i0 + |added|, chapterId, p);
    var cp := ChapterPages(n0, chapterId, added);
    SeqAppendAssoc(s.items, ChapterItems(n0, i0, chapterId, added), [image, page]);
    SeqAppendAssoc(s.images, ImageItems(i0, chapterId, added), [image]);
    SeqAppendAssoc(s.spine, cp, [page]);
    MapUpdateTwice(s.chapters, chapterId, cp, cp + [page]);
  }

  lemma MapUpdateTwice<K, V>(m: map<K, V>, k: K, v: V, w: V)
    ensures m[k := v][k := w] == m[k := w]
  {
  }

  /** One more added path appends one image and one page. */
  lemma AppendedSnoc(s: BuilderState, added: seq<string>, p: string, chapterId: string)
    ensures var m := Appended(s, added, chapterId);
      var page := Html(s.htmlCount + |added|, PageUid(chapterId, |added|));
      var image := Image(|s.images| + |added|, chapterId, p);
      Appended(s, added + [p], chapterId)
        == m.(items := m.items + [image, page], images := m.images + [image],
              chapters := m.chapters[chapterId := m.chapters[chapterId] + [page]], spine := m.spine + [page],
              htmlCount := m.htmlCount + 1)
  {
    AppendedSnocFields(s, added, p, chapterId);
  }

  lemma AppendedStepLoadable(env: Env, s: BuilderState, added: seq<string>, p: string, chapterId: string)
    requires s.hasBook && Loadable(env, p)
    ensures WithImage(env, Appended(s, added, chapterId), p, chapterId) == Appended(s, added + [p], chapterId)
  {
    var m := Appended(s, added, chapterId);
    var page := Html(s.htmlCount + |added|, PageUid(chapterId, |added|));
    var image := Image(|s.images| + |added|, chapterId, p);
    AppendedSizes(s, added, chapterId);
    WithImageOnBook(env, m, p, chapterId, image, page);
    AppendedSnoc(s, added, p, chapterId);
  }

  lemma AppendedStepSkipped(env: Env, s: BuilderState, added: seq<string>, p: string, chapterId: string)
    requires s.hasBook && !Loadable(env, p)
    ensures WithImage(env, Appended(s, added, chapterId), p, chapterId) == Appended(s, added, chapterId)
  {
    var m := Appended(s, added, chapterId);
    AppendedSizes(s, added, chapterId);
    WithImageOnBook(env, m, p, chapterId, Image(|m.images|, chapterId, p),
                    Html(m.htmlCount, PageUid(chapterId, |m.chapters[chapterId]|)));
  }

  /** Adding images one after the other to an empty chapter of an existing
      book appends, for every loadable path in order, its image and its page. */
  lemma {:induction false} WithImagesAppend(env: Env, s: BuilderState, paths: seq<string>, chapterId: string)
    requires s.hasBook && chapterId in s.chapters && s.chapters[chapterId] == []
    ensures WithImages(env, s, paths, chapterId) == Appended(s, Present(env, paths), chapterId)
  {
    if paths == [] {
      assert s.chapters[chapterId := []] == s.chapters;
      assert s.items + [] == s.items && s.images + [] == s.images && s.spine + [] == s.spine;
    } else {
      var init, p := paths[..|paths| - 1], paths[|paths| - 1];
      WithImagesAppend(env, s, init, chapterId);
      var mid := WithImages(env, s, init, chapterId);
      assert WithImages(env, s, paths, chapterId) == WithImage(env, mid, p, chapterId);
      PresentSnoc(env, paths);
      if Loadable(env, p) {
        AppendedStepLoadable(env, s, Present(env, init), p, chapterId);
        assert Present(env, paths) == Present(env, init) + [p];
      } else {
        AppendedStepSkipped(env, s, Present(env, init), p, chapterId);
        assert Present(env, paths) == Present(env, init);
      }
    }
  }

  /** add_chapter resets the chapter, adds the loadable images in order, and
      adds exactly one flat link, to the first page, when it added a page. */
  lemma WithChapterEffect(env: Env, s: BuilderState, chapterId: string, title: string, paths: seq<string>)
    ensures var s1 := ChapterReset(s, chapterId);
      var added := Present(env, paths);
      WithChapter(env, s, chapterId, title, paths)
        == Appended(s1, added, chapterId).(toc := s1.toc + (if added == [] then [] else [Flat(Link(PageFileName(PageUid(chapterId, 0)), title, chapterId))]))
  {
    var s1 := Booked(s);
    var s1r := ChapterReset(s, chapterId);
    WithImagesAppend(env, s1r, paths, chapterId);
    var added := Present(env, paths);
    AppendedSizes(s1r, added, chapterId);
    if added != [] {
      ChapterPagesNamed(s1.htmlCount, chapterId, added);
    }
  }

  lemma {:induction false} ChapterPagesNamed(n0: nat, chapterId: string, paths: seq<string>)
    ensures var pages := ChapterPages(n0, chapterId, paths);
      forall k :: 0 <= k < |pages| ==> pages[k].FileName() == PageFileName(PageUid(chapterId, k))
  {
    if paths != [] {
      var last := |paths| - 1;
      ChapterPagesNamed(n0, chapterId, paths[..last]);
      var before := ChapterPages(n0, chapterId, paths[..last]);
      var pages := ChapterPages(n0, chapterId, paths);
      assert pages == before + [Html(n0 + last, PageUid(chapterId, last))];
      forall k | 0 <= k < |pages| ensures pages[k].FileName() == PageFileName(PageUid(chapterId, k)) {
        if k < last {
          assert pages[k] == before[k];
        }
      }
    }
  }

  lemma WithImageImages(env: Env, s: BuilderState, path: string, chapterId: string)
    ensures WithImage(env, s, path, chapterId).images
      == s.images + (if Loadable(env, path) then [Image(|s.images|, chapterId, path)] else [])
  {
  }

  lemma ImageItemsSnoc(i0: nat, chapterId: string, paths: seq<string>, p: string)
    ensures ImageItems(i0, chapterId, paths + [p]) == ImageItems(i0, chapterId, paths) + [Image(i0 + |paths|, chapterId, p)]
  {
    assert (paths + [p])[..|paths|] == paths;
  }

  lemma PresentSnoc(env: Env, paths: seq<string>)
    requires paths != []
    ensures Present(env, paths)
      == Present(env, paths[..|paths| - 1]) + (if Loadable(env, paths[|paths| - 1]) then [paths[|paths| - 1]] else [])
  {
  }

  /** Images are numbered over the whole builder, whatever their chapter. */
  lemma {:induction false} WithImagesImages(env: Env, s: BuilderState, paths: seq<string>, chapterId: string)
    ensures WithImages(env, s, paths, chapterId).images == s.images + ImageItems(|s.images|, chapterId, Present(env, paths))
  {
    if paths != [] {
      var init, p := paths[..|paths| - 1], paths[|paths| - 1];
      var mid := WithImages(env, s, init, chapterId);
      WithImagesImages(env, s, init, chapterId);
      WithImageImages(env, mid, p, chapterId);
      PresentSnoc(env, paths);
      var before := Present(env, init);
      assert WithImages(env, s, paths, chapterId) == WithImage(env, mid, p, chapterId);
      if Loadable(env, p) {
        ImageItemsSnoc(|s.images|, chapterId, before, p);
        assert |mid.images| == |s.images| + |before|;
        assert WithImage(env, mid, p, chapterId).images == mid.images + [Image(|mid.images|, chapterId, p)];
        assert Present(env, paths) == before + [p];
      } else {
        assert WithImage(env, mid, p, chapterId).images == mid.images;
        assert Present(env, paths) == before;
      }
    }
  }

  /** Adding images leaves the cover and the reading direction alone. */
  lemma {:induction false} WithImagesKeep(env: Env, s: BuilderState, paths: seq<string>, chapterId: string)
    ensures WithImages(env, s, paths, chapterId).coverImage == s.coverImage
    ensures WithImages(env, s, paths, chapterId).readingDirection == s.readingDirection
  {
    if paths != [] {
      WithImagesKeep(env, s, paths[..|paths| - 1], chapterId);
    }
  }

  /** After adding images there is a book exactly when there was one before
      or one of the paths exists. */
  lemma {:induction false} WithImagesBook(env: Env, s: BuilderState, paths: seq<string>, chapterId: string)
    ensures WithImages(env, s, paths, chapterId).hasBook
      <==> s.hasBook || exists i :: 0 <= i < |paths| && paths[i] in env.files
  {
    if paths != [] {
      var init, p := paths[..|paths| - 1], paths[|paths| - 1];
      WithImagesBook(env, s, init, chapterId);
      if exists i :: 0 <= i < |init| && init[i] in env.files {
        var i :| 0 <= i < |init| && init[i] in env.files;
        assert paths[i] in env.files;
      }
      if exists i :: 0 <= i < |paths| && paths[i] in env.files {
        var i :| 0 <= i < |paths| && paths[i] in env.files;
        if i < |init| {
          assert init[i] in env.files;
        }
      }
    }
  }

  /** create_from_images without an explicit cover makes the first image the
      cover and does not add it as a page: the pages come from the rest. */
  lemma FromImagesPages(env: Env, title: string, outputDir: string, paths: seq<string>, cover: string, direction: string)
    ensures var (s, r) := FromImages(env, title, outputDir, paths, cover, direction);
      var pages := if cover == "" && paths != [] then paths[1..] else paths;
      && s.images == ImageItems(0, "default", Present(env, pages))
      && (r.Err? <==> !s.hasBook)
      && (r.Ok? ==> r.value == JoinPath(outputDir, EpubFileName(None, title)))
  {
    var s0 := WithDirection(Initial(), direction);
    var s1 := if cover != "" then WithCover(env, s0, cover) else if paths != [] then WithCover(env, s0, paths[0]) else s0;
    var pages := if cover == "" && paths != [] then paths[1..] else paths;
    assert s1.images == [];
    WithImagesImages(env, s1, pages, "default");
  }

  /** set_cover records an existing path, whether or not it can be read. */
  lemma WithCoverRecords(env: Env, s: BuilderState, path: string)
    ensures WithCover(env, s, path).coverImage == if path in env.files then Some(path) else s.coverImage
    ensures WithCover(env, s, path).readingDirection == s.readingDirection
  {
  }

  lemma WrittenKeeps(env: Env, s: BuilderState, outputDir: string, title: string, filename: Option<string>)
    ensures Written(env, s, outputDir, title, filename).0.coverImage == s.coverImage
    ensures Written(env, s, outputDir, title, filename).0.readingDirection == s.readingDirection
  {
  }

  /** The cover is the explicit one, or else the first image, when that file
      exists; the reading direction is the normalised one. */
  lemma FromImagesCover(env: Env, title: string, outputDir: string, paths: seq<string>, cover: string, direction: string)
    ensures var (s, r) := FromImages(env, title, outputDir, paths, cover, direction);
      var chosen := if cover != "" then Some(cover) else if paths != [] then Some(paths[0]) else None;
      && s.coverImage == (if chosen.Some? && chosen.value in env.files then chosen else None)
      && s.readingDirection == NormalizeDirection(direction)
  {
    var s0 := WithDirection(Initial(), direction);
    var s1 := if cover != "" then WithCover(env, s0, cover) else if paths != [] then WithCover(env, s0, paths[0]) else s0;
    var pages := if cover == "" && paths != [] then paths[1..] else paths;
    if cover != "" {
      WithCoverRecords(env, s0, cover);
    } else if paths != [] {
      WithCoverRecords(env, s0, paths[0]);
    }
    WithImagesKeep(env, s1, pages, "default");
    WrittenKeeps(env, WithImages(env, s1, pages, "default"), outputDir, title, None);
  }

  /** finalize hands the builder's spine and toc to the book and adds the
      NCX and Nav items. */
  lemma FinalizedAttaches(env: Env, s: BuilderState)
    ensures var r := Finalized(env, s);
      && BookSpine(r) == s.spine && BookToc(r) == s.toc
      && r.items == (if s.hasBook then s.items else InitialItems()) + [env.ncxItem, env.navItem]
  {
  }

  /** write without a book raises; otherwise it finalizes exactly when the
      book's spine is empty. */
  lemma WrittenOutcome(env: Env, s: BuilderState, outputDir: string, title: string, filename: Option<string>)
    ensures var (r, path) := Written(env, s, outputDir, title, filename);
      && (path.Err? <==> !s.hasBook)
      && (s.hasBook && BookSpine(s) == [] ==> r.attached && BookSpine(r) == s.spine)
      && (!(s.hasBook && BookSpine(s) == []) ==> r == s)
  {
  }

  /** The path write targets ends in ".epub", in any case, and lies in the
      output directory unless the name is absolute. */
  lemma WrittenPath(env: Env, s: BuilderState, outputDir: string, title: string, filename: Option<string>)
    requires s.hasBook
    ensures var path := Written(env, s, outputDir, title, filename).1.value;
      var name := EpubFileName(filename, title);
      && EndsWith(Lower(path), ".epub")
      && (!StartsWith(name, "/") ==> path == outputDir + "/" + name)
  {
    var name := EpubFileName(filename, title);
    var path := JoinPath(outputDir, name);
    LowerEndsWith(path, name);
    EndsWithTrans(Lower(path), Lower(name), ".epub");
  }

  // Page creation as written: _create_image_page hands ebooklib's
  // EpubHtml.add_item the string "style_default" where it expects an item,
  // and the AttributeError that raises is caught by add_image and by
  // set_cover. The Kobo override calls the base method first, so it raises
  // too. The functions above and the builder class model the intended
  // pages; the ones below model the code as written.

  /** add_image(path, chapterId) as written: the image is added to the book
      and to the builder's images, then making its page raises. */
  function WithImageAsWritten(env: Env, s: BuilderState, path: string, chapterId: string): BuilderState {
    if path !in env.files then s
    else
      var s1 := Booked(s);
      var pages := PagesOf(s1.chapters, chapterId);
      if path in env.unreadable then s1.(chapters := s1.chapters[chapterId := pages])
      else
        var image := Image(|s1.images|, chapterId, path);
        s1.(items := s1.items + [image], images := s1.images + [image],
            chapters := s1.chapters[chapterId := pages])
  }

  function WithImagesAsWritten(env: Env, s: BuilderState, paths: seq<string>, chapterId: string): BuilderState {
    if paths == [] then s
    else WithImageAsWritten(env, WithImagesAsWritten(env, s, paths[..|paths| - 1], chapterId), paths[|paths| - 1], chapterId)
  }

  /** add_chapter as written: the chapter stays empty, so no link is added. */
  function WithChapterAsWritten(env: Env, s: BuilderState, chapterId: string, title: string, paths: seq<string>): BuilderState {
    var s2 := WithImagesAsWritten(env, ChapterReset(s, chapterId), paths, chapterId);
    var pages := PagesOf(s2.chapters, chapterId);
    if pages != [] then s2.(toc := s2.toc + [Flat(Link(pages[0].FileName(), title, chapterId))]) else s2
  }

  /** set_cover as written: ebooklib's cover items, then making the cover
      page raises. */
  function WithCoverAsWritten(env: Env, s: BuilderState, path: string): BuilderState {
    if path !in env.files then s
    else
      var s1 := Booked(s.(coverImage := Some(path)));
      if path in env.unreadable then s1 else s1.(items := s1.items + env.libCoverItems)
  }

  /** create_from_images as written. */
  function FromImagesAsWritten(env: Env, title: string, outputDir: string, paths: seq<string>, cover: string, direction: string): (BuilderState, Result<string>) {
    var s0 := WithDirection(Initial(), direction);
    var s1 := if cover != "" then WithCoverAsWritten(env, s0, cover) else if paths != [] then WithCoverAsWritten(env, s0, paths[0]) else s0;
    var pages := if cover == "" && paths != [] then paths[1..] else paths;
    Written(env, WithImagesAsWritten(env, s1, pages, "default"), outputDir, title, None)
  }

  /** As written, a loadable image is recorded but gets no page: the spine,
      the chapter and the page count stay as they were, where the intended
      add_image appends a page to the spine. Any other path is handled as
      intended. */
  lemma ImagePageRaises(env: Env, s: BuilderState, path: string, chapterId: string)
    ensures !Loadable(env, path) ==> WithImageAsWritten(env, s, path, chapterId) == WithImage(env, s, path, chapterId)
    ensures Loadable(env, path) ==>
      var r := WithImageAsWritten(env, s, path, chapterId);
      var image := Image(|s.images|, chapterId, path);
      && r.hasBook && r.images == s.images + [image] && r.items == Booked(s).items + [image]
      && r.spine == s.spine && r.htmlCount == s.htmlCount
      && PagesOf(r.chapters, chapterId) == PagesOf(s.chapters, chapterId)
      && WithImage(env, s, path, chapterId).spine == s.spine + [Html(s.htmlCount, PageUid(chapterId, |PagesOf(s.chapters, chapterId)|))]
  {
  }

  /** As written, adding images records every loadable one, numbered over
      the builder, and leaves the spine, the toc and the chapter alone. */
  lemma {:induction false} WithImagesAsWrittenEffect(env: Env, s: BuilderState, paths: seq<string>, chapterId: string)
    ensures var r := WithImagesAsWritten(env, s, paths, chapterId);
      && r.images == s.images + ImageItems(|s.images|, chapterId, Present(env, paths))
      && r.spine == s.spine && r.htmlCount == s.htmlCount && r.toc == s.toc && r.coverImage == s.coverImage
      && PagesOf(r.chapters, chapterId) == PagesOf(s.chapters, chapterId)
  {
    if paths != [] {
      var init, p := paths[..|paths| - 1], paths[|paths| - 1];
      var mid := WithImagesAsWritten(env, s, init, chapterId);
      WithImagesAsWrittenEffect(env, s, init, chapterId);
      ImagePageRaises(env, mid, p, chapterId);
      PresentSnoc(env, paths);
      var before := Present(env, init);
      assert WithImagesAsWritten(env, s, paths, chapterId) == WithImageAsWritten(env, mid, p, chapterId);
      if Loadable(env, p) {
        ImageItemsSnoc(|s.images|, chapterId, before, p);
        assert Present(env, paths) == before + [p];
      } else {
        assert Present(env, paths) == before;
      }
    }
  }

  /** As written, add_chapter records the chapter's loadable images but
      leaves the chapter empty and adds no link, where the intended
      add_chapter links its first page whenever an image loaded. */
  lemma ChapterLinkMissing(env: Env, s: BuilderState, chapterId: string, title: string, paths: seq<string>)
    ensures var r := WithChapterAsWritten(env, s, chapterId, title, paths);
      && r.hasBook && PagesOf(r.chapters, chapterId) == []
      && r.toc == s.toc && r.spine == s.spine
      && r.images == s.images + ImageItems(|s.images|, chapterId, Present(env, paths))
    ensures Present(env, paths) != [] ==> |WithChapter(env, s, chapterId, title, paths).toc| == |s.toc| + 1
  {
    var s1 := ChapterReset(s, chapterId);
    WithImagesAsWrittenEffect(env, s1, paths, chapterId);
    WithImagesBookKept(env, s1, paths, chapterId);
    WithChapterEffect(env, s, chapterId, title, paths);
  }

  lemma {:induction false} WithImagesBookKept(env: Env, s: BuilderState, paths: seq<string>, chapterId: string)
    requires s.hasBook
    ensures WithImagesAsWritten(env, s, paths, chapterId).hasBook
  {
    if paths != [] {
      WithImagesBookKept(env, s, paths[..|paths| - 1], chapterId);
    }
  }

  /** As written, set_cover on a loadable path records the cover and adds
      ebooklib's cover items but no cover page, where the intended set_cover
      appends the page to the spine. Any other path is handled as intended. */
  lemma CoverPageRaises(env: Env, s: BuilderState, path: string)
    ensures !Loadable(env, path) ==> WithCoverAsWritten(env, s, path) == WithCover(env, s, path)
    ensures Loadable(env, path) ==>
      var r := WithCoverAsWritten(env, s, path);
      && r.hasBook && r.coverImage == Some(path)
      && r.items == Booked(s).items + env.libCoverItems
      && r.spine == s.spine && r.htmlCount == s.htmlCount
      && WithCover(env, s, path).spine == s.spine + [Html(s.htmlCount, "cover")]
  {
  }

  /** As written, create_from_images writes a book whose spine is empty:
      every image is recorded, none has a page, and neither has the cover. */
  lemma FromImagesNoPages(env: Env, title: string, outputDir: string, paths: seq<string>, cover: string, direction: string)
    ensures var (s, r) := FromImagesAsWritten(env, title, outputDir, paths, cover, direction);
      var pages := if cover == "" && paths != [] then paths[1..] else paths;
      && s.spine == [] && BookSpine(s) == []
      && s.images == ImageItems(0, "default", Present(env, pages))
      && (r.Err? <==> !s.hasBook)
  {
    var s0 := WithDirection(Initial(), direction);
    var s1 := if cover != "" then WithCoverAsWritten(env, s0, cover) else if paths != [] then WithCoverAsWritten(env, s0, paths[0]) else s0;
    var pages := if cover == "" && paths != [] then paths[1..] else paths;
    assert s1.images == [] && s1.spine == [];
    var s2 := WithImagesAsWritten(env, s1, pages, "default");
    WithImagesAsWrittenEffect(env, s1, pages, "default");
    WrittenOutcome(env, s2, outputDir, title, None);
    FinalizedAttaches(env, s2);
    assert FromImagesAsWritten(env, title, outputDir, paths, cover, direction) == Written(env, s2, outputDir, title, None);
  }

  class EpubBuilder {
    const title: string
    const outputDir: string
    const env: Env

    var hasBook: bool
    var items: seq<Item>
    var images: seq<Item>
    var chapters: map<string, seq<Item>>
    var spine: seq<Item>
    var toc: seq<TocEntry>
    var attached: bool
    var readingDirection: string
    var bookDirection: Option<string>
    var writingModeMetas: nat
    var coverImage: Option<string>
    var htmlCount: nat

    /** The builder's fields as a value. */
    function Current(): BuilderState
      reads this
    {
      BuilderState(hasBook, items, images, chapters, spine, toc, attached, readingDirection,
                   bookDirection, writingModeMetas, coverImage, htmlCount)
    }

    predicate Valid()
      reads this
    {
      ValidState(Current())
    }

    constructor(title: string, outputDir: string, env: Env)
      ensures Valid() && Current() == Initial()
      ensures this.title == title && this.outputDir == outputDir && this.env == env
    {
      this.title := title;
      this.outputDir := outputDir;
      this.env := env;
      hasBook := false;
      items := [];
      images := [];
      chapters := map[];
      spine := [];
      toc := [];
      attached := false;
      readingDirection := "rtl";
      bookDirection := None;
      writingModeMetas := 0;
      coverImage := None;
      htmlCount := 0;
    }

    /** _init_book: a new book holding the two stylesheets. */
    method InitBook()
      requires !hasBook
      modifies this
      ensures Current() == Booked(old(Current()))
    {
      hasBook := true;
      items := InitialItems();
      if readingDirection == "rtl" {
        bookDirection := Some("rtl");
        writingModeMetas := 1;
      } else {
        bookDirection := None;
        writingModeMetas := 0;
      }
    }

    method AddImage(path: string, chapterId: string)
      requires Valid()
      modifies this
      ensures Valid()
      ensures Current() == WithImage(env, old(Current()), path, chapterId)
    {
      WithImageValid(env, Current(), path, chapterId);
      if path !in env.files {
        return;
      }
      WithImagePrepared(env, Current(), path, chapterId);
      Prepare(chapterId);
      if path in env.unreadable {
        return;
      }
      AddLoadedImage(path, chapterId);
    }

    /** The start of add_image: a book, and the chapter. */
    method Prepare(chapterId: string)
      modifies this
      ensures Current() == Prepared(old(Current()), chapterId)
    {
      if !hasBook {
        InitBook();
      }
      if chapterId !in chapters {
        chapters := chapters[chapterId := []];
      }
    }

    /** The part of add_image after the file was read: the image, its page,
        and the page at the end of the chapter and of the spine. */
    method AddLoadedImage(path: string, chapterId: string)
      requires hasBook && chapterId in chapters && Loadable(env, path)
      modifies this
      ensures Current() == WithImage(env, old(Current()), path, chapterId)
    {
      var image := Image(|images|, chapterId, path);
      var page := Html(htmlCount, PageUid(chapterId, |chapters[chapterId]|));
      WithImageOnBook(env, Current(), path, chapterId, image, page);
      items := items + [image, page];
      images := images + [image];
      chapters := chapters[chapterId := chapters[chapterId] + [page]];
      spine := spine + [page];
      htmlCount := htmlCount + 1;
    }

    /** add_image for each path in turn. */
    method AddImages(paths: seq<string>, chapterId: string)
      requires Valid()
      modifies this
      ensures Valid()
      ensures Current() == WithImages(env, old(Current()), paths, chapterId)
    {
      var i := 0;
      while i < |paths|
        invariant 0 <= i <= |paths|
        invariant Valid()
        invariant Current() == WithImages(env, old(Current()), paths[..i], chapterId)
      {
        assert paths[..i + 1][..i] == paths[..i];
        AddImage(paths[i], chapterId);
        i := i + 1;
      }
      assert paths[..i] == paths;
    }

    method ResetChapter(chapterId: string)
      requires Valid()
      modifies this
      ensures Valid()
      ensures Current() == ChapterReset(old(Current()), chapterId)
    {
      if !hasBook {
        InitBook();
      }
      BookedValid(old(Current()));
      ChaptersPlacedReset(chapters, spine, chapterId, []);
      chapters := chapters[chapterId := []];
    }

    method AddChapter(chapterId: string, title: string, paths: seq<string>)
      requires Valid()
      modifies this
      ensures Valid()
      ensures Current() == WithChapter(env, old(Current()), chapterId, title, paths)
    {
      WithChapterValid(env, Current(), chapterId, title, paths);
      ResetChapter(chapterId);
      ghost var start := Current();
      AddImages(paths, chapterId);
      WithImagesAppend(env, start, paths, chapterId);
      AppendedSizes(start, Present(env, paths), chapterId);
      if chapters[chapterId] != [] {
        toc := toc + [Flat(Link(chapters[chapterId][0].FileName(), title, chapterId))];
      }
    }

    method SetCover(path: string)
      requires Valid()
      modifies this
      ensures Valid()
      ensures Current() == WithCover(env, old(Current()), path)
    {
      WithCoverValid(env, Current(), path);
      if path !in env.files {
        return;
      }
      coverImage := Some(path);
      if !hasBook {
        InitBook();
      }
      if path in env.unreadable {
        return;
      }
      AddCoverPage();
    }

    /** The part of set_cover after the file was read: ebooklib's cover
        items, then the cover page at the end of the spine. */
    method AddCoverPage()
      modifies this
      ensures var page := Html(old(htmlCount), "cover");
        Current() == old(Current()).(items := old(items) + env.libCoverItems + [page],
                                     spine := old(spine) + [page], htmlCount := old(htmlCount) + 1)
    {
      var page := Html(htmlCount, "cover");
      items := items + env.libCoverItems + [page];
      spine := spine + [page];
      htmlCount := htmlCount + 1;
    }

    method Finalize()
      requires Valid()
      modifies this
      ensures Valid()
      ensures Current() == Finalized(env, old(Current()))
    {
      FinalizedValid(env, Current());
      if !hasBook {
        InitBook();
      }
      attached := true;
      items := items + [env.ncxItem, env.navItem];
    }

    method SetReadingDirection(direction: string)
      requires Valid()
      modifies this
      ensures Valid()
      ensures Current() == WithDirection(old(Current()), direction)
    {
      WithDirectionValid(Current(), direction);
      var d := direction;
      if d != "rtl" && d != "ltr" {
        d := "rtl";
      }
      readingDirection := d;
      if hasBook {
        bookDirection := Some(d);
        if d == "rtl" {
          writingModeMetas := writingModeMetas + 1;
        } else if writingModeMetas > 0 {
          writingModeMetas := writingModeMetas - 1;
        }
      }
    }

    method Write(filename: Option<string>) returns (r: Result<string>)
      requires Valid()
      modifies this
      ensures Valid()
      ensures (Current(), r) == Written(env, old(Current()), outputDir, title, filename)
    {
      if !hasBook {
        return Err("AttributeError");
      }
      if !attached || spine == [] {
        Finalize();
      }
      var name := if filename.Some? then filename.value else Utils.SanitizeFilename(title) + ".epub";
      if !EndsWith(Lower(name), ".epub") {
        name := name + ".epub";
      }
      r := Ok(JoinPath(outputDir, name));
    }
  }

  method CreateFromImages(title: string, outputDir: string, paths: seq<string>, cover: string,
                          direction: string, env: Env)
    returns (b: EpubBuilder, r: Result<string>)
    ensures fresh(b) && b.Valid()
    ensures (b.Current(), r) == FromImages(env, title, outputDir, paths, cover, direction)
  {
    b := new EpubBuilder(title, outputDir, env);
    b.SetReadingDirection(direction);
    var pages := paths;
    if cover != "" {
      b.SetCover(cover);
    } else if paths != [] {
      b.SetCover(paths[0]);
      pages := paths[1..];
    }
    b.AddImages(pages, "default");
    r := b.Write(None);
  }
}
