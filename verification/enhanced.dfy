/*
 * Enhanced: EnhancedEPUBBuilder and EnhancedKepubBuilder
 * (mangabook/epub/enhanced_builder.py). The enhanced builder is an
 * EPUBBuilder with its own set_cover and its own writer: instead of calling
 * ebooklib's, write lays the book out in a temporary directory (the items,
 * the package document, the NCX and the navigation document) and zips it
 * with the mimetype entry first.
 *
 * The builder's state is the one of module Builder; an EnhancedEpubBuilder
 * holds an EpubBuilder and replaces set_cover and write.
 */
module Enhanced {
  import opened Text
  import Utils
  import Builder
  import Opf
  import Navigation
  import opened Container
  import Kobo

  // set_cover

  /** The items set_cover takes out of the book before adding its own. */
  predicate IsCoverItem(it: Builder.Item) {
    it.Id() == "cover" || it.Id() == "cover-img" || it.FileName() == "cover.xhtml"
  }

  /** book.items without the cover items, in their order. */
  function WithoutCoverItems(items: seq<Builder.Item>): (r: seq<Builder.Item>)
    ensures |r| <= |items|
  {
    if items == [] then []
    else
      var k := |items| - 1;
      WithoutCoverItems(items[..k]) + (if IsCoverItem(items[k]) then [] else [items[k]])
  }

  /** Exactly the items that are not cover items are kept. */
  lemma {:induction false} WithoutCoverItemsMembers(items: seq<Builder.Item>)
    ensures forall x :: x in WithoutCoverItems(items) <==> x in items && !IsCoverItem(x)
  {
    if items != [] {
      var k := |items| - 1;
      WithoutCoverItemsMembers(items[..k]);
      assert items == items[..k] + [items[k]];
    }
  }

  /** Path.suffix.lower() of the cover image. */
  function CoverExtension(path: string): string { Lower(Suffix(BaseName(path))) }

  /** The cover image item: id cover-img, property cover-image. Its media
      type is image/jpeg for .jpg and .jpeg and image/<suffix> otherwise,
      the rule of MediaTypeFor. */
  function CoverImageItem(path: string): Builder.Item {
    var ext := CoverExtension(path);
    Builder.Plain("cover-img", "images/cover" + ext, Builder.MediaTypeFor(ext), ["cover-image"])
  }

  /** The cover page, an XHTML document with uid "cover". */
  const CoverPage: Builder.Item := Builder.Plain("cover", "cover.xhtml", Builder.XhtmlType, [])

  /** EnhancedEPUBBuilder.set_cover(path). The new cover page is a new
      object, never already in the spine, so it always goes in front. */
  function WithCover(env: Builder.Env, s: Builder.BuilderState, path: string): Builder.BuilderState {
    if path !in env.files then s
    else
      var s1 := Builder.Booked(s.(coverImage := Some(path)));
      if path in env.unreadable then s1
      else s1.(items := WithoutCoverItems(s1.items) + [CoverImageItem(path), CoverPage],
               spine := [CoverPage] + s1.spine)
  }

  lemma WithCoverValid(env: Builder.Env, s: Builder.BuilderState, path: string)
    requires Builder.ValidState(s)
    ensures Builder.ValidState(WithCover(env, s, path))
  {
    Builder.BookedValid(s.(coverImage := Some(path)));
    if Builder.Loadable(env, path) {
      var s1 := Builder.Booked(s.(coverImage := Some(path)));
      forall c, k | c in s1.chapters && 0 <= k < |s1.chapters[c]| ensures s1.chapters[c][k] in [CoverPage] + s1.spine {
        assert s1.chapters[c][k] in s1.spine;
      }
      Builder.FileNamesGrow([CoverPage], s1.spine);
    }
  }

  /** A missing image changes nothing. A readable one leaves the book with
      every item that is not a cover item, then exactly one cover-img item
      (property cover-image) and the cover page, and puts the cover page in
      front of the spine; images, chapters and toc are untouched. */
  lemma WithCoverEffect(env: Builder.Env, s: Builder.BuilderState, path: string)
    ensures path !in env.files ==> WithCover(env, s, path) == s
    ensures path in env.files ==> WithCover(env, s, path).coverImage == Some(path) && WithCover(env, s, path).hasBook
    ensures Builder.Loadable(env, path) ==>
      var s1 := Builder.Booked(s);
      var r := WithCover(env, s, path);
      && |r.items| >= 2
      && r.items[|r.items| - 2] == CoverImageItem(path) && r.items[|r.items| - 2].properties == ["cover-image"]
      && r.items[|r.items| - 1] == CoverPage
      && (forall i :: 0 <= i < |r.items| - 2 ==> !IsCoverItem(r.items[i]))
      && (forall i :: 0 <= i < |r.items| && r.items[i].Id() == "cover-img" ==> i == |r.items| - 2)
      && (forall x :: x in s1.items && !IsCoverItem(x) ==> x in r.items)
      && r.spine == [CoverPage] + s1.spine
      && r.images == s1.images && r.chapters == s1.chapters && r.toc == s1.toc
  {
    if Builder.Loadable(env, path) {
      var s1 := Builder.Booked(s);
      var kept := WithoutCoverItems(s1.items);
      WithoutCoverItemsMembers(s1.items);
      var r := WithCover(env, s, path);
      assert r.items == kept + [CoverImageItem(path), CoverPage];
      forall i | 0 <= i < |r.items| - 2 ensures !IsCoverItem(r.items[i]) {
        assert r.items[i] == kept[i];
        assert kept[i] in kept;
      }
    }
  }

  /** set_cover twice: the book holds one cover page, but the spine starts
      with two, since the first is taken out of the book and not out of the
      spine. */
  lemma WithCoverTwice(env: Builder.Env, s: Builder.BuilderState, p: string, q: string)
    requires Builder.Loadable(env, p) && Builder.Loadable(env, q)
    ensures var r := WithCover(env, WithCover(env, s, p), q);
      && |r.spine| >= 2 && r.spine[0] == CoverPage && r.spine[1] == CoverPage
      && r.items[|r.items| - 1] == CoverPage
      && forall i :: 0 <= i < |r.items| - 1 ==> r.items[i] != CoverPage
  {
    var s1 := WithCover(env, s, p);
    WithCoverEffect(env, s, p);
    WithCoverEffect(env, s1, q);
    assert Builder.Booked(s1) == s1;
    var r := WithCover(env, s1, q);
    assert r.spine == [CoverPage] + ([CoverPage] + Builder.Booked(s).spine);
    assert IsCoverItem(CoverPage);
    assert r.items[|r.items| - 2] != CoverPage;
  }

  // _fix_xhtml_references

  /** An attribute name="value" of a start tag. */
  datatype Attribute = Attribute(name: string, value: string)

  /** A piece of an XHTML file: character data, the declaration
      "<!DOCTYPE html>", or a start tag written "<name attrs>", or
      "<name attrs />" when it is self-closing. */
  datatype Piece = Chars(s: string) | Doctype | StartTag(name: string, attrs: seq<Attribute>, selfClosing: bool)

  /** The namespace the fix gives a bare <html> tag. */
  const XhtmlNamespace := "http://www.w3.org/1999/xhtml"

  /** A start tag written exactly "<html>". */
  const BareHtml := StartTag("html", [], false)

  /** The same tag with the XHTML namespace declared. */
  const NamespacedHtml := StartTag("html", [Attribute("xmlns", XhtmlNamespace)], false)

  /** re.sub(r"\s+", "_", v): each run of whitespace becomes one '_'. */
  function IdValue(v: string): string { ReplaceChar(Utils.CollapseSpace(v), ' ', '_') }

  /** The attribute substitutions: the patterns href="...", src="..." and
      id="..." also match at the end of a longer attribute name. */
  function FixAttribute(a: Attribute): Attribute {
    if EndsWith(a.name, "href") || EndsWith(a.name, "src") then a.(value := Opf.Underscored(a.value))
    else if EndsWith(a.name, "id") then a.(value := IdValue(a.value))
    else a
  }

  function FixAttributes(attrs: seq<Attribute>): (r: seq<Attribute>)
    ensures |r| == |attrs| && forall i :: 0 <= i < |attrs| ==> r[i] == FixAttribute(attrs[i])
  {
    seq(|attrs|, i requires 0 <= i < |attrs| => FixAttribute(attrs[i]))
  }

  /** The attribute substitutions on one piece. */
  function FixPieceAttributes(p: Piece): Piece {
    match p
    case StartTag(name, attrs, sc) => StartTag(name, FixAttributes(attrs), sc)
    case _ => p
  }

  /** The content after the three attribute substitutions. */
  function AttributesFixed(doc: seq<Piece>): (r: seq<Piece>)
    ensures |r| == |doc| && forall i :: 0 <= i < |doc| ==> r[i] == FixPieceAttributes(doc[i])
  {
    seq(|doc|, i requires 0 <= i < |doc| => FixPieceAttributes(doc[i]))
  }

  /** "xmlns" occurs in the piece: in its character data, its tag name, or
      an attribute's name or value. */
  predicate MentionsXmlns(p: Piece) {
    match p
    case Chars(s) => Contains(s, "xmlns")
    case Doctype => false
    case StartTag(name, attrs, _) =>
      Contains(name, "xmlns") || exists a :: a in attrs && (Contains(a.name, "xmlns") || Contains(a.value, "xmlns"))
  }

  /** The namespace fix applies: the content holds "<!DOCTYPE html>" and
      nowhere "xmlns". */
  predicate NeedsNamespace(doc: seq<Piece>) {
    Doctype in doc && forall p :: p in doc ==> !MentionsXmlns(p)
  }

  /** content.replace("<html>", '<html xmlns="...">') on one piece, when the
      namespace fix applies. */
  function WithNamespace(p: Piece, ns: bool): Piece {
    if ns && p == BareHtml then NamespacedHtml else p
  }

  /** The tag name begins with one of the alternatives of <(img|br|hr). */
  function VoidPrefix(name: string): Option<string> {
    if StartsWith(name, "img") then Some("img")
    else if StartsWith(name, "br") then Some("br")
    else if StartsWith(name, "hr") then Some("hr")
    else None
  }

  /** re.sub(r'<(img|br|hr)([^>]*[^/])>', r'<\1\2 />') on one start tag, as
      written: the text between the matched name and '>' must be at least one
      character, so a bare <br> or <hr> is left open. */
  function CloseTagAsWritten(name: string, attrs: seq<Attribute>, selfClosing: bool): bool {
    selfClosing || (VoidPrefix(name).Some? && (|name| > |VoidPrefix(name).value| || attrs != []))
  }

  /** The rule with the empty case included: every img, br and hr start tag
      is closed. */
  function CloseTag(name: string, attrs: seq<Attribute>, selfClosing: bool): bool {
    selfClosing || VoidPrefix(name).Some?
  }

  function ClosePieceAsWritten(p: Piece): Piece {
    match p
    case StartTag(name, attrs, sc) => StartTag(name, attrs, CloseTagAsWritten(name, attrs, sc))
    case _ => p
  }

  function ClosePiece(p: Piece): Piece {
    match p
    case StartTag(name, attrs, sc) => StartTag(name, attrs, CloseTag(name, attrs, sc))
    case _ => p
  }

  /** _fix_xhtml_references as written: the attribute substitutions, then
      the namespace fix, decided on the substituted content, then the
      self-closing rewrite. */
  function FixReferencesAsWritten(doc: seq<Piece>): (r: seq<Piece>)
    ensures |r| == |doc|
    ensures forall i :: 0 <= i < |doc| ==>
      r[i] == ClosePieceAsWritten(WithNamespace(FixPieceAttributes(doc[i]), NeedsNamespace(AttributesFixed(doc))))
  {
    var fixed := AttributesFixed(doc);
    var ns := NeedsNamespace(fixed);
    seq(|doc|, i requires 0 <= i < |doc| => ClosePieceAsWritten(WithNamespace(fixed[i], ns)))
  }

  /** _fix_xhtml_references with every void tag closed. */
  function FixReferences(doc: seq<Piece>): (r: seq<Piece>)
    ensures |r| == |doc|
    ensures forall i :: 0 <= i < |doc| ==>
      r[i] == ClosePiece(WithNamespace(FixPieceAttributes(doc[i]), NeedsNamespace(AttributesFixed(doc))))
  {
    var fixed := AttributesFixed(doc);
    var ns := NeedsNamespace(fixed);
    seq(|doc|, i requires 0 <= i < |doc| => ClosePiece(WithNamespace(fixed[i], ns)))
  }

  /** As written, <br> stays an unclosed start tag, which XHTML rejects;
      <br class="x"> is closed. */
  lemma BareBreakStaysOpen()
    ensures FixReferencesAsWritten([StartTag("br", [], false)]) == [StartTag("br", [], false)]
    ensures FixReferencesAsWritten([StartTag("br", [Attribute("class", "x")], false)])[0].selfClosing
  {
    assert VoidPrefix("br") == Some("br");
  }

  lemma CollapseSpaceNoSpace(s: string)
    requires forall i :: 0 <= i < |s| ==> !IsSpace(s[i])
    ensures Utils.CollapseSpace(s) == s
    decreases |s|
  {
    if s != [] {
      CollapseSpaceNoSpace(s[1..]);
    }
  }

  /** An id value after the fix has no whitespace and is left alone by a
      second fix. */
  lemma IdValueProperties(v: string)
    ensures forall i :: 0 <= i < |IdValue(v)| ==> !IsSpace(IdValue(v)[i])
    ensures IdValue(IdValue(v)) == IdValue(v)
  {
    var c := Utils.CollapseSpace(v);
    var r := ReplaceChar(c, ' ', '_');
    forall i | 0 <= i < |r|
      ensures !IsSpace(r[i])
    {
      if IsSpace(c[i]) {
        assert c[i] == ' ';
      }
    }
    CollapseSpaceNoSpace(r);
    assert ' ' !in r;
    ReplaceAbsent(r, ' ', '_');
  }

  lemma ReplaceAbsent(s: string, a: char, b: char)
    requires a !in s
    ensures ReplaceChar(s, a, b) == s
  {
    forall i | 0 <= i < |s|
      ensures s[i] != a
    {
      assert s[i] in s;
    }
  }

  lemma FixAttributeProperties(a: Attribute)
    ensures FixAttribute(a).name == a.name
    ensures EndsWith(a.name, "href") || EndsWith(a.name, "src") ==> ' ' !in FixAttribute(a).value
    ensures EndsWith(a.name, "id") ==> forall i :: 0 <= i < |FixAttribute(a).value| ==> !IsSpace(FixAttribute(a).value[i])
    ensures FixAttribute(FixAttribute(a)) == FixAttribute(a)
  {
    IdValueProperties(a.value);
    Opf.UnderscoredIdempotent(a.value);
    if EndsWith(a.name, "id") {
      assert !EndsWith(a.name, "href") && !EndsWith(a.name, "src") by {
        assert a.name[|a.name| - 1] == 'd';
      }
    }
  }

  /** The namespace attribute is left alone by the substitutions, and a tag
      carrying it mentions "xmlns". */
  lemma NamespaceAttributeFixed()
    ensures FixAttribute(Attribute("xmlns", XhtmlNamespace)) == Attribute("xmlns", XhtmlNamespace)
    ensures FixPieceAttributes(NamespacedHtml) == NamespacedHtml
    ensures MentionsXmlns(NamespacedHtml)
  {
    var x := "xmlns";
    assert x[|x| - 1] == 's';
    assert !EndsWith(x, "href") && !EndsWith(x, "src") && !EndsWith(x, "id");
    assert FixAttributes(NamespacedHtml.attrs) == NamespacedHtml.attrs;
    assert StartsWith(x, x);
    assert Attribute("xmlns", XhtmlNamespace) in NamespacedHtml.attrs;
  }

  lemma FixPieceAttributesIdempotent(p: Piece)
    ensures FixPieceAttributes(FixPieceAttributes(p)) == FixPieceAttributes(p)
  {
    if p.StartTag? {
      forall j | 0 <= j < |p.attrs|
        ensures FixAttribute(FixAttribute(p.attrs[j])) == FixAttribute(p.attrs[j])
      {
        FixAttributeProperties(p.attrs[j]);
      }
      assert FixAttributes(FixAttributes(p.attrs)) == FixAttributes(p.attrs);
    }
  }

  /** Closing a tag keeps what it mentions, and closing twice is closing
      once; <html> is not a void tag. */
  lemma ClosePieceProperties(p: Piece)
    ensures MentionsXmlns(ClosePiece(p)) == MentionsXmlns(p)
    ensures ClosePiece(p).Doctype? == p.Doctype?
    ensures ClosePiece(ClosePiece(p)) == ClosePiece(p)
    ensures ClosePiece(p) == BareHtml ==> p == BareHtml
    ensures ClosePiece(BareHtml) == BareHtml && ClosePiece(NamespacedHtml) == NamespacedHtml
  {
    var h := "html";
    assert h[1] == 't' && h[0] == 'h';
    assert VoidPrefix(h) == None;
  }

  /** Piece i of the fixed document. */
  lemma FixedPieceAt(doc: seq<Piece>, i: int)
    requires 0 <= i < |doc|
    ensures var f := AttributesFixed(doc);
      FixReferences(doc)[i]
        == if NeedsNamespace(f) && f[i] == BareHtml then NamespacedHtml else ClosePiece(f[i])
  {
    ClosePieceProperties(BareHtml);
  }

  /** The pieces of a fixed document are already substituted. */
  lemma FixedAttributesFixed(doc: seq<Piece>)
    ensures AttributesFixed(FixReferences(doc)) == FixReferences(doc)
  {
    var r := FixReferences(doc);
    var f := AttributesFixed(doc);
    NamespaceAttributeFixed();
    forall i | 0 <= i < |r|
      ensures FixPieceAttributes(r[i]) == r[i]
    {
      FixedPieceAt(doc, i);
      FixPieceAttributesIdempotent(doc[i]);
    }
  }

  /** The namespace fix finds no bare <html> left in a fixed document, or
      does not apply to it. */
  lemma {:induction false} NoNamespaceAgain(doc: seq<Piece>)
    ensures var r := FixReferences(doc);
      !NeedsNamespace(r) || forall i :: 0 <= i < |r| ==> r[i] != BareHtml
  {
    var f := AttributesFixed(doc);
    var r := FixReferences(doc);
    if NeedsNamespace(f) {
      forall i | 0 <= i < |r|
        ensures r[i] != BareHtml
      {
        FixedPieceAt(doc, i);
        ClosePieceProperties(f[i]);
      }
    } else if Doctype !in f {
      forall i | 0 <= i < |r|
        ensures r[i] != Doctype
      {
        FixedPieceAt(doc, i);
        ClosePieceProperties(f[i]);
      }
    } else {
      var p :| p in f && MentionsXmlns(p);
      var k :| 0 <= k < |f| && f[k] == p;
      FixedPieceAt(doc, k);
      ClosePieceProperties(p);
      assert r[k] in r;
    }
  }

  /** A fixed document is left alone by a second fix: its pieces are
      already substituted and closed, and the namespace fix either already
      happened (so "xmlns" now occurs), or did not apply and still does
      not. */
  lemma {:induction false} FixReferencesIdempotent(doc: seq<Piece>)
    ensures FixReferences(FixReferences(doc)) == FixReferences(doc)
  {
    var r := FixReferences(doc);
    FixedAttributesFixed(doc);
    NoNamespaceAgain(doc);
    var ns2 := NeedsNamespace(r);
    forall i | 0 <= i < |r|
      ensures FixReferences(r)[i] == r[i]
    {
      FixedPieceAt(r, i);
      FixedPieceAt(doc, i);
      ClosePieceProperties(AttributesFixed(doc)[i]);
    }
  }

  /** After the fix no href or src value has a space, no id value has
      whitespace, every img, br and hr start tag is self-closing, character
      data, the doctype and tag names are untouched, a bare <html> gains the
      XHTML namespace exactly when the substituted content has the doctype
      and no "xmlns", and fixing again changes nothing. */
  lemma FixReferencesProperties(doc: seq<Piece>)
    ensures var r := FixReferences(doc);
      && (forall i :: 0 <= i < |doc| ==> !doc[i].StartTag? ==> r[i] == doc[i])
      && (forall i :: 0 <= i < |doc| ==> doc[i] == BareHtml ==>
            r[i] == if NeedsNamespace(AttributesFixed(doc)) then NamespacedHtml else BareHtml)
      && (forall i :: 0 <= i < |doc| ==> doc[i].StartTag? && doc[i] != BareHtml ==>
            && r[i].StartTag? && r[i].name == doc[i].name && |r[i].attrs| == |doc[i].attrs|
            && (VoidPrefix(doc[i].name).Some? ==> r[i].selfClosing)
            && (doc[i].selfClosing ==> r[i].selfClosing)
            && forall j :: 0 <= j < |r[i].attrs| ==>
                 && r[i].attrs[j].name == doc[i].attrs[j].name
                 && (EndsWith(r[i].attrs[j].name, "href") || EndsWith(r[i].attrs[j].name, "src") ==> ' ' !in r[i].attrs[j].value)
                 && (EndsWith(r[i].attrs[j].name, "id") ==> forall k :: 0 <= k < |r[i].attrs[j].value| ==> !IsSpace(r[i].attrs[j].value[k])))
      && FixReferences(r) == r
  {
    var r := FixReferences(doc);
    var ns := NeedsNamespace(AttributesFixed(doc));
    forall i | 0 <= i < |doc| && doc[i].StartTag? && doc[i] != BareHtml
      ensures r[i] == ClosePiece(FixPieceAttributes(doc[i]))
    {
      if FixPieceAttributes(doc[i]) == BareHtml {
        assert doc[i].attrs == [];
      }
    }
    forall i, j | 0 <= i < |doc| && doc[i].StartTag? && doc[i] != BareHtml && 0 <= j < |doc[i].attrs|
      ensures var a := r[i].attrs[j];
        && a.name == doc[i].attrs[j].name
        && (EndsWith(a.name, "href") || EndsWith(a.name, "src") ==> ' ' !in a.value)
        && (EndsWith(a.name, "id") ==> forall k :: 0 <= k < |a.value| ==> !IsSpace(a.value[k]))
    {
      FixAttributeProperties(doc[i].attrs[j]);
    }
    forall i | 0 <= i < |doc| && doc[i] == BareHtml
      ensures r[i] == if ns then NamespacedHtml else BareHtml
    {
      assert FixPieceAttributes(doc[i]) == BareHtml;
      FixedPieceAt(doc, i);
      ClosePieceProperties(BareHtml);
    }
    FixReferencesIdempotent(doc);
  }

  // The ZIP container.

  /** The files in the temporary directory, as paths relative to it: the
      mimetype, the container, every item under OEBPS/ (the extraction
      creates the file even for a cover image it does not fill), and the
      three documents written after the items. */
  function PackageFiles(items: seq<Opf.Rec>): set<string> {
    {"mimetype", "META-INF/container.xml", "OEBPS/content.opf", "OEBPS/toc.ncx", "OEBPS/nav.xhtml"}
      + (set r | r in items :: "OEBPS/" + Opf.Underscored(r.fileName))
  }

  /** The entries the walk adds: every file but the root mimetype, deflated. */
  function WalkEntries(listing: seq<string>): (r: seq<ZipEntry>)
    ensures |r| <= |listing|
  {
    if listing == [] then []
    else
      var k := |listing| - 1;
      WalkEntries(listing[..k]) + (if listing[k] == "mimetype" then [] else [ZipEntry(listing[k], Deflated)])
  }

  /** The archive: the mimetype first and stored, then the walk. */
  function ZipOf(listing: seq<string>): seq<ZipEntry> {
    [ZipEntry("mimetype", Stored)] + WalkEntries(listing)
  }

  /** The ZIP loop of write. */
  method WriteZip(listing: seq<string>) returns (entries: seq<ZipEntry>)
    ensures entries == ZipOf(listing)
  {
    entries := [ZipEntry("mimetype", Stored)];
    var i := 0;
    while i < |listing|
      invariant 0 <= i <= |listing|
      invariant entries == [ZipEntry("mimetype", Stored)] + WalkEntries(listing[..i])
    {
      assert listing[..i + 1][..i] == listing[..i];
      if listing[i] != "mimetype" {
        entries := entries + [ZipEntry(listing[i], Deflated)];
      }
      i := i + 1;
    }
    assert listing[..i] == listing;
  }

  lemma {:induction false} WalkEntriesProperties(listing: seq<string>)
    requires forall i, j :: 0 <= i < j < |listing| ==> listing[i] != listing[j]
    ensures forall e :: e in WalkEntries(listing) ==> e.compression == Deflated && e.name != "mimetype" && e.name in listing
    ensures forall f :: f in listing && f != "mimetype" ==> ZipEntry(f, Deflated) in WalkEntries(listing)
    ensures forall i, j :: 0 <= i < j < |WalkEntries(listing)| ==> WalkEntries(listing)[i].name != WalkEntries(listing)[j].name
  {
    if listing != [] {
      var k := |listing| - 1;
      var init := listing[..k];
      WalkEntriesProperties(init);
      assert listing == init + [listing[k]];
      var w := WalkEntries(listing);
      var w0 := WalkEntries(init);
      if listing[k] != "mimetype" {
        assert listing[k] !in init;
        forall i, j | 0 <= i < j < |w| ensures w[i].name != w[j].name {
          if j == |w0| {
            assert w[i] in w0;
          }
        }
      }
    }
  }

  /** The first entry is the mimetype, stored; the mimetype is not added a
      second time; every other file of the directory is in the archive once,
      deflated; and the archive holds nothing else. */
  lemma ZipProperties(listing: seq<string>, files: set<string>)
    requires IsListing(listing, files) && "mimetype" in files
    ensures var z := ZipOf(listing);
      && z[0] == ZipEntry("mimetype", Stored)
      && (forall i :: 1 <= i < |z| ==> z[i].name != "mimetype" && z[i].compression == Deflated)
      && (forall f :: f in files ==> exists i :: 0 <= i < |z| && z[i].name == f)
      && (forall i :: 0 <= i < |z| ==> z[i].name in files)
      && (forall i, j :: 0 <= i < j < |z| ==> z[i].name != z[j].name)
  {
    WalkEntriesProperties(listing);
    var z := ZipOf(listing);
    var w := WalkEntries(listing);
    forall i | 1 <= i < |z| ensures z[i].name != "mimetype" && z[i].compression == Deflated && z[i].name in files {
      assert z[i] == w[i - 1];
      assert w[i - 1] in w;
    }
    forall f | f in files ensures exists i :: 0 <= i < |z| && z[i].name == f {
      if f != "mimetype" {
        var i :| 0 <= i < |w| && w[i] == ZipEntry(f, Deflated);
        assert z[i + 1].name == f;
      } else {
        assert z[0].name == f;
      }
    }
  }

  // write

  /** What the writer produces: the manifest entries and the spine itemrefs
      of content.opf, the navPoints of toc.ncx, the toc nav of nav.xhtml and
      the entries of the archive. */
  datatype Package = Package(
    manifest: seq<Opf.Entry>,
    spine: seq<string>,
    navPoints: seq<Navigation.NavPoint>,
    nav: Navigation.NavDoc,
    zip: seq<ZipEntry>)

  /** How write ends: a ValueError, the path of a file it left as it was, or
      the path of the file it wrote. */
  datatype Outcome = ValueError(message: string) | Kept(path: string) | Wrote(path: string, package: Package)

  /** The items as a write leaves them: file names without spaces, ids clean. */
  function Rewritten(items: seq<Opf.Rec>): (r: seq<Opf.Rec>)
    ensures |r| == |items|
  {
    Opf.CleanedAll(Opf.FixedAll(Opf.ExtractedAll(items)))
  }

  /** The manifest entries of content.opf, from the book's items. */
  function ManifestOf(items: seq<Opf.Rec>): seq<Opf.Entry> {
    var extracted := Opf.ExtractedAll(items);
    var m := Opf.Manifest(extracted);
    Opf.NavMarked(m, Opf.FixedAll(extracted), Opf.HasNavProperty(m))
  }

  /** The spine itemrefs of content.opf. */
  function SpineOf(items: seq<Opf.Rec>, spine: seq<Opf.Rec>): seq<string> {
    Opf.SpineRefs(spine, Opf.ValidIds(Opf.FixedAll(Opf.ExtractedAll(items))))
  }

  /** The toc nav of nav.xhtml, written after the NCX and after the items'
      ids were cleaned. */
  function NavOf(items: seq<Opf.Rec>, toc: seq<Builder.TocEntry>): Navigation.NavDoc {
    Navigation.NavDocument(Navigation.UnderscoreToc(toc), Navigation.FileNamesOf(Rewritten(items)))
  }

  /** The package for the book's items, spine and toc, when the walk lists
      the directory in the given order. */
  function PackageOf(items: seq<Opf.Rec>, spine: seq<Opf.Rec>, toc: seq<Builder.TocEntry>, listing: seq<string>): Package {
    Package(ManifestOf(items), SpineOf(items, spine), Navigation.NcxPoints(toc), NavOf(items, toc), ZipOf(listing))
  }

  /** The name of the file write creates: the ".epub" name of the parent's
      rule, reduced to its last component when it holds a separator. */
  function TargetName(filename: Option<string>, title: string): (r: string)
    ensures '/' !in r && EndsWith(Builder.EpubFileName(filename, title), r)
  {
    var name := Builder.EpubFileName(filename, title);
    if '/' in name then BaseName(name) else (assert EndsWith(name, name); name)
  }

  /** EnhancedEPUBBuilder.write(filename, force_overwrite): the new builder
      state and the outcome. It raises ValueError exactly when there are no
      images and no book, or when the spine is still empty after finalize;
      it keeps an existing file unless forced, and otherwise writes
      "<dir>/<name>". */
  function Written(env: Builder.Env, s: Builder.BuilderState, outputDir: string, title: string,
                   filename: Option<string>, force: bool, listing: seq<string>): (r: (Builder.BuilderState, Outcome))
    requires Builder.ValidState(s)
    ensures r.1.ValueError? <==> (s.images == [] && !s.hasBook) || Builder.BookSpine(r.0) == []
    ensures !r.1.ValueError? ==> r.0.attached && r.0.spine != [] && r.0.hasBook
    ensures r.1.Kept? ==> r.1.path == Builder.JoinPath(outputDir, TargetName(filename, title)) && r.1.path in env.files && !force
    ensures r.1.Wrote? ==> r.1.path == Builder.JoinPath(outputDir, TargetName(filename, title)) && (force || r.1.path !in env.files)
  {
    if s.images == [] && !s.hasBook then (s, ValueError("No content to write to EPUB"))
    else
      var s1 := if !s.hasBook || Builder.BookSpine(s) == [] then Builder.Finalized(env, s) else s;
      if Builder.BookSpine(s1) == [] then (s1, ValueError("No spine items in EPUB"))
      else
        var path := Builder.JoinPath(outputDir, TargetName(filename, title));
        if path in env.files && !force then (s1, Kept(path))
        else (s1, Wrote(path, PackageOf(Opf.RecsOf(s1.items), Opf.RecsOf(s1.spine), s1.toc, listing)))
  }

  /** A book whose spine is empty, as every book is when no page could be
      made (see Builder.ImagePageRaises) and the enhanced cover was not set,
      is not written: write raises ValueError. */
  lemma EmptySpineRaises(env: Builder.Env, s: Builder.BuilderState, outputDir: string, title: string,
                         filename: Option<string>, force: bool, listing: seq<string>)
    requires Builder.ValidState(s) && s.spine == []
    ensures Written(env, s, outputDir, title, filename, force, listing).1
      == ValueError(if s.images == [] && !s.hasBook then "No content to write to EPUB" else "No spine items in EPUB")
  {
  }

  lemma {:induction false} BaseNameTail(p: string, k: nat)
    requires k <= |p| && forall i :: |p| - k <= i < |p| ==> p[i] != '/'
    ensures |BaseName(p)| >= k
  {
    if k > 0 {
      BaseNameTail(p[..|p| - 1], k - 1);
    }
  }

  /** Of two suffixes of a string, the shorter is a suffix of the longer. */
  lemma EndsWithShorter(a: string, b: string, c: string)
    requires EndsWith(a, b) && EndsWith(a, c) && |c| <= |b|
    ensures EndsWith(b, c)
  {
    assert a[|a| - |b|..][|b| - |c|..] == a[|a| - |c|..];
  }

  /** The last component of a name ending in x, in any case, ends in x
      when x holds no separator. */
  lemma BaseNameSuffix(full: string, x: string)
    requires EndsWith(Lower(full), x) && '/' !in x
    ensures EndsWith(Lower(BaseName(full)), x)
  {
    var lf := Lower(full);
    forall i | |full| - |x| <= i < |full| ensures full[i] != '/' {
      assert lf[i] == x[i - (|full| - |x|)];
    }
    BaseNameTail(full, |x|);
    LowerEndsWith(full, BaseName(full));
    EndsWithShorter(lf, Lower(BaseName(full)), x);
  }

  /** A suffix without separator of the ".epub" name, in any case, is
      one of the target name. */
  lemma TargetNameSuffix(filename: Option<string>, title: string, x: string)
    requires EndsWith(Lower(Builder.EpubFileName(filename, title)), x) && '/' !in x
    ensures EndsWith(Lower(TargetName(filename, title)), x)
  {
    var full := Builder.EpubFileName(filename, title);
    if '/' in full {
      BaseNameSuffix(full, x);
    }
  }

  /** The target name ends in ".epub", in any case. */
  lemma TargetNameEpub(filename: Option<string>, title: string)
    ensures EndsWith(Lower(TargetName(filename, title)), ".epub")
  {
    var x := ".epub";
    assert '/' !in x;
    TargetNameSuffix(filename, title, x);
  }

  // What a written package promises.

  /** The manifest: distinct hrefs, each the space-free name of an item,
      and ids made of [a-zA-Z0-9-_.] only. */
  lemma ManifestOfProperties(items: seq<Opf.Rec>)
    ensures var m := ManifestOf(items);
      && (forall i, j :: 0 <= i < j < |m| ==> m[i].href != m[j].href)
      && (forall e :: e in m ==> All(e.id, Opf.IdChar) && ' ' !in e.href && e.href in Opf.Names(items))
  {
    var ex := Opf.ExtractedAll(items);
    var m0 := Opf.Manifest(ex);
    var m := ManifestOf(items);
    Opf.ManifestFileNames(ex);
    Opf.ManifestIdsClean(ex);
    ManifestOfMarks(items);
    Opf.NamesExtracted(items);
    forall e | e in m ensures All(e.id, Opf.IdChar) && ' ' !in e.href && e.href in Opf.Names(items) {
      var k :| 0 <= k < |m| && m[k] == e;
      assert m0[k] in m0;
      var r :| r in ex && m0[k].href == Opf.Underscored(r.fileName);
    }
  }

  /** Every item of the book has a manifest entry for its file name. */
  lemma ManifestOfComplete(items: seq<Opf.Rec>)
    ensures forall r :: r in items ==> exists e :: e in ManifestOf(items) && e.href == Opf.Underscored(r.fileName)
  {
    var ex := Opf.ExtractedAll(items);
    var m0 := Opf.Manifest(ex);
    var m := ManifestOf(items);
    Opf.ManifestFileNames(ex);
    ManifestOfMarks(items);
    Opf.NamesExtracted(items);
    forall r | r in items ensures exists e :: e in m && e.href == Opf.Underscored(r.fileName) {
      assert Opf.Underscored(r.fileName) in Opf.Names(items);
      var e0 :| e0 in m0 && e0.href == Opf.Underscored(r.fileName);
      var k :| 0 <= k < |m0| && m0[k] == e0;
      assert m[k] in m;
    }
  }

  /** The manifest is the one the manifest loop builds, with the nav
      marks added. */
  lemma ManifestOfMarks(items: seq<Opf.Rec>)
    ensures var m0 := Opf.Manifest(Opf.ExtractedAll(items));
      |ManifestOf(items)| == |m0| &&
      forall k :: 0 <= k < |m0| ==> ManifestOf(items)[k].id == m0[k].id && ManifestOf(items)[k].href == m0[k].href
  {
    var ex := Opf.ExtractedAll(items);
    var m0 := Opf.Manifest(ex);
    Opf.NavMarkedKeeps(m0, Opf.FixedAll(ex), Opf.HasNavProperty(m0));
  }

  /** The spine: every itemref is the clean id of one of the book's items,
      every spine item whose clean id is one is referred to, and when every
      spine item is a book item the spine is written whole and in order. */
  lemma SpineOfProperties(items: seq<Opf.Rec>, spine: seq<Opf.Rec>)
    ensures var refs := SpineOf(items, spine);
      && (forall x :: x in refs ==> exists r :: r in items && x == Opf.CleanId(r.id))
      && (forall r :: r in spine && Opf.CleanId(r.id) in Opf.ValidIds(items) ==> Opf.CleanId(r.id) in refs)
      && ((forall r :: r in spine ==> r in items) ==>
            refs == seq(|spine|, i requires 0 <= i < |spine| => Opf.CleanId(spine[i].id)))
  {
    var valid := Opf.ValidIds(items);
    Opf.ValidIdsAfterManifest(items);
    Opf.SpineRefsProperties(spine, valid);
    if forall r :: r in spine ==> r in items {
      Opf.SpineRefsAllValid(spine, valid);
    }
  }

  /** The archive of a package whose directory the walk lists: the mimetype
      first and stored, then every item file once, deflated. */
  lemma PackageZip(items: seq<Opf.Rec>, listing: seq<string>)
    requires IsListing(listing, PackageFiles(items))
    ensures var z := ZipOf(listing);
      && z[0] == ZipEntry("mimetype", Stored)
      && (forall i :: 1 <= i < |z| ==> z[i].name != "mimetype" && z[i].compression == Deflated)
      && (forall r :: r in items ==> exists i :: 1 <= i < |z| && z[i].name == "OEBPS/" + Opf.Underscored(r.fileName))
      && (forall i :: 0 <= i < |z| ==> z[i].name in PackageFiles(items))
      && (forall i, j :: 0 <= i < j < |z| ==> z[i].name != z[j].name)
  {
    var z := ZipOf(listing);
    ZipProperties(listing, PackageFiles(items));
    forall r | r in items ensures exists i :: 1 <= i < |z| && z[i].name == "OEBPS/" + Opf.Underscored(r.fileName) {
      var f := "OEBPS/" + Opf.Underscored(r.fileName);
      assert f in PackageFiles(items);
      var i :| 0 <= i < |z| && z[i].name == f;
      assert z[0].name[0] != f[0];
    }
  }

  lemma RewrittenRec(r: Opf.Rec)
    ensures Opf.Fixed(Opf.Extracted(Opf.Cleaned(Opf.Fixed(Opf.Extracted(r))))) == Opf.Fixed(Opf.Extracted(r))
    ensures Opf.CleanId(Opf.Cleaned(Opf.Fixed(Opf.Extracted(r))).id) == Opf.CleanId(r.id)
  {
    Opf.UnderscoredIdempotent(r.fileName);
    Opf.ManifestIdIsCleanId(r.id);
    Opf.CleanIdProperties(r.id);
    Opf.ManifestIdIsCleanId(Opf.CleanId(r.id));
  }

  /** A second write, of the items and spine as the first left them, gives
      the same package: the rewriting of items in place is harmless. */
  lemma WriteAgainSamePackage(items: seq<Opf.Rec>, spine: seq<Opf.Rec>, toc: seq<Builder.TocEntry>, listing: seq<string>)
    ensures PackageOf(Rewritten(items), Rewritten(spine), toc, listing) == PackageOf(items, spine, toc, listing)
  {
    var e1 := Opf.ExtractedAll(Rewritten(items));
    var e0 := Opf.ExtractedAll(items);
    forall i | 0 <= i < |items| ensures Opf.Fixed(e1[i]) == Opf.Fixed(e0[i]) {
      RewrittenRec(items[i]);
    }
    assert Opf.FixedAll(e1) == Opf.FixedAll(e0);
    Opf.ManifestCongruent(e1, e0);
    forall i | 0 <= i < |spine| ensures Opf.CleanId(Rewritten(spine)[i].id) == Opf.CleanId(spine[i].id) {
      RewrittenRec(spine[i]);
    }
    Opf.SpineRefsCongruent(Rewritten(spine), spine, Opf.ValidIds(Opf.FixedAll(e0)));
  }

  /** After set_cover twice on a readable image, the written spine opens
      with the itemref "cover" twice. */
  lemma CoverTwiceSpine(env: Builder.Env, s: Builder.BuilderState, p: string, q: string)
    requires Builder.Loadable(env, p) && Builder.Loadable(env, q)
    ensures var r := WithCover(env, WithCover(env, s, p), q);
      var refs := SpineOf(Opf.RecsOf(r.items), Opf.RecsOf(r.spine));
      |refs| >= 2 && refs[0] == "cover" && refs[1] == "cover"
  {
    WithCoverTwice(env, s, p, q);
    var r := WithCover(env, WithCover(env, s, p), q);
    SpineOfCoverTwice(r.items, r.spine);
  }

  lemma SpineOfCoverTwice(items: seq<Builder.Item>, spine: seq<Builder.Item>)
    requires items != [] && items[|items| - 1] == CoverPage
    requires |spine| >= 2 && spine[0] == CoverPage && spine[1] == CoverPage
    ensures var refs := SpineOf(Opf.RecsOf(items), Opf.RecsOf(spine));
      |refs| >= 2 && refs[0] == "cover" && refs[1] == "cover"
  {
    CoverPageValid(items);
    var sp := Opf.RecsOf(spine);
    assert sp == [Opf.RecOf(CoverPage), Opf.RecOf(CoverPage)] + sp[2..];
    Opf.SpineRefsRepeatedFirst(Opf.RecOf(CoverPage), sp[2..], Opf.ValidIds(Opf.FixedAll(Opf.ExtractedAll(Opf.RecsOf(items)))));
  }

  /** A book holding the cover page has "cover" among its valid ids. */
  lemma CoverPageValid(items: seq<Builder.Item>)
    requires items != [] && items[|items| - 1] == CoverPage
    ensures Opf.CleanId(Opf.RecOf(CoverPage).id) == "cover"
    ensures "cover" in Opf.ValidIds(Opf.FixedAll(Opf.ExtractedAll(Opf.RecsOf(items))))
  {
    var recs := Opf.RecsOf(items);
    CoverIdClean();
    assert Opf.RecOf(CoverPage).id == "cover";
    Opf.ValidIdsAfterManifest(recs);
    assert recs[|recs| - 1] == Opf.RecOf(CoverPage);
    assert recs[|recs| - 1] in recs;
  }

  lemma CoverIdClean()
    ensures Opf.CleanId("cover") == "cover"
  {
    var c := "cover";
    assert c == ['c', 'o', 'v', 'e', 'r'];
    assert All(c, Opf.IdChar);
    Opf.CleanIdProperties(c);
  }

  /** The items steps of write: the items copied to the directory, then
      content.opf, with the array of items updated in place by each loop. */
  method WriteOpf(recs: seq<Opf.Rec>, spine: seq<Opf.Rec>) returns (manifest: seq<Opf.Entry>, refs: seq<string>, rewritten: seq<Opf.Rec>)
    ensures manifest == ManifestOf(recs) && refs == SpineOf(recs, spine) && rewritten == Rewritten(recs)
  {
    var items := new Opf.Rec[|recs|](i requires 0 <= i < |recs| => recs[i]);
    assert items[..] == recs;
    Opf.ExtractItems(items);
    var entries, navFound := Opf.CreateManifest(items);
    manifest := Opf.MarkNav(items, entries, navFound);
    var valid := Opf.CollectValidIds(items);
    refs := Opf.SpineItemRefs(spine, valid);
    rewritten := items[..];
  }

  /** The toc steps of write: toc.ncx, then nav.xhtml, with the toc entries
      updated in place by each. */
  method WriteNavigation(toc: seq<Builder.TocEntry>, rewritten: seq<Opf.Rec>) returns (points: seq<Navigation.NavPoint>, nav: Navigation.NavDoc)
    ensures points == Navigation.NcxPoints(toc)
    ensures nav == Navigation.NavDocument(Navigation.UnderscoreToc(toc), Navigation.FileNamesOf(rewritten))
  {
    var entries := new Builder.TocEntry[|toc|](i requires 0 <= i < |toc| => toc[i]);
    assert entries[..] == toc;
    points := Navigation.CreateNcx(entries);
    nav := Navigation.CreateNavDocument(entries, rewritten);
  }

  /** The files write lays out and the archive it makes of them. */
  method WritePackage(recs: seq<Opf.Rec>, spine: seq<Opf.Rec>, toc: seq<Builder.TocEntry>, listing: seq<string>)
    returns (pkg: Package)
    ensures pkg == PackageOf(recs, spine, toc, listing)
  {
    var manifest, refs, rewritten := WriteOpf(recs, spine);
    var points, nav := WriteNavigation(toc, rewritten);
    var zip := WriteZip(listing);
    pkg := Package(manifest, refs, points, nav, zip);
  }

  /** EnhancedEPUBBuilder: an EPUBBuilder whose set_cover and write are
      replaced. */
  class EnhancedEpubBuilder {
    const base: Builder.EpubBuilder

    constructor(title: string, outputDir: string, env: Builder.Env)
      ensures fresh(base) && base.Valid() && base.Current() == Builder.Initial()
      ensures base.title == title && base.outputDir == outputDir && base.env == env
    {
      base := new Builder.EpubBuilder(title, outputDir, env);
    }

    method SetCover(path: string)
      requires base.Valid()
      modifies base
      ensures base.Valid()
      ensures base.Current() == WithCover(base.env, old(base.Current()), path)
    {
      WithCoverValid(base.env, base.Current(), path);
      if path !in base.env.files {
        return;
      }
      base.coverImage := Some(path);
      if !base.hasBook {
        base.InitBook();
      }
      if path in base.env.unreadable {
        return;
      }
      ReplaceCover(path);
    }

    /** The part of set_cover after the image was read: the old cover items
        out, the new ones in, the cover page in front of the spine. */
    method ReplaceCover(path: string)
      modifies base
      ensures base.Current() == old(base.Current()).(
        items := WithoutCoverItems(old(base.items)) + [CoverImageItem(path), CoverPage],
        spine := [CoverPage] + old(base.spine))
    {
      var kept := RemoveCoverItems(base.items);
      base.items, base.spine := kept + [CoverImageItem(path), CoverPage], [CoverPage] + base.spine;
    }

    method Write(filename: Option<string>, force: bool, listing: seq<string>) returns (outcome: Outcome)
      requires base.Valid()
      modifies base
      ensures base.Valid()
      ensures (base.Current(), outcome) == Written(base.env, old(base.Current()), base.outputDir, base.title, filename, force, listing)
    {
      ghost var s := base.Current();
      if base.images == [] && !base.hasBook {
        return ValueError("No content to write to EPUB");
      }
      if !base.hasBook || !base.attached || base.spine == [] {
        base.Finalize();
      }
      ghost var s1 := base.Current();
      assert s1 == if !s.hasBook || Builder.BookSpine(s) == [] then Builder.Finalized(base.env, s) else s;
      if !base.attached || base.spine == [] {
        assert Builder.BookSpine(s1) == [];
        return ValueError("No spine items in EPUB");
      }
      var name := Builder.EpubFileName(filename, base.title);
      if '/' in name {
        name := BaseName(name);
      }
      assert name == TargetName(filename, base.title);
      var path := Builder.JoinPath(base.outputDir, name);
      if path in base.env.files && !force {
        return Kept(path);
      }
      var pkg := WritePackage(Opf.RecsOf(base.items), Opf.RecsOf(base.spine), base.toc, listing);
      return Wrote(path, pkg);
    }
  }

  /** The loop of set_cover collecting the items to remove, and the removal. */
  method RemoveCoverItems(items: seq<Builder.Item>) returns (kept: seq<Builder.Item>)
    ensures kept == WithoutCoverItems(items)
  {
    kept := [];
    var i := 0;
    while i < |items|
      invariant 0 <= i <= |items|
      invariant kept == WithoutCoverItems(items[..i])
    {
      assert items[..i + 1][..i] == items[..i];
      if !IsCoverItem(items[i]) {
        kept := kept + [items[i]];
      }
      i := i + 1;
    }
    assert items[..i] == items;
  }

  /** EnhancedKepubBuilder: the enhanced builder whose write gives the file
      a Kobo name and then applies the Kobo modifications to it. */
  class EnhancedKepubBuilder {
    const enhanced: EnhancedEpubBuilder

    constructor(title: string, outputDir: string, env: Builder.Env)
      ensures fresh(enhanced) && fresh(enhanced.base) && enhanced.base.Valid()
      ensures enhanced.base.Current() == Builder.Initial()
      ensures enhanced.base.title == title && enhanced.base.outputDir == outputDir && enhanced.base.env == env
    {
      enhanced := new EnhancedEpubBuilder(title, outputDir, env);
    }

    /** write: the enhanced write under the Kobo name, then the Kobo
        modifications, with the NCX step, on the file it wrote or kept.
        `files` and `archiveListing` are that file's extracted contents. */
    method Write(filename: Option<string>, force: bool, listing: seq<string>,
                 files: map<string, Kobo.Content>, archiveListing: seq<string>)
      returns (outcome: Outcome, kobo: Option<Kobo.KoboResult>)
      requires enhanced.base.Valid()
      requires IsListing(archiveListing, files.Keys)
      modifies enhanced.base
      ensures enhanced.base.Valid()
      ensures (enhanced.base.Current(), outcome) ==
        Written(enhanced.base.env, old(enhanced.base.Current()), enhanced.base.outputDir, enhanced.base.title,
                Some(Kobo.KepubFileName(filename, enhanced.base.title)), force, listing)
      ensures outcome.ValueError? ==> kobo.None?
      ensures !outcome.ValueError? ==>
        kobo == Some(Kobo.KoboApplied(files, archiveListing, enhanced.base.readingDirection == "rtl", true))
    {
      var name := Kobo.KepubFileName(filename, enhanced.base.title);
      outcome := enhanced.Write(Some(name), force, listing);
      if outcome.ValueError? {
        return outcome, None;
      }
      var result := Kobo.ApplyKoboModifications(files, archiveListing, enhanced.base.readingDirection == "rtl", true);
      kobo := Some(result);
    }
  }

  /** The file the Kobo writer writes or keeps has a name ending in
      ".kepub.epub", in any case: the parent's ".epub" rule leaves the Kobo
      name alone and the last component keeps the extension. */
  lemma KepubTargetName(filename: Option<string>, title: string)
    ensures var name := Kobo.KepubFileName(filename, title);
      TargetName(Some(name), title) == (if '/' in name then BaseName(name) else name)
      && EndsWith(Lower(TargetName(Some(name), title)), ".kepub.epub")
  {
    Kobo.KepubFileNameEnds(filename, title);
    KeptNameTarget(Kobo.KepubFileName(filename, title), title);
  }

  /** A name the parent's rule keeps is the target name, less its
      directory part, and a final ".kepub.epub" survives. */
  lemma KeptNameTarget(name: string, title: string)
    requires Builder.EpubFileName(Some(name), title) == name && EndsWith(Lower(name), ".kepub.epub")
    ensures TargetName(Some(name), title) == (if '/' in name then BaseName(name) else name)
    ensures EndsWith(Lower(TargetName(Some(name), title)), ".kepub.epub")
  {
    KepubNoSeparator();
    TargetNameSuffix(Some(name), title, ".kepub.epub");
  }

  lemma KepubNoSeparator()
    ensures '/' !in ".kepub.epub"
  {
    var x := ".kepub.epub";
    assert x == ['.', 'k', 'e', 'p', 'u', 'b', '.', 'e', 'p', 'u', 'b'];
  }
}
