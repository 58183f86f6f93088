/*
 * Navigation: the two navigation files EnhancedEPUBBuilder writes itself
 * (mangabook/epub/enhanced_builder.py, _create_ncx_file and
 * _create_nav_file), and the Kobo rewrite of the NCX ids
 * (EnhancedKepubBuilder._update_toc_ncx).
 *
 * Both writers walk book.toc, whose links they change in place: the NCX
 * writer replaces the spaces of every href, the nav writer does it again
 * and drops a leading "OEBPS/". The table of contents is an array of
 * entries here, and the files are described by the navPoints and list
 * items they contain.
 */
module Navigation {
  import opened Text
  import Builder
  import Opf

  // toc.ncx

  /** A <navPoint>: its id and playOrder, the label text, the content src
      and the navPoints nested in it. */
  datatype NavPoint = NavPoint(id: string, playOrder: nat, text: string, src: string, children: seq<NavPoint>)

  function PointId(n: nat): string { "navpoint-" + NatToString(n) }

  /** The navPoints an entry takes: its own, and one per child. */
  function EntrySize(e: Builder.TocEntry): nat {
    match e
    case Flat(_) => 1
    case Nested(_, children) => 1 + |children|
  }

  function TocSize(toc: seq<Builder.TocEntry>): nat {
    if toc == [] then 0 else TocSize(toc[..|toc| - 1]) + EntrySize(toc[|toc| - 1])
  }

  function UnderscoreLink(l: Builder.Link): Builder.Link { l.(href := Opf.Underscored(l.href)) }

  /** A toc entry after the NCX writer replaced the spaces of its hrefs. */
  function UnderscoreEntry(e: Builder.TocEntry): Builder.TocEntry {
    match e
    case Flat(l) => Builder.Flat(UnderscoreLink(l))
    case Nested(p, children) => Builder.Nested(UnderscoreLink(p), UnderscoreLinks(children))
  }

  function UnderscoreLinks(links: seq<Builder.Link>): (r: seq<Builder.Link>)
    ensures |r| == |links| && forall i :: 0 <= i < |links| ==> r[i] == UnderscoreLink(links[i])
  {
    seq(|links|, i requires 0 <= i < |links| => UnderscoreLink(links[i]))
  }

  function UnderscoreToc(toc: seq<Builder.TocEntry>): (r: seq<Builder.TocEntry>)
    ensures |r| == |toc| && forall i :: 0 <= i < |toc| ==> r[i] == UnderscoreEntry(toc[i])
  {
    seq(|toc|, i requires 0 <= i < |toc| => UnderscoreEntry(toc[i]))
  }

  /** The navPoint of a link, numbered p. */
  function LinkPoint(p: nat, l: Builder.Link): NavPoint {
    NavPoint(PointId(p), p, l.title, Opf.Underscored(l.href), [])
  }

  /** The navPoints of a parent's children, numbered from p. */
  function ChildPoints(p: nat, links: seq<Builder.Link>): (r: seq<NavPoint>)
    ensures |r| == |links| && forall i :: 0 <= i < |links| ==> r[i] == LinkPoint(p + i, links[i])
  {
    seq(|links|, i requires 0 <= i < |links| => LinkPoint(p + i, links[i]))
  }

  /** The navPoint of an entry whose first playOrder is p. */
  function EntryPoint(p: nat, e: Builder.TocEntry): NavPoint {
    match e
    case Flat(l) => LinkPoint(p, l)
    case Nested(parent, children) => LinkPoint(p, parent).(children := ChildPoints(p + 1, children))
  }

  /** The navMap: one navPoint per toc entry, the counter running on from
      one entry to the next. */
  function NcxPoints(toc: seq<Builder.TocEntry>): (r: seq<NavPoint>)
    ensures |r| == |toc|
  {
    if toc == [] then []
    else
      var k := |toc| - 1;
      NcxPoints(toc[..k]) + [EntryPoint(1 + TocSize(toc[..k]), toc[k])]
  }

  /** The (id, playOrder) of a navPoint and then of its children. */
  function PointOrder(x: NavPoint): (r: seq<(string, nat)>)
    ensures |r| == 1 + |x.children| && r[0] == (x.id, x.playOrder)
    ensures forall i :: 0 <= i < |x.children| ==> r[i + 1] == (x.children[i].id, x.children[i].playOrder)
  {
    [(x.id, x.playOrder)] + seq(|x.children|, i requires 0 <= i < |x.children| => (x.children[i].id, x.children[i].playOrder))
  }

  /** The (id, playOrder) of the navPoints in document order: each navPoint
      before its children (the NCX has two levels). */
  function Ordered(points: seq<NavPoint>): seq<(string, nat)> {
    if points == [] then []
    else Ordered(points[..|points| - 1]) + PointOrder(points[|points| - 1])
  }

  /** playOrder runs 1, 2, ..., n through the navPoints in document order,
      a parent before its children, and every id is "navpoint-" followed by
      the playOrder. */
  lemma NcxNumbering(toc: seq<Builder.TocEntry>)
    ensures |Ordered(NcxPoints(toc))| == TocSize(toc)
    ensures forall i :: 0 <= i < TocSize(toc) ==> Ordered(NcxPoints(toc))[i] == (PointId(i + 1), i + 1)
  {
    NcxPlayOrders(toc);
    NcxNamed(toc);
    OrderedIds(NcxPoints(toc));
  }

  lemma {:induction false} NcxNamed(toc: seq<Builder.TocEntry>)
    ensures NamedByOrder(NcxPoints(toc))
  {
    if toc != [] {
      var k := |toc| - 1;
      NcxNamed(toc[..k]);
      var e := EntryPoint(1 + TocSize(toc[..k]), toc[k]);
      assert NcxPoints(toc) == NcxPoints(toc[..k]) + [e];
      forall c | c in e.children ensures c.id == PointId(c.playOrder) {
        var j :| 0 <= j < |e.children| && e.children[j] == c;
      }
    }
  }

  lemma {:induction false} NcxPlayOrders(toc: seq<Builder.TocEntry>)
    ensures |Ordered(NcxPoints(toc))| == TocSize(toc)
    ensures forall i :: 0 <= i < TocSize(toc) ==> Ordered(NcxPoints(toc))[i].1 == i + 1
  {
    if toc != [] {
      var k := |toc| - 1;
      var init := toc[..k];
      NcxPlayOrders(init);
      var p := 1 + TocSize(init);
      var e := EntryPoint(p, toc[k]);
      var ps := NcxPoints(toc);
      assert ps == NcxPoints(init) + [e];
      assert ps[..|ps| - 1] == NcxPoints(init);
      EntryPointOrder(p, toc[k]);
      var o0, t := Ordered(NcxPoints(init)), PointOrder(e);
      var o := Ordered(ps);
      assert o == o0 + t;
      assert TocSize(toc) == TocSize(init) + EntrySize(toc[k]);
      forall i | 0 <= i < TocSize(toc) ensures o[i].1 == i + 1 {
        if i < |o0| {
          assert o[i] == o0[i];
        } else {
          assert o[i] == t[i - |o0|];
        }
      }
    }
  }

  /** Every navPoint and child is named after its playOrder. */
  predicate NamedByOrder(points: seq<NavPoint>) {
    forall x :: x in points ==> x.id == PointId(x.playOrder) && forall c :: c in x.children ==> c.id == PointId(c.playOrder)
  }

  lemma {:induction false} OrderedIds(points: seq<NavPoint>)
    requires NamedByOrder(points)
    ensures forall i :: 0 <= i < |Ordered(points)| ==> Ordered(points)[i].0 == PointId(Ordered(points)[i].1)
  {
    if points != [] {
      var k := |points| - 1;
      assert points[..k] + [points[k]] == points;
      OrderedIds(points[..k]);
      var x := points[k];
      forall i | 0 <= i < |x.children| ensures x.children[i] in x.children { }
    }
  }

  /** An entry numbered from p takes the playOrders p, p + 1, ... */
  lemma EntryPointOrder(p: nat, e: Builder.TocEntry)
    ensures var t := PointOrder(EntryPoint(p, e));
      |t| == EntrySize(e) && forall i :: 0 <= i < |t| ==> t[i].1 == p + i
  {
    var x := EntryPoint(p, e);
    forall i | 0 < i < |PointOrder(x)| ensures PointOrder(x)[i].1 == p + i {
      assert x.children[i - 1] == LinkPoint(p + i, e.children[i - 1]);
    }
  }

  /** Each navPoint shows its entry's title and links to its href with the
      spaces replaced; a nested entry's children follow in order. */
  lemma NcxPointsFollowToc(toc: seq<Builder.TocEntry>, i: nat)
    requires i < |toc|
    ensures NcxPoints(toc)[i] == EntryPoint(1 + TocSize(toc[..i]), toc[i])
    ensures var l := if toc[i].Flat? then toc[i].link else toc[i].parent;
      NcxPoints(toc)[i].text == l.title && NcxPoints(toc)[i].src == Opf.Underscored(l.href)
      && ' ' !in NcxPoints(toc)[i].src
    ensures toc[i].Flat? ==> NcxPoints(toc)[i].children == []
    ensures toc[i].Nested? ==> |NcxPoints(toc)[i].children| == |toc[i].children|
  {
    NcxPrefix(toc, i + 1);
    assert toc[..i + 1][..i] == toc[..i];
  }

  lemma {:induction false} NcxPrefix(toc: seq<Builder.TocEntry>, n: nat)
    requires n <= |toc|
    ensures NcxPoints(toc[..n]) == NcxPoints(toc)[..n]
    decreases |toc| - n
  {
    if n < |toc| {
      NcxPrefix(toc, n + 1);
      assert toc[..n + 1][..n] == toc[..n];
    } else {
      assert toc[..n] == toc;
    }
  }

  /** _create_ncx_file: numbers the navPoints with the playorder counter and
      replaces the spaces of every href of book.toc in place. */
  method CreateNcx(toc: array<Builder.TocEntry>) returns (points: seq<NavPoint>)
    modifies toc
    ensures toc[..] == UnderscoreToc(old(toc[..]))
    ensures points == NcxPoints(old(toc[..]))
  {
    ghost var original := toc[..];
    points := [];
    var playorder := 1;
    var i := 0;
    while i < toc.Length
      invariant 0 <= i <= toc.Length
      invariant forall k :: 0 <= k < i ==> toc[k] == UnderscoreEntry(original[k])
      invariant forall k :: i <= k < toc.Length ==> toc[k] == original[k]
      invariant points == NcxPoints(original[..i]) && playorder == 1 + TocSize(original[..i])
    {
      assert original[..i + 1][..i] == original[..i];
      var e := toc[i];
      match e {
        case Nested(parent, children) =>
          var point := LinkPoint(playorder, parent);
          playorder := playorder + 1;
          var kids, links := ChildNavPoints(playorder, children);
          playorder := playorder + |children|;
          toc[i] := Builder.Nested(UnderscoreLink(parent), links);
          points := points + [point.(children := kids)];
        case Flat(l) =>
          toc[i] := Builder.Flat(UnderscoreLink(l));
          points := points + [LinkPoint(playorder, l)];
          playorder := playorder + 1;
      }
      i := i + 1;
    }
    assert original[..i] == original;
  }

  /** The inner loop of _create_ncx_file over a parent's children. */
  method ChildNavPoints(p: nat, children: seq<Builder.Link>) returns (kids: seq<NavPoint>, links: seq<Builder.Link>)
    ensures kids == ChildPoints(p, children)
    ensures links == UnderscoreLinks(children)
  {
    kids := [];
    links := [];
    var playorder := p;
    var j := 0;
    while j < |children|
      invariant 0 <= j <= |children| && playorder == p + j
      invariant kids == ChildPoints(p, children[..j])
      invariant links == UnderscoreLinks(children[..j])
    {
      kids := kids + [LinkPoint(playorder, children[j])];
      links := links + [UnderscoreLink(children[j])];
      playorder := playorder + 1;
      j := j + 1;
    }
    assert children[..j] == children;
  }

  // nav.xhtml

  /** An href in nav.xhtml: spaces replaced, and one leading "OEBPS/" dropped. */
  function NavHref(href: string): string {
    var u := Opf.Underscored(href);
    if StartsWith(u, "OEBPS/") then u[6..] else u
  }

  /** A nav href has no spaces; a leading "OEBPS/" is gone, any other href
      only has its spaces replaced. */
  lemma NavHrefProperties(href: string)
    ensures ' ' !in NavHref(href)
    ensures NavHref("OEBPS/" + href) == Opf.Underscored(href)
    ensures !StartsWith(Opf.Underscored(href), "OEBPS/") ==> NavHref(href) == Opf.Underscored(href)
  {
    var h := "OEBPS/" + href;
    assert Opf.Underscored(h) == "OEBPS/" + Opf.Underscored(href);
    assert Opf.Underscored(h)[..6] == "OEBPS/";
  }

  /** Replacing the spaces first, as the NCX writer already did, changes
      nothing in nav.xhtml. */
  lemma NavHrefAfterNcx(href: string)
    ensures NavHref(Opf.Underscored(href)) == NavHref(href)
  {
    Opf.UnderscoredIdempotent(href);
  }

  datatype NavLink = NavLink(href: string, title: string)

  /** An <li> of the toc nav: a link, or a link with an <ol> of links. */
  datatype NavLi = Single(link: NavLink) | Group(link: NavLink, children: seq<NavLink>)

  /** The toc nav's list items, and whether the landmarks nav is there. */
  datatype NavDoc = NavDoc(toc: seq<NavLi>, landmarks: bool)

  function NavLinkOf(l: Builder.Link): NavLink { NavLink(NavHref(l.href), l.title) }

  function NavLinksOf(links: seq<Builder.Link>): (r: seq<NavLink>)
    ensures |r| == |links| && forall i :: 0 <= i < |links| ==> r[i] == NavLinkOf(links[i])
  {
    seq(|links|, i requires 0 <= i < |links| => NavLinkOf(links[i]))
  }

  function NavLiOf(e: Builder.TocEntry): NavLi {
    match e
    case Flat(l) => Single(NavLinkOf(l))
    case Nested(p, children) => Group(NavLinkOf(p), NavLinksOf(children))
  }

  function TocLis(toc: seq<Builder.TocEntry>): (r: seq<NavLi>)
    ensures |r| == |toc| && forall i :: 0 <= i < |toc| ==> r[i] == NavLiOf(toc[i])
  {
    seq(|toc|, i requires 0 <= i < |toc| => NavLiOf(toc[i]))
  }

  /** A link of book.toc after the nav writer stored its href back. */
  function NavEntry(e: Builder.TocEntry): Builder.TocEntry {
    match e
    case Flat(l) => Builder.Flat(l.(href := NavHref(l.href)))
    case Nested(p, children) =>
      Builder.Nested(p.(href := NavHref(p.href)),
                     seq(|children|, i requires 0 <= i < |children| => children[i].(href := NavHref(children[i].href))))
  }

  function NavToc(toc: seq<Builder.TocEntry>): (r: seq<Builder.TocEntry>)
    ensures |r| == |toc| && forall i :: 0 <= i < |toc| ==> r[i] == NavEntry(toc[i])
  {
    seq(|toc|, i requires 0 <= i < |toc| => NavEntry(toc[i]))
  }

  predicate ContentPage(name: string) { EndsWith(name, ".xhtml") && name != "nav.xhtml" }

  /** The file name of the first item, in book order, that is an XHTML
      document other than nav.xhtml. */
  function FirstContentPage(names: seq<string>): (r: Option<string>)
    ensures r.Some? ==> exists i :: (0 <= i < |names| && names[i] == r.value && ContentPage(r.value)
      && forall j :: 0 <= j < i ==> !ContentPage(names[j]))
    ensures r.None? ==> forall j :: 0 <= j < |names| ==> !ContentPage(names[j])
  {
    if names == [] then None
    else if ContentPage(names[0]) then Some(names[0])
    else
      var r := FirstContentPage(names[1..]);
      if r.Some? then
        var i :| 0 <= i < |names[1..]| && names[1..][i] == r.value && ContentPage(r.value)
          && forall j :: 0 <= j < i ==> !ContentPage(names[1..][j]);
        assert names[i + 1] == r.value;
        r
      else r
  }

  /** The toc nav of nav.xhtml for a table of contents and the items' file
      names: one list item per entry; for an empty table a single link to
      the cover page, or else to the first content page. */
  function NavDocument(toc: seq<Builder.TocEntry>, names: seq<string>): NavDoc {
    var coverExists := "cover.xhtml" in names;
    var lis :=
      if toc != [] then TocLis(toc)
      else if coverExists then [Single(NavLink("cover.xhtml", "Cover"))]
      else match FirstContentPage(names)
        case None => []
        case Some(f) => [Single(NavLink(f, "Start"))];
    NavDoc(lis, coverExists)
  }

  /** The nav document lists the toc when there is one, falls back to the
      cover page and then to the first content page when there is none, and
      has landmarks exactly when some item is cover.xhtml. */
  lemma NavDocumentProperties(toc: seq<Builder.TocEntry>, names: seq<string>)
    ensures var d := NavDocument(toc, names);
      && (d.landmarks <==> exists i :: 0 <= i < |names| && names[i] == "cover.xhtml")
      && (toc != [] ==> |d.toc| == |toc| && forall i :: 0 <= i < |toc| ==> d.toc[i].link.title == (if toc[i].Flat? then toc[i].link.title else toc[i].parent.title))
      && (toc == [] && "cover.xhtml" in names ==> d.toc == [Single(NavLink("cover.xhtml", "Cover"))])
      && (toc == [] && "cover.xhtml" !in names ==>
            (d.toc == [] <==> forall j :: 0 <= j < |names| ==> !ContentPage(names[j])))
      && (toc == [] && "cover.xhtml" !in names && d.toc != [] ==>
            exists i :: 0 <= i < |names| && d.toc == [Single(NavLink(names[i], "Start"))] && ContentPage(names[i])
              && forall j :: 0 <= j < i ==> !ContentPage(names[j]))
  {
  }

  /** The toc the NCX writer leaves gives the same nav document as the one
      it was given. */
  lemma NavDocumentAfterNcx(toc: seq<Builder.TocEntry>, names: seq<string>)
    ensures NavDocument(UnderscoreToc(toc), names) == NavDocument(toc, names)
    ensures NavToc(UnderscoreToc(toc)) == NavToc(toc)
  {
    forall l: Builder.Link ensures NavLinkOf(UnderscoreLink(l)) == NavLinkOf(l) {
      NavHrefAfterNcx(l.href);
    }
    forall i | 0 <= i < |toc| ensures NavLiOf(UnderscoreEntry(toc[i])) == NavLiOf(toc[i]) {
      if toc[i].Nested? {
        assert NavLinksOf(UnderscoreLinks(toc[i].children)) == NavLinksOf(toc[i].children);
      }
    }
    assert TocLis(UnderscoreToc(toc)) == TocLis(toc);
    forall i | 0 <= i < |toc| ensures NavEntry(UnderscoreEntry(toc[i])) == NavEntry(toc[i]) {
      forall l: Builder.Link ensures NavHref(UnderscoreLink(l).href) == NavHref(l.href) {
        NavHrefAfterNcx(l.href);
      }
    }
  }

  /** _create_nav_file: the cover check, the toc list (storing each href
      back into book.toc) and the fallback link. */
  method CreateNavDocument(toc: array<Builder.TocEntry>, items: seq<Opf.Rec>) returns (doc: NavDoc)
    modifies toc
    ensures toc[..] == NavToc(old(toc[..]))
    ensures doc == NavDocument(old(toc[..]), FileNamesOf(items))
  {
    ghost var names := FileNamesOf(items);
    var coverExists := false;
    var i := 0;
    while i < |items|
      invariant 0 <= i <= |items|
      invariant coverExists ==> "cover.xhtml" in names
      invariant !coverExists ==> "cover.xhtml" !in names[..i]
    {
      if items[i].fileName == "cover.xhtml" {
        coverExists := true;
        assert names[i] == "cover.xhtml";
        break;
      }
      assert names[..i + 1] == names[..i] + [names[i]];
      i := i + 1;
    }
    if !coverExists {
      assert names[..i] == names;
    }
    var lis := NavItems(toc);
    if lis == [] {
      if coverExists {
        lis := [Single(NavLink("cover.xhtml", "Cover"))];
      } else {
        var first := FirstContentItem(items);
        if first.Some? {
          lis := [Single(NavLink(first.value, "Start"))];
        }
      }
    }
    doc := NavDoc(lis, coverExists);
  }

  function FileNamesOf(items: seq<Opf.Rec>): (r: seq<string>)
    ensures |r| == |items| && forall i :: 0 <= i < |items| ==> r[i] == items[i].fileName
  {
    seq(|items|, i requires 0 <= i < |items| => items[i].fileName)
  }

  /** The loop looking for the first content page. */
  method FirstContentItem(items: seq<Opf.Rec>) returns (first: Option<string>)
    ensures first == FirstContentPage(FileNamesOf(items))
  {
    var i := 0;
    while i < |items|
      invariant 0 <= i <= |items|
      invariant forall j :: 0 <= j < i ==> !ContentPage(items[j].fileName)
    {
      if ContentPage(items[i].fileName) {
        FirstContentPageAt(FileNamesOf(items), i);
        return Some(items[i].fileName);
      }
      i := i + 1;
    }
    return None;
  }

  /** The first content page is the one at the first index that is one. */
  lemma {:induction false} FirstContentPageAt(names: seq<string>, i: nat)
    requires i < |names| && ContentPage(names[i])
    requires forall j :: 0 <= j < i ==> !ContentPage(names[j])
    ensures FirstContentPage(names) == Some(names[i])
  {
    if i > 0 {
      FirstContentPageAt(names[1..], i - 1);
    }
  }

  /** The toc loop of _create_nav_file. */
  method NavItems(toc: array<Builder.TocEntry>) returns (lis: seq<NavLi>)
    modifies toc
    ensures toc[..] == NavToc(old(toc[..]))
    ensures lis == TocLis(old(toc[..]))
  {
    lis := [];
    var i := 0;
    while i < toc.Length
      invariant 0 <= i <= toc.Length
      invariant forall k :: 0 <= k < i ==> toc[k] == NavEntry(old(toc[k]))
      invariant forall k :: i <= k < toc.Length ==> toc[k] == old(toc[k])
      invariant lis == TocLis(old(toc[..i]))
    {
      var e := toc[i];
      match e {
        case Nested(parent, children) =>
          var links: seq<NavLink> := [];
          var stored: seq<Builder.Link> := [];
          var j := 0;
          while j < |children|
            invariant 0 <= j <= |children|
            invariant links == NavLinksOf(children[..j])
            invariant stored == seq(j, k requires 0 <= k < j => children[k].(href := NavHref(children[k].href)))
          {
            links := links + [NavLinkOf(children[j])];
            stored := stored + [children[j].(href := NavHref(children[j].href))];
            j := j + 1;
          }
          assert children[..j] == children;
          toc[i] := Builder.Nested(parent.(href := NavHref(parent.href)), stored);
          lis := lis + [Group(NavLinkOf(parent), links)];
        case Flat(l) =>
          toc[i] := Builder.Flat(l.(href := NavHref(l.href)));
          lis := lis + [Single(NavLinkOf(l))];
      }
      i := i + 1;
    }
  }

  // The Kobo ids of toc.ncx.

  /** A navPoint as _update_toc_ncx finds it in toc.ncx: its id attribute,
      which may be missing, and its playOrder. */
  datatype NcxNode = NcxNode(id: Option<string>, playOrder: nat)

  function KoboNavId(i: nat): string { "kobo_nav_" + NatToString(i) }

  /** The navPoint as the loop leaves it when it is the i-th (from 1) and
      has an id. */
  function KoboNode(node: NcxNode, i: nat): NcxNode {
    match node.id
    case None => node
    case Some(id) => node.(id := Some(if Contains(id, "kobo") then id else KoboNavId(i)))
  }

  predicate AllIds(nodes: seq<NcxNode>) {
    forall i :: 0 <= i < |nodes| ==> nodes[i].id.Some?
  }

  /** The navPoints written back by _update_toc_ncx: the i-th navPoint
      (from 1) whose id does not contain "kobo" gets "kobo_nav_i". A
      navPoint without an id makes the membership test raise; the error is
      logged and the file is left as it was. */
  function KoboNcx(nodes: seq<NcxNode>): (r: seq<NcxNode>)
    ensures |r| == |nodes|
  {
    if !AllIds(nodes) then nodes
    else seq(|nodes|, i requires 0 <= i < |nodes| => KoboNode(nodes[i], i + 1))
  }

  /** The loop of _update_toc_ncx over the navPoints of the parsed file. */
  method UpdateTocNcx(nodes: seq<NcxNode>) returns (file: seq<NcxNode>)
    ensures file == KoboNcx(nodes)
  {
    var updated: seq<NcxNode> := [];
    var i := 0;
    while i < |nodes|
      invariant 0 <= i <= |nodes|
      invariant forall j :: 0 <= j < i ==> nodes[j].id.Some?
      invariant updated == seq(i, j requires 0 <= j < i => KoboNode(nodes[j], j + 1))
    {
      if nodes[i].id.None? {
        return nodes;
      }
      var id := nodes[i].id.value;
      updated := updated + [nodes[i].(id := Some(if Contains(id, "kobo") then id else KoboNavId(i + 1)))];
      i := i + 1;
    }
    return updated;
  }

  lemma ContainsFirst(s: string, t: string)
    requires |t| > 0 && Contains(s, t)
    ensures t[0] in s
    decreases |s|
  {
    if !StartsWith(s, t) {
      ContainsFirst(s[1..], t);
    }
  }

  lemma StartsContains(s: string, t: string)
    requires StartsWith(s, t)
    ensures Contains(s, t)
  {
  }

  /** After the rewrite every navPoint id contains "kobo", ids that had it
      are kept, and the playOrders are untouched; with a navPoint lacking an
      id nothing changes. */
  lemma KoboNcxProperties(nodes: seq<NcxNode>)
    ensures !AllIds(nodes) ==> KoboNcx(nodes) == nodes
    ensures AllIds(nodes) ==>
      forall i :: 0 <= i < |nodes| ==>
        && KoboNcx(nodes)[i].playOrder == nodes[i].playOrder
        && KoboNcx(nodes)[i].id.Some? && Contains(KoboNcx(nodes)[i].id.value, "kobo")
        && (Contains(nodes[i].id.value, "kobo") ==> KoboNcx(nodes)[i].id == nodes[i].id)
  {
    forall i: nat ensures Contains(KoboNavId(i), "kobo") {
      assert KoboNavId(i)[..4] == "kobo";
      StartsContains(KoboNavId(i), "kobo");
    }
  }

  /** The NCX the enhanced writer produces, as _update_toc_ncx reads it back. */
  function NcxNodes(toc: seq<Builder.TocEntry>): (r: seq<NcxNode>)
    ensures |r| == |Ordered(NcxPoints(toc))|
  {
    var o := Ordered(NcxPoints(toc));
    seq(|o|, i requires 0 <= i < |o| => NcxNode(Some(o[i].0), o[i].1))
  }

  /** The ids the enhanced writer gives navPoints do not contain "kobo". */
  lemma PointIdNoKobo(n: nat)
    ensures !Contains(PointId(n), "kobo")
  {
    var s := PointId(n);
    var d := NatToString(n);
    assert s == "navpoint-" + d;
    assert 'k' !in "navpoint-";
    assert forall i :: 0 <= i < |d| ==> d[i] != 'k';
    assert 'k' !in s;
    if Contains(s, "kobo") {
      ContainsFirst(s, "kobo");
      assert false;
    }
  }

  /** No navPoint id of the enhanced writer contains "kobo", so the Kobo
      rewrite renames the i-th navPoint to "kobo_nav_i" and keeps playOrder i. */
  lemma KoboNcxOfWriter(toc: seq<Builder.TocEntry>)
    ensures |KoboNcx(NcxNodes(toc))| == TocSize(toc)
    ensures forall i :: 0 <= i < TocSize(toc) ==> KoboNcx(NcxNodes(toc))[i] == NcxNode(Some(KoboNavId(i + 1)), i + 1)
  {
    NcxNumbering(toc);
    var n := NcxNodes(toc);
    forall i | 0 <= i < |n| ensures n[i] == NcxNode(Some(PointId(i + 1)), i + 1) && !Contains(n[i].id.value, "kobo") {
      PointIdNoKobo(i + 1);
    }
    KoboNcxRenames(n);
  }

  /** When no id contains "kobo", every navPoint is renamed by position. */
  lemma KoboNcxRenames(nodes: seq<NcxNode>)
    requires forall i :: 0 <= i < |nodes| ==> nodes[i].id.Some? && !Contains(nodes[i].id.value, "kobo")
    ensures forall i :: 0 <= i < |nodes| ==> KoboNcx(nodes)[i] == nodes[i].(id := Some(KoboNavId(i + 1)))
  {
    assert AllIds(nodes);
  }
}
