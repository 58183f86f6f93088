/*
 * Opf: the package document EnhancedEPUBBuilder writes itself
 * (mangabook/epub/enhanced_builder.py, _extract_items_to_directory and
 * _create_opf_file): the items' file names and ids as the writer rewrites
 * them, the manifest and the spine.
 *
 * The writer sees the book's items as objects whose id and file name it
 * rewrites in place; here they are records in an array the emitting
 * methods update. The texts it writes are described by what they list:
 * manifest entries, spine references, navPoints, navigation links and
 * ZIP entries.
 */
module Opf {
  import opened Text
  import Builder

  // Item ids.

  /** The characters of the manifest id pattern [a-zA-Z0-9\-_.]. */
  predicate IdChar(c: char) {
    'a' <= c <= 'z' || 'A' <= c <= 'Z' || '0' <= c <= '9' || c == '-' || c == '_' || c == '.'
  }

  /** re.sub(r'[^a-zA-Z0-9\-_\.]', '_', s). */
  function SubInvalid(s: string): (r: string)
    ensures |r| == |s| && All(r, IdChar)
    ensures forall i :: 0 <= i < |s| ==> r[i] == (if IdChar(s[i]) then s[i] else '_')
  {
    seq(|s|, i requires 0 <= i < |s| => if IdChar(s[i]) then s[i] else '_')
  }

  /** The id the spine loop and the valid-id loop compute: colons, then
      every other character outside the pattern, become '_'. */
  function CleanId(id: string): string {
    SubInvalid(ReplaceChar(id, ':', '_'))
  }

  /** A clean id is made of pattern characters, has the length of the
      original, keeps an id that was already clean, and cleaning twice
      changes nothing more. */
  lemma CleanIdProperties(id: string)
    ensures All(CleanId(id), IdChar) && |CleanId(id)| == |id|
    ensures All(id, IdChar) ==> CleanId(id) == id
    ensures CleanId(CleanId(id)) == CleanId(id)
  {
    var c := CleanId(id);
    if All(id, IdChar) {
      assert ReplaceChar(id, ':', '_') == id;
    }
    assert ReplaceChar(c, ':', '_') == c;
  }

  /** re.match(r'^[a-zA-Z0-9\-_\.]+$', s) as Python evaluates it: without
      MULTILINE, `$` also matches just before a newline that ends the string. */
  predicate MatchesIdPatternAsWritten(s: string) {
    || (|s| > 0 && All(s, IdChar))
    || (|s| >= 2 && s[|s| - 1] == '\n' && All(s[..|s| - 1], IdChar))
  }

  /** The whole string matches the pattern (re.fullmatch). */
  predicate MatchesIdPattern(s: string) {
    |s| > 0 && All(s, IdChar)
  }

  /** The manifest loop's id as written: colons replaced, and the invalid
      characters replaced only when the pattern check fails. */
  function ManifestIdAsWritten(id: string): string {
    var x := ReplaceChar(id, ':', '_');
    if MatchesIdPatternAsWritten(x) then x else SubInvalid(x)
  }

  /** The manifest id with the pattern checked against the whole string. */
  function ManifestId(id: string): string {
    var x := ReplaceChar(id, ':', '_');
    if MatchesIdPattern(x) then x else SubInvalid(x)
  }

  /** As written, a clean id followed by a newline passes the check: the
      manifest keeps the newline while the spine, which cleans every id,
      refers to the id with '_' in its place. */
  lemma ManifestIdAsWrittenKeepsNewline(s: string)
    requires |s| > 0 && All(s, IdChar)
    ensures ManifestIdAsWritten(s + "\n") == s + "\n"
    ensures CleanId(s + "\n") == s + "_"
    ensures ManifestIdAsWritten(s + "\n") != CleanId(s + "\n")
  {
    var x := s + "\n";
    assert ReplaceChar(x, ':', '_') == x;
    assert x[..|x| - 1] == s;
    assert CleanId(x)[|s|] == '_';
  }

  /** With the whole string checked, the manifest id is the id the spine
      uses: only pattern characters, and no colon. */
  lemma ManifestIdIsCleanId(id: string)
    ensures ManifestId(id) == CleanId(id)
    ensures All(ManifestId(id), IdChar) && ':' !in ManifestId(id)
  {
    var x := ReplaceChar(id, ':', '_');
    if MatchesIdPattern(x) {
      assert SubInvalid(x) == x;
    }
  }

  /** An item that is also in the spine is rewritten twice before the spine
      loop reads its id again; it still yields the id of the item cleaned once. */
  lemma SpineIdOfRewrittenItem(id: string)
    ensures CleanId(CleanId(ManifestId(id))) == CleanId(id)
  {
    ManifestIdIsCleanId(id);
    CleanIdProperties(id);
    CleanIdProperties(CleanId(id));
  }

  // The items the writer rewrites.

  /** An item of the book: id, file name, media type and properties. */
  datatype Rec = Rec(id: string, fileName: string, mediaType: string, properties: seq<string>)

  function RecOf(it: Builder.Item): Rec {
    Rec(it.Id(), it.FileName(), it.MediaType(), if it.Plain? then it.properties else [])
  }

  function RecsOf(items: seq<Builder.Item>): (r: seq<Rec>)
    ensures |r| == |items|
    ensures forall i :: 0 <= i < |items| ==> r[i] == RecOf(items[i])
  {
    seq(|items|, i requires 0 <= i < |items| => RecOf(items[i]))
  }

  /** file_name.replace(' ', '_'). */
  function Underscored(s: string): (r: string)
    ensures |r| == |s| && ' ' !in r
  {
    ReplaceChar(s, ' ', '_')
  }

  lemma UnderscoredIdempotent(s: string)
    ensures Underscored(Underscored(s)) == Underscored(s)
  {
  }

  /** The item as _extract_items_to_directory leaves it. */
  function Extracted(r: Rec): Rec { r.(fileName := Underscored(r.fileName)) }

  /** The item as the manifest loop leaves it. */
  function Fixed(r: Rec): Rec { r.(fileName := Underscored(r.fileName), id := ManifestId(r.id)) }

  /** The item as the valid-id loop leaves it. */
  function Cleaned(r: Rec): Rec { r.(id := CleanId(r.id)) }

  function ExtractedAll(items: seq<Rec>): (r: seq<Rec>)
    ensures |r| == |items| && forall i :: 0 <= i < |items| ==> r[i] == Extracted(items[i])
  {
    seq(|items|, i requires 0 <= i < |items| => Extracted(items[i]))
  }

  function FixedAll(items: seq<Rec>): (r: seq<Rec>)
    ensures |r| == |items| && forall i :: 0 <= i < |items| ==> r[i] == Fixed(items[i])
  {
    seq(|items|, i requires 0 <= i < |items| => Fixed(items[i]))
  }

  function CleanedAll(items: seq<Rec>): (r: seq<Rec>)
    ensures |r| == |items| && forall i :: 0 <= i < |items| ==> r[i] == Cleaned(items[i])
  {
    seq(|items|, i requires 0 <= i < |items| => Cleaned(items[i]))
  }

  /** _extract_items_to_directory: every file name loses its spaces before
      the item is written out. */
  method ExtractItems(items: array<Rec>)
    modifies items
    ensures items[..] == ExtractedAll(old(items[..]))
  {
    var i := 0;
    while i < items.Length
      invariant 0 <= i <= items.Length
      invariant forall k :: 0 <= k < i ==> items[k] == Extracted(old(items[k]))
      invariant forall k :: i <= k < items.Length ==> items[k] == old(items[k])
    {
      items[i] := Extracted(items[i]);
      i := i + 1;
    }
  }

  // The manifest.

  /** One <item> line of the manifest; navMarked is the properties="nav"
      the writer splices in after the media type. */
  datatype Entry = Entry(id: string, href: string, mediaType: string, properties: seq<string>, navMarked: bool)

  function EntryOf(r: Rec): Entry { Entry(r.id, r.fileName, r.mediaType, r.properties, false) }

  /** The file names the manifest loop has seen. */
  function Names(items: seq<Rec>): set<string> {
    set r | r in items :: Underscored(r.fileName)
  }

  /** The manifest: one entry per file name, from the first item that has it. */
  function Manifest(items: seq<Rec>): (r: seq<Entry>)
    ensures |r| <= |items|
  {
    if items == [] then []
    else
      var k := |items| - 1;
      Manifest(items[..k]) + (if Underscored(items[k].fileName) in Names(items[..k]) then [] else [EntryOf(Fixed(items[k]))])
  }

  predicate HasNavProperty(entries: seq<Entry>) {
    exists k :: 0 <= k < |entries| && "nav" in entries[k].properties
  }

  lemma NamesSnoc(items: seq<Rec>, r: Rec)
    ensures Names(items + [r]) == Names(items) + {Underscored(r.fileName)}
  {
    assert forall x :: x in items + [r] <==> x in items || x == r;
  }

  /** What the manifest loop carries from one item to the next: the entries
      so far, the file names seen and whether an entry had the nav property. */
  datatype ManifestAcc = ManifestAcc(entries: seq<Entry>, added: set<string>, navFound: bool)

  /** One turn of the manifest loop, for the item as it was before the loop
      rewrote it. */
  function ManifestTurn(acc: ManifestAcc, item: Rec): ManifestAcc {
    var r := Fixed(item);
    if r.fileName in acc.added then acc
    else ManifestAcc(acc.entries + [EntryOf(r)], acc.added + {r.fileName}, acc.navFound || "nav" in r.properties)
  }

  function ManifestTurns(items: seq<Rec>): ManifestAcc {
    if items == [] then ManifestAcc([], {}, false)
    else ManifestTurn(ManifestTurns(items[..|items| - 1]), items[|items| - 1])
  }

  /** The loop computes the manifest, the set of its file names, and whether
      an entry has the nav property. */
  lemma {:induction false} ManifestTurnsManifest(items: seq<Rec>)
    ensures ManifestTurns(items) == ManifestAcc(Manifest(items), Names(items), HasNavProperty(Manifest(items)))
  {
    if items != [] {
      var k := |items| - 1;
      var init := items[..k];
      ManifestTurnsManifest(init);
      ManifestStep(items, k);
      assert items[..k + 1] == items;
      var r := Fixed(items[k]);
      var m0 := Manifest(init);
      assert ManifestTurns(items) == ManifestTurn(ManifestAcc(m0, Names(init), HasNavProperty(m0)), items[k]);
      if r.fileName !in Names(init) {
        HasNavSnoc(m0, EntryOf(r));
        assert Manifest(items) == m0 + [EntryOf(r)];
      } else {
        assert Manifest(items) == m0 && Names(items) == Names(init);
      }
    }
  }

  /** The manifest loop of _create_opf_file: rewrites each item's file name
      and id, and emits an entry for each file name not emitted before. */
  method CreateManifest(items: array<Rec>) returns (entries: seq<Entry>, navFound: bool)
    modifies items
    ensures items[..] == FixedAll(old(items[..]))
    ensures entries == Manifest(old(items[..]))
    ensures navFound <==> HasNavProperty(entries)
  {
    ghost var original := items[..];
    entries := [];
    navFound := false;
    var added: set<string> := {};
    var i := 0;
    while i < items.Length
      invariant 0 <= i <= items.Length
      invariant forall k :: 0 <= k < i ==> items[k] == Fixed(original[k])
      invariant forall k :: i <= k < items.Length ==> items[k] == original[k]
      invariant ManifestAcc(entries, added, navFound) == ManifestTurns(original[..i])
    {
      var r := Fixed(items[i]);
      items[i] := r;
      if r.fileName !in added {
        added := added + {r.fileName};
        if "nav" in r.properties {
          navFound := true;
        }
        entries := entries + [EntryOf(r)];
      }
      assert original[..i + 1][..i] == original[..i];
      i := i + 1;
    }
    assert original[..items.Length] == original;
    ManifestTurnsManifest(original);
  }

  lemma ManifestStep(items: seq<Rec>, i: nat)
    requires i < |items|
    ensures Names(items[..i + 1]) == Names(items[..i]) + {Underscored(items[i].fileName)}
    ensures Manifest(items[..i + 1]) == Manifest(items[..i])
      + (if Underscored(items[i].fileName) in Names(items[..i]) then [] else [EntryOf(Fixed(items[i]))])
  {
    assert items[..i + 1] == items[..i] + [items[i]];
    assert items[..i + 1][..i] == items[..i];
    NamesSnoc(items[..i], items[i]);
  }

  lemma HasNavSnoc(entries: seq<Entry>, e: Entry)
    ensures HasNavProperty(entries + [e]) <==> HasNavProperty(entries) || "nav" in e.properties
  {
    if "nav" in e.properties {
      assert (entries + [e])[|entries|] == e;
    }
    if HasNavProperty(entries) {
      var k :| 0 <= k < |entries| && "nav" in entries[k].properties;
      assert (entries + [e])[k] == entries[k];
    }
  }

  /** Every entry comes from the first item with its file name: the entry
      holds that item's rewritten id, file name, media type and properties. */
  lemma {:induction false} ManifestEntriesFromFirst(items: seq<Rec>)
    ensures forall e :: e in Manifest(items) ==>
      exists j :: 0 <= j < |items| && e == EntryOf(Fixed(items[j])) && Underscored(items[j].fileName) !in Names(items[..j])
  {
    if items != [] {
      var k := |items| - 1;
      ManifestEntriesFromFirst(items[..k]);
      forall e | e in Manifest(items)
        ensures exists j :: 0 <= j < |items| && e == EntryOf(Fixed(items[j])) && Underscored(items[j].fileName) !in Names(items[..j])
      {
        if e in Manifest(items[..k]) {
          var j :| 0 <= j < k && e == EntryOf(Fixed(items[..k][j])) && Underscored(items[..k][j].fileName) !in Names(items[..k][..j]);
          assert items[..k][..j] == items[..j];
        }
      }
    }
  }

  /** The manifest lists every file name of the items once: no two entries
      share an href, and the hrefs are exactly the items' file names. */
  lemma {:induction false} ManifestFileNames(items: seq<Rec>)
    ensures forall i, j :: 0 <= i < j < |Manifest(items)| ==> Manifest(items)[i].href != Manifest(items)[j].href
    ensures forall e :: e in Manifest(items) ==> e.href in Names(items)
    ensures forall n :: n in Names(items) ==> exists e :: e in Manifest(items) && e.href == n
  {
    if items != [] {
      var k := |items| - 1;
      var init, last := items[..k], items[k];
      ManifestFileNames(init);
      assert items == init + [last];
      NamesSnoc(init, last);
      var m := Manifest(items);
      forall e | e in m ensures e.href in Names(items) {
        if e in Manifest(init) {
          assert e.href in Names(init);
        }
      }
      forall n | n in Names(items) ensures exists e :: e in m && e.href == n {
        if n in Names(init) {
          var e :| e in Manifest(init) && e.href == n;
          assert e in m;
        } else {
          assert m[|m| - 1].href == n;
        }
      }
    }
  }

  /** Every manifest id is made of pattern characters and has no colon; ids
      are not made unique, and nothing keeps an id from starting with a digit. */
  lemma ManifestIdsClean(items: seq<Rec>)
    ensures forall e :: e in Manifest(items) ==> All(e.id, IdChar) && ':' !in e.id
  {
    ManifestEntriesFromFirst(items);
    forall e | e in Manifest(items) ensures All(e.id, IdChar) && ':' !in e.id {
      var j :| 0 <= j < |items| && e == EntryOf(Fixed(items[j])) && Underscored(items[j].fileName) !in Names(items[..j]);
      ManifestIdIsCleanId(items[j].id);
    }
  }

  /** Two items with different files and the same id give two entries with
      the same id. */
  lemma ManifestKeepsDuplicateIds(a: Rec, b: Rec)
    requires a.id == b.id && Underscored(a.fileName) != Underscored(b.fileName)
    ensures |Manifest([a, b])| == 2 && Manifest([a, b])[0].id == Manifest([a, b])[1].id
  {
    assert [a, b][..1] == [a];
    assert [a][..0] == [];
    assert Names([a]) == {Underscored(a.fileName)};
  }

  // The nav property.

  /** The position of the first item, in book order, with the given file name. */
  function FirstNamed(items: seq<Rec>, name: string): (r: Option<nat>)
    ensures r.Some? ==> r.value < |items| && items[r.value].fileName == name
    ensures r.Some? ==> forall j :: 0 <= j < r.value ==> items[j].fileName != name
    ensures r.None? ==> forall j :: 0 <= j < |items| ==> items[j].fileName != name
  {
    if items == [] then None
    else if items[0].fileName == name then Some(0)
    else match FirstNamed(items[1..], name)
      case None => None
      case Some(j) => Some(j + 1)
  }

  function MarkEntry(e: Entry, it: Rec): Entry {
    e.(navMarked := e.navMarked || (e.id == it.id && e.href == "nav.xhtml" && e.mediaType == it.mediaType))
  }

  /** When no entry has the nav property, the <item> lines of the first
      nav.xhtml item (same id, href and media type) get properties="nav". */
  function NavMarked(entries: seq<Entry>, items: seq<Rec>, navFound: bool): (r: seq<Entry>)
    ensures |r| == |entries|
  {
    if navFound then entries
    else match FirstNamed(items, "nav.xhtml")
      case None => entries
      case Some(i) => seq(|entries|, k requires 0 <= k < |entries| => MarkEntry(entries[k], items[i]))
  }

  method MarkNav(items: array<Rec>, entries: seq<Entry>, navFound: bool) returns (r: seq<Entry>)
    ensures r == NavMarked(entries, items[..], navFound)
  {
    r := entries;
    if !navFound {
      var i := 0;
      while i < items.Length
        invariant 0 <= i <= items.Length
        invariant forall j :: 0 <= j < i ==> items[j].fileName != "nav.xhtml"
      {
        if items[i].fileName == "nav.xhtml" {
          var it := items[i];
          var marked: seq<Entry> := [];
          var k := 0;
          while k < |entries|
            invariant 0 <= k <= |entries|
            invariant marked == seq(k, j requires 0 <= j < k => MarkEntry(entries[j], it))
          {
            marked := marked + [MarkEntry(entries[k], it)];
            k := k + 1;
          }
          return marked;
        }
        i := i + 1;
      }
    }
  }

  /** The first item with a file name not seen before has its entry in the
      manifest. */
  lemma {:induction false} ManifestHasFirst(items: seq<Rec>, i: nat)
    requires i < |items| && Underscored(items[i].fileName) !in Names(items[..i])
    ensures EntryOf(Fixed(items[i])) in Manifest(items)
  {
    var k := |items| - 1;
    if i < k {
      ManifestHasFirst(items[..k], i);
      assert items[..k][..i] == items[..i];
    } else {
      assert items[..k] == items[..i];
    }
  }

  /** After the fix, the manifest declares a navigation document whenever
      some item is nav.xhtml: an entry with the nav property or a marked one. */
  lemma NavDeclared(items: seq<Rec>)
    requires forall x :: x in items ==> x.fileName == Underscored(x.fileName)
    requires exists x :: x in items && x.fileName == "nav.xhtml"
    ensures var m := Manifest(items);
      var r := NavMarked(m, FixedAll(items), HasNavProperty(m));
      exists k :: 0 <= k < |r| && ("nav" in r[k].properties || r[k].navMarked)
  {
    var m := Manifest(items);
    if HasNavProperty(m) {
      assert NavMarked(m, FixedAll(items), true) == m;
      var k :| 0 <= k < |m| && "nav" in m[k].properties;
    } else {
      var f := FixedAll(items);
      var x :| x in items && x.fileName == "nav.xhtml";
      var ix :| 0 <= ix < |items| && items[ix] == x;
      assert f[ix].fileName == "nav.xhtml";
      NavEntryMarked(items, FirstNamed(f, "nav.xhtml").value);
    }
  }

  /** The entry of the first nav.xhtml item is the one the fix marks. */
  lemma NavEntryMarked(items: seq<Rec>, i: nat)
    requires forall x :: x in items ==> x.fileName == Underscored(x.fileName)
    requires FirstNamed(FixedAll(items), "nav.xhtml") == Some(i)
    ensures exists k :: 0 <= k < |Manifest(items)| && NavMarked(Manifest(items), FixedAll(items), false)[k].navMarked
  {
    var f := FixedAll(items);
    var m := Manifest(items);
    forall y | y in items[..i] ensures Underscored(y.fileName) != "nav.xhtml" {
      var j :| 0 <= j < i && items[j] == y;
      assert f[j].fileName != "nav.xhtml";
    }
    ManifestHasFirst(items, i);
    var k :| 0 <= k < |m| && m[k] == EntryOf(Fixed(items[i]));
    var r := NavMarked(m, f, false);
    assert r == seq(|m|, j requires 0 <= j < |m| => MarkEntry(m[j], f[i]));
    assert r[k] == MarkEntry(m[k], f[i]);
    assert r[k].navMarked;
  }

  // Valid ids and the spine.

  function ValidIds(items: seq<Rec>): set<string> {
    set r | r in items :: CleanId(r.id)
  }

  /** The valid-id loop of _create_opf_file: cleans every item's id in place
      and collects the clean ids. */
  method CollectValidIds(items: array<Rec>) returns (valid: set<string>)
    modifies items
    ensures items[..] == CleanedAll(old(items[..]))
    ensures valid == ValidIds(old(items[..]))
  {
    ghost var original := items[..];
    valid := {};
    var i := 0;
    while i < items.Length
      invariant 0 <= i <= items.Length
      invariant forall k :: 0 <= k < i ==> items[k] == Cleaned(original[k])
      invariant forall k :: i <= k < items.Length ==> items[k] == original[k]
      invariant valid == ValidIds(original[..i])
    {
      var clean := CleanId(items[i].id);
      valid := valid + {clean};
      items[i] := items[i].(id := clean);
      assert original[..i + 1] == original[..i] + [original[i]];
      i := i + 1;
    }
    assert original[..items.Length] == original;
  }

  /** The spine <itemref>s: the clean id of each spine item that is a valid
      id, in spine order. */
  function SpineRefs(spine: seq<Rec>, valid: set<string>): (r: seq<string>)
    ensures |r| <= |spine|
  {
    if spine == [] then []
    else
      var k := |spine| - 1;
      SpineRefs(spine[..k], valid) + (if CleanId(spine[k].id) in valid then [CleanId(spine[k].id)] else [])
  }

  method SpineItemRefs(spine: seq<Rec>, valid: set<string>) returns (refs: seq<string>)
    ensures refs == SpineRefs(spine, valid)
  {
    refs := [];
    var i := 0;
    while i < |spine|
      invariant 0 <= i <= |spine|
      invariant refs == SpineRefs(spine[..i], valid)
    {
      var id := CleanId(spine[i].id);
      assert spine[..i + 1][..i] == spine[..i];
      if id in valid {
        refs := refs + [id];
      }
      i := i + 1;
    }
    assert spine[..i] == spine;
  }

  /** Every itemref names a valid id, and every spine item with a valid id
      is referred to. */
  lemma {:induction false} SpineRefsProperties(spine: seq<Rec>, valid: set<string>)
    ensures forall x :: x in SpineRefs(spine, valid) ==> x in valid
    ensures forall r :: r in spine && CleanId(r.id) in valid ==> CleanId(r.id) in SpineRefs(spine, valid)
  {
    if spine != [] {
      var k := |spine| - 1;
      SpineRefsProperties(spine[..k], valid);
      assert spine == spine[..k] + [spine[k]];
      forall r | r in spine && CleanId(r.id) in valid ensures CleanId(r.id) in SpineRefs(spine, valid) {
        if r != spine[k] {
          assert r in spine[..k];
        }
      }
    }
  }

  /** When every spine item has a valid id, the spine is kept whole and in order. */
  lemma {:induction false} SpineRefsAllValid(spine: seq<Rec>, valid: set<string>)
    requires forall r :: r in spine ==> CleanId(r.id) in valid
    ensures SpineRefs(spine, valid) == seq(|spine|, i requires 0 <= i < |spine| => CleanId(spine[i].id))
  {
    if spine != [] {
      var k := |spine| - 1;
      assert forall r :: r in spine[..k] ==> r in spine;
      SpineRefsAllValid(spine[..k], valid);
    }
  }

  /** The itemrefs of two spine parts are those of each part in turn. */
  lemma {:induction false} SpineRefsAppend(a: seq<Rec>, b: seq<Rec>, valid: set<string>)
    ensures SpineRefs(a + b, valid) == SpineRefs(a, valid) + SpineRefs(b, valid)
    decreases |b|
  {
    if b == [] {
      assert a + b == a;
    } else {
      var k := |b| - 1;
      assert (a + b)[..|a + b| - 1] == a + b[..k];
      SpineRefsAppend(a, b[..k], valid);
    }
  }

  /** The itemrefs depend on the clean ids of the spine items only. */
  lemma {:induction false} SpineRefsCongruent(a: seq<Rec>, b: seq<Rec>, valid: set<string>)
    requires |a| == |b| && forall k :: 0 <= k < |a| ==> CleanId(a[k].id) == CleanId(b[k].id)
    ensures SpineRefs(a, valid) == SpineRefs(b, valid)
  {
    if a != [] {
      SpineRefsCongruent(a[..|a| - 1], b[..|b| - 1], valid);
    }
  }

  /** The manifest depends on the items only as the manifest loop fixes them. */
  lemma {:induction false} ManifestCongruent(a: seq<Rec>, b: seq<Rec>)
    requires FixedAll(a) == FixedAll(b)
    ensures Manifest(a) == Manifest(b) && Names(a) == Names(b)
  {
    if a != [] {
      var k := |a| - 1;
      assert FixedAll(a[..k]) == FixedAll(a)[..k];
      assert FixedAll(b[..k]) == FixedAll(b)[..k];
      ManifestCongruent(a[..k], b[..k]);
      assert Fixed(a[k]) == FixedAll(a)[k] == FixedAll(b)[k] == Fixed(b[k]);
      assert a == a[..k] + [a[k]];
      assert b == b[..k] + [b[k]];
      ManifestSnocCongruent(a[..k], b[..k], a[k], b[k]);
    }
  }

  lemma ManifestSnocCongruent(a: seq<Rec>, b: seq<Rec>, x: Rec, y: Rec)
    requires Manifest(a) == Manifest(b) && Names(a) == Names(b) && Fixed(x) == Fixed(y)
    ensures Manifest(a + [x]) == Manifest(b + [y]) && Names(a + [x]) == Names(b + [y])
  {
    assert (a + [x])[..|a|] == a;
    assert (b + [y])[..|b|] == b;
    assert Underscored(x.fileName) == Fixed(x).fileName == Underscored(y.fileName);
    NamesSnoc(a, x);
    NamesSnoc(b, y);
  }

  /** Marking the navigation document changes no id, href, media type or
      properties of an entry. */
  lemma NavMarkedKeeps(entries: seq<Entry>, items: seq<Rec>, navFound: bool)
    ensures var r := NavMarked(entries, items, navFound);
      forall k :: 0 <= k < |entries| ==> r[k] == entries[k].(navMarked := r[k].navMarked)
  {
  }

  /** The valid ids do not change when the manifest loop has fixed the items first. */
  lemma ValidIdsAfterManifest(items: seq<Rec>)
    ensures ValidIds(FixedAll(ExtractedAll(items))) == ValidIds(items)
  {
    var f := FixedAll(ExtractedAll(items));
    forall i | 0 <= i < |items| ensures CleanId(f[i].id) == CleanId(items[i].id) {
      SpineIdOfRewrittenItem(items[i].id);
      CleanIdProperties(ManifestId(items[i].id));
      CleanIdProperties(CleanId(items[i].id));
      ManifestIdIsCleanId(items[i].id);
    }
    forall x | x in ValidIds(f) ensures x in ValidIds(items) {
      var r :| r in f && x == CleanId(r.id);
      var i :| 0 <= i < |f| && f[i] == r;
      assert items[i] in items;
    }
    forall x | x in ValidIds(items) ensures x in ValidIds(f) {
      var r :| r in items && x == CleanId(r.id);
      var i :| 0 <= i < |items| && items[i] == r;
      assert f[i] in f;
    }
  }

  /** Extraction does not change the file names the manifest sees. */
  lemma NamesExtracted(items: seq<Rec>)
    ensures Names(ExtractedAll(items)) == Names(items)
  {
    var ex := ExtractedAll(items);
    forall i | 0 <= i < |items| ensures Underscored(ex[i].fileName) == Underscored(items[i].fileName) {
      UnderscoredIdempotent(items[i].fileName);
    }
    forall x | x in Names(ex) ensures x in Names(items) {
      var r :| r in ex && x == Underscored(r.fileName);
      var i :| 0 <= i < |ex| && ex[i] == r;
      assert items[i] in items;
    }
    forall x | x in Names(items) ensures x in Names(ex) {
      var r :| r in items && x == Underscored(r.fileName);
      var i :| 0 <= i < |items| && items[i] == r;
      assert ex[i] in ex;
    }
  }

  /** A spine that opens with the same valid item twice refers to it twice first. */
  lemma SpineRefsRepeatedFirst(c: Rec, rest: seq<Rec>, valid: set<string>)
    requires CleanId(c.id) in valid
    ensures var refs := SpineRefs([c, c] + rest, valid);
      |refs| >= 2 && refs[0] == CleanId(c.id) && refs[1] == CleanId(c.id)
  {
    SpineRefsAppend([c, c], rest, valid);
    assert [c, c][..1] == [c];
    assert [c][..0] == [];
  }
}
