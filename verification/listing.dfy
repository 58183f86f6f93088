/*
 * Listing: how mangabook/cli.py (get_volumes) groups the chapters the API
 * returns into volumes. Every chapter goes to the volume its attributes
 * name, or to "0" when they name none; a volume's count is the number of
 * chapters put into it; "0" is there from the start and dropped at the end
 * when nothing landed in it; each volume's chapters are then sorted by
 * ChapterOrder.ChapterKey, numbered chapters first.
 *
 * The chapter list is a parameter (the API call is not modelled), and
 * the dict is an insertion-ordered association list (module Dicts).
 */
module Listing {
  import opened Text
  import opened Dicts
  import Sorting
  import ChapterOrder

  /** The attributes get_volumes reads from one chapter of the API answer. */
  datatype ChapterInfo = ChapterInfo(
    id: string, volume: Option<string>, number: Option<string>,
    title: Option<string>, pages: nat)

  /** The record get_volumes keeps for a chapter. */
  datatype ChapterRow = ChapterRow(
    id: string, number: string, title: Option<string>, pages: nat, volume: string)

  /** One volume: its chapters, their count and the name shown for it. */
  datatype VolumeEntry = VolumeEntry(chapters: seq<ChapterRow>, count: nat, displayName: string)

  type Volumes = Dict<string, VolumeEntry>

  const Ungrouped := "0"
  const UngroupedName := "Ungrouped Chapters"

  /** `x or default` on an optional string: None and "" are both falsy. */
  function OrElse(x: Option<string>, default: string): (r: string)
    ensures x.Some? && x.value != "" ==> r == x.value
    ensures (x.None? || x.value == "") ==> r == default
  {
    if x.Some? && x.value != "" then x.value else default
  }

  /** The volume a chapter belongs to. */
  function VolumeOf(c: ChapterInfo): string {
    OrElse(c.volume, Ungrouped)
  }

  function RowOf(c: ChapterInfo): (r: ChapterRow)
    ensures r.volume == VolumeOf(c) && r.id == c.id
  {
    ChapterRow(c.id, OrElse(c.number, "Unknown"), c.title, c.pages, VolumeOf(c))
  }

  function DisplayName(v: string): string {
    if v == Ungrouped then UngroupedName else "Volume " + v
  }

  /** The dict before any chapter is seen: only the empty "0" entry. */
  function Initial(): Volumes {
    [(Ungrouped, VolumeEntry([], 0, UngroupedName))]
  }

  /** Creates the entry of volume v when it is missing; for "0" resets its
      display name. */
  function Touch(d: Volumes, v: string): (r: Volumes)
    ensures v in Keys(r)
  {
    if v !in Keys(d) then
      PutKeys(d, v, VolumeEntry([], 0, DisplayName(v)));
      Put(d, v, VolumeEntry([], 0, DisplayName(v)))
    else if v == Ungrouped then
      PutKeys(d, v, Get(d, v).value.(displayName := UngroupedName));
      Put(d, v, Get(d, v).value.(displayName := UngroupedName))
    else d
  }

  /** Appends a chapter to the entry of volume v and counts it. */
  function Append(d: Volumes, v: string, row: ChapterRow): Volumes
    requires v in Keys(d)
  {
    var e := Get(d, v).value;
    Put(d, v, e.(chapters := e.chapters + [row], count := e.count + 1))
  }

  /** One turn of the grouping loop. */
  function AddChapter(d: Volumes, c: ChapterInfo): Volumes {
    Append(Touch(d, VolumeOf(c)), VolumeOf(c), RowOf(c))
  }

  /** The dict after the grouping loop has seen the chapters cs. */
  function Grouping(cs: seq<ChapterInfo>): Volumes {
    if cs == [] then Initial() else AddChapter(Grouping(cs[..|cs| - 1]), cs[|cs| - 1])
  }

  /** Drops "0" when its count is 0. */
  function Prune(d: Volumes): Volumes {
    match Get(d, Ungrouped)
    case Some(e) => if e.count == 0 then Remove(d, Ungrouped) else d
    case None => d
  }

  /** The sort key of a chapter: its number, numbered chapters first. */
  function RowRank(r: ChapterRow): Sorting.Rank {
    ChapterOrder.ChapterKey(r.number)
  }

  function SortedEntry(e: VolumeEntry): VolumeEntry {
    e.(chapters := Sorting.SortBy(e.chapters, RowRank))
  }

  /** Sorts the chapters of every volume, keeping the keys where they are. */
  function SortEntries(d: Volumes): (r: Volumes)
    ensures |r| == |d|
  {
    seq(|d|, i requires 0 <= i < |d| => (d[i].0, SortedEntry(d[i].1)))
  }

  /** What get_volumes returns for the chapter list cs. */
  function VolumesOf(cs: seq<ChapterInfo>): Volumes {
    SortEntries(Prune(Grouping(cs)))
  }

  /** The grouping, pruning and sorting loops of get_volumes. */
  method GetVolumes(cs: seq<ChapterInfo>) returns (volumes: Volumes)
    ensures volumes == VolumesOf(cs)
  {
    volumes := [(Ungrouped, VolumeEntry([], 0, UngroupedName))];
    var i := 0;
    while i < |cs|
      invariant i <= |cs|
      invariant volumes == Grouping(cs[..i])
    {
      volumes := AddChapterTo(volumes, cs[i]);
      assert cs[..i + 1][..i] == cs[..i];
      i := i + 1;
    }
    assert cs[..i] == cs;
    volumes := DropEmptyUngrouped(volumes);
    volumes := SortVolumes(volumes);
  }

  /** Removes "0" when no chapter landed in it. */
  method DropEmptyUngrouped(volumes: Volumes) returns (r: Volumes)
    ensures r == Prune(volumes)
  {
    r := volumes;
    match Get(r, Ungrouped) {
      case Some(e) =>
        if e.count == 0 {
          r := Remove(r, Ungrouped);
        }
      case None =>
    }
  }

  /** One turn of the grouping loop: the entry of the chapter's volume is
      created when missing, then gets the chapter and a higher count. */
  method AddChapterTo(volumes: Volumes, c: ChapterInfo) returns (r: Volumes)
    ensures r == AddChapter(volumes, c)
  {
    var v := VolumeOf(c);
    r := volumes;
    if v !in Keys(r) {
      r := Put(r, v, VolumeEntry([], 0, DisplayName(v)));
    } else if v == Ungrouped {
      r := Put(r, v, Get(r, v).value.(displayName := UngroupedName));
    }
    assert r == Touch(volumes, v);
    r := Append(r, v, RowOf(c));
  }

  /** The loop sorting the chapters of each volume in place. */
  method SortVolumes(volumes: Volumes) returns (r: Volumes)
    ensures r == SortEntries(volumes)
  {
    r := volumes;
    var k := 0;
    while k < |r|
      invariant |r| == |volumes| && k <= |r|
      invariant forall j :: 0 <= j < k ==> r[j] == (volumes[j].0, SortedEntry(volumes[j].1))
      invariant forall j :: k <= j < |r| ==> r[j] == volumes[j]
    {
      var e := r[k].1;
      r := r[k := (r[k].0, e.(chapters := Sorting.SortBy(e.chapters, RowRank)))];
      k := k + 1;
    }
  }

  /** The volumes the chapters cs name. */
  function Named(cs: seq<ChapterInfo>): set<string> {
    set i | 0 <= i < |cs| :: VolumeOf(cs[i])
  }

  /** The rows of the chapters of cs that belong to volume v, in list order. */
  function RowsIn(cs: seq<ChapterInfo>, v: string): seq<ChapterRow> {
    if cs == [] then []
    else RowsIn(cs[..|cs| - 1], v) + (if VolumeOf(cs[|cs| - 1]) == v then [RowOf(cs[|cs| - 1])] else [])
  }

  /** The entry get_volumes builds for volume v before sorting. */
  function EntryFor(cs: seq<ChapterInfo>, v: string): VolumeEntry {
    VolumeEntry(RowsIn(cs, v), |RowsIn(cs, v)|, DisplayName(v))
  }

  lemma NamedSnoc(cs: seq<ChapterInfo>)
    requires cs != []
    ensures Named(cs) == Named(cs[..|cs| - 1]) + {VolumeOf(cs[|cs| - 1])}
  {
    var init := cs[..|cs| - 1];
    forall x | x in Named(cs) ensures x in Named(init) + {VolumeOf(cs[|cs| - 1])} {
      var i :| 0 <= i < |cs| && VolumeOf(cs[i]) == x;
      if i < |init| { assert VolumeOf(init[i]) == x; }
    }
    forall x | x in Named(init) ensures x in Named(cs) {
      var i :| 0 <= i < |init| && VolumeOf(init[i]) == x;
      assert VolumeOf(cs[i]) == x;
    }
  }

  /** A volume no chapter names has no rows, and one that is named has some. */
  lemma {:induction false} RowsInEmpty(cs: seq<ChapterInfo>, v: string)
    ensures RowsIn(cs, v) == [] <==> v !in Named(cs)
  {
    if cs != [] {
      RowsInEmpty(cs[..|cs| - 1], v);
      NamedSnoc(cs);
    }
  }

  lemma TouchKeys(d: Volumes, v: string)
    ensures Keys(Touch(d, v)) == Keys(d) + {v}
    ensures DistinctKeys(d) ==> DistinctKeys(Touch(d, v))
  {
    if v !in Keys(d) {
      PutKeys(d, v, VolumeEntry([], 0, DisplayName(v)));
      if DistinctKeys(d) { PutDistinct(d, v, VolumeEntry([], 0, DisplayName(v))); }
    } else if v == Ungrouped {
      PutKeys(d, v, Get(d, v).value.(displayName := UngroupedName));
      if DistinctKeys(d) { PutDistinct(d, v, Get(d, v).value.(displayName := UngroupedName)); }
    }
  }

  lemma AppendKeys(d: Volumes, v: string, row: ChapterRow)
    requires v in Keys(d)
    ensures Keys(Append(d, v, row)) == Keys(d)
    ensures DistinctKeys(d) ==> DistinctKeys(Append(d, v, row))
  {
    var e := Get(d, v).value;
    PutKeys(d, v, e.(chapters := e.chapters + [row], count := e.count + 1));
    if DistinctKeys(d) { PutDistinct(d, v, e.(chapters := e.chapters + [row], count := e.count + 1)); }
  }

  /** The keys of the grouping are "0" and the named volumes. */
  lemma {:induction false} GroupingKeys(cs: seq<ChapterInfo>)
    ensures Keys(Grouping(cs)) == {Ungrouped} + Named(cs)
    ensures DistinctKeys(Grouping(cs))
  {
    if cs == [] {
      assert Keys(Initial()) == {Ungrouped} by {
        assert Initial()[0].0 == Ungrouped;
      }
    } else {
      var init, c := cs[..|cs| - 1], cs[|cs| - 1];
      GroupingKeys(init);
      NamedSnoc(cs);
      TouchKeys(Grouping(init), VolumeOf(c));
      AppendKeys(Touch(Grouping(init), VolumeOf(c)), VolumeOf(c), RowOf(c));
    }
  }

  /** What Touch does to the lookup of one key. */
  lemma TouchGet(d: Volumes, v: string, w: string)
    ensures Get(Touch(d, v), w) ==
      if w != v then Get(d, w)
      else if v !in Keys(d) then Some(VolumeEntry([], 0, DisplayName(v)))
      else if v == Ungrouped then Some(Get(d, v).value.(displayName := UngroupedName))
      else Get(d, v)
  {
    if v !in Keys(d) {
      PutGet(d, v, VolumeEntry([], 0, DisplayName(v)), w);
    } else if v == Ungrouped {
      PutGet(d, v, Get(d, v).value.(displayName := UngroupedName), w);
    }
  }

  /** What the grouping holds for volume w after the chapters cs. */
  function Expected(cs: seq<ChapterInfo>, w: string): Option<VolumeEntry> {
    if w == Ungrouped || w in Named(cs) then Some(EntryFor(cs, w)) else None
  }

  /**
   * During the grouping loop, "0" and every named volume hold the rows of
   * their chapters in list order, their count and their display name;
   * no other volume is there.
   */
  lemma {:induction false} GroupingGet(cs: seq<ChapterInfo>, w: string)
    ensures Get(Grouping(cs), w) == Expected(cs, w)
  {
    if cs == [] {
      if w == Ungrouped { IndexOfAt(Initial(), w, 0); }
    } else {
      var init, c := cs[..|cs| - 1], cs[|cs| - 1];
      GroupingGet(init, w);
      if w != VolumeOf(c) {
        GroupingOther(cs, w);
      } else {
        GroupingSame(cs);
      }
    }
  }

  lemma {:induction false} GroupingOther(cs: seq<ChapterInfo>, w: string)
    requires cs != [] && w != VolumeOf(cs[|cs| - 1])
    requires Get(Grouping(cs[..|cs| - 1]), w) == Expected(cs[..|cs| - 1], w)
    ensures Get(Grouping(cs), w) == Expected(cs, w)
  {
    var init, c := cs[..|cs| - 1], cs[|cs| - 1];
    NamedSnoc(cs);
    EntryForSnoc(cs, w);
    AddOther(Grouping(init), c, w);
  }

  lemma {:induction false} GroupingSame(cs: seq<ChapterInfo>)
    requires cs != []
    requires var v := VolumeOf(cs[|cs| - 1]); Get(Grouping(cs[..|cs| - 1]), v) == Expected(cs[..|cs| - 1], v)
    ensures var v := VolumeOf(cs[|cs| - 1]); Get(Grouping(cs), v) == Expected(cs, v)
  {
    var init, c := cs[..|cs| - 1], cs[|cs| - 1];
    var v := VolumeOf(c);
    NamedSnoc(cs);
    EntryForSnoc(cs, v);
    RowsInEmpty(init, v);
    assert Before(Grouping(init), v) == EntryFor(init, v);
    AddSame(Grouping(init), c);
  }

  /** The entry of volume v once Touch has run, before the chapter is added. */
  function Before(d: Volumes, v: string): VolumeEntry {
    match Get(d, v)
    case None => VolumeEntry([], 0, DisplayName(v))
    case Some(e) => if v == Ungrouped then e.(displayName := UngroupedName) else e
  }

  /** Adding a chapter leaves the other volumes alone. */
  lemma AddOther(d: Volumes, c: ChapterInfo, w: string)
    requires w != VolumeOf(c)
    ensures Get(AddChapter(d, c), w) == Get(d, w)
  {
    var v := VolumeOf(c);
    TouchGet(d, v, w);
    AppendOther(Touch(d, v), v, RowOf(c), w);
  }

  /** Adding a chapter appends its row to its volume and counts it. */
  lemma AddSame(d: Volumes, c: ChapterInfo)
    ensures var v := VolumeOf(c);
      Get(AddChapter(d, c), v) ==
        Some(Before(d, v).(chapters := Before(d, v).chapters + [RowOf(c)], count := Before(d, v).count + 1))
  {
    var v := VolumeOf(c);
    TouchGet(d, v, v);
    AppendSame(Touch(d, v), v, RowOf(c));
  }

  /** The entry of a volume after one more chapter of the list. */
  lemma EntryForSnoc(cs: seq<ChapterInfo>, w: string)
    requires cs != []
    ensures var init, c := cs[..|cs| - 1], cs[|cs| - 1];
      EntryFor(cs, w) ==
        if VolumeOf(c) == w then
          EntryFor(init, w).(chapters := EntryFor(init, w).chapters + [RowOf(c)], count := EntryFor(init, w).count + 1)
        else EntryFor(init, w)
  {
  }

  lemma AppendOther(d: Volumes, v: string, row: ChapterRow, w: string)
    requires v in Keys(d) && w != v
    ensures Get(Append(d, v, row), w) == Get(d, w)
  {
    var e := Get(d, v).value;
    PutGet(d, v, e.(chapters := e.chapters + [row], count := e.count + 1), w);
  }

  lemma AppendSame(d: Volumes, v: string, row: ChapterRow)
    requires v in Keys(d)
    ensures var e := Get(d, v).value;
      Get(Append(d, v, row), v) == Some(e.(chapters := e.chapters + [row], count := e.count + 1))
  {
    var e := Get(d, v).value;
    PutGet(d, v, e.(chapters := e.chapters + [row], count := e.count + 1), v);
  }

  /** Two dicts with the same key at every index find every key at the same index. */
  lemma SameKeysIndexOf<V>(d: Dict<string, V>, e: Dict<string, V>, k: string)
    requires |d| == |e| && forall i :: 0 <= i < |d| ==> d[i].0 == e[i].0
    ensures IndexOf(d, k) == IndexOf(e, k)
  {
    match IndexOf(d, k)
    case Some(j) => IndexOfAt(e, k, j);
    case None =>
  }

  lemma SortEntriesGet(d: Volumes, w: string)
    ensures Get(SortEntries(d), w) == match Get(d, w) case Some(e) => Some(SortedEntry(e)) case None => None
  {
    SameKeysIndexOf(d, SortEntries(d), w);
  }

  /**
   * get_volumes: exactly the named volumes are there ("0" only when some
   * chapter has no volume); each holds its chapters sorted by chapter
   * number, as a reordering of the rows of its chapters, and its count is
   * their number.
   */
  lemma VolumesGet(cs: seq<ChapterInfo>, w: string)
    ensures Get(VolumesOf(cs), w) ==
      if w in Named(cs) then Some(SortedEntry(EntryFor(cs, w))) else None
  {
    var g := Grouping(cs);
    GroupingGet(cs, w);
    GroupingGet(cs, Ungrouped);
    GroupingKeys(cs);
    RowsInEmpty(cs, Ungrouped);
    SortEntriesGet(Prune(g), w);
    var e := Get(g, Ungrouped).value;
    assert e.count == 0 <==> Ungrouped !in Named(cs);
    if e.count == 0 {
      assert Prune(g) == Remove(g, Ungrouped);
      RemoveKeys(g, Ungrouped);
      if w != Ungrouped {
        RemoveGet(g, Ungrouped, w);
      }
    } else {
      assert Prune(g) == g;
    }
  }

  /** Every chapter lands in the volume its attributes name ("0" when none). */
  lemma {:induction false} RowsInHas(cs: seq<ChapterInfo>, k: nat)
    requires k < |cs|
    ensures RowOf(cs[k]) in RowsIn(cs, VolumeOf(cs[k]))
  {
    var init := cs[..|cs| - 1];
    if k < |init| {
      RowsInHas(init, k);
      assert init[k] == cs[k];
    }
  }

  lemma ChapterLands(cs: seq<ChapterInfo>, k: nat)
    requires k < |cs|
    ensures VolumeOf(cs[k]) in Named(cs)
    ensures Get(VolumesOf(cs), VolumeOf(cs[k])).Some?
    ensures RowOf(cs[k]) in Get(VolumesOf(cs), VolumeOf(cs[k])).value.chapters
  {
    var v := VolumeOf(cs[k]);
    VolumesGet(cs, v);
    RowsInHas(cs, k);
    var rows := RowsIn(cs, v);
    assert RowOf(cs[k]) in multiset(rows);
  }

  /** A volume's count is the number of its chapters, and they are in key order. */
  lemma VolumeEntryShape(cs: seq<ChapterInfo>, w: string)
    requires Get(VolumesOf(cs), w).Some?
    ensures var e := Get(VolumesOf(cs), w).value;
      && e.count == |e.chapters|
      && Sorting.SortedBy(e.chapters, RowRank)
      && multiset(e.chapters) == multiset(RowsIn(cs, w))
      && e.displayName == DisplayName(w)
  {
    VolumesGet(cs, w);
  }

  /** The keys of the result are the named volumes... */
  lemma VolumesKeys(cs: seq<ChapterInfo>)
    ensures Keys(VolumesOf(cs)) == Named(cs)
  {
    forall x ensures x in Keys(VolumesOf(cs)) <==> x in Named(cs) {
      VolumesGet(cs, x);
    }
  }

  /** ...each of them once. */
  lemma VolumesDistinct(cs: seq<ChapterInfo>)
    ensures DistinctKeys(VolumesOf(cs))
  {
    var g := Grouping(cs);
    GroupingKeys(cs);
    RemoveKeys(g, Ungrouped);
    var p := Prune(g);
    assert DistinctKeys(p);
    assert forall i :: 0 <= i < |p| ==> SortEntries(p)[i].0 == p[i].0;
  }
}
