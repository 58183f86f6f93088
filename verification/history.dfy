/*
 * History: MangaHistory (mangabook/history.py), the record of what was
 * downloaded and read, per manga. The history is a dict of entries keyed by
 * manga id plus the time of the last change; reading and saving the JSON
 * file are not part of this model, except for the defaults _load_history
 * puts in.
 *
 * Timestamps are instants. The source keeps them as ISO-8601 strings of one
 * format, which compare as the instants they name; "now" is a parameter.
 */
module History {
  import opened Text
  import opened Dicts
  import Sorting

  type Timestamp = int

  const SecondsPerDay := 86400

  /** A value of the free-form metadata of a download. */
  datatype MetaValue = Str(s: string) | Strs(items: seq<string>)

  type Metadata = map<string, MetaValue>

  datatype Download = Download(timestamp: Timestamp, volumes: seq<string>, success: bool, metadata: Metadata)

  datatype ReadRecord = ReadRecord(lastRead: Timestamp, readCount: nat)

  /** The entry of one manga; `volumeReads` maps a volume to its read record. */
  datatype Entry = Entry(id: string, title: string, downloads: seq<Download>, volumes: seq<string>,
                         firstSeen: Timestamp, lastUpdated: Timestamp, volumeReads: Dict<string, ReadRecord>)

  /** What the history file held: no file, a file that could not be read, or
      a JSON object that may lack "manga" or "last_updated". */
  datatype Stored =
    | NoFile
    | Unreadable
    | Stored(manga: Option<Dict<string, Entry>>, lastUpdated: Option<Timestamp>)

  datatype HistoryData = HistoryData(manga: Dict<string, Entry>, lastUpdated: Timestamp)

  /** _load_history: a missing or unreadable file gives an empty history
      updated now; a read file keeps what it has and gains what it lacks. */
  function LoadHistory(stored: Stored, now: Timestamp): (r: HistoryData)
    ensures !stored.Stored? ==> r == HistoryData([], now)
    ensures stored.Stored? && stored.manga.Some? ==> r.manga == stored.manga.value
    ensures stored.Stored? && stored.manga.None? ==> r.manga == []
    ensures stored.Stored? && stored.lastUpdated.Some? ==> r.lastUpdated == stored.lastUpdated.value
    ensures stored.Stored? && stored.lastUpdated.None? ==> r.lastUpdated == now
  {
    match stored
    case NoFile => HistoryData([], now)
    case Unreadable => HistoryData([], now)
    case Stored(manga, lastUpdated) =>
      HistoryData(if manga.Some? then manga.value else [],
                  if lastUpdated.Some? then lastUpdated.value else now)
  }

  /** The entry record_manga_download starts from: the stored one, or a new
      one first seen now. */
  function StartEntry(manga: Dict<string, Entry>, mangaId: string, title: string, now: Timestamp): Entry {
    match Get(manga, mangaId)
    case Some(e) => e
    case None => Entry(mangaId, title, [], [], now, now, [])
  }

  /** list(set(prev) | set(added)), in first-occurrence order; the source's
      order is that of a Python set and is not specified. */
  method UnionList(prev: seq<string>, added: seq<string>) returns (r: seq<string>)
    ensures Distinct(r) && Elements(r) == Elements(prev) + Elements(added)
  {
    var all := prev + added;
    r := [];
    var i := 0;
    while i < |all|
      invariant i <= |all|
      invariant Distinct(r) && Elements(r) == Elements(all[..i])
    {
      assert Elements(all[..i + 1]) == Elements(all[..i]) + {all[i]} by {
        assert all[..i + 1] == all[..i] + [all[i]];
      }
      if all[i] !in r {
        assert Elements(r + [all[i]]) == Elements(r) + {all[i]} by {
          assert (r + [all[i]])[|r|] == all[i];
          forall x | x in Elements(r) ensures x in Elements(r + [all[i]]) {
            var j :| 0 <= j < |r| && r[j] == x;
            assert (r + [all[i]])[j] == x;
          }
        }
        r := r + [all[i]];
      } else {
        assert all[i] in Elements(r) by {
          var j :| 0 <= j < |r| && r[j] == all[i];
        }
      }
      i := i + 1;
    }
    assert all[..i] == all;
    assert Elements(all) == Elements(prev) + Elements(added) by {
      forall x | x in Elements(all) ensures x in Elements(prev) + Elements(added) {
        var j :| 0 <= j < |all| && all[j] == x;
        if j < |prev| { assert prev[j] == x; } else { assert added[j - |prev|] == x; }
      }
      forall x | x in Elements(prev) + Elements(added) ensures x in Elements(all) {
        if x in Elements(prev) {
          var j :| 0 <= j < |prev| && prev[j] == x;
          assert all[j] == x;
        } else {
          var j :| 0 <= j < |added| && added[j] == x;
          assert all[|prev| + j] == x;
        }
      }
    }
  }

  /** One manga of get_manga_list. */
  datatype Summary = Summary(id: string, title: string, volumes: seq<string>, firstSeen: Timestamp,
                             lastUpdated: Timestamp, downloadCount: nat, lastRead: Option<Timestamp>)

  /** The latest read of an entry, if it was ever read. */
  function LastRead(log: Dict<string, ReadRecord>): (r: Option<Timestamp>)
    ensures r.None? <==> log == []
    ensures r.Some? ==> exists i :: 0 <= i < |log| && log[i].1.lastRead == r.value
    ensures r.Some? ==> forall i :: 0 <= i < |log| ==> log[i].1.lastRead <= r.value
  {
    if log == [] then None
    else
      var t := log[|log| - 1].1.lastRead;
      match LastRead(log[..|log| - 1])
      case None => Some(t)
      case Some(m) =>
        assert forall i :: 0 <= i < |log| - 1 ==> log[i] == log[..|log| - 1][i];
        Some(if m >= t then m else t)
  }

  function SummaryOf(id: string, e: Entry): Summary {
    Summary(id, e.title, e.volumes, e.firstSeen, e.lastUpdated, |e.downloads|, LastRead(e.volumeReads))
  }

  /** The summaries in dict order, before sorting. */
  function Summaries(manga: Dict<string, Entry>): (r: seq<Summary>)
    ensures |r| == |manga|
    ensures forall i :: 0 <= i < |manga| ==> r[i] == SummaryOf(manga[i].0, manga[i].1)
  {
    seq(|manga|, i requires 0 <= i < |manga| => SummaryOf(manga[i].0, manga[i].1))
  }

  /** sort(key=last_updated, reverse=True): latest first, ties in dict order. */
  function ByLatestUpdate(s: Summary): Sorting.Rank {
    Sorting.Finite(-(s.lastUpdated as real))
  }

  /** The manga list: the summaries sorted latest update first. */
  function MangaList(manga: Dict<string, Entry>): seq<Summary> {
    Sorting.SortBy(Summaries(manga), ByLatestUpdate)
  }

  /**
   * get_manga_list: one summary per manga, latest update first. Each
   * summary counts the manga's downloads and carries its latest read, or
   * none when it was never read.
   */
  lemma MangaListProperties(manga: Dict<string, Entry>)
    ensures var list := MangaList(manga);
      && |list| == |manga|
      && multiset(list) == multiset(Summaries(manga))
      && (forall i, j :: 0 <= i < j < |list| ==> list[i].lastUpdated >= list[j].lastUpdated)
      && (forall s :: s in list ==> exists k :: 0 <= k < |manga| && s == SummaryOf(manga[k].0, manga[k].1))
  {
    var list := MangaList(manga);
    forall i, j | 0 <= i < j < |list| ensures list[i].lastUpdated >= list[j].lastUpdated {
      assert !Sorting.Below(ByLatestUpdate(list[j]), ByLatestUpdate(list[i]));
    }
    forall s | s in list ensures exists k :: 0 <= k < |manga| && s == SummaryOf(manga[k].0, manga[k].1) {
      assert s in multiset(Summaries(manga));
      var k :| 0 <= k < |Summaries(manga)| && Summaries(manga)[k] == s;
    }
  }

  /** The summaries updated after the cutoff, in list order. */
  function UpdatedAfter(list: seq<Summary>, cutoff: Timestamp): (r: seq<Summary>)
    ensures forall s :: s in r <==> s in list && s.lastUpdated > cutoff
  {
    if list == [] then []
    else
      var last := list[|list| - 1];
      UpdatedAfter(list[..|list| - 1], cutoff) + (if last.lastUpdated > cutoff then [last] else [])
  }

  /** The summaries read after the cutoff, in list order. */
  function ReadAfter(list: seq<Summary>, cutoff: Timestamp): (r: seq<Summary>)
    ensures forall s :: s in r <==> s in list && s.lastRead.Some? && s.lastRead.value > cutoff
  {
    if list == [] then []
    else
      var last := list[|list| - 1];
      ReadAfter(list[..|list| - 1], cutoff)
        + (if last.lastRead.Some? && last.lastRead.value > cutoff then [last] else [])
  }

  /** Manga ids are distinct, and so are the volumes of each entry's reads. */
  predicate ValidData(manga: Dict<string, Entry>) {
    DistinctKeys(manga) && forall i :: 0 <= i < |manga| ==> DistinctKeys(manga[i].1.volumeReads)
  }

  /** The entry a manga has in valid data has distinct volume reads. */
  lemma GetValid(manga: Dict<string, Entry>, mangaId: string)
    requires ValidData(manga)
    ensures Get(manga, mangaId).Some? ==> DistinctKeys(Get(manga, mangaId).value.volumeReads)
  {
  }

  /** Storing an entry with distinct volume reads keeps the data valid. */
  lemma PutValid(manga: Dict<string, Entry>, mangaId: string, e: Entry)
    requires ValidData(manga) && DistinctKeys(e.volumeReads)
    ensures ValidData(Put(manga, mangaId, e))
  {
    var r := Put(manga, mangaId, e);
    PutProperties(manga, mangaId, e);
    forall i | 0 <= i < |r| ensures DistinctKeys(r[i].1.volumeReads) {
      if r[i].0 != mangaId {
        IndexOfAt(r, r[i].0, i);
        var j := IndexOf(manga, r[i].0).value;
        assert manga[j].1 == r[i].1;
      } else {
        IndexOfAt(r, mangaId, i);
      }
    }
  }

  /** The read count of a volume: 0 when it was never read. */
  function ReadCount(volumeReads: Dict<string, ReadRecord>, volume: string): nat {
    match Get(volumeReads, volume)
    case None => 0
    case Some(r) => r.readCount
  }

  /** The reads after one more read of a volume now. */
  function Read(volumeReads: Dict<string, ReadRecord>, volume: string, now: Timestamp): Dict<string, ReadRecord> {
    Put(volumeReads, volume, ReadRecord(now, ReadCount(volumeReads, volume) + 1))
  }

  /** A read counts once for its volume, sets its last read, and leaves the
      other volumes' records alone: after n reads the count is n. */
  lemma ReadProperties(volumeReads: Dict<string, ReadRecord>, volume: string, now: Timestamp)
    requires DistinctKeys(volumeReads)
    ensures var r := Read(volumeReads, volume, now);
      && DistinctKeys(r)
      && ReadCount(r, volume) == ReadCount(volumeReads, volume) + 1
      && Get(r, volume).value.lastRead == now
      && forall v :: v != volume ==> Get(r, v) == Get(volumeReads, v)
  {
    PutProperties(volumeReads, volume, ReadRecord(now, ReadCount(volumeReads, volume) + 1));
  }

  class MangaHistory {
    var manga: Dict<string, Entry>
    var lastUpdated: Timestamp

    predicate Valid()
      reads this
    {
      ValidData(manga)
    }

    /** __init__: the history _load_history gives. */
    constructor(stored: Stored, now: Timestamp)
      requires stored.Stored? && stored.manga.Some? ==> ValidData(stored.manga.value)
      ensures Valid()
      ensures HistoryData(manga, lastUpdated) == LoadHistory(stored, now)
    {
      var data := LoadHistory(stored, now);
      manga := data.manga;
      lastUpdated := data.lastUpdated;
    }

    /**
     * record_manga_download: the manga's entry (a new one, first seen now,
     * when there is none) gains one download, its volumes become the union
     * of the old and the new ones without duplicates, and the entry and the
     * history are updated now. A new manga goes to the end of the dict;
     * every other entry stays as it was.
     */
    method RecordMangaDownload(mangaId: string, mangaTitle: string, volumes: seq<string>,
                               now: Timestamp, success: bool := true, metadata: Option<Metadata> := None)
      requires Valid()
      modifies this
      ensures Valid()
      ensures Keys(manga) == Keys(old(manga)) + {mangaId}
      ensures forall k :: k != mangaId ==> Get(manga, k) == Get(old(manga), k)
      ensures mangaId !in Keys(old(manga)) ==> |manga| == |old(manga)| + 1 && manga[..|old(manga)|] == old(manga)
      ensures var start := StartEntry(old(manga), mangaId, mangaTitle, now);
        && Get(manga, mangaId).Some?
        && var e := Get(manga, mangaId).value;
        && e.id == start.id && e.title == start.title && e.firstSeen == start.firstSeen
        && e.volumeReads == start.volumeReads
        && e.downloads == start.downloads
             + [Download(now, volumes, success, if metadata.Some? then metadata.value else map[])]
        && Distinct(e.volumes) && Elements(e.volumes) == Elements(start.volumes) + Elements(volumes)
        && e.lastUpdated == now
      ensures lastUpdated == now
    {
      var entry := StartEntry(manga, mangaId, mangaTitle, now);
      GetValid(manga, mangaId);
      var download := Download(now, volumes, success, if metadata.Some? then metadata.value else map[]);
      var union := UnionList(entry.volumes, volumes);
      entry := entry.(downloads := entry.downloads + [download], volumes := union, lastUpdated := now);
      PutProperties(manga, mangaId, entry);
      PutValid(manga, mangaId, entry);
      manga := Put(manga, mangaId, entry);
      lastUpdated := now;
    }

    /**
     * record_manga_read: nothing for a manga that is not in the history.
     * Otherwise the volume's read count goes up by one (from 0 when it was
     * never read), its last read is now, and the entry and the history are
     * updated now.
     */
    method RecordMangaRead(mangaId: string, volume: string, now: Timestamp)
      requires Valid()
      modifies this
      ensures Valid()
      ensures mangaId !in Keys(old(manga)) ==> manga == old(manga) && lastUpdated == old(lastUpdated)
      ensures mangaId in Keys(old(manga)) ==>
        var e := Get(old(manga), mangaId).value;
        && manga == Put(old(manga), mangaId, e.(volumeReads := Read(e.volumeReads, volume, now), lastUpdated := now))
        && lastUpdated == now
    {
      match Get(manga, mangaId)
      case None =>
      case Some(e) =>
        GetValid(manga, mangaId);
        ReadProperties(e.volumeReads, volume, now);
        var entry := e.(volumeReads := Read(e.volumeReads, volume, now), lastUpdated := now);
        PutValid(manga, mangaId, entry);
        manga := Put(manga, mangaId, entry);
        lastUpdated := now;
    }

    /** get_manga_list, with the summaries built in a loop over the dict. */
    method GetMangaList() returns (list: seq<Summary>)
      ensures list == MangaList(manga)
    {
      var summaries := [];
      var i := 0;
      while i < |manga|
        invariant i <= |manga|
        invariant summaries == Summaries(manga)[..i]
      {
        summaries := summaries + [SummaryOf(manga[i].0, manga[i].1)];
        i := i + 1;
      }
      assert summaries == Summaries(manga);
      list := Sorting.SortBy(summaries, ByLatestUpdate);
    }

    /** get_recently_updated: the manga list, keeping the manga updated less
        than `days` days before now. */
    method GetRecentlyUpdated(now: Timestamp, days: int := 30) returns (list: seq<Summary>)
      ensures list == UpdatedAfter(MangaList(manga), now - days * SecondsPerDay)
    {
      var all := GetMangaList();
      list := UpdatedAfter(all, now - days * SecondsPerDay);
    }

    /** get_recently_read: the manga list, keeping the manga read less than
        `days` days before now. */
    method GetRecentlyRead(now: Timestamp, days: int := 30) returns (list: seq<Summary>)
      ensures list == ReadAfter(MangaList(manga), now - days * SecondsPerDay)
    {
      var all := GetMangaList();
      list := ReadAfter(all, now - days * SecondsPerDay);
    }

    /** delete_manga_history: true exactly when the manga was there; only
        its entry goes, and the history is updated now when it did. */
    method DeleteMangaHistory(mangaId: string, now: Timestamp) returns (deleted: bool)
      requires Valid()
      modifies this
      ensures Valid()
      ensures deleted <==> mangaId in Keys(old(manga))
      ensures manga == Remove(old(manga), mangaId)
      ensures Keys(manga) == Keys(old(manga)) - {mangaId}
      ensures forall k :: k != mangaId ==> Get(manga, k) == Get(old(manga), k)
      ensures lastUpdated == if deleted then now else old(lastUpdated)
    {
      RemoveProperties(manga, mangaId);
      if mangaId in Keys(manga) {
        var i := IndexOf(manga, mangaId).value;
        ghost var before := manga;
        manga := Remove(manga, mangaId);
        DropAt(before, i, manga);
        lastUpdated := now;
        deleted := true;
      } else {
        deleted := false;
      }
    }
  }
}
