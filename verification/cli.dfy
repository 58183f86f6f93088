/*
 * Cli: the volume choice of mangabook/cli.py. parse_volume_selection reads
 * what the user typed ("all", single volumes, ranges "a-b", separated by
 * commas) against the list of available volume names; volume_selection_prompt
 * builds that list from the volumes get_volumes found and asks until a
 * selection is not empty.
 *
 * float() is a parameter `num` of the selection: a number, or None where
 * float() raises ValueError. The prompt passes Text.ParseDecimal (optional
 * whitespace and sign, digits with at most one dot), and the lemmas that
 * depend on float()'s syntax are stated for it. The user's answers are a
 * parameter too.
 */
module Cli {
  import opened Text
  import opened Dicts
  import Sorting
  import Utils
  import Listing

  /**
   * VOLUME_RANGE_PATTERN `^(\d+(?:\.\d+)?)-(\d+(?:\.\d+)?)$`: two decimal
   * literals joined by one '-'. The part is stripped first, so `$` cannot
   * match before a final newline.
   */
  function RangeBounds(part: string): (r: Option<(string, string)>)
    ensures r.Some? ==> IsDecimalLiteral(r.value.0) && IsDecimalLiteral(r.value.1)
  {
    var pieces := Split(part, '-');
    if |pieces| == 2 && IsDecimalLiteral(pieces[0]) && IsDecimalLiteral(pieces[1]) then
      Some((pieces[0], pieces[1]))
    else None
  }

  /** num(v) is a number from lo to hi. */
  predicate Within(v: string, lo: real, hi: real, num: string -> Option<real>) {
    num(v).Some? && lo <= num(v).value <= hi
  }

  /** The available volumes a range lo-hi selects. */
  function InRange(vols: seq<string>, lo: real, hi: real, num: string -> Option<real>): set<string> {
    set v | v in vols && Within(v, lo, hi, num)
  }

  /** What `next(v for v in vols if float(v) == x)` does: find the first
      volume equal to x, run out, or raise on a volume float() rejects. */
  datatype Search = Found(volume: string) | NotFound | Raises

  function NumericMatch(vols: seq<string>, x: real, num: string -> Option<real>): Search {
    if vols == [] then NotFound
    else match num(vols[0])
      case None => Raises
      case Some(y) => if y == x then Found(vols[0]) else NumericMatch(vols[1..], x, num)
  }

  /** What one stripped part of the input selects. */
  function PartSelection(part: string, available: seq<string>, num: string -> Option<real>): set<string> {
    match RangeBounds(part)
    case Some(bounds) =>
      (match (num(bounds.0), num(bounds.1))
       case (Some(lo), Some(hi)) => InRange(available, lo, hi, num)
       case _ => {})
    case None =>
      if part in available then {part}
      else match num(part)
        case None => {}
        case Some(x) =>
          (match NumericMatch(available, x, num)
           case Found(v) => if v != "" then {v} else {}
           case _ => {})
  }

  /** The comma-separated pieces of the input, each stripped. */
  function Pieces(parts: seq<string>): (r: seq<string>)
    ensures |r| == |parts|
  {
    if parts == [] then []
    else Pieces(parts[..|parts| - 1]) + [Strip(parts[|parts| - 1])]
  }

  /** The union of what the parts select. */
  function UnionOf(parts: seq<string>, available: seq<string>, num: string -> Option<real>): set<string> {
    if parts == [] then {}
    else UnionOf(parts[..|parts| - 1], available, num) + PartSelection(parts[|parts| - 1], available, num)
  }

  /** What parse_volume_selection returns. */
  function Selection(input: string, available: seq<string>, num: string -> Option<real>): set<string> {
    if Lower(input) == "all" then Elements(available)
    else UnionOf(Pieces(Split(input, ',')), available, num)
  }

  /** parse_volume_selection. */
  method ParseVolumeSelection(input: string, available: seq<string>, num: string -> Option<real>)
    returns (selected: set<string>)
    ensures selected == Selection(input, available, num)
  {
    selected := {};
    if Lower(input) == "all" {
      selected := selected + Elements(available);
    } else {
      var parts := Split(input, ',');
      var i := 0;
      while i < |parts|
        invariant i <= |parts|
        invariant selected == UnionOf(Pieces(parts[..i]), available, num)
      {
        var part := Strip(parts[i]);
        var got := SelectPart(part, available, num);
        selected := selected + got;
        PiecesSnoc(parts, i);
        UnionSnoc(Pieces(parts[..i]), part, available, num);
        i := i + 1;
      }
      assert parts[..i] == parts;
    }
  }

  lemma {:induction false} PiecesSnoc(parts: seq<string>, i: nat)
    requires i < |parts|
    ensures Pieces(parts[..i + 1]) == Pieces(parts[..i]) + [Strip(parts[i])]
  {
    assert parts[..i + 1][..i] == parts[..i];
  }

  lemma {:induction false} UnionSnoc(pieces: seq<string>, part: string, available: seq<string>, num: string -> Option<real>)
    ensures UnionOf(pieces + [part], available, num) == UnionOf(pieces, available, num) + PartSelection(part, available, num)
  {
    assert (pieces + [part])[..|pieces|] == pieces;
  }

  /** The body of the loop over parts: a range, an exact name, or a number. */
  method SelectPart(part: string, available: seq<string>, num: string -> Option<real>)
    returns (got: set<string>)
    ensures got == PartSelection(part, available, num)
  {
    got := {};
    var bounds := RangeBounds(part);
    if bounds.Some? {
      var lo, hi := num(bounds.value.0), num(bounds.value.1);
      if lo.Some? && hi.Some? {
        got := SelectRange(lo.value, hi.value, available, num);
      }
    } else if part in available {
      got := {part};
    } else {
      var x := num(part);
      if x.Some? {
        var m := FindVolume(x.value, available, num);
        if m.Found? && m.volume != "" {
          got := {m.volume};
        }
      }
    }
  }

  lemma InRangeSnoc(vols: seq<string>, k: nat, lo: real, hi: real, num: string -> Option<real>)
    requires k < |vols|
    ensures InRange(vols[..k + 1], lo, hi, num) ==
      InRange(vols[..k], lo, hi, num) + (if Within(vols[k], lo, hi, num) then {vols[k]} else {})
  {
    PrefixSnoc(vols, k);
  }

  /** The loop over the available volumes for a range. */
  method SelectRange(lo: real, hi: real, available: seq<string>, num: string -> Option<real>)
    returns (got: set<string>)
    ensures got == InRange(available, lo, hi, num)
  {
    got := {};
    var k := 0;
    while k < |available|
      invariant k <= |available|
      invariant got == InRange(available[..k], lo, hi, num)
    {
      var n := num(available[k]);
      if n.Some? && lo <= n.value <= hi {
        got := got + {available[k]};
      }
      InRangeSnoc(available, k, lo, hi, num);
      k := k + 1;
    }
    assert available[..k] == available;
  }

  /** The generator behind next(): stops at the first equal volume, or
      raises at the first volume float() rejects. */
  method FindVolume(x: real, available: seq<string>, num: string -> Option<real>) returns (m: Search)
    ensures m == NumericMatch(available, x, num)
  {
    var k := 0;
    while k < |available|
      invariant k <= |available|
      invariant NumericMatch(available[k..], x, num) == NumericMatch(available, x, num)
    {
      var n := num(available[k]);
      assert available[k..][1..] == available[k + 1..];
      if n.None? {
        return Raises;
      }
      if n.value == x {
        return Found(available[k]);
      }
      k := k + 1;
    }
    m := NotFound;
  }

  // ----- what the selection means -----

  /** "all" in any letter case selects exactly the available volumes. */
  lemma {:induction false} AllAnyCase(input: string, available: seq<string>, num: string -> Option<real>)
    requires |input| == 3
    requires input[0] in "aA" && input[1] in "lL" && input[2] in "lL"
    ensures Selection(input, available, num) == Elements(available)
  {
    assert Lower(input) == "all";
  }

  /** A volume num reads as a number other than x. */
  predicate OtherNumber(v: string, x: real, num: string -> Option<real>) {
    num(v).Some? && num(v).value != x
  }

  /** next() finds the first volume equal to x when every volume before it is
      another number. */
  lemma {:induction false} NumericMatchFound(vols: seq<string>, x: real, num: string -> Option<real>, j: nat)
    requires j < |vols| && num(vols[j]) == Some(x)
    requires forall i :: 0 <= i < j ==> OtherNumber(vols[i], x, num)
    ensures NumericMatch(vols, x, num) == Found(vols[j])
  {
    if j > 0 {
      assert OtherNumber(vols[0], x, num);
      NumericMatchFound(vols[1..], x, num, j - 1);
    }
  }

  /** next() raises ValueError at the first volume float() rejects, when no
      volume before it equals x. */
  lemma {:induction false} NumericMatchRaises(vols: seq<string>, x: real, num: string -> Option<real>, j: nat)
    requires j < |vols| && num(vols[j]).None?
    requires forall i :: 0 <= i < j ==> OtherNumber(vols[i], x, num)
    ensures NumericMatch(vols, x, num) == Raises
  {
    if j > 0 {
      assert OtherNumber(vols[0], x, num);
      NumericMatchRaises(vols[1..], x, num, j - 1);
    }
  }

  /** next() runs out exactly when every volume is another number. */
  lemma {:induction false} NumericMatchNotFound(vols: seq<string>, x: real, num: string -> Option<real>)
    ensures NumericMatch(vols, x, num) == NotFound <==>
      forall i :: 0 <= i < |vols| ==> OtherNumber(vols[i], x, num)
  {
    if vols != [] {
      NumericMatchNotFound(vols[1..], x, num);
      if forall i :: 0 <= i < |vols| - 1 ==> OtherNumber(vols[1..][i], x, num) {
        forall i | 1 <= i < |vols| ensures OtherNumber(vols[i], x, num) {
          assert vols[i] == vols[1..][i - 1];
        }
      }
    }
  }

  /** What next() finds is an available volume float() reads as x. */
  lemma {:induction false} FoundIsAvailable(vols: seq<string>, x: real, num: string -> Option<real>)
    requires NumericMatch(vols, x, num).Found?
    ensures NumericMatch(vols, x, num).volume in vols
    ensures num(NumericMatch(vols, x, num).volume) == Some(x)
  {
    if num(vols[0]) != Some(x) {
      FoundIsAvailable(vols[1..], x, num);
    }
  }

  /** float("") raises ValueError. */
  lemma EmptyIsNoNumber()
    ensures ParseDecimal("").None?
  {
  }

  /** Since float() rejects "", what next() finds is never empty: the
      `if matching_vol:` test always passes. */
  lemma FoundIsTruthy(vols: seq<string>, x: real, num: string -> Option<real>)
    requires num("").None?
    requires NumericMatch(vols, x, num).Found?
    ensures NumericMatch(vols, x, num).volume != ""
  {
    FoundIsAvailable(vols, x, num);
  }

  /** A decimal literal has no surrounding space and no sign, so float()
      reads it as its decimal value; and it holds no '-'. */
  lemma LiteralValue(s: string)
    requires IsDecimalLiteral(s)
    ensures ParseDecimal(s) == DecimalValue(s) && DecimalValue(s).Some?
    ensures '-' !in s
  {
    var parts := Split(s, '.');
    JoinSplit(s, '.');
    DecimalLiteralParses(s);
    if |parts| == 2 {
      assert s == parts[0] + "." + parts[1];
    } else {
      assert s == parts[0];
    }
    assert IsDigit(s[0]) && IsDigit(s[|s| - 1]);
    Utils.StripByNothingToStrip(s, IsSpace);
  }

  lemma {:induction false} SplitNoSeparator(s: string, sep: char)
    requires sep !in s
    ensures Split(s, sep) == [s]
  {
    if s != [] {
      SplitNoSeparator(s[1..], sep);
      assert [s[0]] + s[1..] == s;
    }
  }

  lemma {:induction false} SplitAround(a: string, b: string, sep: char)
    requires sep !in a && sep !in b
    ensures Split(a + [sep] + b, sep) == [a, b]
  {
    var s := a + [sep] + b;
    if a == [] {
      assert s[1..] == b;
      SplitNoSeparator(b, sep);
    } else {
      assert s[1..] == a[1..] + [sep] + b;
      SplitAround(a[1..], b, sep);
      assert [a[0]] + a[1..] == a;
    }
  }

  /** A part matches the range pattern exactly when it is two decimal
      literals joined by '-'. */
  lemma RangeBoundsMatch(part: string, a: string, b: string)
    ensures RangeBounds(part) == Some((a, b)) <==>
      part == a + "-" + b && IsDecimalLiteral(a) && IsDecimalLiteral(b)
  {
    if RangeBounds(part) == Some((a, b)) {
      JoinSplit(part, '-');
      assert Split(part, '-') == [a, b];
    }
    if part == a + "-" + b && IsDecimalLiteral(a) && IsDecimalLiteral(b) {
      LiteralValue(a);
      LiteralValue(b);
      SplitAround(a, b, '-');
    }
  }

  /** A range whose start is above its end selects nothing. */
  lemma InRangeEmpty(vols: seq<string>, lo: real, hi: real, num: string -> Option<real>)
    requires lo > hi
    ensures InRange(vols, lo, hi, num) == {}
  {
  }

  /**
   * With float(), a range part selects exactly the available volumes that
   * float() reads as a number from its start to its end; volumes float()
   * rejects are skipped, and a start above the end selects nothing.
   */
  lemma RangePart(part: string, available: seq<string>, a: string, b: string)
    requires part == a + "-" + b && IsDecimalLiteral(a) && IsDecimalLiteral(b)
    ensures var lo, hi := DecimalValue(a).value, DecimalValue(b).value;
      && PartSelection(part, available, ParseDecimal) == InRange(available, lo, hi, ParseDecimal)
      && (lo > hi ==> PartSelection(part, available, ParseDecimal) == {})
  {
    RangeBoundsMatch(part, a, b);
    LiteralValue(a);
    LiteralValue(b);
    var lo, hi := DecimalValue(a).value, DecimalValue(b).value;
    if lo > hi {
      InRangeEmpty(available, lo, hi, ParseDecimal);
    }
  }

  /** A part that is not a range and names an available volume selects that volume. */
  lemma ExactMatchWins(part: string, available: seq<string>, num: string -> Option<real>)
    requires RangeBounds(part).None? && part in available
    ensures PartSelection(part, available, num) == {part}
  {
  }

  /**
   * Otherwise a number selects the first available volume float() reads as
   * the same number, when every volume before it is a number too.
   */
  lemma FirstNumericMatch(part: string, available: seq<string>, num: string -> Option<real>, j: nat)
    requires num("").None?
    requires RangeBounds(part).None? && part !in available
    requires j < |available| && num(part).Some? && num(available[j]) == num(part)
    requires forall i :: 0 <= i < j ==> OtherNumber(available[i], num(part).value, num)
    ensures PartSelection(part, available, num) == {available[j]}
  {
    NumericMatchFound(available, num(part).value, num, j);
    FoundIsTruthy(available, num(part).value, num);
  }

  /** A volume float() rejects before the first numeric match makes the
      part invalid: it selects nothing. */
  lemma RejectedBeforeMatch(part: string, available: seq<string>, num: string -> Option<real>, j: nat)
    requires RangeBounds(part).None? && part !in available
    requires j < |available| && num(part).Some? && num(available[j]).None?
    requires forall i :: 0 <= i < j ==> OtherNumber(available[i], num(part).value, num)
    ensures PartSelection(part, available, num) == {}
  {
    NumericMatchRaises(available, num(part).value, num, j);
  }

  lemma InElements<T>(s: seq<T>, x: T)
    requires x in s
    ensures x in Elements(s)
  {
    var i :| 0 <= i < |s| && s[i] == x;
  }

  /** A part selects only available volumes, and at most one unless it is a range. */
  lemma PartWithin(part: string, available: seq<string>, num: string -> Option<real>)
    ensures PartSelection(part, available, num) <= Elements(available)
    ensures RangeBounds(part).None? ==> |PartSelection(part, available, num)| <= 1
  {
    var bounds := RangeBounds(part);
    if bounds.None? && part !in available && num(part).Some? {
      var x := num(part).value;
      if NumericMatch(available, x, num).Found? {
        FoundIsAvailable(available, x, num);
      }
    }
    forall v | v in PartSelection(part, available, num) ensures v in Elements(available) {
      InElements(available, v);
    }
  }

  /** Each piece is the stripped comma-separated part. */
  lemma {:induction false} PiecesAt(parts: seq<string>, k: nat)
    requires k < |parts|
    ensures Pieces(parts)[k] == Strip(parts[k])
  {
    var init := parts[..|parts| - 1];
    if k < |init| {
      PiecesAt(init, k);
      assert init[k] == parts[k];
      assert Pieces(parts)[k] == Strip(parts[k]);
    } else {
      assert k == |parts| - 1;
      assert Pieces(parts)[k] == Strip(parts[k]);
    }
  }

  /** The parts together select only available volumes. */
  lemma {:induction false} UnionWithin(parts: seq<string>, available: seq<string>, num: string -> Option<real>)
    ensures UnionOf(parts, available, num) <= Elements(available)
  {
    if parts != [] {
      UnionWithin(parts[..|parts| - 1], available, num);
      PartWithin(parts[|parts| - 1], available, num);
    }
  }

  /** Whatever is typed, only available volumes are selected. */
  lemma {:induction false} SelectionWithin(input: string, available: seq<string>, num: string -> Option<real>)
    ensures Selection(input, available, num) <= Elements(available)
  {
    if Lower(input) != "all" {
      UnionWithin(Pieces(Split(input, ',')), available, num);
    }
  }

  /** A volume is in the union exactly when one of the parts selects it. */
  lemma {:induction false} UnionMembers(parts: seq<string>, available: seq<string>, num: string -> Option<real>, v: string)
    ensures v in UnionOf(parts, available, num) <==>
      exists k :: 0 <= k < |parts| && v in PartSelection(parts[k], available, num)
  {
    if parts != [] {
      var init := parts[..|parts| - 1];
      UnionMembers(init, available, num, v);
      if v in UnionOf(init, available, num) {
        var k :| 0 <= k < |init| && v in PartSelection(init[k], available, num);
        assert parts[k] == init[k];
      }
      if exists k :: 0 <= k < |parts| && v in PartSelection(parts[k], available, num) {
        var k :| 0 <= k < |parts| && v in PartSelection(parts[k], available, num);
        if k < |init| {
          assert init[k] == parts[k];
        }
      }
    }
  }

  /** Any other input is split on commas; each part is stripped and read on
      its own, and the selection is the union of what the parts select. */
  lemma {:induction false} SelectionIsUnion(input: string, available: seq<string>, num: string -> Option<real>, v: string)
    requires Lower(input) != "all"
    ensures var parts := Split(input, ',');
      v in Selection(input, available, num) <==>
        exists k :: 0 <= k < |parts| && v in PartSelection(Strip(parts[k]), available, num)
  {
    var parts := Split(input, ',');
    var pieces := Pieces(parts);
    UnionMembers(pieces, available, num, v);
    if v in Selection(input, available, num) {
      var k :| 0 <= k < |pieces| && v in PartSelection(pieces[k], available, num);
      PiecesAt(parts, k);
    }
    if exists k :: 0 <= k < |parts| && v in PartSelection(Strip(parts[k]), available, num) {
      var k :| 0 <= k < |parts| && v in PartSelection(Strip(parts[k]), available, num);
      PiecesAt(parts, k);
    }
  }

  // ----- volume_selection_prompt -----

  /** Volume names the prompt does not offer. */
  predicate Hidden(v: string) {
    v == "null" || v == "None" || v == "Unknown"
  }

  /** The prompt's sort key: float(v), or +inf when float() rejects v. */
  function VolumeRank(v: string): Sorting.Rank {
    match ParseDecimal(v)
    case Some(x) => Sorting.Finite(x)
    case None => Sorting.Top
  }

  /** The volume names offered besides "0", in dict order. */
  function Listed(d: Listing.Volumes): seq<string> {
    if d == [] then []
    else
      var v := d[|d| - 1].0;
      Listed(d[..|d| - 1]) + (if v != Listing.Ungrouped && !Hidden(v) then [v] else [])
  }

  /** The candidate list: the offered names sorted by number, then "0" when present. */
  function CandidatesOf(d: Listing.Volumes): seq<string> {
    Sorting.SortBy(Listed(d), VolumeRank) + (if Listing.Ungrouped in Keys(d) then [Listing.Ungrouped] else [])
  }

  lemma KeysSnoc<V>(d: Dict<string, V>, i: nat)
    requires i < |d|
    ensures Keys(d[..i + 1]) == Keys(d[..i]) + {d[i].0}
  {
    PrefixSnoc(d, i);
    var a, b := d[..i], d[..i + 1];
    forall x | x in Keys(b) ensures x in Keys(a) + {d[i].0} {
      var j :| 0 <= j < |b| && b[j].0 == x;
      if j < i { assert a[j].0 == x; }
    }
    forall x | x in Keys(a) ensures x in Keys(b) {
      var j :| 0 <= j < |a| && a[j].0 == x;
      assert b[j].0 == x;
    }
  }

  /** The loop collecting the candidates, the sort and the final "0". */
  method SelectionCandidates(volumes: Listing.Volumes) returns (available: seq<string>)
    ensures available == CandidatesOf(volumes)
  {
    available := [];
    var hasUngrouped := false;
    var i := 0;
    while i < |volumes|
      invariant i <= |volumes|
      invariant available == Listed(volumes[..i])
      invariant hasUngrouped <==> Listing.Ungrouped in Keys(volumes[..i])
    {
      var volume := volumes[i].0;
      ListedSnoc(volumes, i);
      KeysSnoc(volumes, i);
      if volume == Listing.Ungrouped {
        hasUngrouped := true;
      } else if !Hidden(volume) {
        available := available + [volume];
      }
      i := i + 1;
    }
    assert volumes[..i] == volumes;
    available := Sorting.SortBy(available, VolumeRank) + (if hasUngrouped then [Listing.Ungrouped] else []);
  }

  /** One more volume adds its name to the listed ones when it is offered. */
  lemma ListedSnoc(d: Listing.Volumes, i: nat)
    requires i < |d|
    ensures Listed(d[..i + 1])
            == Listed(d[..i]) + (if d[i].0 != Listing.Ungrouped && !Hidden(d[i].0) then [d[i].0] else [])
  {
    assert d[..i + 1][..i] == d[..i];
  }

  lemma {:induction false} ListedMembers(d: Listing.Volumes, v: string)
    ensures v in Listed(d) <==> v in Keys(d) && v != Listing.Ungrouped && !Hidden(v)
  {
    if d != [] {
      var init := d[..|d| - 1];
      ListedMembers(init, v);
      KeysSnoc(d, |d| - 1);
      assert d[..|d| - 1 + 1] == d;
    }
  }

  /** The candidates are the volume names other than "null", "None" and
      "Unknown". */
  lemma {:induction false} CandidatesMembers(d: Listing.Volumes, v: string)
    ensures v in CandidatesOf(d) <==> v in Keys(d) && !Hidden(v)
  {
    var sorted := Sorting.SortBy(Listed(d), VolumeRank);
    assert v in sorted <==> v in multiset(sorted);
    ListedMembers(d, v);
  }

  /**
   * The numbered candidates come in numeric order and "0" comes last, once,
   * when it is there.
   */
  lemma {:induction false} CandidatesShape(d: Listing.Volumes)
    ensures var c := CandidatesOf(d);
      Listing.Ungrouped in Keys(d) ==> c != [] && c[|c| - 1] == Listing.Ungrouped && Listing.Ungrouped !in c[..|c| - 1]
    ensures Listing.Ungrouped !in Keys(d) ==> Sorting.SortedBy(CandidatesOf(d), VolumeRank)
    ensures Listing.Ungrouped in Keys(d) ==> Sorting.SortedBy(CandidatesOf(d)[..|CandidatesOf(d)| - 1], VolumeRank)
  {
    var sorted := Sorting.SortBy(Listed(d), VolumeRank);
    var c := CandidatesOf(d);
    if Listing.Ungrouped in Keys(d) {
      assert c[..|c| - 1] == sorted;
      assert Listing.Ungrouped in sorted <==> Listing.Ungrouped in multiset(sorted);
      ListedMembers(d, Listing.Ungrouped);
    } else {
      assert c == sorted;
    }
  }

  /** click.prompt's default: an empty answer reads as "all". */
  function Answer(line: string): string {
    if line == "" then "all" else line
  }

  /** The first answer whose selection is not empty; None when the modelled
      answers run out first. */
  function FirstSelection(available: seq<string>, answers: seq<string>, num: string -> Option<real>): Option<set<string>> {
    if answers == [] then None
    else
      var s := Selection(Answer(answers[0]), available, num);
      if s != {} then Some(s) else FirstSelection(available, answers[1..], num)
  }

  /**
   * volume_selection_prompt with the user's answers as a list: no
   * candidates give the empty selection without asking; otherwise the
   * prompt repeats until an answer selects something.
   */
  method VolumeSelectionPrompt(volumes: Listing.Volumes, answers: seq<string>) returns (r: Option<set<string>>)
    ensures r == if CandidatesOf(volumes) == [] then Some({}) else FirstSelection(CandidatesOf(volumes), answers, ParseDecimal)
  {
    var available := SelectionCandidates(volumes);
    if available == [] {
      return Some({});
    }
    var k := 0;
    while k < |answers|
      invariant k <= |answers|
      invariant FirstSelection(available, answers[k..], ParseDecimal) == FirstSelection(available, answers, ParseDecimal)
    {
      var selected := ParseVolumeSelection(Answer(answers[k]), available, ParseDecimal);
      assert answers[k..][1..] == answers[k + 1..];
      if selected != {} {
        return Some(selected);
      }
      k := k + 1;
    }
    r := None;
  }

  /** A selection the prompt returns is non-empty and made of offered volumes. */
  lemma {:induction false} FirstSelectionWithin(available: seq<string>, answers: seq<string>, num: string -> Option<real>)
    requires FirstSelection(available, answers, num).Some?
    ensures FirstSelection(available, answers, num).value != {}
    ensures FirstSelection(available, answers, num).value <= Elements(available)
    ensures exists k :: (0 <= k < |answers| &&
      FirstSelection(available, answers, num).value == Selection(Answer(answers[k]), available, num))
  {
    var s := Selection(Answer(answers[0]), available, num);
    SelectionWithin(Answer(answers[0]), available, num);
    if s == {} {
      var rest := answers[1..];
      FirstSelectionWithin(available, rest, num);
      var k :| 0 <= k < |rest| &&
        FirstSelection(available, rest, num).value == Selection(Answer(rest[k]), available, num);
      assert rest[k] == answers[k + 1];
    } else {
      assert FirstSelection(available, answers, num).value == s;
    }
  }

  /** The prompt selects only volumes get_volumes found, never a hidden one. */
  lemma PromptSelectsOffered(volumes: Listing.Volumes, answers: seq<string>, v: string)
    requires CandidatesOf(volumes) != [] && FirstSelection(CandidatesOf(volumes), answers, ParseDecimal).Some?
    requires v in FirstSelection(CandidatesOf(volumes), answers, ParseDecimal).value
    ensures v in Keys(volumes) && !Hidden(v)
  {
    FirstSelectionWithin(CandidatesOf(volumes), answers, ParseDecimal);
    CandidatesMembers(volumes, v);
  }
}
