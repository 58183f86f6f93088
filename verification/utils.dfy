/*
 * Utils: the string helpers of mangabook/utils.py (file-name sanitising,
 * truncation, title formatting, the plain-text table) and the attempt loop
 * of the `retry` decorator.
 */
module Utils {
  import opened Text

  // ---------------------------------------------------------------- file names

  /** A character of INVALID_FILENAME_CHARS: <>:"/\|?* and U+0000..U+001F. */
  predicate InvalidFilenameChar(c: char) {
    c == '<' || c == '>' || c == ':' || c == '"' || c == '/' || c == '\\'
    || c == '|' || c == '?' || c == '*' || c as int <= 0x1f
  }

  predicate ValidFilenameChar(c: char) { !InvalidFilenameChar(c) }

  predicate IsDotOrSpace(c: char) { c == '.' || c == ' ' }

  /** A name sanitize_filename leaves as it is. */
  predicate CleanFilename(s: string) {
    && s != []
    && All(s, ValidFilenameChar)
    && !IsDotOrSpace(s[0]) && !IsDotOrSpace(s[|s| - 1])
  }

  /** re.sub(INVALID_FILENAME_CHARS, '_', name) */
  function ReplaceInvalid(s: string): (r: string)
    ensures |r| == |s|
    ensures forall i :: 0 <= i < |s| ==> r[i] == (if InvalidFilenameChar(s[i]) then '_' else s[i])
  {
    seq(|s|, i requires 0 <= i < |s| => if InvalidFilenameChar(s[i]) then '_' else s[i])
  }

  /**
   * sanitize_filename: invalid characters become '_', leading and trailing
   * dots and spaces are stripped, and an empty result becomes "unnamed".
   */
  function SanitizeFilename(name: string): (r: string)
    ensures CleanFilename(r)
  {
    var t := StripBy(ReplaceInvalid(name), IsDotOrSpace);
    if t == [] then
      UnnamedClean();
      "unnamed"
    else
      ReplaceInvalidValid(name);
      StripKeeps(ReplaceInvalid(name), IsDotOrSpace, ValidFilenameChar);
      t
  }

  lemma ReplaceInvalidValid(name: string)
    ensures All(ReplaceInvalid(name), ValidFilenameChar)
  {
    var r := ReplaceInvalid(name);
    forall i | 0 <= i < |r| ensures ValidFilenameChar(r[i]) {
      assert r[i] == (if InvalidFilenameChar(name[i]) then '_' else name[i]);
    }
  }

  lemma UnnamedClean()
    ensures CleanFilename("unnamed")
  {
    var u := "unnamed";
    forall i | 0 <= i < |u| ensures ValidFilenameChar(u[i]) {
    }
  }

  /** str.strip(chars) only removes characters: a property of every input
      character holds of every output character. */
  lemma StripKeeps(s: string, p: char -> bool, q: char -> bool)
    requires All(s, q)
    ensures All(StripBy(s, p), q)
  {
    var t := TrimStart(s, p);
    var r := TrimEnd(t, p);
    assert All(t, q) by {
      forall i | 0 <= i < |t| ensures q(t[i]) {
        assert t[i] == s[|s| - |t| + i];
      }
    }
    assert All(r, q) by {
      forall i | 0 <= i < |r| ensures q(r[i]) {
        assert r[i] == t[i];
      }
    }
  }

  /** A string with nothing to strip at either end is left unchanged. */
  lemma StripByNothingToStrip(s: string, p: char -> bool)
    requires s != [] && !p(s[0]) && !p(s[|s| - 1])
    ensures StripBy(s, p) == s
  {
  }

  /** Sanitising a sanitised name changes nothing. */
  lemma SanitizeFilenameIdempotent(name: string)
    ensures SanitizeFilename(SanitizeFilename(name)) == SanitizeFilename(name)
  {
    var r := SanitizeFilename(name);
    assert ReplaceInvalid(r) == r;
    StripByNothingToStrip(r, IsDotOrSpace);
  }

  /** A name that is already clean is returned unchanged. */
  lemma SanitizeFilenameKeepsClean(name: string)
    requires CleanFilename(name)
    ensures SanitizeFilename(name) == name
  {
    assert ReplaceInvalid(name) == name;
    StripByNothingToStrip(name, IsDotOrSpace);
  }

  // ---------------------------------------------------------------- truncation

  /** truncate_string(text, max_length, suffix), with Python's slice text[:k]
      for a possibly negative k. */
  function TruncateString(text: string, maxLength: int, suffix: string): (r: string)
    ensures text == [] ==> r == []
    ensures text != [] && |text| <= maxLength ==> r == text
    ensures text != [] && |text| > maxLength ==>
      EndsWith(r, suffix) && StartsWith(text, r[..|r| - |suffix|])
    ensures text != [] && |text| > maxLength && maxLength >= |suffix| ==> |r| == maxLength
    ensures text != [] && |text| > maxLength && maxLength < |suffix| ==>
      |r| == |suffix| + (if |text| + maxLength - |suffix| >= 0 then |text| + maxLength - |suffix| else 0)
  {
    if text == [] then []
    else if |text| <= maxLength then text
    else
      var head := SliceTo(text, maxLength - |suffix|);
      assert (head + suffix)[..|head|] == head;
      head + suffix
  }

  // ---------------------------------------------------------------- titles

  /** No two adjacent whitespace characters. */
  predicate NoDoubleSpace(s: string) {
    forall i :: 0 <= i < |s| - 1 ==> !(IsSpace(s[i]) && IsSpace(s[i + 1]))
  }

  /** The non-whitespace characters of s, in order. */
  function Visible(s: string): (r: string)
    ensures |r| <= |s|
  {
    if s == [] then [] else (if IsSpace(s[0]) then [] else [s[0]]) + Visible(s[1..])
  }

  /** re.sub(r'\s+', ' ', s): each run of whitespace becomes one space. */
  function CollapseSpace(s: string): (r: string)
    ensures r == [] <==> s == []
    ensures s != [] ==> (IsSpace(r[0]) <==> IsSpace(s[0]))
    ensures s != [] ==> (IsSpace(r[|r| - 1]) <==> IsSpace(s[|s| - 1]))
    ensures NoDoubleSpace(r)
    ensures forall i :: 0 <= i < |r| ==> IsSpace(r[i]) ==> r[i] == ' '
    decreases |s|
  {
    if s == [] then []
    else if IsSpace(s[0]) then
      var rest := TrimStart(s, IsSpace);
      assert rest == [] ==> AllSpace(s);
      [' '] + CollapseSpace(rest)
    else [s[0]] + CollapseSpace(s[1..])
  }

  lemma {:induction false} VisibleAllSpace(s: string)
    requires AllSpace(s)
    ensures Visible(s) == []
  {
    if s != [] { VisibleAllSpace(s[1..]); }
  }

  lemma {:induction false} VisibleAppend(s: string, t: string)
    ensures Visible(s + t) == Visible(s) + Visible(t)
  {
    if s != [] {
      var head := if IsSpace(s[0]) then [] else [s[0]];
      assert (s + t)[0] == s[0];
      assert (s + t)[1..] == s[1..] + t;
      VisibleAppend(s[1..], t);
      calc {
        Visible(s + t);
        head + Visible(s[1..] + t);
        head + (Visible(s[1..]) + Visible(t));
        (head + Visible(s[1..])) + Visible(t);
      }
    } else {
      assert s + t == t;
    }
  }

  /** Collapsing whitespace keeps every other character, in order. */
  lemma {:induction false} CollapseSpaceKeepsVisible(s: string)
    ensures Visible(CollapseSpace(s)) == Visible(s)
    decreases |s|
  {
    if s != [] {
      if IsSpace(s[0]) {
        var rest := TrimStart(s, IsSpace);
        CollapseSpaceKeepsVisible(rest);
        var lead := s[..|s| - |rest|];
        assert s == lead + rest;
        VisibleAppend(lead, rest);
        VisibleAllSpace(lead);
        VisibleAppend([' '], CollapseSpace(rest));
      } else {
        CollapseSpaceKeepsVisible(s[1..]);
        VisibleAppend([s[0]], CollapseSpace(s[1..]));
        assert s == [s[0]] + s[1..];
        VisibleAppend([s[0]], s[1..]);
      }
    }
  }

  /**
   * format_manga_title: "Unknown" for an empty title; otherwise the stripped
   * title with each whitespace run collapsed to one space. A title made only
   * of whitespace is not empty, so it gives "".
   */
  function FormatMangaTitle(title: string): (r: string)
    ensures title == [] ==> r == "Unknown"
    ensures title != [] ==> r == [] || (!IsSpace(r[0]) && !IsSpace(r[|r| - 1]))
    ensures title != [] ==> NoDoubleSpace(r)
    ensures title != [] ==> (r == [] <==> AllSpace(title))
  {
    if title == [] then "Unknown" else CollapseSpace(Strip(title))
  }

  lemma {:induction false} VisibleTrimStart(s: string)
    ensures Visible(TrimStart(s, IsSpace)) == Visible(s)
  {
    if s != [] && IsSpace(s[0]) {
      VisibleTrimStart(s[1..]);
    }
  }

  lemma {:induction false} VisibleTrimEnd(s: string)
    ensures Visible(TrimEnd(s, IsSpace)) == Visible(s)
  {
    if s != [] && IsSpace(s[|s| - 1]) {
      var init := s[..|s| - 1];
      VisibleTrimEnd(init);
      assert s == init + [s[|s| - 1]];
      VisibleAppend(init, [s[|s| - 1]]);
    }
  }

  /** Formatting keeps the visible characters of a non-empty title. */
  lemma FormatMangaTitleKeepsText(title: string)
    requires title != []
    ensures Visible(FormatMangaTitle(title)) == Visible(title)
  {
    var t := TrimStart(title, IsSpace);
    VisibleTrimStart(title);
    VisibleTrimEnd(t);
    CollapseSpaceKeepsVisible(TrimEnd(t, IsSpace));
  }

  // ---------------------------------------------------------------- volume directory

  /** The directory name generate_volume_path gives a volume. */
  function VolumeDirName(volumeNumber: string): (r: string)
    ensures StartsWith(r, "volume_") && r[7..] == volumeNumber
  {
    "volume_" + volumeNumber
  }

  /** Different volumes never share a directory. */
  lemma VolumeDirNameInjective(a: string, b: string)
    requires VolumeDirName(a) == VolumeDirName(b)
    ensures a == b
  {
    assert a == VolumeDirName(a)[7..];
  }

  // ---------------------------------------------------------------- table

  function Repeat(c: char, n: nat): (r: string)
    ensures |r| == n && forall i :: 0 <= i < n ==> r[i] == c
  {
    seq(n, i => c)
  }

  /** str.ljust(w): pad with spaces on the right to width w. */
  function LJust(s: string, w: int): (r: string)
    ensures |r| == if |s| >= w then |s| else w
    ensures StartsWith(r, s)
  {
    if |s| >= w then s else s + Repeat(' ', w - |s|)
  }

  /** Python's max of two ints: the larger of the two. */
  function Max(a: int, b: int): (r: int)
    ensures r >= a && r >= b && (r == a || r == b)
  {
    if a >= b then a else b
  }

  /** Python's min of two ints: the smaller of the two. */
  function Min(a: int, b: int): (r: int)
    ensures r <= a && r <= b && (r == a || r == b)
  {
    if a <= b then a else b
  }

  /** One row's effect on the column widths: each cell within the header
      count widens its column to min(len(cell), cap). */
  function Widen(ws: seq<nat>, row: seq<string>, cap: int): (r: seq<nat>)
    ensures |r| == |ws|
  {
    seq(|ws|, i requires 0 <= i < |ws| =>
      if i < |row| then Max(ws[i], Min(|row[i]|, cap)) as nat else ws[i])
  }

  /** The cap on a cell's contribution: width // num_cols. */
  function CellCap(width: int, numCols: nat): int {
    if numCols == 0 then 0 else width / numCols
  }

  /** The column widths create_table ends with. */
  function ColumnWidths(headers: seq<string>, rows: seq<seq<string>>, width: int): (r: seq<nat>)
    ensures |r| == |headers|
  {
    if rows == [] then seq(|headers|, i requires 0 <= i < |headers| => |headers[i]|)
    else Widen(ColumnWidths(headers, rows[..|rows| - 1], width), rows[|rows| - 1], CellCap(width, |headers|))
  }

  /** Each column is at least as wide as its header, and no cell widens it
      beyond width // num_cols. */
  lemma {:induction false} ColumnWidthsBounds(headers: seq<string>, rows: seq<seq<string>>, width: int, i: nat)
    requires i < |headers|
    ensures ColumnWidths(headers, rows, width)[i] >= |headers[i]|
    ensures ColumnWidths(headers, rows, width)[i] <= Max(|headers[i]|, CellCap(width, |headers|))
  {
    if rows != [] {
      ColumnWidthsBounds(headers, rows[..|rows| - 1], width, i);
    }
  }

  function Cell(row: seq<string>, i: nat): string { if i < |row| then row[i] else "" }

  function HeaderLine(headers: seq<string>, ws: seq<nat>): string
    requires |ws| == |headers|
  {
    Join(" | ", seq(|headers|, i requires 0 <= i < |headers| => LJust(headers[i], ws[i])))
  }

  function SeparatorLine(ws: seq<nat>): string {
    Join("-+-", seq(|ws|, i requires 0 <= i < |ws| => Repeat('-', ws[i])))
  }

  /** A data row, padded with empty cells and cut to the header count. */
  function RowLine(row: seq<string>, ws: seq<nat>): string {
    Join(" | ", seq(|ws|, i requires 0 <= i < |ws| => LJust(Cell(row, i), ws[i])))
  }

  /** The lines of a non-empty table: header, separator, one per row. */
  function TableLines(headers: seq<string>, rows: seq<seq<string>>, width: int): seq<string> {
    var ws := ColumnWidths(headers, rows, width);
    [HeaderLine(headers, ws), SeparatorLine(ws)]
      + seq(|rows|, k requires 0 <= k < |rows| => RowLine(rows[k], ws))
  }

  /** A non-empty table has one line per row plus the header and separator. */
  lemma TableLineCount(headers: seq<string>, rows: seq<seq<string>>, width: int)
    ensures |TableLines(headers, rows, width)| == |rows| + 2
    ensures TableLines(headers, rows, width)[0] == HeaderLine(headers, ColumnWidths(headers, rows, width))
  {
  }

  /** In the header line each header is padded to its column width, which is
      never shorter than the header. */
  lemma HeaderCellsFit(headers: seq<string>, rows: seq<seq<string>>, width: int, i: nat)
    requires i < |headers|
    ensures var ws := ColumnWidths(headers, rows, width);
      |LJust(headers[i], ws[i])| == ws[i] && StartsWith(LJust(headers[i], ws[i]), headers[i])
  {
    ColumnWidthsBounds(headers, rows, width, i);
  }

  /** create_table: "No data to display." when there are no rows, otherwise
      the table lines joined by newlines. */
  method CreateTable(headers: seq<string>, rows: seq<seq<string>>, width: int) returns (table: string)
    ensures rows == [] ==> table == "No data to display."
    ensures rows != [] ==> table == Join("\n", TableLines(headers, rows, width))
  {
    if rows == [] {
      return "No data to display.";
    }
    var colWidths := MeasureColumns(headers, rows, width);
    ghost var all := TableLines(headers, rows, width);
    TableLineCount(headers, rows, width);
    var lines := [HeaderLine(headers, colWidths), SeparatorLine(colWidths)];
    assert lines == all[..2];
    var k := 0;
    while k < |rows|
      invariant 0 <= k <= |rows|
      invariant lines == all[..k + 2]
    {
      assert all[k + 2] == RowLine(rows[k], colWidths);
      PrefixSnoc(all, k + 2);
      lines := lines + [RowLine(rows[k], colWidths)];
      k := k + 1;
    }
    assert lines == all;
    table := Join("\n", lines);
  }

  /** The first loops of create_table: every column starts at its header's
      width and each row's cells widen it, capped at width // num_cols. */
  method MeasureColumns(headers: seq<string>, rows: seq<seq<string>>, width: int) returns (colWidths: seq<nat>)
    ensures colWidths == ColumnWidths(headers, rows, width)
  {
    var numCols := |headers|;
    colWidths := seq(numCols, i requires 0 <= i < numCols => |headers[i]|);
    var k := 0;
    while k < |rows|
      invariant 0 <= k <= |rows|
      invariant colWidths == ColumnWidths(headers, rows[..k], width)
    {
      var row := rows[k];
      var ws := colWidths;
      var i := 0;
      var n := Min(|row|, numCols);
      while i < n
        invariant 0 <= i <= n
        invariant |colWidths| == numCols
        invariant forall j :: 0 <= j < numCols ==>
          colWidths[j] == if j < i then Max(ws[j], Min(|row[j]|, width / numCols)) as nat else ws[j]
      {
        colWidths := colWidths[i := Max(colWidths[i], Min(|row[i]|, width / numCols)) as nat];
        i := i + 1;
      }
      assert rows[..k + 1][..k] == rows[..k];
      assert colWidths == Widen(ws, row, CellCap(width, numCols));
      k := k + 1;
    }
    assert rows[..|rows|] == rows;
  }

  // ---------------------------------------------------------------- retry

  /** What one call of the wrapped function does: return a value, or raise an
      exception that is or is not among the `exceptions` being retried. */
  datatype Outcome<T> = Returned(value: T) | Raised(error: string, retried: bool)

  /** What the decorated call ends with. NoCall is the `return None` after the
      loop, reached only when max_attempts < 1. */
  datatype RetryResult<T> = Value(value: T) | Reraised(error: string) | NoCall

  /**
   * The attempt loop of `retry`. `call(k)` is the outcome of the (k+1)-th
   * call; `sleeps` are the delays slept, in order.
   */
  method Retry<T>(maxAttempts: int, delay: real, backoff: real, call: nat -> Outcome<T>)
    returns (result: RetryResult<T>, calls: nat, sleeps: seq<real>)
    ensures maxAttempts < 1 ==> result == NoCall && calls == 0
    ensures maxAttempts >= 1 ==> 1 <= calls <= maxAttempts
    ensures forall k :: 0 <= k < calls - 1 ==> call(k).Raised? && call(k).retried
    ensures calls >= 1 ==> result == match call(calls - 1)
      case Returned(v) => Value(v)
      case Raised(e, _) => Reraised(e)
    ensures calls >= 1 && call(calls - 1).Raised? && call(calls - 1).retried ==> calls == maxAttempts
    ensures |sleeps| == (if calls == 0 then 0 else calls - 1)
    ensures |sleeps| > 0 ==> sleeps[0] == delay
    ensures forall k :: 0 < k < |sleeps| ==> sleeps[k] == sleeps[k - 1] * backoff
  {
    var attempt := 1;
    var currentDelay := delay;
    sleeps := [];
    calls := 0;
    while attempt <= maxAttempts
      invariant 1 <= attempt && calls == attempt - 1
      invariant maxAttempts >= 1 ==> attempt <= maxAttempts
      invariant maxAttempts < 1 ==> attempt == 1
      invariant forall k :: 0 <= k < calls ==> call(k).Raised? && call(k).retried
      invariant |sleeps| == calls
      invariant calls == 0 ==> currentDelay == delay
      invariant calls > 0 ==> sleeps[0] == delay && currentDelay == sleeps[calls - 1] * backoff
      invariant forall k :: 0 < k < |sleeps| ==> sleeps[k] == sleeps[k - 1] * backoff
      decreases maxAttempts - attempt
    {
      var outcome := call(attempt - 1);
      calls := attempt;
      match outcome {
        case Returned(v) =>
          return Value(v), calls, sleeps;
        case Raised(e, retried) =>
          if !retried || attempt == maxAttempts {
            return Reraised(e), calls, sleeps;
          }
      }
      sleeps := sleeps + [currentDelay];
      currentDelay := currentDelay * backoff;
      attempt := attempt + 1;
    }
    result := NoCall;
  }

  /**
   * `retry` around an async function: calling it only creates the coroutine,
   * which never raises, so the first call returns the coroutine unawaited.
   * An exception raised while it is awaited later is not retried.
   */
  method RetryOnAsync<T>(maxAttempts: int, delay: real, backoff: real, coroutine: T)
    returns (result: RetryResult<T>, calls: nat, sleeps: seq<real>)
    ensures maxAttempts >= 1 ==> result == Value(coroutine) && calls == 1
    ensures maxAttempts < 1 ==> result == NoCall && calls == 0
    ensures sleeps == []
  {
    var call: nat -> Outcome<T> := k => Returned(coroutine);
    result, calls, sleeps := Retry(maxAttempts, delay, backoff, call);
    assert call(0).Returned?;
  }
}
