/*
 * Errors: MangaBookError and ErrorHandler (mangabook/error.py). An error
 * carries a message, a category, optional details and whether the
 * operation can go on; the handler keeps every error it was given in a log
 * and summarises that log by category.
 *
 * An exception raised by a wrapped call is its text, str(e). Logging,
 * tracebacks and the coloured display are output only and not part of this
 * model.
 */
module Errors {
  import opened Text
  import opened Dicts

  /** ErrorCategory. */
  datatype Category =
    | Network | Authentication | FileSystem | Validation | Conversion
    | Permission | Resource | External | Unexpected | UserInput

  /** ErrorCategory.value. */
  function CategoryValue(c: Category): (r: string)
    ensures '[' !in r && ']' !in r && r != []
  {
    match c
    case Network => "network"
    case Authentication => "auth"
    case FileSystem => "fs"
    case Validation => "validation"
    case Conversion => "conversion"
    case Permission => "permission"
    case Resource => "resource"
    case External => "external"
    case Unexpected => "unexpected"
    case UserInput => "input"
  }

  /** ErrorCategory(value): the category with that value, if there is one. */
  function CategoryOf(value: string): (r: Option<Category>)
    ensures r.Some? ==> CategoryValue(r.value) == value
  {
    if value == "network" then Some(Network)
    else if value == "auth" then Some(Authentication)
    else if value == "fs" then Some(FileSystem)
    else if value == "validation" then Some(Validation)
    else if value == "conversion" then Some(Conversion)
    else if value == "permission" then Some(Permission)
    else if value == "resource" then Some(Resource)
    else if value == "external" then Some(External)
    else if value == "unexpected" then Some(Unexpected)
    else if value == "input" then Some(UserInput)
    else None
  }

  /** Every category is found again from its value, so values are distinct. */
  lemma CategoryOfValue(c: Category)
    ensures CategoryOf(CategoryValue(c)) == Some(c)
  {
  }

  /** The MangaBookError dataclass; `details` is None unless given. */
  datatype MangaBookError = MangaBookError(message: string, category: Category,
                                           details: Option<map<string, string>>, recoverable: bool)

  /** MangaBookError.__str__: "{message} [{category.value}]". */
  function ErrorString(e: MangaBookError): (r: string)
    ensures StartsWith(r, e.message) && EndsWith(r, "]")
    ensures |r| == |e.message| + |CategoryValue(e.category)| + 3
  {
    var r := e.message + " [" + CategoryValue(e.category) + "]";
    assert r[..|e.message|] == e.message;
    r
  }

  /** Reads message and category back from an error's text: the category
      value sits between the last '[' and the closing ']', after a space. */
  function ParseErrorString(s: string): Option<(string, Category)> {
    if |s| < 3 || s[|s| - 1] != ']' then None
    else match LastIndexOf(s, '[')
      case None => None
      case Some(i) =>
        if i == 0 || s[i - 1] != ' ' then None
        else match CategoryOf(s[i + 1..|s| - 1])
          case None => None
          case Some(c) => Some((s[..i - 1], c))
  }

  /** The text of an error names its message and its category: reading it
      back gives both, whatever the message holds. */
  lemma ErrorStringRoundTrip(e: MangaBookError)
    ensures ParseErrorString(ErrorString(e)) == Some((e.message, e.category))
  {
    var s := ErrorString(e);
    var v := CategoryValue(e.category);
    var k := |e.message| + 1;
    assert s == e.message + " [" + v + "]";
    assert s[k] == '[';
    assert s[k + 1..] == v + "]";
    assert '[' !in s[k + 1..];
    var r := LastIndexOf(s, '[');
    assert r == Some(k);
    assert s[k + 1..|s| - 1] == v;
    assert s[..k - 1] == e.message;
    CategoryOfValue(e.category);
  }

  /** The outcome of a call made through safe_execute. */
  datatype Call<T> = Returned(value: T) | Raised(error: string)

  /** `details or {}`: no details become an empty dict. */
  function DetailsOrEmpty(details: Option<map<string, string>>): (r: map<string, string>)
    ensures details.Some? ==> r == details.value
    ensures details.None? ==> r == map[]
  {
    if details.Some? then details.value else map[]
  }

  // The summary of a log.

  /** How many errors in the log are fatal (not recoverable). */
  function FatalCount(log: seq<MangaBookError>): (r: nat)
    ensures r <= |log|
    ensures r == 0 <==> forall i :: 0 <= i < |log| ==> log[i].recoverable
  {
    if log == [] then 0
    else FatalCount(log[..|log| - 1]) + (if log[|log| - 1].recoverable then 0 else 1)
  }

  /** Messages grouped by category value: a dict kept in insertion order, as
      a list of (key, messages) pairs. */
  type Groups = Dict<string, seq<string>>

  /** dict.get(key, []) on the groups. */
  function Lookup(groups: Groups, key: string): seq<string> {
    match IndexOf(groups, key)
    case None => []
    case Some(i) => groups[i].1
  }

  /** One turn of the grouping loop: open a group for a new key, then
      append the message to the key's group. */
  function AddMessage(groups: Groups, key: string, message: string): Groups {
    match IndexOf(groups, key)
    case None => groups + [(key, [message])]
    case Some(i) => groups[i := (key, groups[i].1 + [message])]
  }

  /** The groups the loop of get_summary builds from a log. */
  function Grouped(log: seq<MangaBookError>): Groups {
    if log == [] then []
    else
      var e := log[|log| - 1];
      AddMessage(Grouped(log[..|log| - 1]), CategoryValue(e.category), e.message)
  }

  /** The messages of the errors of one category value, in log order. */
  function MessagesOf(log: seq<MangaBookError>, key: string): seq<string> {
    if log == [] then []
    else
      var e := log[|log| - 1];
      MessagesOf(log[..|log| - 1], key) + (if CategoryValue(e.category) == key then [e.message] else [])
  }

  /** The total of the group sizes. */
  function Total(groups: Groups): nat {
    if groups == [] then 0 else Total(groups[..|groups| - 1]) + |groups[|groups| - 1].1|
  }

  lemma {:induction false} TotalAppend(a: Groups, b: Groups)
    ensures Total(a + b) == Total(a) + Total(b)
    decreases |b|
  {
    if b == [] {
      assert a + b == a;
    } else {
      assert (a + b)[..|a + b| - 1] == a + b[..|b| - 1];
      TotalAppend(a, b[..|b| - 1]);
    }
  }

  /** Appending one message to one group adds one to the total. */
  lemma TotalUpdate(groups: Groups, i: nat, key: string, message: string)
    requires i < |groups|
    ensures Total(groups[i := (key, groups[i].1 + [message])]) == Total(groups) + 1
  {
    var g := groups[i := (key, groups[i].1 + [message])];
    assert groups == groups[..i] + [groups[i]] + groups[i + 1..];
    assert g == groups[..i] + [(key, groups[i].1 + [message])] + groups[i + 1..];
    TotalAppend(groups[..i] + [groups[i]], groups[i + 1..]);
    TotalAppend(groups[..i], [groups[i]]);
    TotalAppend(groups[..i] + [(key, groups[i].1 + [message])], groups[i + 1..]);
    TotalAppend(groups[..i], [(key, groups[i].1 + [message])]);
    assert Total([groups[i]]) == |groups[i].1| by {
      assert [groups[i]][..0] == [];
    }
    assert Total([(key, groups[i].1 + [message])]) == |groups[i].1| + 1 by {
      assert [(key, groups[i].1 + [message])][..0] == [];
    }
  }

  /** One message more in the groups, under its key; the keys stay distinct
      and every other key keeps its messages. */
  lemma AddMessageProperties(groups: Groups, key: string, message: string)
    requires DistinctKeys(groups)
    ensures var g := AddMessage(groups, key, message);
      && DistinctKeys(g)
      && Total(g) == Total(groups) + 1
      && Lookup(g, key) == Lookup(groups, key) + [message]
      && forall k :: k != key ==> Lookup(g, k) == Lookup(groups, k)
  {
    var g := AddMessage(groups, key, message);
    AddMessageTotal(groups, key, message);
    AddMessageIsPut(groups, key, message);
    PutDistinct(groups, key, Lookup(groups, key) + [message]);
    PutGet(groups, key, Lookup(groups, key) + [message], key);
    forall k | k != key ensures Lookup(g, k) == Lookup(groups, k) {
      PutGet(groups, key, Lookup(groups, key) + [message], k);
      LookupGet(g, k);
      LookupGet(groups, k);
    }
    LookupGet(g, key);
  }

  /** A turn of the grouping loop assigns the key its list with one more message. */
  lemma AddMessageIsPut(groups: Groups, key: string, message: string)
    ensures AddMessage(groups, key, message) == Put(groups, key, Lookup(groups, key) + [message])
  {
    match IndexOf(groups, key)
    case None =>
      assert [] + [message] == [message];
    case Some(i) =>
  }

  /** dict.get(key, []) is get with an empty default. */
  lemma LookupGet(groups: Groups, key: string)
    ensures Lookup(groups, key) == if Get(groups, key).Some? then Get(groups, key).value else []
  {
  }

  lemma AddMessageTotal(groups: Groups, key: string, message: string)
    ensures Total(AddMessage(groups, key, message)) == Total(groups) + 1
  {
    match IndexOf(groups, key)
    case None =>
      TotalAppend(groups, [(key, [message])]);
      assert Total([(key, [message])]) == 1 by {
        assert [(key, [message])][..0] == [];
      }
    case Some(i) =>
      TotalUpdate(groups, i, key, message);
  }

  /**
   * The categories of the summary: each category value appears once, its
   * list holds exactly the messages of the errors of that category in log
   * order, and the list lengths add up to the number of errors.
   */
  lemma {:induction false} GroupedProperties(log: seq<MangaBookError>)
    ensures DistinctKeys(Grouped(log))
    ensures Total(Grouped(log)) == |log|
    ensures forall key :: Lookup(Grouped(log), key) == MessagesOf(log, key)
  {
    if log != [] {
      var init, e := log[..|log| - 1], log[|log| - 1];
      GroupedProperties(init);
      AddMessageProperties(Grouped(init), CategoryValue(e.category), e.message);
    }
  }

  /** The summary of get_summary. */
  datatype Summary = Summary(totalErrors: nat, fatalErrors: nat, categories: Groups, logFile: Option<string>)

  /** What get_summary reports for a log. */
  function SummaryOf(log: seq<MangaBookError>, logFile: Option<string>): Summary {
    Summary(|log|, FatalCount(log), Grouped(log), logFile)
  }

  class ErrorHandler {
    var debug: bool
    var errorLog: seq<MangaBookError>
    var logFile: Option<string>

    constructor(debug: bool)
      ensures this.debug == debug && errorLog == [] && logFile == None
    {
      this.debug := debug;
      errorLog := [];
      logFile := None;
    }

    /** set_log_file: only the path is kept here. */
    method SetLogFile(path: string)
      modifies this
      ensures logFile == Some(path) && errorLog == old(errorLog) && debug == old(debug)
    {
      logFile := Some(path);
    }

    /**
     * handle: the error becomes a MangaBookError carrying str(error), the
     * category, the details (an empty dict when none are given) and the
     * recoverable flag (true unless said otherwise); it is appended to the
     * log and returned.
     */
    method Handle(error: string, category: Category := Unexpected,
                  details: Option<map<string, string>> := None, recoverable: bool := true)
      returns (e: MangaBookError)
      modifies this
      ensures e == MangaBookError(error, category, Some(DetailsOrEmpty(details)), recoverable)
      ensures errorLog == old(errorLog) + [e]
      ensures debug == old(debug) && logFile == old(logFile)
    {
      e := MangaBookError(error, category, Some(DetailsOrEmpty(details)), recoverable);
      errorLog := errorLog + [e];
    }

    /**
     * safe_execute: the call's value when it returns; otherwise None, with
     * exactly one recoverable error of the given category logged. Displaying
     * the error is output only.
     */
    method SafeExecute<T>(call: Call<T>, errorCategory: Category := Unexpected, display: bool := true)
      returns (r: Option<T>)
      modifies this
      ensures call.Returned? ==> r == Some(call.value) && errorLog == old(errorLog)
      ensures call.Raised? ==>
        r == None && errorLog == old(errorLog) + [MangaBookError(call.error, errorCategory, Some(map[]), true)]
      ensures debug == old(debug) && logFile == old(logFile)
    {
      match call
      case Returned(v) =>
        r := Some(v);
      case Raised(error) =>
        var e := Handle(error, errorCategory);
        r := None;
    }

    /** safe_execute_async: the same, on the awaited outcome of the call. */
    method SafeExecuteAsync<T>(awaited: Call<T>, errorCategory: Category := Unexpected, display: bool := true)
      returns (r: Option<T>)
      modifies this
      ensures awaited.Returned? ==> r == Some(awaited.value) && errorLog == old(errorLog)
      ensures awaited.Raised? ==>
        r == None && errorLog == old(errorLog) + [MangaBookError(awaited.error, errorCategory, Some(map[]), true)]
      ensures debug == old(debug) && logFile == old(logFile)
    {
      r := SafeExecute(awaited, errorCategory, display);
    }

    /** get_summary: the number of errors, the number of fatal ones, the
        messages by category value, and the log file. */
    method GetSummary() returns (s: Summary)
      ensures s == SummaryOf(errorLog, logFile)
    {
      var groups: Groups := [];
      var i := 0;
      while i < |errorLog|
        invariant i <= |errorLog|
        invariant groups == Grouped(errorLog[..i])
      {
        var e := errorLog[i];
        assert errorLog[..i + 1][..i] == errorLog[..i];
        groups := AddMessage(groups, CategoryValue(e.category), e.message);
        i := i + 1;
      }
      assert errorLog[..i] == errorLog;
      s := Summary(|errorLog|, FatalCount(errorLog), groups, logFile);
    }
  }

  /** Handling an error adds one to the total and, when it is not
      recoverable, one to the fatal count; its message joins its category. */
  lemma HandledCounts(log: seq<MangaBookError>, e: MangaBookError)
    ensures FatalCount(log + [e]) == FatalCount(log) + (if e.recoverable then 0 else 1)
    ensures MessagesOf(log + [e], CategoryValue(e.category)) == MessagesOf(log, CategoryValue(e.category)) + [e.message]
  {
    assert (log + [e])[..|log|] == log;
  }
}
