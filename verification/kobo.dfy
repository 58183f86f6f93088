/**
 * The Kobo variant of the EPUB writer (mangabook/epub/kobo.py and the
 * EnhancedKepubBuilder file-name rule): the ".kepub.epub" name, the
 * sentence spans Kobo readers use to track progress, and the rewriting of
 * an extracted archive (pages, navigation document, package document,
 * NCX) before it is zipped again.
 *
 * Parsed XHTML and XML trees are modelled as values holding exactly the
 * elements and attributes the rewriting reads or writes.
 */
module Kobo {
  import opened Text
  import Utils
  import Builder
  import Navigation
  import opened Container

  /** The value given to the xmlns:kobo attribute. */
  const KoboNamespaceUri := "http://ns.kobo.com/1.0"

  /** The name the Kobo writer passes on: ".kepub.epub" is added, or
      replaces a final ".epub". */
  function KepubFileName(filename: Option<string>, title: string): (r: string)
  {
    var name := if filename.None? then Utils.SanitizeFilename(title) + ".kepub.epub" else filename.value;
    if EndsWith(Lower(name), ".kepub.epub") then name
    else if EndsWith(Lower(name), ".epub") then name[..|name| - 5] + ".kepub.epub"
    else name + ".kepub.epub"
  }

  /** The name ends in ".kepub.epub" whatever the case of the input; a name
      that already ends so is kept, a final ".epub" is replaced rather than
      doubled; and the parent's ".epub" rule then leaves the name alone. */
  lemma KepubFileNameProperties(filename: Option<string>, title: string)
    ensures EndsWith(Lower(KepubFileName(filename, title)), ".kepub.epub")
    ensures filename.Some? && EndsWith(Lower(filename.value), ".kepub.epub") ==> KepubFileName(filename, title) == filename.value
    ensures filename.Some? && !EndsWith(Lower(filename.value), ".kepub.epub") && EndsWith(Lower(filename.value), ".epub") ==>
      KepubFileName(filename, title) == filename.value[..|filename.value| - 5] + ".kepub.epub"
    ensures filename.Some? && !EndsWith(Lower(filename.value), ".epub") ==>
      KepubFileName(filename, title) == filename.value + ".kepub.epub"
    ensures Builder.EpubFileName(Some(KepubFileName(filename, title)), title) == KepubFileName(filename, title)
  {
    KepubFileNameEnds(filename, title);
    if filename.Some? {
      KepubFileNameOfGiven(filename.value, title);
    }
  }

  lemma KepubFileNameOfGiven(name: string, title: string)
    ensures EndsWith(Lower(name), ".kepub.epub") ==> KepubFileName(Some(name), title) == name
    ensures !EndsWith(Lower(name), ".kepub.epub") && EndsWith(Lower(name), ".epub") ==>
      KepubFileName(Some(name), title) == name[..|name| - 5] + ".kepub.epub"
    ensures !EndsWith(Lower(name), ".epub") ==> KepubFileName(Some(name), title) == name + ".kepub.epub"
  {
    if EndsWith(Lower(name), ".kepub.epub") {
      KepubEndsEpub(Lower(name));
    }
  }

  lemma KepubEndsEpub(s: string)
    requires EndsWith(s, ".kepub.epub")
    ensures EndsWith(s, ".epub")
  {
    assert s[|s| - 5..] == s[|s| - 11..][6..];
  }

  /** The first and last of these: the Kobo name ends in ".kepub.epub",
      so the parent's ".epub" rule keeps it. */
  lemma KepubFileNameEnds(filename: Option<string>, title: string)
    ensures EndsWith(Lower(KepubFileName(filename, title)), ".kepub.epub")
    ensures Builder.EpubFileName(Some(KepubFileName(filename, title)), title) == KepubFileName(filename, title)
  {
    var r := KepubFileName(filename, title);
    var x := ".kepub.epub";
    var name := if filename.None? then Utils.SanitizeFilename(title) + x else filename.value;
    if filename.None? {
      LowerKepub(Utils.SanitizeFilename(title));
    }
    if EndsWith(Lower(name), x) {
      assert r == name;
    } else if EndsWith(Lower(name), ".epub") {
      assert r == name[..|name| - 5] + x;
      LowerKepub(name[..|name| - 5]);
    } else {
      assert r == name + x;
      LowerKepub(name);
    }
    KepubEndsEpub(Lower(r));
  }

  /** Lower-casing keeps a final ".kepub.epub". */
  lemma LowerKepub(s: string)
    ensures EndsWith(Lower(s + ".kepub.epub"), ".kepub.epub")
  {
    var l := Lower(s + ".kepub.epub");
    assert l[|s|..] == ".kepub.epub";
  }

  // Sentence spans: re.split(r'([.!?]+)', text) and the accumulation loop.

  predicate IsDelim(c: char) { c == '.' || c == '!' || c == '?' }

  predicate NotDelim(c: char) { !IsDelim(c) }

  predicate NoDelim(s: string) { forall i :: 0 <= i < |s| ==> !IsDelim(s[i]) }

  predicate DelimRun(s: string) { |s| > 0 && forall i :: 0 <= i < |s| ==> IsDelim(s[i]) }

  /** re.split with one capturing group: text between runs of delimiters at
      the even positions, the runs themselves at the odd positions. */
  function SplitParts(s: string): (r: seq<string>)
    ensures |r| % 2 == 1
    decreases |s|
  {
    var t := TakeWhileNot(s, IsDelim);
    if |t| == |s| then [s]
    else
      var rest := s[|t|..];
      var d := TakeWhileNot(rest, NotDelim);
      assert rest[0] == s[|t|];
      [t, d] + SplitParts(rest[|d|..])
  }

  /** The pieces written one after the other. */
  function Concat(parts: seq<string>): string {
    if parts == [] then [] else Concat(parts[..|parts| - 1]) + parts[|parts| - 1]
  }

  lemma {:induction false} ConcatAppend(a: seq<string>, b: seq<string>)
    ensures Concat(a + b) == Concat(a) + Concat(b)
    decreases |b|
  {
    if b != [] {
      assert (a + b)[..|a + b| - 1] == a + b[..|b| - 1];
      ConcatAppend(a, b[..|b| - 1]);
    } else {
      assert a + b == a;
    }
  }

  /** What a split with a capturing group looks like: an odd number of
      parts, delimiter-free text at even positions, non-empty runs of
      delimiters at odd positions, and no empty text between two runs. */
  predicate WellSplit(parts: seq<string>) {
    && |parts| % 2 == 1
    && (forall j :: 0 <= j < |parts| && j % 2 == 0 ==> NoDelim(parts[j]))
    && (forall j :: 0 <= j < |parts| && j % 2 == 1 ==> DelimRun(parts[j]))
    && (forall j :: 0 < j < |parts| - 1 && j % 2 == 0 ==> parts[j] != [])
  }

  lemma SplitPartsHead(s: string)
    ensures SplitParts(s)[0] == TakeWhileNot(s, IsDelim)
  {
  }

  lemma ConcatCons(t: string, d: string, R: seq<string>)
    ensures Concat([t, d] + R) == t + d + Concat(R)
  {
    ConcatAppend([t, d], R);
    assert [t, d][..1] == [t];
    assert Concat([t]) == Concat([]) + t;
  }

  /** One step of the split: the text before the first delimiter, the run
      of delimiters after it, and the split of what follows. */
  lemma SplitPartsStep(s: string) returns (t: string, d: string, tail: string)
    requires |TakeWhileNot(s, IsDelim)| < |s|
    ensures t == TakeWhileNot(s, IsDelim) && NoDelim(t)
    ensures DelimRun(d) && s == t + d + tail
    ensures tail == [] || !IsDelim(tail[0])
    ensures SplitParts(s) == [t, d] + SplitParts(tail)
  {
    t := TakeWhileNot(s, IsDelim);
    var rest := s[|t|..];
    assert IsDelim(rest[0]);
    d, tail := DelimsThenText(rest);
    assert SplitParts(s) == [t, d] + SplitParts(tail);
    Rejoin(s, |t|);
    Rejoin(rest, |d|);
    assert s == t + rest && rest == d + tail;
    AppendAssoc(t, d, tail);
  }

  lemma AppendAssoc<T>(a: seq<T>, b: seq<T>, c: seq<T>)
    ensures a + (b + c) == a + b + c
  {
  }

  /** The run of delimiters a string starts with, and what follows it. */
  lemma DelimsThenText(rest: string) returns (d: string, tail: string)
    requires rest != [] && IsDelim(rest[0])
    ensures d == TakeWhileNot(rest, NotDelim) && tail == rest[|d|..]
    ensures DelimRun(d)
    ensures tail == [] || !IsDelim(tail[0])
  {
    d := TakeWhileNot(rest, NotDelim);
    tail := rest[|d|..];
    assert d != [];
    if tail != [] {
      assert tail[0] == rest[|d|];
    }
  }

  lemma Rejoin<T>(s: seq<T>, k: nat)
    requires k <= |s|
    ensures s == s[..k] + s[k..]
  {
  }

  /** The split loses nothing. */
  lemma {:induction false} SplitPartsConcat(s: string)
    ensures Concat(SplitParts(s)) == s
    decreases |s|
  {
    if |TakeWhileNot(s, IsDelim)| == |s| {
      assert SplitParts(s) == [s];
      assert Concat([s]) == Concat([]) + s;
    } else {
      var t, d, tail := SplitPartsStep(s);
      SplitPartsConcat(tail);
      ConcatCons(t, d, SplitParts(tail));
    }
  }

  /** Two pieces in front of a well-formed split keep it well formed when
      the first is delimiter-free, the second a run of delimiters, and the
      split behind them starts with text unless it is the last piece. */
  lemma ConsWellSplit(t: string, d: string, R: seq<string>)
    requires NoDelim(t) && DelimRun(d) && WellSplit(R)
    requires |R| > 1 ==> R[0] != []
    ensures WellSplit([t, d] + R)
  {
    var r := [t, d] + R;
    forall j | 2 <= j < |r|
      ensures r[j] == R[j - 2]
    {
    }
  }

  /** The split is well formed. */
  lemma {:induction false} SplitPartsWellSplit(s: string)
    ensures WellSplit(SplitParts(s))
    decreases |s|
  {
    if |TakeWhileNot(s, IsDelim)| == |s| {
      assert SplitParts(s) == [s];
    } else {
      var t, d, tail := SplitPartsStep(s);
      var R := SplitParts(tail);
      SplitPartsWellSplit(tail);
      SplitPartsHead(tail);
      assert SplitParts([]) == [[]];
      if |R| > 1 {
        assert tail != [];
      }
      ConsWellSplit(t, d, R);
    }
  }

  /** strip() of s is empty: s is empty or all whitespace. */
  predicate Blank(s: string) {
    s == [] || (IsSpace(s[|s| - 1]) && Blank(s[..|s| - 1]))
  }

  lemma {:induction false} BlankAllSpace(s: string)
    ensures Blank(s) <==> Strip(s) == []
  {
    if s != [] {
      BlankAllSpace(s[..|s| - 1]);
      assert Strip(s[..|s| - 1]) == [] <==> AllSpace(s[..|s| - 1]);
      if AllSpace(s[..|s| - 1]) && IsSpace(s[|s| - 1]) {
        assert AllSpace(s);
      }
    }
  }

  /** The loop's two variables: the spans emitted so far and the sentence
      being collected. */
  datatype SpanAcc = SpanAcc(spans: seq<string>, current: string)

  /** One iteration: part j is added to the current sentence, which is
      emitted when j is odd (a run of delimiters) and it is not blank. */
  function SpanTurn(acc: SpanAcc, j: nat, part: string): SpanAcc {
    var cur := acc.current + part;
    if j % 2 == 1 && !Blank(cur) then SpanAcc(acc.spans + [cur], "") else SpanAcc(acc.spans, cur)
  }

  /** The loop's state after the first k parts. */
  function SpanTurns(parts: seq<string>, k: nat): SpanAcc
    requires k <= |parts|
  {
    if k == 0 then SpanAcc([], "")
    else SpanTurn(SpanTurns(parts, k - 1), k - 1, parts[k - 1])
  }

  /** The texts of the spans a paragraph's text is cut into: every sentence
      up to and including its run of delimiters, and the remainder when it
      is not blank. */
  function Sentences(text: string): seq<string> {
    var parts := SplitParts(text);
    var acc := SpanTurns(parts, |parts|);
    if !Blank(acc.current) then acc.spans + [acc.current] else acc.spans
  }

  /** Each text piece glued to the run of delimiters after it. */
  function Pairs(parts: seq<string>, m: nat): (r: seq<string>)
    requires 2 * m <= |parts|
    ensures |r| == m
  {
    if m == 0 then [] else Pairs(parts, m - 1) + [parts[2 * m - 2] + parts[2 * m - 1]]
  }

  lemma {:induction false} PairsIndex(parts: seq<string>, m: nat)
    requires 2 * m <= |parts|
    ensures forall i :: 0 <= i < m ==> Pairs(parts, m)[i] == parts[2 * i] + parts[2 * i + 1]
  {
    if m > 0 {
      PairsIndex(parts, m - 1);
    }
  }

  /** After an even number of parts the loop has emitted exactly one span
      per text-and-delimiters pair, and holds the next text piece after
      one more. */
  lemma {:induction false} SpanTurnsPairs(parts: seq<string>, m: nat)
    requires 2 * m + 1 <= |parts|
    requires forall i :: 0 <= i < m ==> DelimRun(parts[2 * i + 1])
    ensures SpanTurns(parts, 2 * m) == SpanAcc(Pairs(parts, m), "")
    ensures SpanTurns(parts, 2 * m + 1) == SpanAcc(Pairs(parts, m), parts[2 * m])
  {
    if m > 0 {
      SpanTurnsPairs(parts, m - 1);
      assert DelimRun(parts[2 * (m - 1) + 1]);
      PairTurn(Pairs(parts, m - 1), parts[2 * m - 2], parts[2 * m - 1], 2 * m - 1);
    }
    assert [] + parts[2 * m] == parts[2 * m];
  }

  /** A run of delimiters always closes the sentence it ends. */
  lemma PairTurn(spans: seq<string>, t: string, d: string, j: nat)
    requires DelimRun(d) && j % 2 == 1
    ensures SpanTurn(SpanAcc(spans, t), j, d) == SpanAcc(spans + [t + d], "")
  {
    var cur := t + d;
    assert IsDelim(cur[|cur| - 1]);
  }

  /** The spans of a well-formed split, in closed form. */
  function SpansOfSplit(p: seq<string>): seq<string>
    requires |p| % 2 == 1
  {
    var k := |p| / 2;
    Pairs(p, k) + (if !Blank(p[2 * k]) then [p[2 * k]] else [])
  }

  /** The closed form of the sentences of a text. */
  lemma SentencesForm(text: string)
    ensures Sentences(text) == SpansOfSplit(SplitParts(text))
  {
    var p := SplitParts(text);
    var k := |p| / 2;
    SplitPartsWellSplit(text);
    WellSplitDelims(p);
    SpanTurnsPairs(p, k);
    assert |p| == 2 * k + 1;
    assert SpanTurns(p, |p|) == SpanAcc(Pairs(p, k), p[2 * k]);
  }

  /** In a well-formed split every odd part is a run of delimiters. */
  lemma WellSplitDelims(p: seq<string>)
    requires WellSplit(p)
    ensures forall i :: 0 <= i < |p| / 2 ==> DelimRun(p[2 * i + 1])
  {
    forall i | 0 <= i < |p| / 2
      ensures DelimRun(p[2 * i + 1])
    {
      assert (2 * i + 1) % 2 == 1;
    }
  }

  lemma {:induction false} ConcatPairs(parts: seq<string>, m: nat)
    requires 2 * m <= |parts|
    ensures Concat(Pairs(parts, m)) == Concat(parts[..2 * m])
  {
    if m > 0 {
      ConcatPairs(parts, m - 1);
      assert parts[..2 * m][..2 * m - 1] == parts[..2 * m - 1];
      assert parts[..2 * m - 1][..2 * m - 2] == parts[..2 * m - 2];
    }
  }

  lemma SplitCover(p: seq<string>)
    requires WellSplit(p)
    ensures var c := Concat(SpansOfSplit(p));
      && |c| <= |Concat(p)| && Concat(p)[..|c|] == c
      && Blank(Concat(p)[|c|..]) && NoDelim(Concat(p)[|c|..])
  {
    assert NoDelim(p[|p| - 1]) by {
      assert (|p| - 1) % 2 == 0;
    }
    OddSplitCover(p);
  }

  /** SplitCover, knowing only that the split is odd and ends in text. */
  lemma OddSplitCover(p: seq<string>)
    requires |p| % 2 == 1 && NoDelim(p[|p| - 1])
    ensures var c := Concat(SpansOfSplit(p));
      && |c| <= |Concat(p)| && Concat(p)[..|c|] == c
      && Blank(Concat(p)[|c|..]) && NoDelim(Concat(p)[|c|..])
  {
    var k := |p| / 2;
    assert 2 * k == |p| - 1;
    var last := p[2 * k];
    var P := Pairs(p, k);
    ConcatPairs(p, k);
    var a := Concat(P);
    assert Concat(p) == a + last by {
      assert p == p[..2 * k] + [last];
      ConcatOne(p[..2 * k], last);
    }
    assert SpansOfSplit(p) == P + (if !Blank(last) then [last] else []);
    assert Concat(SpansOfSplit(p)) == a + (if !Blank(last) then last else []) by {
      if !Blank(last) {
        ConcatOne(P, last);
      } else {
        assert P + [] == P;
        assert a + [] == a;
      }
    }
    CoverTail(a, last);
  }

  lemma ConcatOne(a: seq<string>, x: string)
    ensures Concat(a + [x]) == Concat(a) + x
  {
    assert (a + [x])[..|a|] == a;
  }

  /** A delimiter-free last piece is either a span of its own or, when
      blank, the uncovered tail. */
  lemma CoverTail(a: string, last: string)
    requires NoDelim(last)
    ensures var c := a + (if !Blank(last) then last else []);
      && |c| <= |a + last| && (a + last)[..|c|] == c
      && Blank((a + last)[|c|..]) && NoDelim((a + last)[|c|..])
  {
    if !Blank(last) {
      assert (a + last)[|a + last|..] == [];
    } else {
      assert a + [] == a;
      assert (a + last)[|a|..] == last;
    }
  }

  /** The spans cover the text but for a blank, delimiter-free tail: a
      text that does not end in whitespace is covered exactly, and no span
      at all means a blank text. */
  lemma SentencesCover(text: string)
    ensures var c := Concat(Sentences(text));
      && |c| <= |text| && text[..|c|] == c
      && Blank(text[|c|..]) && NoDelim(text[|c|..])
      && (text != [] && !IsSpace(text[|text| - 1]) ==> c == text)
      && (Sentences(text) == [] ==> Blank(text))
  {
    SplitPartsWellSplit(text);
    SplitPartsConcat(text);
    SentencesForm(text);
    SplitCover(SplitParts(text));
    var c := Concat(Sentences(text));
    if c != text {
      var tail := text[|c|..];
      assert tail != [] && tail[|tail| - 1] == text[|text| - 1];
    }
    if Sentences(text) == [] {
      assert text[|c|..] == text;
    }
  }

  lemma SplitShape(p: seq<string>)
    requires WellSplit(p)
    ensures var S := SpansOfSplit(p);
      && (forall i :: 0 <= i < |S| ==> !Blank(S[i]) && S[i] != [])
      && (forall i :: 0 <= i < |S| - 1 ==> IsDelim(S[i][|S[i]| - 1]))
      && (|S| > 0 ==> IsDelim(S[|S| - 1][|S[|S| - 1]| - 1]) || NoDelim(S[|S| - 1]))
      && (forall i :: 0 < i < |S| ==> !IsDelim(S[i][0]))
  {
    var k := |p| / 2;
    PairsIndex(p, k);
    var S := SpansOfSplit(p);
    forall i | 0 <= i < |S|
      ensures S[i] != [] && !Blank(S[i])
      ensures i < k ==> IsDelim(S[i][|S[i]| - 1])
      ensures i == k ==> NoDelim(S[i])
      ensures i > 0 ==> !IsDelim(S[i][0])
    {
      if i < k {
        assert S[i] == p[2 * i] + p[2 * i + 1];
        assert (2 * i + 1) % 2 == 1;
        assert DelimRun(p[2 * i + 1]);
        assert IsDelim(S[i][|S[i]| - 1]);
        if i > 0 {
          assert (2 * i) % 2 == 0;
          assert p[2 * i] != [] && NoDelim(p[2 * i]);
          assert S[i][0] == p[2 * i][0];
        }
      } else {
        assert S[i] == p[2 * k] && !Blank(p[2 * k]);
        assert (2 * k) % 2 == 0;
        assert NoDelim(p[2 * k]);
      }
    }
  }

  /** Every span is non-blank; every span but the last ends with a
      delimiter, and the last either does or holds none; every span after
      the first starts with a character that is not a delimiter. */
  lemma SentencesShape(text: string)
    ensures var S := Sentences(text);
      && (forall i :: 0 <= i < |S| ==> !Blank(S[i]) && S[i] != [])
      && (forall i :: 0 <= i < |S| - 1 ==> IsDelim(S[i][|S[i]| - 1]))
      && (|S| > 0 ==> IsDelim(S[|S| - 1][|S[|S| - 1]| - 1]) || NoDelim(S[|S| - 1]))
      && (forall i :: 0 < i < |S| ==> !IsDelim(S[i][0]))
  {
    SplitPartsWellSplit(text);
    SentencesForm(text);
    SplitShape(SplitParts(text));
  }

  lemma {:induction false} TakeWhileNotPrefix(a: string, b: string, p: char -> bool)
    requires forall i :: 0 <= i < |a| ==> !p(a[i])
    requires b == [] || p(b[0])
    ensures TakeWhileNot(a + b, p) == a
  {
    if a != [] {
      assert (a + b)[1..] == a[1..] + b;
      TakeWhileNotPrefix(a[1..], b, p);
    } else {
      assert a + b == b;
    }
  }

  lemma ConcatFront(x: string, R: seq<string>)
    ensures Concat([x] + R) == x + Concat(R)
  {
    ConcatAppend([x], R);
    assert Concat([x]) == Concat([]) + x;
  }

  /** Text, then a run of delimiters, then something that does not start
      with one: the split takes the first two apart. */
  lemma SplitPartsCons(t: string, d: string, c: string)
    requires NoDelim(t) && DelimRun(d) && (c == [] || !IsDelim(c[0]))
    ensures SplitParts(t + d + c) == [t, d] + SplitParts(c)
  {
    var s := t + d + c;
    assert (d + c)[0] == d[0];
    assert s == t + (d + c);
    TakeWhileNotPrefix(t, d + c, IsDelim);
    TakeWhileNotPrefix(d, c, NotDelim);
    assert s[|t|..] == d + c;
    assert (d + c)[|d|..] == c;
  }

  /** What follows the first two pieces of a well-formed split is one too,
      and its text does not start with a delimiter. */
  lemma WellSplitRest(q: seq<string>)
    requires WellSplit(q) && |q| > 1
    ensures WellSplit(q[2..])
    ensures var c := Concat(q[2..]); c == [] || !IsDelim(c[0])
  {
    var R := q[2..];
    forall j | 0 <= j < |R|
      ensures R[j] == q[j + 2]
    {
    }
    var c := Concat(R);
    if c != [] {
      ConcatFront(R[0], R[1..]);
      assert R == [R[0]] + R[1..];
      if |R| == 1 {
        assert R[1..] == [];
      } else {
        assert R[0] == q[2];
      }
      assert c[0] == R[0][0];
    }
  }

  /** Splitting a well-formed split's concatenation gives it back. */
  lemma {:induction false} SplitOfConcat(q: seq<string>)
    requires WellSplit(q)
    ensures SplitParts(Concat(q)) == q
    decreases |q|
  {
    if |q| == 1 {
      assert q == [q[0]];
      assert q[..0] == [];
      assert Concat(q) == q[0];
      TakeWhileNotPrefix(q[0], [], IsDelim);
      assert q[0] + [] == q[0];
    } else {
      var t, d, R := q[0], q[1], q[2..];
      assert q == [t, d] + R;
      WellSplitRest(q);
      ConcatCons(t, d, R);
      SplitPartsCons(t, d, Concat(R));
      SplitOfConcat(R);
    }
  }

  lemma {:induction false} PairsPrefix(p: seq<string>, q: seq<string>, m: nat)
    requires 2 * m <= |p| && 2 * m <= |q| && p[..2 * m] == q[..2 * m]
    ensures Pairs(p, m) == Pairs(q, m)
  {
    if m > 0 {
      assert p[..2 * m - 2] == q[..2 * m - 2] by {
        assert p[..2 * m - 2] == p[..2 * m][..2 * m - 2];
        assert q[..2 * m - 2] == q[..2 * m][..2 * m - 2];
      }
      assert p[2 * m - 2] == p[..2 * m][2 * m - 2];
      assert q[2 * m - 2] == q[..2 * m][2 * m - 2];
      assert p[2 * m - 1] == p[..2 * m][2 * m - 1];
      assert q[2 * m - 1] == q[..2 * m][2 * m - 1];
      PairsPrefix(p, q, m - 1);
    }
  }

  /** The split a well-formed split's spans come from: its pairs and the
      tail kept as a span, or an empty tail. */
  function SpanSource(p: seq<string>): (q: seq<string>)
    requires WellSplit(p)
    ensures WellSplit(q) && |q| == |p| && q[..|p| - 1] == p[..|p| - 1]
    ensures Concat(q) == Concat(SpansOfSplit(p))
  {
    var last := if !Blank(p[|p| - 1]) then p[|p| - 1] else [];
    SpanSourceFacts(p, last);
    p[..|p| - 1] + [last]
  }

  lemma SpanSourceFacts(p: seq<string>, last: string)
    requires WellSplit(p) && last == if !Blank(p[|p| - 1]) then p[|p| - 1] else []
    ensures var q := p[..|p| - 1] + [last];
      WellSplit(q) && |q| == |p| && q[..|p| - 1] == p[..|p| - 1] && Concat(q) == Concat(SpansOfSplit(p))
  {
    assert NoDelim(p[|p| - 1]) by {
      assert (|p| - 1) % 2 == 0;
    }
    WellSplitLast(p, last);
    SpanSourceConcat(p);
    assert (p[..|p| - 1] + [last])[..|p| - 1] == p[..|p| - 1];
  }

  /** Replacing the last text piece by another delimiter-free one keeps a
      split well formed. */
  lemma WellSplitLast(p: seq<string>, x: string)
    requires WellSplit(p) && NoDelim(x)
    ensures WellSplit(p[..|p| - 1] + [x])
  {
    var q := p[..|p| - 1] + [x];
    forall j | 0 <= j < |p| - 1
      ensures q[j] == p[j]
    {
    }
  }

  lemma SpanSourceConcat(p: seq<string>)
    requires |p| % 2 == 1
    ensures Concat(p[..|p| - 1] + [if !Blank(p[|p| - 1]) then p[|p| - 1] else []]) == Concat(SpansOfSplit(p))
  {
    var k := |p| / 2;
    assert 2 * k == |p| - 1;
    var P := Pairs(p, k);
    var last := if !Blank(p[2 * k]) then p[2 * k] else [];
    ConcatPairs(p, k);
    ConcatOne(p[..2 * k], last);
    if !Blank(p[2 * k]) {
      ConcatOne(P, last);
    } else {
      assert P + [] == P;
      assert Concat(P) + [] == Concat(P);
    }
  }

  /** Cutting the text of the spans again gives the same spans. */
  lemma SplitSpansIdempotent(p: seq<string>)
    requires WellSplit(p)
    ensures var S := SpansOfSplit(p);
      SpansOfSplit(SplitParts(Concat(S))) == S
  {
    var k := |p| / 2;
    var q := SpanSource(p);
    SplitOfConcat(q);
    PairsPrefix(p, q, k);
  }

  /** Cutting the text of a paragraph's spans again gives the same spans. */
  lemma SentencesIdempotent(text: string)
    ensures Sentences(Concat(Sentences(text))) == Sentences(text)
  {
    SplitPartsWellSplit(text);
    SentencesForm(text);
    SplitSpansIdempotent(SplitParts(text));
    SentencesForm(Concat(Sentences(text)));
  }

  // Pages: _process_xhtml_for_kobo.

  /** A koboSpan element: its id and its text. */
  datatype KoboSpan = KoboSpan(id: string, text: string)

  /** The id of the k-th span (counted from 1) of paragraph pid. */
  function SpanId(pid: string, k: nat): string { pid + "-" + NatToString(k) }

  function SpansOf(pid: string, texts: seq<string>): seq<KoboSpan> {
    seq(|texts|, i requires 0 <= i < |texts| => KoboSpan(SpanId(pid, i + 1), texts[i]))
  }

  /** Span k (from 0) of SpansOf holds the k-th text and is numbered k + 1. */
  lemma SpansOfAt(pid: string, texts: seq<string>, k: nat)
    requires k < |texts|
    ensures |SpansOf(pid, texts)| == |texts| && SpansOf(pid, texts)[k] == KoboSpan(SpanId(pid, k + 1), texts[k])
  {
  }

  /** The loop that cuts a paragraph's text into spans: span k (from 1)
      holds the k-th sentence and is numbered pid-k. */
  method SplitParagraph(pid: string, text: string) returns (spans: seq<KoboSpan>)
    ensures spans == SpansOf(pid, Sentences(text))
  {
    var parts := SplitParts(text);
    var current := "";
    var spanCount := 1;
    spans := [];
    ghost var texts: seq<string> := [];
    var j := 0;
    while j < |parts|
      invariant 0 <= j <= |parts|
      invariant SpanTurns(parts, j) == SpanAcc(texts, current)
      invariant spanCount == |texts| + 1 && spans == SpansOf(pid, texts)
    {
      current := current + parts[j];
      if j % 2 == 1 && !Blank(current) {
        SpansOfSnoc(pid, texts, current);
        spans := spans + [KoboSpan(SpanId(pid, spanCount), current)];
        texts := texts + [current];
        current := "";
        spanCount := spanCount + 1;
      }
      j := j + 1;
    }
    if !Blank(current) {
      SpansOfSnoc(pid, texts, current);
      spans := spans + [KoboSpan(SpanId(pid, spanCount), current)];
      texts := texts + [current];
    }
  }

  lemma SpansOfSnoc(pid: string, texts: seq<string>, t: string)
    ensures SpansOf(pid, texts + [t]) == SpansOf(pid, texts) + [KoboSpan(SpanId(pid, |texts| + 1), t)]
  {
  }

  /** Span ids within a paragraph are all different. */
  lemma SpanIdsDistinct(pid: string, texts: seq<string>)
    ensures var r := SpansOf(pid, texts);
      forall i, j :: 0 <= i < j < |r| ==> r[i].id != r[j].id
  {
    var r := SpansOf(pid, texts);
    forall i, j | 0 <= i < j < |r|
      ensures r[i].id != r[j].id
    {
      if r[i].id == r[j].id {
        assert NatToString(i + 1) == r[i].id[|pid| + 1..];
        assert NatToString(j + 1) == r[j].id[|pid| + 1..];
        NatToStringInjective(i + 1, j + 1);
      }
    }
  }

  /** A <p> element: its id ("" when it has none or an empty one), its
      text, and the koboSpans it holds once it has been rebuilt from them
      (None: its original content is kept). */
  datatype Paragraph = Paragraph(id: string, text: string, spans: Option<seq<KoboSpan>>)

  /** The i-th paragraph of a page (counted from 0) gets the id kobo_p_i
      when it has none; a paragraph with a non-blank text is emptied and
      refilled with one span per sentence. */
  function KoboParagraph(p: Paragraph, i: nat): Paragraph {
    var pid := if p.id == "" then "kobo_p_" + NatToString(i) else p.id;
    if Blank(p.text) then p.(id := pid)
    else
      var texts := Sentences(p.text);
      Paragraph(pid, Concat(texts), Some(SpansOf(pid, texts)))
  }

  /** A div of class "image": its id, whether it holds an img, and the id
      of the koboSpan around that img if there is one. */
  datatype ImageDiv = ImageDiv(id: Option<string>, hasImage: bool, span: Option<string>)

  /** The i-th image div gets the id kobo_img_i; an img not yet inside a
      koboSpan is wrapped in one numbered kobo.img.i.1. */
  function KoboImageDiv(d: ImageDiv, i: nat): ImageDiv {
    ImageDiv(Some("kobo_img_" + NatToString(i)), d.hasImage,
      if d.hasImage && d.span.None? then Some("kobo.img." + NatToString(i) + ".1") else d.span)
  }

  /** The html element and the value of its xmlns:kobo attribute. */
  datatype HtmlTag = HtmlTag(koboNs: Option<string>)

  /** An XHTML page: its html element (if the parser found one), its
      paragraphs and its image divs, in document order. */
  datatype Page = Page(html: Option<HtmlTag>, paragraphs: seq<Paragraph>, imageDivs: seq<ImageDiv>)

  /** The namespace attribute is added to a page only when it is absent. */
  function AddNamespace(h: Option<HtmlTag>): Option<HtmlTag> {
    match h
    case None => None
    case Some(tag) => if tag.koboNs.None? then Some(HtmlTag(Some(KoboNamespaceUri))) else h
  }

  function KoboPage(page: Page): Page {
    Page(AddNamespace(page.html), KoboParagraphs(page.paragraphs), KoboImageDivs(page.imageDivs))
  }

  /** Each paragraph rewritten with its position. */
  function KoboParagraphs(ps: seq<Paragraph>): seq<Paragraph> {
    seq(|ps|, i requires 0 <= i < |ps| => KoboParagraph(ps[i], i))
  }

  /** Each image div rewritten with its position. */
  function KoboImageDivs(ds: seq<ImageDiv>): seq<ImageDiv> {
    seq(|ds|, i requires 0 <= i < |ds| => KoboImageDiv(ds[i], i))
  }

  /** _process_xhtml_for_kobo on a parsed page: the paragraphs and then the
      image divs are rewritten one by one, in document order. */
  method ProcessXhtml(page: Page) returns (r: Page)
    ensures r == KoboPage(page)
  {
    var paragraphs := ProcessParagraphs(page.paragraphs);
    var imageDivs := ProcessImageDivs(page.imageDivs);
    r := Page(AddNamespace(page.html), paragraphs, imageDivs);
  }

  /** The paragraph loop of _process_xhtml_for_kobo. */
  method ProcessParagraphs(paragraphs: seq<Paragraph>) returns (r: seq<Paragraph>)
    ensures r == KoboParagraphs(paragraphs)
  {
    ghost var target := KoboParagraphs(paragraphs);
    r := [];
    var i := 0;
    while i < |paragraphs|
      invariant 0 <= i <= |paragraphs|
      invariant r == target[..i]
    {
      var q := RewriteParagraph(paragraphs[i], i);
      assert target[..i + 1] == target[..i] + [q];
      r := r + [q];
      i := i + 1;
    }
  }

  /** The body of the paragraph loop for the i-th paragraph. */
  method RewriteParagraph(p: Paragraph, i: nat) returns (q: Paragraph)
    ensures q == KoboParagraph(p, i)
  {
    var pid := if p.id == "" then "kobo_p_" + NatToString(i) else p.id;
    if Blank(p.text) {
      q := p.(id := pid);
    } else {
      var spans := SplitParagraph(pid, p.text);
      q := Paragraph(pid, Concat(Sentences(p.text)), Some(spans));
    }
  }

  /** The image-div loop of _process_xhtml_for_kobo. */
  method ProcessImageDivs(imageDivs: seq<ImageDiv>) returns (r: seq<ImageDiv>)
    ensures r == KoboImageDivs(imageDivs)
  {
    ghost var target := KoboImageDivs(imageDivs);
    r := [];
    var i := 0;
    while i < |imageDivs|
      invariant 0 <= i <= |imageDivs|
      invariant r == target[..i]
    {
      var d := imageDivs[i];
      var span := d.span;
      if d.hasImage && span.None? {
        span := Some("kobo.img." + NatToString(i) + ".1");
      }
      var rewritten := ImageDiv(Some("kobo_img_" + NatToString(i)), d.hasImage, span);
      assert target[..i + 1] == target[..i] + [rewritten];
      r := r + [rewritten];
      i := i + 1;
    }
  }

  lemma {:induction false} BlankSuffix(x: string, y: string)
    requires Blank(x + y)
    ensures Blank(y)
    decreases |y|
  {
    if y != [] {
      assert (x + y)[..|x + y| - 1] == x + y[..|y| - 1];
      BlankSuffix(x, y[..|y| - 1]);
    }
  }

  /** The text of a non-blank paragraph's spans is not blank either. */
  lemma SentencesNotBlank(text: string)
    requires !Blank(text)
    ensures Sentences(text) != [] && !Blank(Concat(Sentences(text)))
  {
    SentencesCover(text);
    SentencesShape(text);
    var S := Sentences(text);
    if Blank(Concat(S)) {
      BlankSuffix(Concat(S[..|S| - 1]), S[|S| - 1]);
    }
  }

  /** A paragraph ends up with a non-empty id, its own if it had one; a
      blank paragraph keeps its content; any other is rebuilt from spans
      numbered pid-1, pid-2, ... holding its sentences in order, whose text
      is the old text less a blank, delimiter-free tail. Doing it twice
      changes nothing more. */
  lemma KoboParagraphProperties(p: Paragraph, i: nat)
    ensures var r := KoboParagraph(p, i);
      && r.id != ""
      && (p.id != "" ==> r.id == p.id)
      && (p.id == "" ==> r.id == "kobo_p_" + NatToString(i))
      && (Blank(p.text) ==> r.text == p.text && r.spans == p.spans)
      && (!Blank(p.text) ==>
            && r.spans.Some? && |r.spans.value| == |Sentences(p.text)| > 0
            && (forall k :: 0 <= k < |r.spans.value| ==>
                  r.spans.value[k] == KoboSpan(SpanId(r.id, k + 1), Sentences(p.text)[k]))
            && r.text == Concat(Sentences(p.text))
            && |r.text| <= |p.text| && p.text[..|r.text|] == r.text
            && Blank(p.text[|r.text|..]))
      && KoboParagraph(r, i) == r
  {
    var r := KoboParagraph(p, i);
    var pid := if p.id == "" then "kobo_p_" + NatToString(i) else p.id;
    assert "kobo_p_" + NatToString(i) != "";
    assert r.id == pid != "";
    if !Blank(p.text) {
      var texts := Sentences(p.text);
      assert r == Paragraph(pid, Concat(texts), Some(SpansOf(pid, texts)));
      forall k | 0 <= k < |r.spans.value|
        ensures r.spans.value[k] == KoboSpan(SpanId(r.id, k + 1), texts[k])
      {
        SpansOfAt(pid, texts, k);
      }
      SentencesCover(p.text);
      SentencesNotBlank(p.text);
      SentencesIdempotent(p.text);
      assert !Blank(r.text) && Sentences(r.text) == texts;
      assert KoboParagraph(r, i) == Paragraph(pid, Concat(texts), Some(SpansOf(pid, texts)));
    } else {
      assert r == p.(id := pid);
      assert KoboParagraph(r, i) == r.(id := pid);
    }
  }

  /** Every paragraph and image div is rewritten as above, position by
      position; the namespace is added only where it is missing; every img
      ends up inside a koboSpan, one that was already there being kept.
      Processing a page twice changes nothing more. */
  lemma KoboPageProperties(page: Page)
    ensures var r := KoboPage(page);
      && |r.paragraphs| == |page.paragraphs| && |r.imageDivs| == |page.imageDivs|
      && (page.html.None? <==> r.html.None?)
      && (r.html.Some? ==> r.html.value.koboNs.Some?)
      && (page.html.Some? && page.html.value.koboNs.Some? ==> r.html == page.html)
      && (forall i :: 0 <= i < |r.paragraphs| ==> r.paragraphs[i].id != "")
      && (forall i :: 0 <= i < |r.imageDivs| ==>
            && r.imageDivs[i].id == Some("kobo_img_" + NatToString(i))
            && r.imageDivs[i].hasImage == page.imageDivs[i].hasImage
            && (r.imageDivs[i].hasImage ==> r.imageDivs[i].span.Some?)
            && (page.imageDivs[i].span.Some? ==> r.imageDivs[i].span == page.imageDivs[i].span))
      && KoboPage(r) == r
  {
    var r := KoboPage(page);
    forall i | 0 <= i < |r.paragraphs|
      ensures r.paragraphs[i].id != "" && KoboParagraph(r.paragraphs[i], i) == r.paragraphs[i]
    {
      KoboParagraphProperties(page.paragraphs[i], i);
    }
    assert KoboPage(r).paragraphs == r.paragraphs;
    assert KoboPage(r).imageDivs == r.imageDivs;
  }

  // The navigation document: _process_nav_for_kobo.

  /** An <a> of the table of contents: what bs4 gives as its .string (None
      when it has no single text child) and the koboSpan inside it, if
      any. */
  datatype Anchor = Anchor(str: Option<string>, span: Option<KoboSpan>)

  /** An <li> of the table of contents and its first <a>, if any. */
  datatype TocItem = TocItem(anchor: Option<Anchor>)

  /** The nav element of type toc: its id ("" when it has none) and its
      list items in document order. */
  datatype TocNav = TocNav(id: string, items: seq<TocItem>)

  datatype NavFile = NavFile(html: Option<HtmlTag>, toc: Option<TocNav>)

  /** An anchor that still needs its span. */
  predicate Unwrapped(it: TocItem) { it.anchor.Some? && it.anchor.value.span.None? }

  /** Wrapping an anchor whose .string is None appends None to the span,
      which bs4 refuses: the error ends the processing before the file is
      written back. */
  predicate NavFails(f: NavFile) {
    f.toc.Some? && exists it :: it in f.toc.value.items && Unwrapped(it) && it.anchor.value.str.None?
  }

  /** The i-th list item's anchor (counted from 0) has its text moved into
      a koboSpan numbered kobo.toc.(i+1); the anchor keeps an empty string
      and the span, so it no longer has a .string of its own. */
  function KoboTocItem(it: TocItem, i: nat): TocItem
    requires Unwrapped(it) ==> it.anchor.value.str.Some?
  {
    if Unwrapped(it) then
      TocItem(Some(Anchor(None, Some(KoboSpan("kobo.toc." + NatToString(i + 1), it.anchor.value.str.value)))))
    else it
  }

  /** The namespace is set whether or not it was there, the nav gets the id
      "toc" when it has none, and every anchor is wrapped; when one cannot
      be, the document is left as it was. */
  function KoboNav(f: NavFile): NavFile {
    if NavFails(f) then f
    else
      NavFile(if f.html.Some? then Some(HtmlTag(Some(KoboNamespaceUri))) else None,
        match f.toc
        case None => None
        case Some(t) =>
          Some(TocNav(if t.id == "" then "toc" else t.id,
            seq(|t.items|, i requires 0 <= i < |t.items| => KoboTocItem(t.items[i], i)))))
  }

  /** The loop over the list items of the nav. */
  method ProcessNav(f: NavFile) returns (r: NavFile)
    ensures r == KoboNav(f)
  {
    if f.toc.None? {
      return NavFile(if f.html.Some? then Some(HtmlTag(Some(KoboNamespaceUri))) else None, None);
    }
    var t := f.toc.value;
    var items := new TocItem[|t.items|](i requires 0 <= i < |t.items| => t.items[i]);
    var i := 0;
    while i < items.Length
      invariant 0 <= i <= items.Length
      invariant forall k :: 0 <= k < i ==> !(Unwrapped(t.items[k]) && t.items[k].anchor.value.str.None?)
      invariant forall k :: 0 <= k < i ==> items[k] == KoboTocItem(t.items[k], k)
      invariant forall k :: i <= k < items.Length ==> items[k] == t.items[k]
    {
      var it := items[i];
      if Unwrapped(it) {
        var a := it.anchor.value;
        if a.str.None? {
          assert t.items[i] in f.toc.value.items;
          return f;
        }
        items[i] := TocItem(Some(Anchor(None, Some(KoboSpan("kobo.toc." + NatToString(i + 1), a.str.value)))));
      }
      i := i + 1;
    }
    assert !NavFails(f) by {
      forall it | it in t.items && Unwrapped(it)
        ensures it.anchor.value.str.Some?
      {
        var k :| 0 <= k < |t.items| && t.items[k] == it;
      }
    }
    var want := KoboNav(f);
    assert items[..] == want.toc.value.items;
    r := NavFile(if f.html.Some? then Some(HtmlTag(Some(KoboNamespaceUri))) else None,
      Some(TocNav(if t.id == "" then "toc" else t.id, items[..])));
  }

  /** After the rewrite every anchor sits in a koboSpan: a span already
      there is kept, a new one carries the anchor's old text and the number
      of its list item; the html element carries the Kobo namespace and the
      nav an id. A document with an anchor that cannot be wrapped is left
      untouched. Processing twice changes nothing more. */
  lemma KoboNavProperties(f: NavFile)
    ensures var r := KoboNav(f);
      && (NavFails(f) ==> r == f)
      && (!NavFails(f) ==>
            && (f.html.Some? ==> r.html == Some(HtmlTag(Some(KoboNamespaceUri))))
            && (f.toc.Some? <==> r.toc.Some?)
            && (r.toc.Some? ==>
                  && r.toc.value.id != ""
                  && (f.toc.value.id != "" ==> r.toc.value.id == f.toc.value.id)
                  && |r.toc.value.items| == |f.toc.value.items|
                  && forall i :: 0 <= i < |r.toc.value.items| ==>
                       var was := f.toc.value.items[i];
                       var now := r.toc.value.items[i];
                       && !Unwrapped(now)
                       && (!Unwrapped(was) ==> now == was)
                       && (Unwrapped(was) ==>
                             now.anchor.value.span == Some(KoboSpan("kobo.toc." + NatToString(i + 1), was.anchor.value.str.value)))))
      && KoboNav(r) == r
  {
    var r := KoboNav(f);
    if !NavFails(f) && r.toc.Some? {
      var t := f.toc.value;
      forall i | 0 <= i < |t.items|
        ensures !Unwrapped(r.toc.value.items[i])
      {
        assert t.items[i] in t.items;
      }
      assert !NavFails(r) by {
        forall it | it in r.toc.value.items
          ensures !Unwrapped(it)
        {
          var k :| 0 <= k < |r.toc.value.items| && r.toc.value.items[k] == it;
        }
      }
      assert KoboNav(r).toc.value.items == r.toc.value.items;
    }
  }

  // The package document: _update_content_opf.

  const NcxMediaType := "application/x-dtbncx+xml"

  /** A manifest item with the attributes the rewrite reads. */
  datatype ManifestItem = ManifestItem(id: string, mediaType: Option<string>, properties: Option<string>)

  datatype ItemRef = ItemRef(idref: Option<string>, linear: Option<string>)

  /** The spine element: its page-progression-direction and toc attributes
      and its itemrefs. */
  datatype SpineElement = SpineElement(progression: Option<string>, toc: Option<string>, itemrefs: seq<ItemRef>)

  /** A meta element of the metadata, by its name and content attributes. */
  datatype Meta = Meta(name: Option<string>, content: Option<string>)

  /** The parts of content.opf the rewrite touches; each may be absent. */
  datatype PackageDoc = PackageDoc(spine: Option<SpineElement>, manifest: Option<seq<ManifestItem>>, metadata: Option<seq<Meta>>)

  predicate IsNcxItem(m: ManifestItem) { m.mediaType == Some(NcxMediaType) }

  predicate IsNavItem(m: ManifestItem) { m.properties == Some("nav") }

  /** The position of the first item satisfying p. */
  function FirstWhere(items: seq<ManifestItem>, p: ManifestItem -> bool): (r: Option<nat>)
    ensures r.Some? ==> r.value < |items| && p(items[r.value]) && forall k :: 0 <= k < r.value ==> !p(items[k])
    ensures r.None? ==> forall k :: 0 <= k < |items| ==> !p(items[k])
  {
    if items == [] then None
    else if p(items[0]) then Some(0)
    else
      var r := FirstWhere(items[1..], p);
      if r.None? then None else Some(r.value + 1)
  }

  /** A missing attribute or an empty one. */
  predicate Missing(v: Option<string>) { v.None? || v.value == "" }

  predicate InSpine(refs: seq<ItemRef>, id: string) {
    exists k :: 0 <= k < |refs| && refs[k].idref == Some(id)
  }

  /** The spine after the rewrite: right-to-left progression when the
      builder reads right to left and none is set, the toc attribute naming
      the first NCX item, and the first nav item referenced at the end
      unless it already is. */
  function KoboSpine(sp: SpineElement, manifest: Option<seq<ManifestItem>>, rtl: bool): SpineElement {
    var s1 := if rtl && Missing(sp.progression) then sp.(progression := Some("rtl")) else sp;
    match manifest
    case None => s1
    case Some(items) =>
      var s2 := match FirstWhere(items, IsNcxItem)
        case None => s1
        case Some(k) => s1.(toc := Some(items[k].id));
      match FirstWhere(items, IsNavItem)
      case None => s2
      case Some(k) =>
        if InSpine(s2.itemrefs, items[k].id) then s2
        else s2.(itemrefs := s2.itemrefs + [ItemRef(Some(items[k].id), Some("yes"))])
  }

  /** The meta elements added when no meta of the same name exists. */
  const KoboMetas: seq<(string, string)> :=
    [("book-type", "manga"), ("orientation-lock", "portrait"), ("generator", "MangaBook EPUB Generator")]

  predicate HasMeta(metas: seq<Meta>, name: string) {
    exists k :: 0 <= k < |metas| && metas[k].name == Some(name)
  }

  function AddMetas(metas: seq<Meta>, todo: seq<(string, string)>): seq<Meta> {
    if todo == [] then metas
    else
      var m := AddMetas(metas, todo[..|todo| - 1]);
      var entry := todo[|todo| - 1];
      if HasMeta(m, entry.0) then m else m + [Meta(Some(entry.0), Some(entry.1))]
  }

  function KoboOpf(d: PackageDoc, rtl: bool): PackageDoc {
    d.(spine := if d.spine.Some? then Some(KoboSpine(d.spine.value, d.manifest, rtl)) else None,
       metadata := if d.metadata.Some? then Some(AddMetas(d.metadata.value, KoboMetas)) else None)
  }

  /** The search loops over the manifest items. */
  method FindFirst(items: seq<ManifestItem>, p: ManifestItem -> bool) returns (r: Option<nat>)
    ensures r == FirstWhere(items, p)
  {
    var i := 0;
    while i < |items|
      invariant 0 <= i <= |items|
      invariant forall k :: 0 <= k < i ==> !p(items[k])
    {
      if p(items[i]) {
        return Some(i);
      }
      i := i + 1;
    }
    return None;
  }

  method SpineRefers(refs: seq<ItemRef>, id: string) returns (found: bool)
    ensures found <==> InSpine(refs, id)
  {
    found := false;
    var i := 0;
    while i < |refs|
      invariant 0 <= i <= |refs|
      invariant forall k :: 0 <= k < i ==> refs[k].idref != Some(id)
    {
      if refs[i].idref == Some(id) {
        return true;
      }
      i := i + 1;
    }
  }

  /** The loop over the three meta elements, each with its search. */
  method AddMetaTags(metas: seq<Meta>) returns (r: seq<Meta>)
    ensures r == AddMetas(metas, KoboMetas)
  {
    r := metas;
    var j := 0;
    while j < |KoboMetas|
      invariant 0 <= j <= |KoboMetas|
      invariant r == AddMetas(metas, KoboMetas[..j])
    {
      assert KoboMetas[..j + 1][..j] == KoboMetas[..j];
      var entry := KoboMetas[j];
      var found := false;
      var i := 0;
      while i < |r|
        invariant 0 <= i <= |r|
        invariant found <==> exists k :: 0 <= k < i && r[k].name == Some(entry.0)
      {
        if r[i].name == Some(entry.0) {
          found := true;
        }
        i := i + 1;
      }
      if !found {
        r := r + [Meta(Some(entry.0), Some(entry.1))];
      }
      j := j + 1;
    }
    assert KoboMetas[..j] == KoboMetas;
  }

  /** _update_content_opf on a parsed package document. */
  method UpdateContentOpf(d: PackageDoc, rtl: bool) returns (r: PackageDoc)
    ensures r == KoboOpf(d, rtl)
  {
    r := d;
    if d.spine.Some? {
      var sp := d.spine.value;
      if rtl && Missing(sp.progression) {
        sp := sp.(progression := Some("rtl"));
      }
      if d.manifest.Some? {
        var items := d.manifest.value;
        var ncx := FindFirst(items, IsNcxItem);
        if ncx.Some? {
          sp := sp.(toc := Some(items[ncx.value].id));
        }
        var nav := FindFirst(items, IsNavItem);
        if nav.Some? {
          var navId := items[nav.value].id;
          var inSpine := SpineRefers(sp.itemrefs, navId);
          if !inSpine {
            sp := sp.(itemrefs := sp.itemrefs + [ItemRef(Some(navId), Some("yes"))]);
          }
        }
      }
      r := r.(spine := Some(sp));
    }
    if d.metadata.Some? {
      var metas := AddMetaTags(d.metadata.value);
      r := r.(metadata := Some(metas));
    }
  }

  /** The metas already there stay first and in order; every name to add
      is present afterwards; a new meta is one of those to add, for a name
      that had none; and when every name is present nothing is added. */
  lemma {:induction false} AddMetasProperties(metas: seq<Meta>, todo: seq<(string, string)>)
    ensures var r := AddMetas(metas, todo);
      && |metas| <= |r| <= |metas| + |todo| && r[..|metas|] == metas
      && (forall e :: e in todo ==> HasMeta(r, e.0))
      && (forall k :: |metas| <= k < |r| ==>
            (exists e :: e in todo && r[k] == Meta(Some(e.0), Some(e.1)) && !HasMeta(metas, e.0)))
      && ((forall e :: e in todo ==> HasMeta(metas, e.0)) ==> r == metas)
  {
    if todo != [] {
      var front := todo[..|todo| - 1];
      var entry := todo[|todo| - 1];
      AddMetasProperties(metas, front);
      var m := AddMetas(metas, front);
      assert todo == front + [entry];
      if !HasMeta(m, entry.0) {
        var r := m + [Meta(Some(entry.0), Some(entry.1))];
        assert r[..|metas|] == m[..|metas|];
        assert HasMeta(r, entry.0) by { assert r[|m|].name == Some(entry.0); }
        forall e | e in front
          ensures HasMeta(r, e.0)
        {
          var k :| 0 <= k < |m| && m[k].name == Some(e.0);
          assert r[k] == m[k];
        }
        forall k | |metas| <= k < |r|
          ensures exists e :: e in todo && r[k] == Meta(Some(e.0), Some(e.1)) && !HasMeta(metas, e.0)
        {
          if k == |m| {
            assert entry in todo;
          } else {
            assert r[k] == m[k];
            var e :| e in front && m[k] == Meta(Some(e.0), Some(e.1)) && !HasMeta(metas, e.0);
            assert e in todo;
          }
        }
        if forall e :: e in todo ==> HasMeta(metas, e.0) {
          assert entry in todo;
        }
      }
    }
  }

  /** The spine ends up with a progression direction when the builder reads
      right to left, one that was set being kept; its toc names the first
      NCX item of the manifest; the first nav item is referenced, at the
      end and once, when it was not before; the three Kobo metas are
      present, those already there untouched. Rewriting twice changes
      nothing more. */
  lemma KoboOpfProperties(d: PackageDoc, rtl: bool)
    ensures var r := KoboOpf(d, rtl);
      && r.manifest == d.manifest
      && (r.spine.Some? <==> d.spine.Some?) && (r.metadata.Some? <==> d.metadata.Some?)
      && (d.spine.Some? ==>
            var was := d.spine.value;
            var now := r.spine.value;
            && (rtl ==> !Missing(now.progression))
            && (!rtl || !Missing(was.progression) ==> now.progression == was.progression)
            && (d.manifest.Some? && FirstWhere(d.manifest.value, IsNcxItem).Some? ==>
                  now.toc == Some(d.manifest.value[FirstWhere(d.manifest.value, IsNcxItem).value].id))
            && (d.manifest.None? || FirstWhere(d.manifest.value, IsNcxItem).None? ==> now.toc == was.toc)
            && |was.itemrefs| <= |now.itemrefs| <= |was.itemrefs| + 1
            && now.itemrefs[..|was.itemrefs|] == was.itemrefs
            && (d.manifest.Some? && FirstWhere(d.manifest.value, IsNavItem).Some? ==>
                  InSpine(now.itemrefs, d.manifest.value[FirstWhere(d.manifest.value, IsNavItem).value].id))
            && (d.manifest.None? || FirstWhere(d.manifest.value, IsNavItem).None? ==> now.itemrefs == was.itemrefs))
      && (d.metadata.Some? ==>
            && |d.metadata.value| <= |r.metadata.value|
            && r.metadata.value[..|d.metadata.value|] == d.metadata.value
            && forall e :: e in KoboMetas ==> HasMeta(r.metadata.value, e.0))
      && KoboOpf(r, rtl) == r
  {
    var r := KoboOpf(d, rtl);
    if d.metadata.Some? {
      AddMetasProperties(d.metadata.value, KoboMetas);
      AddMetasProperties(r.metadata.value, KoboMetas);
    }
    if d.spine.Some? && d.manifest.Some? && FirstWhere(d.manifest.value, IsNavItem).Some? {
      var was := d.spine.value.itemrefs;
      var id := d.manifest.value[FirstWhere(d.manifest.value, IsNavItem).value].id;
      if !InSpine(was, id) {
        var now := r.spine.value.itemrefs;
        assert now == was + [ItemRef(Some(id), Some("yes"))];
        assert now[|was|].idref == Some(id);
      }
    }
  }

  // _apply_kobo_modifications: the extracted archive, rewritten and zipped again.

  /** A file of the extracted archive, as far as the rewrite reads it. A
      file whose content is not of the kind its path calls for is one the
      rewrite fails on, and it is left as it was. */
  datatype Content =
    | PageFile(page: Page)
    | NavDocFile(nav: NavFile)
    | PackageFile(doc: PackageDoc)
    | NcxFile(nodes: seq<Navigation.NcxNode>)
    | OtherFile

  const PagesDir := "OEBPS/pages/"

  /** The paths the glob pattern matches: an .xhtml file directly in
      OEBPS/pages. */
  predicate IsPagePath(p: string) {
    && |p| >= |PagesDir| + |".xhtml"|
    && StartsWith(p, PagesDir) && EndsWith(p, ".xhtml")
    && '/' !in p[|PagesDir|..]
  }

  /** One file after the rewrite: pages, the navigation document, the
      package document and the NCX each get their own treatment. */
  function KoboContent(path: string, c: Content, rtl: bool): Content {
    if IsPagePath(path) && c.PageFile? then PageFile(KoboPage(c.page))
    else if path == "OEBPS/nav.xhtml" && c.NavDocFile? then NavDocFile(KoboNav(c.nav))
    else if path == "OEBPS/content.opf" && c.PackageFile? then PackageFile(KoboOpf(c.doc, rtl))
    else if path == "OEBPS/toc.ncx" && c.NcxFile? then NcxFile(Navigation.KoboNcx(c.nodes))
    else c
  }

  function KoboFiles(files: map<string, Content>, rtl: bool): map<string, Content> {
    map p | p in files :: KoboContent(p, files[p], rtl)
  }

  /** The entries of the new archive after the mimetype: every file of the
      walk except those named mimetype, in whatever directory, deflated. */
  function KoboWalk(listing: seq<string>): (r: seq<ZipEntry>)
    ensures |r| <= |listing|
  {
    if listing == [] then []
    else
      var k := |listing| - 1;
      KoboWalk(listing[..k]) + (if BaseName(listing[k]) == "mimetype" then [] else [ZipEntry(listing[k], Deflated)])
  }

  /** The new archive: the mimetype first and stored when there is one,
      then the walk. */
  function RezipEntries(names: set<string>, listing: seq<string>): seq<ZipEntry> {
    (if "mimetype" in names then [ZipEntry("mimetype", Stored)] else []) + KoboWalk(listing)
  }

  /** How _apply_kobo_modifications ends: the file left as it was, or the
      entries and contents of the archive written in its place. */
  datatype KoboResult = Unchanged | Rezipped(entries: seq<ZipEntry>, files: map<string, Content>)

  /** The modifications on the extracted files. The NCX step calls
      _update_toc_ncx, which only a builder that defines it has; without it
      the lookup fails before the old file is removed, the error is logged,
      and the file stays as it was. */
  function KoboApplied(files: map<string, Content>, listing: seq<string>, rtl: bool, tocUpdater: bool): KoboResult {
    if "OEBPS/toc.ncx" in files && !tocUpdater then Unchanged
    else Rezipped(RezipEntries(files.Keys, listing), KoboFiles(files, rtl))
  }

  /** The ZIP loop of _apply_kobo_modifications. */
  method Rezip(names: set<string>, listing: seq<string>) returns (entries: seq<ZipEntry>)
    ensures entries == RezipEntries(names, listing)
  {
    entries := [];
    if "mimetype" in names {
      entries := [ZipEntry("mimetype", Stored)];
    }
    ghost var head := entries;
    var i := 0;
    while i < |listing|
      invariant 0 <= i <= |listing|
      invariant entries == head + KoboWalk(listing[..i])
    {
      assert listing[..i + 1][..i] == listing[..i];
      if BaseName(listing[i]) != "mimetype" {
        entries := entries + [ZipEntry(listing[i], Deflated)];
      }
      i := i + 1;
    }
    assert listing[..i] == listing;
  }

  /** A file after the page loop. */
  function PageDone(path: string, c: Content): Content {
    if IsPagePath(path) && c.PageFile? then PageFile(KoboPage(c.page)) else c
  }

  /** The page loop: every page path of the walk is rewritten, and no other
      file. */
  method ProcessPages(files: map<string, Content>, listing: seq<string>)
    returns (out: map<string, Content>)
    requires IsListing(listing, files.Keys)
    ensures out.Keys == files.Keys
    ensures forall p :: p in files ==> out[p] == PageDone(p, files[p])
  {
    out := files;
    var i := 0;
    while i < |listing|
      invariant 0 <= i <= |listing|
      invariant out.Keys == files.Keys
      invariant forall p :: p in files ==> out[p] == if p in listing[..i] then PageDone(p, files[p]) else files[p]
    {
      var path := listing[i];
      assert path in files;
      assert path !in listing[..i];
      assert out[path] == files[path];
      if IsPagePath(path) && out[path].PageFile? {
        var page := ProcessXhtml(out[path].page);
        out := out[path := PageFile(page)];
      }
      assert listing[..i + 1] == listing[..i] + [path];
      i := i + 1;
    }
    assert listing[..i] == listing;
  }

  /** The three documents the rewrite finds by their fixed paths. */
  predicate IsFixedDocument(path: string) {
    path == "OEBPS/nav.xhtml" || path == "OEBPS/content.opf" || path == "OEBPS/toc.ncx"
  }

  /** One of the three documents, rewritten when it exists. */
  method ProcessDocument(files: map<string, Content>, path: string, rtl: bool) returns (out: map<string, Content>)
    requires IsFixedDocument(path)
    ensures out.Keys == files.Keys
    ensures forall p :: p in files ==> out[p] == if p == path then KoboContent(p, files[p], rtl) else files[p]
  {
    out := files;
    if path in files {
      var c := files[path];
      if path == "OEBPS/nav.xhtml" && c.NavDocFile? {
        var doc := ProcessNav(c.nav);
        out := files[path := NavDocFile(doc)];
      } else if path == "OEBPS/content.opf" && c.PackageFile? {
        var doc := UpdateContentOpf(c.doc, rtl);
        out := files[path := PackageFile(doc)];
      } else if path == "OEBPS/toc.ncx" && c.NcxFile? {
        var nodes := Navigation.UpdateTocNcx(c.nodes);
        out := files[path := NcxFile(nodes)];
      }
      assert !IsPagePath(path) by {
        assert path[6] != PagesDir[6];
      }
    }
  }

  /** The page loop followed by the three documents is the rewrite of
      every file. */
  lemma KoboFilesSteps(files: map<string, Content>, pages: map<string, Content>, final: map<string, Content>, rtl: bool)
    requires pages.Keys == files.Keys && final.Keys == files.Keys
    requires forall p :: p in files ==> pages[p] == PageDone(p, files[p])
    requires forall p :: p in files ==> final[p] == if IsFixedDocument(p) then KoboContent(p, pages[p], rtl) else pages[p]
    ensures final == KoboFiles(files, rtl)
  {
    forall p | p in files
      ensures final[p] == KoboContent(p, files[p], rtl)
    {
      ContentSteps(p, files[p], rtl);
    }
  }

  /** A file's rewrite is the page step followed, for the three documents,
      by the document step. */
  lemma ContentSteps(p: string, c: Content, rtl: bool)
    ensures KoboContent(p, c, rtl) == if IsFixedDocument(p) then KoboContent(p, PageDone(p, c), rtl) else PageDone(p, c)
  {
    if IsFixedDocument(p) {
      assert p[6] != PagesDir[6];
      assert !IsPagePath(p);
    }
  }

  /** _apply_kobo_modifications on the extracted files: every page of the
      walk, then the navigation document, the package document and the
      NCX, then the new archive. */
  method ApplyKoboModifications(files: map<string, Content>, listing: seq<string>, rtl: bool, tocUpdater: bool)
    returns (result: KoboResult)
    requires IsListing(listing, files.Keys)
    ensures result == KoboApplied(files, listing, rtl, tocUpdater)
  {
    var pages := ProcessPages(files, listing);
    var out := ProcessDocument(pages, "OEBPS/nav.xhtml", rtl);
    out := ProcessDocument(out, "OEBPS/content.opf", rtl);
    if "OEBPS/toc.ncx" in out && !tocUpdater {
      return Unchanged;
    }
    out := ProcessDocument(out, "OEBPS/toc.ncx", rtl);
    KoboFilesSteps(files, pages, out, rtl);
    var entries := Rezip(files.Keys, listing);
    result := Rezipped(entries, out);
  }

  lemma {:induction false} KoboWalkProperties(listing: seq<string>)
    requires forall i, j :: 0 <= i < j < |listing| ==> listing[i] != listing[j]
    ensures forall e :: e in KoboWalk(listing) ==>
      e.compression == Deflated && BaseName(e.name) != "mimetype" && e.name in listing
    ensures forall f :: f in listing && BaseName(f) != "mimetype" ==> ZipEntry(f, Deflated) in KoboWalk(listing)
    ensures forall i, j :: 0 <= i < j < |KoboWalk(listing)| ==> KoboWalk(listing)[i].name != KoboWalk(listing)[j].name
  {
    if listing != [] {
      var k := |listing| - 1;
      var init := listing[..k];
      KoboWalkProperties(init);
      assert listing == init + [listing[k]];
      var w := KoboWalk(listing);
      var w0 := KoboWalk(init);
      if BaseName(listing[k]) != "mimetype" {
        assert listing[k] !in init;
        forall i, j | 0 <= i < j < |w| ensures w[i].name != w[j].name {
          if j == |w0| {
            assert w[i] in w0;
          }
        }
      }
    }
  }

  lemma {:induction false} BaseNameNoSlash(p: string)
    requires '/' !in p
    ensures BaseName(p) == p
  {
    if p != [] {
      BaseNameNoSlash(p[..|p| - 1]);
    }
  }

  /** The new archive starts with the mimetype, stored, when there is one;
      every other entry is deflated; and it holds nothing but files of the
      directory, each once. */
  lemma RezipShape(listing: seq<string>, names: set<string>)
    requires IsListing(listing, names)
    ensures var z := RezipEntries(names, listing);
      && ("mimetype" in names ==> z[0] == ZipEntry("mimetype", Stored))
      && (forall i :: 0 <= i < |z| && z[i].compression == Stored ==> i == 0 && z[i].name == "mimetype")
      && (forall i :: 0 <= i < |z| ==> z[i].name in names)
      && (forall i, j :: 0 <= i < j < |z| ==> z[i].name != z[j].name)
  {
    var w := KoboWalk(listing);
    KoboWalkProperties(listing);
    BaseNameNoSlash("mimetype");
    forall e | e in w
      ensures e.compression == Deflated && e.name != "mimetype" && e.name in names
    {
    }
    ArchiveShape(if "mimetype" in names then [ZipEntry("mimetype", Stored)] else [], w, names);
  }

  /** The shape of an archive made of an optional stored mimetype followed
      by deflated, distinct entries. */
  lemma ArchiveShape(head: seq<ZipEntry>, w: seq<ZipEntry>, names: set<string>)
    requires head == [] || (head == [ZipEntry("mimetype", Stored)] && "mimetype" in names)
    requires forall e :: e in w ==> e.compression == Deflated && e.name != "mimetype" && e.name in names
    requires forall i, j :: 0 <= i < j < |w| ==> w[i].name != w[j].name
    ensures var z := head + w;
      && (head != [] ==> z[0] == ZipEntry("mimetype", Stored))
      && (forall i :: 0 <= i < |z| && z[i].compression == Stored ==> i == 0 && z[i].name == "mimetype")
      && (forall i :: 0 <= i < |z| ==> z[i].name in names)
      && (forall i, j :: 0 <= i < j < |z| ==> z[i].name != z[j].name)
  {
    var z := head + w;
    var h := |head|;
    forall i | h <= i < |z|
      ensures z[i] == w[i - h] && z[i].name in names && z[i].compression == Deflated && z[i].name != "mimetype"
    {
      assert w[i - h] in w;
    }
  }

  /** Every file of the directory is in the new archive, except files named
      mimetype below the root. */
  lemma RezipKeeps(listing: seq<string>, names: set<string>, f: string)
    requires IsListing(listing, names)
    requires f in names && (f == "mimetype" || BaseName(f) != "mimetype")
    ensures exists i :: 0 <= i < |RezipEntries(names, listing)| && RezipEntries(names, listing)[i].name == f
  {
    if f == "mimetype" {
      assert RezipEntries(names, listing)[0].name == f;
    } else {
      assert f in listing;
      WalkKeeps(names, listing, f);
    }
  }

  /** A file of the walk not named mimetype is in the new archive. */
  lemma WalkKeeps(names: set<string>, listing: seq<string>, f: string)
    requires f in listing && BaseName(f) != "mimetype"
    ensures exists i :: 0 <= i < |RezipEntries(names, listing)| && RezipEntries(names, listing)[i].name == f
  {
    var w := KoboWalk(listing);
    WalkHas(listing, f);
    var i :| 0 <= i < |w| && w[i] == ZipEntry(f, Deflated);
    var head := if "mimetype" in names then [ZipEntry("mimetype", Stored)] else [];
    var z := RezipEntries(names, listing);
    assert z == head + w;
    var j := i + |head|;
    assert (head + w)[j] == w[i];
    assert 0 <= j < |z| && z[j].name == f;
  }

  lemma {:induction false} WalkHas(listing: seq<string>, f: string)
    requires f in listing && BaseName(f) != "mimetype"
    ensures ZipEntry(f, Deflated) in KoboWalk(listing)
  {
    var k := |listing| - 1;
    if listing[k] != f {
      assert listing == listing[..k] + [listing[k]];
      WalkHas(listing[..k], f);
    }
  }

  /** Files named mimetype below the root are dropped from the new archive. */
  lemma {:induction false} RezipDrops(listing: seq<string>, names: set<string>, f: string)
    requires IsListing(listing, names)
    requires f != "mimetype" && BaseName(f) == "mimetype"
    ensures forall i :: 0 <= i < |RezipEntries(names, listing)| ==> RezipEntries(names, listing)[i].name != f
  {
    var w := KoboWalk(listing);
    var head := if "mimetype" in names then [ZipEntry("mimetype", Stored)] else [];
    var z := RezipEntries(names, listing);
    assert z == head + w;
    KoboWalkProperties(listing);
    forall i | |head| <= i < |z|
      ensures z[i].name != f
    {
      assert z[i] == w[i - |head|];
      assert w[i - |head|] in w;
    }
  }

  /** The modifications as the Kobo writer applies them: when the file is
      rewritten, every page is rewritten as a page, the navigation, package
      and NCX documents as such, every other file is carried over, and the
      archive is the one above. */
  lemma KoboAppliedProperties(files: map<string, Content>, listing: seq<string>, rtl: bool)
    requires IsListing(listing, files.Keys)
    ensures var r := KoboApplied(files, listing, rtl, true);
      && r.Rezipped?
      && r.entries == RezipEntries(files.Keys, listing)
      && r.files.Keys == files.Keys
      && (forall p :: p in files && IsPagePath(p) && files[p].PageFile? ==>
            r.files[p] == PageFile(KoboPage(files[p].page)))
      && ("OEBPS/nav.xhtml" in files && files["OEBPS/nav.xhtml"].NavDocFile? ==>
            r.files["OEBPS/nav.xhtml"] == NavDocFile(KoboNav(files["OEBPS/nav.xhtml"].nav)))
      && ("OEBPS/content.opf" in files && files["OEBPS/content.opf"].PackageFile? ==>
            r.files["OEBPS/content.opf"] == PackageFile(KoboOpf(files["OEBPS/content.opf"].doc, rtl)))
      && ("OEBPS/toc.ncx" in files && files["OEBPS/toc.ncx"].NcxFile? ==>
            r.files["OEBPS/toc.ncx"] == NcxFile(Navigation.KoboNcx(files["OEBPS/toc.ncx"].nodes)))
      && (forall p :: p in files && files[p].OtherFile? ==> r.files[p] == files[p])
  {
    var r := KoboApplied(files, listing, rtl, true);
    var k := KoboFiles(files, rtl);
    assert r == Rezipped(RezipEntries(files.Keys, listing), k);
    assert r.files == k && k.Keys == files.Keys;
    forall p | p in files && IsPagePath(p) && files[p].PageFile?
      ensures r.files[p] == PageFile(KoboPage(files[p].page))
    {
      KoboFilesAt(files, rtl, p);
    }
    if "OEBPS/nav.xhtml" in files {
      KoboFilesAt(files, rtl, "OEBPS/nav.xhtml");
    }
    if "OEBPS/content.opf" in files {
      KoboFilesAt(files, rtl, "OEBPS/content.opf");
    }
    if "OEBPS/toc.ncx" in files {
      KoboFilesAt(files, rtl, "OEBPS/toc.ncx");
    }
    forall p | p in files && files[p].OtherFile?
      ensures r.files[p] == files[p]
    {
      KoboFilesOther(files, rtl, p);
    }
  }

  /** A file that is none of the documents rewritten is carried over. */
  lemma KoboFilesOther(files: map<string, Content>, rtl: bool, p: string)
    requires p in files && files[p].OtherFile?
    ensures p in KoboFiles(files, rtl) && KoboFiles(files, rtl)[p] == files[p]
  {
    KoboFilesAt(files, rtl, p);
  }

  /** Each file of the archive is rewritten on its own. */
  lemma KoboFilesAt(files: map<string, Content>, rtl: bool, p: string)
    requires p in files
    ensures p in KoboFiles(files, rtl) && KoboFiles(files, rtl)[p] == KoboContent(p, files[p], rtl)
  {
  }

  /** A builder without _update_toc_ncx (KepubBuilder itself, which
      convert_epub_to_kepub uses) never changes an archive that holds
      OEBPS/toc.ncx, the layout the enhanced writers produce (an archive
      laid out otherwise, such as ebooklib's own EPUB/ tree, is not covered
      by this lemma): the pages, navigation document and package document
      it rewrote are thrown away with the temporary directory. */
  lemma KepubBuilderKeepsArchive(files: map<string, Content>, listing: seq<string>, rtl: bool)
    requires "OEBPS/toc.ncx" in files
    ensures KoboApplied(files, listing, rtl, false) == Unchanged
    ensures KoboApplied(files, listing, rtl, true).Rezipped?
  {
  }

  // convert_epub_to_kepub

  /** The parent directory of a path, as pathlib gives it. */
  function ParentDir(p: string): string {
    match LastIndexOf(p, '/')
    case None => "."
    case Some(i) => if i == 0 then "/" else p[..i]
  }

  /** The name of the converted file: the stem of the EPUB's name, less a
      second ".epub" (in any case), with ".kepub.epub" added. */
  function ConvertedName(epubPath: string): (r: string)
  {
    var stem := Stem(BaseName(epubPath));
    var name := if EndsWith(Lower(stem), ".epub") then stem[..|stem| - 5] else stem;
    name + ".kepub.epub"
  }

  lemma {:induction false} LastDot(b: string, x: string)
    requires x != [] && x[0] == '.' && '.' !in x[1..]
    ensures LastIndexOf(b + x, '.') == Some(|b|)
    decreases |x|
  {
    if |x| == 1 {
      assert b + x == (b + x)[..|b|] + [x[0]];
    } else {
      var y := (b + x)[..|b + x| - 1];
      assert y == b + x[..|x| - 1];
      assert x[..|x| - 1][1..] == x[1..|x| - 1];
      LastDot(b, x[..|x| - 1]);
      assert (b + x)[|b + x| - 1] == x[|x| - 1];
    }
  }

  /** The converted name never has a directory part and always ends in
      ".kepub.epub". */
  lemma ConvertedNameShape(epubPath: string)
    ensures '/' !in ConvertedName(epubPath) && EndsWith(ConvertedName(epubPath), ".kepub.epub")
  {
    var base := BaseName(epubPath);
    var stem := Stem(base);
    assert stem == base[..|stem|];
    NotInPrefix(base, |stem|, '/');
    var name := if EndsWith(Lower(stem), ".epub") then stem[..|stem| - 5] else stem;
    NotInPrefix(stem, |name|, '/');
    var x := ".kepub.epub";
    assert '/' !in x;
    var r := name + x;
    assert ConvertedName(epubPath) == r;
    assert r[|r| - |x|..] == x;
  }

  lemma NotInPrefix<T>(s: seq<T>, k: nat, c: T)
    requires c !in s && k <= |s|
    ensures c !in s[..k]
  {
    assert forall y :: y in s[..k] ==> y in s;
  }

  /** The suffix of a name that ends in one extension is that extension. */
  lemma StemOf(b: string, x: string)
    requires b != [] && |x| >= 2 && x[0] == '.' && '.' !in x[1..]
    ensures Suffix(b + x) == x && Stem(b + x) == b
  {
    LastDot(b, x);
    assert (b + x)[|b|..] == x;
  }

  lemma StemEpub(b: string)
    requires b != [] && '/' !in b
    ensures BaseName(b + ".epub") == b + ".epub" && Stem(b + ".epub") == b
  {
    var x := ".epub";
    assert x[0] == '.' && x[1..] == "epub";
    assert '/' !in x && '.' !in x[1..];
    assert '/' !in b + x;
    BaseNameNoSlash(b + x);
    StemOf(b, x);
  }

  /** "b.epub" becomes "b.kepub.epub" for a plain name b. */
  lemma ConvertedNamePlain(b: string)
    requires b != [] && '.' !in b && '/' !in b
    ensures ConvertedName(b + ".epub") == b + ".kepub.epub"
  {
    StemEpub(b);
    assert !EndsWith(Lower(b), ".epub") by {
      if |b| >= 5 {
        assert Lower(b)[|b| - 5] == LowerChar(b[|b| - 5]);
      }
    }
  }

  /** "b.epub.epub" becomes "b.kepub.epub" too: the second extension is
      dropped rather than kept. */
  lemma ConvertedNameDoubled(b: string)
    requires b != [] && '/' !in b
    ensures ConvertedName(b + ".epub.epub") == b + ".kepub.epub"
  {
    var e := b + ".epub";
    assert b + ".epub.epub" == e + ".epub";
    StemEpub(e);
    Builder.LowerEpub(b);
    assert e[..|e| - 5] == b;
  }

  /** How convert_epub_to_kepub ends: FileNotFoundError, or the directory
      and name of the copy together with what the modifications did to it. */
  datatype ConvertOutcome = FileNotFound(path: string) | Converted(dir: string, name: string, result: KoboResult)

  /** convert_epub_to_kepub: `exists` says whether the EPUB is there and
      `files` and `listing` are the copy's extracted contents. The copy is
      modified by a KepubBuilder, whose reading direction is right to left
      and which has no _update_toc_ncx. */
  function ConvertEpubToKepub(found: bool, epubPath: string, outputDir: Option<string>,
                              files: map<string, Content>, listing: seq<string>): (r: ConvertOutcome)
  {
    if !found then FileNotFound(epubPath)
    else
      Converted(if outputDir.Some? then outputDir.value else ParentDir(epubPath),
        ConvertedName(epubPath), KoboApplied(files, listing, true, false))
  }

  /** A missing EPUB is an error; otherwise the copy goes to the output
      directory, or next to the EPUB when none is given, under the
      converted name; and a copy of an archive with an NCX comes out as it
      went in. */
  lemma ConvertProperties(found: bool, epubPath: string, outputDir: Option<string>,
                          files: map<string, Content>, listing: seq<string>)
    ensures var r := ConvertEpubToKepub(found, epubPath, outputDir, files, listing);
      && (r.FileNotFound? <==> !found)
      && (r.Converted? ==>
            && (outputDir.Some? ==> r.dir == outputDir.value)
            && (outputDir.None? && '/' !in epubPath ==> r.dir == ".")
            && r.name == ConvertedName(epubPath)
            && ("OEBPS/toc.ncx" in files ==> r.result == Unchanged))
  {
  }
}
