/*
 * ChapterOrder: the sort key that mangabook/cli.py (get_volumes) and
 * mangabook/downloader.py (download_volume) put on chapter numbers:
 * float(n) when n with its dots removed is all digits, float('inf')
 * otherwise, so numbered chapters come first in numeric order.
 *
 * As written the key calls float() on numbers such as "1.2.3", whose
 * dot-free form is all digits but which are no number: float() raises
 * ValueError and the whole sort fails. ChapterKeyAsWritten models that
 * (None is the exception); ChapterKey is the intended key, which puts such
 * numbers last, and is the one the rest of the model sorts by.
 */
module ChapterOrder {
  import opened Text
  import Sorting

  /** s.replace(c, ""). */
  function Without(s: string, c: char): (r: string)
    ensures |r| <= |s| && c !in r
    ensures forall x :: x != c ==> (x in r <==> x in s)
  {
    if s == [] then []
    else Without(s[..|s| - 1], c) + (if s[|s| - 1] == c then [] else [s[|s| - 1]])
  }

  /** The key as written: None when float(n) raises. */
  function ChapterKeyAsWritten(n: string): (r: Option<Sorting.Rank>)
    ensures !IsDigits(Without(n, '.')) ==> r == Some(Sorting.Top)
  {
    if IsDigits(Without(n, '.')) then
      match DecimalValue(n)
      case Some(v) => Some(Sorting.Finite(v))
      case None => None
    else Some(Sorting.Top)
  }

  /** The intended key: the number's value when it is one, and +inf otherwise. */
  function ChapterKey(n: string): (r: Sorting.Rank)
    ensures r.Finite? <==> IsDigits(Without(n, '.')) && DecimalValue(n).Some?
    ensures r.Finite? ==> r.x == DecimalValue(n).value
  {
    if IsDigits(Without(n, '.')) && DecimalValue(n).Some? then Sorting.Finite(DecimalValue(n).value)
    else Sorting.Top
  }

  /** Wherever the key as written does not raise, it is the intended key. */
  lemma ChapterKeyAgrees(n: string)
    requires ChapterKeyAsWritten(n).Some?
    ensures ChapterKeyAsWritten(n).value == ChapterKey(n)
  {
  }

  /** Every plain decimal chapter number `\d+(\.\d+)?` gets its value as key. */
  lemma DecimalChapterKey(n: string)
    requires IsDecimalLiteral(n)
    ensures ChapterKey(n) == Sorting.Finite(DecimalValue(n).value)
    ensures ChapterKeyAsWritten(n) == Some(ChapterKey(n))
  {
    DecimalLiteralParses(n);
    DecimalDigitsWithoutDots(n);
  }

  lemma DecimalDigitsWithoutDots(n: string)
    requires IsDecimalLiteral(n)
    ensures IsDigits(Without(n, '.'))
  {
    JoinSplit(n, '.');
    var parts := Split(n, '.');
    if |parts| == 1 {
      assert n == parts[0];
      DigitsWithout(parts[0]);
    } else {
      assert n == parts[0] + "." + parts[1];
      WithoutDotJoin(parts[0], parts[1]);
    }
  }

  /** Removing the dot of "a.b" leaves the digits of both parts. */
  lemma WithoutDotJoin(a: string, b: string)
    requires IsDigits(a) && IsDigits(b)
    ensures IsDigits(Without(a + "." + b, '.'))
  {
    var ad := a + ".";
    assert ad[..|ad| - 1] == a && ad[|ad| - 1] == '.';
    assert Without(ad, '.') == Without(a, '.');
    DigitsWithout(a);
    DigitsWithout(b);
    WithoutAppend(ad, b, '.');
    DigitsConcat(a, b);
  }

  lemma DigitsConcat(a: string, b: string)
    requires IsDigits(a) && IsDigits(b)
    ensures IsDigits(a + b)
  {
    assert forall i :: 0 <= i < |a + b| ==> (a + b)[i] == if i < |a| then a[i] else b[i - |a|];
  }

  lemma {:induction false} DigitsWithout(s: string)
    requires IsDigits(s)
    ensures Without(s, '.') == s
  {
    if |s| > 1 {
      DigitsWithout(s[..|s| - 1]);
    } else {
      assert s[..0] == [];
    }
  }

  lemma {:induction false} WithoutAppend(s: string, t: string, c: char)
    ensures Without(s + t, c) == Without(s, c) + Without(t, c)
    decreases |t|
  {
    if t != [] {
      assert (s + t)[..|s + t| - 1] == s + t[..|t| - 1];
      WithoutAppend(s, t[..|t| - 1], c);
    } else {
      assert s + t == s;
    }
  }

  /** "1.2.3" passes the digit test but float() rejects it: the key as
      written raises, while the intended key puts it after every number. */
  lemma ThreePartNumberRaises()
    ensures ChapterKeyAsWritten("1.2.3").None?
    ensures ChapterKey("1.2.3") == Sorting.Top
  {
    WithoutDotsThree();
    SplitThree();
    assert IsDigits("123");
  }

  lemma WithoutDotsThree()
    ensures Without("1.2.3", '.') == "123"
  {
    assert Without("", '.') == [];
    assert "1"[..0] == [];
    assert Without("1", '.') == "1";
    assert "1."[..1] == "1";
    assert Without("1.", '.') == "1";
    assert "1.2"[..2] == "1.";
    assert Without("1.2", '.') == "12";
    assert "1.2."[..3] == "1.2";
    assert Without("1.2.", '.') == "12";
    assert "1.2.3"[..4] == "1.2.";
  }

  lemma SplitThree()
    ensures Split("1.2.3", '.') == ["1", "2", "3"]
  {
    assert Split("", '.') == [""];
    assert "3"[1..] == [];
    assert ['3'] + "" == "3";
    assert Split("3", '.') == ["3"];
    assert ".3"[1..] == "3";
    assert Split(".3", '.') == ["", "3"];
    assert "2.3"[1..] == ".3";
    assert ['2'] + "" == "2";
    assert Split("2.3", '.') == ["2", "3"];
    assert ".2.3"[1..] == "2.3";
    assert Split(".2.3", '.') == ["", "2", "3"];
    assert "1.2.3"[1..] == ".2.3";
    assert ['1'] + "" == "1";
  }
}
