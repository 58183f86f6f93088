/*
 * Text: the Python string operations the rest of the model relies on,
 * written out with Python's semantics (str.isspace, str.strip, str.split,
 * str.join, str.lower on ASCII, slicing with negative limits, float() on
 * plain decimals).
 */
module Text {

  datatype Option<T> = None | Some(value: T)

  /** A value, or the exception a Python call raises instead. */
  datatype Result<T> = Ok(value: T) | Err(error: string)

  /** Python's str.isspace() for a single character. */
  predicate IsSpace(c: char) {
    var n := c as int;
    n == 32 || 9 <= n <= 13 || 0x1c <= n <= 0x1f || n == 0x85 || n == 0xa0
    || n == 0x1680 || 0x2000 <= n <= 0x200a || n == 0x2028 || n == 0x2029
    || n == 0x202f || n == 0x205f || n == 0x3000
  }

  predicate IsDigit(c: char) { '0' <= c <= '9' }

  /** Every character of s satisfies p. */
  predicate All(s: string, p: char -> bool) {
    forall i :: 0 <= i < |s| ==> p(s[i])
  }

  predicate AllSpace(s: string) { All(s, IsSpace) }

  /** Non-empty and made of ASCII digits only (Python's str.isdigit on ASCII). */
  predicate IsDigits(s: string) { |s| > 0 && forall i :: 0 <= i < |s| ==> IsDigit(s[i]) }

  function LowerChar(c: char): char {
    if 'A' <= c <= 'Z' then (c as int + 32) as char else c
  }

  /** str.lower(), restricted to ASCII letters. */
  function Lower(s: string): (r: string)
    ensures |r| == |s|
    ensures forall i :: 0 <= i < |s| ==> r[i] == LowerChar(s[i])
  {
    seq(|s|, i requires 0 <= i < |s| => LowerChar(s[i]))
  }

  /** Lower-casing keeps a suffix a suffix. */
  lemma LowerEndsWith(s: string, x: string)
    requires EndsWith(s, x)
    ensures EndsWith(Lower(s), Lower(x))
  {
    var l, m := Lower(s), Lower(x);
    forall i | 0 <= i < |x| ensures l[|s| - |x|..][i] == m[i] {
      assert s[|s| - |x| + i] == x[i];
    }
  }

  lemma EndsWithTrans(a: string, b: string, c: string)
    requires EndsWith(a, b) && EndsWith(b, c)
    ensures EndsWith(a, c)
  {
    assert a[|a| - |b|..][|b| - |c|..] == a[|a| - |c|..];
  }

  predicate StartsWith(s: string, p: string) { |p| <= |s| && s[..|p|] == p }

  predicate EndsWith(s: string, x: string) { |x| <= |s| && s[|s| - |x|..] == x }

  /** `t in s` for strings: t occurs somewhere in s. */
  predicate Contains(s: string, t: string)
    decreases |s|
  {
    StartsWith(s, t) || (s != [] && Contains(s[1..], t))
  }

  /** str.replace(a, b) for single characters. */
  function ReplaceChar(s: string, a: char, b: char): (r: string)
    ensures |r| == |s|
    ensures forall i :: 0 <= i < |s| ==> r[i] == (if s[i] == a then b else s[i])
  {
    seq(|s|, i requires 0 <= i < |s| => if s[i] == a then b else s[i])
  }

  /** Drops leading characters that satisfy p. */
  function TrimStart(s: string, p: char -> bool): (r: string)
    ensures |r| <= |s| && r == s[|s| - |r|..]
    ensures All(s[..|s| - |r|], p)
    ensures r == [] || !p(r[0])
  {
    if s != [] && p(s[0]) then
      var r := TrimStart(s[1..], p);
      assert s[1..][..|s| - 1 - |r|] == s[1..|s| - |r|];
      r
    else s
  }

  /** Drops trailing characters that satisfy p. */
  function TrimEnd(s: string, p: char -> bool): (r: string)
    ensures |r| <= |s| && r == s[..|r|]
    ensures All(s[|r|..], p)
    ensures r == [] || !p(r[|r| - 1])
  {
    if s != [] && p(s[|s| - 1]) then
      var r := TrimEnd(s[..|s| - 1], p);
      assert s[..|s| - 1][|r|..] == s[|r|..|s| - 1];
      r
    else s
  }

  /** str.strip(chars) where p says which characters are stripped. */
  function StripBy(s: string, p: char -> bool): (r: string)
    ensures r == [] || (!p(r[0]) && !p(r[|r| - 1]))
    ensures r == [] <==> All(s, p)
  {
    var t := TrimStart(s, p);
    var r := TrimEnd(t, p);
    assert r == [] ==> s == s[..|s| - |t|] + t[|r|..];
    assert r != [] ==> r[0] == t[0] && !p(s[|s| - |t|]);
    r
  }

  /** str.strip() with no argument. */
  function Strip(s: string): (r: string)
    ensures r == [] || (!IsSpace(r[0]) && !IsSpace(r[|r| - 1]))
    ensures r == [] <==> AllSpace(s)
  {
    StripBy(s, IsSpace)
  }

  /** str.split(sep) for a one-character separator. */
  function Split(s: string, sep: char): (r: seq<string>)
    ensures |r| >= 1
    ensures forall k :: 0 <= k < |r| ==> sep !in r[k]
  {
    if s == [] then [""]
    else
      var rest := Split(s[1..], sep);
      if s[0] == sep then [""] + rest else [[s[0]] + rest[0]] + rest[1..]
  }

  /** sep.join(parts). */
  function Join(sep: string, parts: seq<string>): string {
    if |parts| == 0 then ""
    else if |parts| == 1 then parts[0]
    else parts[0] + sep + Join(sep, parts[1..])
  }

  /** Joining the pieces of a split with the separator gives the string back. */
  lemma {:induction false} JoinSplit(s: string, sep: char)
    ensures Join([sep], Split(s, sep)) == s
  {
    if s != [] {
      var rest := Split(s[1..], sep);
      JoinSplit(s[1..], sep);
      if s[0] == sep {
        assert Split(s, sep) == [""] + rest;
      } else if |rest| == 1 {
        assert Split(s, sep) == [[s[0]] + rest[0]];
      } else {
        var r := Split(s, sep);
        assert r[1..] == rest[1..];
        assert Join([sep], r) == [s[0]] + rest[0] + [sep] + Join([sep], rest[1..]);
      }
    }
  }

  function TakeWhileNot(s: string, p: char -> bool): (r: string)
    ensures |r| <= |s| && r == s[..|r|]
    ensures |r| < |s| ==> p(s[|r|])
    ensures forall i :: 0 <= i < |r| ==> !p(r[i])
  {
    if s == [] || p(s[0]) then [] else [s[0]] + TakeWhileNot(s[1..], p)
  }

  /** str.split() with no argument: the maximal runs of non-whitespace. */
  function Words(s: string): (r: seq<string>)
    ensures forall k :: 0 <= k < |r| ==> |r[k]| > 0 && forall i :: 0 <= i < |r[k]| ==> !IsSpace(r[k][i])
    decreases |s|
  {
    var t := TrimStart(s, IsSpace);
    if t == [] then []
    else
      var w := TakeWhileNot(t, IsSpace);
      [w] + Words(t[|w|..])
  }

  function DigitChar(d: nat): char
    requires d < 10
  {
    ('0' as int + d) as char
  }

  /** str(n) for a natural number. */
  function NatToString(n: nat): (r: string)
    ensures IsDigits(r)
  {
    if n < 10 then [DigitChar(n)] else NatToString(n / 10) + [DigitChar(n % 10)]
  }

  function DigitsValue(s: string): nat
    requires forall i :: 0 <= i < |s| ==> IsDigit(s[i])
  {
    if s == [] then 0
    else
      assert IsDigit(s[|s| - 1]);
      10 * DigitsValue(s[..|s| - 1]) + (s[|s| - 1] as int - '0' as int)
  }

  /** Reading back the digits of NatToString gives the number. */
  lemma {:induction false} NatToStringValue(n: nat)
    ensures DigitsValue(NatToString(n)) == n
  {
    if n >= 10 {
      NatToStringValue(n / 10);
      var s := NatToString(n);
      assert s[..|s| - 1] == NatToString(n / 10);
    }
  }

  /** Distinct numbers print differently. */
  lemma NatToStringInjective(m: nat, n: nat)
    requires NatToString(m) == NatToString(n)
    ensures m == n
  {
    NatToStringValue(m);
    NatToStringValue(n);
  }

  /** f"{n:03d}" for a non-negative n: zero-padded to at least three digits. */
  function Pad3(n: nat): (r: string)
    ensures |r| >= 3 && IsDigits(r)
  {
    var d := NatToString(n);
    if |d| == 1 then "00" + d else if |d| == 2 then "0" + d else d
  }

  /** str(n) for any integer. */
  function IntToString(n: int): string {
    if n < 0 then "-" + NatToString(-n) else NatToString(n)
  }

  function Pow10(k: nat): (r: nat)
    ensures r >= 1
  {
    if k == 0 then 1 else 10 * Pow10(k - 1)
  }

  /** `\d+(\.\d+)?` : digits, optionally followed by a dot and digits. */
  predicate IsDecimalLiteral(s: string) {
    var parts := Split(s, '.');
    (|parts| == 1 && IsDigits(parts[0]))
    || (|parts| == 2 && IsDigits(parts[0]) && IsDigits(parts[1]))
  }

  /** The value of digits with at most one dot, and at least one digit. */
  function DecimalValue(s: string): Option<real> {
    var parts := Split(s, '.');
    if |parts| == 1 && IsDigits(parts[0]) then Some(DigitsValue(parts[0]) as real)
    else if |parts| == 2 && (forall i :: 0 <= i < |parts[0]| ==> IsDigit(parts[0][i]))
            && (forall i :: 0 <= i < |parts[1]| ==> IsDigit(parts[1][i]))
            && |parts[0]| + |parts[1]| > 0 then
      Some(DigitsValue(parts[0]) as real + (DigitsValue(parts[1]) as real) / (Pow10(|parts[1]|) as real))
    else None
  }

  /**
   * Python's float(s) on plain decimal text: surrounding whitespace, an
   * optional sign, digits with at most one dot and at least one digit.
   * Exponents, "inf", "nan" and digit-group underscores are not modelled
   * and read as non-numeric.
   */
  function ParseDecimal(s: string): (r: Option<real>)
    ensures r.Some? ==> Strip(s) != []
  {
    var t := Strip(s);
    if t == [] then None
    else if t[0] == '-' then
      match DecimalValue(t[1..]) case Some(v) => Some(-v) case None => None
    else if t[0] == '+' then DecimalValue(t[1..])
    else DecimalValue(t)
  }

  /** A literal matching `\d+(\.\d+)?` is a number for float(). */
  lemma DecimalLiteralParses(s: string)
    requires IsDecimalLiteral(s)
    ensures DecimalValue(s).Some?
  {
  }

  /** No element occurs twice. */
  predicate Distinct<T(==)>(s: seq<T>) {
    forall i, j :: 0 <= i < j < |s| ==> s[i] != s[j]
  }

  /** The elements of s. */
  function Elements<T>(s: seq<T>): set<T> {
    set i | 0 <= i < |s| :: s[i]
  }

  /** Python's s[:k], where a negative k counts from the end. */
  function SliceTo<T>(s: seq<T>, k: int): (r: seq<T>)
    ensures |r| <= |s| && r == s[..|r|]
    ensures k >= 0 ==> |r| == if k <= |s| then k else |s|
    ensures k < 0 ==> |r| == if |s| + k >= 0 then |s| + k else 0
  {
    if k >= 0 then (if k <= |s| then s[..k] else s)
    else (if |s| + k >= 0 then s[..|s| + k] else [])
  }

  /** Python's s[k:] for k >= 0. */
  function SliceFrom<T>(s: seq<T>, k: nat): (r: seq<T>)
    ensures |r| == if k <= |s| then |s| - k else 0
  {
    if k <= |s| then s[k..] else []
  }

  /** The part of a path after its last '/': Path(p).name / os.path.basename. */
  function BaseName(p: string): (r: string)
    ensures '/' !in r
    ensures EndsWith(p, r)
  {
    if p == [] then []
    else if p[|p| - 1] == '/' then []
    else
      var r := BaseName(p[..|p| - 1]);
      assert p[..|p| - 1][|p| - 1 - |r|..] == p[|p| - 1 - |r|..|p| - 1];
      r + [p[|p| - 1]]
  }

  /** Index of the last occurrence of c in s, if any. */
  function LastIndexOf(s: string, c: char): (r: Option<nat>)
    ensures r.Some? ==> r.value < |s| && s[r.value] == c && c !in s[r.value + 1..]
    ensures r.None? ==> c !in s
  {
    if s == [] then None
    else if s[|s| - 1] == c then Some(|s| - 1)
    else
      var r := LastIndexOf(s[..|s| - 1], c);
      assert r.Some? ==> s[r.value + 1..] == s[..|s| - 1][r.value + 1..] + [s[|s| - 1]];
      r
  }

  /** pathlib's PurePath.suffix of a file name: from the last dot, unless the
      dot is the first or the last character. */
  function Suffix(name: string): (r: string)
    ensures r == [] || (r[0] == '.' && EndsWith(name, r) && |r| >= 2)
  {
    match LastIndexOf(name, '.')
    case None => []
    case Some(i) => if 0 < i < |name| - 1 then name[i..] else []
  }

  /** PurePath.stem: the name without its suffix. */
  function Stem(name: string): (r: string)
    ensures r + Suffix(name) == name
  {
    name[..|name| - |Suffix(name)|]
  }

  /** The prefix one longer is the prefix and the next element. */
  lemma PrefixSnoc<T>(s: seq<T>, q: nat)
    requires q < |s|
    ensures s[..q + 1] == s[..q] + [s[q]]
    ensures |s[..q + 1]| == q + 1 && s[..q + 1][..q] == s[..q] && s[..q + 1][q] == s[q]
  {
  }
}
