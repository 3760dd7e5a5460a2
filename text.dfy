/** Character classes, decimal numbers and the handful of Python string
    operations (strip, split, join, int(), find) that the rest of the model
    is built from. */
module Text {

  datatype Option<+T> = None | Some(value: T)

  /** The characters Python's str.isspace() accepts; the same set is matched
      by `\s` in a str pattern and stripped by str.strip() and int(). */
  predicate IsSpace(c: char)
  {
    || ('\t' <= c <= '\r')                    // \t \n \v \f \r
    || ('\U{1C}' <= c <= '\U{1F}')            // file, group, record, unit separators
    || c == ' ' || c == '\U{85}' || c == '\U{A0}' || c == '\U{1680}'
    || ('\U{2000}' <= c <= '\U{200A}')
    || c == '\U{2028}' || c == '\U{2029}' || c == '\U{202F}' || c == '\U{205F}'
    || c == '\U{3000}'
  }

  predicate IsDigit(c: char)
  {
    '0' <= c <= '9'
  }

  predicate AllDigits(s: string)
  {
    forall i :: 0 <= i < |s| ==> IsDigit(s[i])
  }

  function DigitVal(c: char): (d: nat)
    requires IsDigit(c)
    ensures d < 10
  {
    c as int - '0' as int
  }

  function DigitChar(d: nat): (c: char)
    requires d < 10
    ensures IsDigit(c) && DigitVal(c) == d
  {
    (d + '0' as int) as char
  }

  /** Value of a non-empty or empty run of ASCII digits, most significant first. */
  function DigitsValue(s: string): nat
    requires AllDigits(s)
  {
    if |s| == 0 then 0 else 10 * DigitsValue(s[..|s| - 1]) + DigitVal(s[|s| - 1])
  }

  /** Shortest decimal rendering of n, as Python's str(n) / f"{n}". */
  function NatToString(n: nat): (s: string)
    ensures |s| >= 1 && AllDigits(s)
    ensures |s| > 1 ==> s[0] != '0'
  {
    if n < 10 then [DigitChar(n)] else NatToString(n / 10) + [DigitChar(n % 10)]
  }

  lemma {:induction false} NatToStringRoundTrip(n: nat)
    ensures DigitsValue(NatToString(n)) == n
  {
    if n >= 10 {
      var s := NatToString(n);
      assert s[..|s| - 1] == NatToString(n / 10);
      NatToStringRoundTrip(n / 10);
    }
  }

  function IntToString(n: int): (s: string)
    ensures |s| >= 1
  {
    if n < 0 then "-" + NatToString(-n) else NatToString(n)
  }

  // ---------------------------------------------------------------- strip

  /** Python's str.lstrip(), and also what `\s*` consumes in a pattern. */
  function LStrip(s: string): (r: string)
    ensures |r| <= |s|
    ensures |r| > 0 ==> !IsSpace(r[0])
  {
    if |s| > 0 && IsSpace(s[0]) then LStrip(s[1..]) else s
  }

  /** lstrip() keeps a suffix and removes only whitespace. */
  lemma {:induction false} LStripShape(s: string)
    ensures LStrip(s) == s[|s| - |LStrip(s)|..]
    ensures forall i :: 0 <= i < |s| - |LStrip(s)| ==> IsSpace(s[i])
  {
    if |s| > 0 && IsSpace(s[0]) {
      LStripShape(s[1..]);
      forall i | 1 <= i < |s| - |LStrip(s)| ensures IsSpace(s[i]) {
        assert s[i] == s[1..][i - 1];
      }
    }
  }

  function RStrip(s: string): (r: string)
    ensures |r| <= |s| && r == s[..|r|]
    ensures forall i :: |r| <= i < |s| ==> IsSpace(s[i])
    ensures |r| > 0 ==> !IsSpace(r[|r| - 1])
  {
    if |s| > 0 && IsSpace(s[|s| - 1]) then RStrip(s[..|s| - 1]) else s
  }

  /** Python's str.strip() with no argument. */
  function Strip(s: string): (r: string)
    ensures |r| <= |s|
    ensures |r| > 0 ==> !IsSpace(r[0]) && !IsSpace(r[|r| - 1])
  {
    RStrip(LStrip(s))
  }

  /** Where the part kept by strip() starts. */
  function StripStart(s: string): nat
  {
    |s| - |LStrip(s)|
  }

  /** What strip() removes is whitespace, what it keeps is the contiguous part
      of the input from StripStart(s) on, which neither starts nor ends with
      whitespace. */
  lemma StripShape(s: string)
    ensures StripStart(s) + |Strip(s)| <= |s|
    ensures Strip(s) == s[StripStart(s)..StripStart(s) + |Strip(s)|]
    ensures forall i :: 0 <= i < StripStart(s) ==> IsSpace(s[i])
    ensures forall i :: StripStart(s) + |Strip(s)| <= i < |s| ==> IsSpace(s[i])
    ensures |Strip(s)| > 0 ==> !IsSpace(Strip(s)[0]) && !IsSpace(Strip(s)[|Strip(s)| - 1])
  {
    LStripShape(s);
    StripSlice(s);
    StripTrailing(s);
  }

  lemma StripSlice(s: string)
    ensures StripStart(s) + |Strip(s)| <= |s|
    ensures Strip(s) == s[StripStart(s)..StripStart(s) + |Strip(s)|]
  {
    var l := LStrip(s);
    var k := |s| - |l|;
    LStripSuffix(s);
    SliceOfSuffix(s, k, |RStrip(l)|);
  }

  lemma LStripSuffix(s: string)
    ensures LStrip(s) == s[|s| - |LStrip(s)|..]
  {
    LStripShape(s);
  }

  lemma SliceOfSuffix(s: string, k: nat, n: nat)
    requires k + n <= |s|
    ensures s[k..][..n] == s[k..k + n]
  {
  }

  lemma StripTrailing(s: string)
    ensures forall i :: StripStart(s) + |Strip(s)| <= i < |s| ==> IsSpace(s[i])
  {
    var l := LStrip(s);
    var r := RStrip(l);
    var k := StripStart(s);
    LStripShape(s);
    forall i | k + |r| <= i < |s| ensures IsSpace(s[i]) {
      assert l[i - k] == s[i];
    }
  }

  lemma StripNoSpaceEnds(s: string)
    requires |s| > 0 && !IsSpace(s[0]) && !IsSpace(s[|s| - 1])
    ensures Strip(s) == s
  {
  }

  lemma StripDigits(s: string)
    requires |s| > 0 && AllDigits(s)
    ensures Strip(s) == s
  {
    StripNoSpaceEnds(s);
  }

  // ---------------------------------------------------------- split, join

  /** Python's s.split(sep) for a one-character separator: never empty,
      empty fields kept ("".split(",") == [""]). */
  function Split(s: string, sep: char): (parts: seq<string>)
    ensures |parts| >= 1
    ensures forall k :: 0 <= k < |parts| ==> sep !in parts[k]
  {
    if |s| == 0 then [""]
    else if s[0] == sep then [""] + Split(s[1..], sep)
    else
      var rest := Split(s[1..], sep);
      [[s[0]] + rest[0]] + rest[1..]
  }

  /** Python's sep.join(parts). */
  function Join(parts: seq<string>, sep: string): (r: string)
    ensures |parts| == 0 ==> r == ""
    ensures |parts| > 0 ==> |parts[0]| <= |r| && r[..|parts[0]|] == parts[0]
  {
    if |parts| == 0 then ""
    else if |parts| == 1 then parts[0]
    else parts[0] + sep + Join(parts[1..], sep)
  }

  /** Splitting and joining back with the same separator gives the input. */
  lemma {:induction false} SplitJoin(s: string, sep: char)
    ensures Join(Split(s, sep), [sep]) == s
  {
    if |s| > 0 {
      var rest := Split(s[1..], sep);
      SplitJoin(s[1..], sep);
      if s[0] == sep {
        assert Split(s, sep) == [""] + rest;
      } else {
        var parts := Split(s, sep);
        assert parts[1..] == rest[1..];
        if |rest| > 1 {
          assert rest == [rest[0]] + rest[1..];
        }
      }
    }
  }

  /** Without a separator the split is the whole string. */
  lemma {:induction false} SplitNoSep(s: string, sep: char)
    requires sep !in s
    ensures Split(s, sep) == [s]
  {
    if |s| > 0 {
      assert sep !in s[1..] by {
        forall j | 0 <= j < |s| - 1 ensures s[1..][j] != sep { assert s[1..][j] == s[j + 1]; }
      }
      SplitNoSep(s[1..], sep);
      assert [s[0]] + s[1..] == s;
    }
  }

  /** The first field of a split is the text before the first separator. */
  lemma {:induction false} SplitHead(s: string, sep: char, i: nat)
    requires i < |s| && s[i] == sep && sep !in s[..i]
    ensures Split(s, sep)[0] == s[..i]
  {
    if i > 0 {
      assert s[0] != sep by { assert s[..i][0] == s[0]; }
      assert s[1..][i - 1] == sep;
      assert s[1..][..i - 1] == s[1..i];
      assert s[1..][..i - 1] == s[..i][1..];
      SplitHead(s[1..], sep, i - 1);
      assert s[..i] == [s[0]] + s[1..i];
    }
  }

  // -------------------------------------------------------- Python int()

  /** Digits with single underscores between them, as int() accepts. */
  predicate IsIntBody(b: string)
  {
    && |b| > 0 && IsDigit(b[0]) && IsDigit(b[|b| - 1])
    && (forall i :: 0 <= i < |b| ==> IsDigit(b[i]) || b[i] == '_')
    && (forall i, j :: 0 <= i < |b| && 0 <= j < |b| && j == i + 1 ==> !(b[i] == '_' && b[j] == '_'))
  }

  function RemoveUnderscores(b: string): (r: string)
    requires forall i :: 0 <= i < |b| ==> IsDigit(b[i]) || b[i] == '_'
    ensures AllDigits(r) && |r| <= |b|
  {
    if |b| == 0 then ""
    else if b[0] == '_' then RemoveUnderscores(b[1..])
    else [b[0]] + RemoveUnderscores(b[1..])
  }

  lemma {:induction false} RemoveUnderscoresOfDigits(b: string)
    requires AllDigits(b)
    ensures RemoveUnderscores(b) == b
  {
    if |b| > 0 {
      RemoveUnderscoresOfDigits(b[1..]);
    }
  }

  /** A character that can stand in what int() accepts once whitespace is stripped. */
  predicate IsIntChar(c: char)
  {
    IsDigit(c) || c == '_' || c == '-' || c == '+'
  }

  /** int() on text that has already been stripped of whitespace. */
  function PyIntStripped(t: string): (r: Option<int>)
  {
    if |t| > 0 && (t[0] == '-' || t[0] == '+') then
      var body := t[1..];
      if IsIntBody(body) then
        var v: int := DigitsValue(RemoveUnderscores(body));
        Some(if t[0] == '-' then -v else v)
      else None
    else if IsIntBody(t) then Some(DigitsValue(RemoveUnderscores(t)))
    else None
  }

  /** Python's int(s) on a str in base 10: surrounding whitespace, one optional
      sign, then digits that may be grouped by single underscores. None stands
      for the ValueError it raises otherwise. */
  function PyInt(s: string): (r: Option<int>)
    ensures r.Some? ==> Strip(s) != ""
  {
    PyIntStripped(Strip(s))
  }

  /** What int() accepts ends in a digit, holds only sign, digit and
      underscore characters, and is negative only after a minus sign. */
  lemma PyIntStrippedShape(t: string)
    ensures PyIntStripped(t).Some? ==> |t| > 0 && IsDigit(t[|t| - 1])
    ensures PyIntStripped(t).Some? ==> forall i :: 0 <= i < |t| ==> IsIntChar(t[i])
    ensures PyIntStripped(t).Some? && PyIntStripped(t).value < 0 ==> t[0] == '-'
  {
    if |t| > 0 && (t[0] == '-' || t[0] == '+') && IsIntBody(t[1..]) {
      var body := t[1..];
      assert forall i :: 1 <= i < |t| ==> t[i] == body[i - 1];
    }
  }

  lemma DigitsAreIntBody(d: string)
    requires |d| > 0 && AllDigits(d)
    ensures IsIntBody(d) && RemoveUnderscores(d) == d
  {
    RemoveUnderscoresOfDigits(d);
  }

  lemma PyIntStrippedDigits(d: string)
    requires |d| > 0 && AllDigits(d)
    ensures PyIntStripped(d) == Some(DigitsValue(d))
  {
    DigitsAreIntBody(d);
    assert !(d[0] == '-' || d[0] == '+');
  }

  lemma PyIntStrippedNegBody(b: string, v: int)
    requires IsIntBody(b) && v == DigitsValue(RemoveUnderscores(b))
    ensures PyIntStripped("-" + b) == Some(-v)
  {
    assert ("-" + b)[1..] == b;
  }

  /** A minus sign followed by the digits of m reads back as -m. */
  lemma PyIntStrippedNegDigits(d: string, m: int)
    requires |d| > 0 && AllDigits(d) && m == DigitsValue(d)
    ensures PyIntStripped("-" + d) == Some(-m)
  {
    DigitsAreIntBody(d);
    PyIntStrippedNegBody(d, m);
  }

  lemma PyIntOfNegString(m: nat)
    ensures PyInt("-" + NatToString(m)) == Some(-(m as int))
  {
    var d := NatToString(m);
    var t := "-" + d;
    assert PyIntStripped(t) == Some(-(m as int)) by {
      NatToStringRoundTrip(m);
      PyIntStrippedNegDigits(d, m);
    }
    assert Strip(t) == t by {
      assert t[|t| - 1] == d[|d| - 1];
      StripNoSpaceEnds(t);
    }
  }

  lemma PyIntOfNatString(m: nat)
    ensures PyInt(NatToString(m)) == Some(m as int)
  {
    var d := NatToString(m);
    NatToStringRoundTrip(m);
    PyIntStrippedDigits(d);
    StripDigits(d);
  }

  /** int(str(n)) == n for every integer n. */
  lemma PyIntOfIntToString(n: int)
    ensures PyInt(IntToString(n)) == Some(n)
  {
    if n < 0 {
      PyIntOfNegString(-n);
    } else {
      PyIntOfNatString(n);
    }
  }

  /** A string containing a character that is neither whitespace nor one of
      the characters int() accepts is never an integer. */
  lemma PyIntRejectsForeignChar(s: string, i: nat)
    requires i < |s| && !IsSpace(s[i]) && !IsIntChar(s[i])
    ensures PyInt(s) == None
  {
    StripShape(s);
    var k := StripStart(s);
    assert k <= i < k + |Strip(s)|;
    assert Strip(s)[i - k] == s[i];
  }

  // ----------------------------------------------------------- find

  predicate OccursAt(s: string, pat: string, k: nat)
  {
    k + |pat| <= |s| && s[k..k + |pat|] == pat
  }

  /** Python's s.find(pat, i) as an Option: the first occurrence at or after i. */
  function FindFrom(s: string, pat: string, i: nat): (r: Option<nat>)
    requires i <= |s|
    ensures r.Some? ==> i <= r.value && r.value + |pat| <= |s|
    decreases |s| - i
  {
    if OccursAt(s, pat, i) then Some(i)
    else if i == |s| then None
    else FindFrom(s, pat, i + 1)
  }

  /** find() answers an occurrence with none before it, and None only when
      the pattern occurs nowhere from i on. */
  lemma {:induction false} FindFromSpec(s: string, pat: string, i: nat)
    requires i <= |s|
    ensures FindFrom(s, pat, i).Some? ==> OccursAt(s, pat, FindFrom(s, pat, i).value)
    ensures FindFrom(s, pat, i).Some? ==>
              forall k :: i <= k < FindFrom(s, pat, i).value ==> !OccursAt(s, pat, k)
    ensures FindFrom(s, pat, i).None? ==> forall k :: i <= k <= |s| ==> !OccursAt(s, pat, k)
    decreases |s| - i
  {
    if !OccursAt(s, pat, i) && i < |s| {
      FindFromSpec(s, pat, i + 1);
    }
  }
}
