/** The pieces of Python's `str` behaviour the scripts rely on:
    `strip`, `split`, `lower`, `startswith`/`endswith`, `replace` of one
    character, `int()` of a decimal literal and `str()` of an integer. */
module Text {
  import opened Results

  /** Python's `str.isspace`: the ASCII whitespace and separator controls
      plus the Unicode space characters. */
  predicate IsSpace(c: char) {
    || c == ' '
    || ('\t' <= c <= '\r')
    || ('\U{1C}' <= c <= '\U{1F}')
    || c == '\U{85}' || c == '\U{A0}' || c == '\U{1680}'
    || ('\U{2000}' <= c <= '\U{200A}')
    || c == '\U{2028}' || c == '\U{2029}' || c == '\U{202F}'
    || c == '\U{205F}' || c == '\U{3000}'
  }

  predicate AllSpace(s: string) {
    forall i :: 0 <= i < |s| ==> IsSpace(s[i])
  }

  /** Neither end of `s` is whitespace (vacuous for the empty string). */
  predicate Trimmed(s: string) {
    |s| > 0 ==> !IsSpace(s[0]) && !IsSpace(s[|s| - 1])
  }

  function TrimStart(s: string): (r: string)
    ensures |r| <= |s| && r == s[|s| - |r|..]
    ensures AllSpace(s[..|s| - |r|])
    ensures |r| > 0 ==> !IsSpace(r[0])
  {
    if |s| > 0 && IsSpace(s[0]) then TrimStart(s[1..]) else s
  }

  function TrimEnd(s: string): (r: string)
    ensures |r| <= |s| && r == s[..|r|]
    ensures AllSpace(s[|r|..])
    ensures |r| > 0 ==> !IsSpace(r[|r| - 1])
  {
    if |s| > 0 && IsSpace(s[|s| - 1]) then TrimEnd(s[..|s| - 1]) else s
  }

  /** Python's `str.strip()` with no argument. */
  function Strip(s: string): (r: string)
    ensures Trimmed(r)
    ensures |r| <= |s|
    ensures |r| > 0 ==> r[0] in s
  {
    var t := TrimStart(s);
    var r := TrimEnd(t);
    assert |r| > 0 ==> r[0] == t[0] && t[0] == s[|s| - |t|];
    r
  }

  lemma {:induction false} TrimStartSpaces(w: string, rest: string)
    requires AllSpace(w)
    ensures TrimStart(w + rest) == TrimStart(rest)
    decreases |w|
  {
    if |w| > 0 {
      assert (w + rest)[0] == w[0];
      assert (w + rest)[1..] == w[1..] + rest;
      TrimStartSpaces(w[1..], rest);
    } else {
      assert w + rest == rest;
    }
  }

  lemma {:induction false} TrimEndSpaces(rest: string, w: string)
    requires AllSpace(w)
    ensures TrimEnd(rest + w) == TrimEnd(rest)
    decreases |w|
  {
    if |w| > 0 {
      assert (rest + w)[|rest + w| - 1] == w[|w| - 1];
      assert (rest + w)[..|rest + w| - 1] == rest + w[..|w| - 1];
      TrimEndSpaces(rest, w[..|w| - 1]);
    } else {
      assert rest + w == rest;
    }
  }

  /** Strip undoes any whitespace padding of an already trimmed string:
      together with `Trimmed(Strip(s))` this pins Strip down exactly. */
  lemma {:induction false} StripPadded(w1: string, t: string, w2: string)
    requires AllSpace(w1) && AllSpace(w2) && Trimmed(t)
    ensures Strip(w1 + t + w2) == t
  {
    assert w1 + t + w2 == w1 + (t + w2);
    TrimStartSpaces(w1, t + w2);
    StripIs(w1 + t + w2);
    if |t| == 0 {
      assert t + w2 == w2;
      TrimStartBlank(w2);
    } else {
      TrimStartKeeps(t + w2);
      TrimEndSpaces(t, w2);
    }
  }

  lemma StripIs(s: string)
    ensures Strip(s) == TrimEnd(TrimStart(s))
  {
  }

  lemma TrimStartBlank(w: string)
    requires AllSpace(w)
    ensures TrimStart(w) == ""
  {
    assert TrimStart(w) == w[|w| - |TrimStart(w)|..];
  }

  lemma TrimStartKeeps(u: string)
    requires |u| > 0 && !IsSpace(u[0])
    ensures TrimStart(u) == u
  {
  }

  /** Python's `sep.join(parts)`. */
  function Join(parts: seq<string>, sep: char): string {
    if |parts| == 0 then ""
    else if |parts| == 1 then parts[0]
    else parts[0] + [sep] + Join(parts[1..], sep)
  }

  /** Python's `s.split(sep)` for a one-character separator: always at
      least one piece, and the separators are exactly the cut points. */
  function Split(s: string, sep: char): (r: seq<string>)
    ensures |r| > 0
    ensures forall i :: 0 <= i < |r| ==> sep !in r[i]
    ensures Join(r, sep) == s
    decreases |s|
  {
    if |s| == 0 then [""]
    else
      var rest := Split(s[1..], sep);
      if s[0] == sep then
        assert ([""] + rest)[1..] == rest;
        [""] + rest
      else
        var r := [[s[0]] + rest[0]] + rest[1..];
        assert r[1..] == rest[1..];
        assert s == [s[0]] + s[1..];
        r
  }

  /** A string holding the separator splits into at least two pieces. */
  lemma SplitAtSeparator(s: string, sep: char)
    requires sep in s
    ensures |Split(s, sep)| > 1
  {
  }

  lemma {:induction false} SplitNoSep(s: string, sep: char)
    requires sep !in s
    ensures Split(s, sep) == [s]
    decreases |s|
  {
    if |s| > 0 {
      SplitNoSep(s[1..], sep);
    }
  }

  lemma {:induction false} SplitAfterPiece(a: string, sep: char, rest: string)
    requires sep !in a
    ensures Split(a + [sep] + rest, sep) == [a] + Split(rest, sep)
    decreases |a|
  {
    var s := a + [sep] + rest;
    if |a| == 0 {
      assert s == [sep] + rest;
      assert s[1..] == rest;
    } else {
      assert s[1..] == a[1..] + [sep] + rest;
      SplitAfterPiece(a[1..], sep, rest);
      assert [s[0]] + a[1..] == a;
    }
  }

  /** Splitting a join of separator-free pieces gives the pieces back. */
  lemma {:induction false} SplitJoin(parts: seq<string>, sep: char)
    requires |parts| > 0
    requires forall i :: 0 <= i < |parts| ==> sep !in parts[i]
    ensures Split(Join(parts, sep), sep) == parts
    decreases |parts|
  {
    if |parts| == 1 {
      SplitNoSep(parts[0], sep);
    } else {
      SplitJoin(parts[1..], sep);
      SplitAfterPiece(parts[0], sep, Join(parts[1..], sep));
      assert parts == [parts[0]] + parts[1..];
    }
  }

  /** Python's `str.lower()` restricted to ASCII letters. */
  function LowerChar(c: char): char {
    if 'A' <= c <= 'Z' then (c as int + 32) as char else c
  }

  function ToLower(s: string): (r: string)
    ensures |r| == |s|
    ensures forall i :: 0 <= i < |s| ==> r[i] == LowerChar(s[i])
  {
    if |s| == 0 then "" else [LowerChar(s[0])] + ToLower(s[1..])
  }

  predicate StartsWith(s: string, prefix: string) {
    |prefix| <= |s| && s[..|prefix|] == prefix
  }

  predicate EndsWith(s: string, suffix: string) {
    |suffix| <= |s| && s[|s| - |suffix|..] == suffix
  }

  /** Python's `s.replace(c, sub)` for a single character `c`. */
  function ReplaceChar(s: string, c: char, sub: string): (r: string)
    ensures c !in sub ==> c !in r
    ensures forall d :: d in r ==> d in s || d in sub
    ensures c !in s ==> r == s
  {
    if |s| == 0 then ""
    else (if s[0] == c then sub else [s[0]]) + ReplaceChar(s[1..], c, sub)
  }

  /** Lower-casing twice changes nothing more. */
  lemma ToLowerIdempotent(s: string)
    ensures ToLower(ToLower(s)) == ToLower(s)
  {
  }

  /** A string without upper-case letters is its own lower-case form. */
  lemma AlreadyLower(s: string)
    requires forall i :: 0 <= i < |s| ==> !('A' <= s[i] <= 'Z')
    ensures ToLower(s) == s
  {
  }

  /** `replace` works piece by piece. */
  lemma {:induction false} ReplaceCharAppend(a: string, b: string, c: char, sub: string)
    ensures ReplaceChar(a + b, c, sub) == ReplaceChar(a, c, sub) + ReplaceChar(b, c, sub)
    decreases |a|
  {
    if |a| > 0 {
      assert (a + b)[1..] == a[1..] + b;
      ReplaceCharAppend(a[1..], b, c, sub);
    } else {
      assert a + b == b;
    }
  }

  predicate IsDigit(c: char) {
    '0' <= c <= '9'
  }

  predicate AllDigits(s: string) {
    forall i :: 0 <= i < |s| ==> IsDigit(s[i])
  }

  function DigitChar(d: nat): (c: char)
    requires d < 10
    ensures IsDigit(c)
  {
    ('0' as int + d) as char
  }

  /** The value of a string of decimal digits, read most significant first. */
  function DigitsValue(s: string): nat
    requires AllDigits(s)
  {
    if |s| == 0 then 0
    else 10 * DigitsValue(s[..|s| - 1]) + (s[|s| - 1] as int - '0' as int)
  }

  /** `str(n)` for a natural number: its shortest decimal spelling. */
  function Decimal(n: nat): (r: string)
    ensures |r| > 0 && AllDigits(r)
    ensures |r| > 1 ==> r[0] != '0'
  {
    if n < 10 then [DigitChar(n)] else Decimal(n / 10) + [DigitChar(n % 10)]
  }

  /** `str(n)` for any integer. */
  function IntToString(n: int): string {
    if n < 0 then "-" + Decimal(-n) else Decimal(n)
  }

  /** The information separators U+001C..U+001F: `str.strip` removes
      them, but `int()` skips only the other whitespace and refuses them. */
  predicate InfoSeparator(c: char) {
    '\U{1C}' <= c <= '\U{1F}'
  }

  predicate NoInfoSeparator(s: string) {
    forall i :: 0 <= i < |s| ==> !InfoSeparator(s[i])
  }

  /** The whitespace `int()` skips around a literal. */
  predicate AllIntSpace(s: string) {
    forall i :: 0 <= i < |s| ==> IsSpace(s[i]) && !InfoSeparator(s[i])
  }

  /** Python's `int(s)` on a decimal literal: surrounding whitespace other
      than the information separators, an optional sign and at least one
      digit; anything else is a ValueError, modelled as `None`. */
  function ParseInt(s: string): (r: Option<int>)
    ensures r.Some? && r.value < 0 ==> '-' in s
    ensures r.Some? ==> NoInfoSeparator(s)
  {
    if NoInfoSeparator(s) then ParseLiteral(Strip(s)) else None
  }

  /** `int()` after the whitespace is gone: an optional sign, then digits. */
  function ParseLiteral(t: string): (r: Option<int>)
    ensures r.Some? && r.value < 0 ==> |t| > 0 && t[0] == '-'
  {
    if |t| > 1 && (t[0] == '+' || t[0] == '-') && AllDigits(t[1..]) then
      var v: int := DigitsValue(t[1..]);
      Some(if t[0] == '-' then -v else v)
    else if |t| > 0 && AllDigits(t) then Some(DigitsValue(t))
    else None
  }

  lemma {:induction false} DecimalValue(n: nat)
    ensures DigitsValue(Decimal(n)) == n
    decreases n
  {
    if n >= 10 {
      DecimalValue(n / 10);
      var d := Decimal(n);
      assert d[..|d| - 1] == Decimal(n / 10);
    }
  }

  /** `int()` ignores whitespace around the literal. */
  lemma ParsePadded(w1: string, t: string, w2: string)
    requires AllIntSpace(w1) && AllIntSpace(w2) && Trimmed(t)
    ensures ParseInt(w1 + t + w2) == ParseInt(t)
  {
    IntSpaceIsSpace(w1);
    IntSpaceIsSpace(w2);
    StripPadded(w1, t, w2);
    StripTrimmed(t);
    PaddedSeparators(w1, t, w2);
  }

  lemma IntSpaceIsSpace(w: string)
    requires AllIntSpace(w)
    ensures AllSpace(w) && NoInfoSeparator(w)
  {
  }

  lemma PaddedSeparators(w1: string, t: string, w2: string)
    requires NoInfoSeparator(w1) && NoInfoSeparator(w2)
    ensures NoInfoSeparator(w1 + t + w2) <==> NoInfoSeparator(t)
  {
    var s := w1 + t + w2;
    if NoInfoSeparator(t) {
      forall i | 0 <= i < |s|
        ensures !InfoSeparator(s[i])
      {
        if i < |w1| {
          assert s[i] == w1[i];
        } else if i < |w1| + |t| {
          assert s[i] == t[i - |w1|];
        } else {
          assert s[i] == w2[i - |w1| - |t|];
        }
      }
    } else {
      var j :| 0 <= j < |t| && InfoSeparator(t[j]);
      assert s[|w1| + j] == t[j];
    }
  }

  /** An information separator anywhere makes `int()` fail. */
  lemma InfoSeparatorRefused(s: string, i: nat)
    requires i < |s| && InfoSeparator(s[i])
    ensures ParseInt(s) == None
  {
  }

  /** Empty or all-whitespace text is no integer. */
  lemma BlankRefused(s: string)
    requires AllSpace(s)
    ensures ParseInt(s) == None
  {
    StripPadded(s, "", "");
    assert s + "" + "" == s;
  }

  /** A character that is neither a digit, a sign nor whitespace makes
      `int()` fail wherever it stands. */
  lemma ForeignRefused(s: string, i: nat)
    requires i < |s| && !IsDigit(s[i]) && s[i] != '+' && s[i] != '-' && !IsSpace(s[i])
    ensures ParseInt(s) == None
  {
    var a := StripKeeps(s, i);
    ForeignLiteral(Strip(s), i - a);
  }

  /** A non-space character survives `strip`, shifted left by the
      leading whitespace cut off. */
  lemma StripKeeps(s: string, i: nat) returns (a: nat)
    requires i < |s| && !IsSpace(s[i])
    ensures a <= i && i - a < |Strip(s)| && Strip(s)[i - a] == s[i]
  {
    var b;
    a, b := Padding(s, i);
    var t := s[a..b];
    assert s == s[..a] + t + s[b..];
    StripPadded(s[..a], t, s[b..]);
    assert t[i - a] == s[i];
  }

  /** Around a non-space character at `i`, `s` splits into whitespace, a
      trimmed middle holding `i`, and whitespace. */
  lemma Padding(s: string, i: nat) returns (a: nat, b: nat)
    requires i < |s| && !IsSpace(s[i])
    ensures a <= i < b <= |s|
    ensures AllSpace(s[..a]) && AllSpace(s[b..]) && Trimmed(s[a..b])
  {
    a := 0;
    while IsSpace(s[a])
      invariant a <= i && AllSpace(s[..a])
      decreases i - a
    {
      assert s[..a + 1] == s[..a] + [s[a]];
      a := a + 1;
    }
    b := |s|;
    while IsSpace(s[b - 1])
      invariant i < b <= |s| && AllSpace(s[b..])
      decreases b
    {
      assert s[b - 1..] == [s[b - 1]] + s[b..];
      b := b - 1;
    }
    assert s[a..b][0] == s[a] && s[a..b][b - a - 1] == s[b - 1];
  }

  /** A literal holding a character other than a digit or a sign is no
      integer. */
  lemma ForeignLiteral(t: string, j: nat)
    requires j < |t| && !IsDigit(t[j]) && t[j] != '+' && t[j] != '-'
    ensures ParseLiteral(t) == None
  {
    if j > 0 {
      assert t[1..][j - 1] == t[j];
    }
  }


  lemma StripTrimmed(t: string)
    requires Trimmed(t)
    ensures Strip(t) == t
  {
    assert TrimStart(t) == t;
  }

  lemma ParseDigits(d: string)
    requires |d| > 0 && AllDigits(d)
    ensures ParseInt(d) == Some(DigitsValue(d))
  {
    assert IsDigit(d[0]) && IsDigit(d[|d| - 1]);
    StripTrimmed(d);
  }

  lemma ParseSigned(d: string)
    requires |d| > 0 && AllDigits(d)
    ensures ParseInt("+" + d) == Some(DigitsValue(d))
    ensures ParseInt("-" + d) == Some(-(DigitsValue(d) as int))
  {
    SignedLiteral('+', d);
    SignedLiteral('-', d);
  }

  lemma SignedLiteral(sign: char, d: string)
    requires sign == '+' || sign == '-'
    requires |d| > 0 && AllDigits(d)
    ensures ParseInt([sign] + d) == Some(if sign == '-' then -(DigitsValue(d) as int) else DigitsValue(d))
  {
    SignedTrimmed(sign, d);
    StripTrimmed([sign] + d);
    SignedValue(sign, d);
  }

  lemma SignedTrimmed(sign: char, d: string)
    requires sign == '+' || sign == '-'
    requires |d| > 0 && AllDigits(d)
    ensures Trimmed([sign] + d)
  {
    var t := [sign] + d;
    assert t[0] == sign && t[|t| - 1] == d[|d| - 1];
    assert IsDigit(d[|d| - 1]);
  }

  lemma SignedValue(sign: char, d: string)
    requires sign == '+' || sign == '-'
    requires |d| > 0 && AllDigits(d)
    ensures ParseLiteral([sign] + d) == Some(if sign == '-' then -(DigitsValue(d) as int) else DigitsValue(d))
  {
    var t := [sign] + d;
    assert t[1..] == d;
  }

  lemma ParseDecimal(n: nat)
    ensures ParseInt(Decimal(n)) == Some(n)
  {
    ParseDigits(Decimal(n));
    DecimalValue(n);
  }

  /** `int(str(n))` gives `n` back, with any padding `int()` skips. */
  lemma ParseIntString(w1: string, n: int, w2: string)
    requires AllIntSpace(w1) && AllIntSpace(w2)
    ensures ParseInt(w1 + IntToString(n) + w2) == Some(n)
  {
    IntToStringParses(n);
    ParsePadded(w1, IntToString(n), w2);
  }

  lemma IntToStringParses(n: int)
    ensures Trimmed(IntToString(n))
    ensures ParseInt(IntToString(n)) == Some(n)
  {
    if n < 0 {
      NegativeParses(n);
    } else {
      DecimalParses(n);
    }
  }

  lemma NegativeParses(n: int)
    requires n < 0
    ensures Trimmed("-" + Decimal(-n)) && ParseInt("-" + Decimal(-n)) == Some(n)
  {
    DecimalValue(-n);
    NegativeLiteral(Decimal(-n));
  }

  lemma DecimalParses(n: nat)
    ensures Trimmed(Decimal(n)) && ParseInt(Decimal(n)) == Some(n)
  {
    DecimalValue(n);
    DigitsLiteral(Decimal(n));
  }

  lemma DigitsLiteral(d: string)
    requires |d| > 0 && AllDigits(d)
    ensures Trimmed(d) && ParseInt(d) == Some(DigitsValue(d))
  {
    ParseDigits(d);
  }

  lemma NegativeLiteral(d: string)
    requires |d| > 0 && AllDigits(d)
    ensures Trimmed("-" + d) && ParseInt("-" + d) == Some(-(DigitsValue(d) as int))
  {
    ParseSigned(d);
    NegativeTrimmed(d);
  }

  lemma NegativeTrimmed(d: string)
    requires |d| > 0 && AllDigits(d)
    ensures Trimmed("-" + d)
  {
    var t := "-" + d;
    assert t[0] == '-' && t[|t| - 1] == d[|d| - 1];
    assert IsDigit(d[|d| - 1]);
  }

  /** An explicit plus sign is accepted, as `int("+7") == 7`. */
  lemma ParseIntPlus(n: nat)
    ensures ParseInt("+" + Decimal(n)) == Some(n)
  {
    ParseSigned(Decimal(n));
    DecimalValue(n);
  }

  /** Distinct integers have distinct spellings. */
  lemma IntToStringInjective(a: int, b: int)
    requires IntToString(a) == IntToString(b)
    ensures a == b
  {
    IntToStringParses(a);
    IntToStringParses(b);
  }

  /** `str(n)` is made of digits and at most a leading minus sign. */
  lemma IntToStringChars(n: int)
    ensures forall i :: 0 <= i < |IntToString(n)| ==> IsDigit(IntToString(n)[i]) || IntToString(n)[i] == '-'
  {
    if n < 0 {
      var d := Decimal(-n);
      assert forall i :: 1 <= i < |"-" + d| ==> ("-" + d)[i] == d[i - 1];
    }
  }

  /** Names that differ only in an embedded `str(n)` are different for
      different numbers. */
  lemma NumberedNameInjective(prefix: string, a: int, b: int, suffix: string)
    requires prefix + IntToString(a) + suffix == prefix + IntToString(b) + suffix
    ensures a == b
  {
    var x := IntToString(a);
    var y := IntToString(b);
    assert |x| == |y|;
    assert (prefix + x + suffix)[|prefix| .. |prefix| + |x|] == x;
    assert (prefix + y + suffix)[|prefix| .. |prefix| + |y|] == y;
    IntToStringInjective(a, b);
  }
}
