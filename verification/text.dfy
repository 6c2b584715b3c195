/**
 Character classes and string helpers shared by the client (JavaScript) and the
 server (Python). Each language has its own notion of whitespace; both are written
 out as the exact finite sets of code points the two runtimes use.
 */
module Text {

  /** The code points JavaScript's `String.prototype.trim` removes
      (WhiteSpace and LineTerminator of ECMA-262, section 12.2 and 12.3). */
  predicate JsSpace(c: char) {
    || ('\t' <= c <= '\r')              // U+0009 .. U+000D
    || c == ' ' || c == '\U{A0}' || c == '\U{1680}'
    || ('\U{2000}' <= c <= '\U{200A}')
    || c == '\U{2028}' || c == '\U{2029}' || c == '\U{202F}' || c == '\U{205F}'
    || c == '\U{3000}' || c == '\U{FEFF}'
  }

  /** The code points for which Python's `str.isspace` holds, i.e. the separators of `str.split()`. */
  predicate PySpace(c: char) {
    || ('\t' <= c <= '\r')              // U+0009 .. U+000D
    || ('\U{1C}' <= c <= '\U{1F}')      // file, group, record and unit separators
    || c == ' ' || c == '\U{85}' || c == '\U{A0}' || c == '\U{1680}'
    || ('\U{2000}' <= c <= '\U{200A}')
    || c == '\U{2028}' || c == '\U{2029}' || c == '\U{202F}' || c == '\U{205F}'
    || c == '\U{3000}'
  }

  predicate AllJsSpace(s: string) {
    forall i :: 0 <= i < |s| ==> JsSpace(s[i])
  }

  /** Number of whitespace characters at the front of `s`. */
  function LeadingJsSpaces(s: string): (k: nat)
    ensures k <= |s|
    ensures AllJsSpace(s[..k])
    ensures k < |s| ==> !JsSpace(s[k])
    decreases |s|
  {
    if s == [] || !JsSpace(s[0]) then 0
    else
      var k := 1 + LeadingJsSpaces(s[1..]);
      assert s[..k] == [s[0]] + s[1..][..k - 1];
      k
  }

  /** Number of whitespace characters at the back of `s`. */
  function TrailingJsSpaces(s: string): (k: nat)
    ensures k <= |s|
    ensures AllJsSpace(s[|s| - k..])
    ensures k < |s| ==> !JsSpace(s[|s| - k - 1])
    decreases |s|
  {
    if s == [] || !JsSpace(s[|s| - 1]) then 0
    else
      var j := TrailingJsSpaces(s[..|s| - 1]);
      TrailingStep(s, j);
      1 + j
  }

  /** A whitespace run at the back of all but the last character, followed by a
      whitespace last character, is a whitespace run at the back of `s`. */
  lemma TrailingStep(s: string, j: nat)
    requires s != [] && JsSpace(s[|s| - 1]) && j < |s|
    requires AllJsSpace(s[..|s| - 1][|s| - 1 - j..])
    requires j < |s| - 1 ==> !JsSpace(s[..|s| - 1][|s| - 1 - j - 1])
    ensures AllJsSpace(s[|s| - 1 - j..])
    ensures j + 1 < |s| ==> !JsSpace(s[|s| - j - 2])
  {
    var a := |s| - 1 - j;
    forall i | 0 <= i < j + 1
      ensures JsSpace(s[a..][i])
    {
      if i < j {
        assert s[a..][i] == s[..|s| - 1][a..][i];
      }
    }
  }

  /** Some non-whitespace character lies between the leading and the trailing
      whitespace unless the string is all whitespace. */
  lemma TrimBounds(s: string)
    requires LeadingJsSpaces(s) < |s|
    ensures var a, b := LeadingJsSpaces(s), |s| - TrailingJsSpaces(s);
            a < b && !JsSpace(s[a]) && !JsSpace(s[b - 1]) && !AllJsSpace(s)
  {
    var a, t := LeadingJsSpaces(s), TrailingJsSpaces(s);
    if |s| - t <= a {
      assert false;
    }
  }

  /** A string that is whitespace up to its end trims to nothing: the whole of it
      is the leading part and the empty rest is the trailing part. */
  lemma AllSpaceTrim(s: string)
    requires AllJsSpace(s[..|s|])
    ensures AllJsSpace(s) && AllJsSpace(s[|s|..])
  {
    assert s[..|s|] == s;
  }

  /** Where the trimmed text ends: after its last non-whitespace character, or at
      the end of a string that is all whitespace. */
  function TrimEnd(s: string): (b: nat)
    ensures LeadingJsSpaces(s) <= b <= |s|
    ensures AllJsSpace(s[b..])
    ensures LeadingJsSpaces(s) < b ==> !JsSpace(s[b - 1])
    ensures LeadingJsSpaces(s) == b <==> AllJsSpace(s)
  {
    if LeadingJsSpaces(s) == |s| then
      AllSpaceTrim(s);
      |s|
    else
      TrimBounds(s);
      |s| - TrailingJsSpaces(s)
  }

  /** JavaScript `s.trim()`: `s` without its leading and trailing whitespace
      (`TrimIsSlice` states where the result sits in `s`). */
  function Trim(s: string): (r: string)
    ensures r == [] <==> AllJsSpace(s)
    ensures r != [] ==> !JsSpace(r[0]) && !JsSpace(r[|r| - 1])
  {
    var a, b := LeadingJsSpaces(s), TrimEnd(s);
    assert a < b ==> s[a..b][0] == s[a] && s[a..b][b - a - 1] == s[b - 1];
    s[a..b]
  }

  /** The trimmed string is a contiguous slice of `s` with only whitespace before
      and after it. */
  lemma TrimIsSlice(s: string)
    ensures exists a, b :: 0 <= a <= b <= |s| && Trim(s) == s[a..b]
                           && AllJsSpace(s[..a]) && AllJsSpace(s[b..])
  {
    var a, b := LeadingJsSpaces(s), TrimEnd(s);
    assert Trim(s) == s[a..b];
  }

  /** A string that neither starts nor ends with whitespace is its own trim. */
  lemma TrimKeepsClean(s: string)
    requires s != [] && !JsSpace(s[0]) && !JsSpace(s[|s| - 1])
    ensures Trim(s) == s
  {
    var a, b := LeadingJsSpaces(s), TrimEnd(s);
    if a > 0 {
      assert false;
    }
    if b < |s| {
      assert false;
    }
    assert s[a..b] == s;
  }

  predicate IsDigit(c: char) { '0' <= c <= '9' }

  predicate AllDigits(s: string) {
    forall i :: 0 <= i < |s| ==> IsDigit(s[i])
  }

  /** JavaScript `s.replace(/\D/g, "")`: keep the ASCII digits of `s`, in order. */
  function DigitsOnly(s: string): (r: string)
    ensures AllDigits(r)
    ensures |r| <= |s|
    ensures AllDigits(s) ==> r == s
    ensures forall i :: 0 <= i < |r| ==> r[i] in s
    // one character is kept exactly when it is a digit
    ensures |s| == 1 ==> (r == s <==> IsDigit(s[0])) && (r == [] <==> !IsDigit(s[0]))
    decreases |s|
  {
    if s == [] then []
    else if IsDigit(s[0]) then [s[0]] + DigitsOnly(s[1..])
    else DigitsOnly(s[1..])
  }

  /** The filter works piecewise, so with the one-character case it fixes the
      value: every digit is kept and the order is unchanged. */
  lemma {:induction false} DigitsOnlyAppend(a: string, b: string)
    ensures DigitsOnly(a + b) == DigitsOnly(a) + DigitsOnly(b)
    decreases |a|
  {
    if a == [] {
      assert a + b == b;
    } else {
      assert (a + b)[0] == a[0] && (a + b)[1..] == a[1..] + b;
      DigitsOnlyAppend(a[1..], b);
    }
  }

  predicate IsUpper(c: char) { 'A' <= c <= 'Z' }

  predicate NoUpper(s: string) {
    forall i :: 0 <= i < |s| ==> !IsUpper(s[i])
  }

  /** ASCII lower-casing of one character; every other code point is left alone. */
  function Lower(c: char): (r: char)
    ensures !IsUpper(r)
    ensures !IsUpper(c) ==> r == c
    ensures IsUpper(c) ==> r as int - c as int == 32
  {
    if IsUpper(c) then (c as int + 32) as char else c
  }

  /** `s.lower()` restricted to ASCII letters. */
  function LowerStr(s: string): (r: string)
    ensures |r| == |s| && NoUpper(r)
    ensures forall i :: 0 <= i < |s| ==> r[i] == Lower(s[i])
    ensures NoUpper(s) ==> r == s
  {
    seq(|s|, i requires 0 <= i < |s| => Lower(s[i]))
  }

  /** UTF-16 code units of one code point. */
  function Utf16Units(c: char): (n: nat)
    ensures n == 1 <==> c <= '\U{FFFF}'
    ensures n == 2 <==> c > '\U{FFFF}'
  {
    if c <= '\U{FFFF}' then 1 else 2
  }

  /** JavaScript `s.length`: UTF-16 code units, two for a code point above U+FFFF. */
  function Utf16Length(s: string): (n: nat)
    ensures |s| <= n <= 2 * |s|
    ensures |s| == 1 ==> n == Utf16Units(s[0])
    decreases |s|
  {
    if s == [] then 0
    else Utf16Units(s[0]) + Utf16Length(s[1..])
  }

  /** Without characters above U+FFFF, `.length` counts the characters. */
  lemma {:induction false} Utf16LengthBmp(s: string)
    requires forall i :: 0 <= i < |s| ==> s[i] <= '\U{FFFF}'
    ensures Utf16Length(s) == |s|
    decreases |s|
  {
    if s != [] {
      Utf16LengthBmp(s[1..]);
    }
  }

  /** Lengths add up, so with the one-character case the count is exact. */
  lemma {:induction false} Utf16LengthAppend(a: string, b: string)
    ensures Utf16Length(a + b) == Utf16Length(a) + Utf16Length(b)
    decreases |a|
  {
    if a == [] {
      assert a + b == b;
    } else {
      assert (a + b)[0] == a[0] && (a + b)[1..] == a[1..] + b;
      Utf16LengthAppend(a[1..], b);
    }
  }

  /** How many leading characters of `s` fit, whole, in `n` UTF-16 code units. */
  function FitCount(s: string, n: nat): (k: nat)
    ensures k <= |s|
    decreases |s|
  {
    if s == [] || Utf16Units(s[0]) > n then 0 else 1 + FitCount(s[1..], n - Utf16Units(s[0]))
  }

  /** The counted prefix fits, and one more character would not. */
  lemma {:induction false} FitCountFits(s: string, n: nat)
    ensures Utf16Length(s[..FitCount(s, n)]) <= n
    ensures FitCount(s, n) < |s| ==> Utf16Length(s[..FitCount(s, n) + 1]) > n
    decreases |s|
  {
    var k := FitCount(s, n);
    if s == [] {
    } else if Utf16Units(s[0]) > n {
      assert k == 0;
      Utf16PrefixFirst(s);
    } else {
      var u := Utf16Units(s[0]);
      assert k == 1 + FitCount(s[1..], n - u);
      FitCountFits(s[1..], n - u);
      var rest := s[1..][..k - 1];
      ConsPrefix(s, rest);
      ConsLength(s[0], rest);
      assert Utf16Length(s[..k]) == u + Utf16Length(rest);
      if k < |s| {
        Utf16PrefixGrow(s, n, rest);
      }
    }
  }

  /** What a `maxLength` attribute lets into a field: the longest prefix of whole
      code points that fits in `n` UTF-16 code units. */
  function Utf16Prefix(s: string, n: nat): (r: string)
    ensures |r| <= |s| && r == s[..|r|]
    ensures Utf16Length(r) <= n
    ensures |r| < |s| ==> Utf16Length(s[..|r| + 1]) > n
  {
    FitCountFits(s, n);
    s[..FitCount(s, n)]
  }

  /** Putting the first character back in front of a prefix of the rest gives a
      prefix of the whole. */
  lemma ConsPrefix(s: string, rest: string)
    requires s != [] && |rest| < |s| && rest == s[1..][..|rest|]
    ensures [s[0]] + rest == s[..|rest| + 1]
  {
  }

  /** The first character adds its own units to the rest. */
  lemma ConsLength(c: char, rest: string)
    ensures Utf16Length([c] + rest) == Utf16Units(c) + Utf16Length(rest)
  {
    Utf16LengthAppend([c], rest);
  }

  /** The first character alone already counts its own units. */
  lemma Utf16PrefixFirst(s: string)
    requires s != []
    ensures Utf16Length(s[..1]) == Utf16Units(s[0])
  {
    assert s[..1] == [s[0]];
  }

  /** The prefix one character longer than `[s[0]] + rest` does not fit. */
  lemma Utf16PrefixGrow(s: string, n: nat, rest: string)
    requires s != [] && Utf16Units(s[0]) <= n
    requires |rest| + 1 < |s|
    requires Utf16Length(s[1..][..|rest| + 1]) > n - Utf16Units(s[0])
    ensures Utf16Length(s[..|rest| + 2]) > n
  {
    assert s[..|rest| + 2] == [s[0]] + s[1..][..|rest| + 1];
    Utf16LengthAppend([s[0]], s[1..][..|rest| + 1]);
  }

  /** A value that already fits is let through whole: a shorter prefix would mean
      that one more character overflows, and that longer prefix is part of the value. */
  lemma Utf16PrefixWhole(s: string, n: nat)
    ensures Utf16Length(s) <= n ==> Utf16Prefix(s, n) == s
  {
    var r := Utf16Prefix(s, n);
    if |r| < |s| {
      var k := |r| + 1;
      assert s == s[..k] + s[k..];
      Utf16LengthAppend(s[..k], s[k..]);
      assert Utf16Length(s) > n;
    }
  }
}
