/**
 * String primitives of the Java and Python standard libraries that the
 * modelled code relies on, restricted to the behaviour the model needs:
 * ASCII case mapping, trimming, substring search, splitting and decimal
 * conversion of integers.
 */
module StringOps {
  import opened Wrappers
  import opened Errors

  // ---------------------------------------------------------------------
  // Case mapping (ASCII letters; other characters map to themselves)

  function LowerChar(c: char): char {
    if 'A' <= c <= 'Z' then (c as int + 32) as char else c
  }

  function UpperChar(c: char): char {
    if 'a' <= c <= 'z' then (c as int - 32) as char else c
  }

  /** String.toLowerCase, as it acts on ASCII text. */
  function ToLower(s: string): (r: string)
    ensures |r| == |s|
    ensures forall i :: 0 <= i < |s| ==> r[i] == LowerChar(s[i])
  {
    seq(|s|, i requires 0 <= i < |s| => LowerChar(s[i]))
  }

  /** String.toUpperCase, as it acts on ASCII text. */
  function ToUpper(s: string): (r: string)
    ensures |r| == |s|
    ensures forall i :: 0 <= i < |s| ==> r[i] == UpperChar(s[i])
  {
    seq(|s|, i requires 0 <= i < |s| => UpperChar(s[i]))
  }

  /** The per-character test of String.equalsIgnoreCase (String.regionMatches with ignoreCase). */
  predicate CharEqualsIgnoreCase(c1: char, c2: char) {
    c1 == c2
    || UpperChar(c1) == UpperChar(c2)
    || LowerChar(UpperChar(c1)) == LowerChar(UpperChar(c2))
  }

  /** String.equalsIgnoreCase: same length and every pair of characters equal up to case. */
  predicate EqualsIgnoreCase(a: string, b: string) {
    |a| == |b| && forall i :: 0 <= i < |a| ==> CharEqualsIgnoreCase(a[i], b[i])
  }

  /** Case-insensitive equality is equality of the lower-cased strings. */
  lemma EqualsIgnoreCaseIsLowerEquality(a: string, b: string)
    ensures EqualsIgnoreCase(a, b) <==> ToLower(a) == ToLower(b)
  {
    if ToLower(a) == ToLower(b) {
      assert |a| == |b|;
      forall i | 0 <= i < |a| ensures CharEqualsIgnoreCase(a[i], b[i]) {
        assert ToLower(a)[i] == ToLower(b)[i];
      }
    }
  }

  // ---------------------------------------------------------------------
  // Trimming

  /** The characters String.trim removes: every code point up to U+0020. */
  predicate IsJavaTrimmed(c: char) {
    c <= ' '
  }

  /** The characters Python's str.strip() removes by default (str.isspace). */
  predicate IsPythonSpace(c: char) {
    c == ' ' || '\t' <= c <= '\r' || '\U{001C}' <= c <= '\U{001F}'
    || c == '\U{0085}' || c == '\U{00A0}' || c == '\U{1680}'
    || '\U{2000}' <= c <= '\U{200A}' || c == '\U{2028}' || c == '\U{2029}'
    || c == '\U{202F}' || c == '\U{205F}' || c == '\U{3000}'
  }

  /** Drops the leading characters that satisfy `space`. */
  function StripLeft(s: string, space: char -> bool): (r: string)
    ensures |r| <= |s| && r == s[|s| - |r|..]
    ensures forall k :: 0 <= k < |s| - |r| ==> space(s[k])
    ensures r != [] ==> !space(r[0])
  {
    if s != [] && space(s[0]) then StripLeft(s[1..], space) else s
  }

  /** Drops the trailing characters that satisfy `space`. */
  function StripRight(s: string, space: char -> bool): (r: string)
    ensures |r| <= |s| && r == s[..|r|]
    ensures forall k :: |r| <= k < |s| ==> space(s[k])
    ensures r != [] ==> !space(r[|r| - 1])
  {
    if s != [] && space(s[|s| - 1]) then StripRight(s[..|s| - 1], space) else s
  }

  /** String.trim. */
  function JavaTrim(s: string): string {
    StripRight(StripLeft(s, IsJavaTrimmed), IsJavaTrimmed)
  }

  /** Python's str.strip() with no argument. */
  function PythonStrip(s: string): string {
    StripRight(StripLeft(s, IsPythonSpace), IsPythonSpace)
  }

  /** `[f(x) for x in xs]`. */
  function MapStrings(f: string -> string, xs: seq<string>): (r: seq<string>)
    ensures |r| == |xs|
  {
    seq(|xs|, i requires 0 <= i < |xs| => f(xs[i]))
  }

  lemma MapStringsAppend(f: string -> string, a: seq<string>, b: seq<string>)
    ensures MapStrings(f, a + b) == MapStrings(f, a) + MapStrings(f, b)
  {
    var l, r := MapStrings(f, a + b), MapStrings(f, a) + MapStrings(f, b);
    forall i | 0 <= i < |l|
      ensures l[i] == r[i]
    {
      if i < |a| {
        assert (a + b)[i] == a[i];
      } else {
        assert (a + b)[i] == b[i - |a|];
      }
    }
  }

  /** str.strip() is empty exactly when every character is whitespace. */
  lemma PythonStripEmpty(s: string)
    ensures PythonStrip(s) == [] <==> forall k :: 0 <= k < |s| ==> IsPythonSpace(s[k])
  {
    var l := StripLeft(s, IsPythonSpace);
    if l != [] {
      assert !IsPythonSpace(l[0]) && l[0] == s[|s| - |l|];
    }
  }

  // ---------------------------------------------------------------------
  // Searching

  predicate StartsWith(s: string, prefix: string) {
    |prefix| <= |s| && s[..|prefix|] == prefix
  }

  lemma StartsWithConcat(p: string, q: string)
    ensures StartsWith(p + q, p)
  {
    assert (p + q)[..|p|] == p;
  }

  predicate EndsWith(s: string, suffix: string) {
    |suffix| <= |s| && s[|s| - |suffix|..] == suffix
  }

  /** Python's `sub in s`. */
  predicate IsInfix(sub: string, s: string)
    decreases |s|
  {
    StartsWith(s, sub) || (s != [] && IsInfix(sub, s[1..]))
  }

  /** The index of the first occurrence of `sep` in `s`, if any. */
  function IndexOf(s: string, sep: string): (r: Option<nat>)
    ensures r.Some? ==> r.value + |sep| <= |s| && s[r.value..r.value + |sep|] == sep
    decreases |s|
  {
    if |s| < |sep| then None
    else if s[..|sep|] == sep then Some(0)
    else match IndexOf(s[1..], sep)
      case None => None
      case Some(i) => Some(i + 1)
  }

  /** String.lastIndexOf(char), with None standing for -1. */
  function LastIndexOf(s: string, c: char): (r: Option<nat>)
    ensures r.Some? ==> r.value < |s| && s[r.value] == c && c !in s[r.value + 1..]
    ensures r.None? <==> c !in s
  {
    if s == [] then None
    else if s[|s| - 1] == c then Some(|s| - 1)
    else LastIndexOf(s[..|s| - 1], c)
  }

  /** The last occurrence of c is the one after which c no longer appears. */
  lemma {:induction false} LastIndexOfSplit(p: string, c: char, q: string)
    requires c !in q
    ensures LastIndexOf(p + [c] + q, c) == Some(|p|)
    decreases |q|
  {
    var s := p + [c] + q;
    if q != [] {
      assert s[..|s| - 1] == p + [c] + q[..|q| - 1];
      assert s[|s| - 1] == q[|q| - 1];
      LastIndexOfSplit(p, c, q[..|q| - 1]);
    }
  }

  // ---------------------------------------------------------------------
  // Splitting and joining

  /** Concatenates `parts` with `sep` between neighbours (Python's sep.join). */
  function Join(parts: seq<string>, sep: string): string {
    if parts == [] then ""
    else if |parts| == 1 then parts[0]
    else parts[0] + sep + Join(parts[1..], sep)
  }

  /** Concatenates `parts` with no separator. */
  function Concat(parts: seq<string>): string {
    if parts == [] then "" else parts[0] + Concat(parts[1..])
  }

  /** Python's s.split(sep) for a non-empty separator: the pieces between non-overlapping occurrences, left to right. */
  function SplitOn(s: string, sep: string): (r: seq<string>)
    requires sep != []
    ensures |r| >= 1
    decreases |s|
  {
    match IndexOf(s, sep)
    case None => [s]
    case Some(i) => [s[..i]] + SplitOn(s[i + |sep|..], sep)
  }

  /** Splitting and re-joining with the same separator gives back the string. */
  lemma {:induction false} SplitOnJoin(s: string, sep: string)
    requires sep != []
    ensures Join(SplitOn(s, sep), sep) == s
    decreases |s|
  {
    match IndexOf(s, sep)
    case None =>
    case Some(i) =>
      var rest := s[i + |sep|..];
      var tail := SplitOn(rest, sep);
      var parts := [s[..i]] + tail;
      SplitOnJoin(rest, sep);
      assert parts[1..] == tail && |parts| >= 2;
      assert Join(parts, sep) == s[..i] + sep + Join(tail, sep);
      assert s == s[..i] + s[i..i + |sep|] + rest;
  }

  /** Drops the empty strings at the end, as String.split with limit 0 does. */
  function DropTrailingEmpty(parts: seq<string>): (r: seq<string>)
    ensures |r| <= |parts| && r == parts[..|r|]
    ensures r != [] ==> r[|r| - 1] != ""
    ensures forall k :: |r| <= k < |parts| ==> parts[k] == ""
  {
    if parts != [] && parts[|parts| - 1] == "" then DropTrailingEmpty(parts[..|parts| - 1]) else parts
  }

  /** String.split(String.valueOf(c)) for a character that is not a regular-expression metacharacter. */
  function JavaSplit(s: string, c: char): seq<string> {
    if c !in s then [s] else DropTrailingEmpty(SplitOn(s, [c]))
  }

  // ---------------------------------------------------------------------
  // Decimal conversion

  const INT_MIN: int := -0x8000_0000
  const INT_MAX: int := 0x7FFF_FFFF

  predicate IsDigit(c: char) {
    '0' <= c <= '9'
  }

  function DigitChar(d: int): (c: char)
    requires 0 <= d < 10
    ensures IsDigit(c)
  {
    ('0' as int + d) as char
  }

  function DigitValue(c: char): int
    requires IsDigit(c)
  {
    c as int - '0' as int
  }

  /** The decimal digits of a natural number, most significant first. */
  function NatToString(n: nat): (r: string)
    ensures r != []
    ensures forall i :: 0 <= i < |r| ==> IsDigit(r[i])
  {
    if n < 10 then [DigitChar(n)] else NatToString(n / 10) + [DigitChar(n % 10)]
  }

  /** Java's decimal rendering of an int (String.valueOf, and %d in the ROOT locale). */
  function IntToString(n: int): string {
    if n < 0 then "-" + NatToString(-n) else NatToString(n)
  }

  /** The value of a string of decimal digits. */
  function DecimalValue(s: string): nat
    requires forall i :: 0 <= i < |s| ==> IsDigit(s[i])
  {
    if s == [] then 0 else DecimalValue(s[..|s| - 1]) * 10 + DigitValue(s[|s| - 1])
  }

  predicate AllDigits(s: string) {
    forall i :: 0 <= i < |s| ==> IsDigit(s[i])
  }

  /** Integer.parseInt(s): an optional sign, one or more digits, and a value in int range; otherwise NumberFormatException. */
  function ParseInt(s: string): (r: Result<int, Exception>)
    ensures r.Success? ==> INT_MIN <= r.value <= INT_MAX
    ensures r.Failure? ==> r.error == NumberFormat
  {
    if s != [] && (s[0] == '-' || s[0] == '+') then ParseDigits(s[0] == '-', s[1..])
    else ParseDigits(false, s)
  }

  /** The digits part of Integer.parseInt, after an optional sign. */
  function ParseDigits(negative: bool, digits: string): (r: Result<int, Exception>)
    ensures r.Success? ==> INT_MIN <= r.value <= INT_MAX
    ensures r.Failure? ==> r.error == NumberFormat
  {
    if digits == [] || !AllDigits(digits) then Failure(NumberFormat)
    else
      var v: int := DecimalValue(digits);
      var n := if negative then -v else v;
      if INT_MIN <= n <= INT_MAX then Success(n) else Failure(NumberFormat)
  }

  lemma {:induction false} DecimalValueOfNatToString(n: nat)
    ensures DecimalValue(NatToString(n)) == n
  {
    if n >= 10 {
      var prefix := NatToString(n / 10);
      var s := prefix + [DigitChar(n % 10)];
      assert s[..|s| - 1] == prefix;
      DecimalValueOfNatToString(n / 10);
    }
  }

  /** Integer.parseInt inverts the decimal rendering of every int. */
  lemma ParseIntOfIntToString(n: int)
    requires INT_MIN <= n <= INT_MAX
    ensures ParseInt(IntToString(n)) == Success(n)
  {
    if n < 0 {
      var digits := NatToString(-n);
      var s := "-" + digits;
      assert IntToString(n) == s;
      assert s[0] == '-' && s[1..] == digits;
      DecimalValueOfNatToString(-n);
      assert ParseDigits(true, digits) == Success(n);
    } else {
      var digits := NatToString(n);
      DecimalValueOfNatToString(n);
      assert digits[0] != '-' && digits[0] != '+';
      assert ParseDigits(false, digits) == Success(n);
    }
  }
}
