/** The java.lang.String, StringUtils and Long primitives the modelled code
    relies on, each stated over `seq<char>`. */
module Text {
  import opened Base

  // ---------------------------------------------------------------------
  // Character classes
  // ---------------------------------------------------------------------

  /** Characters `String.trim()` removes from either end: U+0000..U+0020. */
  predicate IsTrimmed(c: char) {
    c <= ' '
  }

  /** `Character.isWhitespace`, which `StringUtils.hasText` consults. */
  predicate IsJavaWhitespace(c: char) {
    || c == ' ' || c == '\t' || c == '\n' || c == '\U{0B}' || c == '\U{0C}' || c == '\r'
    || ('\U{1C}' <= c <= '\U{1F}')
    || c == '\U{1680}' || ('\U{2000}' <= c <= '\U{2006}') || ('\U{2008}' <= c <= '\U{200A}')
    || c == '\U{2028}' || c == '\U{2029}' || c == '\U{205F}' || c == '\U{3000}'
  }

  /** The regex class `\s` without UNICODE_CHARACTER_CLASS. */
  predicate IsRegexSpace(c: char) {
    c == ' ' || c == '\t' || c == '\n' || c == '\U{0B}' || c == '\U{0C}' || c == '\r'
  }

  /** The POSIX class `\p{Punct}`: the 32 ASCII punctuation characters. */
  predicate IsPunct(c: char) {
    ('!' <= c <= '/') || (':' <= c <= '@') || ('[' <= c <= '`') || ('{' <= c <= '~')
  }

  predicate IsAsciiDigit(c: char) {
    '0' <= c <= '9'
  }

  // ---------------------------------------------------------------------
  // trim, isEmpty, hasText
  // ---------------------------------------------------------------------

  /** The first position at or after `from` that holds no trimmable
      character, or `|s|`. */
  function FirstKept(s: string, from: nat): (n: nat)
    requires from <= |s|
    ensures from <= n <= |s|
    ensures forall i :: from <= i < n ==> IsTrimmed(s[i])
    ensures n == |s| || !IsTrimmed(s[n])
    decreases |s| - from
  {
    if from < |s| && IsTrimmed(s[from]) then FirstKept(s, from + 1) else from
  }

  /** The end of the kept text before `to`: the position after the last
      character before `to` that is not trimmable, or 0. */
  function LastKept(s: string, to: nat): (n: nat)
    requires to <= |s|
    ensures n <= to
    ensures forall i :: n <= i < to ==> IsTrimmed(s[i])
    ensures n == 0 || !IsTrimmed(s[n - 1])
  {
    if to > 0 && IsTrimmed(s[to - 1]) then LastKept(s, to - 1) else to
  }

  /** Drops leading trimmable characters; the result is a suffix of `s`. */
  function TrimStart(s: string): (r: string)
    ensures |r| <= |s| && r == s[|s| - |r|..]
    ensures forall i :: 0 <= i < |s| - |r| ==> IsTrimmed(s[i])
    ensures r == [] || !IsTrimmed(r[0])
  {
    s[FirstKept(s, 0)..]
  }

  /** Drops trailing trimmable characters; the result is a prefix of `s`. */
  function TrimEnd(s: string): (r: string)
    ensures |r| <= |s| && r == s[..|r|]
    ensures forall i :: |r| <= i < |s| ==> IsTrimmed(s[i])
    ensures r == [] || !IsTrimmed(r[|r| - 1])
  {
    s[..LastKept(s, |s|)]
  }

  /** `String.trim()`. */
  function Trim(s: string): string {
    TrimEnd(TrimStart(s))
  }

  /** `s.trim().isEmpty()`: every character is trimmable (see `TrimShape`). */
  predicate IsBlank(s: string) {
    forall i | 0 <= i < |s| :: IsTrimmed(s[i])
  }

  /** `StringUtils.hasText`: non-null with some non-whitespace character. */
  predicate HasText(s: Option<string>) {
    s.Some? && exists i | 0 <= i < |s.value| :: !IsJavaWhitespace(s.value[i])
  }

  /** The offset at which `Trim(s)` starts inside `s`. */
  function TrimOffset(s: string): nat {
    |s| - |TrimStart(s)|
  }

  /** `Trim(s)` is the slice of `s` between its trimmable margins, has no
      trimmable character at either end, and is empty exactly when every
      character of `s` is trimmable. */
  lemma TrimShape(s: string)
    ensures TrimOffset(s) + |Trim(s)| <= |s|
    ensures Trim(s) == s[TrimOffset(s)..TrimOffset(s) + |Trim(s)|]
    ensures Trim(s) == [] || (!IsTrimmed(Trim(s)[0]) && !IsTrimmed(Trim(s)[|Trim(s)| - 1]))
    ensures IsBlank(s) <==> Trim(s) == []
  {
    var t := TrimStart(s);
    var r := TrimEnd(t);
    var off := TrimOffset(s);
    assert t == s[off..] && r == t[..|r|];
    assert s[off..][..|r|] == s[off..off + |r|];
    if r != [] {
      assert r[0] == t[0];
    }
    TrimBlank(s);
  }

  /** Only a blank string trims to nothing. */
  lemma TrimBlank(s: string)
    ensures IsBlank(s) <==> Trim(s) == []
  {
    var t := TrimStart(s);
    var off := |s| - |t|;
    assert forall k :: 0 <= k < |t| ==> t[k] == s[off + k];
  }

  /** A string with no trimmable character at either end is its own trim. */
  lemma TrimIdentity(s: string)
    requires s == [] || (!IsTrimmed(s[0]) && !IsTrimmed(s[|s| - 1]))
    ensures Trim(s) == s
  {
  }

  /** `trim()` is idempotent. */
  lemma TrimIdempotent(s: string)
    ensures Trim(Trim(s)) == Trim(s)
  {
    TrimShape(s);
    TrimIdentity(Trim(s));
  }

  // ---------------------------------------------------------------------
  // contains, startsWith, indexOf
  // ---------------------------------------------------------------------

  /** `sub` occurs in `s` starting at offset `i`. */
  predicate MatchAt(s: string, sub: string, i: int) {
    0 <= i && i + |sub| <= |s| && s[i..i + |sub|] == sub
  }

  /** `s.contains(sub)`. */
  predicate Contains(s: string, sub: string) {
    exists i | 0 <= i <= |s| :: MatchAt(s, sub, i)
  }

  /** `s.startsWith(p)`. */
  predicate StartsWith(s: string, p: string) {
    |p| <= |s| && s[..|p|] == p
  }

  /** Whatever a slice of `s` contains, `s` contains too. */
  lemma ContainsSlice(s: string, a: nat, b: nat, sub: string)
    requires a <= b <= |s|
    requires Contains(s[a..b], sub)
    ensures Contains(s, sub)
  {
    var t := s[a..b];
    var i :| 0 <= i <= |t| && MatchAt(t, sub, i);
    var x, y := s[a + i..a + i + |sub|], t[i..i + |sub|];
    forall k | 0 <= k < |sub| ensures x[k] == y[k] {
      assert t[i + k] == s[a + i + k];
    }
    assert MatchAt(s, sub, a + i);
  }

  /** A string lacking the first character of `sub` does not contain `sub`. */
  lemma NotContainsFirstChar(s: string, sub: string)
    requires |sub| > 0 && sub[0] !in s
    ensures !Contains(s, sub)
  {
  }

  /** `s.indexOf(sub, from)`: the first match at or after `from`, or -1. */
  function IndexOf(s: string, sub: string, from: int): (r: int)
    ensures -1 <= r <= |s|
    ensures r >= 0 ==> r >= from && MatchAt(s, sub, r)
    ensures r >= 0 ==> forall j :: from <= j < r ==> !MatchAt(s, sub, j)
    ensures r == -1 ==> forall j :: from <= j ==> !MatchAt(s, sub, j)
    decreases |s| - from
  {
    if from < 0 then IndexOf(s, sub, 0)
    else if from + |sub| > |s| then -1
    else if MatchAt(s, sub, from) then from
    else IndexOf(s, sub, from + 1)
  }

  /** `s.indexOf(c, from)` for a single character. */
  function IndexOfChar(s: string, c: char, from: nat): (r: int)
    ensures r == -1 || (from <= r < |s| && s[r] == c)
    ensures r == -1 ==> forall j :: from <= j < |s| ==> s[j] != c
    ensures r >= 0 ==> forall j :: from <= j < r ==> s[j] != c
    decreases |s| - from
  {
    if from >= |s| then -1 else if s[from] == c then from else IndexOfChar(s, c, from + 1)
  }

  /** Without `c` from `from` on, the search finds nothing. */
  lemma {:induction false} IndexOfCharNone(s: string, c: char, from: nat)
    requires forall j :: from <= j < |s| ==> s[j] != c
    ensures IndexOfChar(s, c, from) == -1
    decreases |s| - from
  {
    if from < |s| {
      IndexOfCharNone(s, c, from + 1);
    }
  }

  /** The search stops at the first `c` from `from` on. */
  lemma {:induction false} IndexOfCharFirst(s: string, c: char, from: nat, at: nat)
    requires from <= at < |s| && s[at] == c
    requires forall j :: from <= j < at ==> s[j] != c
    ensures IndexOfChar(s, c, from) == at
    decreases at - from
  {
    if from < at {
      IndexOfCharFirst(s, c, from + 1, at);
    }
  }

  /** `s.lastIndexOf(c)`. */
  function LastIndexOf(s: string, c: char): (r: int)
    ensures -1 <= r < |s|
    ensures r >= 0 ==> s[r] == c && forall j :: r < j < |s| ==> s[j] != c
    ensures r == -1 ==> forall j :: 0 <= j < |s| ==> s[j] != c
  {
    if |s| == 0 then -1
    else if s[|s| - 1] == c then |s| - 1
    else LastIndexOf(s[..|s| - 1], c)
  }

  // ---------------------------------------------------------------------
  // Character filters (replaceAll with a single character class)
  // ---------------------------------------------------------------------

  /** Removes every character with `drop(c)`: `replaceAll("[...]", "")`. */
  function RemoveChars(s: string, drop: char -> bool): (r: string)
    ensures |r| <= |s|
    ensures forall i :: 0 <= i < |r| ==> !drop(r[i])
    ensures (forall i :: 0 <= i < |s| ==> !drop(s[i])) ==> r == s
  {
    if |s| == 0 then []
    else if drop(s[0]) then RemoveChars(s[1..], drop)
    else [s[0]] + RemoveChars(s[1..], drop)
  }

  /** Removing characters distributes over concatenation. */
  lemma {:induction false} RemoveCharsAppend(x: string, y: string, drop: char -> bool)
    ensures RemoveChars(x + y, drop) == RemoveChars(x, drop) + RemoveChars(y, drop)
  {
    if x == [] {
      assert x + y == y;
    } else {
      assert (x + y)[0] == x[0] && (x + y)[1..] == x[1..] + y;
      RemoveCharsAppend(x[1..], y, drop);
      if !drop(x[0]) {
        assert RemoveChars(x + y, drop) == [x[0]] + RemoveChars(x[1..] + y, drop);
      }
    }
  }

  // ---------------------------------------------------------------------
  // split and join
  // ---------------------------------------------------------------------

  /** Every piece between occurrences of `sep`, scanning left to right. */
  function SplitAll(s: string, sep: string): (r: seq<string>)
    requires sep != []
    ensures |r| >= 1
    ensures Join(r, sep) == s
    ensures forall k :: 0 <= k < |r| ==> !Contains(r[k], sep)
    decreases |s|
  {
    var i := IndexOf(s, sep, 0);
    if i < 0 then
      [s]
    else
      var rest := SplitAll(s[i + |sep|..], sep);
      assert !Contains(s[..i], sep) by {
        if Contains(s[..i], sep) {
          var j :| 0 <= j <= i && MatchAt(s[..i], sep, j);
          assert j + |sep| <= i;
          assert s[..i][j..j + |sep|] == s[j..j + |sep|];
          assert MatchAt(s, sep, j);
        }
      }
      assert s == s[..i] + sep + s[i + |sep|..];
      [s[..i]] + rest
  }

  /** `String.join(sep, parts)`. */
  function Join(parts: seq<string>, sep: string): string {
    if |parts| == 0 then []
    else if |parts| == 1 then parts[0]
    else parts[0] + sep + Join(parts[1..], sep)
  }

  /** Drops trailing empty strings, as `String.split` does. */
  function DropTrailingEmpty(parts: seq<string>): (r: seq<string>)
    ensures |r| <= |parts| && r == parts[..|r|]
    ensures forall k :: |r| <= k < |parts| ==> parts[k] == []
    ensures r == [] || r[|r| - 1] != []
  {
    if |parts| > 0 && parts[|parts| - 1] == [] then DropTrailingEmpty(parts[..|parts| - 1])
    else parts
  }

  /** `s.split(sep)` with a literal separator: an input without any match comes
      back whole (so `""` gives `[""]`); otherwise trailing empty pieces go. */
  function JavaSplit(s: string, sep: string): (r: seq<string>)
    requires sep != []
    ensures forall k :: 0 <= k < |r| ==> !Contains(r[k], sep)
  {
    if s == [] then [s] else DropTrailingEmpty(SplitAll(s, sep))
  }

  /** A separator none of whose proper prefixes is also a suffix: an occurrence
      of it cannot overlap a neighbouring one. */
  predicate BorderFree(sep: string) {
    forall k :: 0 < k < |sep| ==> sep[k..] != sep[..|sep| - k]
  }

  /** Two occurrences of a border-free separator never overlap. */
  lemma NoOverlap(s: string, sep: string, j: int, q: int)
    requires BorderFree(sep) && j < q < j + |sep| && MatchAt(s, sep, q)
    ensures !MatchAt(s, sep, j)
  {
    if 0 <= j && j + |sep| <= |s| {
      var k := q - j;
      assert sep[k..] != sep[..|sep| - k];
      assert s[q..q + |sep|][..|sep| - k] == s[q..j + |sep|];
      assert s[j..j + |sep|][k..] == s[q..j + |sep|];
    }
  }

  /** In `p + sep + rest` with no `sep` inside `p`, the first `sep` starts right
      after `p`. */
  lemma FirstSeparator(p: string, sep: string, rest: string)
    requires sep != [] && BorderFree(sep) && !Contains(p, sep)
    ensures IndexOf(p + sep + rest, sep, 0) == |p|
  {
    var s := p + sep + rest;
    assert s[|p|..|p| + |sep|] == sep;
    assert MatchAt(s, sep, |p|);
    forall j | 0 <= j < |p| ensures !MatchAt(s, sep, j) {
      if j + |sep| <= |p| {
        assert p[j..j + |sep|] == s[j..j + |sep|];
        assert !MatchAt(p, sep, j);
      } else {
        NoOverlap(s, sep, j, |p|);
      }
    }
  }

  /** Splitting a join gives the parts back, when the separator cannot overlap
      itself and no part contains it. */
  lemma {:induction false} SplitJoin(parts: seq<string>, sep: string)
    requires sep != [] && BorderFree(sep) && |parts| >= 1
    requires forall k :: 0 <= k < |parts| ==> !Contains(parts[k], sep)
    ensures SplitAll(Join(parts, sep), sep) == parts
  {
    if |parts| > 1 {
      var rest := Join(parts[1..], sep);
      FirstSeparator(parts[0], sep, rest);
      var s := parts[0] + sep + rest;
      assert s[|parts[0]| + |sep|..] == rest;
      SplitJoin(parts[1..], sep);
    }
  }

  /** Every one-character separator is border-free. */
  lemma SingleCharBorderFree(c: char)
    ensures BorderFree([c])
  {
  }

  // ---------------------------------------------------------------------
  // Case mapping (ASCII letters only)
  // ---------------------------------------------------------------------

  function UpperChar(c: char): char {
    if 'a' <= c <= 'z' then (c as int - 32) as char else c
  }

  function LowerChar(c: char): char {
    if 'A' <= c <= 'Z' then (c as int + 32) as char else c
  }

  /** `toUpperCase()` on ASCII letters. */
  function ToUpper(s: string): (r: string)
    ensures |r| == |s| && forall i :: 0 <= i < |s| ==> r[i] == UpperChar(s[i])
  {
    if |s| == 0 then [] else [UpperChar(s[0])] + ToUpper(s[1..])
  }

  /** `toLowerCase()` on ASCII letters. */
  function ToLower(s: string): (r: string)
    ensures |r| == |s| && forall i :: 0 <= i < |s| ==> r[i] == LowerChar(s[i])
  {
    if |s| == 0 then [] else [LowerChar(s[0])] + ToLower(s[1..])
  }

  /** `lit.equalsIgnoreCase(s)` for a literal `lit`; null never matches. */
  predicate EqualsIgnoreCase(lit: string, s: Option<string>) {
    s.Some? && ToUpper(s.value) == ToUpper(lit)
  }

  // ---------------------------------------------------------------------
  // Long.toString and Long.parseLong
  // ---------------------------------------------------------------------

  const LONG_MIN: int := -0x8000_0000_0000_0000
  const LONG_MAX: int := 0x7FFF_FFFF_FFFF_FFFF

  function DigitChar(d: nat): char
    requires d < 10
  {
    ('0' as int + d) as char
  }

  /** Decimal digits of `n`, most significant first, without leading zeros. */
  function NatToString(n: nat): (r: string)
    ensures |r| >= 1 && forall i :: 0 <= i < |r| ==> IsAsciiDigit(r[i])
    ensures |r| > 1 ==> r[0] != '0'
  {
    if n < 10 then [DigitChar(n)] else NatToString(n / 10) + [DigitChar(n % 10)]
  }

  /** `Long.toString(n)` / `String.valueOf(n)` / `%d`. */
  function IntToString(n: int): string {
    if n < 0 then "-" + NatToString(-n) else NatToString(n)
  }

  function DigitOf(c: char): nat
    requires IsAsciiDigit(c)
  {
    c as int - '0' as int
  }

  /** The value of a run of ASCII digits. */
  function DigitsValue(s: string): nat
    requires forall i :: 0 <= i < |s| ==> IsAsciiDigit(s[i])
  {
    if |s| == 0 then 0 else DigitsValue(s[..|s| - 1]) * 10 + DigitOf(s[|s| - 1])
  }

  /** `Long.parseLong(s)`: an optional sign then at least one digit, in range. */
  function ParseLong(s: string): (r: Result<int>)
    ensures r.Ok? ==> LONG_MIN <= r.value <= LONG_MAX
  {
    var neg := |s| > 0 && s[0] == '-';
    var body := if |s| > 0 && (s[0] == '-' || s[0] == '+') then s[1..] else s;
    if |body| == 0 || !(forall i :: 0 <= i < |body| ==> IsAsciiDigit(body[i])) then Err(NumberFormat)
    else
      var v: int := if neg then 0 - DigitsValue(body) as int else DigitsValue(body);
      if LONG_MIN <= v <= LONG_MAX then Ok(v) else Err(NumberFormat)
  }

  lemma {:induction false} NatToStringValue(n: nat)
    ensures DigitsValue(NatToString(n)) == n
  {
    if n >= 10 {
      var s := NatToString(n);
      assert s[..|s| - 1] == NatToString(n / 10);
      NatToStringValue(n / 10);
    }
  }

  /** Every 64-bit value survives `Long.toString` then `Long.parseLong`. */
  lemma ParseLongOfIntToString(n: int)
    requires LONG_MIN <= n <= LONG_MAX
    ensures ParseLong(IntToString(n)) == Ok(n)
  {
    if n < 0 {
      var s := IntToString(n);
      assert s[1..] == NatToString(-n);
      NatToStringValue(-n);
    } else {
      NatToStringValue(n);
    }
  }
}
