/**
 * Character classes and the Python `str` operations the report parser and the
 * sweep rely on: `str.find`, slicing `s[k:]` with a possibly negative `k`, and
 * `str(n)` for a non-negative integer.
 */
module Text {

  /** `\d` restricted to ASCII. */
  predicate IsDigit(c: char) {
    '0' <= c <= '9'
  }

  /** `\s` restricted to ASCII: the characters Python's `str.isspace` accepts below 128
      (tab, line feed, vertical tab, form feed, carriage return, 0x1C-0x1F, space). */
  predicate IsSpace(c: char) {
    c == ' ' || '\t' <= c <= '\r' || '\U{1C}' <= c <= '\U{1F}'
  }

  /** `pat` occurs in `s` starting at position `i`. */
  predicate PrefixAt(s: string, pat: string, i: int) {
    0 <= i && i + |pat| <= |s| && forall j :: 0 <= j < |pat| ==> s[i + j] == pat[j]
  }

  /** Python's `s.find(needle)`: the lowest index where `needle` occurs, or -1. */
  function Find(s: string, needle: string): (r: int)
    ensures -1 <= r <= |s|
    ensures r >= 0 ==> PrefixAt(s, needle, r)
    ensures forall i :: 0 <= i && (r == -1 || i < r) ==> !PrefixAt(s, needle, i)
  {
    FindFrom(s, needle, 0)
  }

  function FindFrom(s: string, needle: string, from: nat): (r: int)
    ensures r == -1 || from <= r <= |s|
    ensures r >= 0 ==> PrefixAt(s, needle, r)
    ensures forall i :: from <= i && (r == -1 || i < r) ==> !PrefixAt(s, needle, i)
    decreases |s| + 1 - from
  {
    if from + |needle| > |s| then -1
    else if PrefixAt(s, needle, from) then from
    else FindFrom(s, needle, from + 1)
  }

  /** Python's slice `s[k:]`: a negative `k` counts from the end and is clamped at 0. */
  function SliceFrom(s: string, k: int): (r: string)
    ensures |r| <= |s| && r == s[|s| - |r|..]
    ensures 0 <= k <= |s| ==> r == s[k..]
    ensures k < 0 ==> |r| == if -k <= |s| then -k else |s|
    ensures k > |s| ==> r == []
  {
    if k >= 0 then (if k <= |s| then s[k..] else [])
    else if -k <= |s| then s[|s| + k..]
    else s
  }

  /** No line break in s[x..y]: the span a `.` repetition may cover. */
  predicate NoNewline(s: string, x: int, y: int)
    requires 0 <= x && y <= |s|
  {
    forall j :: x <= j < y ==> s[j] != '\n'
  }

  /** End of the maximal digit run starting at `i`. */
  function DigitsEnd(s: string, i: nat): (j: nat)
    requires i <= |s|
    ensures i <= j <= |s|
    ensures forall m :: i <= m < j ==> IsDigit(s[m])
    ensures j == |s| || !IsDigit(s[j])
    decreases |s| - i
  {
    if i < |s| && IsDigit(s[i]) then DigitsEnd(s, i + 1) else i
  }

  /** End of the maximal whitespace run starting at `i`. */
  function SpacesEnd(s: string, i: nat): (j: nat)
    requires i <= |s|
    ensures i <= j <= |s|
    ensures forall m :: i <= m < j ==> IsSpace(s[m])
    ensures j == |s| || !IsSpace(s[j])
    decreases |s| - i
  {
    if i < |s| && IsSpace(s[i]) then SpacesEnd(s, i + 1) else i
  }

  /** Position of the first line feed at or after `i`, or |s| when there is none. */
  function LineEnd(s: string, i: nat): (j: nat)
    requires i <= |s|
    ensures i <= j <= |s|
    ensures NoNewline(s, i, j)
    ensures j == |s| || s[j] == '\n'
    decreases |s| - i
  {
    if i < |s| && s[i] != '\n' then LineEnd(s, i + 1) else i
  }

  /** A digit run from `i` reaches at least to any `j` with only digits before it. */
  lemma DigitsEndCovers(s: string, i: nat, j: nat)
    requires i <= j <= |s|
    requires forall m :: i <= m < j ==> IsDigit(s[m])
    ensures j <= DigitsEnd(s, i)
    decreases j - i
  {
    if i < j {
      DigitsEndCovers(s, i + 1, j);
    }
  }

  /** A whitespace run from `i` reaches at least to any `j` with only whitespace before it. */
  lemma SpacesEndCovers(s: string, i: nat, j: nat)
    requires i <= j <= |s|
    requires forall m :: i <= m < j ==> IsSpace(s[m])
    ensures j <= SpacesEnd(s, i)
    decreases j - i
  {
    if i < j {
      SpacesEndCovers(s, i + 1, j);
    }
  }

  /** A stretch without line feeds from `i` ends at or before the end of the line. */
  lemma LineEndCovers(s: string, i: nat, j: nat)
    requires i <= j <= |s|
    requires NoNewline(s, i, j)
    ensures j <= LineEnd(s, i)
    decreases j - i
  {
    if i < j {
      LineEndCovers(s, i + 1, j);
    }
  }

  function DigitChar(d: nat): (c: char)
    requires d < 10
    ensures IsDigit(c)
  {
    ('0' as int + d) as char
  }

  /** The value of a string of decimal digits. */
  function DigitsValue(s: string): (n: nat)
    requires forall i :: 0 <= i < |s| ==> IsDigit(s[i])
    ensures n == 0 <==> forall i :: 0 <= i < |s| ==> s[i] == '0'
  {
    if |s| == 0 then 0
    else
      assert IsDigit(s[|s| - 1]);
      DigitsValue(s[..|s| - 1]) * 10 + (s[|s| - 1] as int - '0' as int)
  }

  /** Python's `str(n)` for a non-negative integer: its decimal digits, without leading zeros. */
  function NatToString(n: nat): (r: string)
    ensures |r| > 0
    ensures forall i :: 0 <= i < |r| ==> IsDigit(r[i])
    ensures r[0] == '0' <==> n == 0
    ensures DigitsValue(r) == n
  {
    if n < 10 then [DigitChar(n)]
    else
      var prefix := NatToString(n / 10);
      var r := prefix + [DigitChar(n % 10)];
      assert r[..|r| - 1] == prefix;
      r
  }

  /** Two numbers print the same only if they are equal. */
  lemma NatToStringInjective(m: nat, n: nat)
    requires NatToString(m) == NatToString(n)
    ensures m == n
  {
  }
}
