/**
 * Character classes and the two Python string methods the glossary tools
 * lean on: `str.strip()` (with no argument) and `str.lower()`.
 */
module Text {

  /** Python's `str.isspace()`: the characters removed by `str.strip()` and
      matched by the regular-expression class `\s` on text patterns. */
  predicate IsSpace(c: char)
  {
    || c == ' '
    || '\t' <= c <= '\r'
    || '\U{1C}' <= c <= '\U{1F}'
    || c == '\U{85}' || c == '\U{A0}' || c == '\U{1680}'
    || '\U{2000}' <= c <= '\U{200A}'
    || c == '\U{2028}' || c == '\U{2029}' || c == '\U{202F}'
    || c == '\U{205F}' || c == '\U{3000}'
  }

  predicate AllSpace(s: string)
  {
    forall k | 0 <= k < |s| :: IsSpace(s[k])
  }

  /** No whitespace at either end. */
  predicate Trimmed(s: string)
  {
    s == [] || (!IsSpace(s[0]) && !IsSpace(s[|s| - 1]))
  }

  /** Length of the leading whitespace run. */
  function LeadingSpace(s: string): (n: nat)
    ensures n <= |s|
    ensures AllSpace(s[..n])
    ensures n < |s| ==> !IsSpace(s[n])
    decreases |s|
  {
    if s == [] || !IsSpace(s[0]) then 0
    else
      var n := 1 + LeadingSpace(s[1..]);
      assert s[..n] == [s[0]] + s[1..][..n - 1];
      n
  }

  /** Python `s.strip()`: whitespace is cut off the front, then off the
      back, one character at a time. */
  function Strip(s: string): (r: string)
    ensures Trimmed(r)
    ensures |r| <= |s|
    ensures Trimmed(s) ==> r == s
    decreases |s|
  {
    if s != [] && IsSpace(s[0]) then Strip(s[1..])
    else if s != [] && IsSpace(s[|s| - 1]) then Strip(s[..|s| - 1])
    else s
  }

  /** A slice of the text without its first character, with whitespace
      around it, is a slice of the text when that character is a space. */
  lemma SliceAfterSpace(s: string, i: nat, j: nat)
    requires s != [] && IsSpace(s[0])
    requires i <= j <= |s| - 1 && AllSpace(s[1..][..i]) && AllSpace(s[1..][j..])
    ensures s[1..][i..j] == s[i + 1..j + 1]
    ensures AllSpace(s[..i + 1]) && AllSpace(s[j + 1..])
  {
    assert forall k | 1 <= k < i + 1 :: s[k] == s[1..][..i][k - 1];
    assert forall k | j + 1 <= k < |s| :: s[k] == s[1..][j..][k - j - 1];
  }

  /** The same for a slice of the text without its last character. */
  lemma SliceBeforeSpace(s: string, i: nat, j: nat)
    requires s != [] && IsSpace(s[|s| - 1])
    requires i <= j <= |s| - 1 && AllSpace(s[..|s| - 1][..i]) && AllSpace(s[..|s| - 1][j..])
    ensures s[..|s| - 1][i..j] == s[i..j]
    ensures AllSpace(s[..i]) && AllSpace(s[j..])
  {
    assert forall k | 0 <= k < i :: s[k] == s[..|s| - 1][..i][k];
    assert forall k | j <= k < |s| - 1 :: s[k] == s[..|s| - 1][j..][k - j];
  }

  /** Stripping only cuts whitespace off the two ends: the result is a
      slice of `s` with nothing but whitespace before and after it, and
      none at either of its own ends; this fixes the result. */
  lemma {:induction false} StripIsSlice(s: string)
    ensures Trimmed(Strip(s))
    ensures exists i, j | 0 <= i <= j <= |s| ::
      Strip(s) == s[i..j] && AllSpace(s[..i]) && AllSpace(s[j..])
    decreases |s|
  {
    if s != [] && IsSpace(s[0]) {
      StripIsSlice(s[1..]);
      var i, j :| 0 <= i <= j <= |s[1..]| && Strip(s[1..]) == s[1..][i..j]
        && AllSpace(s[1..][..i]) && AllSpace(s[1..][j..]);
      SliceAfterSpace(s, i, j);
      assert Strip(s) == s[i + 1..j + 1];
    } else if s != [] && IsSpace(s[|s| - 1]) {
      StripIsSlice(s[..|s| - 1]);
      var i, j :| 0 <= i <= j <= |s[..|s| - 1]| && Strip(s[..|s| - 1]) == s[..|s| - 1][i..j]
        && AllSpace(s[..|s| - 1][..i]) && AllSpace(s[..|s| - 1][j..]);
      SliceBeforeSpace(s, i, j);
      assert Strip(s) == s[i..j];
    } else {
      assert Strip(s) == s[0..|s|] && s[..0] == [] && s[|s|..] == [];
    }
  }

  /** Python `str.lower()` on ASCII letters; other characters are kept. */
  function LowerChar(c: char): (d: char)
    ensures 'A' <= c <= 'Z' ==> d as int == c as int + 32
    ensures !('A' <= c <= 'Z') ==> d == c
    ensures !('A' <= d <= 'Z')
  {
    if 'A' <= c <= 'Z' then (c as int + 32) as char else c
  }

  function ToLower(s: string): (r: string)
    ensures |r| == |s|
    ensures forall k | 0 <= k < |s| :: r[k] == LowerChar(s[k])
  {
    seq(|s|, k requires 0 <= k < |s| => LowerChar(s[k]))
  }
}
