/**
 * Scanners that do what the decoder's regular expressions do:
 *   - `re.search(r"<tag.*?>(.*?)</tag>", s, re.DOTALL | re.IGNORECASE)` — FindElement;
 *   - `re.findall` of the same pattern — FindAll;
 *   - `re.sub(r"<.*?>", "", s)` — StripTags (no DOTALL: `.` stops at a newline).
 * Case-insensitivity is ASCII: the patterns hold only ASCII letters.
 */
module Scan {
  import opened Text
  import opened Optional

  /** The lower-case pattern `pat` occurs at index `i` of `s`, ignoring
      case: from character `j` of the pattern on. */
  predicate MatchesFrom(s: string, i: nat, pat: string, j: nat)
    decreases |pat| - j
  {
    j >= |pat| || (i + j < |s| && LowerChar(s[i + j]) == pat[j] && MatchesFrom(s, i, pat, j + 1))
  }

  /** The lower-case pattern `pat` occurs at index `i` of `s`, ignoring case. */
  predicate MatchesAt(s: string, i: nat, pat: string)
  {
    i + |pat| <= |s| && MatchesFrom(s, i, pat, 0)
  }

  /** Index of the first case-insensitive occurrence of `pat` in `s` at or
      after index `i`. */
  function FindFrom(s: string, pat: string, i: nat): (r: Option<nat>)
    ensures r.Some? ==> i <= r.value && r.value + |pat| <= |s| && MatchesAt(s, r.value, pat)
    decreases |s| + 1 - i
  {
    if i + |pat| > |s| then None
    else if MatchesAt(s, i, pat) then Some(i)
    else FindFrom(s, pat, i + 1)
  }

  /** No occurrence from `i` on comes before the one FindFrom returns, and
      FindFrom misses none: whenever `pat` occurs at `k >= i`, FindFrom
      returns `k` or an earlier index. */
  lemma {:induction false} FindLeast(s: string, pat: string, i: nat, k: nat)
    requires i <= k && MatchesAt(s, k, pat)
    ensures FindFrom(s, pat, i).Some? && FindFrom(s, pat, i).value <= k
    decreases k - i
  {
    if !MatchesAt(s, i, pat) {
      FindLeast(s, pat, i + 1, k);
    }
  }

  // ----- searching through a concatenation ------------------------------

  /** A pattern does not occur where one of its characters is missed. */
  lemma {:induction false} NoMatchFrom(s: string, i: nat, pat: string, j: nat, m: nat)
    requires j <= m < |pat| && (i + m >= |s| || LowerChar(s[i + m]) != pat[m])
    ensures !MatchesFrom(s, i, pat, j)
    decreases m - j
  {
    if j < m {
      NoMatchFrom(s, i, pat, j + 1, m);
    }
  }

  lemma NoMatchAt(s: string, i: nat, pat: string, m: nat)
    requires m < |pat| && (i + m >= |s| || LowerChar(s[i + m]) != pat[m])
    ensures !MatchesAt(s, i, pat)
  {
    NoMatchFrom(s, i, pat, 0, m);
  }

  lemma {:induction false} MatchesFromAppend(a: string, b: string, k: nat, pat: string, j: nat)
    ensures MatchesFrom(a + b, |a| + k, pat, j) <==> MatchesFrom(b, k, pat, j)
    decreases |pat| - j
  {
    if j < |pat| {
      MatchesFromAppend(a, b, k, pat, j + 1);
      if k + j < |b| {
        assert (a + b)[|a| + k + j] == b[k + j];
      }
    }
  }

  /** Searching the second part of a concatenation is searching it alone. */
  lemma {:induction false} FindFromAppend(a: string, b: string, pat: string, k: nat)
    ensures FindFrom(a + b, pat, |a| + k) == Shift(FindFrom(b, pat, k), |a|)
    decreases |b| + 1 - k
  {
    if k + |pat| <= |b| {
      MatchesFromAppend(a, b, k, pat, 0);
      if !MatchesAt(b, k, pat) {
        FindFromAppend(a, b, pat, k + 1);
      }
    }
  }

  /** `a` has no `<`. */
  predicate NoTag(a: string)
    decreases |a|
  {
    a == [] || (a[0] != '<' && NoTag(a[1..]))
  }

  /** `a` starts with a tag and has no other `<`. */
  predicate OneTag(a: string)
  {
    |a| > 0 && a[0] == '<' && NoTag(a[1..])
  }

  lemma {:induction false} NoTagAfter(a: string, i: nat)
    requires i <= |a|
    requires forall k | i <= k < |a| :: a[k] != '<'
    ensures NoTag(a[i..])
    decreases |a| - i
  {
    if i < |a| {
      NoTagAfter(a, i + 1);
      assert a[i..][1..] == a[i + 1..];
    }
  }

  /** No upper-case ASCII letter from index `i` on. */
  predicate LowerFrom(a: string, i: nat)
    decreases |a| - i
  {
    i >= |a| || (!('A' <= a[i] <= 'Z') && LowerFrom(a, i + 1))
  }

  lemma {:induction false} LowerFromAt(a: string, i: nat, k: nat)
    requires LowerFrom(a, i) && i <= k < |a|
    ensures !('A' <= a[k] <= 'Z')
    decreases k - i
  {
    if i < k {
      LowerFromAt(a, i + 1, k);
    }
  }

  lemma {:induction false} NoTagAppend(a: string, b: string)
    requires NoTag(a) && NoTag(b)
    ensures NoTag(a + b)
    decreases |a|
  {
    if a == [] {
      assert a + b == b;
    } else {
      assert (a + b)[1..] == a[1..] + b;
      NoTagAppend(a[1..], b);
    }
  }

  lemma OneTagAppend(a: string, b: string)
    requires OneTag(a) && NoTag(b)
    ensures OneTag(a + b)
  {
    assert (a + b)[1..] == a[1..] + b;
    NoTagAppend(a[1..], b);
  }

  /** Text without `<` holds no occurrence of a tag pattern: the search
      goes straight through it. */
  lemma {:induction false} SkipPlain(a: string, b: string, pat: string)
    requires |pat| > 0 && pat[0] == '<'
    requires NoTag(a)
    ensures FindFrom(a + b, pat, 0) == Shift(FindFrom(b, pat, 0), |a|)
    decreases |a|
  {
    if a == [] {
      assert a + b == b;
    } else {
      var s := a + b;
      var t := a[1..] + b;
      assert s == [a[0]] + t;
      NoMatchAt(s, 0, pat, 0);
      FindFromAppend([a[0]], t, pat, 0);
      SkipPlain(a[1..], b, pat);
    }
  }

  /** A piece that starts with a tag other than `pat` (it differs from
      `pat` at index `m`) and has no other `<` is gone through as well. */
  lemma SkipTag(a: string, b: string, pat: string, m: nat)
    requires |pat| > 0 && pat[0] == '<'
    requires OneTag(a)
    requires m < |a| && m < |pat| && LowerChar(a[m]) != pat[m]
    ensures FindFrom(a + b, pat, 0) == Shift(FindFrom(b, pat, 0), |a|)
  {
    var s := a + b;
    var t := a[1..] + b;
    assert s == [a[0]] + t;
    NoMatchAt(s, 0, pat, m);
    FindFromAppend([a[0]], t, pat, 0);
    SkipPlain(a[1..], b, pat);
  }

  lemma {:induction false} MatchesOwnPrefix(pat: string, b: string, j: nat)
    requires LowerFrom(pat, j)
    ensures MatchesFrom(pat + b, 0, pat, j)
    decreases |pat| - j
  {
    if j < |pat| {
      MatchesOwnPrefix(pat, b, j + 1);
      assert (pat + b)[j] == pat[j];
    }
  }

  /** A lower-case pattern is found at the start of a text that starts
      with it. */
  lemma FoundAtStart(pat: string, b: string)
    requires LowerFrom(pat, 0)
    ensures FindFrom(pat + b, pat, 0) == Some(0)
  {
    MatchesOwnPrefix(pat, b, 0);
  }

  // ----- elements ---------------------------------------------------------

  /** The opening and closing tag patterns of the element named `tag`. */
  function OpenTag(tag: string): string { "<" + tag }
  function CloseTag(tag: string): string { "</" + tag + ">" }

  /** Where a match of `<tag.*?>(.*?)</tag>` sits in a string: the opening
      `<tag`, the first `>` the lazy `.*?` stops at, and the closing tag. */
  datatype Element = Element(start: nat, gt: nat, close: nat)

  /** `e` is a match of `open.*?>(.*?)close` in `s`. */
  predicate IsElement(s: string, open: string, close: string, e: Element)
  {
    && MatchesAt(s, e.start, open)
    && e.start + |open| <= e.gt < e.close
    && MatchesAt(s, e.gt, ">")
    && MatchesAt(s, e.close, close)
  }

  /** The order in which a backtracking matcher with lazy quantifiers tries
      matches: leftmost start first, then the shortest head, then the
      shortest content. */
  predicate TriedFirst(e: Element, f: Element)
  {
    || e.start < f.start
    || (e.start == f.start && e.gt < f.gt)
    || (e.start == f.start && e.gt == f.gt && e.close <= f.close)
  }

  /** The element pattern `open.*?>(.*?)close`, searched from index `from`
      with DOTALL and IGNORECASE: the first `open`, the first `>` after it,
      the first `close` after that. */
  function FindElementFrom(s: string, open: string, close: string, from: nat): (r: Option<Element>)
    ensures r.Some? ==> from <= r.value.start && IsElement(s, open, close, r.value)
    ensures r.Some? ==> r.value.close + |close| <= |s|
  {
    match FindFrom(s, open, from)
    case None => None
    case Some(i) =>
      match FindFrom(s, ">", i + |open|)
      case None => None
      case Some(j) =>
        match FindFrom(s, close, j + 1)
        case None => None
        case Some(k) => Some(Element(i, j, k))
  }

  /** `re.search(r"<tag.*?>(.*?)</tag>", s, re.DOTALL | re.IGNORECASE)`
      with `open` = OpenTag(tag) and `close` = CloseTag(tag). */
  function FindElement(s: string, open: string, close: string): (r: Option<Element>)
    ensures r.Some? ==> IsElement(s, open, close, r.value) && r.value.close + |close| <= |s|
  {
    FindElementFrom(s, open, close, 0)
  }

  /** Every match of the element pattern from `from` on lies no earlier, in
      the TriedFirst order, than the one FindElementFrom returns; in
      particular it finds one whenever there is one. */
  lemma FindElementFirst(s: string, open: string, close: string, from: nat, e: Element)
    requires from <= e.start && IsElement(s, open, close, e)
    ensures FindElementFrom(s, open, close, from).Some?
    ensures TriedFirst(FindElementFrom(s, open, close, from).value, e)
  {
    FindLeast(s, open, from, e.start);
    var i := FindFrom(s, open, from).value;
    FindLeast(s, ">", i + |open|, e.gt);
    var j := FindFrom(s, ">", i + |open|).value;
    FindLeast(s, close, j + 1, e.close);
  }

  lemma {:induction false} MatchesFromPrefix(s: string, r: string, i: nat, pat: string, j: nat)
    requires i + |pat| <= |s|
    ensures MatchesFrom(s + r, i, pat, j) <==> MatchesFrom(s, i, pat, j)
    decreases |pat| - j
  {
    if j < |pat| {
      MatchesFromPrefix(s, r, i, pat, j + 1);
      assert (s + r)[i + j] == s[i + j];
    }
  }

  /** An occurrence found in a text is still the first one once more text
      is appended. */
  lemma {:induction false} FindFromPrefix(s: string, r: string, pat: string, i: nat)
    requires FindFrom(s, pat, i).Some?
    ensures FindFrom(s + r, pat, i) == FindFrom(s, pat, i)
    decreases |s| + 1 - i
  {
    MatchesFromPrefix(s, r, i, pat, 0);
    if !MatchesAt(s, i, pat) {
      FindFromPrefix(s, r, pat, i + 1);
    }
  }

  lemma FindElementPrefix(s: string, r: string, open: string, close: string, from: nat)
    requires FindElementFrom(s, open, close, from).Some?
    ensures FindElementFrom(s + r, open, close, from) == FindElementFrom(s, open, close, from)
  {
    var i := FindFrom(s, open, from).value;
    FindFromPrefix(s, r, open, from);
    var j := FindFrom(s, ">", i + |open|).value;
    FindFromPrefix(s, r, ">", i + |open|);
    FindFromPrefix(s, r, close, j + 1);
  }

  /** `re.findall(r"<tag.*?>(.*?)</tag>", s, re.DOTALL | re.IGNORECASE)`
      from index `from`: the contents of successive non-overlapping
      matches, left to right, each search starting where the last match
      ended. */
  function FindAllFrom(s: string, open: string, close: string, from: nat): seq<string>
    decreases |s| - from
  {
    match FindElementFrom(s, open, close, from)
    case None => []
    case Some(e) =>
      [s[e.gt + 1..e.close]] + FindAllFrom(s, open, close, e.close + |close|)
  }

  function FindAll(s: string, open: string, close: string): seq<string>
  {
    FindAllFrom(s, open, close, 0)
  }

  /** findall reports nothing exactly when no match of the element
      pattern starts at or after `from`. */
  lemma FindAllFromNone(s: string, open: string, close: string, from: nat)
    ensures FindAllFrom(s, open, close, from) == [] <==>
      !exists e: Element :: from <= e.start && IsElement(s, open, close, e)
  {
    if FindElementFrom(s, open, close, from).None? {
      forall e: Element | from <= e.start && IsElement(s, open, close, e) ensures false {
        FindElementFirst(s, open, close, from, e);
      }
    }
  }

  /** `e` is the match of the element pattern a backtracking matcher
      tries first among those starting at or after `from`. */
  ghost predicate FirstMatch(s: string, open: string, close: string, from: nat, e: Element)
  {
    && from <= e.start && IsElement(s, open, close, e)
    && forall f: Element | from <= f.start && IsElement(s, open, close, f) :: TriedFirst(e, f)
  }

  /** Otherwise what it reports is, first, the content of the match tried
      first, then what the search finds from the end of that match's
      closing tag on. */
  lemma FindAllFromFirst(s: string, open: string, close: string, from: nat, e: Element)
    requires FirstMatch(s, open, close, from, e)
    ensures e.close + |close| <= |s|
    ensures FindAllFrom(s, open, close, from)
      == [s[e.gt + 1..e.close]] + FindAllFrom(s, open, close, e.close + |close|)
  {
    FindElementFirst(s, open, close, from, e);
    var found := FindElementFrom(s, open, close, from).value;
    assert TriedFirst(e, found);
    TriedFirstAntisymmetric(e, found);
    FindAllFromStep(s, open, close, from);
  }

  /** Two matches each tried no later than the other are the same match. */
  lemma TriedFirstAntisymmetric(e: Element, f: Element)
    requires TriedFirst(e, f) && TriedFirst(f, e)
    ensures e == f
  {
  }

  lemma FindAllFromStep(s: string, open: string, close: string, from: nat)
    requires FindElementFrom(s, open, close, from).Some?
    ensures var e := FindElementFrom(s, open, close, from).value;
      FindAllFrom(s, open, close, from)
      == [s[e.gt + 1..e.close]] + FindAllFrom(s, open, close, e.close + |close|)
  {
  }

  // ----- tag stripping ----------------------------------------------------

  /** How far `.*?>` reaches without DOTALL: the index in `t` of the first
      `>`, provided no newline comes before it. */
  function TagEnd(t: string): (r: Option<nat>)
    ensures r.Some? ==> r.value < |t| && t[r.value] == '>'
    decreases |t|
  {
    if t == [] || t[0] == '\n' then None
    else if t[0] == '>' then Some(0)
    else Shift(TagEnd(t[1..]), 1)
  }

  /** `re.sub(r"<.*?>", "", s)`: every `<` that has a `>` after it on the
      same line is deleted together with everything up to that `>`; a `<`
      without one is kept and scanning goes on after it. */
  function StripTags(s: string): (r: string)
    ensures |r| <= |s|
    decreases |s|
  {
    if s == [] then []
    else if s[0] == '<' && TagEnd(s[1..]).Some? then StripTags(s[TagEnd(s[1..]).value + 2..])
    else [s[0]] + StripTags(s[1..])
  }

  /** Text before the first `<` is kept as it is. */
  lemma {:induction false} StripTagsPlain(a: string, b: string)
    requires '<' !in a
    ensures StripTags(a + b) == a + StripTags(b)
    decreases |a|
  {
    if a != [] {
      assert (a + b)[0] == a[0] && (a + b)[1..] == a[1..] + b;
      StripTagsPlain(a[1..], b);
      assert StripTags(a + b) == [a[0]] + StripTags(a[1..] + b);
      assert a == [a[0]] + a[1..];
    } else {
      assert a + b == b;
    }
  }

  /** The first `>` of a line ends the tag that runs up to it. */
  lemma {:induction false} TagEndAt(m: string, b: string)
    requires '>' !in m && '\n' !in m
    ensures TagEnd(m + ">" + b) == Some(|m|)
    decreases |m|
  {
    if m != [] {
      assert (m + ">" + b)[1..] == m[1..] + ">" + b;
      TagEndAt(m[1..], b);
    }
  }

  /** A line with no `>` on it holds no tag end. */
  lemma {:induction false} TagEndNone(m: string, b: string)
    requires '>' !in m && '\n' !in m && (b == [] || b[0] == '\n')
    ensures TagEnd(m + b).None?
    decreases |m|
  {
    if m != [] {
      assert (m + b)[1..] == m[1..] + b;
      TagEndNone(m[1..], b);
    }
  }

  /** A tag — `<`, then anything but `>` or a newline, then `>` — is
      deleted, and the text after it is stripped. */
  lemma StripTagsTag(m: string, b: string)
    requires '>' !in m && '\n' !in m
    ensures StripTags("<" + m + ">" + b) == StripTags(b)
  {
    var s := "<" + m + ">" + b;
    assert s[1..] == m + ">" + b;
    TagEndAt(m, b);
    assert s[|m| + 2..] == b;
  }

  /** The rest of a line with no `>` on it is kept as it is, every `<` on
      it included. */
  lemma {:induction false} StripTagsUnclosed(m: string, b: string)
    requires '>' !in m && '\n' !in m && (b == [] || b[0] == '\n')
    ensures StripTags(m + b) == m + StripTags(b)
    decreases |m|
  {
    if m != [] {
      assert (m + b)[0] == m[0] && (m + b)[1..] == m[1..] + b;
      TagEndNone(m[1..], b);
      StripTagsUnclosed(m[1..], b);
      assert StripTags(m + b) == [m[0]] + StripTags(m[1..] + b);
      assert m == [m[0]] + m[1..];
    } else {
      assert m + b == b;
    }
  }

  /** No `<` is followed by a `>` on the same line: nothing is left for
      StripTags to delete. */
  predicate TagFree(s: string)
  {
    forall i | 0 <= i < |s| && s[i] == '<' :: TagEnd(s[i + 1..]).None?
  }

  lemma {:induction false} TagEndNoneKept(t: string)
    requires TagEnd(t).None?
    ensures TagEnd(StripTags(t)).None?
    decreases |t|
  {
    if t != [] && t[0] != '\n' {
      assert t[0] != '>';
      assert TagEnd(t[1..]).None?;
      TagEndNoneKept(t[1..]);
      assert StripTags(t)[1..] == StripTags(t[1..]);
    }
  }

  /** Tag stripping leaves no tag behind. */
  lemma {:induction false} StripTagsTagFree(s: string)
    ensures TagFree(StripTags(s))
    decreases |s|
  {
    if s == [] {
    } else if s[0] == '<' && TagEnd(s[1..]).Some? {
      StripTagsTagFree(s[TagEnd(s[1..]).value + 2..]);
    } else {
      var u := StripTags(s[1..]);
      var r := StripTags(s);
      StripTagsTagFree(s[1..]);
      assert r == [s[0]] + u;
      if s[0] == '<' {
        TagEndNoneKept(s[1..]);
        assert r[1..] == u;
      }
      forall i | 1 <= i < |r| && r[i] == '<' ensures TagEnd(r[i + 1..]).None? {
        assert r[i] == u[i - 1] && r[i + 1..] == u[i..];
      }
    }
  }

  /** Text without tags is left unchanged, so stripping twice is stripping
      once. */
  lemma {:induction false} StripTagsKeepsTagFree(s: string)
    requires TagFree(s)
    ensures StripTags(s) == s
    decreases |s|
  {
    if s != [] {
      if s[0] == '<' {
        assert TagEnd(s[0 + 1..]).None?;
      }
      assert TagFree(s[1..]) by {
        forall i | 0 <= i < |s[1..]| && s[1..][i] == '<' ensures TagEnd(s[1..][i + 1..]).None? {
          assert s[1..][i + 1..] == s[i + 2..];
        }
      }
      StripTagsKeepsTagFree(s[1..]);
    }
  }

  lemma StripTagsIdempotent(s: string)
    ensures StripTags(StripTags(s)) == StripTags(s)
  {
    StripTagsTagFree(s);
    StripTagsKeepsTagFree(StripTags(s));
  }
}
