/**
 * The whitespace normalisation the decoder applies to the joined
 * paragraphs of a cell: runs of spaces and tabs become one space
 * (`re.sub(r"[ \t]+", " ", s)`), every newline followed by whitespace that
 * holds another newline becomes one newline (`re.sub(r"\n\s*\n", "\n", s)`),
 * and the result is trimmed.
 */
module Whitespace {
  import opened Text
  import opened Optional

  // ----- `re.sub(r"[ \t]+", " ", s)` --------------------------------------

  predicate IsBlank(c: char) { c == ' ' || c == '\t' }

  /** Length of the run of spaces and tabs that `s` starts with. */
  function BlankRun(s: string): (n: nat)
    ensures 0 < n <= |s| || (n == 0 && (s == [] || !IsBlank(s[0])))
    ensures forall k | 0 <= k < n :: IsBlank(s[k])
    ensures n < |s| ==> !IsBlank(s[n])
    decreases |s|
  {
    if s == [] || !IsBlank(s[0]) then 0 else 1 + BlankRun(s[1..])
  }

  /** No two spaces in a row. */
  predicate NoDoubleSpace(s: string)
  {
    forall i | 0 < i < |s| :: !(s[i - 1] == ' ' && s[i] == ' ')
  }

  /** Every run of spaces and tabs becomes one space: no tab is left, no
      two spaces are adjacent, and the text starts with a space exactly
      when it started with a space or a tab. */
  function CollapseBlanks(s: string): (r: string)
    ensures '\t' !in r
    ensures NoDoubleSpace(r)
    ensures s != [] ==> r != [] && (r[0] == ' ' <==> IsBlank(s[0]))
    ensures s == [] ==> r == []
    decreases |s|
  {
    if s == [] then []
    else if IsBlank(s[0]) then
      var t := s[BlankRun(s)..];
      var r := " " + CollapseBlanks(t);
      assert t != [] ==> !IsBlank(t[0]);
      r
    else [s[0]] + CollapseBlanks(s[1..])
  }

  /** The text with every space and tab deleted. */
  function NonBlank(s: string): (r: string)
    ensures |r| <= |s|
  {
    if s == [] then []
    else (if IsBlank(s[0]) then [] else [s[0]]) + NonBlank(s[1..])
  }

  lemma {:induction false} NonBlankRun(s: string, n: nat)
    requires n <= |s| && forall k | 0 <= k < n :: IsBlank(s[k])
    ensures NonBlank(s) == NonBlank(s[n..])
    decreases n
  {
    if n > 0 {
      NonBlankRun(s[1..], n - 1);
      assert s[1..][n - 1..] == s[n..];
    }
  }

  /** Collapsing deletes and inserts blanks only: everything else is kept,
      in order. */
  lemma {:induction false} CollapseBlanksKeepsWords(s: string)
    ensures NonBlank(CollapseBlanks(s)) == NonBlank(s)
    decreases |s|
  {
    if s != [] {
      if IsBlank(s[0]) {
        var t := s[BlankRun(s)..];
        CollapseBlanksKeepsWords(t);
        NonBlankRun(s, BlankRun(s));
        assert (" " + CollapseBlanks(t))[1..] == CollapseBlanks(t);
      } else {
        CollapseBlanksKeepsWords(s[1..]);
        assert ([s[0]] + CollapseBlanks(s[1..]))[1..] == CollapseBlanks(s[1..]);
      }
    }
  }

  /** Text with no tab and no two spaces in a row is left as it is. */
  lemma {:induction false} CollapseBlanksIdentity(s: string)
    requires '\t' !in s && NoDoubleSpace(s)
    ensures CollapseBlanks(s) == s
    decreases |s|
  {
    if s != [] {
      NoTabSuffix(s, 1);
      NoDoubleSpaceSuffix(s, 1);
      CollapseBlanksIdentity(s[1..]);
      if IsBlank(s[0]) {
        assert s[0] == ' ' && (|s| > 1 ==> s[1] != ' ' && s[1] != '\t');
        assert BlankRun(s) == 1;
      }
    }
  }

  /** Text without spaces and tabs is kept as it is. */
  lemma {:induction false} CollapseBlanksWord(w: string, rest: string)
    requires forall k | 0 <= k < |w| :: !IsBlank(w[k])
    ensures CollapseBlanks(w + rest) == w + CollapseBlanks(rest)
    decreases |w|
  {
    if w == [] {
      assert w + rest == rest;
    } else {
      assert (w + rest)[0] == w[0] && (w + rest)[1..] == w[1..] + rest;
      CollapseBlanksWord(w[1..], rest);
      assert w == [w[0]] + w[1..];
    }
  }

  /** A whole run of spaces and tabs becomes one space. */
  lemma CollapseBlanksRun(run: string, rest: string)
    requires run != [] && forall k | 0 <= k < |run| :: IsBlank(run[k])
    requires rest == [] || !IsBlank(rest[0])
    ensures CollapseBlanks(run + rest) == " " + CollapseBlanks(rest)
  {
    var s := run + rest;
    assert forall k | 0 <= k < |run| :: s[k] == run[k];
    assert |run| < |s| ==> s[|run|] == rest[0];
    BlankRunIs(s, |run|);
    assert s[|run|..] == rest;
  }

  lemma {:induction false} BlankRunIs(s: string, n: nat)
    requires n <= |s| && forall k | 0 <= k < n :: IsBlank(s[k])
    requires n < |s| ==> !IsBlank(s[n])
    ensures BlankRun(s) == n
    decreases n
  {
    if n > 0 {
      BlankRunIs(s[1..], n - 1);
    }
  }

  // ----- `re.sub(r"\n\s*\n", "\n", s)` -------------------------------------

  /** The text after a newline does not begin with whitespace that holds
      another newline: no `\n\s*\n` starts at that newline. */
  predicate StartsClean(u: string)
    decreases |u|
  {
    u == [] || !IsSpace(u[0]) || (u[0] != '\n' && StartsClean(u[1..]))
  }

  /** No two newlines are separated by whitespace only. */
  predicate NoBlankGap(s: string)
  {
    forall i | 0 <= i < |s| && s[i] == '\n' :: StartsClean(s[i + 1..])
  }

  /** Index of the last newline of `u`, if any. */
  function LastNewline(u: string): (r: Option<nat>)
    ensures r.Some? ==> r.value < |u| && u[r.value] == '\n'
    ensures r.Some? ==> forall k | r.value < k < |u| :: u[k] != '\n'
    ensures r.None? ==> forall k | 0 <= k < |u| :: u[k] != '\n'
    decreases |u|
  {
    if u == [] then None
    else if u[|u| - 1] == '\n' then Some(|u| - 1)
    else LastNewline(u[..|u| - 1])
  }

  /** Where the greedy `\s*\n` that follows a newline ends in the text `t`
      after it: at the last newline of the whitespace run `t` starts with. */
  function GapEnd(t: string): (r: Option<nat>)
    ensures r.Some? ==> r.value < LeadingSpace(t) && t[r.value] == '\n'
    ensures r.Some? ==> forall k | r.value < k < LeadingSpace(t) :: t[k] != '\n'
    ensures r.None? ==> forall k | 0 <= k < LeadingSpace(t) :: t[k] != '\n'
  {
    var n := LeadingSpace(t);
    var r := LastNewline(t[..n]);
    assert forall k | 0 <= k < n :: t[..n][k] == t[k];
    r
  }

  /** Scans left to right; at each newline that starts a match of
      `\n\s*\n`, the whole match becomes one newline and the scan goes on
      after it. The first character is kept, and no tab and no double
      space is introduced. */
  function CollapseGaps(s: string): (r: string)
    ensures s != [] ==> r != [] && r[0] == s[0]
    ensures |r| <= |s|
    decreases |s|
  {
    if s == [] then []
    else if s[0] != '\n' then [s[0]] + CollapseGaps(s[1..])
    else
      match GapEnd(s[1..])
      case None => "\n" + CollapseGaps(s[1..])
      case Some(l) => "\n" + CollapseGaps(s[l + 2..])
  }

  /** The text with every whitespace character deleted. */
  function NonSpace(s: string): (r: string)
    ensures |r| <= |s|
  {
    if s == [] then []
    else (if IsSpace(s[0]) then [] else [s[0]]) + NonSpace(s[1..])
  }

  lemma {:induction false} NonSpaceRun(s: string, n: nat)
    requires n <= |s| && forall k | 0 <= k < n :: IsSpace(s[k])
    ensures NonSpace(s) == NonSpace(s[n..])
    decreases n
  {
    if n > 0 {
      NonSpaceRun(s[1..], n - 1);
      assert s[1..][n - 1..] == s[n..];
    }
  }

  /** Gap collapsing deletes whitespace only: everything else is kept, in
      order. */
  lemma {:induction false} CollapseGapsKeepsText(s: string)
    ensures NonSpace(CollapseGaps(s)) == NonSpace(s)
    decreases |s|
  {
    if s != [] {
      var k := if s[0] != '\n' then 1 else match GapEnd(s[1..]) case None => 1 case Some(l) => l + 2;
      var u := CollapseGaps(s[k..]);
      assert CollapseGaps(s) == [s[0]] + u;
      assert ([s[0]] + u)[1..] == u;
      CollapseGapsKeepsText(s[k..]);
      if k > 1 {
        forall j | 0 <= j < k - 1 ensures IsSpace(s[1..][j]) {
          assert s[1..][j] == s[1..][..LeadingSpace(s[1..])][j];
        }
        NonSpaceRun(s[1..], k - 1);
        assert s[1..][k - 1..] == s[k..];
      }
    }
  }

  /** A text that starts clean has no newline in its leading whitespace. */
  lemma {:induction false} StartsCleanNoGap(t: string)
    requires StartsClean(t)
    ensures GapEnd(t).None?
    decreases |t|
  {
    if t != [] && IsSpace(t[0]) {
      StartsCleanNoGap(t[1..]);
      assert LeadingSpace(t) == 1 + LeadingSpace(t[1..]);
      forall k | 0 <= k < LeadingSpace(t) ensures t[k] != '\n' {
        if k > 0 {
          assert t[k] == t[1..][k - 1];
        }
      }
    }
  }

  /** A line without a newline is kept as it is. */
  lemma {:induction false} CollapseGapsLine(w: string, rest: string)
    requires '\n' !in w
    ensures CollapseGaps(w + rest) == w + CollapseGaps(rest)
    decreases |w|
  {
    if w == [] {
      assert w + rest == rest;
    } else {
      assert (w + rest)[0] == w[0] && (w + rest)[1..] == w[1..] + rest;
      assert w[0] != '\n';
      assert CollapseGaps(w + rest) == [w[0]] + CollapseGaps(w[1..] + rest);
      CollapseGapsLine(w[1..], rest);
      assert w == [w[0]] + w[1..];
    }
  }

  /** A newline whose following text starts clean is kept. */
  lemma CollapseGapsNewline(rest: string)
    requires StartsClean(rest)
    ensures CollapseGaps("\n" + rest) == "\n" + CollapseGaps(rest)
  {
    assert ("\n" + rest)[1..] == rest;
    StartsCleanNoGap(rest);
  }

  /** A newline, whitespace, and the last newline before the text starts
      clean again become a single newline. */
  lemma CollapseGapsGap(g: string, rest: string)
    requires AllSpace(g) && StartsClean(rest)
    ensures CollapseGaps("\n" + g + "\n" + rest) == "\n" + CollapseGaps(rest)
  {
    var s := "\n" + g + "\n" + rest;
    assert s[0] == '\n' && s[1..] == g + "\n" + rest;
    GapEndAt(g, rest);
    assert s[|g| + 2..] == rest;
    assert CollapseGaps(s) == "\n" + CollapseGaps(s[|g| + 2..]);
  }

  lemma GapEndAt(g: string, rest: string)
    requires AllSpace(g) && StartsClean(rest)
    ensures GapEnd(g + "\n" + rest) == Some(|g|)
  {
    var t := g + "\n" + rest;
    StartsCleanNoGap(rest);
    LeadingSpaceAfter(g + "\n", rest);
    assert t[|g|] == '\n';
    forall k | |g| < k < LeadingSpace(t) ensures t[k] != '\n' {
      assert t[k] == rest[k - |g| - 1];
    }
  }

  lemma {:induction false} LeadingSpaceAfter(p: string, q: string)
    requires AllSpace(p)
    ensures LeadingSpace(p + q) == |p| + LeadingSpace(q)
    decreases |p|
  {
    if p == [] {
      assert p + q == q;
    } else {
      assert (p + q)[0] == p[0] && (p + q)[1..] == p[1..] + q;
      assert AllSpace(p[1..]) by {
        assert forall k | 0 <= k < |p[1..]| :: p[1..][k] == p[k + 1];
      }
      LeadingSpaceAfter(p[1..], q);
    }
  }

  /** Text without a blank gap is left as it is. */
  lemma {:induction false} CollapseGapsIdentity(s: string)
    requires NoBlankGap(s)
    ensures CollapseGaps(s) == s
    decreases |s|
  {
    if s != [] {
      NoBlankGapTail(s);
      CollapseGapsIdentity(s[1..]);
      if s[0] == '\n' {
        assert StartsClean(s[0 + 1..]);
        StartsCleanNoGap(s[1..]);
        assert CollapseGaps(s) == "\n" + CollapseGaps(s[1..]);
      } else {
        assert CollapseGaps(s) == [s[0]] + CollapseGaps(s[1..]);
      }
      assert s == [s[0]] + s[1..];
    }
  }

  lemma NoBlankGapTail(s: string)
    requires s != [] && NoBlankGap(s)
    ensures NoBlankGap(s[1..])
  {
    forall i | 0 <= i < |s| - 1 && s[1..][i] == '\n' ensures StartsClean(s[1..][i + 1..]) {
      assert s[1..][i + 1..] == s[i + 2..] && s[i + 1] == '\n';
    }
  }

  /** The whitespace normalisation applied to the joined paragraphs. */
  function Normalise(text: string): (r: string)
    ensures Trimmed(r)
  {
    Strip(CollapseGaps(CollapseBlanks(text)))
  }

  // ----- what the substitutions leave behind --------------------------------

  lemma NoTabSuffix(s: string, k: nat)
    requires '\t' !in s && k <= |s|
    ensures '\t' !in s[k..]
  {
    assert forall j | 0 <= j < |s| - k :: s[k..][j] == s[k + j];
  }

  lemma NoDoubleSpaceSuffix(s: string, k: nat)
    requires NoDoubleSpace(s) && k <= |s|
    ensures NoDoubleSpace(s[k..])
  {
    forall i | 0 < i < |s| - k ensures !(s[k..][i - 1] == ' ' && s[k..][i] == ' ') {
      assert s[k..][i - 1] == s[k + i - 1] && s[k..][i] == s[k + i];
    }
  }

  /** Gap collapsing deletes whitespace only after a newline, so it brings
      no tab and no two spaces together. */
  lemma {:induction false} CollapseGapsKeeps(s: string)
    ensures '\t' !in s ==> '\t' !in CollapseGaps(s)
    ensures NoDoubleSpace(s) ==> NoDoubleSpace(CollapseGaps(s))
    decreases |s|
  {
    if s != [] {
      var r := CollapseGaps(s);
      var k := if s[0] != '\n' then 1 else match GapEnd(s[1..]) case None => 1 case Some(l) => l + 2;
      var u := CollapseGaps(s[k..]);
      assert r == [s[0]] + u;
      CollapseGapsKeeps(s[k..]);
      if '\t' !in s {
        NoTabSuffix(s, k);
      }
      if NoDoubleSpace(s) {
        NoDoubleSpaceSuffix(s, k);
        forall i | 0 < i < |r| ensures !(r[i - 1] == ' ' && r[i] == ' ') {
          if i == 1 {
            assert r[1] == s[k];
            assert k == 1 || r[0] == '\n';
          } else {
            assert r[i - 1] == u[i - 2] && r[i] == u[i - 1];
          }
        }
      }
    }
  }

  /** A text whose first `m` characters are no newlines, followed by a
      non-space or by nothing, starts clean. */
  lemma {:induction false} StartsCleanWhen(u: string, m: nat)
    requires m <= |u|
    requires forall k | 0 <= k < m :: u[k] != '\n'
    requires m < |u| ==> !IsSpace(u[m])
    ensures StartsClean(u)
    decreases m
  {
    if u != [] && IsSpace(u[0]) {
      assert m > 0;
      StartsCleanWhen(u[1..], m - 1);
    }
  }

  /** Gap collapsing keeps a text's opening up to its first newline. */
  lemma {:induction false} CollapseGapsPrefix(t: string, m: nat)
    requires m <= |t|
    requires forall k | 0 <= k < m :: t[k] != '\n'
    ensures |CollapseGaps(t)| >= m && CollapseGaps(t)[..m] == t[..m]
    ensures m < |t| ==> |CollapseGaps(t)| > m && CollapseGaps(t)[m] == t[m]
    decreases m
  {
    if m > 0 {
      CollapseGapsPrefix(t[1..], m - 1);
      assert CollapseGaps(t) == [t[0]] + CollapseGaps(t[1..]);
    }
  }

  /** After a newline that gap collapsing keeps, the text starts clean. */
  lemma CleanAfterGap(t: string, m: nat)
    requires m <= |t|
    requires forall k | 0 <= k < m :: t[k] != '\n'
    requires m < |t| ==> !IsSpace(t[m])
    ensures StartsClean(CollapseGaps(t))
  {
    var u := CollapseGaps(t);
    CollapseGapsPrefix(t, m);
    forall k | 0 <= k < m ensures u[k] != '\n' {
      assert u[k] == u[..m][k] == t[..m][k];
    }
    StartsCleanWhen(u, m);
  }

  /** One more character in front keeps the property, when a newline in
      front is followed by a clean start. */
  lemma NoBlankGapCons(c: char, u: string)
    requires NoBlankGap(u)
    requires c == '\n' ==> StartsClean(u)
    ensures NoBlankGap([c] + u)
  {
    var r := [c] + u;
    forall i | 0 <= i < |r| && r[i] == '\n' ensures StartsClean(r[i + 1..]) {
      if i > 0 {
        assert r[i] == u[i - 1] && r[i + 1..] == u[i..];
      } else {
        assert r[1..] == u;
      }
    }
  }

  /** What follows a newline once its gap is collapsed starts clean. */
  lemma GapStartsClean(t: string)
    ensures var k := match GapEnd(t) case None => 0 case Some(l) => l + 1;
      k <= |t| && StartsClean(CollapseGaps(t[k..]))
  {
    var n := LeadingSpace(t);
    match GapEnd(t)
    case None =>
      assert t[0..] == t;
      CleanAfterGap(t, n);
    case Some(l) =>
      var rest := t[l + 1..];
      forall j | 0 <= j < n - l - 1 ensures rest[j] != '\n' {
        assert rest[j] == t[l + 1 + j];
      }
      assert n - l - 1 < |rest| ==> rest[n - l - 1] == t[n];
      CleanAfterGap(rest, n - l - 1);
  }

  /** Gap collapsing leaves no two newlines separated by whitespace only. */
  lemma {:induction false} CollapseGapsNoBlankGap(s: string)
    ensures NoBlankGap(CollapseGaps(s))
    decreases |s|
  {
    if s != [] {
      var t := s[1..];
      var k := if s[0] != '\n' then 1 else match GapEnd(t) case None => 1 case Some(l) => l + 2;
      var u := CollapseGaps(s[k..]);
      assert CollapseGaps(s) == [s[0]] + u;
      CollapseGapsNoBlankGap(s[k..]);
      if s[0] == '\n' {
        GapStartsClean(t);
        assert s[k..] == t[k - 1..];
      }
      NoBlankGapCons(s[0], u);
    }
  }

  lemma {:induction false} StartsCleanPrefix(u: string, k: nat)
    requires StartsClean(u) && k <= |u|
    ensures StartsClean(u[..k])
    decreases k
  {
    if k > 0 && IsSpace(u[0]) {
      assert u[..k][1..] == u[1..][..k - 1];
      StartsCleanPrefix(u[1..], k - 1);
    }
  }

  /** The three properties survive cutting a character off either end. */
  lemma ShapeSurvivesCut(s: string, a: nat, b: nat)
    requires a <= b <= |s| && b - a + 1 >= |s|
    ensures '\t' !in s ==> '\t' !in s[a..b]
    ensures NoDoubleSpace(s) ==> NoDoubleSpace(s[a..b])
    ensures NoBlankGap(s) ==> NoBlankGap(s[a..b])
  {
    var t := s[a..b];
    assert forall j | 0 <= j < |t| :: t[j] == s[a + j];
    if NoBlankGap(s) {
      forall i | 0 <= i < |t| && t[i] == '\n' ensures StartsClean(t[i + 1..]) {
        assert t[i + 1..] == s[a + i + 1..][..b - a - i - 1];
        StartsCleanPrefix(s[a + i + 1..], b - a - i - 1);
      }
    }
  }

  /** Trimming keeps the three properties. */
  lemma {:induction false} StripKeeps(s: string)
    ensures '\t' !in s ==> '\t' !in Strip(s)
    ensures NoDoubleSpace(s) ==> NoDoubleSpace(Strip(s))
    ensures NoBlankGap(s) ==> NoBlankGap(Strip(s))
    decreases |s|
  {
    if s != [] && IsSpace(s[0]) {
      ShapeSurvivesCut(s, 1, |s|);
      StripKeeps(s[1..]);
    } else if s != [] && IsSpace(s[|s| - 1]) {
      ShapeSurvivesCut(s, 0, |s| - 1);
      StripKeeps(s[..|s| - 1]);
    }
  }

  /** What the normalisation promises: no tab, no two spaces in a row, no
      two newlines with only whitespace between them, and no whitespace at
      either end. */
  lemma NormaliseShape(text: string)
    ensures '\t' !in Normalise(text)
    ensures NoDoubleSpace(Normalise(text))
    ensures NoBlankGap(Normalise(text))
    ensures Trimmed(Normalise(text))
  {
    var b := CollapseBlanks(text);
    CollapseGapsKeeps(b);
    CollapseGapsNoBlankGap(b);
    StripKeeps(CollapseGaps(b));
  }
}
