/** The class-string rewrite of the after-transform cleanup. Each element's
    class string goes through three global replaces and a trim: first every
    run that starts with `aem-Grid` and reaches up to the next white space (or
    the end) is deleted, then every such run starting with `aem-GridColumn`,
    then every literal occurrence of `responsivegrid`; the result is trimmed.

    A global replace is one left-to-right pass that deletes the leftmost match,
    resumes after it, and never revisits deleted text. A run match is greedy:
    it takes every character up to the next white space. */
module ClassRewrite {
  import opened JsText

  /** A pattern literal of the rewrite: non-empty, without white space. */
  type Word = p: string | p != [] && NoSpace(p) witness "w"

  const AemGrid: Word := "aem-Grid"
  const AemGridColumn: Word := "aem-GridColumn"
  const ResponsiveGrid: Word := "responsivegrid"

  /** The greedy run match: the length of the class token that starts `s`. */
  function TokenLength(s: string): (n: nat)
    ensures n <= |s|
    ensures forall i :: 0 <= i < n ==> !IsSpace(s[i])
    ensures n < |s| ==> IsSpace(s[n])
  {
    if |s| > 0 && !IsSpace(s[0]) then
      var n := 1 + TokenLength(s[1..]);
      assert forall i :: 1 <= i < n ==> s[i] == s[1..][i - 1];
      n
    else 0
  }

  /** Where a run match of `p` at the start of `s` ends. */
  function RunEnd(s: string, p: Word): (e: nat)
    requires p <= s
    ensures |p| <= e <= |s|
    ensures forall i :: |p| <= i < e ==> !IsSpace(s[i])
    ensures e < |s| ==> IsSpace(s[e])
  {
    var n := TokenLength(s[|p|..]);
    assert forall i :: |p| <= i < |p| + n ==> s[i] == s[|p|..][i - |p|];
    |p| + n
  }

  /** A token length is determined by where the first white space is. */
  lemma {:induction false} TokenLengthUnique(s: string, n: nat)
    requires n <= |s|
    requires forall i :: 0 <= i < n ==> !IsSpace(s[i])
    requires n < |s| ==> IsSpace(s[n])
    ensures TokenLength(s) == n
    decreases n
  {
    if n > 0 {
      assert forall i :: 0 <= i < n - 1 ==> s[1..][i] == s[i + 1];
      TokenLengthUnique(s[1..], n - 1);
    }
  }

  /** A global replace of the runs that start with `p`: each match takes
      `p` and every following character up to the next white space. */
  function DeleteRuns(s: string, p: Word): (r: string)
    ensures |r| <= |s|
    ensures Contains(s, p) ==> |r| < |s|
    ensures !Contains(s, p) ==> r == s
    decreases |s|
  {
    if |s| == 0 then []
    else if p <= s then DeleteRuns(s[RunEnd(s, p)..], p)
    else [s[0]] + DeleteRuns(s[1..], p)
  }

  /** A global replace of the literal `p`, a pattern without regular
      expression metacharacters, by nothing. */
  function DeleteLiteral(s: string, p: Word): (r: string)
    ensures |r| <= |s|
    ensures Contains(s, p) ==> |r| < |s|
    ensures !Contains(s, p) ==> r == s
    decreases |s|
  {
    if |s| == 0 then []
    else if p <= s then DeleteLiteral(s[|p|..], p)
    else [s[0]] + DeleteLiteral(s[1..], p)
  }

  /** The new class string of one element. */
  function RewriteClassName(s: string): (r: string)
    ensures IsTrimmed(r)
    ensures |r| <= |s|
  {
    var noGrid := DeleteRuns(s, AemGrid);
    var noColumn := DeleteRuns(noGrid, AemGridColumn);
    var noResponsive := DeleteLiteral(noColumn, ResponsiveGrid);
    Trim(noResponsive)
  }

  /** Text that survives a run deletion, up to the first white space it
      contains, is the start of the input unchanged. */
  lemma {:induction false} PrefixKept(u: string, p: Word, k: nat)
    requires k <= |DeleteRuns(u, p)|
    requires NoSpace(DeleteRuns(u, p)[..k])
    ensures k <= |u| && DeleteRuns(u, p)[..k] == u[..k]
    decreases |u|
  {
    var r := DeleteRuns(u, p);
    if k == 0 || |u| == 0 {
    } else if p <= u {
      RunOutputStartsWithSpace(u, p, k);
      assert false;
    } else {
      var rest := DeleteRuns(u[1..], p);
      assert r == [u[0]] + rest;
      assert rest[..k - 1] == r[1..k];
      PrefixKept(u[1..], p, k - 1);
      assert r[..k] == [u[0]] + rest[..k - 1];
      assert u[..k] == [u[0]] + u[1..][..k - 1];
    }
  }

  /** When the input starts with a match, what follows the deleted run is
      white space (or nothing). */
  lemma RunOutputStartsWithSpace(u: string, p: Word, k: nat)
    requires p <= u
    requires 0 < k <= |DeleteRuns(u, p)|
    ensures !NoSpace(DeleteRuns(u, p)[..k])
  {
    var e := RunEnd(u, p);
    var t := u[e..];
    assert DeleteRuns(u, p) == DeleteRuns(t, p);
    assert t != [] && IsSpace(t[0]);
    assert !(p <= t) by {
      assert p[0] != t[0];
    }
    assert DeleteRuns(t, p)[..k][0] == t[0];
  }

  /** A pattern word that starts the output of a run deletion already
      started its input. */
  lemma PrefixOfOutput(s: string, p: Word, q: Word)
    requires q <= DeleteRuns(s, p)
    ensures q <= s
  {
    var r := DeleteRuns(s, p);
    assert r[..|q|] == q;
    PrefixKept(s, p, |q|);
  }

  /** After the global replace no match is left: the replace cannot build a
      new one out of the text around a deleted run. */
  lemma {:induction false} NoRunsLeft(s: string, p: Word)
    ensures !Contains(DeleteRuns(s, p), p)
    decreases |s|
  {
    var r := DeleteRuns(s, p);
    if |s| == 0 {
    } else if p <= s {
      NoRunsLeft(s[RunEnd(s, p)..], p);
    } else {
      NoRunsLeft(s[1..], p);
      assert r[1..] == DeleteRuns(s[1..], p);
      if p <= r {
        PrefixOfOutput(s, p, p);
      }
    }
  }

  /** A run deletion never creates an occurrence of a word that was absent. */
  lemma {:induction false} NoNewWords(s: string, p: Word, q: Word)
    requires !Contains(s, q)
    ensures !Contains(DeleteRuns(s, p), q)
    decreases |s|, 1
  {
    if |s| == 0 {
    } else if p <= s {
      NoNewWordsMatch(s, p, q);
    } else {
      NoNewWordsKeep(s, p, q);
    }
  }

  lemma {:induction false} NoNewWordsMatch(s: string, p: Word, q: Word)
    requires !Contains(s, q) && p <= s
    ensures !Contains(DeleteRuns(s, p), q)
    decreases |s|, 0
  {
    var e := RunEnd(s, p);
    var t := s[e..];
    if Contains(t, q) {
      ContainsSuffix(s, e, q);
    }
    NoNewWords(t, p, q);
  }

  lemma {:induction false} NoNewWordsKeep(s: string, p: Word, q: Word)
    requires !Contains(s, q) && s != [] && !(p <= s)
    ensures !Contains(DeleteRuns(s, p), q)
    decreases |s|, 0
  {
    var r := DeleteRuns(s, p);
    assert !Contains(s[1..], q);
    NoNewWords(s[1..], p, q);
    assert r[1..] == DeleteRuns(s[1..], p);
    if q <= r {
      PrefixOfOutput(s, p, q);
    }
  }

  /** Once the `aem-Grid` runs are gone no `aem-GridColumn` can be left, so
      the second replace deletes nothing. */
  lemma GridColumnPassDeletesNothing(s: string)
    ensures DeleteRuns(DeleteRuns(s, AemGrid), AemGridColumn) == DeleteRuns(s, AemGrid)
  {
    var noGrid := DeleteRuns(s, AemGrid);
    NoRunsLeft(s, AemGrid);
    if Contains(noGrid, AemGridColumn) {
      ContainsPrefixOfPattern(noGrid, AemGridColumn, AemGrid);
    }
  }

  /** A match inside `a` ends inside `a` when white space follows `a`. */
  lemma RunEndBeforeSpace(a: string, w: char, b: string, p: Word)
    requires IsSpace(w) && p <= a
    ensures p <= a + [w] + b
    ensures RunEnd(a + [w] + b, p) == RunEnd(a, p)
  {
    var s := a + [w] + b;
    assert s[..|p|] == a[..|p|];
    var e := RunEnd(a, p);
    assert forall i :: 0 <= i < e - |p| ==> s[|p|..][i] == a[i + |p|];
    assert e - |p| < |s[|p|..]| && s[|p|..][e - |p|] == s[e];
    assert s[e] == (if e < |a| then a[e] else w);
    TokenLengthUnique(s[|p|..], e - |p|);
  }

  /** A word at the start of `a + [w] + b`, with `w` white space, lies
      within `a`. */
  lemma WordBeforeSpace(a: string, w: char, b: string, p: Word)
    requires IsSpace(w)
    requires p <= a + [w] + b
    ensures p <= a
  {
    var s := a + [w] + b;
    assert |p| <= |a| by {
      assert forall i :: 0 <= i < |p| ==> p[i] == s[i];
      assert s[|a|] == w;
    }
    assert a[..|p|] == s[..|p|];
  }

  /** The run deletion works token by token: text on either side of a
      white-space character is rewritten independently and the white space
      itself is kept. */
  lemma {:induction false} RunsSplitAtSpace(a: string, w: char, b: string, p: Word)
    requires IsSpace(w)
    ensures DeleteRuns(a + [w] + b, p) == DeleteRuns(a, p) + [w] + DeleteRuns(b, p)
    decreases |a|, 1
  {
    if |a| == 0 {
      RunsSplitEmpty(a, w, b, p);
    } else if p <= a {
      RunsSplitMatch(a, w, b, p);
    } else {
      RunsSplitKeep(a, w, b, p);
    }
  }

  lemma RunsSplitEmpty(a: string, w: char, b: string, p: Word)
    requires IsSpace(w) && a == []
    ensures DeleteRuns(a + [w] + b, p) == DeleteRuns(a, p) + [w] + DeleteRuns(b, p)
  {
    var s := a + [w] + b;
    assert s == [w] + b;
    assert !(p <= s) by {
      assert p[0] != w;
    }
    assert s[1..] == b;
  }

  lemma {:induction false} RunsSplitMatch(a: string, w: char, b: string, p: Word)
    requires IsSpace(w) && p <= a
    ensures DeleteRuns(a + [w] + b, p) == DeleteRuns(a, p) + [w] + DeleteRuns(b, p)
    decreases |a|, 0
  {
    var s := a + [w] + b;
    RunEndBeforeSpace(a, w, b, p);
    var e := RunEnd(a, p);
    assert s[e..] == a[e..] + [w] + b;
    assert DeleteRuns(s, p) == DeleteRuns(a[e..] + [w] + b, p);
    assert DeleteRuns(a, p) == DeleteRuns(a[e..], p);
    RunsSplitAtSpace(a[e..], w, b, p);
  }

  lemma {:induction false} RunsSplitKeep(a: string, w: char, b: string, p: Word)
    requires IsSpace(w) && a != [] && !(p <= a)
    ensures DeleteRuns(a + [w] + b, p) == DeleteRuns(a, p) + [w] + DeleteRuns(b, p)
    decreases |a|, 0
  {
    var s := a + [w] + b;
    assert !(p <= s) by {
      if p <= s {
        WordBeforeSpace(a, w, b, p);
      }
    }
    assert s[0] == a[0];
    assert s[1..] == a[1..] + [w] + b;
    assert DeleteRuns(s, p) == [a[0]] + DeleteRuns(a[1..] + [w] + b, p);
    assert DeleteRuns(a, p) == [a[0]] + DeleteRuns(a[1..], p);
    RunsSplitAtSpace(a[1..], w, b, p);
  }

  /** Within one class token the run deletion cuts the token at its first
      match and keeps everything before it. */
  lemma {:induction false} RunsInToken(t: string, p: Word)
    requires NoSpace(t)
    ensures DeleteRuns(t, p) == t[..IndexOf(t, p)]
    decreases |t|
  {
    if |t| == 0 {
    } else if p <= t {
      assert RunEnd(t, p) == |t|;
    } else {
      assert NoSpace(t[1..]);
      RunsInToken(t[1..], p);
      assert t[..IndexOf(t, p)] == [t[0]] + t[1..][..IndexOf(t[1..], p)];
    }
  }

  lemma {:induction false} ContainsInPrefix(s: string, n: nat, p: string)
    requires n <= |s|
    requires Contains(s[..n], p)
    ensures Contains(s, p)
    decreases n
  {
    if p <= s[..n] {
    } else {
      assert s[..n][1..] == s[1..][..n - 1];
      ContainsInPrefix(s[1..], n - 1, p);
    }
  }

  /** The rewrite leaves a class string unchanged exactly when it is trimmed
      and mentions neither `aem-Grid` nor `responsivegrid`. */
  lemma RewriteFixedPoints(s: string)
    ensures RewriteClassName(s) == s <==> IsTrimmed(s) && !Contains(s, AemGrid) && !Contains(s, ResponsiveGrid)
  {
    var noGrid := DeleteRuns(s, AemGrid);
    GridColumnPassDeletesNothing(s);
    if !Contains(s, AemGrid) && !Contains(s, ResponsiveGrid) && IsTrimmed(s) {
      TrimOfTrimmed(s);
    }
  }

  /** Trimming cannot create an occurrence. */
  lemma TrimKeepsAbsence(x: string, q: string)
    requires !Contains(x, q)
    ensures !Contains(Trim(x), q)
  {
    var r := Trim(x);
    var k :| Surrounds(x, k, r);
    assert r == x[k..][..|r|];
    if Contains(r, q) {
      ContainsInPrefix(x[k..], |r|, q);
      ContainsSuffix(x, k, q);
    }
  }

  /** On class strings without `responsivegrid` the rewrite is idempotent. */
  lemma RewriteIdempotent(s: string)
    requires !Contains(s, ResponsiveGrid)
    ensures RewriteClassName(RewriteClassName(s)) == RewriteClassName(s)
  {
    var noGrid := DeleteRuns(s, AemGrid);
    GridColumnPassDeletesNothing(s);
    NoNewWords(s, AemGrid, ResponsiveGrid);
    assert DeleteLiteral(noGrid, ResponsiveGrid) == noGrid;
    var r := RewriteClassName(s);
    assert r == Trim(noGrid);
    NoRunsLeft(s, AemGrid);
    TrimKeepsAbsence(noGrid, AemGrid);
    TrimKeepsAbsence(noGrid, ResponsiveGrid);
    RewriteFixedPoints(r);
  }

  /** A token that is exactly the pattern is deleted whole. */
  lemma WholeTokenDeleted(p: Word)
    ensures DeleteRuns(p, p) == []
  {
    assert p <= p;
    assert RunEnd(p, p) == |p|;
    assert p[|p|..] == [];
  }

  /** A whole-match token followed by a separator is deleted, separator
      kept. */
  lemma TokenThenRest(b: string, p: Word)
    requires !Contains(b, p)
    ensures DeleteRuns(p + [' '] + b, p) == [' '] + b
  {
    assert IsSpace(' ');
    RunsSplitAtSpace(p, ' ', b, p);
    WholeTokenDeleted(p);
    assert DeleteRuns(b, p) == b;
  }

  /** Deleting a token that is a whole match, between two tokens without a
      match, keeps the two separators around it. */
  lemma TokenBetweenDeleted(a: string, b: string, p: Word)
    requires !Contains(a, p) && !Contains(b, p)
    ensures DeleteRuns(a + [' '] + p + [' '] + b, p) == a + [' ', ' '] + b
  {
    var t := p + [' '] + b;
    assert a + [' '] + p + [' '] + b == a + [' '] + t;
    assert DeleteRuns(a + [' '] + t, p) == a + [' '] + ([' '] + b) by {
      assert IsSpace(' ');
      RunsSplitAtSpace(a, ' ', t, p);
      TokenThenRest(b, p);
    }
    assert a + [' '] + ([' '] + b) == a + [' ', ' '] + b;
  }

  /** Deleting a whole `aem-Grid...` token between two other tokens leaves
      both separators: interior white space is not collapsed, so
      `a aem-Grid b` becomes `a  b`. */
  lemma InteriorSpaceKept(a: string, b: string)
    requires a != [] && b != [] && NoSpace(a) && NoSpace(b)
    requires !Contains(a, AemGrid) && !Contains(b, AemGrid)
    requires !Contains(a + [' ', ' '] + b, ResponsiveGrid)
    ensures RewriteClassName(a + [' '] + AemGrid + [' '] + b) == a + [' ', ' '] + b
  {
    var s := a + [' '] + AemGrid + [' '] + b;
    var noGrid := a + [' ', ' '] + b;
    TokenBetweenDeleted(a, b, AemGrid);
    GridColumnPassDeletesNothing(s);
    assert IsTrimmed(noGrid) by {
      assert noGrid[0] == a[0];
      assert noGrid[|noGrid| - 1] == b[|b| - 1];
    }
    TrimOfTrimmed(noGrid);
  }

  /** Deleting a literal leaves a prefix in which no occurrence starts as it
      is. */
  lemma {:induction false} DeleteLiteralKeepsPrefix(u: string, w: string, p: Word)
    requires forall i :: 0 <= i < |u| ==> !(p <= (u + w)[i..])
    ensures DeleteLiteral(u + w, p) == u + DeleteLiteral(w, p)
    decreases |u|
  {
    if |u| == 0 {
      assert u + w == w;
    } else {
      var s := u + w;
      assert DeleteLiteral(s, p) == [u[0]] + DeleteLiteral(u[1..] + w, p) by {
        assert !(p <= s[0..]);
        assert s[0..] == s;
        assert s[1..] == u[1..] + w;
      }
      forall i | 0 <= i < |u| - 1
        ensures !(p <= (u[1..] + w)[i..])
      {
        assert (u[1..] + w)[i..] == s[i + 1..];
      }
      DeleteLiteralKeepsPrefix(u[1..], w, p);
      assert [u[0]] + (u[1..] + DeleteLiteral(w, p)) == u + DeleteLiteral(w, p);
    }
  }

  /** A global replace deletes the leftmost occurrence and carries on after
      it: the text before the occurrence is kept, the occurrence goes, and
      the rest is rewritten on its own. With `DeleteLiteralKeepsPrefix` and
      the no-occurrence case of `DeleteLiteral` this fixes the result on
      every string. */
  lemma DeleteLiteralAtMatch(u: string, w: string, p: Word)
    requires forall i :: 0 <= i < |u| ==> !(p <= (u + p + w)[i..])
    ensures DeleteLiteral(u + p + w, p) == u + DeleteLiteral(w, p)
  {
    assert u + p + w == u + (p + w);
    DeleteLiteralKeepsPrefix(u, p + w, p);
    DeleteLiteralAtStart(w, p);
  }

  /** An occurrence at the very start is deleted whole. */
  lemma DeleteLiteralAtStart(w: string, p: Word)
    ensures DeleteLiteral(p + w, p) == DeleteLiteral(w, p)
  {
    assert p <= p + w;
    assert (p + w)[|p|..] == w;
  }

  /** The class string `aem-responsivegridGrid`. */
  const GridWitness: string := "aem-" + ResponsiveGrid + "Grid"

  lemma WitnessHasNoAemGrid()
    ensures !Contains(GridWitness, AemGrid)
  {
    var u: string := "aem-";
    var w := ResponsiveGrid + "Grid";
    var s := u + w;
    assert s == GridWitness;
    forall i | 0 <= i < |u|
      ensures !(AemGrid <= s[i..])
    {
      if i == 0 {
        MismatchAt(s[i..], AemGrid, 4);
      } else {
        MismatchAt(s[i..], AemGrid, 0);
      }
    }
    assert AemGrid[0] !in w;
    NoContainsWithoutFirstChar(w, AemGrid);
    NoContainsInConcat(u, w, AemGrid);
  }

  lemma WitnessLosesResponsiveGrid()
    ensures DeleteLiteral(GridWitness, ResponsiveGrid) == AemGrid
  {
    var u: string := "aem-";
    var v: string := "Grid";
    var w := ResponsiveGrid + v;
    var s := u + w;
    assert s == GridWitness;
    assert AemGrid == u + v;
    forall i | 0 <= i < |u|
      ensures !(ResponsiveGrid <= s[i..])
    {
      MismatchAt(s[i..], ResponsiveGrid, 0);
    }
    DeleteLiteralKeepsPrefix(u, w, ResponsiveGrid);
    assert ResponsiveGrid <= w;
    assert w[|ResponsiveGrid|..] == v;
    ShortNoContains(v, ResponsiveGrid);
  }

  /** The rewrite is not idempotent: deleting `responsivegrid` from
      `aem-responsivegridGrid` leaves `aem-Grid`, which the next rewrite
      deletes in turn. */
  lemma RewriteNotIdempotent()
    ensures RewriteClassName(GridWitness) == AemGrid
    ensures RewriteClassName(RewriteClassName(GridWitness)) == []
  {
    var s := GridWitness;
    WitnessHasNoAemGrid();
    WitnessLosesResponsiveGrid();
    GridColumnPassDeletesNothing(s);
    assert IsTrimmed(AemGrid);
    TrimOfTrimmed(AemGrid);
    WholeTokenDeleted(AemGrid);
  }
}
