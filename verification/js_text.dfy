/** The string operations of JavaScript that the importer relies on:
    the `\s` character class, `String.prototype.trim`, the global replace of
    white-space runs by one space, and plain substring search. */
module JsText {

  /** JavaScript's white space: the `\s` class of regular expressions, which is
      also exactly the set `trim` removes (WhiteSpace and LineTerminator). */
  predicate IsSpace(c: char) {
    if c <= ' ' then c == ' ' || '\t' <= c <= '\r'
    else if c < '\U{00A0}' then false
    else
      || c == '\U{00A0}' || c == '\U{1680}' || '\U{2000}' <= c <= '\U{200A}'
      || c == '\U{2028}' || c == '\U{2029}' || c == '\U{202F}' || c == '\U{205F}'
      || c == '\U{3000}' || c == '\U{FEFF}'
  }

  predicate NoSpace(s: string) {
    forall i :: 0 <= i < |s| ==> !IsSpace(s[i])
  }

  /** Every character of `s[lo..hi]` is white space. */
  predicate SpaceBetween(s: string, lo: int, hi: int)
    requires 0 <= lo <= hi <= |s|
  {
    forall i :: lo <= i < hi ==> IsSpace(s[i])
  }

  predicate StartsWithSpace(s: string) {
    |s| > 0 && IsSpace(s[0])
  }

  predicate EndsWithSpace(s: string) {
    |s| > 0 && IsSpace(s[|s| - 1])
  }

  /** What `trim` guarantees of its result. */
  predicate IsTrimmed(s: string) {
    !StartsWithSpace(s) && !EndsWithSpace(s)
  }

  /** No two white-space characters are adjacent. */
  predicate NoDoubleSpace(s: string) {
    forall i, j :: 0 <= i < |s| && 0 <= j < |s| && j == i + 1 ==> !(IsSpace(s[i]) && IsSpace(s[j]))
  }

  /** Every white-space character is the plain space U+0020. */
  predicate OnlyPlainSpace(s: string) {
    forall i :: 0 <= i < |s| ==> IsSpace(s[i]) ==> s[i] == ' '
  }

  /** What trimming and then collapsing white space guarantee of a result. */
  predicate IsNormalized(s: string) {
    IsTrimmed(s) && NoDoubleSpace(s) && OnlyPlainSpace(s)
  }

  /** The non-white-space characters of `s`, in order: the visible content. */
  function NonSpace(s: string): (r: string)
    ensures |r| <= |s|
  {
    if |s| == 0 then []
    else if IsSpace(s[0]) then NonSpace(s[1..])
    else [s[0]] + NonSpace(s[1..])
  }

  /** The length of the white-space run that starts `s`. */
  function LeadingSpace(s: string): (n: nat)
    ensures n <= |s|
    ensures SpaceBetween(s, 0, n)
    ensures n < |s| ==> !IsSpace(s[n])
  {
    if |s| > 0 && IsSpace(s[0]) then
      var n := 1 + LeadingSpace(s[1..]);
      assert forall i :: 1 <= i < n ==> s[i] == s[1..][i - 1];
      n
    else 0
  }

  /** The length of the white-space run that ends `s`. */
  function TrailingSpace(s: string): (n: nat)
    ensures n <= |s|
    ensures SpaceBetween(s, |s| - n, |s|)
    ensures n < |s| ==> !IsSpace(s[|s| - n - 1])
  {
    if |s| > 0 && IsSpace(s[|s| - 1]) then
      var n := 1 + TrailingSpace(s[..|s| - 1]);
      assert forall i :: |s| - n <= i < |s| - 1 ==> s[i] == s[..|s| - 1][i];
      n
    else 0
  }

  /** `s` is `r` with the all-space `s[..k]` before it and an all-space
      remainder after it. */
  predicate Surrounds(s: string, k: int, r: string) {
    && 0 <= k <= |s| - |r|
    && s[k..k + |r|] == r
    && SpaceBetween(s, 0, k)
    && SpaceBetween(s, k + |r|, |s|)
  }

  /** `String.prototype.trim`: the result is `s` less an all-space prefix and
      an all-space suffix, and it neither starts nor ends with white space. */
  function Trim(s: string): (r: string)
    ensures IsTrimmed(r)
    ensures |r| <= |s|
    ensures exists k :: Surrounds(s, k, r)
  {
    var lead := LeadingSpace(s);
    if lead == |s| then
      assert Surrounds(s, |s|, []);
      []
    else
      var trail := TrailingSpace(s);
      assert lead + trail < |s| by {
        assert !IsSpace(s[lead]);
      }
      var r := s[lead..|s| - trail];
      assert Surrounds(s, lead, r);
      r
  }

  /** A global replace of white-space runs by one space: every maximal run
      of white space becomes one plain space; nothing else changes. */
  function CollapseSpace(s: string): (r: string)
    ensures NoDoubleSpace(r)
    ensures OnlyPlainSpace(r)
    ensures StartsWithSpace(r) <==> StartsWithSpace(s)
    ensures r == [] <==> s == []
    decreases |s|
  {
    if |s| == 0 then []
    else if IsSpace(s[0]) then
      [' '] + CollapseSpace(s[LeadingSpace(s)..])
    else
      [s[0]] + CollapseSpace(s[1..])
  }

  /** Collapsing keeps white space at the end if and only if there was some. */
  lemma {:induction false} CollapseKeepsEnd(s: string)
    ensures EndsWithSpace(CollapseSpace(s)) <==> EndsWithSpace(s)
    decreases |s|
  {
    if |s| > 0 {
      var n := if IsSpace(s[0]) then LeadingSpace(s) else 1;
      var t := s[n..];
      var c := if IsSpace(s[0]) then ' ' else s[0];
      assert CollapseSpace(s) == [c] + CollapseSpace(t);
      CollapseKeepsEnd(t);
      if t == [] {
        assert IsSpace(c) <==> IsSpace(s[|s| - 1]) by {
          assert IsSpace(s[0]) ==> SpaceBetween(s, 0, |s|);
        }
        EndOfCons(c, CollapseSpace(t));
      } else {
        EndOfCons(c, CollapseSpace(t));
        EndOfCons(s[0], s[1..]);
        assert t[|t| - 1] == s[|s| - 1];
      }
    }
  }

  /** The last character of `[c] + u`. */
  lemma EndOfCons(c: char, u: string)
    ensures EndsWithSpace([c] + u) <==> if u == [] then IsSpace(c) else EndsWithSpace(u)
  {
    if u != [] {
      assert ([c] + u)[|u|] == u[|u| - 1];
    }
  }

  /** Collapsing keeps every visible character, in order. */
  lemma {:induction false} CollapseKeepsContent(s: string)
    ensures NonSpace(CollapseSpace(s)) == NonSpace(s)
    decreases |s|
  {
    if |s| > 0 {
      if IsSpace(s[0]) {
        var t := s[LeadingSpace(s)..];
        CollapseKeepsContent(t);
        NonSpaceSkipsLeading(s);
        assert ([' '] + CollapseSpace(t))[1..] == CollapseSpace(t);
      } else {
        CollapseKeepsContent(s[1..]);
        assert ([s[0]] + CollapseSpace(s[1..]))[1..] == CollapseSpace(s[1..]);
      }
    }
  }

  /** Leading white space contributes nothing visible. */
  lemma {:induction false} NonSpaceSkipsLeading(s: string)
    ensures NonSpace(s[LeadingSpace(s)..]) == NonSpace(s)
  {
    if |s| > 0 && IsSpace(s[0]) {
      NonSpaceSkipsLeading(s[1..]);
      assert s[1..][LeadingSpace(s[1..])..] == s[LeadingSpace(s)..];
    }
  }

  /** Trimming followed by collapsing white space, as the hero sidebar
      applies it to every contact item. */
  function Normalize(s: string): (r: string)
    ensures IsNormalized(r)
    ensures NonSpace(r) == NonSpace(s)
  {
    NonSpaceOfTrim(s);
    CollapseKeepsEnd(Trim(s));
    CollapseKeepsContent(Trim(s));
    CollapseSpace(Trim(s))
  }

  lemma {:induction false} NonSpaceOfAllSpace(s: string)
    requires SpaceBetween(s, 0, |s|)
    ensures NonSpace(s) == []
  {
    if |s| > 0 {
      assert forall i :: 0 <= i < |s| - 1 ==> s[1..][i] == s[i + 1];
      NonSpaceOfAllSpace(s[1..]);
    }
  }

  /** Trimming removes white space only. */
  lemma NonSpaceOfTrim(s: string)
    ensures NonSpace(Trim(s)) == NonSpace(s)
  {
    var r := Trim(s);
    var k :| Surrounds(s, k, r);
    NonSpaceOfSurrounds(s, k, r);
  }

  /** Cutting white space off both ends keeps every visible character. */
  lemma NonSpaceOfSurrounds(s: string, k: int, r: string)
    requires Surrounds(s, k, r)
    ensures NonSpace(r) == NonSpace(s)
  {
    var pre, post := s[..k], s[k + |r|..];
    assert s == pre + r + post by {
      assert s == s[..k] + s[k..k + |r|] + s[k + |r|..];
    }
    forall i | 0 <= i < |pre|
      ensures IsSpace(pre[i])
    {
      assert pre[i] == s[i];
    }
    forall i | 0 <= i < |post|
      ensures IsSpace(post[i])
    {
      assert post[i] == s[k + |r| + i];
    }
    NonSpaceOfSurrounded(pre, r, post);
  }

  /** White space on either side adds no visible character. */
  lemma NonSpaceOfSurrounded(pre: string, r: string, post: string)
    requires SpaceBetween(pre, 0, |pre|) && SpaceBetween(post, 0, |post|)
    ensures NonSpace(pre + r + post) == NonSpace(r)
  {
    NonSpaceOfConcat(pre + r, post);
    NonSpaceOfConcat(pre, r);
    NonSpaceOfAllSpace(pre);
    NonSpaceOfAllSpace(post);
  }

  lemma {:induction false} NonSpaceOfConcat(a: string, b: string)
    ensures NonSpace(a + b) == NonSpace(a) + NonSpace(b)
  {
    if |a| == 0 {
      assert a + b == b;
    } else {
      assert (a + b)[0] == a[0];
      assert (a + b)[1..] == a[1..] + b;
      NonSpaceOfConcat(a[1..], b);
    }
  }

  /** `trim` leaves a string that is already trimmed as it is. */
  lemma {:induction false} TrimOfTrimmed(s: string)
    requires IsTrimmed(s)
    ensures Trim(s) == s
  {
  }

  /** Collapsing leaves a string with single plain spaces as it is. */
  lemma {:induction false} CollapseOfCollapsed(s: string)
    requires NoDoubleSpace(s) && OnlyPlainSpace(s)
    ensures CollapseSpace(s) == s
    decreases |s|
  {
    if |s| > 0 {
      var t := s[1..];
      TailStaysCollapsed(s);
      CollapseOfCollapsed(t);
      CollapseFirst(s);
      var head := if IsSpace(s[0]) then [' '] else [s[0]];
      assert head == [s[0]];
      assert CollapseSpace(s) == head + t;
      assert s == [s[0]] + t;
    }
  }

  lemma TailStaysCollapsed(s: string)
    requires |s| > 0 && NoDoubleSpace(s) && OnlyPlainSpace(s)
    ensures NoDoubleSpace(s[1..]) && OnlyPlainSpace(s[1..])
    ensures IsSpace(s[0]) ==> !StartsWithSpace(s[1..]) && s[0] == ' '
  {
    assert forall i :: 0 <= i < |s| - 1 ==> s[1..][i] == s[i + 1];
    if |s| > 1 {
      assert !(IsSpace(s[0]) && IsSpace(s[1]));
    }
  }

  /** One step of the collapse when a white-space character is alone. */
  lemma CollapseFirst(s: string)
    requires |s| > 0
    requires IsSpace(s[0]) ==> !StartsWithSpace(s[1..])
    ensures CollapseSpace(s) == (if IsSpace(s[0]) then [' '] else [s[0]]) + CollapseSpace(s[1..])
  {
    if IsSpace(s[0]) {
      assert LeadingSpace(s) == 1;
    }
  }

  /** The line normalisation is idempotent. */
  lemma NormalizeIdempotent(s: string)
    ensures Normalize(Normalize(s)) == Normalize(s)
  {
    var n := Normalize(s);
    TrimOfTrimmed(n);
    CollapseOfCollapsed(n);
  }

  /** A normalised string is its own normalisation, and only normalised
      strings are. */
  lemma NormalizeFixedPoints(s: string)
    ensures Normalize(s) == s <==> IsNormalized(s)
  {
    if IsNormalized(s) {
      TrimOfTrimmed(s);
      CollapseOfCollapsed(s);
    }
  }

  /** The white-space run at the front of `s` ends at the first other
      character, whatever follows it. */
  lemma LeadingSpaceUnique(s: string, k: nat)
    requires k <= |s| && SpaceBetween(s, 0, k) && (k < |s| ==> !IsSpace(s[k]))
    ensures LeadingSpace(s) == k
  {
  }

  /** A word is copied as it is, and the collapse goes on after it. */
  lemma {:induction false} CollapseAfterWord(a: string, b: string)
    requires NoSpace(a)
    ensures CollapseSpace(a + b) == a + CollapseSpace(b)
    decreases |a|
  {
    if |a| == 0 {
      assert a + b == b;
    } else {
      NoSpaceTail(a);
      var s := a + b;
      assert s[0] == a[0];
      assert s[1..] == a[1..] + b;
      CollapseOfVisibleStart(s);
      CollapseAfterWord(a[1..], b);
      ConsAssoc(a[0], a[1..], CollapseSpace(b));
      assert a == [a[0]] + a[1..];
    }
  }

  lemma NoSpaceTail(a: string)
    requires a != [] && NoSpace(a)
    ensures NoSpace(a[1..])
  {
    assert forall i :: 0 <= i < |a| - 1 ==> a[1..][i] == a[i + 1];
  }

  lemma ConsAssoc(c: char, x: string, y: string)
    ensures [c] + (x + y) == ([c] + x) + y
  {
  }

  /** A visible first character is copied. */
  lemma CollapseOfVisibleStart(s: string)
    requires |s| > 0 && !IsSpace(s[0])
    ensures CollapseSpace(s) == [s[0]] + CollapseSpace(s[1..])
  {
  }

  /** A whole run of white space becomes one plain space. */
  lemma CollapseSpaceRun(w: string, b: string)
    requires w != [] && SpaceBetween(w, 0, |w|) && !StartsWithSpace(b)
    ensures CollapseSpace(w + b) == [' '] + CollapseSpace(b)
  {
    var s := w + b;
    assert forall i :: 0 <= i < |w| ==> s[i] == w[i];
    assert |w| < |s| ==> s[|w|] == b[0];
    LeadingSpaceUnique(s, |w|);
    assert s[|w|..] == b;
  }

  /** Collapsing white space turns a run of white space between two parts
      into exactly one plain space and collapses each part on its own. With
      `CollapseAfterWord` this pins the collapse on every string: it is an
      alternation of words and runs. */
  lemma {:induction false} CollapseSplit(a: string, w: string, b: string)
    requires !EndsWithSpace(a) && w != [] && SpaceBetween(w, 0, |w|) && !StartsWithSpace(b)
    ensures CollapseSpace(a + w + b) == CollapseSpace(a) + [' '] + CollapseSpace(b)
    decreases |a|
  {
    if |a| == 0 {
      assert a + w + b == w + b;
      CollapseSpaceRun(w, b);
    } else {
      var k, c := CollapseFront(a, w + b);
      SuffixKeepsEnd(a, k);
      CollapseSplit(a[k..], w, b);
      SplitAfterFront(CollapseSpace, a, w, b, k, c);
    }
  }

  lemma SuffixKeepsEnd(a: string, k: nat)
    requires k <= |a| && !EndsWithSpace(a)
    ensures !EndsWithSpace(a[k..])
  {
    assert a[k..] != [] ==> a[k..][|a| - k - 1] == a[|a| - 1];
  }

  /** The inductive step of `CollapseSplit`, for any string function. */
  lemma SplitAfterFront(f: string -> string, a: string, w: string, b: string, k: nat, c: char)
    requires k <= |a|
    requires f(a + (w + b)) == [c] + f(a[k..] + (w + b))
    requires f(a) == [c] + f(a[k..])
    requires f(a[k..] + w + b) == f(a[k..]) + [' '] + f(b)
    ensures f(a + w + b) == f(a) + [' '] + f(b)
  {
    assert a + w + b == a + (w + b);
    assert a[k..] + (w + b) == a[k..] + w + b;
  }

  /** The first step of the collapse of `a + x` only looks at `a`, when `a`
      does not end in white space. */
  lemma CollapseFront(a: string, x: string) returns (k: nat, c: char)
    requires a != [] && !EndsWithSpace(a)
    ensures 0 < k <= |a|
    ensures CollapseSpace(a + x) == [c] + CollapseSpace(a[k..] + x)
    ensures CollapseSpace(a) == [c] + CollapseSpace(a[k..])
  {
    var s := a + x;
    assert s[0] == a[0];
    if IsSpace(a[0]) {
      k, c := LeadingSpace(a), ' ';
      assert k < |a|;
      assert forall i :: 0 <= i < k ==> s[i] == a[i];
      assert s[k] == a[k];
      LeadingSpaceUnique(s, k);
    } else {
      k, c := 1, a[0];
    }
    assert s[k..] == a[k..] + x;
  }

  /** Two trimmed parts with white space between them normalise to the two
      parts joined by one plain space. */
  lemma NormalizeSplit(a: string, w: string, b: string)
    requires a != [] && b != [] && IsTrimmed(a) && IsTrimmed(b)
    requires w != [] && SpaceBetween(w, 0, |w|)
    ensures Normalize(a + w + b) == Normalize(a) + [' '] + Normalize(b)
  {
    var s := a + w + b;
    assert s[0] == a[0] && s[|s| - 1] == b[|b| - 1];
    TrimOfTrimmed(s);
    TrimOfTrimmed(a);
    TrimOfTrimmed(b);
    CollapseSplit(a, w, b);
  }

  /** Substring search: `p` occurs somewhere in `s`. */
  predicate Contains(s: string, p: string)
    decreases |s|
  {
    p <= s || (|s| > 0 && Contains(s[1..], p))
  }

  /** The index of the first occurrence of `p` in `s`, or `|s|` when `p`
      does not occur. */
  function IndexOf(s: string, p: string): (i: nat)
    requires p != []
    ensures i <= |s|
    ensures i == |s| <==> !Contains(s, p)
    ensures i < |s| ==> p <= s[i..]
    ensures forall j :: 0 <= j < i ==> !(p <= s[j..])
    decreases |s|
  {
    if |s| == 0 then 0
    else if p <= s then 0
    else
      var i := 1 + IndexOf(s[1..], p);
      assert forall j :: 1 <= j <= |s| ==> s[j..] == s[1..][j - 1..];
      i
  }

  /** An occurrence in a suffix is an occurrence. */
  lemma {:induction false} ContainsSuffix(s: string, k: nat, p: string)
    requires k <= |s|
    requires Contains(s[k..], p)
    ensures Contains(s, p)
    decreases k
  {
    if k > 0 {
      assert s[1..][k - 1..] == s[k..];
      ContainsSuffix(s[1..], k - 1, p);
    }
  }

  /** An occurrence of a longer pattern is an occurrence of its prefix. */
  lemma {:induction false} ContainsPrefixOfPattern(s: string, p: string, q: string)
    requires q <= p
    requires Contains(s, p)
    ensures Contains(s, q)
    decreases |s|
  {
    if !(p <= s) {
      ContainsPrefixOfPattern(s[1..], p, q);
    }
  }

  /** A string without the first character of `p` does not contain `p`. */
  lemma {:induction false} NoContainsWithoutFirstChar(w: string, p: string)
    requires p != [] && p[0] !in w
    ensures !Contains(w, p)
    decreases |w|
  {
    if |w| > 0 {
      assert w[0] != p[0];
      assert forall c :: c in w[1..] ==> c in w;
      NoContainsWithoutFirstChar(w[1..], p);
    }
  }

  /** `p` is in `u + w` only if it starts inside `u` or is in `w`. */
  lemma {:induction false} NoContainsInConcat(u: string, w: string, p: string)
    requires forall i :: 0 <= i < |u| ==> !(p <= (u + w)[i..])
    requires !Contains(w, p)
    ensures !Contains(u + w, p)
    decreases |u|
  {
    if |u| == 0 {
      assert u + w == w;
    } else {
      var s := u + w;
      assert s[0..] == s;
      assert s[1..] == u[1..] + w;
      assert forall i :: 0 <= i < |u| - 1 ==> (u[1..] + w)[i..] == s[i + 1..];
      NoContainsInConcat(u[1..], w, p);
    }
  }

  /** One differing character rules out a prefix. */
  lemma MismatchAt(t: string, p: string, k: nat)
    requires k < |t| && k < |p| && t[k] != p[k]
    ensures !(p <= t)
  {
  }

  /** A string shorter than `p` does not contain it. */
  lemma {:induction false} ShortNoContains(s: string, p: string)
    requires |s| < |p|
    ensures !Contains(s, p)
    decreases |s|
  {
    if |s| > 0 {
      ShortNoContains(s[1..], p);
    }
  }
}
