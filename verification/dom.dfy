/** A small immutable model of the DOM trees the parsers read and build.
    Nodes are values: `cloneNode(true)` is the node itself, and an edit of a
    clone is a new value, so the original of a clone is never affected. */
module Dom {
  datatype Node =
    | Element(tag: string, classes: seq<string>, children: seq<Node>)
    | Text(data: string)

  const SrOnly := "sr-only"
  const MaterialIcons := "material-icons"

  /** Matches the selector `.sr-only, .material-icons`. */
  predicate IsNoise(n: Node) {
    n.Element? && (SrOnly in n.classes || MaterialIcons in n.classes)
  }

  /** No descendant of `n` (the node itself not included) is noise. */
  predicate NoNoiseBelow(n: Node) {
    n.Text? || forall i :: 0 <= i < |n.children| ==> !IsNoise(n.children[i]) && NoNoiseBelow(n.children[i])
  }

  /** A fresh element made by `document.createElement(tag)`. */
  function NewElement(tag: string, children: seq<Node>): Node {
    Element(tag, [], children)
  }

  /** Removing the screen-reader and icon noise from a cloned link: every
      descendant that carries one of the two noise classes is removed with
      its whole subtree. The root itself is kept even when it carries one,
      because the selector query only looks at descendants. */
  function StripNoise(n: Node): (r: Node)
    ensures r.Element? <==> n.Element?
    ensures r.Text? ==> r == n
    ensures r.Element? ==> r.tag == n.tag && r.classes == n.classes
    ensures NoNoiseBelow(r)
    decreases n, 1
  {
    match n
    case Text(_) => n
    case Element(tag, classes, kids) => Element(tag, classes, StripChildren(kids))
  }

  function StripChildren(kids: seq<Node>): (r: seq<Node>)
    ensures |r| <= |kids|
    ensures forall i :: 0 <= i < |r| ==> !IsNoise(r[i]) && NoNoiseBelow(r[i])
    decreases kids, 0
  {
    if |kids| == 0 then []
    else
      var rest := StripChildren(kids[1..]);
      if IsNoise(kids[0]) then rest else [StripNoise(kids[0])] + rest
  }

  /** Stripping works child by child. */
  lemma {:induction false} StripChildrenConcat(a: seq<Node>, b: seq<Node>)
    ensures StripChildren(a + b) == StripChildren(a) + StripChildren(b)
  {
    if |a| == 0 {
      assert a + b == b;
    } else {
      assert (a + b)[0] == a[0];
      assert (a + b)[1..] == a[1..] + b;
      StripChildrenConcat(a[1..], b);
    }
  }

  /** Stripping a sequence of children splits around any one of them. */
  lemma StripAround(kids: seq<Node>, i: nat)
    requires i < |kids|
    ensures StripChildren(kids) == StripChildren(kids[..i]) + StripChildren([kids[i]]) + StripChildren(kids[i + 1..])
  {
    StripChildrenConcat(kids[..i] + [kids[i]], kids[i + 1..]);
    StripChildrenConcat(kids[..i], [kids[i]]);
    SplitAt(StripChildren, kids, i);
  }

  /** Any function that distributes over two concatenations splits around
      one element. */
  lemma SplitAt<T, U>(f: seq<T> -> seq<U>, s: seq<T>, i: nat)
    requires i < |s|
    requires f(s[..i] + [s[i]] + s[i + 1..]) == f(s[..i] + [s[i]]) + f(s[i + 1..])
    requires f(s[..i] + [s[i]]) == f(s[..i]) + f([s[i]])
    ensures f(s) == f(s[..i]) + f([s[i]]) + f(s[i + 1..])
  {
    assert s == s[..i] + [s[i]] + s[i + 1..];
  }

  /** Stripping one child on its own. */
  lemma StripOne(x: Node)
    ensures StripChildren([x]) == if IsNoise(x) then [] else [StripNoise(x)]
  {
    assert [x][1..] == [];
  }

  /** A child that is not noise survives stripping, itself stripped, in its
      place between what its siblings before and after become. */
  lemma StripKeepsChild(kids: seq<Node>, i: nat)
    requires i < |kids| && !IsNoise(kids[i])
    ensures StripChildren(kids) == StripChildren(kids[..i]) + [StripNoise(kids[i])] + StripChildren(kids[i + 1..])
    ensures StripNoise(kids[i]) in StripChildren(kids)
  {
    StripAround(kids, i);
    StripOne(kids[i]);
    InMiddle(StripChildren(kids[..i]), StripNoise(kids[i]), StripChildren(kids[i + 1..]));
  }

  /** A noise child is removed with its whole subtree: what is left is what
      its siblings before and after become, joined. */
  lemma StripDropsNoise(kids: seq<Node>, i: nat)
    requires i < |kids| && IsNoise(kids[i])
    ensures StripChildren(kids) == StripChildren(kids[..i]) + StripChildren(kids[i + 1..])
  {
    StripAround(kids, i);
    StripOne(kids[i]);
    DropEmpty(StripChildren(kids[..i]), StripChildren([kids[i]]), StripChildren(kids[i + 1..]));
  }

  lemma InMiddle<T>(x: seq<T>, e: T, y: seq<T>)
    ensures e in x + [e] + y
  {
    assert (x + [e] + y)[|x|] == e;
  }

  lemma DropEmpty<T>(x: seq<T>, e: seq<T>, y: seq<T>)
    requires e == []
    ensures x + e + y == x + y
  { }

  /** A tree without noise is left exactly as it is: stripping changes a
      node only when there is something to remove. */
  lemma {:induction false} StripFixed(n: Node)
    requires NoNoiseBelow(n)
    ensures StripNoise(n) == n
    decreases n, 1
  {
    if n.Element? {
      StripChildrenFixed(n.children);
    }
  }

  lemma {:induction false} StripChildrenFixed(kids: seq<Node>)
    requires forall i :: 0 <= i < |kids| ==> !IsNoise(kids[i]) && NoNoiseBelow(kids[i])
    ensures StripChildren(kids) == kids
    decreases kids, 0
  {
    if |kids| > 0 {
      StripFixed(kids[0]);
      assert forall i :: 0 <= i < |kids| - 1 ==> kids[1..][i] == kids[i + 1];
      StripChildrenFixed(kids[1..]);
    }
  }

  /** Stripping leaves `n` unchanged exactly when nothing below it is noise. */
  lemma StripFixedPoints(n: Node)
    ensures StripNoise(n) == n <==> NoNoiseBelow(n)
  {
    if NoNoiseBelow(n) {
      StripFixed(n);
    }
  }

  /** Stripping twice is stripping once. */
  lemma StripIdempotent(n: Node)
    ensures StripNoise(StripNoise(n)) == StripNoise(n)
  {
    StripFixed(StripNoise(n));
  }

  /** `textContent`: the text of every text node below `n`, in document order. */
  function TextContent(n: Node): string
    decreases n, 1
  {
    match n
    case Text(data) => data
    case Element(_, _, kids) => TextOfAll(kids)
  }

  function TextOfAll(kids: seq<Node>): string
    decreases kids, 0
  {
    if |kids| == 0 then [] else TextContent(kids[0]) + TextOfAll(kids[1..])
  }

  /** The text of a sequence of nodes is the text of each, joined. */
  lemma {:induction false} TextOfAllConcat(a: seq<Node>, b: seq<Node>)
    ensures TextOfAll(a + b) == TextOfAll(a) + TextOfAll(b)
  {
    if |a| == 0 {
      assert a + b == b;
    } else {
      assert (a + b)[0] == a[0];
      assert (a + b)[1..] == a[1..] + b;
      TextOfAllConcat(a[1..], b);
    }
  }

  /** The text a reader sees: the text below `n` with every noise subtree
      below it skipped. */
  function VisibleText(n: Node): string
    decreases n, 1
  {
    match n
    case Text(data) => data
    case Element(_, _, kids) => VisibleOfAll(kids)
  }

  function VisibleOfAll(kids: seq<Node>): string
    decreases kids, 0
  {
    if |kids| == 0 then []
    else if IsNoise(kids[0]) then VisibleOfAll(kids[1..])
    else VisibleText(kids[0]) + VisibleOfAll(kids[1..])
  }

  /** The text of a stripped node is exactly its visible text: stripping
      removes the noise text and nothing else. */
  lemma {:induction false} StrippedText(n: Node)
    ensures TextContent(StripNoise(n)) == VisibleText(n)
    decreases n, 1
  {
    if n.Element? {
      StrippedTextOfAll(n.children);
    }
  }

  lemma {:induction false} StrippedTextOfAll(kids: seq<Node>)
    ensures TextOfAll(StripChildren(kids)) == VisibleOfAll(kids)
    decreases kids, 0
  {
    if |kids| > 0 {
      StrippedTextOfAll(kids[1..]);
      if !IsNoise(kids[0]) {
        StrippedText(kids[0]);
        var r := [StripNoise(kids[0])] + StripChildren(kids[1..]);
        assert r[0] == StripNoise(kids[0]) && r[1..] == StripChildren(kids[1..]);
      }
    }
  }

  /** The children an element gets when its text content is set to `s`:
      one text node, or none for the empty string. */
  function TextNodes(s: string): (r: seq<Node>)
    ensures TextOfAll(r) == s
    ensures |r| <= 1
  {
    if s == [] then [] else [Text(s)]
  }
}
