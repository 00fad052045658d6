/** The columns-promo parser: a single row with a text column and an image
    column. Every column that holds an image makes that image the right
    column; every other column makes a fresh text container the left column;
    later columns overwrite earlier ones. The results of the parser's
    selector lookups are its input; the lookups made on each column are a
    function of the column. */
module ColumnsPromo {
  import opened Wrappers
  import opened Dom
  import opened JsValues

  /** The lookups made on one column. */
  datatype ColumnLookups = ColumnLookups(
    image: Option<Node>,         // img
    h3: Option<Node>,            // h3
    otherHeading: Option<Node>,  // h2, h4
    paragraph: Option<Node>,     // p
    nswButton: Option<Node>,     // a.nsw-button
    anyLink: Option<Node>,       // a
    button: Option<Node>)        // button

  /** The variables `leftColumn` and `rightColumn`. */
  datatype Columns = Columns(left: Value, right: Value)

  function ColumnHeading(c: ColumnLookups): Option<Node> {
    FirstFound([c.h3, c.otherHeading])
  }

  function ColumnLink(c: ColumnLookups): Option<Node> {
    FirstFound([c.nswButton, c.anyLink, c.button])
  }

  /** What the text container gets from one lookup: a copy of the node when
      one was found, and nothing otherwise. A lookup gives `null` or an
      element. */
  function AppendIf(v: Value): seq<Node>
    requires v.Null? || v.Elem?
  {
    if Truthy(v) then [v.node] else []
  }

  /** Appending after a lookup adds exactly the node it found. */
  lemma AppendIfLookup(o: Option<Node>)
    ensures AppendIf(Lookup(o)) == Found(o)
  { }

  /** The left-column container of a column without an image: heading,
      paragraph and link, in that order, each only when found. */
  function TextColumn(c: ColumnLookups): (d: Node)
    ensures d.Element? && d.tag == "div" && d.classes == []
    ensures d.children == Found(ColumnHeading(c)) + Found(c.paragraph) + Found(ColumnLink(c))
  {
    var heading := FirstOf([c.h3, c.otherHeading]);
    var paragraph := Lookup(c.paragraph);
    var link := FirstOf([c.nswButton, c.anyLink, c.button]);
    AppendIfLookup(ColumnHeading(c));
    AppendIfLookup(c.paragraph);
    AppendIfLookup(ColumnLink(c));
    NewElement("div", AppendIf(heading) + AppendIf(paragraph) + AppendIf(link))
  }

  /** The body of the `forEach` for one column; `build` makes the text
      container of a column without an image. */
  function Step(s: Columns, c: ColumnLookups, build: ColumnLookups -> Node): (t: Columns)
    ensures t.right == if c.image.Some? then Elem(c.image.value) else s.right
    ensures t.left == if c.image.Some? then s.left else Elem(build(c))
  {
    var img := Lookup(c.image);
    if Truthy(img) then s.(right := img) else s.(left := Elem(build(c)))
  }

  /** The two variables after the `forEach`, given the lookups of each column
      in order. */
  function RunColumns(cs: seq<ColumnLookups>, build: ColumnLookups -> Node): (s: Columns)
    ensures s.right.Null? || s.right.Elem?
    ensures s.left.Null? || s.left.Elem?
  {
    if |cs| == 0 then Columns(Null, Null)
    else Step(RunColumns(cs[..|cs| - 1], build), cs[|cs| - 1], build)
  }

  /** Column `i` has image `img`, and no later column has an image. */
  predicate LastImageAt(cs: seq<ColumnLookups>, i: int, img: Node) {
    0 <= i < |cs| && cs[i].image == Some(img) && forall j :: i < j < |cs| ==> cs[j].image.None?
  }

  /** Column `i` has no image, and every later column has one. */
  predicate LastTextAt(cs: seq<ColumnLookups>, i: int) {
    0 <= i < |cs| && cs[i].image.None? && forall j :: i < j < |cs| ==> cs[j].image.Some?
  }

  /** The right column is the image of the last column that has one, and
      `null` when no column has one. */
  lemma {:induction false} RightIsLastImage(cs: seq<ColumnLookups>, build: ColumnLookups -> Node)
    ensures RunColumns(cs, build).right.Null? <==> forall i :: 0 <= i < |cs| ==> cs[i].image.None?
    ensures RunColumns(cs, build).right.Elem? ==> exists i :: LastImageAt(cs, i, RunColumns(cs, build).right.node)
  {
    if |cs| > 0 {
      var n := |cs| - 1;
      var init := cs[..n];
      RightIsLastImage(init, build);
      var r := RunColumns(cs, build).right;
      if cs[n].image.Some? {
        assert LastImageAt(cs, n, r.node);
      } else if r.Elem? {
        var i :| LastImageAt(init, i, r.node);
        assert LastImageAt(cs, i, r.node);
      }
    }
  }

  /** The left column is the text container of the last column without an
      image, and `null` when every column has one. */
  lemma {:induction false} LeftIsLastText(cs: seq<ColumnLookups>, build: ColumnLookups -> Node)
    ensures RunColumns(cs, build).left.Null? <==> forall i :: 0 <= i < |cs| ==> cs[i].image.Some?
    ensures RunColumns(cs, build).left.Elem? ==> exists i :: LastTextAt(cs, i) && RunColumns(cs, build).left.node == build(cs[i])
  {
    if |cs| > 0 {
      var n := |cs| - 1;
      var init := cs[..n];
      LeftIsLastText(init, build);
      var l := RunColumns(cs, build).left;
      if cs[n].image.None? {
        assert LastTextAt(cs, n);
      } else if l.Elem? {
        var i :| LastTextAt(init, i) && l.node == build(init[i]);
        assert LastTextAt(cs, i);
      }
    }
  }

  /** After at least one column, one of the two variables is set. */
  lemma SomeColumnSet(cs: seq<ColumnLookups>, build: ColumnLookups -> Node)
    ensures RunColumns(cs, build) == Columns(Null, Null) <==> cs == []
  {
  }

  /** The lookups of each column, in column order. */
  function ColumnsLookups(cols: seq<Node>, q: Node -> ColumnLookups): (cs: seq<ColumnLookups>)
    ensures |cs| == |cols|
    ensures forall i :: 0 <= i < |cols| ==> cs[i] == q(cols[i])
  {
    seq(|cols|, i requires 0 <= i < |cols| => q(cols[i]))
  }

  /** The block table for a column list: one row of the left and the right
      column with absent entries dropped, so the text container comes first
      whatever the source order. */
  function RowOf(cols: seq<Node>, q: Node -> ColumnLookups): (cells: Cells)
    ensures |cells| == 1 && |cells[0]| <= 2
    ensures cells[0] == Kept(RunColumns(ColumnsLookups(cols, q), TextColumn).left) + Kept(RunColumns(ColumnsLookups(cols, q), TextColumn).right)
    ensures cells[0] == [] <==> cols == []
  {
    var cs := ColumnsLookups(cols, q);
    var s := RunColumns(cs, TextColumn);
    PairRow(s.left, s.right);
    SomeColumnSet(cs, TextColumn);
    [FilterTruthy([s.left, s.right])]
  }

  lemma PairRow(a: Value, b: Value)
    ensures FilterTruthy([a, b]) == Kept(a) + Kept(b)
  {
    assert [a, b] == [a] + [b];
    FilterTruthyConcat([a], [b]);
  }

  /** The parser as written: the column list is `.nsw-col`; the
      `[class*="col"]` and `:scope > div` fallbacks are never consulted, and
      no column gives one empty row. */
  function Parse(nswCols: seq<Node>, colLike: seq<Node>, childDivs: seq<Node>, q: Node -> ColumnLookups): (cells: Cells)
    ensures cells == RowOf(nswCols, q)
    ensures nswCols == [] ==> cells == [[]]
  {
    var cols := QueryAllChain([nswCols, colLike, childDivs]);
    RowOf(cols, q)
  }

  /** The parser with the evidently intended fallback: the first of the three
      column lists that is not empty. */
  function ParseIntended(nswCols: seq<Node>, colLike: seq<Node>, childDivs: seq<Node>, q: Node -> ColumnLookups): (cells: Cells)
    ensures cells == RowOf(FirstNonEmpty([nswCols, colLike, childDivs]), q)
    ensures cells[0] == [] <==> nswCols == [] && colLike == [] && childDivs == []
  {
    var lists := [nswCols, colLike, childDivs];
    assert nswCols == lists[0] && colLike == lists[1] && childDivs == lists[2];
    RowOf(FirstNonEmpty(lists), q)
  }

  /** The two agree exactly when the fallback is not needed: on a page whose
      columns match only a later selector the parser as written emits an
      empty row. */
  lemma ParseFallbackIgnored(nswCols: seq<Node>, colLike: seq<Node>, childDivs: seq<Node>, q: Node -> ColumnLookups)
    ensures Parse(nswCols, colLike, childDivs, q) == ParseIntended(nswCols, colLike, childDivs, q)
            <==> nswCols != [] || (colLike == [] && childDivs == [])
  {
    var lists := [nswCols, colLike, childDivs];
    FallbackIgnored(lists);
    if nswCols != [] {
      assert FirstNonEmpty(lists) == nswCols;
    } else if colLike != [] || childDivs != [] {
      assert FirstNonEmpty(lists) != [];
      assert ParseIntended(nswCols, colLike, childDivs, q)[0] != [];
    }
  }
}
