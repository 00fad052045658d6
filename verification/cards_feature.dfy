/** The cards-feature parser: one two-cell row per card, the card image
    first and a content `div` with the linked title and description second.
    The results of the parser's selector lookups are its input; the lookups
    made on each card are a function of the card. */
module CardsFeature {
  import opened Wrappers
  import opened Dom
  import opened JsValues

  /** The lookups made on one card. */
  datatype CardLookups = CardLookups(
    cardImage: Option<Node>,      // .nsw-card__image img
    anyImage: Option<Node>,       // img
    titleLink: Option<Node>,      // .nsw-card__title a
    title: Option<Node>,          // .nsw-card__title
    titleLikeLink: Option<Node>,  // [class*="title"] a
    anyLink: Option<Node>,        // a
    copy: Option<Node>,           // .nsw-card__copy
    copyLike: Option<Node>,       // [class*="copy"]
    anyParagraph: Option<Node>)   // p

  function CardImage(c: CardLookups): Option<Node> {
    FirstFound([c.cardImage, c.anyImage])
  }

  function CardTitle(c: CardLookups): Option<Node> {
    FirstFound([c.titleLink, c.title, c.titleLikeLink, c.anyLink])
  }

  function CardDescription(c: CardLookups): Option<Node> {
    FirstFound([c.copy, c.copyLike, c.anyParagraph])
  }

  /** The content cell of a card: an `h3` around the title link, cleaned of
      screen-reader text and icons, when there is a link; then the
      description, when there is one. Empty when there is neither. */
  function ContentDiv(titleLink: Value, description: Value): (d: Node)
    ensures d.Element? && d.tag == "div" && d.classes == []
    ensures |d.children| == (if titleLink.Elem? then 1 else 0) + (if description.Elem? then 1 else 0)
    ensures titleLink.Elem? ==> d.children[0].Element? && d.children[0].tag == "h3" && d.children[0].children == [StripNoise(titleLink.node)]
    ensures description.Elem? ==> d.children[|d.children| - 1] == description.node
  {
    var heading := match titleLink
      case Elem(link) => [NewElement("h3", [StripNoise(link)])]
      case _ => [];
    var copy := match description
      case Elem(node) => [node]
      case _ => [];
    NewElement("div", heading + copy)
  }

  /** The row of one card: its image cell, then its content cell. */
  function CardRow(c: CardLookups): (row: seq<Value>)
    ensures |row| == 2
    ensures row[0] == Lookup(CardImage(c))
    ensures row[1] == Elem(ContentDiv(Lookup(CardTitle(c)), Lookup(CardDescription(c))))
  {
    var img := FirstOf([c.cardImage, c.anyImage]);
    var titleLink := FirstOf([c.titleLink, c.title, c.titleLikeLink, c.anyLink]);
    var description := FirstOf([c.copy, c.copyLike, c.anyParagraph]);
    [img, Elem(ContentDiv(titleLink, description))]
  }

  /** A row is kept when its first or its second cell is truthy; a cell
      past the end of the row reads as `undefined`, which is falsy. */
  predicate HasContent(row: seq<Value>) {
    (|row| > 0 && Truthy(row[0])) || (|row| > 1 && Truthy(row[1]))
  }

  /** The rows that have content, in their order. */
  function FilterRows(rows: seq<seq<Value>>): (r: seq<seq<Value>>)
    ensures |r| <= |rows|
    ensures forall i :: 0 <= i < |r| ==> HasContent(r[i])
    ensures (forall i :: 0 <= i < |rows| ==> HasContent(rows[i])) <==> r == rows
  {
    if |rows| == 0 then []
    else
      var rest := FilterRows(rows[1..]);
      assert forall i :: 1 <= i < |rows| ==> rows[i] == rows[1..][i - 1];
      if HasContent(rows[0]) then [rows[0]] + rest else rest
  }

  /** Filtering rows works row by row. */
  lemma {:induction false} FilterRowsConcat(a: seq<seq<Value>>, b: seq<seq<Value>>)
    ensures FilterRows(a + b) == FilterRows(a) + FilterRows(b)
  {
    if |a| == 0 {
      assert a + b == b;
    } else {
      assert (a + b)[0] == a[0];
      assert (a + b)[1..] == a[1..] + b;
      FilterRowsConcat(a[1..], b);
    }
  }

  /** One row is kept exactly when it has content. With `FilterRowsConcat`
      this fixes the filter on every list: the rows with content, each kept
      whole, in their order. */
  lemma FilterRowsOne(row: seq<Value>)
    ensures FilterRows([row]) == if HasContent(row) then [row] else []
  {
    assert [row][1..] == [];
  }

  function CardRows(cards: seq<Node>, q: Node -> CardLookups): (rows: seq<seq<Value>>)
    ensures |rows| == |cards|
    ensures forall i :: 0 <= i < |cards| ==> rows[i] == CardRow(q(cards[i]))
  {
    seq(|cards|, i requires 0 <= i < |cards| => CardRow(q(cards[i])))
  }

  /** The block table built from a card list. The filter never drops a row,
      because the content `div` of every row is an element and so truthy:
      there is one row per card, in card order, even for a card with no
      image, link or description. */
  function RowsOf(cards: seq<Node>, q: Node -> CardLookups): (cells: Cells)
    ensures |cells| == |cards|
    ensures forall i :: 0 <= i < |cards| ==> cells[i] == CardRow(q(cards[i]))
  {
    var rows := CardRows(cards, q);
    FilterRows(rows)
  }

  /** The parser as written: the card list is `.nsw-card`; the
      `[class*="card"]` fallback is never consulted. */
  function Parse(nswCards: seq<Node>, cardLike: seq<Node>, q: Node -> CardLookups): (cells: Cells)
    ensures cells == RowsOf(nswCards, q)
    ensures |cells| == |nswCards|
  {
    var cards := QueryAllChain([nswCards, cardLike]);
    RowsOf(cards, q)
  }

  /** The parser with the evidently intended fallback: the first of the two
      card lists that is not empty. */
  function ParseIntended(nswCards: seq<Node>, cardLike: seq<Node>, q: Node -> CardLookups): (cells: Cells)
    ensures cells == RowsOf(if nswCards != [] then nswCards else cardLike, q)
    ensures cells == [] <==> nswCards == [] && cardLike == []
  {
    FirstNonEmptyOfTwo(nswCards, cardLike);
    RowsOf(FirstNonEmpty([nswCards, cardLike]), q)
  }

  /** The two agree exactly when the fallback is not needed: on a page whose
      cards match only `[class*="card"]` the parser as written emits no row. */
  lemma ParseFallbackIgnored(nswCards: seq<Node>, cardLike: seq<Node>, q: Node -> CardLookups)
    ensures Parse(nswCards, cardLike, q) == ParseIntended(nswCards, cardLike, q) <==> nswCards != [] || cardLike == []
  {
    if nswCards == [] && cardLike != [] {
      assert |ParseIntended(nswCards, cardLike, q)| == |cardLike|;
    }
  }
}
