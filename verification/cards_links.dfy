/** The cards-links parser: one single-cell row per link, holding a clone of
    the link without its screen-reader text and icons. The results of the
    parser's `querySelectorAll` calls are its input. */
module CardsLinks {
  import opened Dom
  import opened JsValues

  /** The cell of one link: its clone with every `.sr-only` and
      `.material-icons` descendant removed. The clone keeps the link's own
      tag and classes, and the link itself is a value and stays as it was. */
  function LinkCell(link: Node): (v: Value)
    ensures v.Elem? && NoNoiseBelow(v.node)
    ensures v.node.Element? <==> link.Element?
    ensures link.Element? ==> v.node.tag == link.tag && v.node.classes == link.classes
    ensures NoNoiseBelow(link) ==> v.node == link
    ensures TextContent(v.node) == VisibleText(link)
  {
    StripFixedPoints(link);
    StrippedText(link);
    Elem(StripNoise(link))
  }

  /** One row per link, in order, each with exactly one cell: the link's
      cleaned clone. */
  function RowsOf(links: seq<Node>): (cells: Cells)
    ensures |cells| == |links|
    ensures forall i :: 0 <= i < |links| ==> cells[i] == [LinkCell(links[i])]
  {
    seq(|links|, i requires 0 <= i < |links| => [LinkCell(links[i])])
  }

  /** The parser as written: the link list is
      `ul.buttonlinklist a.buttonlinklist-link`; the three fallbacks are never
      consulted, and no link gives no row. */
  function Parse(buttonLinks: seq<Node>, listLinks: seq<Node>, nswListLinks: seq<Node>, anyLinks: seq<Node>): (cells: Cells)
    ensures cells == RowsOf(buttonLinks)
    ensures |cells| == |buttonLinks|
  {
    var links := QueryAllChain([buttonLinks, listLinks, nswListLinks, anyLinks]);
    RowsOf(links)
  }

  /** The parser with the evidently intended fallback: the first of the four
      link lists that is not empty. */
  function ParseIntended(buttonLinks: seq<Node>, listLinks: seq<Node>, nswListLinks: seq<Node>, anyLinks: seq<Node>): (cells: Cells)
    ensures cells == RowsOf(FirstNonEmpty([buttonLinks, listLinks, nswListLinks, anyLinks]))
    ensures cells == [] <==> buttonLinks == [] && listLinks == [] && nswListLinks == [] && anyLinks == []
  {
    var lists := [buttonLinks, listLinks, nswListLinks, anyLinks];
    assert buttonLinks == lists[0] && listLinks == lists[1] && nswListLinks == lists[2] && anyLinks == lists[3];
    RowsOf(FirstNonEmpty(lists))
  }

  /** The two agree exactly when the fallback is not needed: on a page whose
      links match only a later selector the parser as written emits no row. */
  lemma ParseFallbackIgnored(buttonLinks: seq<Node>, listLinks: seq<Node>, nswListLinks: seq<Node>, anyLinks: seq<Node>)
    ensures Parse(buttonLinks, listLinks, nswListLinks, anyLinks) == ParseIntended(buttonLinks, listLinks, nswListLinks, anyLinks)
            <==> buttonLinks != [] || (listLinks == [] && nswListLinks == [] && anyLinks == [])
  {
    var lists := [buttonLinks, listLinks, nswListLinks, anyLinks];
    if buttonLinks != [] {
      assert FirstNonEmpty(lists) == buttonLinks;
    } else if listLinks != [] || nswListLinks != [] || anyLinks != [] {
      assert FirstNonEmpty(lists) != [] by {
        assert listLinks == lists[1] && nswListLinks == lists[2] && anyLinks == lists[3];
      }
    } else {
      assert forall i :: 0 <= i < |lists| ==> lists[i] == [];
    }
  }
}
