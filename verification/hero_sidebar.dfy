/** The hero-sidebar parser: a single row holding the page heading, the intro
    paragraph and a sidebar of emergency contacts, each only when present.
    The results of the parser's `querySelector` calls are its input. */
module HeroSidebar {
  import opened Wrappers
  import opened JsText
  import opened Dom
  import opened JsValues

  /** The lookups made inside the `.nsw-hero-banner__links` section. */
  datatype SidebarLookups = SidebarLookups(
    subTitle: Option<Node>,          // .nsw-hero-banner__sub-title
    subTitleLike: Option<Node>,      // [class*="sub-title"]
    contactList: Option<seq<Node>>)  // the first `ul`, given as its `li` elements

  /** The lookups made on the block element. */
  datatype HeroLookups = HeroLookups(
    headlineWhite: Option<Node>,     // h1.headline-White
    anyH1: Option<Node>,             // h1
    headlineLike: Option<Node>,      // [class*="headline"]
    introClass: Option<Node>,        // p.nsw-intro
    contentParagraph: Option<Node>,  // .nsw-hero-banner__content p
    anyParagraph: Option<Node>,      // p
    sidebar: Option<SidebarLookups>) // .nsw-hero-banner__links

  const ContactPrefix := "- "

  /** The text of one contact line: a dash and a space, then the item's
      text trimmed and with its white-space runs collapsed.
      The part after the prefix is trimmed, has single plain spaces, and keeps
      every visible character of the item's text in order. */
  function ContactLine(text: string): (r: string)
    ensures |r| >= 2 && r[..2] == ContactPrefix
    ensures IsNormalized(r[2..])
    ensures NonSpace(r[2..]) == NonSpace(text)
  {
    var line := ContactPrefix + Normalize(text);
    assert line[2..] == Normalize(text);
    line
  }

  /** Text that is already normalised is put after the prefix unchanged. */
  lemma ContactLineOfNormalized(text: string)
    requires IsNormalized(text)
    ensures ContactLine(text) == ContactPrefix + text
  {
    NormalizeFixedPoints(text);
  }

  /** White space between two parts of an item's text becomes exactly one
      plain space in its contact line, whatever the run was made of. */
  lemma ContactLineSplit(a: string, w: string, b: string)
    requires a != [] && b != [] && IsTrimmed(a) && IsTrimmed(b)
    requires w != [] && SpaceBetween(w, 0, |w|)
    ensures ContactLine(a + w + b) == ContactLine(a) + [' '] + Normalize(b)
  {
    NormalizeSplit(a, w, b);
    PrefixAssoc(ContactPrefix, Normalize(a), [' '], Normalize(b));
  }

  lemma PrefixAssoc(p: string, x: string, y: string, z: string)
    ensures p + (x + y + z) == p + x + y + z
  { }

  /** Formatting the text of a contact line again gives the same line. */
  lemma ContactLineStable(text: string)
    ensures ContactLine(ContactLine(text)[2..]) == ContactLine(text)
  {
    var r := ContactLine(text);
    ContactLineOfNormalized(r[2..]);
    assert r == r[..2] + r[2..];
  }

  /** The `strong` element of the sidebar title, holding its trimmed text. */
  function TitleElement(title: Node): (e: Node)
    ensures e.Element? && e.tag == "strong" && TextContent(e) == Trim(TextContent(title))
  {
    NewElement("strong", TextNodes(Trim(TextContent(title))))
  }

  function LineBreak(): Node {
    NewElement("br", [])
  }

  /** The `div` of one contact-list item, holding its contact line. */
  function LineDiv(item: Node): (e: Node)
    ensures e.Element? && e.tag == "div" && TextContent(e) == ContactLine(TextContent(item))
  {
    NewElement("div", TextNodes(ContactLine(TextContent(item))))
  }

  /** The sidebar title: the sub-title element by its class, or else the
      first element whose class mentions a sub-title. */
  function SidebarTitle(s: SidebarLookups): Option<Node> {
    FirstFound([s.subTitle, s.subTitleLike])
  }

  /** The `li` elements of the contact list; none without a list. */
  function ContactItems(s: SidebarLookups): seq<Node> {
    if s.contactList.Some? then s.contactList.value else []
  }

  /** The sidebar container: the title and two line breaks when a title is
      found, then one line `div` per list item, in document order. */
  function SidebarDiv(s: SidebarLookups): (d: Node)
    ensures d.Element? && d.tag == "div" && d.classes == []
    ensures |d.children| == (if SidebarTitle(s).Some? then 3 else 0) + |ContactItems(s)|
    ensures SidebarTitle(s).Some? ==> d.children[..3] == [TitleElement(SidebarTitle(s).value), LineBreak(), LineBreak()]
    ensures
      var h := if SidebarTitle(s).Some? then 3 else 0;
      forall i :: 0 <= i < |ContactItems(s)| ==> d.children[h + i] == LineDiv(ContactItems(s)[i])
  {
    var title := FirstOf([s.subTitle, s.subTitleLike]);
    var head := if Truthy(title) then [TitleElement(title.node), LineBreak(), LineBreak()] else [];
    var items := ContactItems(s);
    var lines := seq(|items|, i requires 0 <= i < |items| => LineDiv(items[i]));
    NewElement("div", head + lines)
  }

  /** The sidebar cell: the container when the section is found, and `''`
      otherwise, which is falsy. */
  function SidebarCell(q: HeroLookups): (v: Value)
    ensures Kept(v) == if q.sidebar.Some? then [Elem(SidebarDiv(q.sidebar.value))] else []
  {
    if q.sidebar.Some? then Elem(SidebarDiv(q.sidebar.value)) else Str("")
  }

  /** The block table: one row of heading, intro and sidebar, in that order,
      each only when present. A found sidebar section always gives a cell,
      even an empty one, because a created `div` is truthy; without it the
      cell is `''`, which the filter drops. */
  function Parse(q: HeroLookups): (cells: Cells)
    ensures |cells| == 1
    ensures cells[0] ==
      Kept(Lookup(FirstFound([q.headlineWhite, q.anyH1, q.headlineLike])))
      + Kept(Lookup(FirstFound([q.introClass, q.contentParagraph, q.anyParagraph])))
      + (if q.sidebar.Some? then [Elem(SidebarDiv(q.sidebar.value))] else [])
    ensures |cells[0]| <= 3
  {
    var heading := FirstOf([q.headlineWhite, q.anyH1, q.headlineLike]);
    var intro := FirstOf([q.introClass, q.contentParagraph, q.anyParagraph]);
    var sidebarContent := SidebarCell(q);
    RowOfThree(heading, intro, sidebarContent);
    [FilterTruthy([heading, intro, sidebarContent])]
  }

  lemma RowOfThree(a: Value, b: Value, c: Value)
    ensures FilterTruthy([a, b, c]) == Kept(a) + Kept(b) + Kept(c)
  {
    assert [a, b, c] == [a] + [b] + [c];
    FilterTruthyConcat([a] + [b], [c]);
    FilterTruthyConcat([a], [b]);
  }
}
