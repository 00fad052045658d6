# DCJ site importer: cleanup transformer and block parsers

A Dafny model of the core of the content importer for the dcj.nsw.gov.au
migration. The importer reads a captured page and turns parts of it into
blocks. This model covers:

- the page-cleanup transformer (`dcj-cleanup.js`). Its `beforeTransform` hook
  removes the translation, read-aloud, skip-link and quick-exit widgets. Its
  `afterTransform` hook removes iframes, `noscript` and `link` elements, then
  rewrites the `class` attribute of every element below `element`.
- four block parsers. Each reads an element and builds the table of cells
  that becomes a block:
  - hero-sidebar: one row with the heading, the intro and a sidebar of contacts;
  - cards-feature: one `[image, content]` row per card;
  - cards-links: one row per link, cleaned of screen-reader text and icons;
  - columns-promo: one row with a text column and an image column.

How the model is laid out:

- DOM nodes are immutable values (`Dom.Node`). A `cloneNode(true)` is the node
  itself, so an edit of a clone never reaches its original.
- The JavaScript values the parsers pass around are `JsValues.Value`. This
  type gives logical-or chains and truthiness filters their JavaScript truthiness: a
  NodeList and an element are always truthy, and `''` is falsy.
- The CSS selector engine is not modelled. The result of each
  `querySelector` is an input to the model (an `Option<Node>`), and so is the
  result of each `querySelectorAll` (a `seq<Node>`). Lookups made on every
  card or column are a function from the node to a record of lookups.
- The class rewrite works on strings. It is three global replaces and a trim:
  - JavaScript's `\s` (and the set `trim` removes) is written out character
    by character in `JsText.IsSpace`;
  - a global replace is one leftmost, non-overlapping left-to-right pass;
  - `[^\s]*` is greedy and runs to the next white space.

Results worth knowing:

- The second replace, `/aem-GridColumn[^\s]*/g`, never deletes anything
  (`ClassRewrite.GridColumnPassDeletesNothing`). Every `aem-GridColumn...`
  token starts with `aem-Grid`, so the first replace has already removed it
  up to the next white space.
- The rewrite is idempotent on class strings without `responsivegrid`. It is
  not idempotent in general: `aem-responsivegridGrid` becomes `aem-Grid`, and
  a second rewrite deletes that.
- Interior white space is not collapsed, so `a aem-Grid b` becomes `a  b`.
- In three parsers the fallback from one `querySelectorAll` to the next
  is never consulted, because a NodeList is truthy even when empty (see
  Findings).

## Model

| member | source | states |
|---|---|---|
| DcjCleanup.Steps | tools/importer/transformers/dcj-cleanup.js:14-67 | `beforeTransform` removes the four widget selector groups, in order. `afterTransform` removes iframes, then `noscript`/`link`, then rewrites classes. Any other hook name does nothing. The class rewrite runs exactly when the hook is `afterTransform`. |
| DcjCleanup.RewriteElement | tools/importer/transformers/dcj-cleanup.js:74-84 | An element is left alone exactly when its `className` is not a string or is empty. The attribute is removed exactly when the rewritten string is empty. Otherwise it is set to the rewritten string, which is non-empty, has no white space at either end and is no longer than before. |
| DcjCleanup.CleanClassKept | tools/importer/transformers/dcj-cleanup.js:74-79 | A trimmed, non-empty class string with no `aem-Grid` and no `responsivegrid` is written back unchanged. |
| DcjCleanup.ClassEdits | tools/importer/transformers/dcj-cleanup.js:71-85 | The after hook edits every element below `element` independently, in document order. Every other hook edits none. |
| ClassRewrite.RewriteClassName | tools/importer/transformers/dcj-cleanup.js:75-79 | The rewritten class string has no white space at either end and is never longer than the input. |
| ClassRewrite.DeleteRuns | tools/importer/transformers/dcj-cleanup.js:76-77 | A greedy `p[^\s]*` replace shortens the string exactly when the pattern occurs, and leaves it unchanged otherwise. |
| ClassRewrite.DeleteLiteral | tools/importer/transformers/dcj-cleanup.js:78 | A literal global replace shortens the string exactly when the pattern occurs, and leaves it unchanged otherwise. |
| ClassRewrite.DeleteLiteralKeepsPrefix | tools/importer/transformers/dcj-cleanup.js:78 | Text in which no occurrence of the pattern starts is kept as it is, and the replace carries on after it. |
| ClassRewrite.DeleteLiteralAtMatch | tools/importer/transformers/dcj-cleanup.js:78 | The leftmost occurrence is deleted whole, the text before it is kept, and the rest is rewritten on its own. So every occurrence goes, left to right and without overlap. |
| ClassRewrite.NoRunsLeft | tools/importer/transformers/dcj-cleanup.js:76 | After the `aem-Grid[^\s]*` replace, no `aem-Grid` is left anywhere in the string. |
| ClassRewrite.NoNewWords | tools/importer/transformers/dcj-cleanup.js:76-77 | A run-deleting replace never creates an occurrence of a word that was absent before. |
| ClassRewrite.GridColumnPassDeletesNothing | tools/importer/transformers/dcj-cleanup.js:76-77 | The `aem-GridColumn[^\s]*` replace changes nothing once the `aem-Grid[^\s]*` replace has run. |
| ClassRewrite.RunsSplitAtSpace | tools/importer/transformers/dcj-cleanup.js:76 | A match never crosses white space: each white-space-separated token is rewritten on its own, and the separator is kept. |
| ClassRewrite.RunsInToken | tools/importer/transformers/dcj-cleanup.js:76 | Within one class token, the replace cuts the token at its first occurrence of the pattern and keeps what comes before. |
| ClassRewrite.RewriteFixedPoints | tools/importer/transformers/dcj-cleanup.js:75-79 | A class string is left unchanged exactly when it is trimmed and contains neither `aem-Grid` nor `responsivegrid`. |
| ClassRewrite.RewriteIdempotent | tools/importer/transformers/dcj-cleanup.js:75-79 | On class strings without `responsivegrid`, rewriting twice gives the same as rewriting once. |
| ClassRewrite.RewriteNotIdempotent | tools/importer/transformers/dcj-cleanup.js:75-79 | `aem-responsivegridGrid` is rewritten to `aem-Grid`, and rewriting that gives the empty string. So the `responsivegrid` condition above is needed. |
| ClassRewrite.InteriorSpaceKept | tools/importer/transformers/dcj-cleanup.js:75-79 | Deleting a whole `aem-Grid` token between two other tokens leaves both separators. Only the ends are trimmed. |
| JsText.Trim | tools/importer/transformers/dcj-cleanup.js:79 | `trim()` returns a trimmed string that sits inside the input with only white space around it. |
| JsText.NonSpaceOfTrim | tools/importer/parsers/hero-sidebar.js:54 | Trimming keeps every visible character, in order. |
| JsText.CollapseSpace | tools/importer/parsers/hero-sidebar.js:65 | Collapsing white space leaves no two white-space characters side by side and only plain spaces. The result starts with white space exactly when the input does, and is empty exactly when the input is. |
| JsText.CollapseAfterWord | tools/importer/parsers/hero-sidebar.js:65 | Characters that are not white space are copied through unchanged. |
| JsText.CollapseSplit | tools/importer/parsers/hero-sidebar.js:65 | A white-space run between two parts becomes exactly one plain space, and each part is collapsed on its own. With CollapseAfterWord this fixes the result on every string. |
| JsText.Normalize | tools/importer/parsers/hero-sidebar.js:65 | Trimming then collapsing gives a trimmed string with single plain spaces between words, with the same visible characters in the same order. |
| JsText.NormalizeSplit | tools/importer/parsers/hero-sidebar.js:65 | Two trimmed parts with any white-space run between them normalise to the two parts normalised and joined by one plain space. |
| JsText.NormalizeIdempotent | tools/importer/parsers/hero-sidebar.js:65 | Normalising a normalised string changes nothing. |
| JsText.NormalizeFixedPoints | tools/importer/parsers/hero-sidebar.js:65 | Normalising leaves a string unchanged exactly when it is already trimmed with single plain spaces. |
| HeroSidebar.ContactLine | tools/importer/parsers/hero-sidebar.js:65 | A contact line is `- ` followed by a normalised text with the item's visible characters in order. |
| HeroSidebar.ContactLineSplit | tools/importer/parsers/hero-sidebar.js:65 | Any white-space run between two parts of an item's text becomes one plain space in the contact line. |
| HeroSidebar.ContactLineStable | tools/importer/parsers/hero-sidebar.js:65 | Formatting the text of a contact line again gives the same line. |
| HeroSidebar.TitleElement | tools/importer/parsers/hero-sidebar.js:53-54 | The sidebar title is a `strong` element whose text is the trimmed text of the title node. |
| HeroSidebar.LineDiv | tools/importer/parsers/hero-sidebar.js:64-65 | Each contact item gives a `div` whose text is its contact line. |
| HeroSidebar.SidebarDiv | tools/importer/parsers/hero-sidebar.js:38-71 | The sidebar is a `div` holding, when a title is found, the title and two line breaks. Then it holds one line `div` per list item, in order, and nothing else. |
| HeroSidebar.SidebarCell | tools/importer/parsers/hero-sidebar.js:36-71 | A found sidebar section always contributes its container, even an empty one. A missing section contributes nothing. |
| HeroSidebar.Parse | tools/importer/parsers/hero-sidebar.js:24-76 | One row holding, in order: the first heading found by the three selectors, the first intro found by the three selectors, and the sidebar container. Each is present only when found, so the row has at most three cells. |
| Dom.StripNoise | tools/importer/parsers/cards-links.js:34-39 | The cleaned clone keeps the link's kind, tag and classes and has no `.sr-only` or `.material-icons` element anywhere below it. |
| Dom.StripDropsNoise | tools/importer/parsers/cards-links.js:38-39 | A child that matches `.sr-only, .material-icons` is removed with its subtree, and its siblings before and after are cleaned and kept around the gap. |
| Dom.StrippedText | tools/importer/parsers/cards-links.js:34-39 | The text of the cleaned clone is exactly the link's text with the text of every noise subtree left out. |
| Dom.TextOfAllConcat | tools/importer/parsers/hero-sidebar.js:65 | `textContent` of a node is the text of its children joined in document order, so the text of a list of nodes splits where the list does. |
| Dom.StripFixedPoints | tools/importer/parsers/cards-links.js:38-39 | Cleaning leaves a node unchanged exactly when nothing below it matches `.sr-only, .material-icons`. |
| Dom.StripIdempotent | tools/importer/parsers/cards-feature.js:54-56 | Cleaning a cleaned clone changes nothing. |
| Dom.StripKeepsChild | tools/importer/parsers/cards-feature.js:55-56 | A child that does not match the selector survives cleaning, cleaned in turn, in its place between what its siblings before and after become. |
| CardsLinks.LinkCell | tools/importer/parsers/cards-links.js:32-41 | The cell of a link is an element with no noise below it, with the link's tag and classes. Its text is the link's text without the noise text. It equals the link when the link has no noise. |
| CardsLinks.RowsOf | tools/importer/parsers/cards-links.js:32-42 | One single-cell row per link, in order. |
| CardsLinks.Parse | tools/importer/parsers/cards-links.js:24-42 | The rows come from the first link list only, one per link. |
| CardsLinks.ParseIntended | tools/importer/parsers/cards-links.js:24-42 | With the fallback working, the rows come from the first non-empty link list, and there is no row only when all four lists are empty. |
| CardsLinks.ParseFallbackIgnored | tools/importer/parsers/cards-links.js:24-29 | The parser as written agrees with the intended fallback exactly when the first list is non-empty or all four lists are empty. |
| CardsFeature.ContentDiv | tools/importer/parsers/cards-feature.js:50-65 | The content cell is a `div` holding an `h3` around the cleaned title link when there is one, then the description when there is one, and nothing else. |
| CardsFeature.CardRow | tools/importer/parsers/cards-feature.js:30-68 | A card row is `[image, content]`. The image is the first found by the two image selectors. The content is built from the first found title and description. |
| CardsFeature.FilterRows | tools/importer/parsers/cards-feature.js:69 | The filter keeps only rows with a truthy first or second cell, and returns the list unchanged exactly when every row has one. |
| CardsFeature.FilterRowsConcat | tools/importer/parsers/cards-feature.js:69 | The filter works row by row: filtering a joined list joins the filtered parts. |
| CardsFeature.FilterRowsOne | tools/importer/parsers/cards-feature.js:69 | A single row is kept whole exactly when its first or second cell is truthy. With FilterRowsConcat, the result is the rows with content, in order. |
| CardsFeature.RowsOf | tools/importer/parsers/cards-feature.js:30-69 | The filter never drops a row: one row per card, in card order, even for a card with no image, title or description. |
| CardsFeature.Parse | tools/importer/parsers/cards-feature.js:24-69 | The rows come from the `.nsw-card` list only. |
| CardsFeature.ParseIntended | tools/importer/parsers/cards-feature.js:24-69 | With the fallback working, the rows come from `.nsw-card` when it matches and from `[class*="card"]` otherwise, and there is no row only when both match nothing. |
| CardsFeature.ParseFallbackIgnored | tools/importer/parsers/cards-feature.js:24-27 | The parser as written agrees with the intended fallback exactly when `.nsw-card` matches something or `[class*="card"]` matches nothing. |
| ColumnsPromo.TextColumn | tools/importer/parsers/columns-promo.js:42-52 | The text container is a `div` holding the first heading found, the paragraph and the first link found, in that order, each only when found. |
| ColumnsPromo.Step | tools/importer/parsers/columns-promo.js:37-55 | A column with an image replaces the right column. A column without one replaces the left column with its text container. |
| ColumnsPromo.RunColumns | tools/importer/parsers/columns-promo.js:35-56 | After the loop each of the two variables is `null` or an element: the loop only ever assigns an image or a fresh `div`. |
| ColumnsPromo.RightIsLastImage | tools/importer/parsers/columns-promo.js:31-56 | The right column is `null` exactly when no column has an image. Otherwise it is the image of the last column that has one. |
| ColumnsPromo.LeftIsLastText | tools/importer/parsers/columns-promo.js:31-56 | The left column is `null` exactly when every column has an image. Otherwise it is the text container of the last column without one. |
| ColumnsPromo.RowOf | tools/importer/parsers/columns-promo.js:31-61 | One row `[left, right]` with absent entries dropped, so at most two cells with the text first. The row is empty exactly when there is no column. |
| ColumnsPromo.Parse | tools/importer/parsers/columns-promo.js:25-61 | The row comes from the `.nsw-col` list only. No `.nsw-col` gives one empty row. |
| ColumnsPromo.ParseIntended | tools/importer/parsers/columns-promo.js:25-61 | With the fallback working, the row comes from the first non-empty column list, and it is empty only when all three lists are empty. |
| ColumnsPromo.ParseFallbackIgnored | tools/importer/parsers/columns-promo.js:25-29 | The parser as written agrees with the intended fallback exactly when `.nsw-col` matches something or both fallbacks match nothing. |
| JsValues.OrChain | tools/importer/parsers/hero-sidebar.js:24-26 | A chain of logical-or operators is truthy exactly when an operand is. It is then the first truthy operand, and otherwise the last operand. |
| JsValues.FirstOf | tools/importer/parsers/cards-feature.js:33-34 | A chain of `querySelector` calls joined by logical-or yields the first node found, or `null`. |
| JsValues.QueryAllChain | tools/importer/parsers/cards-feature.js:24-27 | A chain of `querySelectorAll` calls joined by logical-or always yields the first list, because a NodeList is truthy even when empty. |
| JsValues.FallbackIgnored | tools/importer/parsers/cards-links.js:24-29 | That chain equals the first non-empty list exactly when the first list is non-empty or every list is empty. |
| JsValues.FilterTruthy | tools/importer/parsers/hero-sidebar.js:75 | The truthiness filter returns only truthy items, no more than it was given, and returns the list unchanged exactly when all are truthy. |
| JsValues.FilterTruthyConcat | tools/importer/parsers/hero-sidebar.js:75 | The filter works item by item: filtering a joined list joins the filtered parts. |
| JsValues.Kept | tools/importer/parsers/hero-sidebar.js:75 | A single item is kept exactly when it is truthy. With FilterTruthyConcat, the result is the truthy items, in order, and nothing else. |

## Left out

- `WebImporter.DOMUtils.remove`, `WebImporter.Blocks.createBlock` and `element.replaceWith`: these belong to the import library, which is not part of this model. The transformer's removals are recorded as the selector lists passed to `remove`. A parser's result is the cell table passed to `createBlock`.
- The CSS selector engine: every `querySelector`/`querySelectorAll` result is an input. So the model does not relate, for example, the `h1.headline-White` result to the `h1` result.
- `element.querySelectorAll('*')` in the after hook: the model takes the class names of the elements it returns, in document order, as input. Each element is rewritten independently of the others.
- DOM mutation and `document`: nodes are immutable values. `appendChild` builds a child list, and setting `textContent` gives at most one text node.
- The `payload` argument of the transformer: it is never read.
- An element's own `class` attribute versus its `className` property: the model treats them as the same string.
- JavaScript strings are sequences of UTF-16 code units, while a Dafny `string` here is a sequence of characters. The two agree on every character the white-space class and the patterns involve. They differ only in how a character outside the Basic Multilingual Plane is counted.
- The per-card and per-column lookups (`Node -> CardLookups`, `Node -> ColumnLookups`) are functions of the node's value. A real `querySelector` on a card can also match through an ancestor outside the card, and two equal subtrees in different places can give different results. The model does not capture either.

## Findings

| source | as written | input that shows it | evidently intended | confidence | as-written member | corrected member |
|---|---|---|---|---|---|---|
| tools/importer/parsers/cards-feature.js:24-27 | `.nsw-card` or else `[class*="card"]` by logical-or of two `querySelectorAll` calls; an empty NodeList is truthy, so the fallback is never used | a block whose cards carry only `card-item` classes: `.nsw-card` matches nothing, so no row is produced | use `[class*="card"]` when `.nsw-card` matches nothing | high, not executed | CardsFeature.Parse | CardsFeature.ParseIntended |
| tools/importer/parsers/columns-promo.js:25-29 | `.nsw-col`, `[class*="col"]`, `:scope > div` joined by logical-or; the fallbacks are never used | a block whose columns are plain child `div`s: one empty row | use the first selector that matches something | high, not executed | ColumnsPromo.Parse | ColumnsPromo.ParseIntended |
| tools/importer/parsers/cards-links.js:24-29 | four `querySelectorAll` calls joined by logical-or; the three fallbacks are never used | a block of `ul.nsw-list a` links: no row | use the first selector that matches something | high, not executed | CardsLinks.Parse | CardsLinks.ParseIntended |

Each row's discrepancy is proved by the matching `ParseFallbackIgnored` lemma. The lemma shows that the two definitions differ exactly when the first list is empty and a later one is not.
