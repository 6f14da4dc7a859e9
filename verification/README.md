# Markdown-to-HTML core of a static site generator, in Dafny

This project models the markdown-to-HTML pipeline of a small Python static
site generator and proves properties of it. The pipeline has four stages:

- **Segmenter.** `markdown_to_blocks` splits a document on blank lines,
  strips each piece and drops the empty ones.
- **Classifier.** `block_to_blocktype` and `get_list_seperator` give each
  block one of six kinds: paragraph, heading, code, quote, unordered list or
  ordered list.
- **Builders.** One builder per kind turns a block into an HTML node tree,
  and `markdown_to_html_node` collects the trees under a `div`.
- **HTML node model.** `LeafNode` and `ParentNode` serialise themselves with
  `to_html` and `props_to_html`.

Two more operations are modelled. `split_nodes_delimiter` is one stage of the
inline tokenizer. `extract_title` finds a page's title line.

Files:

- `wrappers.dfy`: `Option`, `Result` and one error constructor per
  exception the Python code raises.
- `runs.dfy`: the loops that `extend` a result list, one run per element.
- `strings.dfy`: the Python `str` operations the code uses:
  - `split`, `count` and `join`, with their round trips;
  - `strip` and `lstrip`;
  - `index`, `replace` and `str(int)`.
- `html.dfy`: the HTML node tree and its serialiser.
- `inline.dfy`: `split_nodes_delimiter`.
- `blocks.dfy`: segmentation, classification and the block builders. It
  also holds a loop-level model of the classifier.
- `title.dfy`: `extract_title`.
- `examples.dfy`: the unit-test cases of the modelled operations, stated
  as lemmas. The tests of link and image extraction and of `TextNode` are
  outside the model.

Modelling choices:

- The inline parser `text_to_children` is a parameter of type
  `InlineParser`, a function from text to a list of HTML nodes or an error.
  Every property of the conversion is stated for all inline parsers, or for
  all parsers that never fail (`InlineTotal`), or for all parsers that
  return well-formed nodes (`InlineSound`).
- A Python exception becomes an `Err` value.
- A Python dict of attributes becomes a list of name/value pairs in
  insertion order.
- Whitespace is the ASCII part of `str.isspace`.

Points where the code behaves in a way a reader may not expect, modelled
as written:

- A quote renders its lines' inline nodes directly under `blockquote`,
  not inside a `<p>`.
- A blank quote line becomes a `<br>` leaf.
- `lstrip` after the `>` removes all leading whitespace, not one space.
- The quote test as written lets a line shorter than two characters pass
  without a `>`. `Blocks.MarkdownToHtmlNode` dispatches on that test, as
  `markdown_to_html_node` does. The corrected test (`Blocks.BlockKind`) and
  the conversion under it (`Blocks.MarkdownToHtmlNodeStrict`) sit beside
  it; see Findings below.

## Model

| member | source | states |
|---|---|---|
| Html.PropsToHtml | src/htmlnode.py:13-19 | The attribute text is empty exactly when there are no attributes (`None` or an empty dict). Otherwise it starts with the separating space. |
| Html.AttrsToHtml | src/htmlnode.py:18-19 | The `map` and `join` over the attribute items. Its contract is carried by `Html.AttrsAppend` (renderings concatenate in insertion order) and `Html.AttrsRoundTrip` (a parser reads the list back). |
| Html.AttrsAppend | src/htmlnode.py:18-19 | Attributes render independently and in insertion order: the rendering of a concatenation is the concatenation of the renderings. |
| Html.ParseAttrStep | src/htmlnode.py:18 | One rendered attribute ` name="value"` is read back exactly, leaving the rest of the text. The name must not contain `=` and the value must not contain `"`. |
| Html.AttrsRoundTrip | src/htmlnode.py:18-19 | Reading back a rendered attribute list gives the original list: rendering loses nothing. |
| Html.ToHtml | src/htmlnode.py:30-57 | A leaf fails exactly when it has no value and is not `br`. A tagless leaf gives its raw value, `br` gives `<br>`, and any other leaf gives opening tag with attributes, value, closing tag. A parent without a tag or without children fails with the matching error. A parent with an empty child list gives its two tags. |
| Html.LeafToHtml | src/htmlnode.py:30-40 | `LeafNode.to_html`. Its results and its error are stated in `Html.ToHtml`, and when it succeeds in `Html.SerialisesIffWellFormed`. |
| Html.ChildrenToHtml | src/htmlnode.py:55 | The lazy `map` and `join` over the children. Its contract is carried by `Html.ChildrenConcatenate` (outputs in order), `Html.ChildrenFailAtFirst` (first failing child's error) and `Html.ChildrenSerialiseIffWellFormed`. |
| Html.SerialisesIffWellFormed | src/htmlnode.py:30-57 | Serialisation succeeds exactly on trees where every leaf has a value or is `br` and every parent has a tag and a child list, at any depth. |
| Html.ChildrenSerialiseIffWellFormed | src/htmlnode.py:55 | The children's join succeeds exactly when every child is well-formed. |
| Html.ChildrenConcatenate | src/htmlnode.py:55 | When every child serialises, the children's output is their outputs concatenated in order. |
| Html.ParentRendersChildrenInOrder | src/htmlnode.py:53-57 | A parent renders as opening tag with attributes, every child's output in order, closing tag. |
| Html.ChildrenFailAtFirst | src/htmlnode.py:55 | The children's join fails with the error of the first failing child. |
| Html.ParentFailsWithFirstChildError | src/htmlnode.py:47-57 | A parent with a failing child fails with the first failing child's error. |
| Inline.SplitNodesDelimiter | src/inline.py:5-26 | `split_nodes_delimiter`, node by node. Its contract is carried by `Inline.SplitNodesFails` (when it fails, with which error), `Inline.SplitNodesAppend` (each node's run in place), `Inline.NonPlainUnchanged`, `Inline.OthersPreserved`, `Inline.SplitRoundTrip`, `Inline.OutputNodesAccountedFor` and `Inline.OneTypedNodePerPair`. |
| Inline.SplitNodesFails | src/inline.py:5-26 | The split fails exactly when some plain-text node has an odd delimiter count (or the delimiter is empty). The error is the unmatched-delimiter one whenever the delimiter is not empty. |
| Inline.SplitNodesAppend | src/inline.py:7-25 | Each input node contributes its own output in place: splitting a concatenation is concatenating the splits. |
| Inline.NonPlainUnchanged | src/inline.py:8-9 | A node that is not plain text passes through unchanged. |
| Inline.OthersPreserved | src/inline.py:7-25 | The nodes of other types than plain text and the target type reach the output unchanged, in their order, none lost and none added. |
| Inline.SplitRoundTrip | src/inline.py:12-25 | Writing every target-typed output node back between delimiters reproduces the input's text: the split loses no character and moves none. |
| Inline.OutputNodesAccountedFor | src/inline.py:17-24 | Every output node is a non-plain input node passed through, or a new node that is plain or of the target type. A new node has no URL and no delimiter inside it, and is never empty plain text. |
| Inline.OneTypedNodePerPair | src/inline.py:12-24 | A plain node yields exactly one target-typed node per pair of delimiters, empty spans included. |
| Blocks.MarkdownToBlocks | src/blocks.py:16-20 | Every block is non-empty, stripped and free of blank lines. There are never more blocks than pieces of the split. |
| Blocks.BlocksRoundTrip | src/blocks.py:16-20 | Blocks joined with blank lines segment back into the same blocks in the same order. |
| Blocks.BlocksIdempotent | src/blocks.py:16-20 | Segmenting the re-joined blocks of a document gives the same blocks again. |
| Strings.JoinSplit | src/blocks.py:18 | Joining the pieces of `split` with the separator gives the text back: the split loses no character. |
| Strings.SplitJoin | src/blocks.py:18 | Pieces that hold no separator, and form none across a join point, split back out of their join unchanged. |
| Blocks.CleanPiecesOfBlocks | src/blocks.py:18-19 | Stripping the pieces and dropping the empty ones leaves a list of blocks unchanged. |
| Blocks.BlocksOfPrefix | src/blocks.py:18-19 | A blank-line-free text followed by a blank line contributes its stripped self, if non-empty, ahead of the blocks of the rest. |
| Blocks.SingleSegment | src/blocks.py:18-19 | A text without a blank line is one block, or none when it is all whitespace. |
| Blocks.TrailingBreakRoundTrip | src/blocks.py:16-20 | Blocks joined with blank lines and followed by one line break, as a file ending in a newline is, segment back into the same blocks. |
| Blocks.PaddedRoundTrip | src/blocks.py:16-20 | A line break before and after the blank-line-joined blocks, as a triple-quoted Python string has, changes nothing: the same blocks come back. |
| Blocks.ListMarker | src/blocks.py:61-77 | The first non-empty line decides the marker. A leading `-`, `*` or `+` gives that character plus a space and the list flag; anything else, or no non-empty line, gives no marker. |
| Blocks.GetListSeparator | src/blocks.py:61-77 | `get_list_seperator` applies the marker loop to the block's lines. Its contract is `Blocks.ListMarker`'s, and `Blocks.ListMarkerIff` states the unordered-list verdict it leads to. |
| Blocks.ListMarkerIff | src/blocks.py:27-55 | The unordered-list verdict holds exactly when the first line starts with `-`, `*` or `+` and every line starts with that character and a space. |
| Blocks.KindsExclusive | src/blocks.py:30-50 | The heading, quote, unordered-list and numbering tests exclude one another, and a code fence excludes all but the heading test. |
| Blocks.Classify | src/blocks.py:22-59 | The classification chain with the quote test as a parameter: code first, then `Blocks.LineVerdict`. `Blocks.ClassifyOrderFree` characterises each verdict and `Blocks.KindsExclusive` shows the tests exclude one another. |
| Blocks.BlockToBlockType | src/blocks.py:22-59 | `block_to_blocktype` as written: `Blocks.Classify` with the quote test as written. `Blocks.ClassifyBlock` shows that the loop-level model of the source computes it, and `Blocks.HeadingClassified`, `Blocks.HashLineIsParagraph` and `Blocks.UnmarkedClassified` give particular verdicts. |
| Blocks.LineVerdict | src/blocks.py:34-59 | The verdict after the code check: heading, quote, unordered list, ordered list, paragraph, in that precedence. `Blocks.ScanLines` shows that the per-line loop with its early heading return computes it. |
| Blocks.ClassifyOrderFree | src/blocks.py:22-59 | Each kind holds exactly when its own test holds and the block is not fenced code, and paragraph exactly when no test holds. The check order decides nothing except code over heading. |
| Blocks.ScanHeading | src/blocks.py:34-42 | The inner character loop with its early break finds a heading exactly when one to six `#` followed by a space open the line. |
| Blocks.ClassifyBlock | src/blocks.py:22-59 | The classifier's loops (code check, per-line heading scan with early return, three flags) compute the same kind as the declarative classification. |
| Blocks.ScanLines | src/blocks.py:34-59 | The per-line loop with its quote, list and numbering flags gives the verdict of the declarative tests in the same precedence. |
| Blocks.HeadingClassified | src/blocks.py:34-42 | A single line of one to six `#`, a space and text is a heading. |
| Blocks.HashLineIsParagraph | src/blocks.py:34-59 | A single line opening with `#` that fails the heading test is a paragraph. |
| Blocks.MapAll | src/blocks.py:84-111 | Building one node per element succeeds exactly when every element's build does. The nodes are in order, one per element, and a failure carries a failing element's error. |
| Runs.ConcatAll | src/blocks.py:157-166 | The `extend` loop succeeds exactly when every element's step does. Every node of the result comes from some element's run, and a failure carries the error of the first failing element. |
| Runs.ConcatAllAppend | src/blocks.py:159-164 | Every element contributes its run in place: the loop over two lists one after the other gives the two results concatenated, so a result is the runs in element order. |
| Runs.ConcatAllOne | src/blocks.py:159-164 | A single element contributes exactly its own run, or its own failure. |
| Blocks.CreateList | src/blocks.py:123-131 | A list succeeds exactly when every line's item does. It has the given tag and exactly one `li` per line, in line order. |
| Blocks.ItemAfterMarker | src/blocks.py:128 | An item's text is everything after the first space, so a space-free marker is dropped with its space. |
| Blocks.CreateHeading | src/blocks.py:133-137 | `create_heading_html_node`. Its contract is carried by `Blocks.HeadingBuilt` (level and text of a one-line heading), `Blocks.HeadingBuilds` (it never fails on a heading block under a total parser) and `Blocks.HeadingWellFormed`. |
| Blocks.HeadingBuilt | src/blocks.py:133-137 | `#` repeated k times, a space and text gives `h{k}` over the inline nodes of the text, or the inline parser's error. |
| Blocks.HeadingWellFormed | src/blocks.py:133-137 | A heading built from well-formed inline nodes is a well-formed tree. |
| Strings.DigitsRoundTrip | src/blocks.py:49 | The decimal text of a number reads back as that number, so the level tag and the list numbering name the intended number. |
| Blocks.CreateCode | src/blocks.py:139-146 | A code block always renders as `<pre><code>`, the code text, `</code></pre>`. |
| Blocks.CodeReassembles | src/blocks.py:141-144 | With three or more lines the block is its first line, a line break, the code text and its last line. With fewer lines the code text is one line break. |
| Blocks.ParagraphText | src/blocks.py:150 | Replacing line breaks by spaces is joining the block's lines with single spaces. |
| Blocks.CreateParagraph | src/blocks.py:148-152 | `create_paragraph_html_node`. `Blocks.ParagraphBuilt` states its result. |
| Blocks.ParagraphBuilt | src/blocks.py:148-152 | A paragraph is a `p` over the inline nodes of the block's lines joined by single spaces, or fails with the parser's error on that text. |
| Blocks.QuoteLineNodes | src/blocks.py:159-166 | One pass of the quote loop. Its contract is carried by `Blocks.QuoteLineText` (text after `>`), `Blocks.QuoteLineBlank` (a `br` leaf) and `Blocks.QuoteBuildsIff` (with a parser that never fails, a quote builds exactly when every line has a `>`). |
| Blocks.QuoteLineText | src/blocks.py:161-164 | A quote line `>`, whitespace, text contributes exactly the inline nodes of the text. |
| Blocks.QuoteLineBlank | src/blocks.py:161-166 | A quote line of `>` and whitespace only contributes one `<br>` leaf. |
| Blocks.CreateQuote | src/blocks.py:154-168 | A quote succeeds exactly when every line's contribution does. Its node is a `blockquote` without attributes whose children are the lines' nodes directly, with no `<p>` around them. |
| Blocks.QuoteOneLine | src/blocks.py:154-168 | A one-line quote is a `blockquote` holding exactly that line's nodes. |
| Blocks.QuoteLinesInOrder | src/blocks.py:156-168 | The first line's nodes come first, followed by the nodes of the remaining lines in order. |
| Blocks.QuoteWellFormed | src/blocks.py:154-168 | A built quote is well-formed when the inline parser yields well-formed nodes; the `<br>` leaves are well-formed too. |
| Blocks.BlockToHtml | src/blocks.py:84-109 | The `match` on the block kind, with the quote test as a parameter. `Blocks.BlockBuilds` states when it fails and `Blocks.BlockWellFormed` what it builds. |
| Blocks.MarkdownToHtmlNode | src/blocks.py:80-111 | `markdown_to_html_node` as written: `Blocks.Convert` with the quote test as written. `Blocks.ConvertsWhenInlineDoes` states when it fails, `Blocks.ConvertedTreeSerialises` that its trees serialise, and `Blocks.UnmarkedConversionFails` and `Blocks.QuoteWithoutMarkerFails` a document it fails on. |
| Blocks.MarkdownToHtmlNodeStrict | src/blocks.py:80-111 | The conversion with the corrected quote test. `Blocks.ConvertsWhenInlineDoes` states that it converts every document when the inline parser never fails. |
| Blocks.Convert | src/blocks.py:80-111 | The result is a `div` with exactly one child per block, block k's node at position k. It fails exactly when some block's builder fails, with the error of the first such block. With `strict` false the builder is chosen by `block_to_blocktype` as written (line 85); this is `Blocks.MarkdownToHtmlNode`. |
| Blocks.BlankDocument | src/blocks.py:80-111 | A document of only whitespace, the empty one included, has no blocks and renders as `<div></div>`. |
| Blocks.OneBlockDocument | src/blocks.py:80-111 | A document that is a single block converts to a `div` around that block's tree, or fails with that block's error. |
| Blocks.HeadingBuilds | src/blocks.py:133-137 | If the inline parser never fails, the heading builder succeeds on every block with a heading line: such a block always contains the space the builder looks for. |
| Blocks.QuoteBuilds | src/blocks.py:154-168 | If the inline parser never fails, the quote builder succeeds on every block whose lines all start with `>`. |
| Blocks.QuoteBuildsIff | src/blocks.py:154-168 | If the inline parser never fails, the quote builder succeeds exactly when every line has a `>` for `index` to find. |
| Blocks.StrictQuotesMarked | src/blocks.py:45-46 | Under the corrected test no quote block has a line without `>`. |
| Blocks.ListBuilds | src/blocks.py:123-131 | If the inline parser never fails, the list builder succeeds on every block that passes either list test: each line has the space after its marker or number. |
| Blocks.BlockBuilds | src/blocks.py:84-109 | If the inline parser never fails, the builder the block's kind selects fails exactly when the block is classified a quote and has a line without `>`. The heading and list builders always find their space. Under the corrected test it never fails. |
| Blocks.ConvertsWhenInlineDoes | src/blocks.py:80-111 | If the inline parser never fails, the conversion as written fails exactly when some block is classified a quote and has a line without `>`. Under the corrected test every document converts. |
| Blocks.BlockWellFormed | src/blocks.py:84-109 | When the inline parser yields well-formed nodes, every block that builds, under either test, yields a well-formed tree. Under the corrected test every block builds. |
| Blocks.ConvertedTreeSerialises | src/blocks.py:80-111 | For such an inline parser, a converted tree serialises without error, under either test. Under the corrected test every document converts. |
| Blocks.QuoteWithoutMarkerFails | src/blocks.py:45-46 | Every document made of `"> "` and text, a line break and one character other than `>` (such as `"> a\nb"`) is one block that the classifier as written calls a quote. The quote builder fails on the second line, and so does the conversion as written. Once the text parses, the error is the missing-`>` one. The corrected test makes the block a paragraph. |
| Blocks.UnmarkedClassified | src/blocks.py:45-46 | A first line `"> "` and text followed by a one-character line other than `>` is a quote as written, and a paragraph under the strict test. |
| Blocks.QuoteSecondLineUnmarked | src/blocks.py:159-161 | When the first line is `"> "` and text that parses, a second line without `>` makes the quote builder fail with the error of `index`. |
| Blocks.UnmarkedQuoteFails | src/blocks.py:159-161 | The quote builder fails on such a block, with the error of `index` once the first line's text parses. |
| Blocks.UnmarkedConversionFails | src/blocks.py:80-111 | The conversion as written of such a document fails, with the error of `index` once the first line's text parses. |
| Title.FirstTitleLine | src/generate_page.py:10-12 | No position exactly when no line starts with `# `; otherwise the position of the first such line. |
| Title.ExtractTitle | src/generate_page.py:7-13 | Fails with the no-title error exactly when no line starts with `# `. Otherwise it gives the first such line's title: the line without leading `#`, stripped, free of line breaks. |
| Title.TitleOf | src/generate_page.py:12 | `line.lstrip("#").strip()`. Its contract is carried by `Title.TitleOfPadded` and `Title.TitleRoundTrip`. |
| Title.TitleOfPadded | src/generate_page.py:12 | `#`, whitespace starting with a space, and stripped text give that text as the title, even when the text opens with `#`. |
| Strings.StripUnique | src/generate_page.py:12 | `strip` removes the whitespace around a stripped, non-empty text and nothing else. |
| Title.TitleRoundTrip | src/generate_page.py:7-13 | A document whose first line is `#`, spaces and a title gives that title back, whatever follows. |
| Title.TitleOnlyLine | src/generate_page.py:7-13 | A document made of one such line gives its title back. |
| Examples.TitleOfHeader | src/test_generate_page.py:5-8 | `"# header"` has the title `header`. |
| Examples.TitleOfSpacedHeader | src/test_generate_page.py:5-12 | `"#              header"` has the title `header`. |
| Examples.NoTitleInSubheading | src/test_generate_page.py:14-17 | `"## header"` has no title. |
| Examples.HrefExample | src/test_htmlnode.py:10-12 | One `href` attribute renders as ` href="https://example.com"`. |
| Examples.MultiplePropsExample | src/test_htmlnode.py:14-27 | Two attributes render in insertion order, each after its own space: ` src="https://example.com/goofy.jpg" alt="this is a goofy image"`. The test checks the leading space and both parts. |
| Examples.NoPropsExample | src/test_htmlnode.py:29-35 | No attributes and an empty dict both render as the empty text. |
| Examples.CodeSpanExample | src/test_inline.py:7-15 | A backtick span inside plain text splits into plain, code, plain. |
| Examples.ItalicSpanExample | src/test_inline.py:17-25 | An underscore span splits into plain, italic, plain. |
| Examples.BoldSpanExample | src/test_inline.py:27-35 | A `**` span splits into plain, bold, plain: a two-character delimiter. |
| Examples.OneSpan | src/inline.py:12-25 | One span between two delimiters, inside non-empty text without the delimiter's first character, splits into plain, typed, plain. This holds for any non-empty delimiter. |
| Examples.ThreeStagesShape | src/test_inline.py:37-51 | Text with an italic, a bold and a code span, passed through the code, italic and bold stages in turn, gives seven nodes: each span typed, and the text around them plain. |
| Examples.MultipleSectionsExample | src/test_inline.py:37-51 | The three stages turn `"This is _text_ **with** a `code block` word"` into the seven nodes the test expects. |
| Examples.MarkdownBlocksExample | src/test_blocks.py:5-23 | The test's document, written as its three blocks joined by blank lines with a line break at each end, segments into those three blocks. The long lines are written in two pieces each. |
| Examples.HeadingBlocksExample | src/test_blocks.py:25-50 | Six heading lines separated by blank lines give the six headings as blocks. |
| Examples.SingleBlockExample | src/test_blocks.py:52-66 | Five lines without a blank line between them, with a line break at each end, give one block of all five lines. |
| Examples.ExcessiveNewlinesExample | src/test_blocks.py:68-77 | Three line breaks between two lines still give exactly two blocks. |
| Examples.HeadingExample | src/test_blocks.py:79-81 | `"# hello sir"` is a heading. |
| Examples.HeadingLevelsExample | src/test_blocks.py:79-96 | One to six `#`, a space and `hello sir` are a heading at every level. |
| Examples.SevenHashesExample | src/test_blocks.py:98-99 | Seven hashes and a space make a paragraph, not a heading. |
| Examples.NoSpaceExample | src/test_blocks.py:101-102 | Hashes without a space make a paragraph. |
| Examples.CodeExample | src/test_blocks.py:105-106 | A block opened and closed by three backticks is code. |
| Examples.ShortFenceExample | src/test_blocks.py:108-109 | One backtick short at each end is a paragraph. |
| Examples.QuoteExample | src/test_blocks.py:112-113 | Four `>` lines are a quote. |
| Examples.BrokenQuoteExample | src/test_blocks.py:115-116 | A two-character line without `>` breaks the quote. |
| Examples.UnorderedListExample | src/test_blocks.py:119-120 | Three `- ` lines are an unordered list. |
| Examples.MixedMarkerExample | src/test_blocks.py:122-123 | A numbered line among `- ` lines breaks the unordered list; the block is a paragraph. |
| Examples.MissingSpaceListExample | src/test_blocks.py:125-126 | A marker without its space breaks the list. |
| Examples.OrderedListExample | src/test_blocks.py:129-130 | Lines numbered 1, 2, 3 are an ordered list. |
| Examples.SkippedNumberExample | src/test_blocks.py:132-133 | A skipped number breaks the ordered list. |
| Examples.ParagraphExample | src/test_blocks.py:135-137 | Plain text is a paragraph. |

## Left out

- File system work is not part of this model: `generate_page`,
  `generate_pages_recursive`, copying static files and `main.py` only read,
  template and write files.
- `text_to_textnodes`, the link and image extraction in `inline.py` and
  `text_node_to_html_node` in `textnode.py` are not part of this model.
  `text_to_children` is the `InlineParser` parameter.
- The `print` warning in `create_codeblock_html_node` has no effect on the
  result and is left out.
- `HTMLNode.to_html` of the base class only raises `NotImplementedError`.
  The model has leaf and parent nodes only.
- Unicode whitespace beyond ASCII is not modelled: `strip`, `lstrip` and
  `str.isspace` use the ASCII set here.
- Attribute values are rendered without escaping, as in the source. The
  round trip `Html.AttrsRoundTrip` therefore needs values without `"`.
- Inline.SplitNodesFails: with an empty delimiter the error is the
  unmatched-delimiter one or the empty-separator one, depending on the
  text's length, as Python's `count("")` and `split("")` give. The
  contract names the error only for a non-empty delimiter.
- Inline.SplitRoundTrip: stated for a target type other than plain text.
  With plain text as target, the spans become plain nodes, and rendering
  cannot tell them from their surroundings.
- Inline.OneTypedNodePerPair: stated for a target type other than plain
  text, as every caller passes code, italic or bold. With plain text as
  target, the typed nodes cannot be told from the plain ones around them.
- Inline.OutputNodesAccountedFor: stated for a target type other than
  plain text, for the same reason. With plain text as target, an empty
  span becomes an empty plain node.
- Blocks.QuoteWithoutMarkerFails: the missing-`>` error is promised only
  when the inline parser accepts the first line's text. Otherwise the
  builder fails earlier with the parser's own error.
- A heading block is assumed to be a single line in the heading lemmas.
  The classifier also says heading for a multi-line block whose heading
  line is not the first; `Blocks.ClassifyOrderFree` covers that. The
  builder then takes `block[count+1:]`, where `count` is the number of `#`
  before the block's first space. For `"para text\n## Sub"` that is
  `h0` over `"ara text\n## Sub"`. The model computes this, but no lemma
  states it.

## Findings

| source | as written | input that shows it | evidently intended | confidence | as-written member | corrected member |
|---|---|---|---|---|---|---|
| src/blocks.py:45-46 | A line counts against the quote only when it has at least two characters and does not start with `>`. A one-character line such as `b` passes without a `>`. The quote builder (line 161) then calls `line.index(">")` on it and raises `ValueError`. | `"> a\nb"` | Every line of a quote starts with `>`. The quote builder (line 161) looks up `>` on every line, and the test at src/test_blocks.py:115-116 rejects a quote block with a line lacking `>`. The block is then a paragraph and conversion succeeds. | not executed | Blocks.QuoteWithoutMarkerFails | Blocks.ConvertsWhenInlineDoes |
