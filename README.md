# Markdown to HTML: a Dafny model

This project models the Markdown-to-HTML core of a small Python static site
generator. It covers:

- the HTML node tree, meaning the attribute rendering and the serialisation
  of parent nodes;
- the two inline delimiter splitters: the current one in
  `inline_markdown.py` and the older one in `parsing.py`;
- the image and link extractors;
- block segmentation and block classification;
- the per-type block handlers and their dispatch table;
- the document driver and the title search.

Each source file becomes one Dafny module:

| module | file | what it holds |
|---|---|---|
| `Outcomes` | (shared) | `Option`, `Result`, and the Python exceptions raised (`ValueError`, `IndexError`, `NotImplementedError`) with their messages |
| `Strings` | (shared) | the Python `str` operations the core uses: `split`, `split(sep, 1)`, `join`, `strip`, `lstrip`/`rstrip` with a character set, `startswith`/`endswith`, and integer formatting |
| `TextNodes` | textnode.py interface | `TextType`, `TextNode`, and the in-order `extend` over a list of nodes |
| `HtmlNodes` | src/htmlnode.py | the node tree, its constructor defaults and `props_to_html` |
| `ParentNodes` | src/parentnode.py | `to_html` over the tree |
| `InlineMarkdown` | src/inline_markdown.py | `split_node_delimiter`, `split_nodes_delimiter`, `extract_markdown_images`, `extract_markdown_links` |
| `Parsing` | src/parsing.py | the older `split_nodes_delimiter`, and how it differs from the current one |
| `BlockMarkdown` | src/block_markdown.py | `BlockType`, `markdown_to_blocks`, `block_to_block_type` |
| `BlockHandlers` | src/block_handlers.py | the six handlers, `text_to_children`, `BLOCK_HANDLERS` |
| `Markdown` | src/markdown.py | `markdown_to_html_node`, `block_to_html_node`, `extract_title` |

Modelling choices:

- **Exceptions become values.** Every Python exception the core can raise is
  an `Err` value carrying Python's own message. This includes:
  - the `ValueError` for an unmatched delimiter;
  - `str.split("")` raising `ValueError("empty separator")`;
  - the `ValueError` for unpacking a missing heading space;
  - the `IndexError` for a code block or list item without the expected
    separator;
  - the `ValueError` for an empty block;
  - the `ValueError` for a missing title;
  - the `ValueError`s `ParentNode.to_html` raises;
  - `NotImplementedError` from the base `to_html`.
- **Source loops become methods.** Where the source loops and mutates a
  list, the model is a method with a loop and invariants, proved equal to a
  specification function. This applies to:
  - both `split_nodes_delimiter` functions;
  - the `re.findall` scans behind the extractors, which are an
    index-advancing scan.
- **Comprehensions become functions.** Comprehensions and plain expressions
  are modelled as functions.
- **Unseen conversions become parameters.** `text_to_textnodes`,
  `text_node_to_html_node` and `LeafNode.to_html` are not part of this
  model. `text_to_textnodes` and `text_node_to_html_node` are the two
  fields of an `Inline` value. `LeafNode.to_html` is a `LeafRenderer`
  function. Each of them may fail or succeed arbitrarily, and every
  property is stated for all of them.

Two behaviours of the code are easy to miss, and the model follows the code
in both:

- **Blank blocks.** `markdown_to_blocks` drops the pieces that are empty
  *before* stripping (src/block_markdown.py:15). A piece holding only
  whitespace therefore survives as an empty block, and rendering the
  document then fails. `WhitespacePieceKept` and `WhitespacePieceFails`
  state this.
- **Empty delimited sections.** The older splitter keeps empty delimited
  sections (src/parsing.py:16-17), while the current one drops them.
  `EmptyDelimitedKept`, `EmptyDelimitedDropped` and `SplitNodeAgree` state
  the difference exactly.

## Model

| member | source | states |
|---|---|---|
| `Strings.Split` | src/block_markdown.py:15 | `str.split` with a non-empty separator always gives at least one piece |
| `Strings.SplitJoin` | src/inline_markdown.py:18 | joining the pieces of `split(sep)` with `sep` gives back the string: the partner of `Split` |
| `Strings.SplitOfJoin` | src/block_handlers.py:8 | splitting on one character gives back parts that were joined on it, when no part holds that character: with `SplitJoin`, `split("\n")` and joining on `\n` are inverse |
| `Strings.SplitConcat` | src/inline_markdown.py:18 | concatenating the pieces gives the string with every occurrence of the separator removed |
| `Strings.SplitSingle` | src/block_markdown.py:31 | there is exactly one piece iff the separator does not occur, and then that piece is the whole string |
| `Strings.SplitPiecesFree` | src/block_markdown.py:15 | no piece of a split contains the separator |
| `Strings.SplitOnce` | src/block_handlers.py:13 | `split(sep, 1)`: one piece (the whole string) iff `sep` does not occur; otherwise the string is `first + sep + rest`, where `first` holds no occurrence of `sep` |
| `Strings.StripShape` | src/block_markdown.py:15 | `strip` leaves a slice of the input with only whitespace outside it, and the result starts and ends in non-whitespace |
| `Strings.StripTrimmed` | src/block_handlers.py:25 | `strip` leaves a string with no whitespace at either end unchanged (idempotence, with `StripShape`) |
| `Strings.NatToStringValue` | src/block_handlers.py:14-15 | the decimal text used for `h{level}` and `{i + 1}. ` reads back as the number |
| `TextNodes.ExtendAllAppend` | src/inline_markdown.py:5-11 | extending over `a + b` is extending over `a`, then over `b`; the first failure wins |
| `TextNodes.ExtendAllAgree` | src/parsing.py:4-21 | two per-node splitters that fail on the same nodes and agree wherever they succeed: over a list they either both fail, or both succeed with the same list (their errors may differ) |
| `HtmlNodes.NewHtmlNode` | src/htmlnode.py:2-6 | a missing `children` becomes `[]` and a missing `props` becomes `{}`; the other fields are stored as given |
| `HtmlNodes.Value` | src/parentnode.py:5-6 | a parent node's value is always None; the other node kinds report their stored value |
| `HtmlNodes.NewParentNode` | src/parentnode.py:5-6 | a parent node has no value; missing `children` and `props` default to empty |
| `HtmlNodes.PropsToHtmlAppend` | src/htmlnode.py:11-12 | adding one attribute at the end adds exactly ` key="val"` at the end: insertion order, no escaping |
| `HtmlNodes.PropsToHtmlLength` | src/htmlnode.py:11-12 | the rendering is empty iff there are no props; otherwise it starts with a space; each pair takes at least four characters |
| `HtmlNodes.PropsToHtmlExample` | src/htmlnode.py:11-12 | two pairs render as ` k1="v1" k2="v2"` |
| `ParentNodes.ToHtml` | src/parentnode.py:8-17 | `to_html`: a plain node raises `NotImplementedError` as the base class does (src/htmlnode.py:8-9); a parent with no tag or an empty tag fails first, then one with no children, each with its message; a leaf is rendered by the given renderer; success starts with the opening tag and attributes and ends with the closing tag |
| `ParentNodes.ParentToHtml` | src/parentnode.py:8-17 | a parent serialises iff it has a tag and children and every child serialises; the output is the open tag, then the children's HTML in order, then the close tag |
| `ParentNodes.FirstChildFailure` | src/parentnode.py:15 | a failing parent fails with the error of its first failing child |
| `ParentNodes.DescendantFailure` | src/parentnode.py:15 | a failure anywhere in the tree makes the whole tree's serialisation fail |
| `ParentNodes.SingleChild` | src/parentnode.py:13-17 | a tagged parent with one serialisable child wraps that child's HTML in its tags |
| `ParentNodes.TwoChildren` | src/parentnode.py:15 | the children's HTML is concatenated in order with no separator |
| `ParentNodes.SingleChildExample` | src/parentnode.py:13-17 | `<div>` around one leaf renders as `<div>` + the leaf's HTML + `</div>` |
| `ParentNodes.GrandchildrenExample` | src/parentnode.py:13-17 | nested parents render recursively: `<main><div>x</div><div>y</div></main>` |
| `InlineMarkdown.SectionNodesAt` | src/inline_markdown.py:26-29 | each non-empty section appears, in order, at its rank among the non-empty sections; odd sections get the delimited type and even sections get TEXT |
| `InlineMarkdown.SectionNodesShape` | src/inline_markdown.py:26-29 | every node built has non-empty text, no url, and type TEXT or the delimited type |
| `InlineMarkdown.SectionNodesTexts` | src/inline_markdown.py:26-29 | the built nodes' texts concatenate to the sections concatenated: dropping empty sections loses no text |
| `InlineMarkdown.SplitNodeDelimiter` | src/inline_markdown.py:14-29 | a non-TEXT node comes back alone; an empty delimiter fails as `split` does; an even number of sections fails with the message quoting the delimiter and the text; success yields non-empty pieces whose texts spell the input with the delimiters removed |
| `InlineMarkdown.SplitNodesDelimiter` | src/inline_markdown.py:5-11 | the loop that extends a fresh list gives the in-order concatenation of the per-node splits, failing with the first failing node |
| `InlineMarkdown.ScanTo` | src/inline_markdown.py:33 | the character-class run `[^...]*` stops at the first stop character, or at the end |
| `InlineMarkdown.BracketAtSound` | src/inline_markdown.py:33 | a bracket match is `[caption](url)` written at that index, with no brackets in the caption and no parentheses in the url |
| `InlineMarkdown.MatchAtSound` | src/inline_markdown.py:32-37 | a match at `p` is the pattern's text written at `p` (with `!` for images), its groups avoid their stop characters, and a link is not preceded by `!` |
| `InlineMarkdown.MatchAtComplete` | src/inline_markdown.py:32-37 | conversely, wherever the pattern's text is written at `p` with valid groups (and, for a link, no preceding `!`), the scan matches it there with exactly those groups, so a position has at most one match |
| `InlineMarkdown.ImageExcludesLink` | src/inline_markdown.py:36-37 | the brackets of an image never match as a link: the lookbehind rejects them |
| `InlineMarkdown.FindAllSound` | src/inline_markdown.py:32-37 | the matches found lie at or after the start, each is the scan's match at its own start, and they come left to right without overlapping |
| `InlineMarkdown.FindAllComplete` | src/inline_markdown.py:32-37 | every position where the pattern matches lies inside some found match: none is skipped except by overlap |
| `InlineMarkdown.Pairs` | src/inline_markdown.py:33 | one (caption, url) pair per match |
| `InlineMarkdown.PairsAt` | src/inline_markdown.py:33 | pair `i` is the two groups of match `i` |
| `InlineMarkdown.FindAllGroups` | src/inline_markdown.py:32-37 | the scan loop returns the groups of exactly the matches of the specification scan, in order |
| `InlineMarkdown.GroupsWritten` | src/inline_markdown.py:32-37 | each returned pair is the groups of the pattern written at some position of the text: caption free of brackets, url free of parentheses and, for a link, no `!` just before the `[` |
| `InlineMarkdown.ExtractMarkdownImages` | src/inline_markdown.py:32-33 | `extract_markdown_images`: the groups of exactly the specification scan's matches, in order; each pair is an `![alt](url)` written at some position, alt free of brackets and url free of parentheses |
| `InlineMarkdown.ExtractMarkdownLinks` | src/inline_markdown.py:36-37 | `extract_markdown_links`: the same for `[caption](url)`, each written at a position not preceded by `!` |
| `Parsing.KeptNodesAt` | src/parsing.py:15-19 | every odd section (even an empty one) and every non-empty even section appears, in order, at its rank among the kept sections, with its type |
| `Parsing.KeptNodesCount` | src/parsing.py:15-17 | with a non-TEXT delimited type, exactly one delimited node per odd section |
| `Parsing.KeptNodesTexts` | src/parsing.py:15-19 | the kept nodes' texts concatenate to the sections concatenated |
| `Parsing.SplitNode` | src/parsing.py:7-19 | one step of the outer loop: non-TEXT nodes pass through; an empty delimiter fails as `split` does; an even number of sections fails with the message quoting the delimiter only; on success the texts spell the text without delimiters and, when the delimited type is not TEXT, there are exactly `(sections - 1) / 2` delimited nodes |
| `Parsing.AppendSections` | src/parsing.py:15-19 | the inner loop appends exactly the kept nodes of the sections, in order |
| `Parsing.SplitNodesDelimiter` | src/parsing.py:4-21 | the nested loop gives the in-order extension by `SplitNode`, failing with the first failing node |
| `Parsing.KeptCountExceeds` | src/parsing.py:16-19 | the older splitter keeps at least as many sections as the newer one, and strictly more when some odd section is empty |
| `Parsing.SplitNodeAgree` | src/parsing.py:4-21 | the two splitters fail on the same nodes; they agree on non-TEXT nodes; on a successful TEXT node they agree iff no odd section is empty |
| `Parsing.SplitAllAgree` | src/parsing.py:4-21 | over a list with no empty delimited section, the two `split_nodes_delimiter` functions either both fail (their messages differ: only the current one quotes the text) or both succeed with the same list |
| `Parsing.DoubledDelimiterSplit` | src/parsing.py:10 | two delimiters back to back produce an empty middle section |
| `Parsing.DoubledBoldSplit` | src/parsing.py:10 | `a****b` split on `**` is `[a, "", b]` |
| `Parsing.EmptyDelimitedKept` | src/parsing.py:15-19 | the older splitter turns `a****b` into TEXT `a`, an empty BOLD node, then TEXT `b` |
| `Parsing.EmptyDelimitedDropped` | src/inline_markdown.py:26-29 | the current splitter turns `a****b` into TEXT `a`, then TEXT `b` |
| `BlockMarkdown.KeptBlocksLength` | src/block_markdown.py:15 | one block per non-empty piece |
| `BlockMarkdown.KeptBlocksAt` | src/block_markdown.py:15 | each non-empty piece appears, stripped, at its rank among the non-empty pieces |
| `BlockMarkdown.MarkdownToBlocks` | src/block_markdown.py:14-15 | `markdown_to_blocks`: as many blocks as non-empty pieces of the split on a blank line; every block is trimmed and contains no blank line |
| `BlockMarkdown.MarkdownToBlocksOrder` | src/block_markdown.py:14-15 | every non-empty piece yields its stripped block, in document order |
| `BlockMarkdown.EmptyMarkdown` | src/block_markdown.py:14-15 | an empty document has no blocks |
| `BlockMarkdown.WhitespacePieceKept` | src/block_markdown.py:15 | a whitespace-only piece survives as an empty block, because the emptiness check comes before the strip |
| `BlockMarkdown.WhitespacePieces` | src/block_markdown.py:15 | a run `\n\n \n\n` splits into three pieces with a lone space in the middle |
| `BlockMarkdown.LeadingHashes` | src/block_markdown.py:28 | the length of the run of `#` at the start of the string |
| `BlockMarkdown.HeadingMatch` | src/block_markdown.py:28 | the heading test holds iff one to six `#` are followed by a space, so seven `#` never make a heading |
| `BlockMarkdown.Lines` | src/block_markdown.py:31 | a block always has at least one line |
| `BlockMarkdown.BlockToBlockType` | src/block_markdown.py:18-49 | an empty block fails with the source's message; otherwise the first rule that holds decides, in the order code, heading, quote, unordered list, ordered list, paragraph; each type holds iff its rule holds and every earlier rule fails |
| `BlockMarkdown.FirstLinePrefix` | src/block_markdown.py:31-46 | a prefix of the first line is a prefix of the block |
| `BlockMarkdown.ClassifiedPrefix` | src/block_markdown.py:34-46 | a quote starts with `>`, an unordered list with `* ` or `- `, an ordered list with `1. ` |
| `BlockMarkdown.TrimmedCode` | src/block_markdown.py:24 | for a trimmed block, `\n```$` means ending with `\n```` (the `$` before a final newline cannot apply) |
| `BlockMarkdown.OneLine` | src/block_markdown.py:31 | a block with no newline is one line |
| `BlockMarkdown.TwoLines` | src/block_markdown.py:31 | `a\nb` is the two lines `a` and `b` |
| `BlockMarkdown.FencedCode` | src/block_markdown.py:24-25 | a fence, then anything, then a newline and a fence, is code |
| `BlockMarkdown.GluedFence` | src/block_markdown.py:22-25 | a closing fence not on its own line gives a paragraph, not code |
| `BlockMarkdown.SevenHashes` | src/block_markdown.py:28-29 | seven `#` are not a heading |
| `BlockMarkdown.HeadingLevels` | src/block_markdown.py:28-29 | one to six `#` then a space is a heading |
| `BlockMarkdown.MixedBullets` | src/block_markdown.py:37-42 | mixing `- ` and `* ` in one block gives a paragraph: the marker must be the same on every line |
| `BlockMarkdown.RepeatedNumber` | src/block_markdown.py:44-46 | `1.` on two lines is not an ordered list: numbers must count up from 1 |
| `BlockMarkdown.CountingUp` | src/block_markdown.py:44-46 | `1.` then `2.` is an ordered list |
| `BlockHandlers.NodeResults` | src/block_handlers.py:52-55 | one conversion per text node, in order |
| `BlockHandlers.TextToChildren` | src/block_handlers.py:50-55 | `text_to_children`: a failure of the inline parse propagates; otherwise it succeeds iff every node converts, the children being the converted nodes in order, and it fails with the first failing conversion |
| `BlockHandlers.Wrap` | src/block_handlers.py:9 | `ParentNode(tag, text_to_children(text))`: succeeds iff the children do, with no props |
| `BlockHandlers.JoinedLinesFree` | src/block_handlers.py:8 | lines without newlines, joined with spaces, contain no newline |
| `BlockHandlers.ParagraphText` | src/block_handlers.py:8 | the paragraph's inline input contains no newline |
| `BlockHandlers.ParagraphToHtmlNode` | src/block_handlers.py:7-9 | succeeds iff the children of the paragraph text do, and then is a `p` with no attributes holding exactly those children; otherwise it fails with their error |
| `BlockHandlers.ParagraphLines` | src/block_handlers.py:8 | for any block, written as its lines joined by newlines, the paragraph text is the lines each stripped, joined by single spaces |
| `BlockHandlers.ParagraphTwoLines` | src/block_handlers.py:8 | two lines become `strip(a) + " " + strip(b)` |
| `BlockHandlers.HeadingToHtmlNode` | src/block_handlers.py:12-15 | with no space it fails with Python's unpacking message; otherwise an `h{n}` (n the length of the text before the first space) around the children of the rest |
| `BlockHandlers.HeadingSplit` | src/block_handlers.py:13-14 | for a classified heading, the split gives the `#` run (length 1 to 6) and the text after the space |
| `BlockHandlers.CodeText` | src/block_handlers.py:19 | the code text fails with `IndexError` iff the block has no newline |
| `BlockHandlers.CodeToHtmlNode` | src/block_handlers.py:18-21 | a `pre` around the single converted CODE text node; each failure propagates |
| `BlockHandlers.CodeBody` | src/block_handlers.py:19 | the first line (the language) is dropped and the closing fence is removed, keeping the body's final newline |
| `BlockHandlers.CodeKeepsFence` | src/block_handlers.py:19 | a block ending in a fence and a newline keeps its fence: `rstrip` stops at the newline |
| `BlockHandlers.CodeClassified` | src/block_handlers.py:18-21 | a block classified as code always has the newline the handler indexes past |
| `BlockHandlers.QuoteText` | src/block_handlers.py:25-26 | the quote's inline input contains no newline |
| `BlockHandlers.QuoteToHtmlNode` | src/block_handlers.py:24-27 | succeeds iff the children of the quote text do, and then is a `blockquote` with no attributes holding exactly those children; otherwise it fails with their error |
| `BlockHandlers.QuoteLines` | src/block_handlers.py:25-26 | for any block, written as its lines joined by newlines, the quote text is the lines each with the whole leading run of `>` removed and then stripped, joined by single spaces |
| `BlockHandlers.QuoteMarker` | src/block_handlers.py:25 | `> x` becomes `x` |
| `BlockHandlers.QuoteMarkerRemoved` | src/block_handlers.py:25 | `lstrip(">")` removes the marker and keeps the space |
| `BlockHandlers.NestedQuoteMarker` | src/block_handlers.py:25 | `>> x` also becomes `x`: every leading `>` is removed |
| `BlockHandlers.ListItem` | src/block_handlers.py:40 | an item fails with `IndexError` iff its line has no space |
| `BlockHandlers.ItemResults` | src/block_handlers.py:39-42 | one item per line, in order |
| `BlockHandlers.ListItems` | src/block_handlers.py:39-42 | the items succeed iff every line has a space; item `i` is line `i` after its first space |
| `BlockHandlers.ItemNodes` | src/block_handlers.py:43-46 | one `li` per item, in order |
| `BlockHandlers.ListBlockToHtmlNode` | src/block_handlers.py:38-47 | an item failure propagates; otherwise it succeeds iff every item's children do, giving a list-tag node with one `li` per line, in order |
| `BlockHandlers.UListToHtmlNode` | src/block_handlers.py:30-31 | an item failure propagates; otherwise success iff every item's children succeed, giving a `ul` with no attributes and one `li` per line, in order, each holding its item's children |
| `BlockHandlers.OListToHtmlNode` | src/block_handlers.py:34-35 | an item failure propagates; otherwise success iff every item's children succeed, giving an `ol` with no attributes and one `li` per line, in order, each holding its item's children |
| `BlockHandlers.BulletItem` | src/block_handlers.py:40 | a `* ` or `- ` line's item is the text after the marker |
| `BlockHandlers.NumberedItem` | src/block_handlers.py:40 | a `{i+1}. ` line's item is the text after the marker |
| `BlockHandlers.UListItems` | src/block_handlers.py:38-42 | a classified unordered list never fails on its items, and each item is its line without the two-character marker |
| `BlockHandlers.OListItems` | src/block_handlers.py:38-42 | a classified ordered list never fails on its items, and item `i` is line `i` without `{i+1}. ` |
| `BlockHandlers.BlockHandlersTotal` | src/block_handlers.py:58-65 | every block type has a handler, and it is the handler of that type |
| `Markdown.BlockToHtmlNode` | src/markdown.py:15-20 | a classification failure propagates; otherwise the table's handler for the type renders the block |
| `Markdown.BlockDispatch` | src/markdown.py:15-20 | each classified block reaches its own handler; the missing-handler branch is never taken |
| `Markdown.BlockResults` | src/markdown.py:8-11 | one rendering per block, in order |
| `Markdown.MarkdownToHtmlNode` | src/markdown.py:6-12 | succeeds iff every block renders, giving a `div` with one child per block in order; otherwise it fails with the first failing block |
| `Markdown.EmptyDocument` | src/markdown.py:6-12 | an empty document gives a `div` with no children, and serialising it fails |
| `Markdown.EmptyBlockFails` | src/markdown.py:9 | an empty block makes the whole document fail |
| `Markdown.WhitespacePieceFails` | src/markdown.py:6-12 | a document with a whitespace-only piece between two blocks fails to render |
| `Markdown.HeadingBlock` | src/markdown.py:15-20 | a classified heading renders as `h{k}` around the text after the `#` run and its space |
| `Markdown.CodeBlock` | src/markdown.py:15-20 | a classified code block renders through the code handler without an `IndexError` |
| `Markdown.UListBlock` | src/markdown.py:15-20 | a classified unordered list renders as `ul` with one `li` per line, holding the line after its marker |
| `Markdown.OListBlock` | src/markdown.py:15-20 | a classified ordered list renders as `ol` with one `li` per line, holding the line after its `{i+1}. ` |
| `Markdown.FirstTitle` | src/markdown.py:25-28 | a title is found iff some line starts with `# `; the result is the first such line after `# `, stripped; otherwise the call fails with the source's message |
| `Markdown.StrippedLines` | src/markdown.py:24 | one stripped line per line of the document |
| `Markdown.ExtractTitle` | src/markdown.py:23-28 | `extract_title`: the first stripped line starting with `# `, without the marker and stripped; otherwise `ValueError` |
| `Markdown.DeeperNotTitle` | src/markdown.py:26 | a `##` line is not a title |
| `Markdown.NoTitle` | src/markdown.py:28 | with no title line, the call fails with the source's message |
| `Markdown.TwoStrippedLines` | src/markdown.py:24 | `a\nb` gives the stripped lines `strip(a)` and `strip(b)` |
| `Markdown.StripKeepsHashes` | src/markdown.py:24-26 | stripping `## x` keeps its `##`, so a subtitle never reads as a title |
| `Markdown.SubtitleSkipped` | src/markdown.py:25-27 | a `##` line before a `#` line is skipped, and the title is the later line's text |
| `Markdown.SkipUntitled` | src/markdown.py:25-26 | a first line that is not a title is passed over |
| `Outcomes.Collect` | src/markdown.py:8-11 | a list of results succeeds iff each does, keeping order; otherwise it fails with the first failure |

## Left out

- `src/main.py`, `src/copystatic.py` and `src/generate_html.py` are left out. They do file and directory I/O: copying static files and writing pages.
- `__repr__` of `HTMLNode` and `ParentNode` (src/htmlnode.py:14-17, src/parentnode.py:19-22) is left out. It is debugging output built on Python's `repr`.
- `text_to_textnodes`, `text_node_to_html_node` and `LeafNode.to_html` are not part of this model. Their source files are missing. They are parameters, so every property holds whatever they return.
- The `isinstance(block, str)` check in `block_to_block_type` (src/block_markdown.py:19) is left out. Blocks are strings by type.
- `Strings.Strip`: the whitespace set is the ASCII characters Python's `str.strip()` removes (tab, newline, vertical tab, form feed, carriage return, the separators 0x1C-0x1F, and space). Non-ASCII Unicode whitespace such as U+00A0 is not stripped in the model.
- The regular expressions are modelled as the fixed patterns the core uses: the code fence test, the heading test, and the image and link scans. There is no general regex engine.
- `Markdown.BlockToHtmlNode`: the missing-handler branch (src/markdown.py:18-19) is modelled but unreachable, as `BlockDispatch` shows. Its message uses the enum's `BlockType.NAME` form.
- `InlineMarkdown.Pairs` states only its length in its own contract. The element-wise property is the separate lemma `PairsAt`.
- `HtmlNodes.PropsToHtmlAppend`: props are an ordered list of pairs, which may repeat a key. A Python dict cannot: assigning an existing key replaces its value in place and keeps its position. The model does not capture that replacement: for a key already present, the lemma describes a list append, not a dict update.
- Python's list aliasing is modelled only by value. The loops that extend `new_nodes` build a sequence and compare it with the specification. No outside code can observe the list before it is returned.
