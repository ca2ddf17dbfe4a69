/**
 * Turning one classified block into an HTML node. The inline pipeline
 * (`text_to_textnodes`, in inline_markdown.py beyond the splitters) and the
 * text-node conversion (`text_node_to_html_node`, textnode.py) are not part
 * of this model: they are given as the two functions of an `Inline` value.
 */
module BlockHandlers {
  import opened Outcomes
  import opened Strings
  import opened TextNodes
  import opened HtmlNodes
  import opened BlockMarkdown

  /** The inline conversions the handlers call. */
  datatype Inline = Inline(
    toTextNodes: string -> Result<seq<TextNode>>,
    toHtmlNode: TextNode -> Result<HtmlNode>)

  /** Python's message when `a, b = xs` finds one element. */
  const UnpackMessage := "not enough values to unpack (expected 2, got 1)"
  /** Python's message when `xs[1]` is out of range. */
  const IndexMessage := "list index out of range"

  /** The node for each text node, in order. */
  function NodeResults(nodes: seq<TextNode>, inl: Inline): (rs: seq<Result<HtmlNode>>)
    ensures |rs| == |nodes|
    ensures forall i :: 0 <= i < |nodes| ==> rs[i] == inl.toHtmlNode(nodes[i])
  {
    seq(|nodes|, i requires 0 <= i < |nodes| => inl.toHtmlNode(nodes[i]))
  }

  /**
   * `text_to_children`: the inline parse of `text`, then one HTML node per
   * text node, same length and same order; the first failure is the result.
   */
  function TextToChildren(text: string, inl: Inline): (r: Result<seq<HtmlNode>>)
    ensures inl.toTextNodes(text).Err? ==> r == Err(inl.toTextNodes(text).error)
    ensures inl.toTextNodes(text).Ok? ==>
      var nodes := inl.toTextNodes(text).value;
      && (r.Ok? <==> forall i :: 0 <= i < |nodes| ==> inl.toHtmlNode(nodes[i]).Ok?)
      && (r.Ok? ==> |r.value| == |nodes| && forall i :: 0 <= i < |nodes| ==> r.value[i] == inl.toHtmlNode(nodes[i]).value)
      && (r.Err? ==> exists j :: 0 <= j < |nodes| && inl.toHtmlNode(nodes[j]) == Err(r.error)
                                && forall k :: 0 <= k < j ==> inl.toHtmlNode(nodes[k]).Ok?)
  {
    var nodes :- inl.toTextNodes(text);
    Collect(NodeResults(nodes, inl))
  }

  /** A parent node with this tag around the children of `text`. */
  function Wrap(tag: string, text: string, inl: Inline): (r: Result<HtmlNode>)
    ensures r.Ok? <==> TextToChildren(text, inl).Ok?
    ensures r.Err? ==> r.error == TextToChildren(text, inl).error
    ensures r.Ok? ==> r.value == Parent(Some(tag), TextToChildren(text, inl).value, [])
  {
    var children :- TextToChildren(text, inl);
    Ok(Parent(Some(tag), children, []))
  }

  /** Joining newline-free pieces with spaces gives newline-free text. */
  lemma JoinedLinesFree(parts: seq<string>)
    requires forall i, k :: 0 <= i < |parts| && 0 <= k < |parts[i]| ==> parts[i][k] != '\n'
    ensures forall k :: 0 <= k < |Join(" ", parts)| ==> Join(" ", parts)[k] != '\n'
  {
    JoinFreeOfChar(" ", parts, '\n');
  }

  // ---------------------------------------------------------------------
  // Paragraph

  /** The paragraph's inline input: every line stripped, joined with single spaces; it has no newline. */
  function ParagraphText(block: string): (t: string)
    ensures forall k :: 0 <= k < |t| ==> t[k] != '\n'
  {
    var lines := Lines(block);
    var stripped := seq(|lines|, i requires 0 <= i < |lines| => Strip(lines[i]));
    SplitPiecesFreeOfChar(block, '\n');
    forall i | 0 <= i < |lines|
      ensures forall k :: 0 <= k < |stripped[i]| ==> stripped[i][k] != '\n'
    {
      StripSubstring(lines[i], '\n');
    }
    JoinedLinesFree(stripped);
    Join(" ", stripped)
  }

  /**
   * `paragraph_to_html_node`: a `p` with no attributes around the children
   * of the paragraph text; it fails exactly when those children do.
   */
  function ParagraphToHtmlNode(block: string, inl: Inline): (r: Result<HtmlNode>)
    ensures r.Ok? <==> TextToChildren(ParagraphText(block), inl).Ok?
    ensures r.Err? ==> r.error == TextToChildren(ParagraphText(block), inl).error
    ensures r.Ok? ==> r.value == Parent(Some("p"), TextToChildren(ParagraphText(block), inl).value, [])
  {
    Wrap("p", ParagraphText(block), inl)
  }

  /**
   * For any block, written as its lines joined by newlines: the paragraph
   * text is each line stripped, the stripped lines joined by one space.
   */
  lemma ParagraphLines(lines: seq<string>)
    requires |lines| >= 1
    requires forall i, k :: 0 <= i < |lines| && 0 <= k < |lines[i]| ==> lines[i][k] != '\n'
    ensures ParagraphText(Join("\n", lines)) == Join(" ", seq(|lines|, i requires 0 <= i < |lines| => Strip(lines[i])))
  {
    SplitOfJoin(lines, '\n');
    assert Lines(Join("\n", lines)) == lines;
  }

  /** Two lines of a paragraph become their stripped forms separated by one space. */
  lemma ParagraphTwoLines(a: string, b: string)
    requires forall k :: 0 <= k < |a| ==> a[k] != '\n'
    requires forall k :: 0 <= k < |b| ==> b[k] != '\n'
    ensures ParagraphText(a + "\n" + b) == Strip(a) + " " + Strip(b)
  {
    TwoLines(a, b);
    var lines := Lines(a + "\n" + b);
    var stripped := seq(|lines|, i requires 0 <= i < |lines| => Strip(lines[i]));
    assert stripped == [Strip(a), Strip(b)];
    assert stripped[1..] == [Strip(b)];
    assert Join(" ", stripped) == Strip(a) + " " + Strip(b);
  }

  // ---------------------------------------------------------------------
  // Heading

  /**
   * `heading_to_html_node`: the text before the first space gives the level
   * (its length), the text after it the children; a block with no space
   * fails to unpack.
   */
  function HeadingToHtmlNode(block: string, inl: Inline): (r: Result<HtmlNode>)
    ensures !Contains(block, " ") ==> r == Err(ValueError(UnpackMessage))
    ensures Contains(block, " ") ==>
      var parts := SplitOnce(block, " ");
      r == Wrap("h" + NatToString(|parts[0]|), parts[1], inl)
  {
    var parts := SplitOnce(block, " ");
    if |parts| < 2 then Err(ValueError(UnpackMessage))
    else Wrap("h" + NatToString(|parts[0]|), parts[1], inl)
  }

  /**
   * For a block the classifier calls a heading, the text before the first
   * space is exactly its run of `#` (one to six) and the children come from
   * everything after that space.
   */
  lemma HeadingSplit(block: string)
    requires IsHeading(block)
    ensures var k := LeadingHashes(block);
      && 1 <= k <= 6
      && SplitOnce(block, " ") == [block[..k], block[k + 1..]]
  {
    var k := LeadingHashes(block);
    assert block == block[..k] + [' '] + block[k + 1..];
    SplitOnceAt(block[..k], ' ', block[k + 1..]);
  }

  // ---------------------------------------------------------------------
  // Code

  /**
   * The code text: everything after the first line, with trailing backticks
   * removed (`rstrip("```")` strips the character set); a block of one line
   * has no second element to index.
   */
  function CodeText(block: string): (r: Result<string>)
    ensures r.Err? <==> !Contains(block, "\n")
    ensures r.Err? ==> r.error == IndexError(IndexMessage)
  {
    var parts := SplitOnce(block, "\n");
    if |parts| < 2 then Err(IndexError(IndexMessage))
    else Ok(RStrip(parts[1], {'`'}))
  }

  /** `code_to_html_node`: a `pre` holding the one node made from a CODE text node of the code text. */
  function CodeToHtmlNode(block: string, inl: Inline): (r: Result<HtmlNode>)
    ensures CodeText(block).Err? ==> r == Err(CodeText(block).error)
    ensures CodeText(block).Ok? ==>
      var h := inl.toHtmlNode(TextNode(CodeText(block).value, TextType.Code, None));
      && (r.Ok? <==> h.Ok?)
      && (r.Err? ==> r.error == h.error)
      && (r.Ok? ==> r.value == Parent(Some("pre"), [h.value], []))
  {
    var code :- CodeText(block);
    var h :- inl.toHtmlNode(TextNode(code, TextType.Code, None));
    Ok(Parent(Some("pre"), [h], []))
  }

  /**
   * The first line (fence and language) is dropped, the closing fence is
   * removed, and the newline before it stays.
   */
  lemma CodeBody(first: string, body: string)
    requires forall k :: 0 <= k < |first| ==> first[k] != '\n'
    ensures CodeText(first + "\n" + body + "\n```") == Ok(body + "\n")
  {
    var rest := body + "\n```";
    assert first + "\n" + body + "\n```" == first + ['\n'] + rest;
    SplitOnceAt(first, '\n', rest);
    var j := SkipTrailing(rest, {'`'}, 0, |rest|);
    assert rest[|body|] == '\n';
    assert j == |body| + 1 by {
      assert forall k :: |body| + 1 <= k < |rest| ==> rest[k] == '`';
    }
    assert rest[..|body| + 1] == body + "\n";
  }

  /** With a newline after the closing fence, nothing is stripped and the fence stays in the code. */
  lemma CodeKeepsFence(first: string, body: string)
    requires forall k :: 0 <= k < |first| ==> first[k] != '\n'
    ensures CodeText(first + "\n" + body + "\n```\n") == Ok(body + "\n```\n")
  {
    var rest := body + "\n```\n";
    assert first + "\n" + body + "\n```\n" == first + ['\n'] + rest;
    SplitOnceAt(first, '\n', rest);
    assert rest[|rest| - 1] == '\n';
    assert SkipTrailing(rest, {'`'}, 0, |rest|) == |rest|;
    assert rest[..|rest|] == rest;
  }

  /** A block the classifier calls code always has a second line, so it never fails to index. */
  lemma CodeClassified(block: string)
    requires BlockToBlockType(block) == Ok(BlockType.Code)
    ensures CodeText(block).Ok?
  {
    if EndsWith(block, "\n```") {
      assert OccursAt(block, "\n", |block| - 4);
    } else {
      assert OccursAt(block, "\n", |block| - 5);
    }
  }

  // ---------------------------------------------------------------------
  // Quote

  /** One quote line: all leading `>` removed, then stripped. */
  function QuoteLine(line: string): string {
    Strip(LStrip(line, {'>'}))
  }

  /** The quote's inline input: its lines, each cleaned, joined with spaces; it has no newline. */
  function QuoteText(block: string): (t: string)
    ensures forall k :: 0 <= k < |t| ==> t[k] != '\n'
  {
    var lines := Lines(block);
    var cleaned := seq(|lines|, i requires 0 <= i < |lines| => QuoteLine(lines[i]));
    SplitPiecesFreeOfChar(block, '\n');
    forall i | 0 <= i < |lines|
      ensures forall k :: 0 <= k < |cleaned[i]| ==> cleaned[i][k] != '\n'
    {
      var l := LStrip(lines[i], {'>'});
      var j := SkipLeading(lines[i], {'>'}, 0);
      assert forall k :: 0 <= k < |l| ==> l[k] == lines[i][j + k];
      StripSubstring(l, '\n');
    }
    JoinedLinesFree(cleaned);
    Join(" ", cleaned)
  }

  /**
   * `quote_to_html_node`: a `blockquote` with no attributes around the
   * children of the quote text; it fails exactly when those children do.
   */
  function QuoteToHtmlNode(block: string, inl: Inline): (r: Result<HtmlNode>)
    ensures r.Ok? <==> TextToChildren(QuoteText(block), inl).Ok?
    ensures r.Err? ==> r.error == TextToChildren(QuoteText(block), inl).error
    ensures r.Ok? ==> r.value == Parent(Some("blockquote"), TextToChildren(QuoteText(block), inl).value, [])
  {
    Wrap("blockquote", QuoteText(block), inl)
  }

  /**
   * For any block, written as its lines joined by newlines: the quote text
   * is each line with its whole leading run of `>` removed and then
   * stripped, the cleaned lines joined by one space.
   */
  lemma QuoteLines(lines: seq<string>)
    requires |lines| >= 1
    requires forall i, k :: 0 <= i < |lines| && 0 <= k < |lines[i]| ==> lines[i][k] != '\n'
    ensures QuoteText(Join("\n", lines)) == Join(" ", seq(|lines|, i requires 0 <= i < |lines| => Strip(LStrip(lines[i], {'>'}))))
  {
    SplitOfJoin(lines, '\n');
    assert Lines(Join("\n", lines)) == lines;
    assert seq(|lines|, i requires 0 <= i < |lines| => QuoteLine(lines[i]))
        == seq(|lines|, i requires 0 <= i < |lines| => Strip(LStrip(lines[i], {'>'})));
  }

  /** A `> ` marker is removed entirely from a trimmed line not itself starting with `>`. */
  lemma QuoteMarker(x: string)
    requires x != [] ==> x[0] != '>' && x[0] !in Whitespace && x[|x| - 1] !in Whitespace
    ensures QuoteLine("> " + x) == x
  {
    QuoteMarkerRemoved(x);
    StripLeading(' ', x);
  }

  lemma QuoteMarkerRemoved(x: string)
    ensures LStrip("> " + x, {'>'}) == [' '] + x
  {
    var s := "> " + x;
    assert SkipLeading(s, {'>'}, 0) == SkipLeading(s, {'>'}, 1) == 1;
    assert s[1..] == [' '] + x;
  }

  /** Every `>` at the start is removed, not only the first. */
  lemma NestedQuoteMarker(x: string)
    requires x != [] ==> x[0] != '>' && x[0] !in Whitespace && x[|x| - 1] !in Whitespace
    ensures QuoteLine(">> " + x) == x
  {
    var s := ">> " + x;
    assert SkipLeading(s, {'>'}, 0) == SkipLeading(s, {'>'}, 1) == SkipLeading(s, {'>'}, 2) == 2;
    assert s[2..] == [' '] + x;
    StripLeading(' ', x);
  }

  // ---------------------------------------------------------------------
  // Lists

  /** A list item: the text after the first space of the line; a line with no space has no second element. */
  function ListItem(line: string): (r: Result<string>)
    ensures r.Err? <==> !Contains(line, " ")
    ensures r.Err? ==> r.error == IndexError(IndexMessage)
  {
    var parts := SplitOnce(line, " ");
    if |parts| < 2 then Err(IndexError(IndexMessage)) else Ok(parts[1])
  }

  function ItemResults(lines: seq<string>): (rs: seq<Result<string>>)
    ensures |rs| == |lines|
    ensures forall i :: 0 <= i < |lines| ==> rs[i] == ListItem(lines[i])
  {
    seq(|lines|, i requires 0 <= i < |lines| => ListItem(lines[i]))
  }

  /**
   * The first comprehension of `list_block_to_html_node`: one item per
   * line, in order; it fails at the first line without a space.
   */
  function ListItems(block: string): (r: Result<seq<string>>)
    ensures r.Ok? <==> forall i :: 0 <= i < |Lines(block)| ==> Contains(Lines(block)[i], " ")
    ensures r.Ok? ==>
      && |r.value| == |Lines(block)|
      && forall i :: 0 <= i < |Lines(block)| ==> Ok(r.value[i]) == ListItem(Lines(block)[i])
    ensures r.Err? ==> r.error == IndexError(IndexMessage)
  {
    Collect(ItemResults(Lines(block)))
  }

  /** An `li` around the children of the item. */
  function ItemNodes(items: seq<string>, inl: Inline): (rs: seq<Result<HtmlNode>>)
    ensures |rs| == |items|
    ensures forall i :: 0 <= i < |items| ==> rs[i] == Wrap("li", items[i], inl)
  {
    seq(|items|, i requires 0 <= i < |items| => Wrap("li", items[i], inl))
  }

  /**
   * `list_block_to_html_node`: all items are cut out first, then one `li`
   * per item, in line order, inside a parent with the list tag.
   */
  function ListBlockToHtmlNode(block: string, tag: string, inl: Inline): (r: Result<HtmlNode>)
    ensures ListItems(block).Err? ==> r == Err(ListItems(block).error)
    ensures ListItems(block).Ok? ==>
      var items := ListItems(block).value;
      && (r.Ok? <==> forall i :: 0 <= i < |items| ==> TextToChildren(items[i], inl).Ok?)
      && (r.Ok? ==>
            && r.value.Parent? && r.value.tag == Some(tag) && r.value.props == []
            && |r.value.children| == |Lines(block)|
            && forall i :: 0 <= i < |items| ==>
                 r.value.children[i] == Parent(Some("li"), TextToChildren(items[i], inl).value, []))
  {
    var items :- ListItems(block);
    var nodes :- Collect(ItemNodes(items, inl));
    Ok(Parent(Some(tag), nodes, []))
  }

  /** `ulist_block_to_html_node`: an `ul` holding one `li` per line, in order. */
  function UListToHtmlNode(block: string, inl: Inline): (r: Result<HtmlNode>)
    ensures ListItems(block).Err? ==> r == Err(ListItems(block).error)
    ensures ListItems(block).Ok? ==>
      var items := ListItems(block).value;
      && (r.Ok? <==> forall i :: 0 <= i < |items| ==> TextToChildren(items[i], inl).Ok?)
      && (r.Ok? ==>
            && r.value.Parent? && r.value.tag == Some("ul") && r.value.props == []
            && |r.value.children| == |Lines(block)|
            && forall i :: 0 <= i < |items| ==>
                 r.value.children[i] == Parent(Some("li"), TextToChildren(items[i], inl).value, []))
  {
    ListBlockToHtmlNode(block, "ul", inl)
  }

  /** `olist_block_to_html_node`: an `ol` holding one `li` per line, in order. */
  function OListToHtmlNode(block: string, inl: Inline): (r: Result<HtmlNode>)
    ensures ListItems(block).Err? ==> r == Err(ListItems(block).error)
    ensures ListItems(block).Ok? ==>
      var items := ListItems(block).value;
      && (r.Ok? <==> forall i :: 0 <= i < |items| ==> TextToChildren(items[i], inl).Ok?)
      && (r.Ok? ==>
            && r.value.Parent? && r.value.tag == Some("ol") && r.value.props == []
            && |r.value.children| == |Lines(block)|
            && forall i :: 0 <= i < |items| ==>
                 r.value.children[i] == Parent(Some("li"), TextToChildren(items[i], inl).value, []))
  {
    ListBlockToHtmlNode(block, "ol", inl)
  }

  /** A line with a two-character bullet marker gives the text after the marker. */
  lemma BulletItem(line: string)
    requires StartsWith(line, "* ") || StartsWith(line, "- ")
    ensures ListItem(line) == Ok(line[2..])
  {
    assert line == line[..1] + [' '] + line[2..];
    SplitOnceAt(line[..1], ' ', line[2..]);
  }

  /** A line with the marker `{i+1}. ` gives the text after the marker. */
  lemma NumberedItem(i: nat, line: string)
    requires StartsWith(line, ListMarker(i))
    ensures ListItem(line) == Ok(line[|ListMarker(i)|..])
  {
    var m := ListMarker(i);
    var a := NatToString(i + 1) + ".";
    assert m == a + " ";
    assert forall k :: 0 <= k < |a| ==> a[k] != ' ';
    assert line == a + [' '] + line[|m|..];
    SplitOnceAt(a, ' ', line[|m|..]);
  }

  /** For a block the classifier calls an unordered list, item `i` is line `i` without its marker. */
  lemma UListItems(block: string)
    requires BlockToBlockType(block) == Ok(UList)
    ensures ListItems(block).Ok?
    ensures |ListItems(block).value| == |Lines(block)|
    ensures forall i :: 0 <= i < |Lines(block)| ==> ListItems(block).value[i] == Lines(block)[i][2..]
  {
    var lines := Lines(block);
    forall i | 0 <= i < |lines|
      ensures ListItem(lines[i]) == Ok(lines[i][2..])
    {
      BulletItem(lines[i]);
    }
  }

  /** For a block the classifier calls an ordered list, item `i` is line `i` without its `{i+1}. `. */
  lemma OListItems(block: string)
    requires BlockToBlockType(block) == Ok(OList)
    ensures ListItems(block).Ok?
    ensures |ListItems(block).value| == |Lines(block)|
    ensures forall i :: 0 <= i < |Lines(block)| ==>
      ListItems(block).value[i] == Lines(block)[i][|ListMarker(i)|..]
  {
    var lines := Lines(block);
    forall i | 0 <= i < |lines|
      ensures ListItem(lines[i]) == Ok(lines[i][|ListMarker(i)|..])
    {
      NumberedItem(i, lines[i]);
    }
  }

  // ---------------------------------------------------------------------
  // Dispatch

  type Handler = (string, Inline) -> Result<HtmlNode>

  /** `BLOCK_HANDLERS`: the handler for each block type. */
  const BlockHandlerTable: map<BlockType, Handler> := map[
    Paragraph := ParagraphToHtmlNode,
    Heading := HeadingToHtmlNode,
    BlockType.Code := CodeToHtmlNode,
    Quote := QuoteToHtmlNode,
    UList := UListToHtmlNode,
    OList := OListToHtmlNode]

  /** Every block type has a handler, and each type's handler is the one named after it. */
  lemma BlockHandlersTotal()
    ensures forall t: BlockType :: t in BlockHandlerTable
    ensures BlockHandlerTable[Paragraph] == ParagraphToHtmlNode
    ensures BlockHandlerTable[Heading] == HeadingToHtmlNode
    ensures BlockHandlerTable[BlockType.Code] == CodeToHtmlNode
    ensures BlockHandlerTable[Quote] == QuoteToHtmlNode
    ensures BlockHandlerTable[UList] == UListToHtmlNode
    ensures BlockHandlerTable[OList] == OListToHtmlNode
  {
    forall t: BlockType
      ensures t in BlockHandlerTable
    {
      match t
      case Paragraph =>
      case Heading =>
      case Code =>
      case Quote =>
      case UList =>
      case OList =>
    }
  }
}
