/**
 * The document driver: the blocks of a document, each rendered by the
 * handler of its type, under one `div`; and the title search.
 */
module Markdown {
  import opened Outcomes
  import opened Strings
  import opened HtmlNodes
  import opened ParentNodes
  import opened BlockMarkdown
  import opened BlockHandlers

  /** How the unreachable missing-handler failure reads. */
  function NoHandlerMessage(t: BlockType): string {
    "No handler for block type: " + t.Name()
  }

  /**
   * `block_to_html_node`: a classification failure propagates; otherwise
   * the handler the table gives for the block's type renders it.
   */
  function BlockToHtmlNode(block: string, inl: Inline): (r: Result<HtmlNode>)
    ensures BlockToBlockType(block).Err? ==> r == Err(BlockToBlockType(block).error)
    ensures BlockToBlockType(block).Ok? ==> r == BlockHandlerTable[BlockToBlockType(block).value](block, inl)
  {
    var t :- BlockToBlockType(block);
    BlockHandlersTotal();
    if t !in BlockHandlerTable then Err(ValueError(NoHandlerMessage(t)))
    else BlockHandlerTable[t](block, inl)
  }

  /**
   * The missing-handler branch is never taken: each classified block
   * reaches the handler of its own type.
   */
  lemma BlockDispatch(block: string, inl: Inline)
    ensures BlockToBlockType(block) == Ok(Paragraph) ==> BlockToHtmlNode(block, inl) == ParagraphToHtmlNode(block, inl)
    ensures BlockToBlockType(block) == Ok(Heading) ==> BlockToHtmlNode(block, inl) == HeadingToHtmlNode(block, inl)
    ensures BlockToBlockType(block) == Ok(BlockType.Code) ==> BlockToHtmlNode(block, inl) == CodeToHtmlNode(block, inl)
    ensures BlockToBlockType(block) == Ok(Quote) ==> BlockToHtmlNode(block, inl) == QuoteToHtmlNode(block, inl)
    ensures BlockToBlockType(block) == Ok(UList) ==> BlockToHtmlNode(block, inl) == ListBlockToHtmlNode(block, "ul", inl)
    ensures BlockToBlockType(block) == Ok(OList) ==> BlockToHtmlNode(block, inl) == ListBlockToHtmlNode(block, "ol", inl)
  {
    BlockHandlersTotal();
  }

  /** The rendering of each block, in order. */
  function BlockResults(blocks: seq<string>, inl: Inline): (rs: seq<Result<HtmlNode>>)
    ensures |rs| == |blocks|
    ensures forall i :: 0 <= i < |blocks| ==> rs[i] == BlockToHtmlNode(blocks[i], inl)
  {
    seq(|blocks|, i requires 0 <= i < |blocks| => BlockToHtmlNode(blocks[i], inl))
  }

  /**
   * `markdown_to_html_node`: a `div` with exactly one child per block, in
   * block order; it fails with the first block that fails.
   */
  function MarkdownToHtmlNode(markdown: string, inl: Inline): (r: Result<HtmlNode>)
    ensures var blocks := MarkdownToBlocks(markdown);
      && (r.Ok? <==> forall i :: 0 <= i < |blocks| ==> BlockToHtmlNode(blocks[i], inl).Ok?)
      && (r.Ok? ==>
            && r.value.Parent? && r.value.tag == Some("div") && r.value.props == []
            && |r.value.children| == |blocks|
            && forall i :: 0 <= i < |blocks| ==> r.value.children[i] == BlockToHtmlNode(blocks[i], inl).value)
      && (r.Err? ==> exists j :: 0 <= j < |blocks| && BlockToHtmlNode(blocks[j], inl) == r
                                && forall k :: 0 <= k < j ==> BlockToHtmlNode(blocks[k], inl).Ok?)
  {
    var children :- Collect(BlockResults(MarkdownToBlocks(markdown), inl));
    Ok(Parent(Some("div"), children, []))
  }

  /**
   * A document with no blocks gives a `div` with no children, which then
   * fails to serialise.
   */
  lemma EmptyDocument(inl: Inline, leaf: LeafRenderer)
    ensures MarkdownToHtmlNode("", inl) == Ok(Parent(Some("div"), [], []))
    ensures ToHtml(MarkdownToHtmlNode("", inl).value, leaf) == Err(ValueError(NoChildrenMessage))
  {
    EmptyMarkdown();
    assert BlockResults([], inl) == [];
  }

  /** An empty block fails classification, so a document holding one fails to render. */
  lemma EmptyBlockFails(markdown: string, inl: Inline, i: nat)
    requires i < |MarkdownToBlocks(markdown)| && MarkdownToBlocks(markdown)[i] == ""
    ensures MarkdownToHtmlNode(markdown, inl).Err?
  {
    assert BlockToHtmlNode("", inl) == Err(ValueError(NonEmptyMessage));
  }

  /**
   * A line of one space between two blocks therefore makes the whole
   * document fail to render.
   */
  lemma WhitespacePieceFails(a: string, b: string, inl: Inline)
    requires a != "" && b != "" && Trimmed(a) && Trimmed(b)
    requires forall k :: 0 <= k < |a| ==> a[k] != '\n'
    requires forall k :: 0 <= k < |b| ==> b[k] != '\n'
    ensures MarkdownToHtmlNode(a + "\n\n \n\n" + b, inl).Err?
  {
    WhitespacePieceKept(a, b);
    EmptyBlockFails(a + "\n\n \n\n" + b, inl, 1);
  }

  /**
   * A heading block renders as `h{k}` for its `k` leading `#`, around the
   * children of the text after the first space.
   */
  lemma HeadingBlock(block: string, inl: Inline)
    requires BlockToBlockType(block) == Ok(Heading)
    ensures var k := LeadingHashes(block);
      && 1 <= k <= 6
      && BlockToHtmlNode(block, inl) == Wrap("h" + NatToString(k), block[k + 1..], inl)
  {
    BlockDispatch(block, inl);
    HeadingSplit(block);
    var k := LeadingHashes(block);
    assert OccursAt(block, " ", k) by { assert block[k..k + 1] == [block[k]]; }
  }

  /** A code block renders as a `pre` around the one node of its code text, never as an index error. */
  lemma CodeBlock(block: string, inl: Inline)
    requires BlockToBlockType(block) == Ok(BlockType.Code)
    ensures CodeText(block).Ok?
    ensures BlockToHtmlNode(block, inl) == CodeToHtmlNode(block, inl)
  {
    BlockDispatch(block, inl);
    CodeClassified(block);
  }

  /** An unordered list block renders as a `ul` with one `li` per line, each around the line after its marker. */
  lemma UListBlock(block: string, inl: Inline)
    requires BlockToBlockType(block) == Ok(UList)
    ensures var r := BlockToHtmlNode(block, inl);
      && (r.Ok? <==> forall i :: 0 <= i < |Lines(block)| ==> TextToChildren(Lines(block)[i][2..], inl).Ok?)
      && (r.Ok? ==>
            && r.value.tag == Some("ul") && |r.value.children| == |Lines(block)|
            && forall i :: 0 <= i < |Lines(block)| ==>
                 r.value.children[i] == Parent(Some("li"), TextToChildren(Lines(block)[i][2..], inl).value, []))
  {
    assert BlockToHtmlNode(block, inl) == ListBlockToHtmlNode(block, "ul", inl) by {
      BlockDispatch(block, inl);
    }
    UListItems(block);
  }

  /** An ordered list block renders as an `ol` with one `li` per line, each around the line after its number. */
  lemma OListBlock(block: string, inl: Inline)
    requires BlockToBlockType(block) == Ok(OList)
    ensures var r := BlockToHtmlNode(block, inl);
      && (r.Ok? <==> forall i :: 0 <= i < |Lines(block)| ==> TextToChildren(Lines(block)[i][|ListMarker(i)|..], inl).Ok?)
      && (r.Ok? ==>
            && r.value.tag == Some("ol") && |r.value.children| == |Lines(block)|
            && forall i :: 0 <= i < |Lines(block)| ==>
                 r.value.children[i] == Parent(Some("li"), TextToChildren(Lines(block)[i][|ListMarker(i)|..], inl).value, []))
  {
    assert BlockToHtmlNode(block, inl) == ListBlockToHtmlNode(block, "ol", inl) by {
      BlockDispatch(block, inl);
    }
    OListItems(block);
  }

  // ---------------------------------------------------------------------
  // extract_title

  const NoTitleMessage := "No title found for markdown"

  /** Whether a stripped line is a title line. */
  predicate IsTitle(line: string) {
    StartsWith(line, "# ")
  }

  /** The first title line among `lines`, without its `# `, stripped. */
  function FirstTitle(lines: seq<string>): (r: Result<string>)
    ensures r.Ok? <==> exists i :: 0 <= i < |lines| && IsTitle(lines[i])
    ensures r.Ok? ==> exists i ::
      && 0 <= i < |lines| && IsTitle(lines[i])
      && (forall j :: 0 <= j < i ==> !IsTitle(lines[j]))
      && r.value == Strip(lines[i][2..])
    ensures r.Err? ==> r.error == ValueError(NoTitleMessage)
  {
    if lines == [] then Err(ValueError(NoTitleMessage))
    else if IsTitle(lines[0]) then Ok(Strip(lines[0][2..]))
    else
      var r := FirstTitle(lines[1..]);
      if r.Ok? then
        var i :| && 0 <= i < |lines[1..]| && IsTitle(lines[1..][i])
                 && (forall j :: 0 <= j < i ==> !IsTitle(lines[1..][j]))
                 && r.value == Strip(lines[1..][i][2..]);
        assert IsTitle(lines[i + 1]);
        assert forall j :: 0 <= j < i + 1 ==> !IsTitle(lines[j]) by {
          forall j | 0 <= j < i + 1
            ensures !IsTitle(lines[j])
          {
            if j > 0 {
              assert lines[j] == lines[1..][j - 1];
            }
          }
        }
        r
      else
        assert forall i :: 0 <= i < |lines| ==> !IsTitle(lines[i]) by {
          forall i | 0 <= i < |lines|
            ensures !IsTitle(lines[i])
          {
            if i > 0 {
              assert lines[i] == lines[1..][i - 1];
            }
          }
        }
        r
  }

  /** The lines of a document, each stripped. */
  function StrippedLines(markdown: string): (lines: seq<string>)
    ensures |lines| == |Split(markdown, "\n")|
    ensures forall i :: 0 <= i < |lines| ==> lines[i] == Strip(Split(markdown, "\n")[i])
  {
    var raw := Split(markdown, "\n");
    seq(|raw|, i requires 0 <= i < |raw| => Strip(raw[i]))
  }

  /**
   * `extract_title`: from the first line whose stripped form starts with
   * `# `, the text after that marker, stripped; without such a line it
   * fails with "No title found for markdown".
   */
  function ExtractTitle(markdown: string): (r: Result<string>)
    ensures var lines := StrippedLines(markdown);
      && (r.Ok? <==> exists i :: 0 <= i < |lines| && IsTitle(lines[i]))
      && (r.Ok? ==> exists i ::
            && 0 <= i < |lines| && IsTitle(lines[i])
            && (forall j :: 0 <= j < i ==> !IsTitle(lines[j]))
            && r.value == Strip(lines[i][2..]))
      && (r.Err? ==> r.error == ValueError(NoTitleMessage))
  {
    FirstTitle(StrippedLines(markdown))
  }

  /** A line of a deeper heading (`##` and more) is never a title line. */
  lemma DeeperNotTitle(line: string)
    requires StartsWith(line, "##")
    ensures !IsTitle(line)
  {
    assert line[1] == '#';
  }

  /** A document without a title line fails with the no-title message. */
  lemma NoTitle(markdown: string)
    requires forall i :: 0 <= i < |StrippedLines(markdown)| ==> !IsTitle(StrippedLines(markdown)[i])
    ensures ExtractTitle(markdown) == Err(ValueError(NoTitleMessage))
  {
  }

  /** The stripped lines of a two-line document. */
  lemma TwoStrippedLines(a: string, b: string)
    requires forall k :: 0 <= k < |a| ==> a[k] != '\n'
    requires forall k :: 0 <= k < |b| ==> b[k] != '\n'
    ensures StrippedLines(a + "\n" + b) == [Strip(a), Strip(b)]
  {
    TwoLines(a, b);
  }

  /** A line starting `##` still starts `##` once stripped. */
  lemma StripKeepsHashes(x: string)
    ensures StartsWith(Strip("## " + x), "##")
  {
    var s := "## " + x;
    assert StripStart(s) == 0;
    assert s[1] !in Whitespace;
    assert StripEnd(s) >= 2;
    assert Strip(s)[..2] == s[..2];
  }

  /**
   * A `## ` line before the `# ` line is skipped: the title comes from the
   * later line.
   */
  lemma SubtitleSkipped(x: string, y: string)
    requires forall k :: 0 <= k < |x| ==> x[k] != '\n'
    requires forall k :: 0 <= k < |y| ==> y[k] != '\n'
    requires y != "" && Trimmed(y)
    ensures ExtractTitle(("## " + x) + "\n" + ("# " + y)) == Ok(y)
  {
    var l0 := "## " + x;
    var l1 := "# " + y;
    var md := l0 + "\n" + l1;
    TwoStrippedLines(l0, l1);
    StripKeepsHashes(x);
    DeeperNotTitle(Strip(l0));
    StripTrimmed(l1);
    assert l1[2..] == y;
    StripTrimmed(y);
    SkipUntitled([Strip(l0), l1]);
    assert [Strip(l0), l1][1..] == [l1];
    assert FirstTitle([l1]) == Ok(y);
    assert ExtractTitle(md) == FirstTitle(StrippedLines(md));
  }

  /** A first line that is no title is passed over. */
  lemma SkipUntitled(lines: seq<string>)
    requires lines != [] && !IsTitle(lines[0])
    ensures FirstTitle(lines) == FirstTitle(lines[1..])
  {
  }
}
