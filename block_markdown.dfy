/**
 * Cutting a document into blocks and deciding what kind each block is.
 * Blocks are separated by blank lines; the kind is chosen by an ordered
 * list of rules (code, heading, quote, unordered list, ordered list) with
 * paragraph as the default.
 */
module BlockMarkdown {
  import opened Outcomes
  import opened Strings

  datatype BlockType = Paragraph | Heading | Code | Quote | UList | OList
  {
    /** How the member prints inside an f-string: `BlockType.NAME`. */
    function Name(): string {
      "BlockType." +
        match this
        case Paragraph => "PARAGRAPH"
        case Heading => "HEADING"
        case Code => "CODE"
        case Quote => "QUOTE"
        case UList => "ULIST"
        case OList => "OLIST"
    }
  }

  // ---------------------------------------------------------------------
  // Segmentation

  const BlankLine := "\n\n"

  /** The blocks the comprehension keeps from the first `n` pieces: each non-empty one, stripped. */
  function KeptBlocks(pieces: seq<string>, n: nat): seq<string>
    requires n <= |pieces|
  {
    if n == 0 then []
    else KeptBlocks(pieces, n - 1) + (if pieces[n - 1] == "" then [] else [Strip(pieces[n - 1])])
  }

  lemma {:induction false} KeptBlocksLength(pieces: seq<string>, n: nat)
    requires n <= |pieces|
    ensures |KeptBlocks(pieces, n)| == NonEmptyCount(pieces, n)
    decreases n
  {
    if n > 0 {
      KeptBlocksLength(pieces, n - 1);
      var tail := if pieces[n - 1] == "" then [] else [Strip(pieces[n - 1])];
      assert KeptBlocks(pieces, n) == KeptBlocks(pieces, n - 1) + tail;
      assert |tail| == if pieces[n - 1] == "" then 0 else 1;
    }
  }

  /**
   * Piece `i`, when non-empty, gives the block at position "number of
   * non-empty pieces before it", and that block is the piece stripped.
   */
  lemma {:induction false} KeptBlocksAt(pieces: seq<string>, n: nat, i: nat)
    requires i < n <= |pieces|
    requires pieces[i] != ""
    ensures |KeptBlocks(pieces, n)| == NonEmptyCount(pieces, n)
    ensures NonEmptyCount(pieces, i) < NonEmptyCount(pieces, n)
    ensures KeptBlocks(pieces, n)[NonEmptyCount(pieces, i)] == Strip(pieces[i])
    decreases n
  {
    KeptBlocksLength(pieces, n);
    var prefix := KeptBlocks(pieces, n - 1);
    var tail := if pieces[n - 1] == "" then [] else [Strip(pieces[n - 1])];
    assert KeptBlocks(pieces, n) == prefix + tail;
    var j := NonEmptyCount(pieces, i);
    if i < n - 1 {
      KeptBlocksAt(pieces, n - 1, i);
      assert j < |prefix|;
      assert (prefix + tail)[j] == prefix[j];
    } else {
      KeptBlocksLength(pieces, i);
      assert |prefix| == j;
      assert tail == [Strip(pieces[i])];
      assert (prefix + tail)[j] == tail[0];
    }
  }

  /**
   * Every kept block is trimmed, and a block contains a blank line only if
   * the piece it came from did.
   */
  lemma {:induction false} KeptBlocksShape(pieces: seq<string>, n: nat)
    requires n <= |pieces|
    requires forall i :: 0 <= i < |pieces| ==> !Contains(pieces[i], BlankLine)
    ensures forall j :: 0 <= j < |KeptBlocks(pieces, n)| ==>
      Trimmed(KeptBlocks(pieces, n)[j]) && !Contains(KeptBlocks(pieces, n)[j], BlankLine)
    decreases n
  {
    if n > 0 {
      KeptBlocksShape(pieces, n - 1);
      var prefix := KeptBlocks(pieces, n - 1);
      var p := pieces[n - 1];
      var tail := if p == "" then [] else [Strip(p)];
      assert KeptBlocks(pieces, n) == prefix + tail;
      if p != "" {
        var r := Strip(p);
        var i := StripStart(p);
        StripShape(p);
        SliceFree(p, BlankLine, i, i + |r|);
        assert !Contains(r, BlankLine);
        forall j | 0 <= j < |prefix + tail|
          ensures Trimmed((prefix + tail)[j]) && !Contains((prefix + tail)[j], BlankLine)
        {
          if j < |prefix| {
            assert (prefix + tail)[j] == prefix[j];
          } else {
            assert (prefix + tail)[j] == r;
          }
        }
      } else {
        assert prefix + tail == prefix;
      }
    }
  }

  /**
   * `markdown_to_blocks`: the pieces between blank lines, in order, those
   * that are empty before stripping dropped, the rest stripped; no block has
   * whitespace at either end or contains a blank line.
   */
  function MarkdownToBlocks(markdown: string): (blocks: seq<string>)
    ensures |blocks| == NonEmptyCount(Split(markdown, BlankLine), |Split(markdown, BlankLine)|)
    ensures forall j :: 0 <= j < |blocks| ==> Trimmed(blocks[j]) && !Contains(blocks[j], BlankLine)
  {
    var pieces := Split(markdown, BlankLine);
    KeptBlocksLength(pieces, |pieces|);
    SplitPiecesFree(markdown, BlankLine);
    KeptBlocksShape(pieces, |pieces|);
    KeptBlocks(pieces, |pieces|)
  }

  /** A document split at its blank lines keeps each non-empty piece, stripped, in order. */
  lemma MarkdownToBlocksOrder(markdown: string, i: nat)
    requires i < |Split(markdown, BlankLine)|
    requires Split(markdown, BlankLine)[i] != ""
    ensures var pieces := Split(markdown, BlankLine);
      && NonEmptyCount(pieces, i) < |MarkdownToBlocks(markdown)|
      && MarkdownToBlocks(markdown)[NonEmptyCount(pieces, i)] == Strip(pieces[i])
  {
    var pieces := Split(markdown, BlankLine);
    KeptBlocksAt(pieces, |pieces|, i);
  }

  /** The empty document has no blocks. */
  lemma EmptyMarkdown()
    ensures MarkdownToBlocks("") == []
  {
    assert Split("", BlankLine) == [""];
    assert KeptBlocks([""], 1) == KeptBlocks([""], 0);
  }

  /**
   * The filter runs before stripping: a piece made of one space between two
   * single-line blocks is kept and becomes an empty block.
   */
  lemma WhitespacePieceKept(a: string, b: string)
    requires a != "" && b != "" && Trimmed(a) && Trimmed(b)
    requires forall k :: 0 <= k < |a| ==> a[k] != '\n'
    requires forall k :: 0 <= k < |b| ==> b[k] != '\n'
    ensures MarkdownToBlocks(a + "\n\n \n\n" + b) == [a, "", b]
  {
    WhitespacePieces(a, b);
    var pieces := [a, " ", b];
    StripBlank(' ');
    StripTrimmed(a);
    StripTrimmed(b);
    assert KeptBlocks(pieces, 1) == [a] by {
      assert KeptBlocks(pieces, 0) == [];
    }
    assert KeptBlocks(pieces, 2) == [a, ""];
  }

  lemma WhitespacePieces(a: string, b: string)
    requires forall k :: 0 <= k < |a| ==> a[k] != '\n'
    requires forall k :: 0 <= k < |b| ==> b[k] != '\n'
    ensures Split(a + "\n\n \n\n" + b, BlankLine) == [a, " ", b]
  {
    var t := " " + BlankLine + b;
    var s := a + BlankLine + t;
    assert a + "\n\n \n\n" + b == s;
    forall k | 0 <= k < |b|
      ensures !OccursAt(b, BlankLine, k)
    {
    }
    SplitNoOccurrence(b, BlankLine);
    assert !OccursAt(t, BlankLine, 0) by { assert t[0] == ' '; }
    SplitAfter(" ", BlankLine, b);
    forall k | 0 <= k < |a|
      ensures !OccursAt(s, BlankLine, k)
    {
      assert s[k] == a[k];
    }
    SplitAfter(a, BlankLine, t);
  }

  // ---------------------------------------------------------------------
  // Classification

  const NonEmptyMessage := "Input must be a non-empty string"

  /**
   * `^```` and `\n```$` together: the block opens with three backticks and
   * closes with a newline and three backticks, where `$` also accepts one
   * final newline after them.
   */
  predicate IsCode(block: string) {
    StartsWith(block, "```") && (EndsWith(block, "\n```") || EndsWith(block, "\n```\n"))
  }

  /** How many `#` the string starts with. */
  function LeadingHashes(s: string): (k: nat)
    ensures k <= |s|
    ensures forall j :: 0 <= j < k ==> s[j] == '#'
    ensures k < |s| ==> s[k] != '#'
  {
    if s != [] && s[0] == '#' then 1 + LeadingHashes(s[1..]) else 0
  }

  /** `#{1,6} ` matched at the start: one to six `#`, then a space. */
  predicate IsHeading(block: string) {
    var k := LeadingHashes(block);
    1 <= k <= 6 && k < |block| && block[k] == ' '
  }

  /**
   * The heading test agrees with the regex read literally: some count of
   * `#` between one and six is followed by a space. The greedy count and
   * the backtracking one find the same run, so seven `#` never match.
   */
  lemma HeadingMatch(block: string)
    ensures IsHeading(block) <==>
      exists k :: 1 <= k <= 6 && k < |block| && (forall j :: 0 <= j < k ==> block[j] == '#') && block[k] == ' '
  {
    var h := LeadingHashes(block);
    if exists k :: 1 <= k <= 6 && k < |block| && (forall j :: 0 <= j < k ==> block[j] == '#') && block[k] == ' ' {
      var k :| 1 <= k <= 6 && k < |block| && (forall j :: 0 <= j < k ==> block[j] == '#') && block[k] == ' ';
    }
  }

  /** The lines of a block. */
  function Lines(block: string): (lines: seq<string>)
    ensures |lines| >= 1
  {
    Split(block, "\n")
  }

  predicate AllStartWith(lines: seq<string>, prefix: string) {
    forall i :: 0 <= i < |lines| ==> StartsWith(lines[i], prefix)
  }

  /** The marker line `i` (from zero) of an ordered list must start with: `{i+1}. `. */
  function ListMarker(i: nat): string {
    NatToString(i + 1) + ". "
  }

  predicate Numbered(lines: seq<string>) {
    forall i :: 0 <= i < |lines| ==> StartsWith(lines[i], ListMarker(i))
  }

  /** The unordered-list test: every line has `* `, or every line has `- `. */
  predicate Bulleted(lines: seq<string>) {
    AllStartWith(lines, "* ") || AllStartWith(lines, "- ")
  }

  /**
   * `block_to_block_type`: an empty block fails; otherwise the first rule
   * that holds, in the order code, heading, quote, unordered list, ordered
   * list, decides, and a block no rule accepts is a paragraph.
   */
  function BlockToBlockType(block: string): (r: Result<BlockType>)
    ensures r.Err? <==> block == ""
    ensures r.Err? ==> r.error == ValueError(NonEmptyMessage)
    ensures r == Ok(Code) <==> block != "" && IsCode(block)
    ensures r == Ok(Heading) <==> block != "" && !IsCode(block) && IsHeading(block)
    ensures r == Ok(Quote) <==>
      block != "" && !IsCode(block) && !IsHeading(block) && AllStartWith(Lines(block), ">")
    ensures r == Ok(UList) <==>
      block != "" && !IsCode(block) && !IsHeading(block) && !AllStartWith(Lines(block), ">")
      && Bulleted(Lines(block))
    ensures r == Ok(OList) <==>
      block != "" && !IsCode(block) && !IsHeading(block) && !AllStartWith(Lines(block), ">")
      && !Bulleted(Lines(block)) && Numbered(Lines(block))
    ensures r == Ok(Paragraph) <==>
      block != "" && !IsCode(block) && !IsHeading(block) && !AllStartWith(Lines(block), ">")
      && !Bulleted(Lines(block)) && !Numbered(Lines(block))
  {
    if block == "" then Err(ValueError(NonEmptyMessage))
    else if IsCode(block) then Ok(Code)
    else if IsHeading(block) then Ok(Heading)
    else
      var lines := Lines(block);
      if AllStartWith(lines, ">") then Ok(Quote)
      else if AllStartWith(lines, "* ") then Ok(UList)
      else if AllStartWith(lines, "- ") then Ok(UList)
      else if Numbered(lines) then Ok(OList)
      else Ok(Paragraph)
  }

  /**
   * The first line is a prefix of the block, so a line rule can only hold
   * when the block itself starts with that rule's prefix.
   */
  lemma FirstLinePrefix(block: string, prefix: string)
    requires StartsWith(Lines(block)[0], prefix)
    ensures StartsWith(block, prefix)
  {
    SplitFirst(block, "\n");
    var first := Lines(block)[0];
    assert StartsWith(first, prefix);
    assert block[..|first|] == first;
    assert block[..|prefix|] == first[..|prefix|];
  }

  /**
   * What a classification says about the block's first characters: a
   * quote starts with `>`, an unordered list with `* ` or `- `, an ordered
   * list with `1. `.
   */
  lemma ClassifiedPrefix(block: string)
    ensures BlockToBlockType(block) == Ok(Quote) ==> StartsWith(block, ">")
    ensures BlockToBlockType(block) == Ok(UList) ==> StartsWith(block, "* ") || StartsWith(block, "- ")
    ensures BlockToBlockType(block) == Ok(OList) ==> StartsWith(block, "1. ")
  {
    var lines := Lines(block);
    if BlockToBlockType(block) == Ok(Quote) {
      assert StartsWith(lines[0], ">");
      FirstLinePrefix(block, ">");
    }
    if BlockToBlockType(block) == Ok(UList) {
      if AllStartWith(lines, "* ") {
        assert StartsWith(lines[0], "* ");
        FirstLinePrefix(block, "* ");
      } else {
        assert StartsWith(lines[0], "- ");
        FirstLinePrefix(block, "- ");
      }
    }
    if BlockToBlockType(block) == Ok(OList) {
      assert StartsWith(lines[0], ListMarker(0));
      FirstMarkers();
      FirstLinePrefix(block, "1. ");
    }
  }

  /**
   * For a trimmed block, such as every block `MarkdownToBlocks` returns, the
   * code rule is simply: opens with three backticks and ends with a newline
   * and three backticks.
   */
  lemma TrimmedCode(block: string)
    requires Trimmed(block)
    ensures IsCode(block) <==> StartsWith(block, "```") && EndsWith(block, "\n```")
  {
  }

  // Classification examples: the edge of each rule (a glued fence, seven `#`,
  // mixed bullets, a repeated number) and a block each rule accepts.

  /** A string with no newline is a single line. */
  lemma OneLine(s: string)
    requires forall k :: 0 <= k < |s| ==> s[k] != '\n'
    ensures Lines(s) == [s]
  {
    forall k | 0 <= k < |s|
      ensures !OccursAt(s, "\n", k)
    {
      OccursChar(s, '\n', k);
    }
    SplitNoOccurrence(s, "\n");
  }

  /** Two newline-free lines joined by a newline are those two lines. */
  lemma TwoLines(a: string, b: string)
    requires forall k :: 0 <= k < |a| ==> a[k] != '\n'
    requires forall k :: 0 <= k < |b| ==> b[k] != '\n'
    ensures Lines(a + "\n" + b) == [a, b]
  {
    forall k | 0 <= k < |a|
      ensures !OccursAt(a + "\n" + b, "\n", k)
    {
      OccursChar(a + "\n" + b, '\n', k);
    }
    SplitAfter(a, "\n", b);
    OneLine(b);
  }

  /** Three backticks, any text, a newline and three backticks make a code block. */
  lemma FencedCode(x: string)
    ensures BlockToBlockType("```" + x + "\n```") == Ok(Code)
  {
    var b := "```" + x + "\n```";
    assert b[..3] == "```";
    assert b[|b| - 4..] == "\n```";
  }

  /** A closing fence glued to the code is not a fence: the block is a paragraph. */
  lemma GluedFence(x: string)
    requires x == "" || x[|x| - 1] != '\n'
    ensures BlockToBlockType("```" + x + "```") == Ok(Paragraph)
  {
    var b := "```" + x + "```";
    assert !EndsWith(b, "\n```") by {
      assert b[|b| - 4] == if x == "" then '`' else x[|x| - 1];
    }
    assert !EndsWith(b, "\n```\n") by { assert b[|b| - 1] == '`'; }
    assert LeadingHashes(b) == 0;
    assert !StartsWith(b, ">") && !StartsWith(b, "* ") && !StartsWith(b, "- ") && !StartsWith(b, "1. ");
    ClassifiedPrefix(b);
  }

  /** Seven or more `#` are not a heading: the block is a paragraph. */
  lemma SevenHashes(x: string)
    ensures BlockToBlockType("#######" + x) == Ok(Paragraph)
  {
    var b := "#######" + x;
    assert LeadingHashes(b) >= 7 by {
      assert forall j :: 0 <= j < 7 ==> b[j] == '#';
    }
    assert !StartsWith(b, ">") && !StartsWith(b, "* ") && !StartsWith(b, "- ") && !StartsWith(b, "1. ");
    ClassifiedPrefix(b);
  }

  /** `k` hashes for `k` from one to six, then a space, make a heading. */
  lemma HeadingLevels(k: nat, x: string)
    requires 1 <= k <= 6
    ensures BlockToBlockType(seq(k, _ => '#') + " " + x) == Ok(Heading)
  {
    var b := seq(k, _ => '#') + " " + x;
    assert b[k] == ' ';
    assert forall j :: 0 <= j < k ==> b[j] == '#';
    HeadingMatch(b);
    assert !IsCode(b) by { assert b[0] == '#'; }
  }

  /** Mixing the two bullet markers makes a paragraph. */
  lemma MixedBullets(x: string, y: string)
    requires forall k :: 0 <= k < |x| ==> x[k] != '\n'
    requires forall k :: 0 <= k < |y| ==> y[k] != '\n'
    ensures BlockToBlockType("- " + x + "\n* " + y) == Ok(Paragraph)
  {
    var l0 := "- " + x;
    var l1 := "* " + y;
    var b := l0 + "\n" + l1;
    assert "- " + x + "\n* " + y == b;
    TwoLines(l0, l1);
    var lines := Lines(b);
    FirstMarkers();
    assert !IsCode(b) by { assert b[0] != '`'; }
    assert !IsHeading(b) by { assert LeadingHashes(b) == 0; }
    assert !AllStartWith(lines, ">") by { assert lines[0][0] != '>'; }
    assert !AllStartWith(lines, "* ") by { assert lines[0][0] != '*'; }
    assert !AllStartWith(lines, "- ") by { assert lines[1][0] != '-'; }
    assert !Numbered(lines) by { assert lines[0][0] != '1'; }
  }

  /** The first two ordered-list markers. */
  lemma FirstMarkers()
    ensures ListMarker(0) == "1. " && ListMarker(1) == "2. "
  {
    assert NatToString(1) == "1";
    assert NatToString(2) == "2";
  }

  /** An ordered list must count up from one: a repeated `1. ` makes a paragraph. */
  lemma RepeatedNumber(x: string, y: string)
    requires forall k :: 0 <= k < |x| ==> x[k] != '\n'
    requires forall k :: 0 <= k < |y| ==> y[k] != '\n'
    ensures BlockToBlockType("1. " + x + "\n1. " + y) == Ok(Paragraph)
  {
    var l0 := "1. " + x;
    var l1 := "1. " + y;
    var b := l0 + "\n" + l1;
    assert "1. " + x + "\n1. " + y == b;
    TwoLines(l0, l1);
    var lines := Lines(b);
    FirstMarkers();
    assert !IsCode(b) by { assert b[0] != '`'; }
    assert !IsHeading(b) by { assert LeadingHashes(b) == 0; }
    assert !AllStartWith(lines, ">") by { assert lines[0][0] != '>'; }
    assert !Bulleted(lines) by { assert lines[0][0] != '*' && lines[0][0] != '-'; }
    assert !Numbered(lines) by { assert lines[1][0] != '2'; }
  }

  /** Lines numbered `1. `, `2. ` make an ordered list. */
  lemma CountingUp(x: string, y: string)
    requires forall k :: 0 <= k < |x| ==> x[k] != '\n'
    requires forall k :: 0 <= k < |y| ==> y[k] != '\n'
    ensures BlockToBlockType("1. " + x + "\n2. " + y) == Ok(OList)
  {
    var l0 := "1. " + x;
    var l1 := "2. " + y;
    var b := l0 + "\n" + l1;
    assert "1. " + x + "\n2. " + y == b;
    TwoLines(l0, l1);
    var lines := Lines(b);
    FirstMarkers();
    assert !IsCode(b) by { assert b[0] != '`'; }
    assert !IsHeading(b) by { assert LeadingHashes(b) == 0; }
    assert !AllStartWith(lines, ">") by { assert lines[0][0] != '>'; }
    assert !Bulleted(lines) by { assert lines[0][0] != '*' && lines[0][0] != '-'; }
    assert Numbered(lines) by {
      assert StartsWith(lines[0], ListMarker(0));
      assert StartsWith(lines[1], ListMarker(1));
    }
  }
}
