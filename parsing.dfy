/**
 * The older delimiter splitter: the same cut on a delimiter, written as a
 * nested loop that appends node by node. It differs from the inline
 * splitter in two ways: a delimited section is kept even when it is empty,
 * and its error message does not quote the text.
 */
module Parsing {
  import opened Outcomes
  import opened Strings
  import opened TextNodes
  import InlineMarkdown

  /**
   * What the inner loop has appended after the first `n` sections: every
   * odd (delimited) section, and each even section that is not empty.
   */
  function KeptNodes(sections: seq<string>, n: nat, textType: TextType): seq<TextNode>
    requires n <= |sections|
  {
    if n == 0 then []
    else
      var i := n - 1;
      KeptNodes(sections, i, textType) + SectionNode(sections, i, textType)
  }

  /** Whether section `i` produces a node: odd ones always, even ones when non-empty. */
  predicate Kept(sections: seq<string>, i: nat)
    requires i < |sections|
  {
    i % 2 != 0 || sections[i] != ""
  }

  /** How many of the first `n` sections produce a node. */
  function KeptCount(sections: seq<string>, n: nat): nat
    requires n <= |sections|
  {
    if n == 0 then 0 else KeptCount(sections, n - 1) + (if Kept(sections, n - 1) then 1 else 0)
  }

  lemma {:induction false} KeptCountMono(sections: seq<string>, i: nat, n: nat)
    requires i <= n <= |sections|
    ensures KeptCount(sections, i) <= KeptCount(sections, n)
    decreases n
  {
    if i < n {
      KeptCountMono(sections, i, n - 1);
    }
  }

  lemma {:induction false} KeptNodesLength(sections: seq<string>, n: nat, textType: TextType)
    requires n <= |sections|
    ensures |KeptNodes(sections, n, textType)| == KeptCount(sections, n)
    decreases n
  {
    if n > 0 {
      KeptNodesLength(sections, n - 1, textType);
    }
  }

  /**
   * Section `i`, when it produces a node, is the node at position "number
   * of producing sections before it": the delimited kind if `i` is odd
   * (even if the section is empty), TEXT if `i` is even.
   */
  lemma {:induction false} KeptNodesAt(sections: seq<string>, n: nat, textType: TextType, i: nat)
    requires i < n <= |sections|
    requires Kept(sections, i)
    ensures |KeptNodes(sections, n, textType)| == KeptCount(sections, n)
    ensures KeptCount(sections, i) < KeptCount(sections, n)
    ensures KeptNodes(sections, n, textType)[KeptCount(sections, i)]
         == TextNode(sections[i], if i % 2 != 0 then textType else Text, None)
    decreases n
  {
    KeptNodesLength(sections, n, textType);
    if i < n - 1 {
      KeptNodesAt(sections, n - 1, textType, i);
    } else {
      KeptNodesLength(sections, i, textType);
    }
  }

  /** What the inner loop appends for section `i`. */
  function SectionNode(sections: seq<string>, i: nat, textType: TextType): seq<TextNode>
    requires i < |sections|
  {
    if i % 2 != 0 then [TextNode(sections[i], textType, None)]
    else if sections[i] != "" then [TextNode(sections[i], Text, None)]
    else []
  }

  /**
   * For a delimited kind other than TEXT, the first `n` sections give
   * exactly `n / 2` delimited nodes, one per odd index below `n`.
   */
  lemma {:induction false} KeptNodesCount(sections: seq<string>, n: nat, textType: TextType)
    requires n <= |sections|
    ensures textType != Text ==> CountOf(KeptNodes(sections, n, textType), textType) == n / 2
    decreases n
  {
    if n > 0 {
      var i := n - 1;
      var last := SectionNode(sections, i, textType);
      KeptNodesCount(sections, i, textType);
      assert KeptNodes(sections, n, textType) == KeptNodes(sections, i, textType) + last;
      CountOfAppend(KeptNodes(sections, i, textType), last, textType);
      if textType != Text {
        if i % 2 != 0 {
          assert CountOf(last, textType) == 1 by {
            assert last[1..] == [];
          }
          assert n / 2 == i / 2 + 1;
        } else {
          assert CountOf(last, textType) == 0 by {
            if last != [] {
              assert last[1..] == [];
            }
          }
          assert n / 2 == i / 2;
        }
      }
    }
  }

  /** The texts of the nodes from the first `n` sections concatenate to the sections' texts. */
  lemma {:induction false} KeptNodesTexts(sections: seq<string>, n: nat, textType: TextType)
    requires n <= |sections|
    ensures Texts(KeptNodes(sections, n, textType)) == Concat(sections[..n])
    decreases n
  {
    if n > 0 {
      var i := n - 1;
      var prefix := KeptNodes(sections, i, textType);
      var last := SectionNode(sections, i, textType);
      assert KeptNodes(sections, n, textType) == prefix + last;
      KeptNodesTexts(sections, i, textType);
      TextsAppend(prefix, last);
      assert sections[..n] == sections[..i] + [sections[i]];
      ConcatAppend(sections[..i], [sections[i]]);
      assert Concat([sections[i]]) == sections[i];
      assert Texts(last) == sections[i];
    }
  }

  /**
   * When no delimited section among the first `n` is empty, the older
   * splitter keeps exactly the nodes the inline splitter keeps.
   */
  lemma {:induction false} KeptNodesAgree(sections: seq<string>, n: nat, textType: TextType)
    requires n <= |sections|
    requires forall i :: 0 <= i < n && i % 2 != 0 ==> sections[i] != ""
    ensures KeptNodes(sections, n, textType) == InlineMarkdown.SectionNodes(sections, n, textType)
    decreases n
  {
    if n > 0 {
      KeptNodesAgree(sections, n - 1, textType);
    }
  }

  function NoClosingMessage(delimiter: string): string {
    "No closing '" + delimiter + "' delimiter found in input text"
  }

  /**
   * One iteration of the outer loop: a node that is not TEXT is appended as
   * it is; a TEXT node whose text splits into an even number of sections
   * fails with a message quoting the delimiter; otherwise the producing
   * sections are appended in order.
   */
  function SplitNode(node: TextNode, delimiter: string, textType: TextType): (r: Result<seq<TextNode>>)
    ensures node.textType != Text ==> r == Ok([node])
    ensures node.textType == Text && delimiter == "" ==> r == Err(ValueError("empty separator"))
    ensures node.textType == Text && delimiter != "" ==>
      (r.Err? <==> |Split(node.text, delimiter)| % 2 == 0)
    ensures node.textType == Text && delimiter != "" && r.Err? ==>
      r.error == ValueError(NoClosingMessage(delimiter))
    ensures node.textType == Text && r.Ok? ==>
      && |delimiter| > 0
      && (textType != Text ==> CountOf(r.value, textType) == (|Split(node.text, delimiter)| - 1) / 2)
      && Texts(r.value) == RemoveAll(node.text, delimiter)
  {
    if node.textType != Text then Ok([node])
    else if delimiter == "" then Err(ValueError("empty separator"))
    else
      var sections := Split(node.text, delimiter);
      if |sections| % 2 == 0 then Err(ValueError(NoClosingMessage(delimiter)))
      else
        KeptNodesCount(sections, |sections|, textType);
        KeptNodesTexts(sections, |sections|, textType);
        SplitConcat(node.text, delimiter);
        assert sections[..|sections|] == sections;
        Ok(KeptNodes(sections, |sections|, textType))
  }

  /** What `split_nodes_delimiter` returns: every node's output, appended in order. */
  function SplitAll(nodes: seq<TextNode>, delimiter: string, textType: TextType): Result<seq<TextNode>> {
    ExtendAll(nodes, node => SplitNode(node, delimiter, textType))
  }

  /**
   * The inner loop of `split_nodes_delimiter`: appends a node of the
   * delimited kind for every odd section and a TEXT node for every
   * non-empty even one.
   */
  method AppendSections(nodes: seq<TextNode>, sections: seq<string>, textType: TextType) returns (out: seq<TextNode>)
    ensures out == nodes + KeptNodes(sections, |sections|, textType)
  {
    out := nodes;
    var i := 0;
    while i < |sections|
      invariant 0 <= i <= |sections|
      invariant out == nodes + KeptNodes(sections, i, textType)
    {
      ghost var kept := KeptNodes(sections, i, textType);
      assert KeptNodes(sections, i + 1, textType) == kept + SectionNode(sections, i, textType);
      if i % 2 != 0 {
        out := out + [TextNode(sections[i], textType, None)];
      } else if sections[i] != "" {
        out := out + [TextNode(sections[i], Text, None)];
      }
      i := i + 1;
    }
  }

  /** `split_nodes_delimiter`: an outer loop over the nodes, the inner one over each node's sections. */
  method SplitNodesDelimiter(oldNodes: seq<TextNode>, delimiter: string, textType: TextType)
    returns (r: Result<seq<TextNode>>)
    ensures r == SplitAll(oldNodes, delimiter, textType)
  {
    var newNodes: seq<TextNode> := [];
    var j := 0;
    while j < |oldNodes|
      invariant 0 <= j <= |oldNodes|
      invariant SplitAll(oldNodes[..j], delimiter, textType) == Ok(newNodes)
    {
      var node := oldNodes[j];
      ExtendAllStep(oldNodes, j, node => SplitNode(node, delimiter, textType), newNodes);
      if node.textType != Text {
        newNodes := newNodes + [node];
      } else {
        if delimiter == "" {
          assert SplitNode(node, delimiter, textType) == Err(ValueError("empty separator"));
          return Err(ValueError("empty separator"));
        }
        var splitText := Split(node.text, delimiter);
        if |splitText| % 2 == 0 {
          assert SplitNode(node, delimiter, textType) == Err(ValueError(NoClosingMessage(delimiter)));
          return Err(ValueError(NoClosingMessage(delimiter)));
        }
        newNodes := AppendSections(newNodes, splitText, textType);
        assert SplitNode(node, delimiter, textType) == Ok(KeptNodes(splitText, |splitText|, textType));
      }
      j := j + 1;
    }
    assert oldNodes[..j] == oldNodes;
    return Ok(newNodes);
  }

  /** Whether every delimited section of `node`'s split on `delimiter` is non-empty. */
  predicate NoEmptyDelimited(node: TextNode, delimiter: string)
    requires |delimiter| > 0
  {
    var sections := Split(node.text, delimiter);
    forall i :: 0 <= i < |sections| && i % 2 != 0 ==> sections[i] != ""
  }

  /**
   * The older splitter never keeps fewer nodes than the inline one, and
   * keeps strictly more as soon as one delimited section is empty.
   */
  lemma {:induction false} KeptCountExceeds(sections: seq<string>, n: nat)
    requires n <= |sections|
    ensures KeptCount(sections, n) >= NonEmptyCount(sections, n)
    ensures (exists i :: 0 <= i < n && i % 2 != 0 && sections[i] == "") ==>
      KeptCount(sections, n) > NonEmptyCount(sections, n)
    decreases n
  {
    if n > 0 {
      KeptCountExceeds(sections, n - 1);
      if exists i :: 0 <= i < n && i % 2 != 0 && sections[i] == "" {
        var i :| 0 <= i < n && i % 2 != 0 && sections[i] == "";
        if i < n - 1 {
          assert exists i :: 0 <= i < n - 1 && i % 2 != 0 && sections[i] == "";
        }
      }
    }
  }

  /**
   * The two splitters fail on the same nodes, pass every other node through
   * alike, and on a TEXT node they both split they give the same nodes
   * exactly when no delimited section is empty.
   */
  lemma SplitNodeAgree(node: TextNode, delimiter: string, textType: TextType)
    ensures SplitNode(node, delimiter, textType).Err?
        <==> InlineMarkdown.SplitNodeDelimiter(node, delimiter, textType).Err?
    ensures node.textType != Text ==>
      SplitNode(node, delimiter, textType) == InlineMarkdown.SplitNodeDelimiter(node, delimiter, textType)
    ensures node.textType == Text && SplitNode(node, delimiter, textType).Ok? ==>
      && |delimiter| > 0
      && (SplitNode(node, delimiter, textType) == InlineMarkdown.SplitNodeDelimiter(node, delimiter, textType)
          <==> NoEmptyDelimited(node, delimiter))
  {
    if node.textType == Text && |delimiter| > 0 {
      var sections := Split(node.text, delimiter);
      if NoEmptyDelimited(node, delimiter) {
        KeptNodesAgree(sections, |sections|, textType);
      } else {
        KeptCountExceeds(sections, |sections|);
        KeptNodesLength(sections, |sections|, textType);
        InlineMarkdown.SectionNodesLength(sections, |sections|, textType);
      }
    }
  }

  /**
   * On a whole list in which no TEXT node has an empty delimited section,
   * the two splitters both fail or both succeed with the same list.
   */
  lemma SplitAllAgree(nodes: seq<TextNode>, delimiter: string, textType: TextType)
    requires |delimiter| > 0
    requires forall i :: 0 <= i < |nodes| && nodes[i].textType == Text ==> NoEmptyDelimited(nodes[i], delimiter)
    ensures SplitAll(nodes, delimiter, textType).Ok? <==> InlineMarkdown.SplitAll(nodes, delimiter, textType).Ok?
    ensures SplitAll(nodes, delimiter, textType).Ok? ==>
      SplitAll(nodes, delimiter, textType) == InlineMarkdown.SplitAll(nodes, delimiter, textType)
  {
    forall i | 0 <= i < |nodes| {
      SplitNodeAgree(nodes[i], delimiter, textType);
    }
    ExtendAllAgree(nodes, node => SplitNode(node, delimiter, textType),
                   node => InlineMarkdown.SplitNodeDelimiter(node, delimiter, textType));
  }

  /**
   * A delimiter written twice in a row, between texts that do not contain
   * its first character, cuts them into three sections, the middle one empty.
   */
  lemma DoubledDelimiterSplit(a: string, sep: string, b: string)
    requires |sep| > 0
    requires forall k :: 0 <= k < |a| ==> a[k] != sep[0]
    requires forall k :: 0 <= k < |b| ==> b[k] != sep[0]
    ensures Split(a + sep + (sep + b), sep) == [a, "", b]
  {
    var t := sep + b;
    SplitFreeOfFirst(b, sep);
    SplitStartsWith(sep, b);
    NoEarlyOccurrence(a, sep, t);
    SplitAfter(a, sep, t);
  }

  /** A text that starts with `sep` has an empty first section. */
  lemma SplitStartsWith(sep: string, b: string)
    requires |sep| > 0
    ensures Split(sep + b, sep) == [""] + Split(b, sep)
  {
    assert [] + sep + b == sep + b;
    SplitAfter([], sep, b);
  }

  /** A text without the first character of `sep` is one section. */
  lemma SplitFreeOfFirst(b: string, sep: string)
    requires |sep| > 0
    requires forall k :: 0 <= k < |b| ==> b[k] != sep[0]
    ensures Split(b, sep) == [b]
  {
    forall k | 0 <= k < |b|
      ensures !OccursAt(b, sep, k)
    {
      assert k + |sep| <= |b| ==> b[k..k + |sep|][0] == b[k];
    }
    SplitNoOccurrence(b, sep);
  }

  /** `sep` cannot start inside a text free of its first character. */
  lemma NoEarlyOccurrence(a: string, sep: string, t: string)
    requires |sep| > 0
    requires forall k :: 0 <= k < |a| ==> a[k] != sep[0]
    ensures forall k :: 0 <= k < |a| ==> !OccursAt(a + sep + t, sep, k)
  {
    var s := a + sep + t;
    forall k | 0 <= k < |a|
      ensures !OccursAt(s, sep, k)
    {
      assert s[k] == a[k];
      assert k + |sep| <= |s| ==> s[k..k + |sep|][0] == s[k];
    }
  }

  /** `a****b` splits on `**` into `a`, an empty delimited section, and `b`. */
  lemma DoubledBoldSplit(a: string, b: string)
    requires forall k :: 0 <= k < |a| ==> a[k] != '*'
    requires forall k :: 0 <= k < |b| ==> b[k] != '*'
    ensures Split(a + "****" + b, "**") == [a, "", b]
  {
    assert a + "****" + b == a + "**" + ("**" + b);
    DoubledDelimiterSplit(a, "**", b);
  }

  /** An empty delimited section becomes an empty node of the delimited kind. */
  lemma EmptyDelimitedKept(a: string, b: string)
    requires a != "" && b != ""
    requires forall k :: 0 <= k < |a| ==> a[k] != '*'
    requires forall k :: 0 <= k < |b| ==> b[k] != '*'
    ensures SplitNode(TextNode(a + "****" + b, Text, None), "**", Bold)
         == Ok([TextNode(a, Text, None), TextNode("", Bold, None), TextNode(b, Text, None)])
  {
    DoubledBoldSplit(a, b);
    var sections := [a, "", b];
    assert KeptNodes(sections, 1, Bold) == [TextNode(a, Text, None)] by {
      assert SectionNode(sections, 0, Bold) == [TextNode(a, Text, None)];
    }
    assert SectionNode(sections, 1, Bold) == [TextNode("", Bold, None)];
    assert SectionNode(sections, 2, Bold) == [TextNode(b, Text, None)];
    assert KeptNodes(sections, 3, Bold) == [TextNode(a, Text, None), TextNode("", Bold, None), TextNode(b, Text, None)];
  }

  /** The inline splitter drops the same empty section. */
  lemma EmptyDelimitedDropped(a: string, b: string)
    requires a != "" && b != ""
    requires forall k :: 0 <= k < |a| ==> a[k] != '*'
    requires forall k :: 0 <= k < |b| ==> b[k] != '*'
    ensures InlineMarkdown.SplitNodeDelimiter(TextNode(a + "****" + b, Text, None), "**", Bold)
         == Ok([TextNode(a, Text, None), TextNode(b, Text, None)])
  {
    DoubledBoldSplit(a, b);
    var sections := [a, "", b];
    assert InlineMarkdown.SectionNodes(sections, 1, Bold) == [TextNode(a, Text, None)];
    assert InlineMarkdown.SectionNodes(sections, 2, Bold) == [TextNode(a, Text, None)];
    assert InlineMarkdown.SectionNodes(sections, 3, Bold) == [TextNode(a, Text, None), TextNode(b, Text, None)];
  }
}
