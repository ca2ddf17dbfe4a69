/**
 * The HTML node tree. The base class, its ParentNode subclass and the
 * LeafNode subclass are the three constructors of one datatype; only their
 * fields and the attribute rendering live here, serialisation is in
 * ParentNodes.
 */
module HtmlNodes {
  import opened Outcomes
  import opened Strings

  /** A props dictionary: key/value pairs in insertion order. */
  type Props = seq<(string, string)>

  datatype HtmlNode =
    | Plain(tag: Option<string>, value: Option<string>, children: seq<HtmlNode>, props: Props)
    | Parent(tag: Option<string>, children: seq<HtmlNode>, props: Props)
    | Leaf(tag: Option<string>, value: Option<string>, props: Props)
  {
    /** The `value` attribute; a parent node has none. */
    function Value(): (v: Option<string>)
      ensures Parent? ==> v == None
      ensures !Parent? ==> v == value
    {
      if Parent? then None else value
    }
  }

  /**
   * `HTMLNode(tag, value, children, props)`: a missing children list
   * becomes `[]` and missing props become `{}`; an empty list or dictionary
   * given explicitly is the same value as the default.
   */
  function NewHtmlNode(tag: Option<string>, value: Option<string>, children: Option<seq<HtmlNode>>, props: Option<Props>): (n: HtmlNode)
    ensures n.Plain? && n.tag == tag && n.value == value
    ensures children.None? ==> n.children == []
    ensures children.Some? ==> n.children == children.value
    ensures props.None? ==> n.props == []
    ensures props.Some? ==> n.props == props.value
  {
    Plain(tag, value, children.GetOr([]), props.GetOr([]))
  }

  /** `ParentNode(tag, children, props)`: the same defaults, and no value. */
  function NewParentNode(tag: Option<string>, children: Option<seq<HtmlNode>>, props: Option<Props>): (n: HtmlNode)
    ensures n.Parent? && n.tag == tag && n.Value() == None
    ensures children.None? ==> n.children == []
    ensures children.Some? ==> n.children == children.value
    ensures props.None? ==> n.props == []
    ensures props.Some? ==> n.props == props.value
  {
    Parent(tag, children.GetOr([]), props.GetOr([]))
  }

  /** One attribute as it appears inside an opening tag: a space, then `key="val"`. */
  function Attribute(key: string, val: string): string {
    " " + key + "=\"" + val + "\""
  }

  /** `props_to_html`: each pair rendered in order, with no escaping. */
  function PropsToHtml(props: Props): string {
    if props == [] then "" else Attribute(props[0].0, props[0].1) + PropsToHtml(props[1..])
  }

  /** Adding one pair at the end adds exactly its rendering at the end. */
  lemma {:induction false} PropsToHtmlAppend(props: Props, key: string, val: string)
    ensures PropsToHtml(props + [(key, val)]) == PropsToHtml(props) + Attribute(key, val)
  {
    if props == [] {
      assert props + [(key, val)] == [(key, val)];
      assert [(key, val)][1..] == [];
    } else {
      assert (props + [(key, val)])[1..] == props[1..] + [(key, val)];
      PropsToHtmlAppend(props[1..], key, val);
    }
  }

  /**
   * The rendering is never shorter than the pairs: each pair adds its key,
   * its value and four fixed characters; empty props render as "".
   */
  lemma {:induction false} PropsToHtmlLength(props: Props)
    ensures props == [] <==> PropsToHtml(props) == ""
    ensures props != [] ==> PropsToHtml(props)[0] == ' '
    ensures |PropsToHtml(props)| >= 4 * |props|
  {
    if props != [] {
      PropsToHtmlLength(props[1..]);
    }
  }

  /**
   * Two pairs render in insertion order, each as ` key="value"` with a
   * leading space and nothing between pairs.
   */
  lemma PropsToHtmlExample(k1: string, v1: string, k2: string, v2: string)
    ensures PropsToHtml([(k1, v1), (k2, v2)]) == " " + k1 + "=\"" + v1 + "\"" + " " + k2 + "=\"" + v2 + "\""
  {
    assert [(k1, v1), (k2, v2)] == [(k1, v1)] + [(k2, v2)];
    PropsToHtmlAppend([(k1, v1)], k2, v2);
    assert PropsToHtml([(k1, v1)]) == Attribute(k1, v1) by {
      assert [(k1, v1)][1..] == [];
    }
  }
}
