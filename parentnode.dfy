/**
 * Serialising a node tree to HTML. A parent node checks its tag, then its
 * children, then renders each child in order; a plain node cannot be
 * rendered. Leaf nodes are rendered by a given function, because the leaf
 * class (leafnode.py) is not part of this model.
 */
module ParentNodes {
  import opened Outcomes
  import opened Strings
  import opened HtmlNodes

  /** How a leaf node with this tag, value and props renders. */
  type LeafRenderer = (Option<string>, Option<string>, Props) -> Result<string>

  const NoTagMessage := "ParentNode must have a tag"
  const NoChildrenMessage := "ParentNode must have at least one child node"

  /** The opening tag with its attributes. */
  function OpenTag(tag: string, props: Props): string {
    "<" + tag + PropsToHtml(props) + ">"
  }

  function CloseTag(tag: string): string {
    "</" + tag + ">"
  }

  /** An element: opening tag, inner html, closing tag. */
  function Element(tag: string, props: Props, inner: string): string {
    OpenTag(tag, props) + inner + CloseTag(tag)
  }

  /** `to_html` over the node tree. */
  function ToHtml(n: HtmlNode, leaf: LeafRenderer): (r: Result<string>)
    ensures n.Plain? ==> r == Err(NotImplementedError)
    ensures n.Leaf? ==> r == leaf(n.tag, n.value, n.props)
    ensures n.Parent? && (n.tag == None || n.tag == Some("")) ==> r == Err(ValueError(NoTagMessage))
    ensures n.Parent? && n.tag != None && n.tag != Some("") && n.children == [] ==>
      r == Err(ValueError(NoChildrenMessage))
    ensures r.Ok? && n.Parent? ==>
      n.tag.Some? && n.tag.value != "" && n.children != []
      && StartsWith(r.value, OpenTag(n.tag.value, n.props))
      && EndsWith(r.value, CloseTag(n.tag.value))
    decreases n
  {
    match n
    case Plain(_, _, _, _) => Err(NotImplementedError)
    case Leaf(tag, value, props) => leaf(tag, value, props)
    case Parent(tag, children, props) =>
      if tag.None? || tag.value == "" then Err(ValueError(NoTagMessage))
      else if children == [] then Err(ValueError(NoChildrenMessage))
      else
        var parts :- Collect(ChildResults(n, leaf));
        var inner := Concat(parts);
        var open := OpenTag(tag.value, props);
        var close := CloseTag(tag.value);
        assert (open + inner + close)[..|open|] == open;
        assert (open + inner + close)[|open + inner|..] == close;
        Ok(Element(tag.value, props, inner))
  }

  /** The outcome of rendering each child of a parent node, in order. */
  function ChildResults(n: HtmlNode, leaf: LeafRenderer): (rs: seq<Result<string>>)
    requires n.Parent?
    ensures |rs| == |n.children|
    ensures forall i :: 0 <= i < |rs| ==> rs[i] == ToHtml(n.children[i], leaf)
    decreases n, 0
  {
    seq(|n.children|, i requires 0 <= i < |n.children| => ToHtml(n.children[i], leaf))
  }

  /** A parent with a tag and children renders as its children's joined outcome, wrapped. */
  lemma ParentRenders(n: HtmlNode, leaf: LeafRenderer)
    requires n.Parent? && n.tag.Some? && n.tag.value != "" && n.children != []
    ensures ToHtml(n, leaf) ==
      match Collect(ChildResults(n, leaf))
      case Err(e) => Err(e)
      case Ok(parts) => Ok(Element(n.tag.value, n.props, Concat(parts)))
  {
  }

  /**
   * A parent node renders exactly when its tag is present and non-empty, it
   * has children, and every child renders; the output is then the opening
   * tag with its attributes, the children's output in order, and the closing
   * tag.
   */
  lemma ParentToHtml(n: HtmlNode, leaf: LeafRenderer)
    requires n.Parent?
    ensures ToHtml(n, leaf).Ok? <==>
      n.tag.Some? && n.tag.value != "" && n.children != []
      && forall i :: 0 <= i < |n.children| ==> ToHtml(n.children[i], leaf).Ok?
    ensures ToHtml(n, leaf).Ok? ==>
      ToHtml(n, leaf).value == Element(n.tag.value, n.props, Concat(Collect(ChildResults(n, leaf)).value))
  {
    if n.tag.Some? && n.tag.value != "" && n.children != [] {
      ParentRenders(n, leaf);
    }
  }

  /** When a parent with a tag and children fails, it fails with its first failing child's error. */
  lemma FirstChildFailure(n: HtmlNode, leaf: LeafRenderer)
    requires n.Parent? && n.tag.Some? && n.tag.value != "" && n.children != []
    requires ToHtml(n, leaf).Err?
    ensures exists j ::
      && 0 <= j < |n.children|
      && ToHtml(n.children[j], leaf) == ToHtml(n, leaf)
      && forall k :: 0 <= k < j ==> ToHtml(n.children[k], leaf).Ok?
  {
    ParentRenders(n, leaf);
  }

  /** The node reached from `n` by following child indexes along `path`. */
  function At(n: HtmlNode, path: seq<nat>): Option<HtmlNode>
    decreases |path|
  {
    if path == [] then Some(n)
    else if !n.Parent? || path[0] >= |n.children| then None
    else At(n.children[path[0]], path[1..])
  }

  /**
   * A parent whose tree contains, below parents only, a node that fails to
   * render fails to render too.
   */
  lemma {:induction false} DescendantFailure(n: HtmlNode, leaf: LeafRenderer, path: seq<nat>)
    requires At(n, path).Some?
    requires ToHtml(At(n, path).value, leaf).Err?
    ensures ToHtml(n, leaf).Err?
    decreases |path|
  {
    if path != [] {
      var child := n.children[path[0]];
      DescendantFailure(child, leaf, path[1..]);
      ParentToHtml(n, leaf);
    }
  }

  /** A parent with a single child renders as that child inside its own tags. */
  lemma SingleChild(tag: string, child: HtmlNode, leaf: LeafRenderer)
    requires tag != ""
    requires ToHtml(child, leaf).Ok?
    ensures ToHtml(Parent(Some(tag), [child], []), leaf)
         == Ok(Element(tag, [], ToHtml(child, leaf).value))
  {
    var n := Parent(Some(tag), [child], []);
    ParentToHtml(n, leaf);
    var vs := Collect(ChildResults(n, leaf)).value;
    assert vs == [ToHtml(child, leaf).value];
    assert vs[1..] == [];
    assert Concat(vs) == ToHtml(child, leaf).value;
  }

  /** A `div` around one `p` leaf renders as the leaf's output between `<div>` and `</div>`. */
  lemma SingleChildExample(leaf: LeafRenderer, v: string)
    requires leaf(Some("p"), Some("Hello"), []) == Ok(v)
    ensures ToHtml(Parent(Some("div"), [Leaf(Some("p"), Some("Hello"), [])], []), leaf)
         == Ok("<div>" + v + "</div>")
  {
    SingleChild("div", Leaf(Some("p"), Some("Hello"), []), leaf);
    assert PropsToHtml([]) == "";
    assert OpenTag("div", []) == "<div>";
    assert CloseTag("div") == "</div>";
  }

  /** A parent with two children renders as their outputs, in order, inside its own tags. */
  lemma TwoChildren(tag: string, c1: HtmlNode, c2: HtmlNode, v1: string, v2: string, leaf: LeafRenderer)
    requires tag != ""
    requires ToHtml(c1, leaf) == Ok(v1) && ToHtml(c2, leaf) == Ok(v2)
    ensures ToHtml(Parent(Some(tag), [c1, c2], []), leaf).Ok?
    ensures ToHtml(Parent(Some(tag), [c1, c2], []), leaf).value == Element(tag, [], v1 + v2)
  {
    var n := Parent(Some(tag), [c1, c2], []);
    ParentRenders(n, leaf);
    var rs := ChildResults(n, leaf);
    assert rs[0] == Ok(v1) && rs[1] == Ok(v2);
    var vs := Collect(rs).value;
    assert vs[0] == v1 && vs[1] == v2;
    assert vs[1..][1..] == [];
    assert v2 + "" == v2;
    assert Concat(vs[1..]) == v2;
    assert Concat(vs) == v1 + v2;
  }

  /**
   * Nested parents: two `div` parents, each holding one node,
   * under a `main` parent render as the two nodes' output nested in order.
   */
  lemma GrandchildrenExample(leaf: LeafRenderer, x: HtmlNode, y: HtmlNode, vx: string, vy: string)
    requires ToHtml(x, leaf) == Ok(vx) && ToHtml(y, leaf) == Ok(vy)
    ensures ToHtml(Parent(Some("main"), [Parent(Some("div"), [x], []), Parent(Some("div"), [y], [])], []), leaf)
         == Ok(Element("main", [], Element("div", [], vx) + Element("div", [], vy)))
  {
    SingleChild("div", x, leaf);
    SingleChild("div", y, leaf);
    TwoChildren("main", Parent(Some("div"), [x], []), Parent(Some("div"), [y], []),
                Element("div", [], vx), Element("div", [], vy), leaf);
  }
}
