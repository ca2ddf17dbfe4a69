/**
 * The inline span value the splitters consume and produce. The class that
 * defines it (textnode.py) is not part of this model: only the fields and
 * the kind names the modelled code uses appear here.
 */
module TextNodes {
  import opened Outcomes
  import opened Strings

  datatype TextType = Text | Bold | Italic | Code | Link | Image

  /** `TextNode(text, text_type, url)`; the two-argument form leaves `url` as None. */
  datatype TextNode = TextNode(text: string, textType: TextType, url: Option<string>)

  /** The texts of `nodes`, concatenated in order. */
  function Texts(nodes: seq<TextNode>): string {
    if nodes == [] then "" else nodes[0].text + Texts(nodes[1..])
  }

  lemma {:induction false} TextsAppend(a: seq<TextNode>, b: seq<TextNode>)
    ensures Texts(a + b) == Texts(a) + Texts(b)
  {
    if a != [] {
      assert (a + b)[1..] == a[1..] + b;
      TextsAppend(a[1..], b);
    } else {
      assert a + b == b;
    }
  }

  /** How many of `nodes` have kind `t`. */
  function CountOf(nodes: seq<TextNode>, t: TextType): nat {
    if nodes == [] then 0 else (if nodes[0].textType == t then 1 else 0) + CountOf(nodes[1..], t)
  }

  lemma {:induction false} CountOfAppend(a: seq<TextNode>, b: seq<TextNode>, t: TextType)
    ensures CountOf(a + b, t) == CountOf(a, t) + CountOf(b, t)
  {
    if a != [] {
      assert (a + b)[1..] == a[1..] + b;
      CountOfAppend(a[1..], b, t);
    } else {
      assert a + b == b;
    }
  }

  /**
   * The shared loop `for node in old_nodes: new_nodes.extend(f(node))`:
   * the per-node results concatenated in input order; the first node whose
   * result is an error ends the loop with that error.
   */
  function ExtendAll(nodes: seq<TextNode>, f: TextNode -> Result<seq<TextNode>>): Result<seq<TextNode>>
    decreases |nodes|
  {
    if nodes == [] then Ok([])
    else
      var done :- ExtendAll(nodes[..|nodes| - 1], f);
      var last :- f(nodes[|nodes| - 1]);
      Ok(done + last)
  }

  /** Processing a concatenation of lists is processing each and concatenating. */
  lemma {:induction false} ExtendAllAppend(a: seq<TextNode>, b: seq<TextNode>, f: TextNode -> Result<seq<TextNode>>)
    ensures ExtendAll(a + b, f) ==
      match ExtendAll(a, f)
      case Err(e) => Err(e)
      case Ok(x) =>
        match ExtendAll(b, f)
        case Err(e) => Err(e)
        case Ok(y) => Ok(x + y)
    decreases |b|
  {
    if b == [] {
      assert a + b == a;
      match ExtendAll(a, f)
      case Err(e) =>
      case Ok(x) => assert x + [] == x;
    } else {
      var b' := b[..|b| - 1];
      ExtendAllAppend(a, b', f);
      assert (a + b)[..|a + b| - 1] == a + b';
      assert (a + b)[|a + b| - 1] == b[|b| - 1];
      match ExtendAll(a, f)
      case Err(e) =>
      case Ok(x) =>
        match ExtendAll(b', f)
        case Err(e) =>
        case Ok(y) =>
          match f(b[|b| - 1])
          case Err(e) =>
          case Ok(z) =>
            assert x + y + z == x + (y + z);
    }
  }

  /**
   * One step of the loop: with the first `j` nodes processed into `acc`,
   * node `j` either extends `acc` or ends the whole loop with its error.
   */
  lemma ExtendAllStep(nodes: seq<TextNode>, j: nat, f: TextNode -> Result<seq<TextNode>>, acc: seq<TextNode>)
    requires j < |nodes| && ExtendAll(nodes[..j], f) == Ok(acc)
    ensures f(nodes[j]).Ok? ==> ExtendAll(nodes[..j + 1], f) == Ok(acc + f(nodes[j]).value)
    ensures f(nodes[j]).Err? ==> ExtendAll(nodes, f) == Err(f(nodes[j]).error)
  {
    assert nodes[..j + 1][..j] == nodes[..j];
    assert nodes[..j + 1][j] == nodes[j];
    if f(nodes[j]).Err? {
      assert nodes[..j + 1] + nodes[j + 1..] == nodes;
      ExtendAllAppend(nodes[..j + 1], nodes[j + 1..], f);
    }
  }

  /** On a single node, the loop gives that node's result. */
  lemma ExtendAllSingle(node: TextNode, f: TextNode -> Result<seq<TextNode>>)
    ensures ExtendAll([node], f) == f(node)
  {
    assert [node][..0] == [];
    match f(node)
    case Err(e) =>
    case Ok(z) => assert [] + z == z;
  }

  /**
   * Two per-node functions that agree on every node of a list, in success
   * and in value, give the same success and value over the whole list.
   */
  lemma {:induction false} ExtendAllAgree(nodes: seq<TextNode>, f: TextNode -> Result<seq<TextNode>>, g: TextNode -> Result<seq<TextNode>>)
    requires forall i :: 0 <= i < |nodes| ==> (f(nodes[i]).Ok? <==> g(nodes[i]).Ok?)
    requires forall i :: 0 <= i < |nodes| && f(nodes[i]).Ok? ==> f(nodes[i]) == g(nodes[i])
    ensures ExtendAll(nodes, f).Ok? <==> ExtendAll(nodes, g).Ok?
    ensures ExtendAll(nodes, f).Ok? ==> ExtendAll(nodes, f) == ExtendAll(nodes, g)
    decreases |nodes|
  {
    if nodes != [] {
      var prefix := nodes[..|nodes| - 1];
      assert forall i :: 0 <= i < |prefix| ==> prefix[i] == nodes[i];
      ExtendAllAgree(prefix, f, g);
    }
  }
}
