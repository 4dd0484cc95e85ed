/**
 * The HTML node tree shared by the converter: the fields every node carries,
 * the attribute rendering, and the base class whose `to_html` is abstract.
 *
 * Python's three classes (HtmlNode, LeafNode, ParentNode) all store the same
 * four attributes; `cls` records which constructor built the node, which is
 * what Python's method dispatch looks at.
 */
module HtmlNode {
  import opened Wrappers

  /** One attribute as a key and its value. */
  type Prop = (string, string)

  /** Attributes in insertion order, as a Python dict iterates them. */
  type Props = seq<Prop>

  datatype NodeClass = Base | Leaf | Parent

  datatype Node = Node(
    cls: NodeClass,
    tag: Option<string>,
    value: Option<string>,
    children: Children,
    props: Option<Props>)

  /** The `children` attribute: None, or a list of nodes. */
  datatype Children = NoChildren | Children(nodes: seq<Node>)

  /** The exceptions `to_html` raises. */
  datatype HtmlError =
    | NotImplemented   // the base class has no rendering
    | MissingValue     // a leaf without a value
    | MissingTag       // a parent without a tag
    | MissingChildren  // a parent without a children list

  /** `HtmlNode(tag, value, children, props)`: every field defaults to None. */
  function NewHtmlNode(tag: Option<string> := None, value: Option<string> := None,
                       children: Children := NoChildren, props: Option<Props> := None): (n: Node)
    ensures n.cls == Base
    ensures n.tag == tag && n.value == value && n.children == children && n.props == props
  {
    Node(Base, tag, value, children, props)
  }

  /** `HtmlNode.to_html`: the base class always raises. */
  function BaseToHtml(n: Node): Result<string, HtmlError> {
    Err(NotImplemented)
  }

  /** The text one attribute contributes: a space, then `key="value"`, unescaped. */
  function Attr(p: Prop): string {
    " " + p.0 + "=\"" + p.1 + "\""
  }

  /** The attributes rendered one after another, in order. */
  function AttrsOf(ps: Props): string {
    if ps == [] then "" else Attr(ps[0]) + AttrsOf(ps[1..])
  }

  /** What `props_to_html` returns for the props a node carries. */
  function PropsHtml(props: Option<Props>): (r: string)
    ensures r == "" <==> props.None? || props.value == []
    ensures r != "" ==> r[0] == ' '
  {
    if props.None? || props.value == [] then "" else AttrsOf(props.value)
  }

  /** The size each attribute adds: its key and value plus the four characters ` =""`. */
  function AttrsSize(ps: Props): nat {
    if ps == [] then 0 else |ps[0].0| + |ps[0].1| + 4 + AttrsSize(ps[1..])
  }

  /** `<tag attrs>`, the opening tag both leaves and parents write. */
  function OpenTag(tag: string, props: Option<Props>): string {
    "<" + tag + PropsHtml(props) + ">"
  }

  /** `</tag>`. */
  function CloseTag(tag: string): string {
    "</" + tag + ">"
  }

  /** Rendering a concatenation of attribute lists concatenates the renderings. */
  lemma {:induction false} AttrsConcat(a: Props, b: Props)
    ensures AttrsOf(a + b) == AttrsOf(a) + AttrsOf(b)
  {
    if a == [] {
      assert a + b == b;
    } else {
      assert (a + b)[0] == a[0];
      assert (a + b)[1..] == a[1..] + b;
      AttrsConcat(a[1..], b);
      calc {
        AttrsOf(a + b);
        Attr(a[0]) + AttrsOf(a[1..] + b);
        Attr(a[0]) + (AttrsOf(a[1..]) + AttrsOf(b));
        (Attr(a[0]) + AttrsOf(a[1..])) + AttrsOf(b);
      }
    }
  }

  /** Adding a pair at the end of the props adds exactly ` k="v"` at the end of the rendering. */
  lemma AttrsAppend(ps: Props, k: string, v: string)
    ensures PropsHtml(Some(ps + [(k, v)])) == PropsHtml(Some(ps)) + (" " + k + "=\"" + v + "\"")
  {
    AttrsConcat(ps, [(k, v)]);
    assert AttrsOf([(k, v)]) == Attr((k, v)) + AttrsOf([]) == Attr((k, v));
    assert PropsHtml(Some(ps)) == AttrsOf(ps);
  }

  /** The i-th pair's rendering sits right after the renderings of the pairs before it. */
  lemma {:induction false} AttrsAt(ps: Props, i: nat)
    requires i < |ps|
    ensures AttrsOf(ps) == AttrsOf(ps[..i]) + Attr(ps[i]) + AttrsOf(ps[i + 1..])
  {
    var front, rest := ps[..i], ps[i..];
    assert ps == front + rest;
    AttrsConcat(front, rest);
    assert rest[0] == ps[i] && rest[1..] == ps[i + 1..];
  }

  /** The rendering's length is the sum over pairs of |k| + |v| + 4. */
  lemma {:induction false} AttrsLength(ps: Props)
    ensures |AttrsOf(ps)| == AttrsSize(ps)
  {
    if ps != [] {
      AttrsLength(ps[1..]);
    }
  }

  /** `props_to_html`: append each pair's rendering in insertion order. */
  method PropsToHtml(n: Node) returns (html: string)
    ensures html == PropsHtml(n.props)
  {
    if n.props.None? || n.props.value == [] {
      return "";
    }
    var ps := n.props.value;
    html := "";
    for i := 0 to |ps|
      invariant html == AttrsOf(ps[..i])
    {
      AttrsConcat(ps[..i], [ps[i]]);
      assert ps[..i + 1] == ps[..i] + [ps[i]];
      html := html + Attr(ps[i]);
    }
    assert ps[..|ps|] == ps;
  }
}
