/** `LeafNode`: a node with an optional tag and a value and no children. */
module LeafNode {
  import opened Wrappers
  import opened HtmlNode

  /** `LeafNode(tag, value, props)`: passes no children, so they stay None. */
  function NewLeafNode(tag: Option<string>, value: Option<string>, props: Option<Props> := None): (n: Node)
    ensures n.cls == Leaf && n.children == NoChildren
    ensures n.tag == tag && n.value == value && n.props == props
  {
    Node(Leaf, tag, value, NoChildren, props)
  }

  /** `LeafNode.to_html`: the value check comes first, then an untagged leaf is its raw value. */
  function LeafToHtml(n: Node): (r: Result<string, HtmlError>)
    ensures r.Err? <==> n.value.None?
    ensures r.Err? ==> r.error == MissingValue
    ensures n.value.Some? && n.tag.None? ==> r == Ok(n.value.value)
  {
    if n.value.None? then Err(MissingValue)
    else if n.tag.None? then Ok(n.value.value)
    else Ok(OpenTag(n.tag.value, n.props) + n.value.value + CloseTag(n.tag.value))
  }

  /**
   * A tagged leaf with a value renders as `<`, the tag, the attributes, `>`,
   * the value verbatim, then `</tag>`; its length is 2|tag| + |attrs| + |value| + 5.
   * An empty value is accepted and gives an empty element pair.
   */
  lemma TaggedLeafLayout(n: Node)
    requires n.value.Some? && n.tag.Some?
    ensures var tag, attrs, v := n.tag.value, PropsHtml(n.props), n.value.value;
      var r := LeafToHtml(n);
      var body := |tag| + |attrs| + 2;
      && r.Ok?
      && |r.value| == 2 * |tag| + |attrs| + |v| + 5
      && r.value[..body] == "<" + tag + attrs + ">"
      && r.value[body..body + |v|] == v
      && r.value[body + |v|..] == "</" + tag + ">"
  {
    var tag, attrs, v := n.tag.value, PropsHtml(n.props), n.value.value;
    var open := "<" + tag + attrs + ">";
    var s := open + v + CloseTag(tag);
    assert LeafToHtml(n).value == s;
    assert s[..|open|] == open;
    assert s[|open|..|open| + |v|] == v;
    assert s[|open| + |v|..] == CloseTag(tag);
  }
}
