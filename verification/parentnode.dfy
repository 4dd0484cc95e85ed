/**
 * `ParentNode` and the rendering of a whole tree.
 *
 * `to_html` is one Python method overridden per class; a parent calls it on each
 * child, whatever the child's class. `ToHtml` is that dispatch, and it lives here
 * because it and the parent rendering call each other.
 */
module ParentNode {
  import opened Wrappers
  import opened HtmlNode
  import opened LeafNode

  /** `ParentNode(tag, children, props)`: passes no value, so it stays None. */
  function NewParentNode(tag: Option<string>, children: Children, props: Option<Props> := None): (n: Node)
    ensures n.cls == Parent && n.value == None
    ensures n.tag == tag && n.children == children && n.props == props
  {
    Node(Parent, tag, None, children, props)
  }

  /**
   * `node.to_html()`, dispatched on the class that built the node: a base node
   * never renders, a leaf renders exactly when it has a value, and a parent
   * renders only when it has a tag and children.
   */
  function ToHtml(n: Node): (r: Result<string, HtmlError>)
    decreases n, 1
    ensures n.cls == Base ==> r == Err(NotImplemented)
    ensures n.cls == Leaf ==> (r.Ok? <==> n.value.Some?)
    ensures n.cls == Parent && r.Ok? ==> n.tag.Some? && n.children.Children?
  {
    match n.cls
    case Base => BaseToHtml(n)
    case Leaf => LeafToHtml(n)
    case Parent => ParentToHtml(n)
  }

  /**
   * `ParentNode.to_html`: a missing tag is reported before missing children;
   * otherwise it succeeds exactly when every child renders.
   */
  function ParentToHtml(n: Node): (r: Result<string, HtmlError>)
    decreases n, 0
    ensures n.tag.None? ==> r == Err(MissingTag)
    ensures n.tag.Some? && n.children.NoChildren? ==> r == Err(MissingChildren)
    ensures r.Ok? <==> n.tag.Some? && n.children.Children?
                       && forall i :: 0 <= i < |n.children.nodes| ==> ToHtml(n.children.nodes[i]).Ok?
  {
    if n.tag.None? then Err(MissingTag)
    else if n.children.NoChildren? then Err(MissingChildren)
    else match ChildrenHtml(n.children.nodes)
      case Err(e) => Err(e)
      case Ok(inner) => Ok(OpenTag(n.tag.value, n.props) + inner + CloseTag(n.tag.value))
  }

  /** The children rendered in order with no separator; the first failing child's error wins. */
  function ChildrenHtml(cs: seq<Node>): (r: Result<string, HtmlError>)
    decreases cs
    ensures r.Ok? <==> forall i :: 0 <= i < |cs| ==> ToHtml(cs[i]).Ok?
  {
    if cs == [] then Ok("")
    else match ToHtml(cs[0])
      case Err(e) => Err(e)
      case Ok(first) =>
        match ChildrenHtml(cs[1..])
        case Err(e) => Err(e)
        case Ok(rest) => Ok(first + rest)
  }

  /** A base `HtmlNode` never renders, whatever its fields. */
  lemma BaseNeverRenders(tag: Option<string>, value: Option<string>, children: Children, props: Option<Props>)
    ensures ToHtml(NewHtmlNode(tag, value, children, props)) == Err(NotImplemented)
  {
  }

  /** When some child fails, the parent fails with the error of the first child that fails. */
  lemma {:induction false} FirstFailingChild(cs: seq<Node>, j: nat)
    requires j < |cs| && ToHtml(cs[j]).Err?
    requires forall i :: 0 <= i < j ==> ToHtml(cs[i]).Ok?
    ensures ChildrenHtml(cs) == Err(ToHtml(cs[j]).error)
  {
    if j > 0 {
      assert cs[1..][j - 1] == cs[j];
      FirstFailingChild(cs[1..], j - 1);
    }
  }

  /** Rendering one more child appends exactly that child's rendering. */
  lemma {:induction false} ChildrenAppend(cs: seq<Node>, c: Node)
    requires ChildrenHtml(cs).Ok? && ToHtml(c).Ok?
    ensures ChildrenHtml(cs + [c]) == Ok(ChildrenHtml(cs).value + ToHtml(c).value)
  {
    var child := ToHtml(c).value;
    if cs == [] {
      assert ChildrenHtml([c]) == Ok(child + "") by {
        assert [c][1..] == [];
      }
      assert cs + [c] == [c];
      assert child + "" == "" + child;
    } else {
      var first, rest := ToHtml(cs[0]).value, ChildrenHtml(cs[1..]).value;
      assert ChildrenHtml(cs) == Ok(first + rest);
      ChildrenAppend(cs[1..], c);
      assert ChildrenHtml(cs + [c]) == Ok(first + (rest + child)) by {
        assert (cs + [c])[0] == cs[0];
        assert (cs + [c])[1..] == cs[1..] + [c];
      }
      assert first + (rest + child) == (first + rest) + child;
    }
  }

  /** Appending a child to a rendering parent inserts that child's HTML just before the closing tag. */
  lemma {:induction false} AppendChild(n: Node, c: Node)
    requires n.cls == Parent && n.children.Children?
    requires ToHtml(n).Ok? && ToHtml(c).Ok?
    ensures var before := ToHtml(n).value;
      var close := CloseTag(n.tag.value);
      var after := ToHtml(n.(children := Children(n.children.nodes + [c])));
      && |close| <= |before|
      && after == Ok(before[..|before| - |close|] + ToHtml(c).value + close)
  {
    var cs := n.children.nodes;
    var n' := n.(children := Children(cs + [c]));
    var open, close := OpenTag(n.tag.value, n.props), CloseTag(n.tag.value);
    var inner, child := ChildrenHtml(cs).value, ToHtml(c).value;
    ParentRenders(n);
    ChildrenAppend(cs, c);
    ParentRenders(n');
    InsertBeforeClose(open, inner, child, close);
  }

  /** Cutting the closing tag off an element and putting it back after new content. */
  lemma InsertBeforeClose(open: string, inner: string, child: string, close: string)
    ensures var before := open + inner + close;
      && |close| <= |before|
      && before[..|before| - |close|] + child + close == open + (inner + child) + close
  {
    var before := open + inner + close;
    assert before[..|before| - |close|] == open + inner;
  }

  /** A parent whose children all render is its opening tag, its children's HTML and its closing tag. */
  lemma ParentRenders(n: Node)
    requires n.cls == Parent && n.tag.Some? && n.children.Children?
    requires ChildrenHtml(n.children.nodes).Ok?
    ensures ToHtml(n) == Ok(OpenTag(n.tag.value, n.props) + ChildrenHtml(n.children.nodes).value + CloseTag(n.tag.value))
  {
    assert ToHtml(n) == ParentToHtml(n);
  }

  /** An empty children list is accepted and gives an empty element pair. */
  lemma EmptyParent(tag: string, props: Option<Props>)
    ensures ToHtml(NewParentNode(Some(tag), Children([]), props)) == Ok(OpenTag(tag, props) + CloseTag(tag))
  {
    assert ChildrenHtml([]) == Ok("");
    assert OpenTag(tag, props) + "" + CloseTag(tag) == OpenTag(tag, props) + CloseTag(tag);
  }

  /** `node.to_html()` as the program runs it: dispatch on the node's class. */
  method ToHtmlMethod(n: Node) returns (r: Result<string, HtmlError>)
    decreases n, 1
    ensures r == ToHtml(n)
  {
    match n.cls {
      case Base => r := Err(NotImplemented);
      case Leaf => r := LeafToHtml(n);
      case Parent => r := ParentToHtmlMethod(n);
    }
  }

  /** `ParentNode.to_html`: render each child in turn and accumulate the HTML. */
  method ParentToHtmlMethod(n: Node) returns (r: Result<string, HtmlError>)
    decreases n, 0
    ensures r == ParentToHtml(n)
  {
    if n.tag.None? {
      return Err(MissingTag);
    }
    if n.children.NoChildren? {
      return Err(MissingChildren);
    }
    var cs := n.children.nodes;
    var childrenHtml := "";
    for i := 0 to |cs|
      invariant ChildrenHtml(cs[..i]) == Ok(childrenHtml)
    {
      assert cs[i] in cs;
      var child := ToHtmlMethod(cs[i]);
      if child.Err? {
        FirstFailingChild(cs, i);
        return Err(child.error);
      }
      ChildrenAppend(cs[..i], cs[i]);
      assert cs[..i + 1] == cs[..i] + [cs[i]];
      childrenHtml := childrenHtml + child.value;
    }
    assert cs[..|cs|] == cs;
    r := Ok(OpenTag(n.tag.value, n.props) + childrenHtml + CloseTag(n.tag.value));
  }
}
