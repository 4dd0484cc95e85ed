/** `text_node_to_html_node`: each inline fragment becomes one leaf. */
module Conversion {
  import opened Wrappers
  import opened HtmlNode
  import opened LeafNode
  import opened ParentNode
  import opened TextNodes

  /** How an f-string shows an optional URL: its text, or `None` when it is missing. */
  function UrlText(url: Option<string>): string {
    if url.Some? then url.value else "None"
  }

  /**
   * The leaf a fragment maps to: untagged for plain text, `b`, `i` or `code` for
   * the styled kinds, `a` with an `href` for a link, and an `img` with an empty
   * value and `src` then `alt` for an image. The leaf always renders.
   */
  function TextNodeToHtmlNode(tn: TextNode): (n: Node)
    ensures n.cls == Leaf && n.children == NoChildren && n.value.Some?
    ensures ToHtml(n).Ok?
  {
    match tn.textType
    case Text => NewLeafNode(None, Some(tn.text))
    case Bold => NewLeafNode(Some("b"), Some(tn.text))
    case Italic => NewLeafNode(Some("i"), Some(tn.text))
    case Code => NewLeafNode(Some("code"), Some(tn.text))
    case Link => NewLeafNode(Some("a"), Some(tn.text), Some([("href", UrlText(tn.url))]))
    case Image => NewLeafNode(Some("img"), Some(""), Some([("src", UrlText(tn.url)), ("alt", tn.text)]))
  }

  /**
   * A tagged leaf's rendering as one string equation: the layout
   * `LeafNode.TaggedLeafLayout` gives, specialised to the leaves
   * `TextNodeToHtmlNode` builds.
   */
  lemma TaggedLeaf(tag: string, v: string, props: Option<Props>)
    ensures ToHtml(NewLeafNode(Some(tag), Some(v), props)) == Ok(OpenTag(tag, props) + v + CloseTag(tag))
  {
  }

  /** An image leaf's rendering: `src` before `alt`, and an empty element pair. */
  lemma ImageHtml(t: string, u: string)
    ensures ToHtml(NewLeafNode(Some("img"), Some(""), Some([("src", u), ("alt", t)])))
         == Ok("<img src=\"" + u + "\" alt=\"" + t + "\"></img>")
  {
    var ps := [("src", u), ("alt", t)];
    TaggedLeaf("img", "", Some(ps));
    ImageAttrs(t, u);
    ImageTags(t, u, PropsHtml(Some(ps)));
  }

  /** The two attributes of an image, in the order the leaf lists them. */
  lemma ImageAttrs(t: string, u: string)
    ensures PropsHtml(Some([("src", u), ("alt", t)])) == " src=\"" + u + "\"" + " alt=\"" + t + "\""
  {
    var ps := [("src", u), ("alt", t)];
    assert ps[1..] == [ps[1]];
    assert ps[1..][1..] == [];
    assert AttrsOf(ps) == Attr(ps[0]) + (Attr(ps[1]) + AttrsOf([]));
  }

  /** The `img` element around its attributes, with nothing inside. */
  lemma ImageTags(t: string, u: string, attrs: string)
    requires attrs == " src=\"" + u + "\"" + " alt=\"" + t + "\""
    ensures "<" + "img" + attrs + ">" + "" + ("</" + "img" + ">") == "<img src=\"" + u + "\" alt=\"" + t + "\"></img>"
  {
    assert "<" + "img" + " src=\"" == "<img src=\"";
    assert "\"" + " alt=\"" == "\" alt=\"";
    assert "\"" + ">" + "" + "</" + "img" + ">" == "\"></img>";
    calc {
      "<" + "img" + attrs + ">" + "" + ("</" + "img" + ">");
      ("<" + "img" + " src=\"") + u + ("\"" + " alt=\"") + t + ("\"" + ">" + "" + "</" + "img" + ">");
      "<img src=\"" + u + "\" alt=\"" + t + "\"></img>";
    }
  }

  /** A link leaf's rendering: one `href` attribute around the link text. */
  lemma LinkHtml(t: string, u: string)
    ensures ToHtml(NewLeafNode(Some("a"), Some(t), Some([("href", u)])))
         == Ok("<a href=\"" + u + "\">" + t + "</a>")
  {
    var ps := [("href", u)];
    TaggedLeaf("a", t, Some(ps));
    assert PropsHtml(Some(ps)) == " href=\"" + u + "\"" by {
      assert ps[1..] == [];
      assert AttrsOf(ps) == Attr(ps[0]) + AttrsOf([]);
    }
    assert "<" + "a" + " href=\"" == "<a href=\"";
    assert "\"" + ">" == "\">";
    assert "</" + "a" + ">" == "</a>";
    calc {
      OpenTag("a", Some(ps)) + t + CloseTag("a");
      "<" + "a" + (" href=\"" + u + "\"") + ">" + t + ("</" + "a" + ">");
      ("<" + "a" + " href=\"") + u + ("\"" + ">") + t + ("</" + "a" + ">");
      "<a href=\"" + u + "\">" + t + "</a>";
    }
  }

  /** The HTML each kind of fragment ends up as once its leaf is rendered. */
  lemma FragmentHtml(tn: TextNode)
    ensures tn.textType == Text ==> ToHtml(TextNodeToHtmlNode(tn)) == Ok(tn.text)
    ensures tn.textType == Bold ==> ToHtml(TextNodeToHtmlNode(tn)) == Ok("<b>" + tn.text + "</b>")
    ensures tn.textType == Italic ==> ToHtml(TextNodeToHtmlNode(tn)) == Ok("<i>" + tn.text + "</i>")
    ensures tn.textType == Code ==> ToHtml(TextNodeToHtmlNode(tn)) == Ok("<code>" + tn.text + "</code>")
    ensures tn.textType == Link ==>
      ToHtml(TextNodeToHtmlNode(tn)) == Ok("<a href=\"" + UrlText(tn.url) + "\">" + tn.text + "</a>")
    ensures tn.textType == Image ==>
      ToHtml(TextNodeToHtmlNode(tn)) == Ok("<img src=\"" + UrlText(tn.url) + "\" alt=\"" + tn.text + "\"></img>")
  {
    var t := tn.text;
    match tn.textType
    case Text =>
    case Bold =>
      TaggedLeaf("b", t, None);
      assert OpenTag("b", None) == "<b>" && CloseTag("b") == "</b>";
    case Italic =>
      TaggedLeaf("i", t, None);
      assert OpenTag("i", None) == "<i>" && CloseTag("i") == "</i>";
    case Code =>
      TaggedLeaf("code", t, None);
      assert OpenTag("code", None) == "<code>" && CloseTag("code") == "</code>";
    case Link =>
      LinkHtml(t, UrlText(tn.url));
    case Image =>
      ImageHtml(t, UrlText(tn.url));
  }
}
