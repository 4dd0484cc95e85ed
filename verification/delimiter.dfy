/**
 * `split_nodes_delimiter`: re-split the plain-text fragments on a delimiter such
 * as `**`, `_` or a backtick, giving the text between each pair of delimiters
 * the target kind.
 */
module DelimiterSplit {
  import opened Wrappers
  import opened PyString
  import opened TextNodes

  /** The pieces of a split, in order: even positions stay plain text, odd positions take `tt`. */
  function Alternate(pieces: seq<string>, tt: TextType): seq<TextNode> {
    seq(|pieces|, k requires 0 <= k < |pieces| => TextNode(pieces[k], if k % 2 == 0 then Text else tt, None))
  }

  /** The texts of a list of fragments. */
  function Texts(ns: seq<TextNode>): seq<string> {
    seq(|ns|, k requires 0 <= k < |ns| => ns[k].text)
  }

  /**
   * What one input node becomes before the final filter. A node that is not
   * plain text, or a missing delimiter, or a text without the delimiter, is kept
   * as it is; `str.split("")` raises; an even number of pieces means an
   * unmatched delimiter.
   */
  function ExpandDelimited(node: TextNode, delimiter: Option<string>, tt: TextType): (r: Result<seq<TextNode>, TokenError>)
    ensures node.textType != Text || delimiter.None? ==> r == Ok([node])
    ensures r.Err? ==> node.textType == Text && delimiter.Some? && Contains(node.text, delimiter.value)
  {
    if node.textType != Text || delimiter.None? || !Contains(node.text, delimiter.value) then Ok([node])
    else if delimiter.value == "" then Err(EmptySeparator)
    else
      var pieces := Split(node.text, delimiter.value);
      if |pieces| % 2 == 0 then Err(UnterminatedDelimiter(delimiter.value, node))
      else Ok(Alternate(pieces, tt))
  }

  function Step(delimiter: Option<string>, tt: TextType): TextNode -> Result<seq<TextNode>, TokenError> {
    n => ExpandDelimited(n, delimiter, tt)
  }

  /**
   * The whole pass: every node expanded in order, the first error raised, and
   * the fragments with empty text dropped. No fragment it returns is empty.
   */
  function SplitNodesDelimiterSpec(ns: seq<TextNode>, delimiter: Option<string>, tt: TextType): (r: Result<seq<TextNode>, TokenError>)
    ensures r.Ok? ==> forall k :: 0 <= k < |r.value| ==> r.value[k].text != ""
  {
    match FlatMap(ns, Step(delimiter, tt))
    case Err(e) => Err(e)
    case Ok(out) => Ok(DropEmpty(out))
  }

  /** `split_nodes_delimiter(old_nodes, delimiter, text_type)`. */
  method SplitNodesDelimiter(oldNodes: seq<TextNode>, delimiter: Option<string>, tt: TextType)
    returns (r: Result<seq<TextNode>, TokenError>)
    ensures r == SplitNodesDelimiterSpec(oldNodes, delimiter, tt)
  {
    var f := Step(delimiter, tt);
    var newNodes: seq<TextNode> := [];
    assert oldNodes[0..] == oldNodes;
    assert FlatMap(oldNodes, f) == Prepend(newNodes, FlatMap(oldNodes[0..], f)) by {
      match FlatMap(oldNodes, f)
      case Err(_) =>
      case Ok(out) => assert [] + out == out;
    }
    for i := 0 to |oldNodes|
      invariant FlatMap(oldNodes, f) == Prepend(newNodes, FlatMap(oldNodes[i..], f))
    {
      var node := oldNodes[i];
      FlatMapStep(oldNodes, f, i, newNodes);
      if node.textType != Text || delimiter.None? || !Contains(node.text, delimiter.value) {
        newNodes := newNodes + [node];
        continue;
      }
      if delimiter.value == "" {
        return Err(EmptySeparator);
      }
      var workingList := Split(node.text, delimiter.value);
      if |workingList| % 2 == 0 {
        return Err(UnterminatedDelimiter(delimiter.value, node));
      }
      newNodes := AppendAlternate(newNodes, workingList, tt);
    }
    assert oldNodes[|oldNodes|..] == [];
    assert newNodes + [] == newNodes;
    r := Ok(DropEmpty(newNodes));
  }

  /** The inner loop of the pass: each piece appended in turn, even positions as plain text, odd ones as `tt`. */
  method AppendAlternate(nodes: seq<TextNode>, workingList: seq<string>, tt: TextType) returns (out: seq<TextNode>)
    ensures out == nodes + Alternate(workingList, tt)
  {
    out := nodes;
    ghost var expanded := Alternate(workingList, tt);
    for j := 0 to |workingList|
      invariant out == nodes + expanded[..j]
    {
      assert expanded[..j + 1] == expanded[..j] + [expanded[j]];
      if j % 2 == 0 {
        out := out + [TextNode(workingList[j], Text, None)];
      } else {
        out := out + [TextNode(workingList[j], tt, None)];
      }
    }
    assert expanded[..|workingList|] == expanded;
  }

  /**
   * A split node becomes as many fragments as there are pieces, alternating
   * plain text and the target kind, none containing the delimiter, and joining
   * their texts with the delimiter gives the node's text back.
   */
  lemma SplitShape(node: TextNode, d: string, tt: TextType)
    requires node.textType == Text && d != "" && Contains(node.text, d)
    requires |Split(node.text, d)| % 2 == 1
    ensures var r := ExpandDelimited(node, Some(d), tt);
      && r.Ok? && |r.value| == |Split(node.text, d)| && |r.value| >= 3
      && (forall k :: 0 <= k < |r.value| ==> r.value[k].textType == (if k % 2 == 0 then Text else tt))
      && (forall k :: 0 <= k < |r.value| ==> r.value[k].url == None && !Contains(r.value[k].text, d))
      && Join(Texts(r.value), d) == node.text
  {
    var pieces := Split(node.text, d);
    SplitSingle(node.text, d);
    SplitJoin(node.text, d);
    SplitPiecesFree(node.text, d);
    assert Texts(Alternate(pieces, tt)) == pieces;
  }

  /**
   * With a non-empty delimiter the pass fails exactly when some plain-text node
   * splits into an even number of pieces, that is, holds an odd number of
   * delimiters.
   */
  lemma DelimiterFails(ns: seq<TextNode>, d: string, tt: TextType)
    requires d != ""
    ensures SplitNodesDelimiterSpec(ns, Some(d), tt).Err?
        <==> exists k :: 0 <= k < |ns| && ns[k].textType == Text && |Split(ns[k].text, d)| % 2 == 0
  {
    var f := Step(Some(d), tt);
    FlatMapFails(ns, f);
    forall k | 0 <= k < |ns|
      ensures f(ns[k]).Err? <==> ns[k].textType == Text && |Split(ns[k].text, d)| % 2 == 0
    {
      SplitSingle(ns[k].text, d);
    }
  }

  /** The error reported is the one of the first plain-text node with an unmatched delimiter. */
  lemma FirstUnterminated(ns: seq<TextNode>, d: string, tt: TextType, j: nat)
    requires d != "" && j < |ns|
    requires ns[j].textType == Text && |Split(ns[j].text, d)| % 2 == 0
    requires forall k :: 0 <= k < j ==> ns[k].textType != Text || |Split(ns[k].text, d)| % 2 == 1
    ensures SplitNodesDelimiterSpec(ns, Some(d), tt) == Err(UnterminatedDelimiter(d, ns[j]))
  {
    var f := Step(Some(d), tt);
    SplitSingle(ns[j].text, d);
    forall k | 0 <= k < j
      ensures f(ns[k]).Ok?
    {
      SplitSingle(ns[k].text, d);
    }
    FlatMapFirstError(ns, f, j);
  }

  /** `str.split("")` raises as soon as a plain-text node is reached; otherwise nothing is split. */
  lemma EmptyDelimiter(ns: seq<TextNode>, tt: TextType)
    ensures (exists k :: 0 <= k < |ns| && ns[k].textType == Text)
        ==> SplitNodesDelimiterSpec(ns, Some(""), tt) == Err(EmptySeparator)
    ensures (forall k :: 0 <= k < |ns| ==> ns[k].textType != Text)
        ==> SplitNodesDelimiterSpec(ns, Some(""), tt) == Ok(DropEmpty(ns))
  {
    if exists k :: 0 <= k < |ns| && ns[k].textType == Text {
      SomePlainRaises(ns, tt);
    } else {
      NoPlainKept(ns, tt);
    }
  }

  /** With the empty delimiter, a list holding some plain-text node raises. */
  lemma SomePlainRaises(ns: seq<TextNode>, tt: TextType)
    requires exists k :: 0 <= k < |ns| && ns[k].textType == Text
    ensures SplitNodesDelimiterSpec(ns, Some(""), tt) == Err(EmptySeparator)
  {
    var j := 0;
    while ns[j].textType != Text
      invariant j < |ns| && exists k :: j <= k < |ns| && ns[k].textType == Text
      invariant forall k :: 0 <= k < j ==> ns[k].textType != Text
      decreases |ns| - j
    {
      j := j + 1;
    }
    FirstPlainRaises(ns, tt, j);
  }

  /** With the empty delimiter, a list without plain-text nodes is only filtered. */
  lemma NoPlainKept(ns: seq<TextNode>, tt: TextType)
    requires forall k :: 0 <= k < |ns| ==> ns[k].textType != Text
    ensures SplitNodesDelimiterSpec(ns, Some(""), tt) == Ok(DropEmpty(ns))
  {
    var f := Step(Some(""), tt);
    forall k | 0 <= k < |ns|
      ensures f(ns[k]) == Ok([ns[k]])
    {
    }
    FlatMapKeeps(ns, f);
  }

  /** With the empty delimiter, the first plain-text node raises. */
  lemma FirstPlainRaises(ns: seq<TextNode>, tt: TextType, j: nat)
    requires j < |ns| && ns[j].textType == Text
    requires forall k :: 0 <= k < j ==> ns[k].textType != Text
    ensures SplitNodesDelimiterSpec(ns, Some(""), tt) == Err(EmptySeparator)
  {
    assert OccursAt(ns[j].text, "", 0);
    FlatMapFirstError(ns, Step(Some(""), tt), j);
  }

  /** A node that a pass with delimiter `d` leaves as it is. */
  predicate Settled(n: TextNode, d: string) {
    n.textType != Text || !Contains(n.text, d)
  }

  /**
   * Nodes that are not plain text, and plain text without the delimiter, pass
   * through unchanged and in order (only empty ones are dropped). A missing
   * delimiter leaves every node alone.
   */
  lemma PassThrough(ns: seq<TextNode>, delimiter: Option<string>, tt: TextType)
    requires delimiter.Some? ==> forall k :: 0 <= k < |ns| ==> Settled(ns[k], delimiter.value)
    ensures SplitNodesDelimiterSpec(ns, delimiter, tt) == Ok(DropEmpty(ns))
  {
    FlatMapKeeps(ns, Step(delimiter, tt));
  }

  /** Every fragment a successful pass returns is settled for its delimiter. */
  lemma OutputSettled(ns: seq<TextNode>, d: string, tt: TextType, m: TextNode)
    requires d != ""
    requires SplitNodesDelimiterSpec(ns, Some(d), tt).Ok?
    requires m in SplitNodesDelimiterSpec(ns, Some(d), tt).value
    ensures Settled(m, d)
  {
    var f := Step(Some(d), tt);
    FlatMapFrom(ns, f, m);
    var k :| 0 <= k < |ns| && f(ns[k]).Ok? && m in f(ns[k]).value;
    ExpandedSettled(ns[k], d, tt, m);
  }

  /** Every fragment one node expands into is settled for the delimiter. */
  lemma ExpandedSettled(n: TextNode, d: string, tt: TextType, m: TextNode)
    requires d != ""
    requires ExpandDelimited(n, Some(d), tt).Ok? && m in ExpandDelimited(n, Some(d), tt).value
    ensures Settled(m, d)
  {
    if !Settled(n, d) {
      var pieces := Split(n.text, d);
      SplitPiecesFree(n.text, d);
      var i :| 0 <= i < |pieces| && m == Alternate(pieces, tt)[i];
    }
  }

  /** Running the pass again with the same delimiter changes nothing. */
  lemma SplitTwice(ns: seq<TextNode>, d: string, tt: TextType)
    requires d != ""
    requires SplitNodesDelimiterSpec(ns, Some(d), tt).Ok?
    ensures var out := SplitNodesDelimiterSpec(ns, Some(d), tt).value;
      SplitNodesDelimiterSpec(out, Some(d), tt) == Ok(out)
  {
    var out := SplitNodesDelimiterSpec(ns, Some(d), tt).value;
    forall k | 0 <= k < |out|
      ensures Settled(out[k], d)
    {
      OutputSettled(ns, d, tt, out[k]);
    }
    PassThrough(out, Some(d), tt);
  }

  /** `d` is the delimiter whose Markdown spelling wraps fragments of kind `tt`, as `text_to_textnodes` pairs them. */
  predicate Wraps(d: string, tt: TextType) {
    || (tt == Bold && d == "**")
    || (tt == Italic && d == "_")
    || (tt == Code && d == "`")
  }

  /** After the first two pieces, the alternation goes on in step. */
  lemma AlternateCons(pieces: seq<string>, tt: TextType)
    requires |pieces| >= 2
    ensures Alternate(pieces, tt)
         == [TextNode(pieces[0], Text, None), TextNode(pieces[1], tt, None)] + Alternate(pieces[2..], tt)
  {
    var a, b := Alternate(pieces, tt), Alternate(pieces[2..], tt);
    forall k | 2 <= k < |a|
      ensures a[k] == b[k - 2]
    {
      assert k % 2 == (k - 2) % 2;
    }
  }

  /** A fragment of a wrapped kind renders between two copies of its delimiter. */
  lemma WrapsMarkdown(d: string, tt: TextType, x: string)
    requires Wraps(d, tt)
    ensures Markdown(TextNode(x, tt, None)) == d + x + d
  {
  }

  /** Joining at least three pieces, spelled out for the first two. */
  lemma JoinTwo(pieces: seq<string>, d: string)
    requires |pieces| >= 3
    ensures Join(pieces, d) == pieces[0] + (d + pieces[1] + d) + Join(pieces[2..], d)
  {
    assert pieces[1..][0] == pieces[1] && pieces[1..][1..] == pieces[2..];
    assert Join(pieces, d) == pieces[0] + d + (pieces[1] + d + Join(pieces[2..], d));
  }

  /** Rendering the alternation puts the delimiter back between every two pieces. */
  lemma {:induction false} AlternateRender(pieces: seq<string>, d: string, tt: TextType)
    requires Wraps(d, tt) && |pieces| % 2 == 1
    decreases |pieces|
    ensures Render(Alternate(pieces, tt)) == Join(pieces, d)
  {
    if |pieces| == 1 {
      assert Alternate(pieces, tt) == [TextNode(pieces[0], Text, None)];
      assert Render([TextNode(pieces[0], Text, None)]) == pieces[0] + Render([]);
    } else {
      var rest := pieces[2..];
      var a, b := TextNode(pieces[0], Text, None), TextNode(pieces[1], tt, None);
      calc {
        Render(Alternate(pieces, tt));
        == { AlternateCons(pieces, tt); }
        Render([a, b] + Alternate(rest, tt));
        == { RenderConcat([a, b], Alternate(rest, tt)); }
        Render([a, b]) + Render(Alternate(rest, tt));
        == { RenderPair(a, b); WrapsMarkdown(d, tt, pieces[1]); AlternateRender(rest, d, tt); }
        pieces[0] + (d + pieces[1] + d) + Join(rest, d);
        == { JoinTwo(pieces, d); }
        Join(pieces, d);
      }
    }
  }

  /** A node the pass expands renders back to the node itself. */
  lemma ExpandRender(node: TextNode, d: string, tt: TextType)
    requires Wraps(d, tt)
    requires ExpandDelimited(node, Some(d), tt).Ok?
    ensures Render(ExpandDelimited(node, Some(d), tt).value) == Markdown(node)
  {
    if node.textType != Text || !Contains(node.text, d) {
      assert Render([node]) == Markdown(node) + Render([]);
    } else {
      SplitJoin(node.text, d);
      AlternateRender(Split(node.text, d), d, tt);
    }
  }

  /** Between two delimiters of a plain-text node there is always some text (no `****`, `__` or two adjacent backticks). */
  predicate NoEmptySpans(n: TextNode, d: string)
    requires d != ""
  {
    n.textType == Text ==>
      forall i :: 0 <= i < |Split(n.text, d)| && i % 2 == 1 ==> Split(n.text, d)[i] != ""
  }

  /** One node's expansion yields an empty fragment only as plain text. */
  lemma ExpandEmptyPlain(node: TextNode, d: string, tt: TextType, m: TextNode)
    requires Wraps(d, tt) && NoEmptySpans(node, d)
    requires node.text == "" ==> node.textType == Text
    requires ExpandDelimited(node, Some(d), tt).Ok? && m in ExpandDelimited(node, Some(d), tt).value
    requires m.text == ""
    ensures m.textType == Text
  {
    if node.textType == Text && Contains(node.text, d) {
      var pieces := Split(node.text, d);
      var i :| 0 <= i < |pieces| && m == Alternate(pieces, tt)[i];
    }
  }

  /**
   * Rendering the pass's output gives back the Markdown of its input, as long
   * as the filter drops nothing that renders to text: no styled, link or image
   * fragment comes in empty and no delimited span is empty.
   */
  lemma DelimiterRoundTrip(ns: seq<TextNode>, d: string, tt: TextType)
    requires Wraps(d, tt)
    requires SplitNodesDelimiterSpec(ns, Some(d), tt).Ok?
    requires forall k :: 0 <= k < |ns| && ns[k].text == "" ==> ns[k].textType == Text
    requires forall k :: 0 <= k < |ns| ==> NoEmptySpans(ns[k], d)
    ensures Render(SplitNodesDelimiterSpec(ns, Some(d), tt).value) == Render(ns)
  {
    var f := Step(Some(d), tt);
    FlatMapFails(ns, f);
    forall k | 0 <= k < |ns|
      ensures f(ns[k]).Ok? && Render(f(ns[k]).value) == Markdown(ns[k])
    {
      ExpandRender(ns[k], d, tt);
    }
    FlatMapRender(ns, f);
    var out := FlatMap(ns, f).value;
    forall j | 0 <= j < |out| && out[j].text == ""
      ensures out[j].textType == Text
    {
      FlatMapFrom(ns, f, out[j]);
      var k :| 0 <= k < |ns| && f(ns[k]).Ok? && out[j] in f(ns[k]).value;
      ExpandEmptyPlain(ns[k], d, tt, out[j]);
    }
    DropEmptyRender(out);
  }
}
