/**
 * Inline text fragments: `TextNode(text, text_type, url)` and its six kinds,
 * with the list plumbing the three splitting passes share.
 */
module TextNodes {
  import opened Wrappers

  datatype TextType = Text | Bold | Italic | Code | Link | Image

  /** A fragment of inline text; `url` is set for links and images. Equality is structural. */
  datatype TextNode = TextNode(text: string, textType: TextType, url: Option<string>)

  /** The exceptions the inline tokenizer raises. */
  datatype TokenError =
    | UnterminatedDelimiter(delimiter: string, node: TextNode)  // an even number of split pieces
    | EmptySeparator                                            // `str.split("")`
    | MissingSplit                                              // `rest.split(...)` left one piece

  /** A plain-text fragment, as the passes create them. */
  function Plain(text: string): TextNode {
    TextNode(text, Text, None)
  }

  /** The final `filter(lambda node: node.text != "", ...)` of every pass. */
  function DropEmpty(ns: seq<TextNode>): (r: seq<TextNode>)
    ensures forall k :: 0 <= k < |r| ==> r[k].text != ""
    ensures forall n :: n in r ==> n in ns
    ensures (forall k :: 0 <= k < |ns| ==> ns[k].text != "") ==> r == ns
  {
    if ns == [] then []
    else if ns[0].text == "" then DropEmpty(ns[1..])
    else [ns[0]] + DropEmpty(ns[1..])
  }

  /** A single fragment is kept exactly when its text is non-empty. */
  lemma DropEmptySingle(n: TextNode)
    ensures n.text != "" ==> DropEmpty([n]) == [n]
    ensures n.text == "" ==> DropEmpty([n]) == []
  {
  }

  /** The filter keeps order: filtering a concatenation concatenates the filtered parts. */
  lemma {:induction false} DropEmptyConcat(a: seq<TextNode>, b: seq<TextNode>)
    ensures DropEmpty(a + b) == DropEmpty(a) + DropEmpty(b)
  {
    if a == [] {
      assert a + b == b;
    } else {
      assert (a + b)[0] == a[0] && (a + b)[1..] == a[1..] + b;
      DropEmptyConcat(a[1..], b);
    }
  }

  /**
   * A pass's loop over its input: the fragments each node turns into, in order,
   * or the error of the first node that raises.
   */
  function FlatMap(ns: seq<TextNode>, f: TextNode -> Result<seq<TextNode>, TokenError>): (r: Result<seq<TextNode>, TokenError>)
  {
    if ns == [] then Ok([])
    else match f(ns[0])
      case Err(e) => Err(e)
      case Ok(head) =>
        match FlatMap(ns[1..], f)
        case Err(e) => Err(e)
        case Ok(tail) => Ok(head + tail)
  }

  /** `done` prepended to what the remaining nodes give, or their error. */
  function Prepend(done: seq<TextNode>, r: Result<seq<TextNode>, TokenError>): Result<seq<TextNode>, TokenError> {
    match r
    case Err(e) => Err(e)
    case Ok(rest) => Ok(done + rest)
  }

  /** `Prepend` twice is `Prepend` of the concatenation. */
  lemma PrependPrepend(a: seq<TextNode>, b: seq<TextNode>, r: Result<seq<TextNode>, TokenError>)
    ensures Prepend(a, Prepend(b, r)) == Prepend(a + b, r)
  {
    if r.Ok? {
      assert a + (b + r.value) == a + b + r.value;
    }
  }

  /** The pass from position `i` on: the step of node `i`, then the pass from `i + 1`. */
  lemma FlatMapAt(ns: seq<TextNode>, f: TextNode -> Result<seq<TextNode>, TokenError>, i: nat)
    requires i < |ns|
    ensures f(ns[i]).Ok? ==> FlatMap(ns[i..], f) == Prepend(f(ns[i]).value, FlatMap(ns[i + 1..], f))
    ensures f(ns[i]).Err? ==> FlatMap(ns[i..], f) == Err(f(ns[i]).error)
  {
    assert ns[i..][0] == ns[i] && ns[i..][1..] == ns[i + 1..];
  }

  /** The loop invariant of every pass: output so far, then the rest of the input's output. */
  lemma FlatMapStep(ns: seq<TextNode>, f: TextNode -> Result<seq<TextNode>, TokenError>, i: nat, done: seq<TextNode>)
    requires i < |ns|
    requires FlatMap(ns, f) == Prepend(done, FlatMap(ns[i..], f))
    ensures f(ns[i]).Ok? ==> FlatMap(ns, f) == Prepend(done + f(ns[i]).value, FlatMap(ns[i + 1..], f))
    ensures f(ns[i]).Err? ==> FlatMap(ns, f) == Err(f(ns[i]).error)
  {
    FlatMapAt(ns, f, i);
    if f(ns[i]).Ok? {
      PrependPrepend(done, f(ns[i]).value, FlatMap(ns[i + 1..], f));
    }
  }

  /** A pass fails exactly when some node's step fails. */
  lemma {:induction false} FlatMapFails(ns: seq<TextNode>, f: TextNode -> Result<seq<TextNode>, TokenError>)
    ensures FlatMap(ns, f).Err? <==> exists k :: 0 <= k < |ns| && f(ns[k]).Err?
  {
    if ns != [] {
      FlatMapFails(ns[1..], f);
      assert forall k :: 1 <= k < |ns| ==> ns[k] == ns[1..][k - 1];
    }
  }

  /** A failing pass reports the error of the first node whose step fails. */
  lemma {:induction false} FlatMapFirstError(ns: seq<TextNode>, f: TextNode -> Result<seq<TextNode>, TokenError>, j: nat)
    requires j < |ns| && f(ns[j]).Err?
    requires forall k :: 0 <= k < j ==> f(ns[k]).Ok?
    ensures FlatMap(ns, f) == Err(f(ns[j]).error)
  {
    if j > 0 {
      assert ns[1..][j - 1] == ns[j];
      FlatMapFirstError(ns[1..], f, j - 1);
    }
  }

  /** A failing pass reports the error of one of its nodes' steps. */
  lemma {:induction false} FlatMapErrorFrom(ns: seq<TextNode>, f: TextNode -> Result<seq<TextNode>, TokenError>)
    requires FlatMap(ns, f).Err?
    ensures exists k :: 0 <= k < |ns| && f(ns[k]).Err? && FlatMap(ns, f).error == f(ns[k]).error
  {
    if f(ns[0]).Ok? {
      FlatMapErrorFrom(ns[1..], f);
      var k :| 0 <= k < |ns[1..]| && f(ns[1..][k]).Err? && FlatMap(ns[1..], f).error == f(ns[1..][k]).error;
      assert ns[1..][k] == ns[k + 1];
    }
  }

  /** Nodes that every step leaves alone come out unchanged and in order. */
  lemma {:induction false} FlatMapKeeps(ns: seq<TextNode>, f: TextNode -> Result<seq<TextNode>, TokenError>)
    requires forall k :: 0 <= k < |ns| ==> f(ns[k]) == Ok([ns[k]])
    ensures FlatMap(ns, f) == Ok(ns)
  {
    if ns != [] {
      FlatMapKeeps(ns[1..], f);
      assert [ns[0]] + ns[1..] == ns;
    }
  }

  /** Every node a successful pass outputs comes from the step of one of its input nodes. */
  lemma {:induction false} FlatMapFrom(ns: seq<TextNode>, f: TextNode -> Result<seq<TextNode>, TokenError>, m: TextNode)
    requires FlatMap(ns, f).Ok? && m in FlatMap(ns, f).value
    ensures exists k :: 0 <= k < |ns| && f(ns[k]).Ok? && m in f(ns[k]).value
  {
    var head := f(ns[0]).value;
    if m !in head {
      FlatMapFrom(ns[1..], f, m);
      var k :| 0 <= k < |ns[1..]| && f(ns[1..][k]).Ok? && m in f(ns[1..][k]).value;
      assert ns[1..][k] == ns[k + 1];
    }
  }

  /**
   * The Markdown a fragment stands for: the inverse the passes are checked
   * against. Plain text is itself; the styled kinds get their delimiters back;
   * links and images get their `[text](url)` and `![text](url)` syntax back.
   */
  function Markdown(n: TextNode): string {
    var u := if n.url.Some? then n.url.value else "";
    match n.textType
    case Text => n.text
    case Bold => "**" + n.text + "**"
    case Italic => "_" + n.text + "_"
    case Code => "`" + n.text + "`"
    case Link => "[" + n.text + "](" + u + ")"
    case Image => "![" + n.text + "](" + u + ")"
  }

  /** The Markdown of a list of fragments, concatenated. */
  function Render(ns: seq<TextNode>): string {
    if ns == [] then "" else Markdown(ns[0]) + Render(ns[1..])
  }

  /** Rendering distributes over concatenation. */
  lemma {:induction false} RenderConcat(a: seq<TextNode>, b: seq<TextNode>)
    ensures Render(a + b) == Render(a) + Render(b)
  {
    if a == [] {
      assert a + b == b;
    } else {
      assert (a + b)[0] == a[0] && (a + b)[1..] == a[1..] + b;
      RenderConcat(a[1..], b);
    }
  }

  /** Two fragments render as their two renderings. */
  lemma RenderPair(a: TextNode, b: TextNode)
    ensures Render([a, b]) == Markdown(a) + Markdown(b)
  {
    assert [a, b][1..] == [b];
    assert [b][1..] == [];
    assert Render([b]) == Markdown(b) + "" == Markdown(b);
  }

  /** Dropping empty fragments changes no rendering when only plain-text fragments are empty. */
  lemma {:induction false} DropEmptyRender(ns: seq<TextNode>)
    requires forall k :: 0 <= k < |ns| && ns[k].text == "" ==> ns[k].textType == Text
    ensures Render(DropEmpty(ns)) == Render(ns)
  {
    if ns != [] {
      var rest := DropEmpty(ns[1..]);
      DropEmptyRender(ns[1..]);
      if ns[0].text != "" {
        assert DropEmpty(ns) == [ns[0]] + rest;
        assert ([ns[0]] + rest)[0] == ns[0] && ([ns[0]] + rest)[1..] == rest;
      } else {
        assert DropEmpty(ns) == rest;
        assert Markdown(ns[0]) == "";
        assert Render(ns) == "" + Render(ns[1..]) == Render(ns[1..]);
      }
    }
  }

  /** A pass whose every step renders back to its input node renders back to its input. */
  lemma {:induction false} FlatMapRender(ns: seq<TextNode>, f: TextNode -> Result<seq<TextNode>, TokenError>)
    requires forall k :: 0 <= k < |ns| ==> f(ns[k]).Ok? && Render(f(ns[k]).value) == Markdown(ns[k])
    ensures FlatMap(ns, f).Ok? && Render(FlatMap(ns, f).value) == Render(ns)
  {
    if ns != [] {
      FlatMapRender(ns[1..], f);
      RenderConcat(f(ns[0]).value, FlatMap(ns[1..], f).value);
    }
  }
}
