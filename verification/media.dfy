/**
 * `split_nodes_image` and `split_nodes_link`: the two passes share their
 * code line for line and differ only in the pattern they extract, the Markdown
 * literal they cut at (`![text](url)` or `[text](url)`) and the kind they give
 * the matches, so they are one pass here, parameterised by the pattern.
 */
module MediaSplit {
  import opened Wrappers
  import opened PyString
  import opened TextNodes
  import opened Extract

  /** The kind of fragment a pattern's matches become. */
  function KindOf(pat: Pattern): TextType {
    if pat == ImagePattern then Image else Link
  }

  /** `TextNode(label, kind, url)` for one extracted pair. */
  function MediaNode(pat: Pattern, text: string, url: string): TextNode {
    TextNode(text, KindOf(pat), Some(url))
  }

  /** `extract_markdown_images` or `extract_markdown_links`, as the pass calls it. */
  function Found(pat: Pattern, text: string): seq<(string, string)> {
    if pat == ImagePattern then ExtractMarkdownImages(text) else ExtractMarkdownLinks(text)
  }

  /**
   * The inner loop over the extracted pairs: cut `rest` once at the first
   * occurrence of each pair's Markdown, keep the text before it and the pair's
   * fragment, and go on with the text after it; whatever is left becomes the
   * last plain-text fragment. `tmp_list[1]` raises when the cut found nothing.
   */
  function CutText(rest: string, pat: Pattern, pairs: seq<(string, string)>): (r: Result<seq<TextNode>, TokenError>)
    decreases |pairs|
    ensures r.Ok? ==> |r.value| == 2 * |pairs| + 1
    ensures r.Err? ==> r.error == MissingSplit
  {
    if pairs == [] then Ok([Plain(rest)])
    else
      var parts := SplitOnce(rest, Literal(pat, pairs[0].0, pairs[0].1));
      if |parts| < 2 then Err(MissingSplit)
      else Prepend([Plain(parts[0]), MediaNode(pat, pairs[0].0, pairs[0].1)], CutText(parts[1], pat, pairs[1..]))
  }

  /** What one input node becomes before the final filter. */
  function ExpandMedia(node: TextNode, pat: Pattern): (r: Result<seq<TextNode>, TokenError>)
    ensures node.textType != Text ==> r == Ok([node])
    ensures r.Err? ==> node.textType == Text && r.error == MissingSplit
  {
    if node.textType != Text then Ok([node])
    else
      var pairs := Found(pat, node.text);
      if |pairs| == 0 then Ok([node]) else CutText(node.text, pat, pairs)
  }

  function MediaStep(pat: Pattern): TextNode -> Result<seq<TextNode>, TokenError> {
    n => ExpandMedia(n, pat)
  }

  /**
   * The whole pass: every node expanded in order and the fragments with empty
   * text dropped. No fragment it returns is empty.
   */
  function SplitNodesMediaSpec(ns: seq<TextNode>, pat: Pattern): (r: Result<seq<TextNode>, TokenError>)
    ensures r.Ok? ==> forall k :: 0 <= k < |r.value| ==> r.value[k].text != ""
  {
    match FlatMap(ns, MediaStep(pat))
    case Err(e) => Err(e)
    case Ok(out) => Ok(DropEmpty(out))
  }

  /** The inner loop's invariant, one pair further on. */
  lemma CutStep(s: string, rest: string, pat: Pattern, pairs: seq<(string, string)>, j: nat, done: seq<TextNode>)
    requires j < |pairs|
    requires CutText(s, pat, pairs) == Prepend(done, CutText(rest, pat, pairs[j..]))
    ensures var parts := SplitOnce(rest, Literal(pat, pairs[j].0, pairs[j].1));
      && (|parts| < 2 ==> CutText(s, pat, pairs) == Err(MissingSplit))
      && (|parts| == 2 ==>
            CutText(s, pat, pairs) == Prepend(done + [Plain(parts[0]), MediaNode(pat, pairs[j].0, pairs[j].1)], CutText(parts[1], pat, pairs[j + 1..])))
  {
    assert pairs[j..][0] == pairs[j] && pairs[j..][1..] == pairs[j + 1..];
    var parts := SplitOnce(rest, Literal(pat, pairs[j].0, pairs[j].1));
    if |parts| == 2 {
      PrependPrepend(done, [Plain(parts[0]), MediaNode(pat, pairs[j].0, pairs[j].1)], CutText(parts[1], pat, pairs[j + 1..]));
    }
  }

  /** `split_nodes_image(old_nodes)` when `pat` is the image pattern, `split_nodes_link(old_nodes)` when it is the link pattern. */
  method SplitNodesMedia(oldNodes: seq<TextNode>, pat: Pattern) returns (r: Result<seq<TextNode>, TokenError>)
    ensures r == SplitNodesMediaSpec(oldNodes, pat)
  {
    var f := MediaStep(pat);
    var newNodes: seq<TextNode> := [];
    assert oldNodes[0..] == oldNodes;
    assert FlatMap(oldNodes, f) == Prepend(newNodes, FlatMap(oldNodes[0..], f)) by {
      match FlatMap(oldNodes, f)
      case Err(_) =>
      case Ok(out) => assert [] + out == out;
    }
    for i := 0 to |oldNodes|
      invariant FlatMap(oldNodes, f) == Prepend(newNodes, FlatMap(oldNodes[i..], f))
    {
      var node := oldNodes[i];
      FlatMapStep(oldNodes, f, i, newNodes);
      if node.textType != Text {
        newNodes := newNodes + [node];
        continue;
      }
      var images := Found(pat, node.text);
      if |images| == 0 {
        newNodes := newNodes + [node];
        continue;
      }
      var cut := CutNode(node.text, pat, images);
      if cut.Err? {
        return Err(cut.error);
      }
      newNodes := newNodes + cut.value;
    }
    assert oldNodes[|oldNodes|..] == [];
    assert newNodes + [] == newNodes;
    r := Ok(DropEmpty(newNodes));
  }

  /** The body of the loop over the extracted pairs, advancing `rest` one cut at a time. */
  method CutNode(text: string, pat: Pattern, images: seq<(string, string)>) returns (r: Result<seq<TextNode>, TokenError>)
    ensures r == CutText(text, pat, images)
  {
    var newNodes: seq<TextNode> := [];
    var rest := text;
    assert images[0..] == images;
    assert CutText(text, pat, images) == Prepend(newNodes, CutText(rest, pat, images[0..])) by {
      match CutText(text, pat, images)
      case Err(_) =>
      case Ok(out) => assert [] + out == out;
    }
    for j := 0 to |images|
      invariant CutText(text, pat, images) == Prepend(newNodes, CutText(rest, pat, images[j..]))
    {
      var tmpList := SplitOnce(rest, Literal(pat, images[j].0, images[j].1));
      CutStep(text, rest, pat, images, j, newNodes);
      newNodes := newNodes + [Plain(tmpList[0]), MediaNode(pat, images[j].0, images[j].1)];
      if |tmpList| < 2 {
        return Err(MissingSplit);
      }
      rest := tmpList[1];
    }
    assert images[|images|..] == [];
    newNodes := newNodes + [Plain(rest)];
    r := Ok(newNodes);
  }

  /** An occurrence in a suffix is an occurrence in the whole string, shifted, and back. */
  lemma OccursShift(s: string, c: nat, sep: string, j: nat)
    requires c <= |s|
    ensures OccursAt(s[c..], sep, j) <==> OccursAt(s, sep, c + j)
  {
    if j + |sep| <= |s[c..]| {
      var u, v := s[c..][j..j + |sep|], s[c + j..c + j + |sep|];
      assert |u| == |v|;
      assert forall k :: 0 <= k < |u| ==> u[k] == v[k];
      assert u == v;
    }
  }

  /** With an occurrence at `j`, a single cut succeeds and cuts no later than `j`. */
  lemma SplitOnceBefore(rest: string, sep: string, j: nat)
    requires sep != "" && OccursAt(rest, sep, j)
    ensures var parts := SplitOnce(rest, sep);
      && |parts| == 2 && |parts[0]| <= j
      && parts[0] == rest[..|parts[0]|] && parts[1] == rest[|parts[0]| + |sep|..]
  {
    assert Find(rest, sep, 0).Some?;
  }

  /** With the first occurrence at `j`, a single cut splits exactly there. */
  lemma SplitOnceAt(rest: string, sep: string, j: nat)
    requires sep != "" && OccursAt(rest, sep, j)
    requires forall i :: 0 <= i < j ==> !OccursAt(rest, sep, i)
    ensures SplitOnce(rest, sep) == [rest[..j], rest[j + |sep|..]]
  {
    FindAt(rest, sep, j);
  }

  /**
   * Cutting a text at the first pair whose Markdown is spelled out at `j`
   * succeeds when the rest of the cuts do, carrying on from a point no later
   * than the end of that occurrence.
   */
  lemma CutFirstIn(rest: string, pat: Pattern, pairs: seq<(string, string)>, j: nat) returns (k: nat)
    requires pairs != [] && OccursAt(rest, Literal(pat, pairs[0].0, pairs[0].1), j)
    ensures k <= j + |Literal(pat, pairs[0].0, pairs[0].1)| <= |rest|
    ensures CutText(rest[k..], pat, pairs[1..]).Ok? ==> CutText(rest, pat, pairs).Ok?
  {
    var lit := Literal(pat, pairs[0].0, pairs[0].1);
    SplitOnceBefore(rest, lit, j);
    var parts := SplitOnce(rest, lit);
    k := |parts[0]| + |lit|;
    CutHead(rest, pat, pairs);
  }

  /** An occurrence at or after `c` is an occurrence in the suffix from `c`. */
  lemma OccursInSuffix(s: string, c: nat, sep: string, p: nat)
    requires c <= p && OccursAt(s, sep, p)
    ensures OccursAt(s[c..], sep, p - c)
  {
    OccursShift(s, c, sep, p - c);
  }

  /** When the cuts after the first succeed from `c + k`, where the first cut carries on, all of them succeed from `c`. */
  lemma CutShift(s: string, pat: Pattern, c: nat, k: nat, pairs: seq<(string, string)>)
    requires c + k <= |s| && pairs != []
    requires CutText(s[c..][k..], pat, pairs[1..]).Ok? ==> CutText(s[c..], pat, pairs).Ok?
    ensures CutText(s[c + k..], pat, pairs[1..]).Ok? ==> CutText(s[c..], pat, pairs).Ok?
  {
    DropDrop(s, c, k);
  }

  /** Where the first pair's Markdown occurs, the cut succeeds when the rest of the cuts do. */
  lemma CutHead(rest: string, pat: Pattern, pairs: seq<(string, string)>)
    requires pairs != [] && |SplitOnce(rest, Literal(pat, pairs[0].0, pairs[0].1))| == 2
    ensures CutText(SplitOnce(rest, Literal(pat, pairs[0].0, pairs[0].1))[1], pat, pairs[1..]).Ok?
        ==> CutText(rest, pat, pairs).Ok?
  {
  }

  /** Dropping `c` characters and then `k` more drops `c + k`. */
  lemma DropDrop(s: string, c: nat, k: nat)
    requires c + k <= |s|
    ensures s[c..][k..] == s[c + k..]
  {
  }

  /** Matches spelled out in `s` from `c` onwards, in order and without overlap, are all cut without error. */
  lemma {:induction false} CutFindall(s: string, pat: Pattern, c: nat, ms: seq<Match>)
    requires c <= |s| && Genuine(s, pat, c, ms) && Ordered(ms)
    decreases |ms|
    ensures CutText(s[c..], pat, Pairs(ms)).Ok?
  {
    if ms != [] {
      FirstSpelled(s, pat, c, ms);
      var k := CutFirstMatch(s, pat, c, ms);
      DropFirst(s, pat, c, c + k, ms);
      CutFindall(s, pat, c + k, ms[1..]);
    }
  }

  /**
   * The cut at the first match succeeds and carries on from a point no later
   * than that match's end, so the whole cut succeeds if the cuts at the other
   * matches succeed from there.
   */
  lemma CutFirstMatch(s: string, pat: Pattern, c: nat, ms: seq<Match>) returns (k: nat)
    requires ms != [] && c <= ms[0].start
    requires OccursAt(s, Literal(pat, ms[0].text, ms[0].url), ms[0].start)
    requires ms[0].end == ms[0].start + |Literal(pat, ms[0].text, ms[0].url)|
    ensures c + k <= ms[0].end && c + k <= |s|
    ensures CutText(s[c + k..], pat, Pairs(ms[1..])).Ok? ==> CutText(s[c..], pat, Pairs(ms)).Ok?
  {
    var m, pairs := ms[0], Pairs(ms);
    PairsCons(ms);
    var lit := Literal(pat, m.text, m.url);
    OccursInSuffix(s, c, lit, m.start);
    k := CutFirstIn(s[c..], pat, pairs, m.start - c);
    CutShift(s, pat, c, k, pairs);
  }

  /** A genuine match spells out its literal at its start, and ends where the literal does. */
  lemma FirstSpelled(s: string, pat: Pattern, c: nat, ms: seq<Match>)
    requires c <= |s| && Genuine(s, pat, c, ms) && ms != []
    ensures c <= ms[0].start
    ensures OccursAt(s, Literal(pat, ms[0].text, ms[0].url), ms[0].start)
    ensures ms[0].end == ms[0].start + |Literal(pat, ms[0].text, ms[0].url)|
  {
    assert MatchAt(s, pat, ms[0].start) == Some(ms[0]);
    MatchSound(s, pat, ms[0].start);
  }

  /** The matches after the first still occur, in order, from any point up to the first one's end. */
  lemma DropFirst(s: string, pat: Pattern, c: nat, c': nat, ms: seq<Match>)
    requires c <= |s| && Genuine(s, pat, c, ms) && Ordered(ms) && ms != []
    requires c' <= ms[0].end && c' <= |s|
    ensures Genuine(s, pat, c', ms[1..]) && Ordered(ms[1..])
  {
    assert Genuine(s, pat, c', ms[1..]) by {
      forall i | 0 <= i < |ms[1..]|
        ensures c' <= ms[1..][i].start <= |s| && MatchAt(s, pat, ms[1..][i].start) == Some(ms[1..][i])
      {
        assert ms[1..][i] == ms[i + 1];
        assert ms[0].end <= ms[i + 1].start;
      }
    }
    assert Ordered(ms[1..]) by {
      forall i, j | 0 <= i < j < |ms[1..]|
        ensures ms[1..][i].end <= ms[1..][j].start
      {
        assert ms[1..][i] == ms[i + 1] && ms[1..][j] == ms[j + 1];
      }
    }
  }

  /** A node's step never fails: every extracted pair is found again by the cut. */
  lemma ExpandNeverFails(node: TextNode, pat: Pattern)
    ensures ExpandMedia(node, pat).Ok?
  {
    if node.textType == Text {
      ScanIsFindall(node.text, pat, 0);
      assert node.text[0..] == node.text;
      CutFindall(node.text, pat, 0, Scan(node.text, pat, 0));
    }
  }

  /** The `IndexError` of `tmp_list[1]` cannot happen: the pass never fails. */
  lemma MediaNeverFails(ns: seq<TextNode>, pat: Pattern)
    ensures SplitNodesMediaSpec(ns, pat).Ok?
  {
    var f := MediaStep(pat);
    forall k | 0 <= k < |ns|
      ensures f(ns[k]).Ok?
    {
      ExpandNeverFails(ns[k], pat);
    }
    FlatMapFails(ns, f);
  }

  /** A match's fragment renders back to the Markdown the pattern matched. */
  lemma MediaMarkdown(pat: Pattern, text: string, url: string)
    ensures Markdown(MediaNode(pat, text, url)) == Literal(pat, text, url)
  {
    if pat == ImagePattern {
      assert "![" + text == "!" + ("[" + text);
      assert "!" + ("[" + text) + "](" + url + ")" == "!" + ("[" + text + "](" + url + ")");
    }
  }

  /** The fragments cut from `rest` render back to `rest`, wherever the cuts fell. */
  lemma {:induction false} CutRender(rest: string, pat: Pattern, pairs: seq<(string, string)>)
    requires CutText(rest, pat, pairs).Ok?
    decreases |pairs|
    ensures Render(CutText(rest, pat, pairs).value) == rest
  {
    if pairs == [] {
      assert Render([Plain(rest)]) == rest + Render([]);
    } else {
      var lit := Literal(pat, pairs[0].0, pairs[0].1);
      var parts := SplitOnce(rest, lit);
      var head := [Plain(parts[0]), MediaNode(pat, pairs[0].0, pairs[0].1)];
      var tail := CutText(parts[1], pat, pairs[1..]).value;
      CutRender(parts[1], pat, pairs[1..]);
      RenderConcat(head, tail);
      RenderPair(head[0], head[1]);
      MediaMarkdown(pat, pairs[0].0, pairs[0].1);
    }
  }

  /** A successful cut of a non-empty pair list: the text before the first pair, its fragment, then the cut of the text after it. */
  lemma CutUnfold(rest: string, pat: Pattern, pairs: seq<(string, string)>) returns (before: string, after: string)
    requires pairs != [] && CutText(rest, pat, pairs).Ok?
    ensures CutText(after, pat, pairs[1..]).Ok?
    ensures CutText(rest, pat, pairs).value
         == [Plain(before), MediaNode(pat, pairs[0].0, pairs[0].1)] + CutText(after, pat, pairs[1..]).value
  {
    var parts := SplitOnce(rest, Literal(pat, pairs[0].0, pairs[0].1));
    before, after := parts[0], parts[1];
  }

  /**
   * The shape of a successful cut: one more fragment than twice the pairs,
   * plain text at even positions and, at each odd position, the fragment of
   * the pairs in their order.
   */
  predicate Interleaved(out: seq<TextNode>, pat: Pattern, pairs: seq<(string, string)>) {
    && |out| == 2 * |pairs| + 1
    && forall k :: 0 <= k < |out| ==>
         if k % 2 == 0 then out[k].textType == Text && out[k].url == None
         else k / 2 < |pairs| && out[k] == MediaNode(pat, pairs[k / 2].0, pairs[k / 2].1)
  }

  /** Putting a plain fragment and the first pair's fragment in front keeps the shape. */
  lemma InterleavedCons(before: string, tail: seq<TextNode>, pat: Pattern, pairs: seq<(string, string)>)
    requires pairs != [] && Interleaved(tail, pat, pairs[1..])
    ensures Interleaved([Plain(before), MediaNode(pat, pairs[0].0, pairs[0].1)] + tail, pat, pairs)
  {
    var out := [Plain(before), MediaNode(pat, pairs[0].0, pairs[0].1)] + tail;
    forall k | 2 <= k < |out|
      ensures out[k] == tail[k - 2]
    {
    }
    forall k | 3 <= k < |out| && k % 2 == 1
      ensures pairs[k / 2] == pairs[1..][(k - 2) / 2]
    {
      var h := k / 2;
      assert k == 2 * h + 1;
      assert (k - 2) / 2 == h - 1;
    }
  }

  /** A successful cut interleaves plain text with the pairs' fragments. */
  lemma {:induction false} CutShape(rest: string, pat: Pattern, pairs: seq<(string, string)>)
    requires CutText(rest, pat, pairs).Ok?
    decreases |pairs|
    ensures Interleaved(CutText(rest, pat, pairs).value, pat, pairs)
  {
    if pairs != [] {
      var before, after := CutUnfold(rest, pat, pairs);
      CutShape(after, pat, pairs[1..]);
      InterleavedCons(before, CutText(after, pat, pairs[1..]).value, pat, pairs);
    }
  }

  /** With every label non-empty, the only empty fragments a cut produces are plain text. */
  lemma CutEmptyPlain(rest: string, pat: Pattern, pairs: seq<(string, string)>, m: TextNode)
    requires forall i :: 0 <= i < |pairs| ==> pairs[i].0 != ""
    requires CutText(rest, pat, pairs).Ok? && m in CutText(rest, pat, pairs).value && m.text == ""
    ensures m.textType == Text
  {
    var out := CutText(rest, pat, pairs).value;
    CutShape(rest, pat, pairs);
    var k :| 0 <= k < |out| && out[k] == m;
  }

  /** Every match a pattern finds in `text` has a non-empty label. */
  predicate LabelsNonEmpty(pat: Pattern, text: string) {
    forall i :: 0 <= i < |Found(pat, text)| ==> Found(pat, text)[i].0 != ""
  }

  /**
   * Rendering the pass's output reproduces the Markdown of its input, as long
   * as the filter drops nothing that renders to text: no styled, link or image
   * fragment comes in empty and no extracted label is empty.
   */
  lemma MediaRoundTrip(ns: seq<TextNode>, pat: Pattern)
    requires forall k :: 0 <= k < |ns| && ns[k].text == "" ==> ns[k].textType == Text
    requires forall k :: 0 <= k < |ns| && ns[k].textType == Text ==> LabelsNonEmpty(pat, ns[k].text)
    ensures SplitNodesMediaSpec(ns, pat).Ok?
    ensures Render(SplitNodesMediaSpec(ns, pat).value) == Render(ns)
  {
    var f := MediaStep(pat);
    forall k | 0 <= k < |ns|
      ensures f(ns[k]).Ok? && Render(f(ns[k]).value) == Markdown(ns[k])
    {
      ExpandRender(ns[k], pat);
    }
    FlatMapRender(ns, f);
    var out := FlatMap(ns, f).value;
    forall j | 0 <= j < |out| && out[j].text == ""
      ensures out[j].textType == Text
    {
      FlatMapFrom(ns, f, out[j]);
      var k :| 0 <= k < |ns| && f(ns[k]).Ok? && out[j] in f(ns[k]).value;
      ExpandEmptyPlain(ns[k], pat, out[j]);
    }
    DropEmptyRender(out);
  }

  /** One node's step renders back to the node. */
  lemma ExpandRender(n: TextNode, pat: Pattern)
    ensures ExpandMedia(n, pat).Ok? && Render(ExpandMedia(n, pat).value) == Markdown(n)
  {
    ExpandNeverFails(n, pat);
    if n.textType == Text && |Found(pat, n.text)| > 0 {
      CutRender(n.text, pat, Found(pat, n.text));
    } else {
      assert Render([n]) == Markdown(n) + Render([]);
    }
  }

  /** One node's step yields an empty fragment only as plain text, when its labels are non-empty. */
  lemma ExpandEmptyPlain(n: TextNode, pat: Pattern, m: TextNode)
    requires n.text == "" ==> n.textType == Text
    requires n.textType == Text ==> LabelsNonEmpty(pat, n.text)
    requires ExpandMedia(n, pat).Ok? && m in ExpandMedia(n, pat).value && m.text == ""
    ensures m.textType == Text
  {
    if n.textType == Text && |Found(pat, n.text)| > 0 {
      CutEmptyPlain(n.text, pat, Found(pat, n.text), m);
    }
  }

  /**
   * Nodes that are not plain text, and plain text in which the pattern finds
   * nothing, pass through unchanged and in order (only empty ones are dropped).
   */
  lemma MediaPassThrough(ns: seq<TextNode>, pat: Pattern)
    requires forall k :: 0 <= k < |ns| ==> ns[k].textType != Text || Found(pat, ns[k].text) == []
    ensures SplitNodesMediaSpec(ns, pat) == Ok(DropEmpty(ns))
  {
    FlatMapKeeps(ns, MediaStep(pat));
  }

  /**
   * Matches laid out left to right from `c`, each spelling out its Markdown in
   * `s`: what a findall list guarantees, unrolled one match at a time.
   */
  predicate Spans(s: string, pat: Pattern, c: nat, ms: seq<Match>)
    decreases |ms|
  {
    if ms == [] then c <= |s|
    else
      && c <= ms[0].start <= ms[0].end <= |s|
      && s[ms[0].start..ms[0].end] == Literal(pat, ms[0].text, ms[0].url)
      && Spans(s, pat, ms[0].end, ms[1..])
  }

  /** Matches that really occur, in order, are laid out that way. */
  lemma {:induction false} GenuineSpans(s: string, pat: Pattern, c: nat, ms: seq<Match>)
    requires c <= |s| && Genuine(s, pat, c, ms) && Ordered(ms)
    decreases |ms|
    ensures Spans(s, pat, c, ms)
  {
    if ms != [] {
      var m := ms[0];
      assert MatchAt(s, pat, m.start) == Some(m);
      MatchSound(s, pat, m.start);
      DropFirst(s, pat, c, m.end, ms);
      GenuineSpans(s, pat, m.end, ms[1..]);
    }
  }

  /**
   * Where the cuts ought to fall: the text before each match as a plain
   * fragment, the match as its fragment, and the text after the last match.
   */
  function Segments(s: string, pat: Pattern, c: nat, ms: seq<Match>): seq<TextNode>
    requires Spans(s, pat, c, ms)
    decreases |ms|
  {
    if ms == [] then [Plain(s[c..])]
    else [Plain(s[c..ms[0].start]), MediaNode(pat, ms[0].text, ms[0].url)] + Segments(s, pat, ms[0].end, ms[1..])
  }

  /** A plain fragment followed by a match's fragment renders as the text then the match's Markdown. */
  lemma RenderHead(x: string, pat: Pattern, text: string, url: string)
    ensures Render([Plain(x), MediaNode(pat, text, url)]) == x + Literal(pat, text, url)
  {
    RenderPair(Plain(x), MediaNode(pat, text, url));
    MediaMarkdown(pat, text, url);
  }

  /** A suffix cut at two inner points. */
  lemma SuffixThree(s: string, a: nat, b: nat, c: nat)
    requires a <= b <= c <= |s|
    ensures s[a..] == s[a..b] + s[b..c] + s[c..]
  {
    assert s[a..] == s[a..|s|] && s[c..] == s[c..|s|];
    SliceSplit(s, a, b, |s|);
    SliceSplit(s, b, c, |s|);
  }

  /** The segments render back to the text they were cut from. */
  lemma {:induction false} SegmentsRender(s: string, pat: Pattern, c: nat, ms: seq<Match>)
    requires Spans(s, pat, c, ms)
    decreases |ms|
    ensures Render(Segments(s, pat, c, ms)) == s[c..]
  {
    if ms == [] {
      assert Render([Plain(s[c..])]) == s[c..] + Render([]);
    } else {
      var m := ms[0];
      var head := [Plain(s[c..m.start]), MediaNode(pat, m.text, m.url)];
      var tail := Segments(s, pat, m.end, ms[1..]);
      assert Segments(s, pat, c, ms) == head + tail;
      RenderConcat(head, tail);
      RenderHead(s[c..m.start], pat, m.text, m.url);
      SegmentsRender(s, pat, m.end, ms[1..]);
      SuffixThree(s, c, m.start, m.end);
    }
  }

  /** No copy of a link's Markdown between `c` and the link follows a `!` (where the link pattern cannot match it). */
  predicate NoBangCopies(s: string, c: nat, ms: seq<Match>) {
    forall i, q :: 0 <= i < |ms| && c <= q < ms[i].start && OccursAt(s, Literal(LinkPattern, ms[i].text, ms[i].url), q)
      ==> NotAfterBang(s, q)
  }

  /** Before the first match of a findall list the pattern matches nowhere. */
  lemma NoMatchBefore(s: string, pat: Pattern, c: nat, ms: seq<Match>, q: nat)
    requires c <= |s| && IsFindall(s, pat, c, ms) && ms != []
    requires c <= q < ms[0].start
    ensures MatchAt(s, pat, q).None?
  {
    assert MatchAt(s, pat, ms[0].start) == Some(ms[0]);
    assert !Covered(ms, q) by {
      forall i | 0 <= i < |ms|
        ensures !(ms[i].start <= q < ms[i].end)
      {
        if i > 0 {
          assert ms[0].end <= ms[i].start;
        }
      }
    }
  }

  /** The first match's Markdown has no copy between `c` and the match, where nothing matches. */
  lemma FirstCopy(s: string, pat: Pattern, c: nat, ms: seq<Match>)
    requires ms != [] && c <= ms[0].start <= |s|
    requires forall q :: c <= q < ms[0].start ==> MatchAt(s, pat, q).None?
    requires LabelChars(ms[0].text) && TargetChars(ms[0].url)
    requires pat == LinkPattern ==> NoBangCopies(s, c, ms)
    ensures forall j :: 0 <= j < ms[0].start - c ==> !OccursAt(s[c..], Literal(pat, ms[0].text, ms[0].url), j)
  {
    var lit := Literal(pat, ms[0].text, ms[0].url);
    forall j | 0 <= j < ms[0].start - c
      ensures !OccursAt(s[c..], lit, j)
    {
      OccursShift(s, c, lit, j);
      NoCopyAt(s, pat, c, ms, c + j);
    }
  }

  /**
   * Where the pattern does not match before the first match, that match's
   * Markdown is not spelled out either (for a link, given no copy follows a `!`).
   */
  lemma NoCopyAt(s: string, pat: Pattern, c: nat, ms: seq<Match>, q: nat)
    requires ms != [] && c <= q < ms[0].start && q <= |s| && MatchAt(s, pat, q).None?
    requires LabelChars(ms[0].text) && TargetChars(ms[0].url)
    requires pat == LinkPattern ==> NoBangCopies(s, c, ms)
    ensures !OccursAt(s, Literal(pat, ms[0].text, ms[0].url), q)
  {
    var m := ms[0];
    if OccursAt(s, Literal(pat, m.text, m.url), q) {
      MatchComplete(s, pat, q, m.text, m.url);
      assert false;
    }
  }

  /**
   * When each pair's Markdown first occurs at its match (always so for images;
   * for links, when no copy follows a `!`), the cuts fall exactly at the
   * matches.
   */
  lemma {:induction false} CutExact(s: string, pat: Pattern, c: nat, ms: seq<Match>)
    requires c <= |s| && IsFindall(s, pat, c, ms)
    requires pat == LinkPattern ==> NoBangCopies(s, c, ms)
    decreases |ms|
    ensures Spans(s, pat, c, ms)
    ensures CutText(s[c..], pat, Pairs(ms)) == Ok(Segments(s, pat, c, ms))
  {
    GenuineSpans(s, pat, c, ms);
    if ms != [] {
      var m, pairs := ms[0], Pairs(ms);
      PairsCons(ms);
      assert SplitOnce(s[c..], Literal(pat, m.text, m.url)) == [s[c..m.start], s[m.end..]] by {
        FirstCut(s, pat, c, ms);
      }
      assert CutText(s[m.end..], pat, Pairs(ms[1..])) == Ok(Segments(s, pat, m.end, ms[1..])) by {
        RestFindall(s, pat, c, ms);
        CutExact(s, pat, m.end, ms[1..]);
      }
      CutSegments(s, pat, c, ms);
    }
  }

  /** The first cut at the first match, followed by an exact cut of the rest, is the exact cut. */
  lemma CutSegments(s: string, pat: Pattern, c: nat, ms: seq<Match>)
    requires Spans(s, pat, c, ms) && ms != []
    requires SplitOnce(s[c..], Literal(pat, ms[0].text, ms[0].url)) == [s[c..ms[0].start], s[ms[0].end..]]
    requires CutText(s[ms[0].end..], pat, Pairs(ms[1..])) == Ok(Segments(s, pat, ms[0].end, ms[1..]))
    ensures CutText(s[c..], pat, Pairs(ms)) == Ok(Segments(s, pat, c, ms))
  {
    var m, pairs := ms[0], Pairs(ms);
    PairsCons(ms);
    CutCons(s[c..], pat, pairs, s[c..m.start], s[m.end..], Segments(s, pat, m.end, ms[1..]));
  }

  /** One cut: the text before the first pair's copy, its fragment, then the cut of the text after. */
  lemma CutCons(rest: string, pat: Pattern, pairs: seq<(string, string)>, before: string, after: string, tail: seq<TextNode>)
    requires pairs != [] && SplitOnce(rest, Literal(pat, pairs[0].0, pairs[0].1)) == [before, after]
    requires CutText(after, pat, pairs[1..]) == Ok(tail)
    ensures CutText(rest, pat, pairs) == Ok([Plain(before), MediaNode(pat, pairs[0].0, pairs[0].1)] + tail)
  {
  }

  /** The first cut of a findall list falls at its first match. */
  lemma FirstCut(s: string, pat: Pattern, c: nat, ms: seq<Match>)
    requires c <= |s| && IsFindall(s, pat, c, ms) && ms != []
    requires pat == LinkPattern ==> NoBangCopies(s, c, ms)
    ensures c <= ms[0].start <= ms[0].end <= |s|
    ensures SplitOnce(s[c..], Literal(pat, ms[0].text, ms[0].url)) == [s[c..ms[0].start], s[ms[0].end..]]
  {
    FirstFacts(s, pat, c, ms);
    FirstCutAt(s, pat, c, ms);
  }

  /** What a findall list says about its first match: where it is, what it spells, and that nothing matches before it. */
  lemma FirstFacts(s: string, pat: Pattern, c: nat, ms: seq<Match>)
    requires c <= |s| && IsFindall(s, pat, c, ms) && ms != []
    ensures c <= ms[0].start
    ensures OccursAt(s, Literal(pat, ms[0].text, ms[0].url), ms[0].start)
    ensures ms[0].end == ms[0].start + |Literal(pat, ms[0].text, ms[0].url)|
    ensures LabelChars(ms[0].text) && TargetChars(ms[0].url)
    ensures forall q :: c <= q < ms[0].start ==> MatchAt(s, pat, q).None?
  {
    assert MatchAt(s, pat, ms[0].start) == Some(ms[0]);
    MatchSound(s, pat, ms[0].start);
    forall q | c <= q < ms[0].start
      ensures MatchAt(s, pat, q).None?
    {
      NoMatchBefore(s, pat, c, ms, q);
    }
  }

  /** A first match spelled out at its place, with nothing matching before it, is where the first cut falls. */
  lemma FirstCutAt(s: string, pat: Pattern, c: nat, ms: seq<Match>)
    requires ms != [] && c <= ms[0].start
    requires OccursAt(s, Literal(pat, ms[0].text, ms[0].url), ms[0].start)
    requires ms[0].end == ms[0].start + |Literal(pat, ms[0].text, ms[0].url)|
    requires LabelChars(ms[0].text) && TargetChars(ms[0].url)
    requires forall q :: c <= q < ms[0].start ==> MatchAt(s, pat, q).None?
    requires pat == LinkPattern ==> NoBangCopies(s, c, ms)
    ensures ms[0].end <= |s|
    ensures SplitOnce(s[c..], Literal(pat, ms[0].text, ms[0].url)) == [s[c..ms[0].start], s[ms[0].end..]]
  {
    var lit := Literal(pat, ms[0].text, ms[0].url);
    FirstCopy(s, pat, c, ms);
    CutAt(s, c, lit, ms[0].start);
  }

  /** A single cut of a suffix falls at the first copy of the separator in it. */
  lemma CutAt(s: string, c: nat, sep: string, p: nat)
    requires c <= p && sep != "" && OccursAt(s, sep, p)
    requires forall j :: 0 <= j < p - c ==> !OccursAt(s[c..], sep, j)
    ensures SplitOnce(s[c..], sep) == [s[c..p], s[p + |sep|..]]
  {
    OccursShift(s, c, sep, p - c);
    SplitOnceAt(s[c..], sep, p - c);
    assert s[c..][..p - c] == s[c..p];
    assert s[c..][p - c + |sep|..] == s[p + |sep|..];
  }

  /** After the first match, the rest of the list is the findall list from its end, with the same condition on links. */
  lemma RestFindall(s: string, pat: Pattern, c: nat, ms: seq<Match>)
    requires c <= |s| && IsFindall(s, pat, c, ms) && ms != []
    requires pat == LinkPattern ==> NoBangCopies(s, c, ms)
    ensures c <= ms[0].end <= |s|
    ensures IsFindall(s, pat, ms[0].end, ms[1..])
    ensures pat == LinkPattern ==> NoBangCopies(s, ms[0].end, ms[1..])
  {
    assert MatchAt(s, pat, ms[0].start) == Some(ms[0]);
    AfterFirst(s, pat, c, ms);
    forall i | 0 <= i < |ms[1..]|
      ensures ms[1..][i] == ms[i + 1]
    {
    }
  }

  /** The image pass cuts every plain-text node exactly at its matches. */
  lemma ImagesCutExact(text: string)
    ensures var ms := Scan(text, ImagePattern, 0);
      && Spans(text, ImagePattern, 0, ms)
      && CutText(text, ImagePattern, Found(ImagePattern, text)) == Ok(Segments(text, ImagePattern, 0, ms))
  {
    ScanIsFindall(text, ImagePattern, 0);
    CutExact(text, ImagePattern, 0, Scan(text, ImagePattern, 0));
    assert text[0..] == text;
  }

  /** The link pass cuts a plain-text node exactly at its matches when no copy of a link follows a `!`. */
  lemma LinksCutExact(text: string)
    requires NoBangCopies(text, 0, Scan(text, LinkPattern, 0))
    ensures var ms := Scan(text, LinkPattern, 0);
      && Spans(text, LinkPattern, 0, ms)
      && CutText(text, LinkPattern, Found(LinkPattern, text)) == Ok(Segments(text, LinkPattern, 0, ms))
  {
    ScanIsFindall(text, LinkPattern, 0);
    CutExact(text, LinkPattern, 0, Scan(text, LinkPattern, 0));
    assert text[0..] == text;
  }

  /** The link scan steps over a position that holds no `[`, or whose `[` follows a `!`. */
  lemma LinkScanSkips(s: string, q: nat)
    requires q < |s| && (s[q] != '[' || !NotAfterBang(s, q))
    ensures Scan(s, LinkPattern, q) == Scan(s, LinkPattern, q + 1)
  {
    assert MatchAt(s, LinkPattern, q).None?;
  }

  /** In `![a](b) [a](b)` the link pattern matches `[a](b)` at position 8. */
  lemma SecondLink()
    ensures MatchAt("![a](b) [a](b)", LinkPattern, 8) == Some(Match(8, 14, "a", "b"))
  {
    var s := "![a](b) [a](b)";
    assert s[8..14] == Literal(LinkPattern, "a", "b") by {
      assert Literal(LinkPattern, "a", "b") == "[a](b)";
      assert s[8..14] == s[1..7] == "[a](b)";
    }
    MatchComplete(s, LinkPattern, 8, "a", "b");
  }

  /** The links in `![a](b) [a](b)`: only the second `[a](b)`, since the first follows a `!`. */
  lemma ScanImageThenLink()
    ensures Scan("![a](b) [a](b)", LinkPattern, 0) == [Match(8, 14, "a", "b")]
  {
    var s := "![a](b) [a](b)";
    assert |s| == 14 && s[0] == '!' && s[1] == '[';
    assert s[2] == 'a' && s[3] == ']' && s[4] == '(' && s[5] == 'b' && s[6] == ')' && s[7] == ' ';
    LinkScanSkips(s, 0);
    LinkScanSkips(s, 1);
    LinkScanSkips(s, 2);
    LinkScanSkips(s, 3);
    LinkScanSkips(s, 4);
    LinkScanSkips(s, 5);
    LinkScanSkips(s, 6);
    LinkScanSkips(s, 7);
    SecondLink();
    assert Scan(s, LinkPattern, 8) == [Match(8, 14, "a", "b")] + Scan(s, LinkPattern, 14);
  }

  /** Cutting at a single pair gives the text before its first copy, its fragment and the text after. */
  lemma CutOne(rest: string, pat: Pattern, text: string, url: string, before: string, after: string)
    requires SplitOnce(rest, Literal(pat, text, url)) == [before, after]
    ensures CutText(rest, pat, [(text, url)]) == Ok([Plain(before), MediaNode(pat, text, url), Plain(after)])
  {
    var pairs := [(text, url)];
    assert pairs[1..] == [];
    assert CutText(after, pat, pairs[1..]) == Ok([Plain(after)]);
    assert [Plain(before), MediaNode(pat, text, url)] + [Plain(after)]
        == [Plain(before), MediaNode(pat, text, url), Plain(after)];
  }

  /** In `![a](b) [a](b)` the first copy of `[a](b)` is the one inside the image. */
  lemma FirstCopyInImage()
    ensures SplitOnce("![a](b) [a](b)", Literal(LinkPattern, "a", "b")) == ["!", " [a](b)"]
  {
    var s := "![a](b) [a](b)";
    var lit := Literal(LinkPattern, "a", "b");
    assert lit == "[a](b)";
    assert s[1..7] == lit;
    assert s[0..6] != lit by {
      assert s[0..6][0] == '!';
    }
    FindAt(s, lit, 1);
    assert s[..1] == "!" && s[7..] == " [a](b)";
  }

  /**
   * Without that condition the link pass can cut in the wrong place: in
   * `![a](b) [a](b)` the only link is the second `[a](b)`, but the cut falls
   * at the first copy, inside the image, and the real link stays plain text.
   */
  lemma LinkCutsInsideImage()
    ensures SplitNodesMediaSpec([Plain("![a](b) [a](b)")], LinkPattern)
         == Ok([Plain("!"), MediaNode(LinkPattern, "a", "b"), Plain(" [a](b)")])
  {
    var s := "![a](b) [a](b)";
    var out := [Plain("!"), MediaNode(LinkPattern, "a", "b"), Plain(" [a](b)")];
    ExpandImageThenLink();
    assert FlatMap([Plain(s)], MediaStep(LinkPattern)) == Ok(out + []) by {
      assert [Plain(s)][1..] == [];
    }
    assert out + [] == out;
    assert DropEmpty(out) == out;
  }

  /** The link pass's step on `![a](b) [a](b)`: one pair found, and cut at its first copy. */
  lemma ExpandImageThenLink()
    ensures ExpandMedia(Plain("![a](b) [a](b)"), LinkPattern)
         == Ok([Plain("!"), MediaNode(LinkPattern, "a", "b"), Plain(" [a](b)")])
  {
    var s := "![a](b) [a](b)";
    FoundImageThenLink();
    FirstCopyInImage();
    CutOne(s, LinkPattern, "a", "b", "!", " [a](b)");
  }

  /** `extract_markdown_links("![a](b) [a](b)")` is the one pair `("a", "b")`. */
  lemma FoundImageThenLink()
    ensures Found(LinkPattern, "![a](b) [a](b)") == [("a", "b")]
  {
    ScanImageThenLink();
    assert Pairs([Match(8, 14, "a", "b")]) == [("a", "b")];
  }
}
