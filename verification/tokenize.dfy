/**
 * `text_to_textnodes`: one line of Markdown through the five passes, in their
 * fixed order: bold, italic, code, images, links.
 */
module Tokenize {
  import opened Wrappers
  import opened PyString
  import opened TextNodes
  import opened DelimiterSplit
  import opened Extract
  import opened MediaSplit

  /**
   * The nodes after the three delimiter passes, or the first error one of them
   * raises. No fragment it returns is empty.
   */
  function StyledNodes(text: string): (r: Result<seq<TextNode>, TokenError>)
    ensures r.Ok? ==> forall k :: 0 <= k < |r.value| ==> r.value[k].text != ""
  {
    var bold :- SplitNodesDelimiterSpec([Plain(text)], Some("**"), Bold);
    var italic :- SplitNodesDelimiterSpec(bold, Some("_"), Italic);
    SplitNodesDelimiterSpec(italic, Some("`"), Code)
  }

  /**
   * `text_to_textnodes(text)`: the text as one plain fragment, then the five
   * passes in order, each working on what the one before returned. No
   * fragment in the result is empty.
   */
  function TextToTextNodes(text: string): (r: Result<seq<TextNode>, TokenError>)
    ensures r.Ok? ==> forall k :: 0 <= k < |r.value| ==> r.value[k].text != ""
  {
    var styled :- StyledNodes(text);
    var images :- SplitNodesMediaSpec(styled, ImagePattern);
    SplitNodesMediaSpec(images, LinkPattern)
  }

  /** The empty string gives no fragments at all. */
  lemma EmptyText()
    ensures TextToTextNodes("") == Ok([])
  {
    var n := Plain("");
    assert !Contains("", "**") && !Contains("", "_") && !Contains("", "`");
    PassThrough([n], Some("**"), Bold);
    assert DropEmpty([n]) == [];
    PassThrough([], Some("_"), Italic);
    PassThrough([], Some("`"), Code);
    MediaPassThrough([], ImagePattern);
    MediaPassThrough([], LinkPattern);
  }

  /**
   * Non-empty text with no `**`, `_` or backtick, in which neither the image
   * nor the link pattern matches, comes back as one plain fragment.
   */
  lemma PlainText(text: string)
    requires text != ""
    requires !Contains(text, "**") && !Contains(text, "_") && !Contains(text, "`")
    requires Scan(text, ImagePattern, 0) == [] && Scan(text, LinkPattern, 0) == []
    ensures TextToTextNodes(text) == Ok([Plain(text)])
  {
    var ns := [Plain(text)];
    assert DropEmpty(ns) == ns;
    PassThrough(ns, Some("**"), Bold);
    PassThrough(ns, Some("_"), Italic);
    PassThrough(ns, Some("`"), Code);
    MediaPassThrough(ns, ImagePattern);
    MediaPassThrough(ns, LinkPattern);
  }

  /** In particular, text without `[` matches neither pattern. */
  lemma PlainNoBracket(text: string)
    requires text != ""
    requires !Contains(text, "**") && !Contains(text, "_") && !Contains(text, "`")
    requires forall k :: 0 <= k < |text| ==> text[k] != '['
    ensures TextToTextNodes(text) == Ok([Plain(text)])
  {
    NoBracketNoMatch(text, ImagePattern, 0);
    NoBracketNoMatch(text, LinkPattern, 0);
    PlainText(text);
  }

  /** A lone bracket that opens no link stays in the plain fragment. */
  lemma LoneBracket()
    ensures TextToTextNodes("a [b") == Ok([Plain("a [b")])
  {
    var text := "a [b";
    forall sep | sep in ["**", "_", "`"]
      ensures !Contains(text, sep)
    {
      forall i | 0 <= i <= |text| - |sep|
        ensures !OccursAt(text, sep, i)
      {
        assert text[i..i + |sep|][0] == text[i];
      }
    }
    assert Scan(text, ImagePattern, 0) == [];
    assert Scan(text, LinkPattern, 0) == [];
    PlainText(text);
  }

  /** An odd number of `**` in the input raises at once, naming the whole input. */
  lemma UnterminatedBold(text: string)
    requires |Split(text, "**")| % 2 == 0
    ensures TextToTextNodes(text) == Err(UnterminatedDelimiter("**", Plain(text)))
  {
    FirstUnterminated([Plain(text)], "**", Bold, 0);
  }

  /**
   * The image and link passes never fail, so the tokenizer fails exactly when
   * a delimiter pass does, and then always with an unmatched delimiter.
   */
  lemma OnlyDelimiterErrors(text: string)
    ensures TextToTextNodes(text).Ok? <==> StyledNodes(text).Ok?
    ensures TextToTextNodes(text).Err? ==> TextToTextNodes(text).error.UnterminatedDelimiter?
  {
    var bold := SplitNodesDelimiterSpec([Plain(text)], Some("**"), Bold);
    if bold.Ok? {
      var italic := SplitNodesDelimiterSpec(bold.value, Some("_"), Italic);
      if italic.Ok? {
        DelimiterErrorKind(italic.value, "`", Code);
        var code := SplitNodesDelimiterSpec(italic.value, Some("`"), Code);
        if code.Ok? {
          MediaNeverFails(code.value, ImagePattern);
          MediaNeverFails(SplitNodesMediaSpec(code.value, ImagePattern).value, LinkPattern);
        }
      } else {
        DelimiterErrorKind(bold.value, "_", Italic);
      }
    } else {
      DelimiterErrorKind([Plain(text)], "**", Bold);
    }
  }

  /** A delimiter pass with a non-empty delimiter only ever fails on an unmatched delimiter. */
  lemma DelimiterErrorKind(ns: seq<TextNode>, d: string, tt: TextType)
    requires d != ""
    ensures var r := SplitNodesDelimiterSpec(ns, Some(d), tt);
      r.Err? ==> r.error.UnterminatedDelimiter? && r.error.delimiter == d
  {
    var f := Step(Some(d), tt);
    if FlatMap(ns, f).Err? {
      FlatMapErrorFrom(ns, f);
    }
  }
}
