# py-ssg core in Dafny

A model of the core of py-ssg, a static-site generator that turns Markdown into
HTML. The model covers three parts:

- **The HTML node tree and its serialiser** (`htmlnode.dfy`, `leafnode.dfy`,
  `parentnode.dfy`). `HtmlNode`, `LeafNode` and `ParentNode` share four
  attributes: `tag`, `value`, `children` and `props`. They are one datatype
  `Node`. Its field `cls` records which constructor built the node, and
  `to_html` dispatches on it.
  - Attributes are an insertion-ordered list of key/value pairs.
  - `props_to_html` and `ParentNode.to_html` build their strings with `+=` in
    a loop. Here they are methods with loops, and each is proved equal to a
    recursive specification function (`PropsHtml`, `ParentToHtml`).
  - The errors raised at render time are values of `HtmlError`: a base node,
    a leaf without a value, a parent without a tag, a parent without
    children.
- **The inline tokenizer** (`textnode.dfy`, `conversion.dfy`, `delimiter.dfy`,
  `extract.dfy`, `media.dfy`, `tokenize.dfy`).
  - `TextNode(text, text_type, url)` and its six kinds.
  - `text_node_to_html_node`.
  - The delimiter pass, which re-splits plain text on `**`, `_` or a
    backtick.
  - The two `re.findall` extractors, written as left-to-right scanners of the
    two fixed patterns.
  - The image and link passes, which cut the text at each extracted pair.
  - `text_to_textnodes`, which runs the five passes in their fixed order.
  - The passes are methods with loops over the input nodes, each proved equal
    to a specification function. The lemmas are stated about those
    functions.
- **The block segmenter** `markdown_to_blocks` (`blocks.dfy`). It splits on
  `"\n\n"`, strips each piece and drops the empty ones.

Python's `str` operations that the core uses are modelled in `pystring.dfy`:
`in`, `split(sep)`, `split(sep, 1)` and `strip()`, which removes every character
`str.isspace()` accepts. The core does not call
`find` or `join`. In the model, `Find` (the leftmost occurrence) is the helper
both splits are defined with. `Join` is the reference definition that
`PyString.SplitJoin` checks `split` against. The `Option` and `Result` types
are in `wrappers.dfy`.

Independent reference definitions check the passes:

- `TextNodes.Markdown` maps each fragment back to its Markdown. The round-trip
  lemmas (`DelimiterSplit.DelimiterRoundTrip`, `MediaSplit.MediaRoundTrip`)
  show that each pass's output renders back to its input.
- `Extract.ScanIsFindall` ties each scanner to a declarative description of
  `findall`: the matches really occur, they are in order and do not overlap,
  and no other position matches.
- `Extract.FindallUnique` shows that only one list meets that description.

Behaviour worth noting:

- Each of the five passes filters out empty fragments before it returns
  (`src/utilities.py:51`, `:70`, `:89`).
- The block separator is exactly `"\n\n"` (`src/utilities.py:112`). A longer
  run of newlines leaves newlines at the edge of a piece, which `strip()` then
  removes.
- The constructors accept a node with a missing tag, value or children
  (`src/htmlnode.py:2-6`). Such a node fails only when it is rendered
  (`src/leafnode.py:8-9`, `src/parentnode.py:8-11`).

## Model

| member | source | states |
|---|---|---|
| HtmlNode.NewHtmlNode | src/htmlnode.py:2-6 | builds a base node that stores tag, value, children and props exactly as given, each defaulting to None |
| HtmlNode.PropsHtml | src/htmlnode.py:11-17 | the attribute string is empty exactly when props are None or empty; a non-empty one starts with a space |
| HtmlNode.AttrsConcat | src/htmlnode.py:15-16 | pairs render in insertion order: rendering a concatenation of pair lists concatenates their renderings |
| HtmlNode.AttrsAppend | src/htmlnode.py:14-17 | appending the pair (k, v) to the props appends exactly ` k="v"` to the rendering |
| HtmlNode.AttrsAt | src/htmlnode.py:15-16 | the i-th pair renders as a space, its key, `="`, its value (verbatim, unescaped) and `"`, between the renderings of the pairs before and after it |
| HtmlNode.AttrsLength | src/htmlnode.py:16 | the length of the rendering is the sum over pairs of \|k\| + \|v\| + 4 |
| HtmlNode.PropsToHtml | src/htmlnode.py:11-17 | the loop returns the attribute string of the node's props (None or empty gives "") |
| HtmlNode.BaseToHtml | src/htmlnode.py:8-9 | the base `to_html` fails with the not-implemented error whatever the node holds (a definition with no contract; `ParentNode.ToHtml` and `ParentNode.BaseNeverRenders` state it) |
| LeafNode.NewLeafNode | src/leafnode.py:4-5 | a leaf stores tag, value and props; its children stay None |
| LeafNode.LeafToHtml | src/leafnode.py:7-12 | rendering fails exactly when the value is None, with the missing-value error, whatever the tag; an untagged leaf renders as its value and ignores its props |
| LeafNode.TaggedLeafLayout | src/leafnode.py:12 | a tagged leaf renders as `<` tag attrs `>`, then the value verbatim, then `</` tag `>`, of length 2\|tag\| + \|attrs\| + \|value\| + 5; an empty value gives an empty element pair |
| ParentNode.NewParentNode | src/parentnode.py:4-5 | a parent stores tag, children and props; its value stays None |
| ParentNode.ParentToHtml | src/parentnode.py:7-15 | a missing tag fails first, then missing children; it renders exactly when tag and children are present and every child renders |
| ParentNode.ChildrenHtml | src/parentnode.py:12-14 | the children render together exactly when each of them renders |
| ParentNode.BaseNeverRenders | src/htmlnode.py:8-9 | a base node never renders, whatever its fields |
| ParentNode.FirstFailingChild | src/parentnode.py:13-14 | when a child fails, the parent reports the error of the first child that fails |
| ParentNode.ChildrenAppend | src/parentnode.py:12-14 | children are concatenated in order with no separator: one more child appends exactly its HTML |
| ParentNode.AppendChild | src/parentnode.py:12-15 | appending a child to a rendering parent inserts exactly that child's HTML before the closing tag |
| ParentNode.ParentRenders | src/parentnode.py:7-15 | a parent with a tag and children that all render gives its open tag, the children's HTML and its close tag |
| ParentNode.EmptyParent | src/parentnode.py:12-15 | an empty children list is accepted and gives `<tag attrs></tag>` |
| ParentNode.ParentToHtmlMethod | src/parentnode.py:7-15 | the loop that accumulates the children's HTML returns what the recursive specification returns, errors included |
| ParentNode.ToHtmlMethod | src/parentnode.py:14 | `child.to_html()` dispatches to the base, leaf or parent rendering by the node's class |
| ParentNode.ToHtml | src/parentnode.py:14 | `child.to_html()` by class: a base node always fails with the not-implemented error, a leaf renders exactly when it has a value, a parent renders only with a tag and children |
| PyString.Find | src/utilities.py:43 | the leftmost occurrence at or after the start, or None when the separator occurs nowhere there; both `split` (here) and `split(sep, 1)` (`:65`) cut there |
| PyString.Contains | src/utilities.py:39 | `delimiter in node.text`: some index where the separator occurs (a definition with no contract; `PyString.ContainsFind` relates it to `Find`) |
| PyString.ContainsFind | src/utilities.py:39 | `sep in s` holds exactly when the leftmost-occurrence search finds something |
| PyString.Split | src/utilities.py:43 | a split has at least one piece |
| PyString.SplitJoin | src/utilities.py:43 | joining the pieces of a split with the separator gives the string back |
| PyString.SplitPiecesFree | src/utilities.py:43 | no piece of a split contains the separator |
| PyString.SplitSingle | src/utilities.py:43 | a split has one piece, the string itself, exactly when the separator does not occur |
| PyString.SplitOnce | src/utilities.py:65 | `split(sep, 1)` gives one piece (the string) exactly when sep does not occur, else two pieces around its leftmost occurrence |
| PyString.Strip | src/utilities.py:111 | `strip()` returns a slice of the input with only whitespace outside it; the slice has no whitespace at either end, and is empty exactly when the input is all whitespace |
| PyString.StripUnique | src/utilities.py:111 | only one slice fits that description: a stripped slice with nothing but whitespace around it is the result of `strip()` |
| PyString.StripStripped | src/utilities.py:111 | a string with no whitespace at either end is its own strip |
| PyString.StripFree | src/utilities.py:111 | stripping a string free of a separator keeps it free of it |
| TextNodes.DropEmpty | src/utilities.py:51 | the filter leaves no fragment with empty text, keeps only input fragments, and is the identity when none is empty |
| TextNodes.DropEmptySingle | src/utilities.py:51 | a single fragment is kept exactly when its text is non-empty |
| TextNodes.DropEmptyConcat | src/utilities.py:51 | the filter keeps order: filtering a concatenation concatenates the filtered parts |
| TextNodes.FlatMapFails | src/utilities.py:34-51 | a pass over the nodes fails exactly when the step of some node fails |
| TextNodes.FlatMapFirstError | src/utilities.py:34-51 | a failing pass reports the error of the first node whose step fails |
| TextNodes.FlatMapKeeps | src/utilities.py:36-42 | nodes that every step keeps come out unchanged and in order |
| TextNodes.FlatMapErrorFrom | src/utilities.py:34-51 | the error a failing pass reports is the error of one of its nodes' steps |
| TextNodes.FlatMapFrom | src/utilities.py:34-51 | every fragment a successful pass returns comes from the step of one of its input nodes |
| TextNodes.DropEmptyRender | src/utilities.py:51 | dropping empty fragments changes no rendering when only plain-text fragments are empty |
| Conversion.TextNodeToHtmlNode | src/utilities.py:5-29 | every fragment becomes a leaf with a value and no children, and that leaf always renders |
| Conversion.TaggedLeaf | src/leafnode.py:12 | a tagged leaf built by the conversion renders as open tag, value, close tag |
| Conversion.LinkHtml | src/utilities.py:15-20 | a link becomes `<a href="url">text</a>` |
| Conversion.ImageHtml | src/utilities.py:21-29 | an image becomes `<img src="url" alt="text"></img>`: src before alt, empty value |
| Conversion.ImageAttrs | src/utilities.py:25-28 | an image's props render as ` src="url"` then ` alt="text"`, in that order |
| Conversion.FragmentHtml | src/utilities.py:5-29 | the exact HTML of each of the six kinds: raw text, `b`, `i`, `code`, `a` with href, `img` with src then alt |
| DelimiterSplit.SplitNodesDelimiterSpec | src/utilities.py:33-51 | no fragment the pass returns has empty text |
| DelimiterSplit.SplitNodesDelimiter | src/utilities.py:33-51 | the loop appending to `new_nodes` returns what the specification returns, errors included |
| DelimiterSplit.ExpandDelimited | src/utilities.py:36-50 | a non-plain node, or any node when the delimiter is None, comes back alone and unchanged; only a plain node whose text contains the delimiter can raise |
| DelimiterSplit.AppendAlternate | src/utilities.py:46-50 | the `enumerate` loop appends one fragment per piece, in order: plain text at even indices, the target kind at odd ones |
| DelimiterSplit.SplitShape | src/utilities.py:43-50 | a split node gives one fragment per piece, at least three, alternating plain (even) and the target kind (odd), none containing the delimiter; joining their texts with the delimiter gives the node's text back |
| DelimiterSplit.DelimiterFails | src/utilities.py:43-45 | with a non-empty delimiter the pass fails exactly when some plain-text node splits into an even number of pieces |
| DelimiterSplit.FirstUnterminated | src/utilities.py:44-45 | the error names the delimiter and the first plain-text node with an even piece count |
| DelimiterSplit.EmptyDelimiter | src/utilities.py:39-43 | with the empty delimiter the pass fails on the first plain-text node (`str.split("")` raises), and otherwise only filters |
| DelimiterSplit.FirstPlainRaises | src/utilities.py:36-43 | with the empty delimiter, the first plain-text node reaches `split("")`, which raises |
| DelimiterSplit.SomePlainRaises | src/utilities.py:36-43 | with the empty delimiter, any plain-text node in the input makes the pass raise |
| DelimiterSplit.NoPlainKept | src/utilities.py:36-42 | with the empty delimiter and no plain-text node, the pass keeps every node and only filters empty ones |
| DelimiterSplit.PassThrough | src/utilities.py:36-42 | non-plain nodes, plain nodes without the delimiter, and every node when the delimiter is None, pass through unchanged and in order (only empty ones dropped) |
| DelimiterSplit.OutputSettled | src/utilities.py:36-51 | every fragment a successful pass returns is non-plain or free of the delimiter |
| DelimiterSplit.ExpandedSettled | src/utilities.py:43-50 | every fragment one node's split yields is non-plain or free of the delimiter |
| DelimiterSplit.SplitTwice | src/utilities.py:33-51 | running the pass again with the same delimiter changes nothing |
| DelimiterSplit.AlternateRender | src/utilities.py:46-50 | the alternating fragments render back, with their delimiters, to the pieces joined by the delimiter |
| DelimiterSplit.ExpandRender | src/utilities.py:36-50 | each node's expansion renders back to the node's own Markdown |
| DelimiterSplit.DelimiterRoundTrip | src/utilities.py:33-51 | the pass's output renders back to its input, provided no delimited span and no incoming styled fragment is empty |
| Extract.Run | src/utilities.py:92 | a label or target is the longest run of characters other than its two stop characters |
| Extract.MatchAt | src/utilities.py:91-95 | a match found at a position starts there and ends inside the text |
| Extract.MatchSound | src/utilities.py:91-95 | a match spells out `![label](target)` or `[label](target)` at its position, its label has no bracket and its target no parenthesis, and a link match never follows `!` |
| Extract.MatchComplete | src/utilities.py:91-95 | wherever such a literal is spelled out (for a link, not after `!`), the pattern matches there with exactly those groups |
| Extract.RunStops | src/utilities.py:92 | a run ends at the first stop character |
| Extract.ScanIsFindall | src/utilities.py:91-95 | the scanner's matches really occur, are left to right and non-overlapping, and cover every position where the pattern matches |
| Extract.FindallUnique | src/utilities.py:91-95 | only one list of matches meets that description |
| Extract.FirstAgrees | src/utilities.py:91-95 | two lists meeting the `findall` description start with the same leftmost match |
| Extract.ConsFindall | src/utilities.py:91-95 | a match at a position, followed by the matches found from its end, are the matches found from that position |
| Extract.SkipFindall | src/utilities.py:91-95 | a position where the pattern does not match adds no match |
| Extract.Pairs | src/utilities.py:92 | `findall` with two groups returns one (label, target) pair per match, in order |
| Extract.Scan | src/utilities.py:92 | every match the scan returns starts at or after the scan position and ends after it starts, inside the text; `Extract.ScanIsFindall` shows the list is what `findall` returns |
| Extract.ExtractMarkdownImages | src/utilities.py:91-92 | every (alt, url) pair returned has a bracket-free label and a parenthesis-free target, and its `![alt](url)` occurs in the text |
| Extract.ExtractMarkdownLinks | src/utilities.py:94-95 | every (text, url) pair returned has a bracket-free label and a parenthesis-free target, and its `[text](url)` occurs in the text |
| Extract.ExtractedAll | src/utilities.py:91-95 | those three facts hold of every extracted pair at once |
| Extract.ExtractedOccur | src/utilities.py:91-95 | every extracted pair has a bracket-free label and a parenthesis-free target, and its Markdown occurs in the text |
| Extract.NoBracketNoMatch | src/utilities.py:91-95 | a text without `[` yields no match from either pattern |
| MediaSplit.SplitNodesMediaSpec | src/utilities.py:53-70 | no fragment the image or link pass returns has empty text |
| MediaSplit.SplitNodesMedia | src/utilities.py:53-70 | the loop appending to `new_nodes` returns what the specification returns |
| MediaSplit.ExpandMedia | src/utilities.py:56-69 | a non-plain node comes back alone and unchanged; a node can fail only if it is plain text, and only with the missing-split error of `tmp_list[1]` |
| MediaSplit.CutText | src/utilities.py:63-69 | cutting at n pairs gives 2n + 1 fragments, or fails with the missing-split error |
| MediaSplit.CutNode | src/utilities.py:63-69 | the loop that advances `rest` one cut at a time returns what the recursive cut returns |
| MediaSplit.CutFindall | src/utilities.py:63-68 | matches laid out in order in the text are all cut without error |
| MediaSplit.ExpandNeverFails | src/utilities.py:65-68 | the `tmp_list[1]` of each cut always exists: no node's step fails |
| MediaSplit.MediaNeverFails | src/utilities.py:53-70 | the image and link passes never fail |
| MediaSplit.MediaMarkdown | src/utilities.py:65 | a pair's fragment renders back to the Markdown the cut looks for |
| MediaSplit.CutRender | src/utilities.py:63-69 | the fragments cut from a text render back to that text, wherever the cuts fall |
| MediaSplit.CutShape | src/utilities.py:63-69 | a cut gives 2n + 1 fragments: plain text at even positions and, at odd positions, the pairs' fragments in order |
| MediaSplit.CutEmptyPlain | src/utilities.py:63-69 | with non-empty labels, the only empty fragments a cut produces are plain text |
| MediaSplit.MediaRoundTrip | src/utilities.py:53-70 | the pass's output renders back to its input, provided no extracted label and no incoming styled fragment is empty |
| MediaSplit.MediaPassThrough | src/utilities.py:56-62 | non-plain nodes, and plain nodes with no match, pass through unchanged and in order (only empty ones dropped) |
| MediaSplit.SplitOnceAt | src/utilities.py:65 | with the first occurrence at j, `split(sep, 1)` cuts exactly there |
| MediaSplit.FirstCut | src/utilities.py:65 | with the matches `findall` found (for links, when no copy of a link's Markdown follows `!`), `split(literal, 1)` of what is left cuts exactly at the first match |
| MediaSplit.RestFindall | src/utilities.py:64-68 | after that cut, the remaining matches are exactly the matches found in what is left |
| MediaSplit.CutOne | src/utilities.py:65-69 | a single pair gives the text before its literal, its fragment, and the text after |
| MediaSplit.CutCons | src/utilities.py:65-68 | the first cut gives the text before and the pair's fragment, followed by the cuts of what is left |
| MediaSplit.SegmentsRender | src/utilities.py:63-69 | the fragments cut at the matches render back to the text |
| MediaSplit.CutExact | src/utilities.py:63-69 | when each pair's Markdown first occurs at its match, every cut falls exactly at its match |
| MediaSplit.ImagesCutExact | src/utilities.py:63-69 | the image pass always cuts a node exactly at its matches |
| MediaSplit.LinksCutExact | src/utilities.py:82-88 | the link pass cuts a node exactly at its matches when no copy of a link's Markdown follows a `!` |
| MediaSplit.ScanImageThenLink | src/utilities.py:95 | in `![a](b) [a](b)` the only link is the second `[a](b)` |
| MediaSplit.LinkScanSkips | src/utilities.py:95 | a position without `[`, or right after `!`, adds no link match |
| MediaSplit.SecondLink | src/utilities.py:95 | in `![a](b) [a](b)` the link pattern matches at position 8 with groups a and b |
| MediaSplit.FirstCopyInImage | src/utilities.py:84 | there `split("[a](b)", 1)` cuts at the copy inside the image, leaving `!` and ` [a](b)` |
| MediaSplit.LinkCutsInsideImage | src/utilities.py:84 | there the link pass cuts at the first copy, inside the image: it returns `!`, the link, and ` [a](b)` as plain text |
| Tokenize.TextToTextNodes | src/utilities.py:97-104 | the five passes in order (bold, italic, code, images, links); no fragment in the result is empty |
| Tokenize.StyledNodes | src/utilities.py:98-101 | the three delimiter passes in order (`**`, `_`, backtick); no fragment in the result is empty |
| Tokenize.EmptyText | src/utilities.py:97-104 | the empty string gives no fragments |
| Tokenize.PlainText | src/utilities.py:97-104 | non-empty text with no `**`, `_` or backtick, in which neither the image nor the link pattern matches, gives exactly one plain fragment equal to it |
| Tokenize.PlainNoBracket | src/utilities.py:97-104 | in particular, such text without any `[` gives one plain fragment equal to it |
| Tokenize.LoneBracket | src/utilities.py:97-104 | `a [b` has a bracket that opens no link, and comes back as one plain fragment |
| Tokenize.UnterminatedBold | src/utilities.py:99 | an odd number of `**` fails at once, with the `**` error naming the whole input |
| Tokenize.OnlyDelimiterErrors | src/utilities.py:97-104 | tokenizing fails exactly when a delimiter pass does, and then always with an unmatched delimiter |
| Tokenize.DelimiterErrorKind | src/utilities.py:44-45 | a delimiter pass with a non-empty delimiter fails only with an unmatched delimiter error naming it |
| Blocks.NonEmpty | src/utilities.py:108-109 | the filter keeps only non-empty blocks from its input, and is the identity when none is empty |
| Blocks.StripEach | src/utilities.py:110-111 | `map(strip)`: one stripped piece per piece, in order (a definition with no contract; `Blocks.StripEachCons`, `Blocks.StripEachFree` and `Blocks.StripEachStripped` state its properties) |
| Blocks.MarkdownToBlocks | src/utilities.py:106-115 | every block is non-empty, has no whitespace at either end and contains no `"\n\n"` |
| Blocks.StripEachFree | src/utilities.py:111-112 | the stripped pieces are stripped and still free of the separator |
| Blocks.NonEmptyConcat | src/utilities.py:108-109 | the filter keeps order: filtering a concatenation concatenates the filtered parts |
| Blocks.BlocksFirst | src/utilities.py:106-115 | blocks come out in document order: the first piece's block, then the blocks of the text after the first blank line |
| Blocks.BlocksLast | src/utilities.py:106-115 | a text with no `"\n\n"` (the last piece) gives its stripped text as its only block, or no block when that is empty; with `Blocks.BlocksFirst` this fixes the blocks of every input |
| Blocks.ListBlockLast | src/test_utilities.py:306-324 | the last piece of the test document, `"- This is a list\n- with items\n"`, gives the block `"- This is a list\n- with items"` |
| Blocks.FirstBlankLine | src/utilities.py:112 | in a join of well-formed blocks the first `"\n\n"` is the one right after the first block |
| Blocks.SplitJoinBlocks | src/utilities.py:112 | splitting a join of well-formed blocks on `"\n\n"` gives the blocks back |
| Blocks.SplitAfterBlock | src/utilities.py:112 | text starting with a well-formed block and `"\n\n"` splits into that block, then the pieces of the rest |
| Blocks.StripEachStripped | src/utilities.py:110-111 | `strip()` changes no block that has no whitespace at either end |
| Blocks.NoBlocks | src/utilities.py:106-115 | an empty document has no blocks |
| Blocks.Resegment | src/utilities.py:106-115 | segmenting well-formed blocks joined with `"\n\n"` returns the same list |
| Blocks.SegmentTwice | src/utilities.py:106-115 | segmenting is idempotent: joining the blocks and segmenting again gives the same blocks |

## Left out

- `src/main.py`: copying files, walking directories and printing are I/O and
  are not modelled.
- `block_to_block_type`, `markdown_to_html_node` and `extract_title` are not
  defined in `src/utilities.py`. That file holds `text_node_to_html_node`,
  the inline tokenizer and the segmenter. They are not part of this model.
- `textnode.py` is not part of this model. `TextNode` and `TextType` are
  defined from how `src/utilities.py` uses them: structural equality and an
  optional url.
- The `__repr__` methods (`src/htmlnode.py:19-20`, `src/leafnode.py:14-15`,
  `src/parentnode.py:17-18`) and the text of exception messages are left
  out. Errors are values. The unmatched-delimiter error carries the
  delimiter and the node.
- The `case _` of `text_node_to_html_node` (`src/utilities.py:30-31`) cannot
  be reached: the kinds form a closed datatype.
- `re.findall` in general is not modelled. Only the two fixed patterns are
  modelled, as scanners.
- The image and link passes are modelled as one pass, parameterised by the
  pattern (`MediaSplit.SplitNodesMedia`). The two Python functions differ
  only in three things. They extract with a different pattern. They cut at a
  different Markdown literal (`![text](url)` at `src/utilities.py:65`,
  `[text](url)` at `:84`). They give the matches a different kind
  (`TextType.IMAGE` at `:67`, `TextType.LINK` at `:86`).
- `children` holds only nodes. Python's dynamic typing would let it hold
  anything with a `to_html` method.
- A link url of None renders as `href="None"`, as the f-string in
  `src/htmlnode.py:16` would. It is modelled as that fixed text.
- MediaSplit.LinksCutExact: requires that no copy of a link's Markdown
  follows a `!` before the link. Without that condition the link pass can
  cut at the wrong copy (`MediaSplit.LinkCutsInsideImage`). The rendering
  round trip (`MediaSplit.MediaRoundTrip`) does not need the condition.
