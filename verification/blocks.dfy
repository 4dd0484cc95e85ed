/**
 * `markdown_to_blocks`: cut a document at every blank line (`"\n\n"`), strip
 * each piece and drop the pieces left empty.
 */
module Blocks {
  import opened Wrappers
  import opened PyString

  /** The separator between blocks. */
  const BlankLine: string := "\n\n"

  /** What a block looks like: non-empty, no whitespace at either end, no blank line inside. */
  predicate WellFormedBlock(b: string) {
    b != "" && IsStripped(b) && !Contains(b, BlankLine)
  }

  /** `map(lambda block: block.strip(), pieces)`. */
  function StripEach(pieces: seq<string>): seq<string> {
    seq(|pieces|, k requires 0 <= k < |pieces| => Strip(pieces[k]))
  }

  /** `filter(lambda block: block != "", pieces)`: the non-empty pieces, in order. */
  function NonEmpty(pieces: seq<string>): (r: seq<string>)
    ensures forall k :: 0 <= k < |r| ==> r[k] != ""
    ensures forall b :: b in r ==> b in pieces
    ensures (forall k :: 0 <= k < |pieces| ==> pieces[k] != "") ==> r == pieces
  {
    if pieces == [] then []
    else if pieces[0] == "" then NonEmpty(pieces[1..])
    else [pieces[0]] + NonEmpty(pieces[1..])
  }

  /**
   * `markdown_to_blocks(text)`. Every block it returns is well formed: the
   * filter leaves no empty block, `strip` leaves no whitespace at the ends, and
   * the split leaves no blank line inside.
   */
  function MarkdownToBlocks(text: string): (r: seq<string>)
    ensures forall k :: 0 <= k < |r| ==> WellFormedBlock(r[k])
  {
    var pieces := Split(text, BlankLine);
    SplitPiecesFree(text, BlankLine);
    StripEachFree(pieces, BlankLine);
    NonEmpty(StripEach(pieces))
  }

  /** Stripping pieces free of `sep` leaves them stripped and still free of `sep`. */
  lemma StripEachFree(pieces: seq<string>, sep: string)
    requires forall k :: 0 <= k < |pieces| ==> !Contains(pieces[k], sep)
    ensures forall b :: b in StripEach(pieces) ==> IsStripped(b) && !Contains(b, sep)
  {
    forall k | 0 <= k < |pieces|
      ensures !Contains(Strip(pieces[k]), sep)
    {
      StripFree(pieces[k], sep);
    }
  }

  /** The filter keeps the order: filtering a concatenation concatenates the filtered parts. */
  lemma {:induction false} NonEmptyConcat(a: seq<string>, b: seq<string>)
    ensures NonEmpty(a + b) == NonEmpty(a) + NonEmpty(b)
  {
    if a == [] {
      assert a + b == b;
    } else {
      assert (a + b)[0] == a[0] && (a + b)[1..] == a[1..] + b;
      NonEmptyConcat(a[1..], b);
    }
  }

  /**
   * Blocks come out in document order: the blocks of a text are the block of
   * its first piece (if that piece is not blank) followed by the blocks of the
   * text after the first blank line.
   */
  lemma BlocksFirst(text: string)
    requires Contains(text, BlankLine)
    ensures var parts := SplitOnce(text, BlankLine);
      MarkdownToBlocks(text) == NonEmpty([Strip(parts[0])]) + MarkdownToBlocks(parts[1])
  {
    var parts := SplitOnce(text, BlankLine);
    var tail := Split(parts[1], BlankLine);
    SplitFirstCut(text, BlankLine);
    StripEachCons(parts[0], tail);
    NonEmptyConcat([Strip(parts[0])], StripEach(tail));
  }

  /** A full split starts with the piece a single split cuts off, then splits what is left. */
  lemma SplitFirstCut(s: string, sep: string)
    requires sep != "" && Contains(s, sep)
    ensures Split(s, sep) == [SplitOnce(s, sep)[0]] + Split(SplitOnce(s, sep)[1], sep)
  {
    assert Find(s, sep, 0).Some?;
  }

  /**
   * The last piece, or a text with no blank line at all: its block is the
   * stripped text, kept only if it is not empty. With `BlocksFirst` this gives
   * every input its blocks: strip each piece, drop the empty ones, keep the order.
   */
  lemma BlocksLast(text: string)
    requires !Contains(text, BlankLine)
    ensures MarkdownToBlocks(text) == NonEmpty([Strip(text)])
  {
    SplitSingle(text, BlankLine);
    assert StripEach([text]) == [Strip(text)];
  }

  /** A last piece that ends in a single newline: the newline is stripped and the block kept. */
  lemma ListBlockLast()
    ensures MarkdownToBlocks("- This is a list\n- with items\n") == ["- This is a list\n- with items"]
  {
    var text := "- This is a list\n- with items\n";
    ListHasNoBlankLine(text);
    BlocksLast(text);
    ListStrips(text);
  }

  /** The test's list block holds no blank line. */
  lemma ListHasNoBlankLine(text: string)
    requires text == "- This is a list\n- with items\n"
    ensures !Contains(text, BlankLine)
  {
    forall i | 0 <= i <= |text| - |BlankLine|
      ensures !OccursAt(text, BlankLine, i)
    {
      assert text[i..i + 2][0] == text[i] && text[i..i + 2][1] == text[i + 1];
    }
  }

  /** Stripping the test's list block removes only its final newline. */
  lemma ListStrips(text: string)
    requires text == "- This is a list\n- with items\n"
    ensures Strip(text) == "- This is a list\n- with items"
  {
    assert text[0..|text| - 1] == "- This is a list\n- with items";
    StripUnique(text, 0, |text| - 1);
  }

  /** Stripping distributes over putting a piece in front. */
  lemma StripEachCons(p: string, ps: seq<string>)
    ensures StripEach([p] + ps) == [Strip(p)] + StripEach(ps)
  {
  }

  /** In a join of well-formed blocks, the first blank line is the one right after the first block. */
  lemma FirstBlankLine(b: string, rest: string)
    requires WellFormedBlock(b)
    ensures Find(b + BlankLine + rest, BlankLine, 0) == Some(|b|)
  {
    var s := b + BlankLine + rest;
    assert s[|b|..|b| + 2] == BlankLine;
    forall j | 0 <= j < |b|
      ensures !OccursAt(s, BlankLine, j)
    {
      if j + 2 <= |b| {
        assert !OccursAt(b, BlankLine, j);
        assert s[j..j + 2] == b[j..j + 2];
      } else {
        assert s[j] == b[|b| - 1];
        assert s[j..j + 2][0] == s[j];
      }
    }
    FindAt(s, BlankLine, |b|);
  }

  /** Splitting text that starts with a well-formed block and a blank line cuts that block off first. */
  lemma SplitAfterBlock(b: string, rest: string)
    requires WellFormedBlock(b)
    ensures Split(b + BlankLine + rest, BlankLine) == [b] + Split(rest, BlankLine)
  {
    var s := b + BlankLine + rest;
    FirstBlankLine(b, rest);
    assert s[..|b|] == b;
    assert s[|b| + 2..] == rest;
  }

  /** Splitting a join of well-formed blocks at the blank lines gives the blocks back. */
  lemma {:induction false} SplitJoinBlocks(bs: seq<string>)
    requires bs != []
    requires forall k :: 0 <= k < |bs| ==> WellFormedBlock(bs[k])
    ensures Split(Join(bs, BlankLine), BlankLine) == bs
  {
    if |bs| == 1 {
      SplitSingle(bs[0], BlankLine);
    } else {
      var rest := Join(bs[1..], BlankLine);
      assert Join(bs, BlankLine) == bs[0] + BlankLine + rest;
      SplitAfterBlock(bs[0], rest);
      SplitJoinBlocks(bs[1..]);
      assert [bs[0]] + bs[1..] == bs;
    }
  }

  /** A document with nothing in it has no blocks. */
  lemma NoBlocks()
    ensures MarkdownToBlocks("") == []
  {
    SplitSingle("", BlankLine);
    assert StripEach([""]) == [Strip("")];
    assert NonEmpty([""]) == NonEmpty([]);
  }

  /** Stripping blocks that have no whitespace at either end changes none of them. */
  lemma StripEachStripped(bs: seq<string>)
    requires forall k :: 0 <= k < |bs| ==> IsStripped(bs[k])
    ensures StripEach(bs) == bs
  {
    forall k | 0 <= k < |bs|
      ensures Strip(bs[k]) == bs[k]
    {
      StripStripped(bs[k]);
    }
  }

  /** Re-segmenting well-formed blocks joined with blank lines returns the same list. */
  lemma Resegment(bs: seq<string>)
    requires forall k :: 0 <= k < |bs| ==> WellFormedBlock(bs[k])
    ensures MarkdownToBlocks(Join(bs, BlankLine)) == bs
  {
    if bs == [] {
      NoBlocks();
    } else {
      SplitJoinBlocks(bs);
      StripEachStripped(bs);
      assert NonEmpty(bs) == bs;
    }
  }

  /** Segmenting is idempotent: joining the blocks of a text and segmenting again gives the same blocks. */
  lemma SegmentTwice(text: string)
    ensures MarkdownToBlocks(Join(MarkdownToBlocks(text), BlankLine)) == MarkdownToBlocks(text)
  {
    Resegment(MarkdownToBlocks(text));
  }
}
