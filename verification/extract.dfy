/**
 * `extract_markdown_images` and `extract_markdown_links`: `re.findall` over the
 * two fixed patterns `!\[([^\[\]]*)\]\(([^\(\)]*)\)` and
 * `(?<!!)\[([^\[\]]*)\]\(([^\(\)]*)\)`, written out as left-to-right scanners.
 *
 * Neither pattern ever backtracks usefully: a label is a run of characters other
 * than `[` and `]`, so the only place it can end is the first `[` or `]`, which
 * must be a `]` followed by `(`; a target likewise ends at the first `(` or `)`,
 * which must be `)`. The match at a position is therefore unique.
 */
module Extract {
  import opened Wrappers
  import opened PyString

  datatype Pattern = ImagePattern | LinkPattern

  /** One match: where it starts and ends in the text, and its two groups. */
  datatype Match = Match(start: nat, end: nat, text: string, url: string)

  /** `[text](url)`: the part both patterns share. */
  function Bracketed(text: string, url: string): string {
    "[" + text + "](" + url + ")"
  }

  /** The Markdown a pattern matches for a given label (`text`) and target (`url`). */
  function Literal(pat: Pattern, text: string, url: string): string {
    if pat == ImagePattern then "!" + Bracketed(text, url) else Bracketed(text, url)
  }

  /** A label may hold neither `[` nor `]`. */
  predicate LabelChars(l: string) {
    forall k :: 0 <= k < |l| ==> l[k] != '[' && l[k] != ']'
  }

  /** A target may hold neither `(` nor `)`. */
  predicate TargetChars(t: string) {
    forall k :: 0 <= k < |t| ==> t[k] != '(' && t[k] != ')'
  }

  /** The end of the longest run starting at `i` of characters other than `a` and `b`. */
  function Run(s: string, i: nat, a: char, b: char): (j: nat)
    requires i <= |s|
    decreases |s| - i
    ensures i <= j <= |s|
    ensures forall k :: i <= k < j ==> s[k] != a && s[k] != b
    ensures j < |s| ==> s[j] == a || s[j] == b
  {
    if i == |s| || s[i] == a || s[i] == b then i else Run(s, i + 1, a, b)
  }

  /** The link pattern's `(?<!!)`: the `[` at `p` is not preceded by `!`. */
  predicate NotAfterBang(s: string, p: nat)
    requires p <= |s|
  {
    p == 0 || s[p - 1] != '!'
  }

  /**
   * The shared tail of both patterns, tried with its `[` at `o` for a match
   * starting at `p`: the label runs to the first bracket, which must be `]`
   * followed by `(`; the target runs to the first parenthesis, which must be `)`.
   */
  function MatchFrom(s: string, p: nat, o: nat): (r: Option<Match>)
    requires p <= o <= |s|
    ensures r.Some? ==> r.value.start == p && o < r.value.end <= |s|
  {
    if !(o < |s| && s[o] == '[') then None
    else
      var q := Run(s, o + 1, '[', ']');
      if !(q + 1 < |s| && s[q] == ']' && s[q + 1] == '(') then None
      else
        var t := Run(s, q + 2, '(', ')');
        if !(t < |s| && s[t] == ')') then None
        else Some(Match(p, t + 1, s[o + 1..q], s[q + 2..t]))
  }

  /** Whether the pattern matches at position `p`, and if so with which groups. */
  function MatchAt(s: string, pat: Pattern, p: nat): (r: Option<Match>)
    requires p <= |s|
    ensures r.Some? ==> r.value.start == p && p < r.value.end <= |s|
  {
    match pat
    case ImagePattern => if p < |s| && s[p] == '!' then MatchFrom(s, p, p + 1) else None
    case LinkPattern => if NotAfterBang(s, p) then MatchFrom(s, p, p) else None
  }

  /** A match of the shared tail spells out `[text](url)` from `o` with legal groups. */
  lemma MatchFromSound(s: string, p: nat, o: nat)
    requires p <= o <= |s| && MatchFrom(s, p, o).Some?
    ensures var m := MatchFrom(s, p, o).value;
      && s[o..m.end] == Bracketed(m.text, m.url)
      && LabelChars(m.text) && TargetChars(m.url)
  {
    var q := Run(s, o + 1, '[', ']');
    var t := Run(s, q + 2, '(', ')');
    RunLabel(s, o + 1);
    RunTarget(s, q + 2);
    SpellBracketed(s, o, q, t);
  }

  /** The characters between four punctuation marks make up `[label](target)`. */
  lemma SpellBracketed(s: string, o: nat, q: nat, t: nat)
    requires o < q && q + 2 <= t < |s|
    requires s[o] == '[' && s[q] == ']' && s[q + 1] == '(' && s[t] == ')'
    ensures s[o..t + 1] == Bracketed(s[o + 1..q], s[q + 2..t])
  {
    assert s[o..o + 1] == "[";
    assert s[q..q + 2] == "](";
    assert s[t..t + 1] == ")";
    SliceFive(s, o, o + 1, q, q + 2, t, t + 1);
  }

  /** A run that stops at brackets is a legal label. */
  lemma RunLabel(s: string, i: nat)
    requires i <= |s|
    ensures LabelChars(s[i..Run(s, i, '[', ']')])
  {
    var j := Run(s, i, '[', ']');
    forall k | 0 <= k < j - i
      ensures s[i..j][k] != '[' && s[i..j][k] != ']'
    {
      assert s[i..j][k] == s[i + k];
    }
  }

  /** A run that stops at parentheses is a legal target. */
  lemma RunTarget(s: string, i: nat)
    requires i <= |s|
    ensures TargetChars(s[i..Run(s, i, '(', ')')])
  {
    var j := Run(s, i, '(', ')');
    forall k | 0 <= k < j - i
      ensures s[i..j][k] != '(' && s[i..j][k] != ')'
    {
      assert s[i..j][k] == s[i + k];
    }
  }

  /**
   * A match is exactly the literal for its groups, spelled out in the text at
   * its position, with a label free of brackets and a target free of
   * parentheses; a link match never follows a `!`.
   */
  lemma MatchSound(s: string, pat: Pattern, p: nat)
    requires p <= |s| && MatchAt(s, pat, p).Some?
    ensures var m := MatchAt(s, pat, p).value;
      && m.end == p + |Literal(pat, m.text, m.url)|
      && s[p..m.end] == Literal(pat, m.text, m.url)
      && LabelChars(m.text) && TargetChars(m.url)
      && (pat == LinkPattern ==> NotAfterBang(s, p))
  {
    var m := MatchAt(s, pat, p).value;
    match pat
    case ImagePattern =>
      MatchFromSound(s, p, p + 1);
      SliceSplit(s, p, p + 1, m.end);
      assert s[p..p + 1] == "!";
    case LinkPattern =>
      MatchFromSound(s, p, p);
  }

  /** A slice cut at four inner points. */
  lemma SliceFive(s: string, a: nat, b: nat, c: nat, d: nat, e: nat, f: nat)
    requires a <= b <= c <= d <= e <= f <= |s|
    ensures s[a..f] == s[a..b] + s[b..c] + s[c..d] + s[d..e] + s[e..f]
  {
    SliceSplit(s, a, b, f);
    SliceSplit(s, b, c, f);
    SliceSplit(s, c, d, f);
    SliceSplit(s, d, e, f);
  }

  /** A slice is the concatenation of its two halves. */
  lemma SliceSplit(s: string, a: nat, b: nat, c: nat)
    requires a <= b <= c <= |s|
    ensures s[a..c] == s[a..b] + s[b..c]
  {
  }

  /** Wherever `[text](url)` with legal groups is spelled out from `o`, the shared tail matches it. */
  lemma MatchFromComplete(s: string, p: nat, o: nat, text: string, url: string)
    requires LabelChars(text) && TargetChars(url)
    requires p <= o && o + |Bracketed(text, url)| <= |s|
    requires s[o..o + |Bracketed(text, url)|] == Bracketed(text, url)
    ensures MatchFrom(s, p, o) == Some(Match(p, o + |Bracketed(text, url)|, text, url))
  {
    var q, t := o + 1 + |text|, o + 1 + |text| + 2 + |url|;
    assert |Bracketed(text, url)| == t + 1 - o;
    ReadBracketed(s, o, q, t, text, url);
    RunToLabelEnd(s, o + 1, q);
    RunToTargetEnd(s, q + 2, t);
    MatchFromAt(s, p, o, q, t);
  }

  /** Where both runs stop at the right punctuation, the shared tail matches up to the `)`. */
  lemma MatchFromAt(s: string, p: nat, o: nat, q: nat, t: nat)
    requires p <= o < q && q + 2 <= t < |s|
    requires s[o] == '[' && s[q] == ']' && s[q + 1] == '(' && s[t] == ')'
    requires Run(s, o + 1, '[', ']') == q && Run(s, q + 2, '(', ')') == t
    ensures MatchFrom(s, p, o) == Some(Match(p, t + 1, s[o + 1..q], s[q + 2..t]))
  {
  }

  /** Reading `[text](url)` spelled out from `o`: where its punctuation stands and what lies between. */
  lemma ReadBracketed(s: string, o: nat, q: nat, t: nat, text: string, url: string)
    requires q == o + 1 + |text| && t == q + 2 + |url| && t < |s|
    requires s[o..t + 1] == Bracketed(text, url)
    ensures s[o] == '[' && s[q] == ']' && s[q + 1] == '(' && s[t] == ')'
    ensures s[o + 1..q] == text && s[q + 2..t] == url
  {
    SliceFive(s, o, o + 1, q, q + 2, t, t + 1);
    ConcatFive(s[o..o + 1], s[o + 1..q], s[q..q + 2], s[q + 2..t], s[t..t + 1], "[", text, "](", url, ")");
    assert s[o] == s[o..o + 1][0];
    assert s[q] == s[q..q + 2][0] && s[q + 1] == s[q..q + 2][1];
    assert s[t] == s[t..t + 1][0];
  }

  /** A label run starting at `i` ends at the bracket right after a legal label. */
  lemma RunToLabelEnd(s: string, i: nat, j: nat)
    requires i <= j < |s| && LabelChars(s[i..j]) && s[j] == ']'
    ensures Run(s, i, '[', ']') == j
  {
    forall k | i <= k < j
      ensures s[k] != '[' && s[k] != ']'
    {
      assert s[k] == s[i..j][k - i];
    }
    RunStops(s, i, j, '[', ']');
  }

  /** A target run starting at `i` ends at the parenthesis right after a legal target. */
  lemma RunToTargetEnd(s: string, i: nat, j: nat)
    requires i <= j < |s| && TargetChars(s[i..j]) && s[j] == ')'
    ensures Run(s, i, '(', ')') == j
  {
    forall k | i <= k < j
      ensures s[k] != '(' && s[k] != ')'
    {
      assert s[k] == s[i..j][k - i];
    }
    RunStops(s, i, j, '(', ')');
  }

  /** Two five-piece concatenations with pieces of equal lengths agree piece by piece. */
  lemma ConcatFive(a: string, b: string, c: string, d: string, e: string,
                   a': string, b': string, c': string, d': string, e': string)
    requires |a| == |a'| && |b| == |b'| && |c| == |c'| && |d| == |d'|
    requires a + b + c + d + e == a' + b' + c' + d' + e'
    ensures a == a' && b == b' && c == c' && d == d' && e == e'
  {
    var x, y := a + b + c + d + e, a' + b' + c' + d' + e';
    assert a == x[..|a|] == y[..|a|] == a';
    assert b == x[|a|..|a| + |b|] == y[|a|..|a| + |b|] == b';
    assert c == x[|a| + |b|..|a| + |b| + |c|] == y[|a| + |b|..|a| + |b| + |c|] == c';
    assert d == x[|a| + |b| + |c|..|a| + |b| + |c| + |d|] == y[|a| + |b| + |c|..|a| + |b| + |c| + |d|] == d';
    assert e == x[|a| + |b| + |c| + |d|..] == y[|a| + |b| + |c| + |d|..] == e';
  }

  /**
   * Wherever the literal for a bracket-free label and a parenthesis-free target
   * is spelled out (and, for a link, does not follow a `!`), the pattern
   * matches there with exactly those groups.
   */
  lemma MatchComplete(s: string, pat: Pattern, p: nat, text: string, url: string)
    requires LabelChars(text) && TargetChars(url)
    requires p + |Literal(pat, text, url)| <= |s|
    requires s[p..p + |Literal(pat, text, url)|] == Literal(pat, text, url)
    requires pat == LinkPattern ==> NotAfterBang(s, p)
    ensures MatchAt(s, pat, p) == Some(Match(p, p + |Literal(pat, text, url)|, text, url))
  {
    var br := Bracketed(text, url);
    match pat
    case ImagePattern =>
      var e := p + 1 + |br|;
      SliceSplit(s, p, p + 1, e);
      assert s[p..e] == "!" + br;
      assert s[p..p + 1] == "!" && s[p + 1..e] == br;
      assert s[p] == s[p..p + 1][0];
      MatchFromComplete(s, p, p + 1, text, url);
    case LinkPattern =>
      MatchFromComplete(s, p, p, text, url);
  }

  /** A run ends at the first stop character. */
  lemma {:induction false} RunStops(s: string, i: nat, j: nat, a: char, b: char)
    requires i <= j < |s|
    requires forall k :: i <= k < j ==> s[k] != a && s[k] != b
    requires s[j] == a || s[j] == b
    ensures Run(s, i, a, b) == j
    decreases j - i
  {
    if i < j {
      RunStops(s, i + 1, j, a, b);
    }
  }

  /**
   * `re.findall` from position `p`: try the pattern at each position in turn,
   * and after a match resume at its end.
   */
  function Scan(s: string, pat: Pattern, p: nat): (r: seq<Match>)
    requires p <= |s|
    decreases |s| - p
    ensures forall i :: 0 <= i < |r| ==> p <= r[i].start < r[i].end <= |s|
  {
    if p == |s| then []
    else match MatchAt(s, pat, p)
      case None => Scan(s, pat, p + 1)
      case Some(m) => [m] + Scan(s, pat, m.end)
  }

  /** Position `q` lies inside one of the matches. */
  predicate Covered(ms: seq<Match>, q: nat) {
    exists i :: 0 <= i < |ms| && ms[i].start <= q < ms[i].end
  }

  /** Every listed match really occurs, at or after `p`. */
  predicate Genuine(s: string, pat: Pattern, p: nat, ms: seq<Match>)
    requires p <= |s|
  {
    forall i :: 0 <= i < |ms| ==> p <= ms[i].start <= |s| && MatchAt(s, pat, ms[i].start) == Some(ms[i])
  }

  /** The matches are listed left to right and do not overlap. */
  predicate Ordered(ms: seq<Match>) {
    forall i, j :: 0 <= i < j < |ms| ==> ms[i].end <= ms[j].start
  }

  /** Every position at or after `p` where the pattern matches lies inside a listed match. */
  predicate Complete(s: string, pat: Pattern, p: nat, ms: seq<Match>)
    requires p <= |s|
  {
    forall q {:trigger Covered(ms, q)} :: p <= q <= |s| && MatchAt(s, pat, q).Some? ==> Covered(ms, q)
  }

  /**
   * What `findall` from `p` returns, stated without the scan: matches that
   * really occur, in order and without overlap, and no position outside them
   * where the pattern matches.
   */
  predicate IsFindall(s: string, pat: Pattern, p: nat, ms: seq<Match>)
    requires p <= |s|
  {
    Genuine(s, pat, p, ms) && Ordered(ms) && Complete(s, pat, p, ms)
  }

  /** The scan is `findall`: it meets the description above. */
  lemma {:induction false} ScanIsFindall(s: string, pat: Pattern, p: nat)
    requires p <= |s|
    decreases |s| - p
    ensures IsFindall(s, pat, p, Scan(s, pat, p))
  {
    if p == |s| {
      assert MatchAt(s, pat, p).None?;
    } else {
      match MatchAt(s, pat, p)
      case None =>
        ScanIsFindall(s, pat, p + 1);
        SkipFindall(s, pat, p, Scan(s, pat, p + 1));
      case Some(m) =>
        ScanIsFindall(s, pat, m.end);
        ConsFindall(s, pat, p, m, Scan(s, pat, m.end));
    }
  }

  /** Where nothing matches at `p`, findall from `p` is findall from `p + 1`. */
  lemma SkipFindall(s: string, pat: Pattern, p: nat, ms: seq<Match>)
    requires p < |s| && MatchAt(s, pat, p).None?
    requires IsFindall(s, pat, p + 1, ms)
    ensures IsFindall(s, pat, p, ms)
  {
    assert Complete(s, pat, p, ms) by {
      forall q | p <= q <= |s| && MatchAt(s, pat, q).Some?
        ensures Covered(ms, q)
      {
        assert q != p;
      }
    }
  }

  /** Where `m` matches at `p`, findall from `p` is `m` followed by findall from its end. */
  lemma ConsFindall(s: string, pat: Pattern, p: nat, m: Match, rest: seq<Match>)
    requires p <= |s| && MatchAt(s, pat, p) == Some(m)
    requires m.end <= |s| && IsFindall(s, pat, m.end, rest)
    ensures IsFindall(s, pat, p, [m] + rest)
  {
    ConsGenuine(s, pat, p, m, rest);
    ConsOrdered(s, pat, m, rest);
    ConsComplete(s, pat, p, m, rest);
  }

  /** A match at `p` followed by genuine matches from its end are genuine matches from `p`. */
  lemma ConsGenuine(s: string, pat: Pattern, p: nat, m: Match, rest: seq<Match>)
    requires p <= |s| && MatchAt(s, pat, p) == Some(m)
    requires m.end <= |s| && Genuine(s, pat, m.end, rest)
    ensures Genuine(s, pat, p, [m] + rest)
  {
    var ms := [m] + rest;
    forall i | 0 <= i < |ms|
      ensures p <= ms[i].start <= |s| && MatchAt(s, pat, ms[i].start) == Some(ms[i])
    {
      if i > 0 {
        assert ms[i] == rest[i - 1];
      }
    }
  }

  /** A match ahead of ordered matches that all start after its end keeps them ordered. */
  lemma ConsOrdered(s: string, pat: Pattern, m: Match, rest: seq<Match>)
    requires m.end <= |s| && Genuine(s, pat, m.end, rest) && Ordered(rest)
    ensures Ordered([m] + rest)
  {
    var ms := [m] + rest;
    forall i, j | 0 <= i < j < |ms|
      ensures ms[i].end <= ms[j].start
    {
      assert ms[j] == rest[j - 1];
      if i > 0 {
        assert ms[i] == rest[i - 1];
      }
    }
  }

  /** The match at `p` covers what lies before its end; the rest of the list covers the remainder. */
  lemma ConsComplete(s: string, pat: Pattern, p: nat, m: Match, rest: seq<Match>)
    requires p <= |s| && MatchAt(s, pat, p) == Some(m)
    requires m.end <= |s| && Complete(s, pat, m.end, rest)
    ensures Complete(s, pat, p, [m] + rest)
  {
    var ms := [m] + rest;
    forall q | p <= q <= |s| && MatchAt(s, pat, q).Some?
      ensures Covered(ms, q)
    {
      if q < m.end {
        assert ms[0].start <= q < ms[0].end;
      } else {
        assert Covered(rest, q);
        var i :| 0 <= i < |rest| && rest[i].start <= q < rest[i].end;
        assert ms[i + 1] == rest[i];
      }
    }
  }

  /** `findall` has one answer: any two lists meeting the description are equal. */
  lemma {:induction false} FindallUnique(s: string, pat: Pattern, p: nat, ms: seq<Match>, ns: seq<Match>)
    requires p <= |s|
    requires IsFindall(s, pat, p, ms) && IsFindall(s, pat, p, ns)
    decreases |s| - p, |ms|
    ensures ms == ns
  {
    if ms == [] || ns == [] {
      if ms != [] {
        NotCovered(s, pat, p, ns, ms[0].start);
      } else if ns != [] {
        NotCovered(s, pat, p, ms, ns[0].start);
      }
    } else {
      FirstAgrees(s, pat, p, ms, ns);
      FirstAgrees(s, pat, p, ns, ms);
      var m := ms[0];
      assert m == ns[0];
      AfterFirst(s, pat, p, ms);
      AfterFirst(s, pat, p, ns);
      FindallUnique(s, pat, m.end, ms[1..], ns[1..]);
      assert ms == [m] + ms[1..] && ns == [m] + ns[1..];
    }
  }

  /** A findall list that covers nothing cannot sit beside a match at or after `p`. */
  lemma NotCovered(s: string, pat: Pattern, p: nat, ms: seq<Match>, q: nat)
    requires p <= q <= |s|
    requires IsFindall(s, pat, p, ms) && ms == []
    ensures MatchAt(s, pat, q).None?
  {
    assert !Covered(ms, q);
  }

  /** Two findall lists cannot start at different places: the earlier first match would go uncovered. */
  lemma FirstAgrees(s: string, pat: Pattern, p: nat, ms: seq<Match>, ns: seq<Match>)
    requires p <= |s|
    requires IsFindall(s, pat, p, ms) && IsFindall(s, pat, p, ns)
    requires ms != [] && ns != []
    ensures ns[0].start <= ms[0].start
  {
    var q := ms[0].start;
    assert MatchAt(s, pat, q).Some?;
    assert Covered(ns, q);
    var j :| 0 <= j < |ns| && ns[j].start <= q < ns[j].end;
    if j > 0 {
      assert ns[0].end <= ns[j].start;
    }
  }

  /** Dropping the first match of a findall list leaves the findall list from its end. */
  lemma AfterFirst(s: string, pat: Pattern, p: nat, ms: seq<Match>)
    requires p <= |s|
    requires IsFindall(s, pat, p, ms) && ms != []
    ensures ms[0].end <= |s| && IsFindall(s, pat, ms[0].end, ms[1..])
  {
    var m, rest := ms[0], ms[1..];
    assert MatchAt(s, pat, m.start) == Some(m);
    assert forall i :: 0 <= i < |rest| ==> rest[i] == ms[i + 1];
    assert Genuine(s, pat, m.end, rest) by {
      forall i | 0 <= i < |rest|
        ensures m.end <= rest[i].start
      {
        assert ms[0].end <= ms[i + 1].start;
      }
    }
    assert Complete(s, pat, m.end, rest) by {
      forall q | m.end <= q <= |s| && MatchAt(s, pat, q).Some?
        ensures Covered(rest, q)
      {
        assert Covered(ms, q);
        var i :| 0 <= i < |ms| && ms[i].start <= q < ms[i].end;
        assert i != 0;
        assert rest[i - 1] == ms[i];
      }
    }
  }

  /** The groups of each match, as `findall` returns them for a two-group pattern. */
  function Pairs(ms: seq<Match>): (r: seq<(string, string)>)
    ensures |r| == |ms|
    ensures forall i :: 0 <= i < |ms| ==> r[i] == (ms[i].text, ms[i].url)
  {
    if ms == [] then [] else [(ms[0].text, ms[0].url)] + Pairs(ms[1..])
  }

  /** The pairs of a non-empty list: the first match's groups, then the pairs of the rest. */
  lemma PairsCons(ms: seq<Match>)
    requires ms != []
    ensures Pairs(ms)[0] == (ms[0].text, ms[0].url) && Pairs(ms)[1..] == Pairs(ms[1..])
  {
  }

  /**
   * `extract_markdown_images(text)`: the (alt text, url) pair of every match,
   * in order. Each pair has a bracket-free label and a parenthesis-free
   * target, and its `![alt](url)` occurs in the text.
   */
  function ExtractMarkdownImages(text: string): (r: seq<(string, string)>)
    ensures forall i :: 0 <= i < |r| ==>
      && LabelChars(r[i].0) && TargetChars(r[i].1)
      && Contains(text, Literal(ImagePattern, r[i].0, r[i].1))
  {
    var prs := Pairs(Scan(text, ImagePattern, 0));
    ExtractedAll(text, ImagePattern, prs);
    prs
  }

  /**
   * `extract_markdown_links(text)`: the (text, url) pair of every match, in
   * order. Each pair has a bracket-free label and a parenthesis-free target,
   * and its `[text](url)` occurs in the text.
   */
  function ExtractMarkdownLinks(text: string): (r: seq<(string, string)>)
    ensures forall i :: 0 <= i < |r| ==>
      && LabelChars(r[i].0) && TargetChars(r[i].1)
      && Contains(text, Literal(LinkPattern, r[i].0, r[i].1))
  {
    var prs := Pairs(Scan(text, LinkPattern, 0));
    ExtractedAll(text, LinkPattern, prs);
    prs
  }

  /** `ExtractedOccur` for every extracted pair at once. */
  lemma ExtractedAll(text: string, pat: Pattern, prs: seq<(string, string)>)
    requires prs == Pairs(Scan(text, pat, 0))
    ensures forall i :: 0 <= i < |prs| ==>
      && LabelChars(prs[i].0) && TargetChars(prs[i].1)
      && Contains(text, Literal(pat, prs[i].0, prs[i].1))
  {
    forall i | 0 <= i < |prs|
      ensures LabelChars(prs[i].0) && TargetChars(prs[i].1) && Contains(text, Literal(pat, prs[i].0, prs[i].1))
    {
      ExtractedOccur(text, pat, i);
    }
  }

  /** Every extracted pair has a legal label and target, and its Markdown occurs in the text. */
  lemma ExtractedOccur(text: string, pat: Pattern, i: nat)
    requires i < |Pairs(Scan(text, pat, 0))|
    ensures var pr := Pairs(Scan(text, pat, 0))[i];
      && LabelChars(pr.0) && TargetChars(pr.1)
      && Contains(text, Literal(pat, pr.0, pr.1))
  {
    var ms := Scan(text, pat, 0);
    ScanIsFindall(text, pat, 0);
    var m := ms[i];
    assert MatchAt(text, pat, m.start) == Some(m);
    MatchSound(text, pat, m.start);
    assert OccursAt(text, Literal(pat, m.text, m.url), m.start);
  }

  /** A text without `[` holds no match of either pattern. */
  lemma {:induction false} NoBracketNoMatch(s: string, pat: Pattern, p: nat)
    requires p <= |s|
    requires forall k :: p <= k < |s| ==> s[k] != '['
    decreases |s| - p
    ensures Scan(s, pat, p) == []
  {
    if p < |s| {
      assert MatchAt(s, pat, p).None?;
      NoBracketNoMatch(s, pat, p + 1);
    }
  }
}
