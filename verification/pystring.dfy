/**
 * The Python `str` operations the converter relies on: `in`, `split(sep)`,
 * `split(sep, 1)` and `strip()`. `Find` (the leftmost occurrence) is the helper
 * both splits are defined with, and `Join` is the reference definition that
 * `SplitJoin` checks `split` against; the converter calls neither.
 */
module PyString {
  import opened Wrappers

  /** `sep` occurs in `s` starting at index `i`. */
  predicate OccursAt(s: string, sep: string, i: int) {
    0 <= i && i + |sep| <= |s| && s[i..i + |sep|] == sep
  }

  /** Python's `sep in s`. */
  predicate Contains(s: string, sep: string) {
    exists i | 0 <= i <= |s| - |sep| :: OccursAt(s, sep, i)
  }

  /** Python's `s.find(sep, start)`: the leftmost occurrence at or after `start`. */
  function Find(s: string, sep: string, start: nat): (r: Option<nat>)
    decreases |s| - start
    ensures r.Some? ==> start <= r.value && OccursAt(s, sep, r.value)
    ensures r.Some? ==> forall j :: start <= j < r.value ==> !OccursAt(s, sep, j)
    ensures r.None? ==> forall j :: start <= j ==> !OccursAt(s, sep, j)
  {
    if start + |sep| > |s| then None
    else if s[start..start + |sep|] == sep then Some(start)
    else Find(s, sep, start + 1)
  }

  /** `sep in s` holds exactly when `s.find(sep)` finds an occurrence. */
  lemma ContainsFind(s: string, sep: string)
    ensures Contains(s, sep) <==> Find(s, sep, 0).Some?
  {
    var r := Find(s, sep, 0);
    if Contains(s, sep) {
      var i :| 0 <= i <= |s| - |sep| && OccursAt(s, sep, i);
      assert r.None? ==> !OccursAt(s, sep, i);
    }
    if r.Some? {
      assert OccursAt(s, sep, r.value);
    }
  }

  /** Python's `sep.join(parts)`. */
  function Join(parts: seq<string>, sep: string): string {
    if parts == [] then ""
    else if |parts| == 1 then parts[0]
    else parts[0] + sep + Join(parts[1..], sep)
  }

  /**
   * Python's `s.split(sep)` for a non-empty separator: cut at every occurrence,
   * left to right and without overlap, so `n` cuts give `n + 1` pieces.
   */
  function Split(s: string, sep: string): (parts: seq<string>)
    requires sep != ""
    decreases |s|
    ensures |parts| >= 1
  {
    match Find(s, sep, 0)
    case None => [s]
    case Some(i) => [s[..i]] + Split(s[i + |sep|..], sep)
  }

  /** Joining the pieces of a split with the separator gives the string back. */
  lemma {:induction false} SplitJoin(s: string, sep: string)
    requires sep != ""
    decreases |s|
    ensures Join(Split(s, sep), sep) == s
  {
    match Find(s, sep, 0)
    case None =>
    case Some(i) =>
      var rest := s[i + |sep|..];
      var parts, tail := Split(s, sep), Split(rest, sep);
      assert parts == [s[..i]] + tail;
      assert parts[0] == s[..i] && parts[1..] == tail;
      assert Join(parts, sep) == s[..i] + sep + Join(tail, sep);
      SplitJoin(rest, sep);
      CutAround(s, sep, i);
  }

  /** A string is the text before an occurrence, the occurrence, and the text after it. */
  lemma CutAround(s: string, sep: string, i: nat)
    requires OccursAt(s, sep, i)
    ensures s == s[..i] + sep + s[i + |sep|..]
  {
    assert s == s[..i] + s[i..i + |sep|] + s[i + |sep|..];
  }

  /** No piece of a split contains the separator. */
  lemma {:induction false} SplitPiecesFree(s: string, sep: string)
    requires sep != ""
    decreases |s|
    ensures forall k :: 0 <= k < |Split(s, sep)| ==> !Contains(Split(s, sep)[k], sep)
  {
    match Find(s, sep, 0)
    case None =>
      assert !Contains(s, sep);
    case Some(i) =>
      var rest := s[i + |sep|..];
      SplitPiecesFree(rest, sep);
      PrefixFree(s, sep, i);
      assert forall k :: 1 <= k < |Split(s, sep)| ==> Split(s, sep)[k] == Split(rest, sep)[k - 1];
  }

  /** A split has a single piece, the string itself, exactly when the separator does not occur. */
  lemma SplitSingle(s: string, sep: string)
    requires sep != ""
    ensures |Split(s, sep)| == 1 <==> !Contains(s, sep)
    ensures !Contains(s, sep) ==> Split(s, sep) == [s]
  {
    if Contains(s, sep) {
      var j :| 0 <= j <= |s| - |sep| && OccursAt(s, sep, j);
      assert Find(s, sep, 0).Some?;
    }
  }

  /**
   * Python's `s.split(sep, 1)`: the text before the leftmost occurrence and the
   * text after it, or just `[s]` when `sep` does not occur.
   */
  function SplitOnce(s: string, sep: string): (parts: seq<string>)
    requires sep != ""
    ensures |parts| == 1 || |parts| == 2
    ensures |parts| == 1 <==> !Contains(s, sep)
    ensures |parts| == 1 ==> parts[0] == s
    ensures |parts| == 2 ==> parts[0] + sep + parts[1] == s
    ensures |parts| == 2 ==> forall j :: 0 <= j < |parts[0]| ==> !OccursAt(s, sep, j)
  {
    match Find(s, sep, 0)
    case None => [s]
    case Some(i) =>
      assert s == s[..i] + sep + s[i + |sep|..];
      [s[..i], s[i + |sep|..]]
  }

  /**
   * The whitespace `str.strip()` removes: the characters `str.isspace()` accepts,
   * which are `\t` to `\r`, the four separators `\x1c` to `\x1f`, the space,
   * and the Unicode spaces and line and paragraph separators.
   */
  predicate IsSpace(c: char) {
    || '\t' <= c <= '\r'
    || '\U{001C}' <= c <= '\U{001F}'
    || c == ' ' || c == '\U{0085}' || c == '\U{00A0}' || c == '\U{1680}'
    || '\U{2000}' <= c <= '\U{200A}'
    || c == '\U{2028}' || c == '\U{2029}' || c == '\U{202F}' || c == '\U{205F}' || c == '\U{3000}'
  }

  /** A string with no whitespace at either end (the empty string included). */
  predicate IsStripped(s: string) {
    s == "" || (!IsSpace(s[0]) && !IsSpace(s[|s| - 1]))
  }

  /** The first index at or after `i` that is not whitespace, or `|s|`. */
  function SkipSpace(s: string, i: nat): (j: nat)
    requires i <= |s|
    decreases |s| - i
    ensures i <= j <= |s|
    ensures forall k :: i <= k < j ==> IsSpace(s[k])
    ensures j < |s| ==> !IsSpace(s[j])
  {
    if i == |s| || !IsSpace(s[i]) then i else SkipSpace(s, i + 1)
  }

  /** The index just past the last non-whitespace character before `j`, going no lower than `lo`. */
  function BackSpace(s: string, lo: nat, j: nat): (k: nat)
    requires lo <= j <= |s|
    decreases j
    ensures lo <= k <= j
    ensures forall m :: k <= m < j ==> IsSpace(s[m])
    ensures lo < k ==> !IsSpace(s[k - 1])
  {
    if j == lo || !IsSpace(s[j - 1]) then j else BackSpace(s, lo, j - 1)
  }

  /**
   * Python's `s.strip()`: drop leading and trailing whitespace. The result is a
   * slice of `s` with only whitespace outside it; it is empty exactly when `s`
   * is all whitespace, and otherwise starts and ends with a non-whitespace
   * character. `StripUnique` shows these clauses determine the result.
   */
  function Strip(s: string): (r: string)
    ensures |r| <= |s|
    ensures IsStripped(r)
    ensures r == "" <==> forall k :: 0 <= k < |s| ==> IsSpace(s[k])
    ensures exists i, j ::
      && 0 <= i <= j <= |s| && r == s[i..j]
      && (forall k :: 0 <= k < i ==> IsSpace(s[k]))
      && (forall k :: j <= k < |s| ==> IsSpace(s[k]))
  {
    var i := SkipSpace(s, 0);
    s[i..BackSpace(s, i, |s|)]
  }

  /**
   * Only one slice fits that description: a stripped slice with nothing but
   * whitespace outside it is the strip of the string.
   */
  lemma StripUnique(s: string, i: nat, j: nat)
    requires i <= j <= |s| && IsStripped(s[i..j])
    requires forall k :: 0 <= k < i ==> IsSpace(s[k])
    requires forall k :: j <= k < |s| ==> IsSpace(s[k])
    ensures Strip(s) == s[i..j]
  {
  }

  /** An occurrence inside a slice is an occurrence in the whole string. */
  lemma OccursInSlice(s: string, a: nat, b: nat, sep: string, j: int)
    requires a <= b <= |s|
    requires OccursAt(s[a..b], sep, j)
    ensures OccursAt(s, sep, a + j)
  {
    var u, v := s[a..b][j..j + |sep|], s[a + j..a + j + |sep|];
    assert |u| == |v|;
    assert forall k :: 0 <= k < |u| ==> u[k] == v[k];
    assert u == v;
  }

  /** A slice of a string free of `sep` is free of `sep`. */
  lemma SliceFree(s: string, a: nat, b: nat, sep: string)
    requires a <= b <= |s|
    requires !Contains(s, sep)
    ensures !Contains(s[a..b], sep)
  {
    if Contains(s[a..b], sep) {
      var j :| OccursAt(s[a..b], sep, j);
      OccursInSlice(s, a, b, sep, j);
    }
  }

  /** The text before the leftmost occurrence of `sep` does not contain `sep`. */
  lemma PrefixFree(s: string, sep: string, i: nat)
    requires sep != "" && i <= |s|
    requires forall j :: 0 <= j < i ==> !OccursAt(s, sep, j)
    ensures !Contains(s[..i], sep)
  {
    if Contains(s[..i], sep) {
      var j :| OccursAt(s[..i], sep, j);
      assert s[..i] == s[0..i];
      OccursInSlice(s, 0, i, sep, j);
    }
  }

  /** Stripping a string that is free of `sep` leaves it free of `sep`. */
  lemma StripFree(s: string, sep: string)
    requires !Contains(s, sep)
    ensures !Contains(Strip(s), sep)
  {
    var i := SkipSpace(s, 0);
    SliceFree(s, i, BackSpace(s, i, |s|), sep);
  }

  /** A string that is already stripped is its own strip. */
  lemma StripStripped(s: string)
    requires IsStripped(s)
    ensures Strip(s) == s
  {
    if s != "" {
      assert SkipSpace(s, 0) == 0;
      assert BackSpace(s, 0, |s|) == |s|;
      assert s[0..|s|] == s;
    }
  }

  /** The leftmost occurrence is found once the text before it is known to hold none. */
  lemma FindAt(s: string, sep: string, i: nat)
    requires OccursAt(s, sep, i)
    requires forall j :: 0 <= j < i ==> !OccursAt(s, sep, j)
    ensures Find(s, sep, 0) == Some(i)
  {
  }
}
