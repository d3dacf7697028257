/**
 * Searching and splitting byte strings, as the publisher uses Go's `bytes` and `strings`
 * packages: the first occurrence of a character or of a separator, `bytes.SplitN(s, sep, 2)`
 * and `bytes.Split(s, sep)`. A `char` here stands for one byte of the Go string.
 */
module Text {
  import opened Wrappers

  /** `s` begins with `p`. */
  predicate StartsWith(s: string, p: string) {
    |p| <= |s| && s[..|p|] == p
  }

  /** Index of the first `c` in `s`: how far a regular-expression run `[^c]*` extends. */
  function IndexOfChar(s: string, c: char): (r: Option<nat>)
    ensures r.Some? ==> r.value < |s| && s[r.value] == c && c !in s[..r.value]
    ensures r.None? ==> c !in s
  {
    if s == [] then None
    else if s[0] == c then Some(0)
    else match IndexOfChar(s[1..], c)
      case None => None
      case Some(i) =>
        assert s[..i + 1] == [s[0]] + s[1..][..i];
        Some(i + 1)
  }

  /** The first `c` in `x + y` is the head of `y` when `x` holds no `c`. */
  lemma {:induction false} IndexOfCharAfter(x: string, y: string, c: char)
    requires c !in x && y != [] && y[0] == c
    ensures IndexOfChar(x + y, c) == Some(|x|)
  {
    if x != [] {
      assert (x + y)[1..] == x[1..] + y;
      IndexOfCharAfter(x[1..], y, c);
    }
  }

  /** `sep` occurs in `s` starting at index `i`. */
  predicate OccursAt(s: string, sep: string, i: nat) {
    i + |sep| <= |s| && s[i..i + |sep|] == sep
  }

  /** An occurrence after the first character is an occurrence in the rest of the text. */
  lemma OccursAtShift(s: string, sep: string)
    requires s != []
    ensures forall j :: 1 <= j <= |s| ==> (OccursAt(s, sep, j) <==> OccursAt(s[1..], sep, j - 1))
  {
    forall j | 1 <= j <= |s|
      ensures OccursAt(s, sep, j) <==> OccursAt(s[1..], sep, j - 1)
    {
      if j + |sep| <= |s| {
        var here, there := s[j..j + |sep|], s[1..][j - 1..j - 1 + |sep|];
        assert forall k :: 0 <= k < |sep| ==> here[k] == there[k];
        assert here == there;
      }
    }
  }

  /** `bytes.Index`: the position of the first occurrence of `sep` in `s`. */
  function IndexOf(s: string, sep: string): (r: Option<nat>)
    ensures r.Some? ==> OccursAt(s, sep, r.value)
    ensures r.Some? ==> forall j :: 0 <= j < r.value ==> !OccursAt(s, sep, j)
    ensures r.None? ==> forall j :: 0 <= j <= |s| ==> !OccursAt(s, sep, j)
    decreases |s|
  {
    if |s| < |sep| then None
    else if s[..|sep|] == sep then Some(0)
    else
      OccursAtShift(s, sep);
      match IndexOf(s[1..], sep)
      case None => None
      case Some(i) => Some(i + 1)
  }

  /**
   * `bytes.SplitN(s, sep, 2)` read as the publisher reads it: two parts exactly when `sep`
   * occurs, split at its first occurrence; otherwise a single part, shown here as `None`.
   */
  function SplitFirst(s: string, sep: string): (r: Option<(string, string)>)
    ensures r.None? <==> forall j :: 0 <= j <= |s| ==> !OccursAt(s, sep, j)
    ensures r.Some? ==> r.value.0 + sep + r.value.1 == s
    ensures r.Some? ==> forall j :: 0 <= j < |r.value.0| ==> !OccursAt(s, sep, j)
  {
    match IndexOf(s, sep)
    case None => None
    case Some(i) =>
      assert s[..i] + sep + s[i + |sep|..] == s by {
        assert s == s[..i] + s[i..i + |sep|] + s[i + |sep|..];
      }
      Some((s[..i], s[i + |sep|..]))
  }

  /** The text before the first separator holds no separator. */
  lemma SplitFirstHeadHasNoSeparator(s: string, sep: string)
    requires sep != [] && SplitFirst(s, sep).Some?
    ensures IndexOf(SplitFirst(s, sep).value.0, sep).None?
  {
    var head := SplitFirst(s, sep).value.0;
    forall j | 0 <= j <= |head| && j + |sep| <= |head|
      ensures !OccursAt(head, sep, j)
    {
      assert s[..|head|] == head;
      assert head[j..j + |sep|] == s[j..j + |sep|];
      assert !OccursAt(s, sep, j);
    }
  }

  /**
   * `bytes.Split(s, sep)`: the parts between successive non-overlapping occurrences of
   * `sep`, searched from left to right.
   */
  function Split(s: string, sep: string): seq<string>
    requires sep != []
    decreases |s|
  {
    match IndexOf(s, sep)
    case None => [s]
    case Some(i) => [s[..i]] + Split(s[i + |sep|..], sep)
  }

  /**
   * `bytes.Split` yields exactly two parts when and only when the separator occurs once, in
   * the sense of non-overlapping occurrences: the text after the first one holds no other.
   * The two parts are then those of `SplitFirst`.
   */
  lemma SplitTwoParts(s: string, sep: string)
    requires sep != []
    ensures |Split(s, sep)| == 2 <==> SplitFirst(s, sep).Some? && IndexOf(SplitFirst(s, sep).value.1, sep).None?
    ensures |Split(s, sep)| == 2 ==> Split(s, sep) == [SplitFirst(s, sep).value.0, SplitFirst(s, sep).value.1]
  {
    match IndexOf(s, sep)
    case None =>
    case Some(i) =>
      var rest := s[i + |sep|..];
      match IndexOf(rest, sep)
      case None =>
      case Some(k) =>
        assert |Split(rest, sep)| >= 2;
  }
}
