/** The small part of Python's `str` semantics that the message framer relies on:
    the `in` operator, `str.find`, slicing with clamped bounds and `str.strip()`
    with no argument. Strings are sequences of characters. */
module PyStr {

  /** `pat` occurs in `s` starting at index `i`. */
  predicate OccursAt(s: string, pat: string, i: int)
  {
    0 <= i && i + |pat| <= |s| && s[i..i + |pat|] == pat
  }

  /** Python's `pat in s`. */
  predicate Contains(s: string, pat: string)
  {
    exists i :: 0 <= i <= |s| - |pat| && OccursAt(s, pat, i)
  }

  /** Python's `s.find(pat)`: the lowest index at which `pat` occurs, or -1. */
  function Find(s: string, pat: string): (r: int)
    ensures r == -1 <==> !Contains(s, pat)
    ensures r != -1 ==> OccursAt(s, pat, r)
    ensures forall j :: 0 <= j < r ==> !OccursAt(s, pat, j)
  {
    FindFrom(s, pat, 0)
  }

  /** The scan behind `find`: the lowest index from `k` on at which `pat`
      occurs, or -1 when it occurs nowhere from `k` on. */
  function FindFrom(s: string, pat: string, k: nat): (r: int)
    ensures r == -1 || (k <= r && OccursAt(s, pat, r))
    ensures r == -1 ==> forall i :: k <= i ==> !OccursAt(s, pat, i)
    ensures forall i :: k <= i < r ==> !OccursAt(s, pat, i)
    decreases |s| - k
  {
    if |s| < k + |pat| then -1
    else if s[k..k + |pat|] == pat then k
    else FindFrom(s, pat, k + 1)
  }

  /** `Find` gives the first occurrence: an index where `pat` occurs with no
      occurrence before it is what `Find` returns. */
  lemma FindIs(s: string, pat: string, i: int)
    requires OccursAt(s, pat, i)
    requires forall k :: 0 <= k < i ==> !OccursAt(s, pat, k)
    ensures Contains(s, pat) && Find(s, pat) == i
  {
    assert Contains(s, pat);
  }

  /** Python's `s[i:j]` for non-negative bounds: both bounds are clamped to the
      length, and the slice is empty unless the start lies before the end. */
  function Slice(s: string, i: nat, j: nat): (r: string)
    ensures |r| <= |s|
    ensures i < j <= |s| ==> r == s[i..j]
    ensures i < j ==> r == s[(if i < |s| then i else |s|)..(if j < |s| then j else |s|)]
    ensures j <= i ==> r == ""
  {
    var lo := if i < |s| then i else |s|;
    var hi := if j < |s| then j else |s|;
    if lo < hi then s[lo..hi] else ""
  }

  /** Python's `str.isspace()` on one character: the whitespace characters that a
      bare `str.strip()` removes. */
  predicate IsSpace(c: char)
  {
    ('\t' <= c <= '\r') || ('\U{1C}' <= c <= ' ') || c == '\U{85}' || c == '\U{A0}'
    || c == '\U{1680}' || ('\U{2000}' <= c <= '\U{200A}') || c == '\U{2028}' || c == '\U{2029}'
    || c == '\U{202F}' || c == '\U{205F}' || c == '\U{3000}'
  }

  /** Every character of `s` is whitespace. */
  predicate AllSpace(s: string)
  {
    s == "" || (IsSpace(s[0]) && AllSpace(s[1..]))
  }

  /** Whitespace followed by one more whitespace character is whitespace. */
  lemma {:induction false} AllSpaceSnoc(s: string, c: char)
    requires AllSpace(s) && IsSpace(c)
    ensures AllSpace(s + [c])
  {
    if s == "" {
      assert s + [c] == [c];
      assert [c][1..] == "";
    } else {
      assert (s + [c])[1..] == s[1..] + [c];
      AllSpaceSnoc(s[1..], c);
    }
  }

  /** `r` is the suffix of `s` left after dropping its leading whitespace:
      everything dropped is whitespace, and `r` does not start with any. */
  predicate LeftStripped(s: string, r: string)
  {
    |r| <= |s| && r == s[|s| - |r|..] && AllSpace(s[..|s| - |r|]) && (r == "" || !IsSpace(r[0]))
  }

  /** `r` is the prefix of `s` left after dropping its trailing whitespace:
      everything dropped is whitespace, and `r` does not end with any. */
  predicate RightStripped(s: string, r: string)
  {
    |r| <= |s| && r == s[..|r|] && AllSpace(s[|r|..]) && (r == "" || !IsSpace(r[|r| - 1]))
  }

  /** `s.lstrip()`: the suffix left after dropping leading whitespace. */
  function StripLeft(s: string): (r: string)
    ensures LeftStripped(s, r)
  {
    if s == "" || !IsSpace(s[0]) then s
    else
      var t := StripLeft(s[1..]);
      assert s[..|s| - |t|] == [s[0]] + s[1..][..|s| - 1 - |t|];
      t
  }

  /** `s.rstrip()`: the prefix left after dropping trailing whitespace. */
  function StripRight(s: string): (r: string)
    ensures RightStripped(s, r)
  {
    if s == "" || !IsSpace(s[|s| - 1]) then s
    else
      var t := StripRight(s[..|s| - 1]);
      assert s[|t|..] == s[..|s| - 1][|t|..] + [s[|s| - 1]];
      AllSpaceSnoc(s[..|s| - 1][|t|..], s[|s| - 1]);
      t
  }

  /** `r` is the part of `s` that starts at `i`, and everything of `s` around it
      is whitespace. */
  predicate TrimmedAt(s: string, r: string, i: int)
  {
    0 <= i <= |s| - |r| && r == s[i..i + |r|] && AllSpace(s[..i]) && AllSpace(s[i + |r|..])
  }

  /** `r` is `s` with its surrounding whitespace dropped: one contiguous part of
      `s` with only whitespace around it, which itself neither starts nor ends
      with whitespace. */
  predicate Trimmed(s: string, r: string)
  {
    (exists i :: 0 <= i <= |s| && TrimmedAt(s, r, i)) && (r == "" || (!IsSpace(r[0]) && !IsSpace(r[|r| - 1])))
  }

  /** `s.strip()`: the middle of `s` left after dropping whitespace at both ends. */
  function Strip(s: string): (r: string)
    ensures Trimmed(s, r)
  {
    var l := StripLeft(s);
    var r := StripRight(l);
    StripBothEnds(s, l, r);
    r
  }

  /** Stripping the left end and then the right end drops whitespace only, and
      what is left is one contiguous part of the original. */
  lemma StripBothEnds(s: string, l: string, r: string)
    requires LeftStripped(s, l) && RightStripped(l, r)
    ensures Trimmed(s, r)
  {
    var i := |s| - |l|;
    assert s[i + |r|..] == l[|r|..];
    assert TrimmedAt(s, r, i);
  }

  /** Stripping a string that neither starts nor ends with whitespace leaves it
      as it is. */
  lemma StripUnchanged(s: string)
    requires s == "" || (!IsSpace(s[0]) && !IsSpace(s[|s| - 1]))
    ensures Strip(s) == s
  {
  }
}
