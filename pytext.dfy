/**
 * Python's `str.strip()` with no argument: drop the leading and trailing
 * characters for which `str.isspace()` holds.
 */
module PyText {

  /** The characters `str.isspace()` accepts (Python 3). */
  predicate IsSpace(c: char) {
    ('\t' <= c <= '\r') || ('\U{1C}' <= c <= '\U{1F}') || c == ' ' ||
    c == '\U{85}' || c == '\U{A0}' || c == '\U{1680}' ||
    ('\U{2000}' <= c <= '\U{200A}') || c == '\U{2028}' || c == '\U{2029}' ||
    c == '\U{202F}' || c == '\U{205F}' || c == '\U{3000}'
  }

  /** Neither starts nor ends with whitespace. */
  predicate Trimmed(s: string) {
    s == [] || (!IsSpace(s[0]) && !IsSpace(s[|s| - 1]))
  }

  /** Length of the longest all-whitespace prefix. */
  function LeadingSpaces(s: string): (n: nat)
    ensures n <= |s|
    ensures forall i | 0 <= i < n :: IsSpace(s[i])
    ensures n < |s| ==> !IsSpace(s[n])
    decreases |s|
  {
    if s != [] && IsSpace(s[0]) then
      var m := LeadingSpaces(s[1..]);
      assert forall i | 1 <= i <= m :: s[i] == s[1..][i - 1];
      m + 1
    else 0
  }

  /** Length of the longest all-whitespace suffix. */
  function TrailingSpaces(s: string): (n: nat)
    ensures n <= |s|
    ensures forall i | |s| - n <= i < |s| :: IsSpace(s[i])
    ensures n < |s| ==> !IsSpace(s[|s| - 1 - n])
    decreases |s|
  {
    if s != [] && IsSpace(s[|s| - 1]) then
      var init := s[..|s| - 1];
      var m := TrailingSpaces(init);
      assert forall i | 0 <= i < |init| :: init[i] == s[i];
      m + 1
    else 0
  }

  /** `r` sits in `s` at offset `i`, with only whitespace before and after it. */
  predicate SpaceBordered(s: string, i: nat, r: string) {
    i + |r| <= |s| && s[i..i + |r|] == r &&
    (forall k | 0 <= k < i :: IsSpace(s[k])) &&
    (forall k | i + |r| <= k < |s| :: IsSpace(s[k]))
  }

  /**
   * Where `str.strip()` cuts `s`: after the leading whitespace, and before
   * the trailing whitespace unless that would cross the start (all of `s`
   * is whitespace).
   */
  function StripBounds(s: string): (b: (nat, nat))
    ensures b.0 <= b.1 <= |s|
    ensures forall k | 0 <= k < b.0 :: IsSpace(s[k])
    ensures forall k | b.1 <= k < |s| :: IsSpace(s[k])
    ensures b.0 < b.1 ==> !IsSpace(s[b.0]) && !IsSpace(s[b.1 - 1])
  {
    var lead := LeadingSpaces(s);
    if lead == |s| then (lead, lead) else (lead, |s| - TrailingSpaces(s))
  }

  /**
   * `str.strip()`. The result is trimmed; StripBordered shows it is a piece
   * of `s` with only whitespace around it, and StripUnique that it is the
   * only such piece.
   */
  function Strip(s: string): (r: string)
    ensures |r| <= |s|
    ensures Trimmed(r)
  {
    var (lo, hi) := StripBounds(s);
    assert lo < hi ==> s[lo..hi][0] == s[lo] && s[lo..hi][hi - lo - 1] == s[hi - 1];
    s[lo..hi]
  }

  /** What `str.strip()` removes is whitespace, from the two ends only. */
  lemma StripBordered(s: string)
    ensures SpaceBordered(s, StripBounds(s).0, Strip(s))
  {
  }

  /**
   * Stripping a trimmed string changes nothing: it has no leading and no
   * trailing whitespace to count.
   */
  lemma StripTrimmed(s: string)
    requires Trimmed(s)
    ensures Strip(s) == s
  {
  }

  /** Stripping twice is stripping once. */
  lemma StripIdempotent(s: string)
    ensures Strip(Strip(s)) == Strip(s)
  {
    StripTrimmed(Strip(s));
  }

  /**
   * Any trimmed, whitespace-bordered piece of `s` is `Strip(s)`: a non-empty
   * one starts at the first non-space character of `s` and ends after the
   * last, which is where StripBounds cuts.
   */
  lemma StripUnique(s: string, i: nat, r: string)
    requires SpaceBordered(s, i, r) && Trimmed(r)
    ensures r == Strip(s)
  {
  }
}
