/** The two Python string operations that the vocabulary extraction applies to
    table cells: `str.strip()` without arguments and `str.replace('\n', ' ')`. */
module PyStr {

  /** The characters for which Python's `str.isspace()` holds, which
      `str.strip()` without arguments removes: tab to carriage return, the
      four information separators, space, next line, no-break space, Ogham
      space mark, the spaces U+2000 to U+200A, line and paragraph separators,
      narrow no-break space, medium mathematical space and ideographic space. */
  predicate IsSpace(c: char)
    ensures c == ' ' || c == '\t' || c == '\n' || c == '\r' ==> IsSpace(c)
    ensures 'a' <= c <= 'z' || 'A' <= c <= 'Z' || '0' <= c <= '9' ==> !IsSpace(c)
  {
    ('\U{9}' <= c <= '\U{D}') || ('\U{1C}' <= c <= '\U{20}') || c == '\U{85}' || c == '\U{A0}'
    || c == '\U{1680}' || ('\U{2000}' <= c <= '\U{200A}') || c == '\U{2028}' || c == '\U{2029}'
    || c == '\U{202F}' || c == '\U{205F}' || c == '\U{3000}'
  }

  /** Every character of `s` is whitespace (true of the empty string). */
  predicate AllSpace(s: string) {
    forall i :: 0 <= i < |s| ==> IsSpace(s[i])
  }

  /** `s` neither starts nor ends with whitespace. */
  predicate Stripped(s: string) {
    s == [] || (!IsSpace(s[0]) && !IsSpace(s[|s| - 1]))
  }

  /** The index of the first character at or after `i` that is not
      whitespace, or `|s|`: where `s.lstrip()` starts. */
  function FirstNonSpace(s: string, i: nat): (r: nat)
    requires i <= |s|
    ensures i <= r <= |s|
    ensures r < |s| ==> !IsSpace(s[r])
    ensures forall k :: i <= k < r ==> IsSpace(s[k])
    decreases |s| - i
  {
    if i < |s| && IsSpace(s[i]) then FirstNonSpace(s, i + 1) else i
  }

  /** One past the last character before `j` and at or after `lo` that is
      not whitespace, or `lo`: where `s.rstrip()` ends. */
  function EndNonSpace(s: string, lo: nat, j: nat): (r: nat)
    requires lo <= j <= |s|
    ensures lo <= r <= j
    ensures r > lo ==> !IsSpace(s[r - 1])
    ensures forall k :: r <= k < j ==> IsSpace(s[k])
    decreases j
  {
    if j > lo && IsSpace(s[j - 1]) then EndNonSpace(s, lo, j - 1) else j
  }

  /** `s.strip()`: the infix of `s` left once the whitespace at both ends is
      removed. It is empty exactly when `s` is all whitespace. */
  function Strip(s: string): (r: string)
    ensures Stripped(r)
    ensures r == [] <==> AllSpace(s)
    ensures var lo := FirstNonSpace(s, 0); lo + |r| <= |s| && r == s[lo..lo + |r|]
    ensures AllSpace(s[..FirstNonSpace(s, 0)]) && AllSpace(s[FirstNonSpace(s, 0) + |r|..])
  {
    var lo := FirstNonSpace(s, 0);
    var hi := EndNonSpace(s, lo, |s|);
    StripBounds(s, lo, hi);
    s[lo..hi]
  }

  lemma StripBounds(s: string, lo: nat, hi: nat)
    requires lo == FirstNonSpace(s, 0) && hi == EndNonSpace(s, lo, |s|)
    ensures lo <= hi <= |s| && Stripped(s[lo..hi])
    ensures AllSpace(s[..lo]) && AllSpace(s[hi..])
    ensures lo == hi <==> AllSpace(s)
  {
    if lo < hi {
      assert s[lo..hi][0] == s[lo] && s[lo..hi][hi - lo - 1] == s[hi - 1];
    }
    forall k | 0 <= k < lo ensures IsSpace(s[..lo][k]) {
      assert s[..lo][k] == s[k];
    }
    forall k | 0 <= k < |s| - hi ensures IsSpace(s[hi..][k]) {
      assert s[hi..][k] == s[hi + k];
    }
    if lo < |s| {
      assert !IsSpace(s[lo]);
    }
  }

  /** `s.replace('\n', ' ')`: every line feed becomes a space, every other
      character is kept in place. */
  function ReplaceNewlines(s: string): (r: string)
    ensures |r| == |s|
    ensures '\n' !in r
    ensures forall i :: 0 <= i < |s| && s[i] != '\n' ==> r[i] == s[i]
    ensures forall i :: 0 <= i < |s| && s[i] == '\n' ==> r[i] == ' '
  {
    if s == [] then []
    else [if s[0] == '\n' then ' ' else s[0]] + ReplaceNewlines(s[1..])
  }

  /** Replacing line feeds keeps a stripped string stripped: a line feed is
      whitespace, so none stands at either end of `s`. */
  lemma ReplaceKeepsStripped(s: string)
    requires Stripped(s)
    ensures Stripped(ReplaceNewlines(s))
    ensures ReplaceNewlines(s) == [] <==> s == []
  {
    if s != [] {
      assert IsSpace('\n');
    }
  }
}
