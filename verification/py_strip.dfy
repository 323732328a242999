/** Python's argument-less `str.strip()`: remove leading and trailing
    whitespace, where whitespace is every code point for which `str.isspace()`
    holds. */
module PyStrip {

  /** The 29 code points Python 3 treats as whitespace: U+0009..U+000D,
      U+001C..U+0020, U+0085, U+00A0, U+1680, U+2000..U+200A, U+2028, U+2029,
      U+202F, U+205F and U+3000. */
  predicate IsSpace(c: char) {
    || '\t' <= c <= '\r'
    || '\U{1C}' <= c <= ' '
    || c == '\U{85}'
    || c == '\U{A0}'
    || c == '\U{1680}'
    || '\U{2000}' <= c <= '\U{200A}'
    || c == '\U{2028}'
    || c == '\U{2029}'
    || c == '\U{202F}'
    || c == '\U{205F}'
    || c == '\U{3000}'
  }

  /** The same code points, listed one by one. */
  const SpaceChars: seq<char> := [
    '\t', '\n', '\U{0B}', '\U{0C}', '\r',
    '\U{1C}', '\U{1D}', '\U{1E}', '\U{1F}', ' ',
    '\U{85}', '\U{A0}', '\U{1680}',
    '\U{2000}', '\U{2001}', '\U{2002}', '\U{2003}', '\U{2004}', '\U{2005}',
    '\U{2006}', '\U{2007}', '\U{2008}', '\U{2009}', '\U{200A}',
    '\U{2028}', '\U{2029}', '\U{202F}', '\U{205F}', '\U{3000}'
  ]

  /** `IsSpace` holds for exactly the 29 listed code points, which are
      pairwise distinct. */
  lemma IsSpaceExactly(c: char)
    ensures IsSpace(c) <==> c in SpaceChars
    ensures |SpaceChars| == 29
    ensures forall i, j :: 0 <= i < j < |SpaceChars| ==> SpaceChars[i] < SpaceChars[j]
  {
  }

  ghost predicate AllSpace(s: string) {
    forall i :: 0 <= i < |s| ==> IsSpace(s[i])
  }

  /** Neither end of `s` is whitespace. */
  predicate Stripped(s: string) {
    |s| == 0 || (!IsSpace(s[0]) && !IsSpace(s[|s| - 1]))
  }

  /** Length of the longest all-whitespace prefix of `s`. */
  function LeadingSpace(s: string): (n: nat)
    ensures n <= |s|
    ensures forall i :: 0 <= i < n ==> IsSpace(s[i])
    ensures n < |s| ==> !IsSpace(s[n])
  {
    if |s| == 0 || !IsSpace(s[0]) then 0
    else
      var n := 1 + LeadingSpace(s[1..]);
      assert forall i :: 1 <= i < n ==> s[i] == s[1..][i - 1];
      n
  }

  /** Length of the longest all-whitespace suffix of `s`. */
  function TrailingSpace(s: string): (n: nat)
    ensures n <= |s|
    ensures forall i :: |s| - n <= i < |s| ==> IsSpace(s[i])
    ensures n < |s| ==> !IsSpace(s[|s| - n - 1])
  {
    if |s| == 0 || !IsSpace(s[|s| - 1]) then 0
    else
      var init := s[..|s| - 1];
      var n := 1 + TrailingSpace(init);
      assert forall i :: |s| - n <= i < |s| - 1 ==> s[i] == init[i];
      n
  }

  /** `s.strip()`: the slice of `s` left after removing the whitespace at both
      ends. The result is stripped, it starts where the leading whitespace
      ends, and only whitespace follows it. */
  function Strip(s: string): (r: string)
    ensures Stripped(r)
    ensures LeadingSpace(s) + |r| <= |s|
    ensures r == s[LeadingSpace(s)..LeadingSpace(s) + |r|]
    ensures forall i :: LeadingSpace(s) + |r| <= i < |s| ==> IsSpace(s[i])
  {
    var lo := LeadingSpace(s);
    var hi := if lo == |s| then |s| else |s| - TrailingSpace(s);
    assert lo < |s| ==> !IsSpace(s[lo]);
    s[lo..hi]
  }

  /** `strip` only removes characters: one absent from `s` is absent from
      `s.strip()`. */
  lemma StripAvoids(s: string, c: char)
    requires c !in s
    ensures c !in Strip(s)
  {
    var r := Strip(s);
    forall k | 0 <= k < |r| ensures r[k] != c {
      assert r[k] == s[LeadingSpace(s) + k];
    }
  }

  /** `strip` is determined by what it keeps: a stripped text with only
      whitespace around it is what `strip` returns. */
  lemma StripUnique(w1: string, t: string, w2: string)
    requires AllSpace(w1) && AllSpace(w2) && Stripped(t)
    ensures Strip(w1 + t + w2) == t
  {
    var s := w1 + t + w2;
    var lo := LeadingSpace(s);
    var r := Strip(s);
    assert forall i :: 0 <= i < |w1| ==> s[i] == w1[i];
    assert forall i :: |w1| + |t| <= i < |s| ==> s[i] == w2[i - |w1| - |t|];
    if |t| > 0 {
      assert s[|w1|] == t[0];
      assert lo == |w1|;
      assert s[|w1| + |t| - 1] == t[|t| - 1];
      assert |r| == |t|;
      assert r == s[|w1|..|w1| + |t|];
    } else {
      assert lo == |s|;
    }
  }

  /** Stripping twice is stripping once. */
  lemma StripIdempotent(s: string)
    ensures Strip(Strip(s)) == Strip(s)
  {
    StripUnique("", Strip(s), "");
    assert "" + Strip(s) + "" == Strip(s);
  }
}
