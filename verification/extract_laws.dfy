/** Properties of the tag extractor that relate it to its input and to
    simpler extractors: where its result lies in the reply, which parts of the
    reply it ignores, and which of its split steps cannot change the result. */
module ExtractLaws {
  import opened Wrappers
  import opened PySplit
  import opened PyStrip
  import opened TagExtract

  /** A prefix of a prefix keeps the slices it holds. */
  lemma SliceOfPrefix(s: string, t: string, k: int, u: string)
    requires t <= s && SliceAt(t, k, u)
    ensures SliceAt(s, k, u)
  {
    assert s[k..k + |u|] == t[k..k + |u|];
  }

  /** The first fenced segment sits in the reply right after the first
      fence. */
  lemma SegmentSlice(content: string)
    requires Contains(content, Fence)
    ensures SliceAt(content, IndexOf(content, Fence).value + |Fence|, SplitSecond(content, Fence).value)
  {
    SplitSecondPiece(content, Fence);
  }

  /** No fence starts inside the first fenced segment. */
  lemma SegmentFenceFree(content: string)
    requires Contains(content, Fence)
    ensures
      var segStart := IndexOf(content, Fence).value + |Fence|;
      forall j :: segStart <= j < segStart + |SplitSecond(content, Fence).value| ==> !Occurs(content, Fence, j)
  {
    SplitSecondPiece(content, Fence);
  }

  /** Through the first fence, the extractor is steps two to five on the first
      fenced segment. */
  lemma ExtractIsFromSegment(content: string, tag: string)
    requires Contains(content, Fence)
    ensures ExtractTag(content, tag) == FromSegment(SplitSecond(content, Fence).value, OpenTag(tag), CloseTag(tag))
  {
  }

  /** The last three steps keep a slice of their input. */
  lemma CutSlice(tagged: string, close: string)
    requires |close| > 0
    ensures
      var y := SplitFirst(SplitFirst(tagged, close), Lt);
      SliceAt(tagged, LeadingSpace(y), Strip(y))
  {
    var x := SplitFirst(tagged, close);
    var y := SplitFirst(x, Lt);
    var r := Strip(y);
    assert SliceAt(y, LeadingSpace(y), r);
    SliceOfPrefix(x, y, LeadingSpace(y), r);
    SliceOfPrefix(tagged, x, LeadingSpace(y), r);
  }

  /** Within the segment, a result starts at or after the end of the first
      opening tag. */
  lemma FromSegmentSlice(segment: string, open: string, close: string) returns (k: int)
    requires |open| > 0 && |close| > 0
    requires FromSegment(segment, open, close).Some?
    ensures IndexOf(segment, open).value + |open| <= k
    ensures SliceAt(segment, k, FromSegment(segment, open, close).value)
  {
    var bodyStart := IndexOf(segment, open).value + |open|;
    SplitSecondPiece(segment, open);
    var tagged := SplitSecond(segment, open).value;
    assert SliceAt(segment, bodyStart, tagged);
    var y := SplitFirst(SplitFirst(tagged, close), Lt);
    var r := Strip(y);
    assert FromSegment(segment, open, close).value == r;
    CutSlice(tagged, close);
    SliceAtTrans(segment, bodyStart, tagged, LeadingSpace(y), r);
    k := bodyStart + LeadingSpace(y);
  }

  /** Where a result sits in the reply, as an offset `k`. */
  lemma ExtractOffset(content: string, tag: string) returns (k: int)
    requires ExtractTag(content, tag).Some?
    ensures
      var r := ExtractTag(content, tag).value;
      var segStart := IndexOf(content, Fence).value + |Fence|;
      var segment := SplitSecond(content, Fence).value;
      && segStart + IndexOf(segment, OpenTag(tag)).value + |OpenTag(tag)| <= k
      && k + |r| <= segStart + |segment|
      && SliceAt(content, k, r)
  {
    var segStart := IndexOf(content, Fence).value + |Fence|;
    var segment := SplitSecond(content, Fence).value;
    ExtractIsFromSegment(content, tag);
    var r := FromSegment(segment, OpenTag(tag), CloseTag(tag)).value;
    var m := FromSegmentSlice(segment, OpenTag(tag), CloseTag(tag));
    SegmentSlice(content);
    SliceAtTrans(content, segStart, segment, m, r);
    k := segStart + m;
  }

  /** A result is a contiguous piece of the reply: it starts at or after the
      end of the first opening tag inside the first fenced segment, and ends
      inside that segment. */
  lemma ExtractPosition(content: string, tag: string)
    requires ExtractTag(content, tag).Some?
    ensures
      var r := ExtractTag(content, tag).value;
      var segStart := IndexOf(content, Fence).value + |Fence|;
      var segment := SplitSecond(content, Fence).value;
      var bodyStart := segStart + IndexOf(segment, OpenTag(tag)).value + |OpenTag(tag)|;
      exists k :: bodyStart <= k && k + |r| <= segStart + |segment| && SliceAt(content, k, r)
  {
    var k := ExtractOffset(content, tag);
  }

  /** A result contains no fence. */
  lemma ExtractHasNoFence(content: string, tag: string)
    requires ExtractTag(content, tag).Some?
    ensures !Contains(ExtractTag(content, tag).value, Fence)
  {
    var r := ExtractTag(content, tag).value;
    var segStart := IndexOf(content, Fence).value + |Fence|;
    var segment := SplitSecond(content, Fence).value;
    var k := ExtractOffset(content, tag);
    SegmentFenceFree(content);
    forall j ensures !Occurs(r, Fence, j) {
      if Occurs(r, Fence, j) {
        OccursInSlice(content, k, r, Fence, j);
      }
    }
  }

  /** Only the first fenced segment matters: when `a` holds no fence (not even
      one completed by the fence after it) and neither does `segment`, the
      result is read off `segment` alone, whatever `a` and `b` are. */
  lemma FencedSegmentOnly(a: string, segment: string, b: string, tag: string)
    requires FirstAt(a + Fence, Fence, |a|)
    requires FirstAt(segment + Fence, Fence, |segment|)
    ensures ExtractTag(a + Fence + segment + Fence + b, tag)
         == FromSegment(segment, OpenTag(tag), CloseTag(tag))
  {
    var rest := segment + Fence + b;
    assert a + Fence + segment + Fence + b == a + Fence + rest;
    SplitSecondAtPrefix(a, Fence, rest);
    SplitFirstAtPrefix(segment, Fence, b);
  }

  /** With a single fence, the segment runs to the end of the reply. */
  lemma UnclosedFenceSegment(a: string, segment: string, tag: string)
    requires FirstAt(a + Fence, Fence, |a|)
    requires !Contains(segment, Fence)
    ensures ExtractTag(a + Fence + segment, tag)
         == FromSegment(segment, OpenTag(tag), CloseTag(tag))
  {
    SplitSecondAtPrefix(a, Fence, segment);
    assert SplitFirst(segment, Fence) == segment;
  }

  /** Text before the first fence and after the second fence does not affect
      the result. */
  lemma SurroundingTextIgnored(a1: string, a2: string, segment: string, b1: string, b2: string, tag: string)
    requires FirstAt(a1 + Fence, Fence, |a1|) && FirstAt(a2 + Fence, Fence, |a2|)
    requires FirstAt(segment + Fence, Fence, |segment|)
    ensures ExtractTag(a1 + Fence + segment + Fence + b1, tag)
         == ExtractTag(a2 + Fence + segment + Fence + b2, tag)
  {
    FencedSegmentOnly(a1, segment, b1, tag);
    FencedSegmentOnly(a2, segment, b2, tag);
  }

  /** Cutting at a separator that starts with `<` and then at the first `<`
      is the same as cutting at the first `<` straight away. */
  lemma CutAtLtAbsorbs(s: string, sep: string)
    requires |sep| > 0 && sep[0] == '<'
    ensures SplitFirst(SplitFirst(s, sep), Lt) == SplitFirst(s, Lt)
  {
    var u := SplitFirst(s, sep);
    var v := SplitFirst(u, Lt);
    assert u == s[..|u|];
    assert v == u[..|v|];
    forall j | 0 <= j < |v| ensures !Occurs(s, Lt, j) {
      OccursChar(u, '<', j);
      OccursChar(s, '<', j);
      assert u[j] == s[j];
    }
    OccursChar(u, '<', |v|);
    OccursChar(s, '<', |v|);
    assert |v| < |u| ==> u[|v|] == s[|v|];
    assert |v| == |u| < |s| ==> s[|u|] == s[|u|..|u| + |sep|][0] == sep[0];
    SplitFirstUnique(s, Lt, |v|);
  }

  /** The chain without its closing-tag step. */
  function ExtractNoClose(content: string, tag: string): Option<string> {
    var segment :- SplitSecond(content, Fence);
    var tagged :- SplitSecond(segment, OpenTag(tag));
    Some(Strip(SplitFirst(tagged, Lt)))
  }

  /** The closing-tag step never changes the result: the closing tag starts
      with `<`, where the next step cuts anyway. */
  lemma ClosingTagRedundant(content: string, tag: string)
    ensures ExtractTag(content, tag) == ExtractNoClose(content, tag)
  {
    var segment := SplitSecond(content, Fence);
    if segment.Some? {
      var tagged := SplitSecond(segment.value, OpenTag(tag));
      if tagged.Some? {
        CutAtLtAbsorbs(tagged.value, CloseTag(tag));
      }
    }
  }

  /** Steps two to five read directly: the text after the first opening tag,
      up to the first `<`, stripped. */
  function DirectFromSegment(segment: string, open: string): Option<string>
    requires |open| > 0
  {
    match IndexOf(segment, open)
    case None => None
    case Some(at) => Some(Strip(SplitFirst(segment[at + |open|..], Lt)))
  }

  /** The extractor read directly, without the second split at the opening
      tag and without the closing-tag step. */
  function ExtractDirect(content: string, tag: string): Option<string> {
    var segment :- SplitSecond(content, Fence);
    DirectFromSegment(segment, OpenTag(tag))
  }

  /** On one segment: with both tag strings starting with `<`, the chain's
      steps two to five are the direct reading. */
  lemma FromSegmentDirect(segment: string, open: string, close: string)
    requires |open| > 0 && open[0] == '<'
    requires |close| > 0 && close[0] == '<'
    ensures FromSegment(segment, open, close) == DirectFromSegment(segment, open)
  {
    var at := IndexOf(segment, open);
    if at.Some? {
      var rest := segment[at.value + |open|..];
      var tagged := SplitFirst(rest, open);
      assert SplitSecond(segment, open) == Some(tagged);
      var cut := SplitFirst(SplitFirst(tagged, close), Lt);
      assert FromSegment(segment, open, close) == Some(Strip(cut));
      assert DirectFromSegment(segment, open) == Some(Strip(SplitFirst(rest, Lt)));
      CutAtLtAbsorbs(tagged, close);
      CutAtLtAbsorbs(rest, open);
      assert cut == SplitFirst(rest, Lt);
    } else {
      assert SplitSecond(segment, open).None?;
    }
  }

  /** Only the first opening tag in the segment matters: cutting at a second
      one cannot change the result, since it too starts with `<`. */
  lemma FirstOpenTagOnly(content: string, tag: string)
    ensures ExtractTag(content, tag) == ExtractDirect(content, tag)
  {
    var segment := SplitSecond(content, Fence);
    if segment.Some? {
      FromSegmentDirect(segment.value, OpenTag(tag), CloseTag(tag));
    }
  }

  /** The text between the padding after an opening tag and the closing tag,
      when it holds no `<`, is exactly the first `<`-cut of what follows the
      opening tag. */
  lemma CutBeforeCloseTag(pad1: string, text: string, pad2: string, close: string, after: string)
    requires AllSpace(pad1) && AllSpace(pad2) && '<' !in text
    requires |close| > 0 && close[0] == '<'
    ensures SplitFirst(pad1 + text + pad2 + close + after, Lt) == pad1 + text + pad2
  {
    var body := pad1 + text + pad2;
    var u := body + close + after;
    var k := |body|;
    forall j | 0 <= j < k ensures !Occurs(u, Lt, j) {
      OccursChar(u, '<', j);
      assert u[j] == body[j];
      if j < |pad1| {
        assert body[j] == pad1[j];
      } else if j < |pad1| + |text| {
        assert body[j] == text[j - |pad1|];
      } else {
        assert body[j] == pad2[j - |pad1| - |text|];
      }
    }
    OccursChar(u, '<', k);
    assert u[k] == close[0];
    SplitFirstUnique(u, Lt, k);
    assert u[..k] == body;
  }

  /** A reply in the format the prompts ask for gives back its text: the first
      fenced segment holds the opening tag (with nothing before it that could
      form an earlier one), then the text with whitespace around it, then the
      closing tag. */
  lemma FormattedReplyRoundTrip(a: string, before: string, pad1: string, text: string,
                                pad2: string, after: string, b: string, tag: string)
    requires FirstAt(a + Fence, Fence, |a|)
    requires FirstAt(before + OpenTag(tag), OpenTag(tag), |before|)
    requires AllSpace(pad1) && AllSpace(pad2) && Stripped(text) && '<' !in text
    requires
      var segment := before + OpenTag(tag) + pad1 + text + pad2 + CloseTag(tag) + after;
      FirstAt(segment + Fence, Fence, |segment|)
    ensures
      var segment := before + OpenTag(tag) + pad1 + text + pad2 + CloseTag(tag) + after;
      ExtractTag(a + Fence + segment + Fence + b, tag) == Some(text)
  {
    var open, close := OpenTag(tag), CloseTag(tag);
    var rest := pad1 + text + pad2 + close + after;
    var segment := before + open + pad1 + text + pad2 + close + after;
    assert segment == before + open + rest;
    FencedSegmentOnly(a, segment, b, tag);
    FromSegmentDirect(segment, open, close);
    FirstAtPrefix(before, open, rest);
    assert segment[|before| + |open|..] == rest;
    CutBeforeCloseTag(pad1, text, pad2, close, after);
    StripUnique(pad1, text, pad2);
  }
}
