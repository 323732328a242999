/** The tag extractors of the three-worker orchestrator script. Each pulls one
    field out of a model reply by the same chain of `str.split` calls:

      content.split('```')[1].split(OPEN)[1].split(CLOSE)[0].split("<")[0].strip()

    i.e. take the first fenced segment, take the text after the first opening
    tag, cut at the closing tag, cut at the first `<`, strip whitespace. A
    missing `[1]` element is Python's `IndexError`, modelled as `None`. */
module TagExtract {
  import opened Wrappers
  import opened PySplit
  import opened PyStrip

  /** The markdown code fence the replies wrap their XML in. */
  const Fence: string := "```"

  const Lt: string := "<"

  function OpenTag(tag: string): string {
    "<" + tag + ">"
  }

  function CloseTag(tag: string): string {
    "</" + tag + ">"
  }

  /** Cutting a string at its first `<` leaves no `<` in it. */
  lemma NoLtBeforeCut(s: string)
    ensures '<' !in SplitFirst(s, Lt)
  {
    var x := SplitFirst(s, Lt);
    forall j | 0 <= j < |x| ensures x[j] != '<' {
      OccursChar(s, '<', j);
      assert s[j] == x[j];
    }
  }

  /** Steps two to five of the chain, on the first fenced segment. Whatever
      the tag strings, a result holds no `<` and has no whitespace at either
      end. */
  function FromSegment(segment: string, open: string, close: string): (r: Option<string>)
    requires |open| > 0 && |close| > 0
    ensures r.Some? ==> '<' !in r.value
    ensures r.Some? ==> Stripped(r.value)
  {
    var tagged :- SplitSecond(segment, open);
    var cut := SplitFirst(SplitFirst(tagged, close), Lt);
    NoLtBeforeCut(SplitFirst(tagged, close));
    StripAvoids(cut, '<');
    Some(Strip(cut))
  }

  /** The whole chain, with the opening and closing tag strings as written at
      each call site. It fails exactly when the content has no fence or the
      first fenced segment lacks `open`. */
  function Chain(content: string, open: string, close: string): (r: Option<string>)
    requires |open| > 0 && |close| > 0
    ensures r.None? <==>
      || !Contains(content, Fence)
      || !Contains(SplitSecond(content, Fence).value, open)
    ensures r.Some? ==> '<' !in r.value && Stripped(r.value)
  {
    var segment :- SplitSecond(content, Fence);
    FromSegment(segment, open, close)
  }

  /** The six source extractors, each with its literal tag strings. Each
      fails exactly when the reply has no fence or its first fenced segment
      lacks the opening tag, and a result holds no `<` and no whitespace at
      either end. */
  function ExtractWorker1Task(content: string): (r: Option<string>)
    ensures r.None? <==>
      || !Contains(content, Fence)
      || !Contains(SplitSecond(content, Fence).value, "<worker1>")
    ensures r.Some? ==> '<' !in r.value && Stripped(r.value)
  {
    Chain(content, "<worker1>", "</worker1>")
  }

  function ExtractWorker2Task(content: string): (r: Option<string>)
    ensures r.None? <==>
      || !Contains(content, Fence)
      || !Contains(SplitSecond(content, Fence).value, "<worker2>")
    ensures r.Some? ==> '<' !in r.value && Stripped(r.value)
  {
    Chain(content, "<worker2>", "</worker2>")
  }

  function ExtractWorker3Task(content: string): (r: Option<string>)
    ensures r.None? <==>
      || !Contains(content, Fence)
      || !Contains(SplitSecond(content, Fence).value, "<worker3>")
    ensures r.Some? ==> '<' !in r.value && Stripped(r.value)
  {
    Chain(content, "<worker3>", "</worker3>")
  }

  function ExtractWorker1Output(content: string): (r: Option<string>)
    ensures r.None? <==>
      || !Contains(content, Fence)
      || !Contains(SplitSecond(content, Fence).value, "<output>")
    ensures r.Some? ==> '<' !in r.value && Stripped(r.value)
  {
    Chain(content, "<output>", "</output>")
  }

  function ExtractWorker2Output(content: string): (r: Option<string>)
    ensures r.None? <==>
      || !Contains(content, Fence)
      || !Contains(SplitSecond(content, Fence).value, "<output>")
    ensures r.Some? ==> '<' !in r.value && Stripped(r.value)
  {
    Chain(content, "<output>", "</output>")
  }

  function ExtractWorker3Output(content: string): (r: Option<string>)
    ensures r.None? <==>
      || !Contains(content, Fence)
      || !Contains(SplitSecond(content, Fence).value, "<output>")
    ensures r.Some? ==> '<' !in r.value && Stripped(r.value)
  {
    Chain(content, "<output>", "</output>")
  }

  /** The tag-parametric extractor. It fails (Python's `IndexError`) exactly
      when the content has no fence, or when the first fenced segment lacks
      the opening tag; a result holds no `<` and has no whitespace at either
      end. */
  function ExtractTag(content: string, tag: string): (r: Option<string>)
    ensures r.None? <==>
      || !Contains(content, Fence)
      || !Contains(SplitSecond(content, Fence).value, OpenTag(tag))
    ensures r.Some? ==> '<' !in r.value
    ensures r.Some? ==> Stripped(r.value)
  {
    Chain(content, OpenTag(tag), CloseTag(tag))
  }

  /** The three task extractors are the tag-parametric one, each with its
      worker's tag. */
  lemma TaskExtractorsAreInstances(content: string)
    ensures ExtractWorker1Task(content) == ExtractTag(content, "worker1")
    ensures ExtractWorker2Task(content) == ExtractTag(content, "worker2")
    ensures ExtractWorker3Task(content) == ExtractTag(content, "worker3")
  {
    assert OpenTag("worker1") == "<worker1>" && CloseTag("worker1") == "</worker1>";
    assert OpenTag("worker2") == "<worker2>" && CloseTag("worker2") == "</worker2>";
    assert OpenTag("worker3") == "<worker3>" && CloseTag("worker3") == "</worker3>";
  }

  /** The output extractors are the tag-parametric one with the `output`
      tag, so the three of them are one and the same function. */
  lemma Worker1OutputIsInstance(content: string)
    ensures ExtractWorker1Output(content) == ExtractTag(content, "output")
  {
    assert OpenTag("output") == "<output>" && CloseTag("output") == "</output>";
  }

  lemma Worker2OutputIsInstance(content: string)
    ensures ExtractWorker2Output(content) == ExtractTag(content, "output")
  {
    assert OpenTag("output") == "<output>" && CloseTag("output") == "</output>";
  }

  lemma Worker3OutputIsInstance(content: string)
    ensures ExtractWorker3Output(content) == ExtractTag(content, "output")
  {
    assert OpenTag("output") == "<output>" && CloseTag("output") == "</output>";
  }
}
