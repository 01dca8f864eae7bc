/** Zero copy: every span the parser stores is an untransformed piece of the
    input. */
module Spans {
  import opened HttpSyntax
  import opened Scan
  import opened HttpRequest
  import opened Transitions

  lemma MethodStepSpans(input: seq<Byte>, p: Progress)
    requires p.pos <= |input| && SpansIn(p.request, input) && MethodStep(input, p).Ok?
    ensures SpansIn(MethodStep(input, p).value.request, input)
  {
    MethodStepSpec(input, p);
    var token := MethodStep(input, p).value.request.httpMethod;
    SliceVerbatim(input, p.pos, p.pos + |token|);
  }

  lemma UriStepSpans(input: seq<Byte>, p: Progress)
    requires p.pos <= |input| && SpansIn(p.request, input)
    ensures SpansIn(UriStep(input, p).request, input)
  {
    UriStepSpec(input, p);
    var uri := UriStep(input, p).request.requestUri;
    SliceVerbatim(input, p.pos, p.pos + |uri|);
  }

  lemma VersionStepSpans(input: seq<Byte>, p: Progress)
    requires p.pos <= |input| && SpansIn(p.request, input) && VersionStep(input, p).Ok?
    ensures SpansIn(VersionStep(input, p).value.request, input)
  {
    VersionStepSpec(input, p);
    var token := VersionStep(input, p).value.request.httpVersion;
    SliceVerbatim(input, p.pos, p.pos + |token|);
  }

  lemma ParseLineStepSpans(input: seq<Byte>, p: Progress)
    requires p.pos <= |input| && SpansIn(p.request, input) && ParseLineStep(input, p).Ok?
    ensures SpansIn(ParseLineStep(input, p).value.request, input)
  {
    ParseLineStepSpec(input, p);
    SplitLineSpec(input, p.pos);
    var b := SplitLine(input, p.pos).value;
    SliceVerbatim(input, p.pos, b.keyEnd);
    SliceVerbatim(input, b.valueStart, b.valueEnd);
    InsertSpans(p.request, input, input[p.pos..b.keyEnd], input[b.valueStart..b.valueEnd]);
  }

  lemma {:induction false} HeaderLoopSpans(input: seq<Byte>, p: Progress)
    requires p.pos <= |input| && SpansIn(p.request, input) && HeaderLoop(input, p).Ok?
    ensures SpansIn(HeaderLoop(input, p).value.request, input)
    decreases |input| - p.pos
  {
    if |input| - p.pos < 2 || IsCrlf(input[p.pos], input[p.pos + 1]) {
    } else {
      ParseLineStepSpans(input, p);
      HeaderLoopSpans(input, ParseLineStep(input, p).value);
    }
  }

  lemma HeaderStepSpans(input: seq<Byte>, p: Progress)
    requires p.pos <= |input| && SpansIn(p.request, input) && HeaderStep(input, p).Ok?
    ensures SpansIn(HeaderStep(input, p).value.request, input)
  {
    HeaderLoopSpans(input, p);
  }

  lemma BodyStepSpans(input: seq<Byte>, p: Progress)
    requires p.pos <= |input| && SpansIn(p.request, input)
    ensures SpansIn(BodyStep(input, p), input)
  {
    SliceVerbatim(input, p.pos, |input|);
    assert input[p.pos..|input|] == input[p.pos..];
  }

  /** Every span of a parsed request (method, URI, version, each header key
      and value, and the body) is a contiguous, untransformed piece of the
      input. */
  lemma ParseSpansVerbatim(input: seq<Byte>)
    ensures Parse(input).Ok? ==> SpansIn(Parse(input).value, input)
  {
    var p0 := Progress(0, NewRequest());
    NewRequestSpans(input);
    if Parse(input).Ok? {
      var p1 := MethodStep(input, p0).value;
      MethodStepSpans(input, p0);
      var p2 := UriStep(input, p1);
      UriStepSpans(input, p1);
      var p3 := VersionStep(input, p2).value;
      VersionStepSpans(input, p2);
      var p4 := HeaderStep(input, p3).value;
      HeaderStepSpans(input, p3);
      BodyStepSpans(input, p4);
    }
  }
}
