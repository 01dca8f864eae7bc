/** The parser's transitions as functions on a value: the cursor into the
    input (the source's `packet` is input[pos..]) and the request built so
    far. The methods of Parser.HttpRequestParser are proved to compute exactly
    these, and the contracts here say what each transition promises. */
module Transitions {
  import opened HttpSyntax
  import opened Scan
  import opened HttpRequest

  /** A parser's data apart from the input it reads: the cursor and the
      request built so far. */
  datatype Progress = Progress(pos: nat, request: Request)

  /** What skip_crlf makes of the cursor. With fewer than two bytes left the
      source's read of the first two bytes is out of range: TruncatedInput. */
  function AfterCrlf(input: seq<Byte>, pos: nat): (r: Result<nat>)
    requires pos <= |input|
  {
    if |input| - pos < 2 then Err(TruncatedInput)
    else if IsCrlf(input[pos], input[pos + 1]) then Ok(pos + 2)
    else Ok(pos)
  }

  /** The Method transition: the token before the first SPACE must be an
      accepted method; the cursor then moves past that SPACE and the run of
      spaces after it. With no SPACE at all the source's scan runs past the
      end. */
  function MethodStep(input: seq<Byte>, p: Progress): (r: Result<Progress>)
    requires p.pos <= |input|
  {
    var end := IndexOf(input, SPACE, p.pos);
    if end == |input| then Err(TruncatedInput)
    else
      var token := input[p.pos..end];
      if !IsValidMethod(token) then Err(InvalidMethod(token))
      else Ok(Progress(SpaceEnd(input, end + 1), p.request.(httpMethod := token)))
  }

  /** What the Method transition promises, in terms of the input. */
  lemma MethodStepSpec(input: seq<Byte>, p: Progress)
    requires p.pos <= |input|
    ensures var r := MethodStep(input, p);
      r.Ok? ==>
      var token := r.value.request.httpMethod;
      && FirstSpaceAt(input, p.pos, p.pos + |token|)
      && input[p.pos..p.pos + |token|] == token
      && IsValidMethod(token)
      && SpacesUntil(input, p.pos + |token| + 1, r.value.pos)
      && r.value.request == p.request.(httpMethod := token)
    ensures var r := MethodStep(input, p);
      r.Err? && r.error.InvalidMethod? ==>
      var token := r.error.token;
      && FirstSpaceAt(input, p.pos, p.pos + |token|)
      && input[p.pos..p.pos + |token|] == token
      && !IsValidMethod(token)
    ensures var r := MethodStep(input, p);
      r.Err? && !r.error.InvalidMethod? ==>
      && r.error == TruncatedInput
      && forall i :: p.pos <= i < |input| ==> input[i] != SPACE
  {
  }

  /** No SPACE after the cursor: the method scan runs off the end. */
  lemma MethodStepTruncated(input: seq<Byte>, p: Progress)
    requires p.pos <= |input| && forall i :: p.pos <= i < |input| ==> input[i] != SPACE
    ensures MethodStep(input, p) == Err(TruncatedInput)
  {
    assert IndexOf(input, SPACE, p.pos) == |input|;
  }

  /** The first SPACE after the cursor is at `end` and the token before it
      is refused: the error carries exactly that token. */
  lemma MethodStepRejects(input: seq<Byte>, p: Progress, end: nat)
    requires FirstSpaceAt(input, p.pos, end) && !IsValidMethod(input[p.pos..end])
    ensures MethodStep(input, p) == Err(InvalidMethod(input[p.pos..end]))
  {
    assert IndexOf(input, SPACE, p.pos) == end;
  }

  /** The first SPACE after the cursor is at `end` and the token before it
      is accepted: the token is stored as the method, and the cursor moves
      past that SPACE and the run of spaces after it. */
  lemma MethodStepAccepts(input: seq<Byte>, p: Progress, end: nat)
    requires FirstSpaceAt(input, p.pos, end) && IsValidMethod(input[p.pos..end])
    ensures MethodStep(input, p)
      == Ok(Progress(SpaceEnd(input, end + 1), p.request.(httpMethod := input[p.pos..end])))
  {
    assert IndexOf(input, SPACE, p.pos) == end;
  }

  /** The Uri transition never fails: the request URI is the text up to the
      first SPACE (or the end), taken as it is, and the run of spaces after
      it is skipped. */
  function UriStep(input: seq<Byte>, p: Progress): (r: Progress)
    requires p.pos <= |input|
  {
    var end := IndexOf(input, SPACE, p.pos);
    Progress(SpaceEnd(input, end), p.request.(requestUri := input[p.pos..end]))
  }

  /** What the Uri transition promises, in terms of the input. */
  lemma UriStepSpec(input: seq<Byte>, p: Progress)
    requires p.pos <= |input|
    ensures var r := UriStep(input, p);
      var uri := r.request.requestUri;
      var end := p.pos + |uri|;
      && end <= |input|
      && input[p.pos..end] == uri
      && (forall i :: p.pos <= i < end ==> input[i] != SPACE)
      && (end == |input| || input[end] == SPACE)
      && SpacesUntil(input, end, r.pos)
      && r.request == p.request.(requestUri := uri)
  {
  }

  /** The Version transition: the token before the first CR LF must be an
      accepted version; the cursor then moves right after that CR LF. With no
      CR LF at all the source's scan runs past the end. */
  function VersionStep(input: seq<Byte>, p: Progress): (r: Result<Progress>)
    requires p.pos <= |input|
  {
    match FindCrlf(input, p.pos)
    case None => Err(TruncatedInput)
    case Some(end) =>
      var token := input[p.pos..end];
      if !IsValidVersion(token) then Err(InvalidVersion(token))
      else Ok(Progress(end + 2, p.request.(httpVersion := token)))
  }

  /** What the Version transition promises, in terms of the input. */
  lemma VersionStepSpec(input: seq<Byte>, p: Progress)
    requires p.pos <= |input|
    ensures var r := VersionStep(input, p);
      r.Ok? ==>
      var token := r.value.request.httpVersion;
      && FirstCrlfAt(input, p.pos, p.pos + |token|)
      && input[p.pos..p.pos + |token|] == token
      && IsValidVersion(token)
      && r.value.pos == p.pos + |token| + 2
      && r.value.request == p.request.(httpVersion := token)
    ensures var r := VersionStep(input, p);
      r.Err? && r.error.InvalidVersion? ==>
      var token := r.error.token;
      && FirstCrlfAt(input, p.pos, p.pos + |token|)
      && input[p.pos..p.pos + |token|] == token
      && !IsValidVersion(token)
    ensures var r := VersionStep(input, p);
      r.Err? && !r.error.InvalidVersion? ==>
      && r.error == TruncatedInput
      && forall i :: p.pos <= i ==> !CrlfAt(input, i)
  {
  }

  /** No CR LF after the cursor: the version scan runs off the end. */
  lemma VersionStepTruncated(input: seq<Byte>, p: Progress)
    requires p.pos <= |input| && forall i :: p.pos <= i ==> !CrlfAt(input, i)
    ensures VersionStep(input, p) == Err(TruncatedInput)
  {
    assert FindCrlf(input, p.pos).None?;
  }

  /** The first CR LF after the cursor is at `end` and the token before it
      is refused: the error carries exactly that token. */
  lemma VersionStepRejects(input: seq<Byte>, p: Progress, end: nat)
    requires p.pos <= |input| && FirstCrlfAt(input, p.pos, end) && !IsValidVersion(input[p.pos..end])
    ensures VersionStep(input, p) == Err(InvalidVersion(input[p.pos..end]))
  {
    assert FindCrlf(input, p.pos) == Some(end);
  }

  /** The first CR LF after the cursor is at `end` and the token before it
      is accepted: the token is stored as the version and the cursor moves
      right after that CR LF. */
  lemma VersionStepAccepts(input: seq<Byte>, p: Progress, end: nat)
    requires p.pos <= |input| && FirstCrlfAt(input, p.pos, end) && IsValidVersion(input[p.pos..end])
    ensures VersionStep(input, p)
      == Ok(Progress(end + 2, p.request.(httpVersion := input[p.pos..end])))
  {
    assert FindCrlf(input, p.pos) == Some(end);
  }

  /** Where parse_line's three scans stop: the key is input[pos..keyEnd], the
      separator input[keyEnd..valueStart] and the value
      input[valueStart..valueEnd], which a CR LF follows. */
  datatype LineBounds = LineBounds(keyEnd: nat, valueStart: nat, valueEnd: nat)

  /** The scans of parse_line. The key runs up to the first separator byte;
      the separator is the maximal run of separator bytes after it; the value
      search then starts as many bytes into the value as the separator is
      long (the source does not reset its index) and the value ends at the
      first CR LF found from there. Each scan that runs past the end is
      TruncatedInput. */
  function SplitLine(input: seq<Byte>, pos: nat): (r: Result<LineBounds>)
    requires pos <= |input|
  {
    var keyEnd := KeyEnd(input, pos);
    if keyEnd == |input| then Err(TruncatedInput)
    else
      var valueStart := SeparatorEnd(input, keyEnd);
      if valueStart == |input| then Err(TruncatedInput)
      else
        match FindCrlf(input, valueStart + (valueStart - keyEnd))
        case None => Err(TruncatedInput)
        case Some(valueEnd) => Ok(LineBounds(keyEnd, valueStart, valueEnd))
  }

  /** The bounds `b` cut the header line at `pos` as parse_line's scans do:
      the key is the maximal run of non-separator bytes, the separator the
      maximal run of separator bytes after it, and the value ends at the
      first CR LF found from the value start plus the separator's length. */
  ghost predicate LineSplitAt(input: seq<Byte>, pos: nat, b: LineBounds) {
    && pos <= b.keyEnd < b.valueStart <= b.valueEnd && b.valueEnd + 2 <= |input|
    && (forall i :: pos <= i < b.keyEnd ==> !IsSeparator(input[i]))
    && (forall i :: b.keyEnd <= i < b.valueStart ==> IsSeparator(input[i]))
    && !IsSeparator(input[b.valueStart])
    && FirstCrlfAt(input, b.valueStart + (b.valueStart - b.keyEnd), b.valueEnd)
  }

  /** What the scans of parse_line promise, in terms of the input. */
  lemma SplitLineSpec(input: seq<Byte>, pos: nat)
    requires pos <= |input|
    ensures var r := SplitLine(input, pos);
      r.Ok? ==> LineSplitAt(input, pos, r.value)
    ensures var r := SplitLine(input, pos);
      r.Err? ==> r.error == TruncatedInput
  {
  }

  /** SplitLine in terms of where its three scans stop. */
  lemma SplitLineAt(input: seq<Byte>, pos: nat, keyEnd: nat, valueStart: nat, valueEnd: nat)
    requires pos <= keyEnd < |input| && KeyEnd(input, pos) == keyEnd
    requires valueStart < |input| && SeparatorEnd(input, keyEnd) == valueStart
    requires FindCrlf(input, valueStart + (valueStart - keyEnd)) == Some(valueEnd)
    ensures SplitLine(input, pos) == Ok(LineBounds(keyEnd, valueStart, valueEnd))
  {
  }

  /** The header table after inserting `key` and `value`. */
  function Insert(header: map<seq<Byte>, seq<Byte>>, key: seq<Byte>, value: seq<Byte>): (h: map<seq<Byte>, seq<Byte>>)
    ensures key in h && h[key] == value
    ensures forall k :: k in header && k != key ==> k in h && h[k] == header[k]
    ensures forall k :: k in h ==> k == key || k in header
  {
    header[key := value]
  }

  /** parse_line: cut one header line and insert its key and value into the
      header table, replacing any earlier value of the key. */
  function ParseLineStep(input: seq<Byte>, p: Progress): (r: Result<Progress>)
    requires p.pos <= |input|
    ensures r.Ok? ==> p.pos + 4 <= r.value.pos <= |input|
  {
    SplitLineSpec(input, p.pos);
    match SplitLine(input, p.pos)
    case Err(e) => Err(e)
    case Ok(b) =>
      Ok(Progress(b.valueEnd + 2, p.request.(header :=
        Insert(p.request.header, input[p.pos..b.keyEnd], input[b.valueStart..b.valueEnd]))))
  }

  /** What parse_line promises: the line is cut where SplitLine says, the key
      and the value are the spans between those bounds, the cursor moves past
      the CR LF after the value, and only the header table changes. */
  lemma ParseLineStepSpec(input: seq<Byte>, p: Progress)
    requires p.pos <= |input|
    ensures var r := ParseLineStep(input, p);
      r.Err? ==> r.error == TruncatedInput && SplitLine(input, p.pos).Err?
    ensures var r := ParseLineStep(input, p);
      r.Ok? ==>
      && SplitLine(input, p.pos).Ok?
      && var b := SplitLine(input, p.pos).value;
      && r.value.pos == b.valueEnd + 2
      && r.value.request == p.request.(header :=
           Insert(p.request.header, input[p.pos..b.keyEnd], input[b.valueStart..b.valueEnd]))
  {
    SplitLineSpec(input, p.pos);
  }

  /** ParseLineStep at given scan results, for the parser's ParseLine. */
  lemma ParseLineStepAt(input: seq<Byte>, p: Progress, keyEnd: nat, valueStart: nat, valueEnd: nat)
    requires p.pos <= keyEnd < |input| && KeyEnd(input, p.pos) == keyEnd
    requires valueStart < |input| && SeparatorEnd(input, keyEnd) == valueStart
    requires FindCrlf(input, valueStart + (valueStart - keyEnd)) == Some(valueEnd)
    ensures ParseLineStep(input, p) == Ok(Progress(valueEnd + 2, p.request.(header :=
      Insert(p.request.header, input[p.pos..keyEnd], input[valueStart..valueEnd]))))
  {
    SplitLineAt(input, p.pos, keyEnd, valueStart, valueEnd);
  }

  /** parse_line where the key scan finds no separator. */
  lemma ParseLineStepKeyRunsOut(input: seq<Byte>, p: Progress)
    requires p.pos <= |input| && KeyEnd(input, p.pos) == |input|
    ensures ParseLineStep(input, p) == Err(TruncatedInput)
  {
  }

  /** parse_line where the separator runs to the end of the input. */
  lemma ParseLineStepSeparatorRunsOut(input: seq<Byte>, p: Progress, keyEnd: nat)
    requires p.pos <= keyEnd < |input| && KeyEnd(input, p.pos) == keyEnd
    requires SeparatorEnd(input, keyEnd) == |input|
    ensures ParseLineStep(input, p) == Err(TruncatedInput)
  {
  }

  /** parse_line where the value search finds no CR LF. */
  lemma ParseLineStepValueRunsOut(input: seq<Byte>, p: Progress, keyEnd: nat, valueStart: nat)
    requires p.pos <= keyEnd < |input| && KeyEnd(input, p.pos) == keyEnd
    requires valueStart < |input| && SeparatorEnd(input, keyEnd) == valueStart
    requires FindCrlf(input, valueStart + (valueStart - keyEnd)) == None
    ensures ParseLineStep(input, p) == Err(TruncatedInput)
  {
  }

  /** The loop of the Header transition: parse lines while at least two bytes
      remain and they are not CR LF. */
  function HeaderLoop(input: seq<Byte>, p: Progress): (r: Result<Progress>)
    requires p.pos <= |input|
    ensures r.Err? ==> r.error == TruncatedInput
    ensures r.Ok? ==>
      && p.pos <= r.value.pos <= |input|
      && (|input| - r.value.pos < 2 || CrlfAt(input, r.value.pos))
      && r.value.request == p.request.(header := r.value.request.header)
    decreases |input| - p.pos
  {
    if |input| - p.pos < 2 || IsCrlf(input[p.pos], input[p.pos + 1]) then Ok(p)
    else
      match ParseLineStep(input, p)
      case Err(e) => Err(e)
      case Ok(q) => HeaderLoop(input, q)
  }

  /** The Header transition: the loop, then skip_crlf. On success the cursor
      is right after the CR LF that ends the header block. */
  function HeaderStep(input: seq<Byte>, p: Progress): (r: Result<Progress>)
    requires p.pos <= |input|
    ensures r.Ok? ==> p.pos <= r.value.pos <= |input|
  {
    match HeaderLoop(input, p)
    case Err(e) => Err(e)
    case Ok(q) =>
      match AfterCrlf(input, q.pos)
      case Err(e) => Err(e)
      case Ok(pos) => Ok(Progress(pos, q.request))
  }

  /** What the Header transition promises: it fails only on truncated input,
      and on success the two bytes before the cursor are the CR LF that ends
      the header block and only the header table has changed. */
  lemma HeaderStepSpec(input: seq<Byte>, p: Progress)
    requires p.pos <= |input|
    ensures var r := HeaderStep(input, p);
      r.Err? ==> r.error == TruncatedInput
    ensures var r := HeaderStep(input, p);
      r.Ok? ==>
      && p.pos + 2 <= r.value.pos
      && CrlfAt(input, r.value.pos - 2)
      && r.value.request == p.request.(header := r.value.request.header)
  {
  }

  /** One turn of the Header loop: a parsed line, then the rest of the
      transition from where that line ends. */
  lemma HeaderStepContinues(input: seq<Byte>, p: Progress)
    requires p.pos + 2 <= |input| && !IsCrlf(input[p.pos], input[p.pos + 1])
    ensures HeaderStep(input, p) == match ParseLineStep(input, p)
      case Err(e) => Err(e)
      case Ok(q) => HeaderStep(input, q)
  {
  }

  /** Where the Header loop stops, only skip_crlf remains. */
  lemma HeaderStepStops(input: seq<Byte>, p: Progress)
    requires p.pos <= |input|
    requires |input| - p.pos < 2 || IsCrlf(input[p.pos], input[p.pos + 1])
    ensures HeaderStep(input, p) == match AfterCrlf(input, p.pos)
      case Err(e) => Err(e)
      case Ok(pos) => Ok(Progress(pos, p.request))
  {
  }

  /** The Body transition: the whole remaining packet becomes the body. */
  function BodyStep(input: seq<Byte>, p: Progress): (r: Request)
    requires p.pos <= |input|
  {
    p.request.(body := input[p.pos..])
  }

  /** The whole parse, as a driver chains the transitions from `start`. */
  function Parse(input: seq<Byte>): (r: Result<Request>)
  {
    match MethodStep(input, Progress(0, NewRequest()))
    case Err(e) => Err(e)
    case Ok(atUri) =>
      match VersionStep(input, UriStep(input, atUri))
      case Err(e) => Err(e)
      case Ok(atHeader) =>
        match HeaderStep(input, atHeader)
        case Err(e) => Err(e)
        case Ok(atBody) => Ok(BodyStep(input, atBody))
  }
}
