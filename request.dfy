/** The request record the parser fills in, its errors, the parser's state
    tags, and what it means for a stored span to be an untransformed piece of
    the input. */
module HttpRequest {
  import opened HttpSyntax

  /** The parsed request. Every text field is a span of the input buffer; the
      header table maps a key's text to its value's text, so a repeated key
      holds only the value inserted last. */
  datatype Request = Request(
    httpMethod: seq<Byte>,
    requestUri: seq<Byte>,
    httpVersion: seq<Byte>,
    header: map<seq<Byte>, seq<Byte>>,
    body: seq<Byte>)

  /** The record a parser starts from: every span empty, no headers. */
  function NewRequest(): (r: Request) {
    Request([], [], [], map[], [])
  }

  /** InvalidMethod and InvalidVersion carry the rejected token.
      TruncatedInput stands for a scan that runs past the end of the input
      looking for a delimiter. */
  datatype ParsingError =
    | InvalidMethod(token: seq<Byte>)
    | InvalidVersion(token: seq<Byte>)
    | TruncatedInput

  datatype Result<T> = Ok(value: T) | Err(error: ParsingError)

  /** What a fallible transition of the parser object reports. */
  datatype Outcome = Pass | Fail(error: ParsingError)

  datatype RequestLineState = Method | Uri | Version

  /** The closed set of parser states. Consumed marks a parser whose value
      has been given up: a transition failed, or Body handed out the Request. */
  datatype State =
    | RequestLine(part: RequestLineState)
    | Header
    | Body
    | Consumed

  /** `span` occurs, byte for byte, at index `start` of `input`. */
  ghost predicate OccursAt(span: seq<Byte>, input: seq<Byte>, start: int) {
    0 <= start && start + |span| <= |input| && input[start..start + |span|] == span
  }

  /** `span` occurs, byte for byte, somewhere in `input`. */
  ghost predicate Verbatim(span: seq<Byte>, input: seq<Byte>) {
    exists start :: OccursAt(span, input, start)
  }

  /** Every span stored in `r` is an untransformed piece of `input`. */
  ghost predicate SpansIn(r: Request, input: seq<Byte>) {
    && Verbatim(r.httpMethod, input)
    && Verbatim(r.requestUri, input)
    && Verbatim(r.httpVersion, input)
    && Verbatim(r.body, input)
    && forall key :: key in r.header ==> Verbatim(key, input) && Verbatim(r.header[key], input)
  }

  /** Every slice of the input is verbatim in it. */
  lemma SliceVerbatim(input: seq<Byte>, start: nat, end: nat)
    requires start <= end <= |input|
    ensures Verbatim(input[start..end], input)
  {
    assert OccursAt(input[start..end], input, start);
  }

  /** The record Request::new builds satisfies the span invariant for every
      input: its spans are empty and it has no headers. */
  lemma NewRequestSpans(input: seq<Byte>)
    ensures SpansIn(NewRequest(), input)
    ensures NewRequest().header == map[]
  {
    assert OccursAt([], input, 0);
  }

  /** Inserting a verbatim key and value keeps every span verbatim. */
  lemma InsertSpans(r: Request, input: seq<Byte>, key: seq<Byte>, value: seq<Byte>)
    requires SpansIn(r, input) && Verbatim(key, input) && Verbatim(value, input)
    ensures SpansIn(r.(header := r.header[key := value]), input)
  {
  }
}
