/** What the transitions promise beyond their single-step contracts: when the
    request line is accepted, that every listed method and version is
    accepted, how parse_line cuts a line and exactly when the value is the
    text up to the line's CR LF (and three inputs where it is not, one where
    the separator holds no colon), that a
    well-formed header line is read back as written, last-write-wins in the
    header table, and the round trip from a request text without header lines
    to the request it denotes. */
module Properties {
  import opened HttpSyntax
  import opened Scan
  import opened HttpRequest
  import opened Transitions

  // ---------------------------------------------------------------------
  // The request line

  /** The Method transition succeeds exactly when a SPACE follows the cursor
      and the token before the first one is an accepted method. */
  lemma MethodStepOkIff(input: seq<Byte>, p: Progress)
    requires p.pos <= |input|
    ensures MethodStep(input, p).Ok? <==>
      exists end :: FirstSpaceAt(input, p.pos, end) && IsValidMethod(input[p.pos..end])
  {
    var end := IndexOf(input, SPACE, p.pos);
    if MethodStep(input, p).Ok? {
      assert FirstSpaceAt(input, p.pos, end);
    }
    if exists e :: FirstSpaceAt(input, p.pos, e) && IsValidMethod(input[p.pos..e]) {
      var e :| FirstSpaceAt(input, p.pos, e) && IsValidMethod(input[p.pos..e]);
      MethodStepAccepts(input, p, e);
    }
  }

  /** The Version transition succeeds exactly when a CR LF follows the cursor
      and the token before the first one is an accepted version. */
  lemma VersionStepOkIff(input: seq<Byte>, p: Progress)
    requires p.pos <= |input|
    ensures VersionStep(input, p).Ok? <==>
      exists end :: FirstCrlfAt(input, p.pos, end) && IsValidVersion(input[p.pos..end])
  {
    if VersionStep(input, p).Ok? {
      assert FirstCrlfAt(input, p.pos, FindCrlf(input, p.pos).value);
    }
    if exists e :: FirstCrlfAt(input, p.pos, e) && IsValidVersion(input[p.pos..e]) {
      var e :| FirstCrlfAt(input, p.pos, e) && IsValidVersion(input[p.pos..e]);
      VersionStepAccepts(input, p, e);
    }
  }

  /** `text` occurs in `input` at index `at`, stated byte by byte. */
  ghost predicate TextAt(input: seq<Byte>, at: nat, text: seq<Byte>) {
    at + |text| <= |input| && forall i :: 0 <= i < |text| ==> input[at + i] == text[i]
  }

  /** One byte of a text that occurs at `at`. */
  lemma ByteAt(input: seq<Byte>, at: nat, text: seq<Byte>, i: nat)
    requires TextAt(input, at, text) && i < |text|
    ensures input[at + i] == text[i]
  {
  }

  /** A text that occurs at `at` is the slice there. */
  lemma TextAtSlice(input: seq<Byte>, at: nat, text: seq<Byte>)
    requires TextAt(input, at, text)
    ensures input[at..at + |text|] == text
  {
    var slice := input[at..at + |text|];
    assert forall i :: 0 <= i < |text| ==> slice[i] == text[i];
  }

  /** The two halves of a concatenation occur one after the other. */
  lemma TextAtSplit(input: seq<Byte>, at: nat, a: seq<Byte>, b: seq<Byte>)
    requires TextAt(input, at, a + b)
    ensures TextAt(input, at, a) && TextAt(input, at + |a|, b)
  {
    forall i | 0 <= i < |a|
      ensures input[at + i] == a[i]
    {
      assert (a + b)[i] == a[i];
    }
    forall i | 0 <= i < |b|
      ensures input[at + |a| + i] == b[i]
    {
      assert (a + b)[|a| + i] == b[i];
    }
  }

  /** A token without SPACE followed by a SPACE: the search for SPACE from
      the token's start stops right after it, and the slice up to there is
      the token. */
  lemma TokenBeforeSpace(input: seq<Byte>, at: nat, token: seq<Byte>, end: nat)
    requires (forall i :: 0 <= i < |token| ==> token[i] != SPACE) && TextAt(input, at, token + [SPACE])
    requires end == at + |token|
    ensures end < |input| && IndexOf(input, SPACE, at) == end && input[at..end] == token
  {
    TextAtSplit(input, at, token, [SPACE]);
    TextAtSlice(input, at, token);
    forall j | at <= j < end
      ensures input[j] != SPACE
    {
      ByteAt(input, at, token, j - at);
    }
    ByteAt(input, end, [SPACE], 0);
  }

  /** An accepted method followed by a SPACE passes the Method transition:
      it is stored as the method and the cursor moves past the run of spaces
      after it. This holds for each of the listed methods. */
  lemma AcceptsEveryMethod(input: seq<Byte>, p: Progress, token: seq<Byte>)
    requires IsValidMethod(token) && TextAt(input, p.pos, token + [SPACE])
    ensures MethodStep(input, p)
      == Ok(Progress(SpaceEnd(input, p.pos + |token| + 1), p.request.(httpMethod := token)))
  {
    assert forall i :: 0 <= i < |token| ==> token[i] != SPACE;
    TokenBeforeSpace(input, p.pos, token, p.pos + |token|);
    MethodStepAccepts(input, p, p.pos + |token|);
  }

  /** A URI without SPACE, followed by a SPACE, is stored as the URI and the
      cursor moves to the run of spaces after it. */
  lemma UriStepOn(input: seq<Byte>, p: Progress, uri: seq<Byte>)
    requires (forall i :: 0 <= i < |uri| ==> uri[i] != SPACE) && TextAt(input, p.pos, uri + [SPACE])
    ensures UriStep(input, p) == Progress(SpaceEnd(input, p.pos + |uri|), p.request.(requestUri := uri))
  {
    TokenBeforeSpace(input, p.pos, uri, p.pos + |uri|);
  }

  /** An accepted version followed by CR LF passes the Version transition:
      it is stored as the version and the cursor moves right after the CR LF.
      This holds for each of the listed versions. */
  lemma AcceptsEveryVersion(input: seq<Byte>, p: Progress, token: seq<Byte>)
    requires IsValidVersion(token) && TextAt(input, p.pos, token + CRLF)
    ensures VersionStep(input, p)
      == Ok(Progress(p.pos + |token| + 2, p.request.(httpVersion := token)))
  {
    TextAtSplit(input, p.pos, token, CRLF);
    TextAtSlice(input, p.pos, token);
    var end := p.pos + |token|;
    forall j | p.pos <= j < end
      ensures !CrlfAt(input, j)
    {
      ByteAt(input, p.pos, token, j - p.pos);
    }
    ByteAt(input, end, CRLF, 0);
    ByteAt(input, end, CRLF, 1);
    assert CrlfAt(input, end);
    VersionStepAccepts(input, p, end);
  }

  // ---------------------------------------------------------------------
  // Header lines

  /** A header line read at the cursor: the key runs up to the first
      separator at keyEnd, the separator run ends at valueStart, and the value
      ends at the first CR LF found from valueStart + (valueStart - keyEnd),
      which is where the search for CR LF starts. */
  lemma LineFrom(input: seq<Byte>, p: Progress, keyEnd: nat, valueStart: nat, valueEnd: nat)
    requires p.pos <= keyEnd < valueStart && valueStart + (valueStart - keyEnd) <= valueEnd && valueEnd + 2 <= |input|
    requires forall j :: p.pos <= j < keyEnd ==> !IsSeparator(input[j])
    requires forall j :: keyEnd <= j < valueStart ==> IsSeparator(input[j])
    requires !IsSeparator(input[valueStart])
    requires forall j :: valueStart + (valueStart - keyEnd) <= j < valueEnd ==> !CrlfAt(input, j)
    requires CrlfAt(input, valueEnd)
    ensures ParseLineStep(input, p) == Ok(Progress(valueEnd + 2, p.request.(header :=
      Insert(p.request.header, input[p.pos..keyEnd], input[valueStart..valueEnd]))))
  {
    assert IsSeparator(input[keyEnd]);
    assert KeyEnd(input, p.pos) == keyEnd;
    assert SeparatorEnd(input, keyEnd) == valueStart;
    assert FindCrlf(input, valueStart + (valueStart - keyEnd)) == Some(valueEnd);
    ParseLineStepAt(input, p, keyEnd, valueStart, valueEnd);
  }

  /** The value is exactly the text between the separator and the line's CR
      LF when the value is at least as long as the separator and holds no CR
      LF: the search for CR LF, which starts as many bytes into the value as
      the separator is long, then finds the one that ends the line. */
  lemma LineAt(input: seq<Byte>, p: Progress, keyEnd: nat, valueStart: nat, valueEnd: nat)
    requires p.pos <= keyEnd < valueStart <= valueEnd && valueEnd + 2 <= |input|
    requires forall j :: p.pos <= j < keyEnd ==> !IsSeparator(input[j])
    requires forall j :: keyEnd <= j < valueStart ==> IsSeparator(input[j])
    requires !IsSeparator(input[valueStart])
    requires valueStart - keyEnd <= valueEnd - valueStart
    requires forall j :: valueStart <= j < valueEnd ==> !CrlfAt(input, j)
    requires CrlfAt(input, valueEnd)
    ensures ParseLineStep(input, p) == Ok(Progress(valueEnd + 2, p.request.(header :=
      Insert(p.request.header, input[p.pos..keyEnd], input[valueStart..valueEnd]))))
  {
    LineFrom(input, p, keyEnd, valueStart, valueEnd);
  }

  /** The converse of LineAt, and the if-and-only-if the two make: for a
      line cut at bounds `b` whose own CR LF starts at `lineEnd`, the value
      parse_line stores is the line's text up to that CR LF exactly when that
      text is at least as long as the separator. A shorter text means the
      search for CR LF starts past the line's own one. */
  lemma ValueIsLineIff(input: seq<Byte>, p: Progress, b: LineBounds, lineEnd: nat)
    requires p.pos <= |input|
    requires LineSplitAt(input, p.pos, b)
    requires FirstCrlfAt(input, b.valueStart, lineEnd)
    ensures ParseLineStep(input, p).Ok?
    ensures var h := ParseLineStep(input, p).value.request.header;
      input[p.pos..b.keyEnd] in h
      && (h[input[p.pos..b.keyEnd]] == input[b.valueStart..lineEnd]
          <==> b.valueStart - b.keyEnd <= lineEnd - b.valueStart)
  {
    LineFrom(input, p, b.keyEnd, b.valueStart, b.valueEnd);
    // Both are CR LF positions at or after valueStart, and the line's own is
    // the first, so the value does not end before it.
    assert CrlfAt(input, b.valueEnd) && CrlfAt(input, lineEnd);
    assert lineEnd <= b.valueEnd;
    if b.valueStart - b.keyEnd > lineEnd - b.valueStart {
      assert |input[b.valueStart..b.valueEnd]| != |input[b.valueStart..lineEnd]|;
    }
  }

  /** parse_line succeeds exactly when its three scans find bounds for the
      line, and fails only with TruncatedInput. */
  lemma ParseLineStepOkIff(input: seq<Byte>, p: Progress)
    requires p.pos <= |input|
    ensures ParseLineStep(input, p).Ok? <==> exists b :: LineSplitAt(input, p.pos, b)
    ensures ParseLineStep(input, p).Err? ==> ParseLineStep(input, p).error == TruncatedInput
  {
    ParseLineStepSpec(input, p);
    if ParseLineStep(input, p).Ok? {
      SplitLineSpec(input, p.pos);
      assert LineSplitAt(input, p.pos, SplitLine(input, p.pos).value);
    }
    if exists b :: LineSplitAt(input, p.pos, b) {
      var b :| LineSplitAt(input, p.pos, b);
      LineFrom(input, p, b.keyEnd, b.valueStart, b.valueEnd);
    }
  }

  /** A separator that contains the line break of a header line with an
      empty value swallows that break: the next line becomes the value. */
  lemma EmptyValueTakesNextLine(r: Request)
    ensures ParseLineStep("A:\r\nB: cd\r\n\r\n", Progress(0, r))
      == Ok(Progress(11, r.(header := Insert(r.header, "A", "B: cd"))))
  {
    var input: seq<Byte> := "A:\r\nB: cd\r\n\r\n";
    forall j | 4 <= j < 9 ensures !CrlfAt(input, j) {
      assert input[j] != CR;
    }
    LineFrom(input, Progress(0, r), 1, 4, 9);
    assert input[0..1] == "A" && input[4..9] == "B: cd";
  }

  /** A one-byte value after a two-byte separator: the search for CR LF
      starts past the line's own CR, so the value runs into the next line. */
  lemma ShortValueTakesNextLine(r: Request)
    ensures ParseLineStep("X: 1\r\nX: 2\r\n\r\n", Progress(0, r))
      == Ok(Progress(12, r.(header := Insert(r.header, "X", "1\r\nX: 2"))))
  {
    var input: seq<Byte> := "X: 1\r\nX: 2\r\n\r\n";
    forall j | 5 <= j < 10 ensures !CrlfAt(input, j) {
      assert input[j] != CR;
    }
    LineFrom(input, Progress(0, r), 1, 3, 10);
    assert input[0..1] == "X" && input[3..10] == "1\r\nX: 2";
  }

  /** The separator scan accepts any run of whitespace and colons, not only
      the pattern `\s*:\s*` of the source's comment: a key followed by a
      SPACE and no colon is still split from its value. */
  lemma SeparatorWithoutColon(r: Request)
    ensures ParseLineStep("K v\r\n", Progress(0, r))
      == Ok(Progress(5, r.(header := Insert(r.header, "K", "v"))))
  {
    var input: seq<Byte> := "K v\r\n";
    LineFrom(input, Progress(0, r), 1, 2, 3);
    assert input[0..1] == "K" && input[2..3] == "v";
  }

  /** A run of two colons is one separator: with a value at least as long
      as the run, the line is read as its key and value. */
  lemma ColonRunSeparator(r: Request)
    ensures ParseLineStep("K::vw\r\n", Progress(0, r))
      == Ok(Progress(7, r.(header := Insert(r.header, "K", "vw"))))
  {
    var input: seq<Byte> := "K::vw\r\n";
    LineFrom(input, Progress(0, r), 1, 3, 5);
    assert input[0..1] == "K" && input[3..5] == "vw";
  }

  /** Inserting a key twice keeps the later value: last write wins. */
  lemma InsertLastWriteWins(header: map<seq<Byte>, seq<Byte>>, key: seq<Byte>, first: seq<Byte>, second: seq<Byte>)
    ensures Insert(Insert(header, key, first), key, second) == Insert(header, key, second)
  {
  }

  /** One header line of a request text. */
  datatype Field = Field(key: seq<Byte>, value: seq<Byte>)

  /** The separator a well-formed header line uses. */
  const FieldSeparator: seq<Byte> := [COLON, SPACE]

  function FieldLine(f: Field): seq<Byte> {
    f.key + FieldSeparator + f.value + CRLF
  }

  /** A header line the parser reads back as written: a non-empty key of
      non-separator bytes, and a value that does not start with a separator,
      holds no CR LF and is at least as long as the separator ": ". */
  ghost predicate WellFormedField(f: Field) {
    && |f.key| > 0
    && (forall i :: 0 <= i < |f.key| ==> !IsSeparator(f.key[i]))
    && |f.value| >= |FieldSeparator|
    && !IsSeparator(f.value[0])
    && forall i :: 0 <= i < |f.value| - 1 ==> !IsCrlf(f.value[i], f.value[i + 1])
  }

  /** A key of non-separator bytes at `at`. */
  lemma KeyText(input: seq<Byte>, at: nat, key: seq<Byte>)
    requires TextAt(input, at, key) && forall i :: 0 <= i < |key| ==> !IsSeparator(key[i])
    ensures forall j :: at <= j < at + |key| ==> !IsSeparator(input[j])
    ensures input[at..at + |key|] == key
  {
    forall j | at <= j < at + |key|
      ensures !IsSeparator(input[j])
    {
      ByteAt(input, at, key, j - at);
    }
    TextAtSlice(input, at, key);
  }

  /** A value without CR LF, followed by CR LF, at `at`: the first CR LF at or
      after `at` ends the value. */
  lemma ValueText(input: seq<Byte>, at: nat, value: seq<Byte>)
    requires TextAt(input, at, value) && TextAt(input, at + |value|, CRLF)
    requires forall i :: 0 <= i < |value| - 1 ==> !IsCrlf(value[i], value[i + 1])
    ensures at + |value| + 2 <= |input|
    ensures forall j :: at <= j < at + |value| ==> !CrlfAt(input, j)
    ensures CrlfAt(input, at + |value|)
    ensures input[at..at + |value|] == value
  {
    var end := at + |value|;
    ByteAt(input, end, CRLF, 0);
    ByteAt(input, end, CRLF, 1);
    forall j | at <= j < end
      ensures !CrlfAt(input, j)
    {
      ByteAt(input, at, value, j - at);
      if j + 1 < end {
        ByteAt(input, at, value, j + 1 - at);
      }
    }
    TextAtSlice(input, at, value);
  }

  /** The byte facts of a well-formed header line at `at`. */
  lemma FieldLineText(input: seq<Byte>, at: nat, f: Field)
    requires WellFormedField(f) && TextAt(input, at, FieldLine(f))
    ensures at + |FieldLine(f)| <= |input|
    ensures forall j :: at <= j < at + |f.key| ==> !IsSeparator(input[j])
    ensures input[at + |f.key|] == COLON && input[at + |f.key| + 1] == SPACE
    ensures !IsSeparator(input[at + |f.key| + 2])
    ensures forall j :: at + |f.key| + 2 <= j < at + |f.key| + 2 + |f.value| ==> !CrlfAt(input, j)
    ensures CrlfAt(input, at + |f.key| + 2 + |f.value|)
    ensures input[at..at + |f.key|] == f.key
    ensures input[at + |f.key| + 2..at + |f.key| + 2 + |f.value|] == f.value
  {
    var keyEnd := at + |f.key|;
    TextAtSplit(input, at, f.key + FieldSeparator + f.value, CRLF);
    TextAtSplit(input, at, f.key + FieldSeparator, f.value);
    TextAtSplit(input, at, f.key, FieldSeparator);
    KeyText(input, at, f.key);
    ByteAt(input, keyEnd, FieldSeparator, 0);
    ByteAt(input, keyEnd, FieldSeparator, 1);
    ValueText(input, keyEnd + 2, f.value);
    ByteAt(input, keyEnd + 2, f.value, 0);
  }

  /** A well-formed header line at the cursor is parsed back into its key
      and value, and the cursor moves to the next line. */
  lemma FieldLineStep(input: seq<Byte>, p: Progress, f: Field)
    requires WellFormedField(f) && TextAt(input, p.pos, FieldLine(f))
    ensures ParseLineStep(input, p) == Ok(Progress(p.pos + |FieldLine(f)|,
      p.request.(header := Insert(p.request.header, f.key, f.value))))
  {
    var keyEnd := p.pos + |f.key|;
    FieldLineText(input, p.pos, f);
    LineAt(input, p, keyEnd, keyEnd + 2, keyEnd + 2 + |f.value|);
  }

  // ---------------------------------------------------------------------
  // Round trip

  /** The method, its SPACE and the text after it, when that text does not
      start with a space: the Method transition stops right at that text,
      at index `next`. */
  lemma MethodThen(input: seq<Byte>, p: Progress, token: seq<Byte>, rest: seq<Byte>, next: nat)
    requires IsValidMethod(token) && TextAt(input, p.pos, token + [SPACE] + rest)
    requires |rest| > 0 && rest[0] != SPACE && next == p.pos + |token| + 1
    ensures MethodStep(input, p) == Ok(Progress(next, p.request.(httpMethod := token)))
    ensures TextAt(input, next, rest)
  {
    TextAtSplit(input, p.pos, token + [SPACE], rest);
    AcceptsEveryMethod(input, p, token);
    ByteAt(input, next, rest, 0);
  }

  /** The URI, its SPACE and the text after it, when that text does not
      start with a space: the Uri transition stops right at that text, at
      index `next`. */
  lemma UriThen(input: seq<Byte>, p: Progress, uri: seq<Byte>, rest: seq<Byte>, next: nat)
    requires (forall i :: 0 <= i < |uri| ==> uri[i] != SPACE) && TextAt(input, p.pos, uri + [SPACE] + rest)
    requires |rest| > 0 && rest[0] != SPACE && next == p.pos + |uri| + 1
    ensures UriStep(input, p) == Progress(next, p.request.(requestUri := uri))
    ensures TextAt(input, next, rest)
  {
    TextAtSplit(input, p.pos, uri + [SPACE], rest);
    UriStepOn(input, p, uri);
    ByteAt(input, next, rest, 0);
    ByteAt(input, p.pos, uri + [SPACE], |uri|);
  }

  /** The version, its CR LF and the text after it: the Version transition
      stops right at that text, at index `next`. */
  lemma VersionThen(input: seq<Byte>, p: Progress, token: seq<Byte>, rest: seq<Byte>, next: nat)
    requires IsValidVersion(token) && TextAt(input, p.pos, token + CRLF + rest)
    requires next == p.pos + |token| + 2
    ensures VersionStep(input, p) == Ok(Progress(next, p.request.(httpVersion := token)))
    ensures TextAt(input, next, rest)
  {
    TextAtSplit(input, p.pos, token + CRLF, rest);
    AcceptsEveryVersion(input, p, token);
  }

  /** The request line `m SP uri SP version CR LF` at the start of the input
      passes the three request-line transitions, which store the three
      tokens and leave the cursor at the text after the line. */
  lemma RequestLineThen(input: seq<Byte>, r: Request, m: seq<Byte>, uri: seq<Byte>, version: seq<Byte>, rest: seq<Byte>)
    requires IsValidMethod(m) && IsValidVersion(version)
    requires |uri| > 0 && forall i :: 0 <= i < |uri| ==> uri[i] != SPACE
    requires TextAt(input, 0, m + [SPACE] + (uri + [SPACE] + (version + CRLF + rest)))
    ensures MethodStep(input, Progress(0, r)).Ok?
    ensures VersionStep(input, UriStep(input, MethodStep(input, Progress(0, r)).value))
      == Ok(Progress(|m| + |uri| + |version| + 4, r.(httpMethod := m, requestUri := uri, httpVersion := version)))
    ensures TextAt(input, |m| + |uri| + |version| + 4, rest)
  {
    var afterUri := version + CRLF + rest;
    var afterMethod := uri + [SPACE] + afterUri;
    var p0 := Progress(0, r);
    var p1 := Progress(|m| + 1, r.(httpMethod := m));
    var p2 := Progress(|m| + |uri| + 2, p1.request.(requestUri := uri));
    assert afterMethod[0] == uri[0];
    MethodThen(input, p0, m, afterMethod, p1.pos);
    assert afterUri[0] == version[0];
    UriThen(input, p1, uri, afterUri, p2.pos);
    VersionThen(input, p2, version, rest, |m| + |uri| + |version| + 4);
  }

  /** The request text without header lines: the request line, the empty
      line and the body. */
  function BareRequestText(m: seq<Byte>, uri: seq<Byte>, version: seq<Byte>, body: seq<Byte>): (text: seq<Byte>)
    ensures |text| == |m| + |uri| + |version| + |body| + 6
  {
    m + [SPACE] + (uri + [SPACE] + (version + CRLF + (CRLF + body)))
  }

  /** The empty line right at the cursor ends the Header transition with no
      header inserted, and what follows it up to the end of the input is the
      body. */
  lemma EmptyLineThenBody(input: seq<Byte>, p: Progress, body: seq<Byte>)
    requires TextAt(input, p.pos, CRLF + body) && |input| == p.pos + 2 + |body|
    ensures HeaderStep(input, p) == Ok(Progress(p.pos + 2, p.request))
    ensures input[p.pos + 2..] == body
  {
    TextAtSplit(input, p.pos, CRLF, body);
    ByteAt(input, p.pos, CRLF, 0);
    ByteAt(input, p.pos, CRLF, 1);
    HeaderStepStops(input, p);
    TextAtSlice(input, p.pos + 2, body);
  }

  /** Once the request line has passed, the empty line ends the header
      and the rest of the input becomes the body. */
  lemma ParseAfterRequestLine(input: seq<Byte>, m: seq<Byte>, uri: seq<Byte>, version: seq<Byte>, body: seq<Byte>)
    requires MethodStep(input, Progress(0, NewRequest())).Ok?
    requires VersionStep(input, UriStep(input, MethodStep(input, Progress(0, NewRequest())).value))
      == Ok(Progress(|m| + |uri| + |version| + 4, NewRequest().(httpMethod := m, requestUri := uri, httpVersion := version)))
    requires TextAt(input, |m| + |uri| + |version| + 4, CRLF + body)
    requires |input| == |m| + |uri| + |version| + 4 + 2 + |body|
    ensures Parse(input) == Ok(Request(m, uri, version, map[], body))
  {
    var p3 := Progress(|m| + |uri| + |version| + 4, NewRequest().(httpMethod := m, requestUri := uri, httpVersion := version));
    EmptyLineThenBody(input, p3, body);
  }

  /** The round trip: a request line with an accepted method, a non-empty
      URI without SPACE and an accepted version, then the empty line and a
      body, parses back into exactly its parts, with an empty header table
      and the body taken verbatim. */
  lemma ParseRoundTrip(m: seq<Byte>, uri: seq<Byte>, version: seq<Byte>, body: seq<Byte>)
    requires IsValidMethod(m) && IsValidVersion(version)
    requires |uri| > 0 && forall i :: 0 <= i < |uri| ==> uri[i] != SPACE
    ensures Parse(BareRequestText(m, uri, version, body)) == Ok(Request(m, uri, version, map[], body))
  {
    var input := BareRequestText(m, uri, version, body);
    assert TextAt(input, 0, input);
    RequestLineThen(input, NewRequest(), m, uri, version, CRLF + body);
    ParseAfterRequestLine(input, m, uri, version, body);
  }

  // ---------------------------------------------------------------------
  // The request "GET /a HTTP/1.1\r\nHost: x\r\n\r\nbody", which one would
  // expect to give the header Host: x and the body "body"

  const GetToken: seq<Byte> := "GET"
  const SlashA: seq<Byte> := "/a"
  const Http11: seq<Byte> := "HTTP/1.1"
  const HostKey: seq<Byte> := "Host"
  /** What the parser takes as the value of the Host line. */
  const HostValue: seq<Byte> := "x\r\n"
  const BodyText: seq<Byte> := "body"

  /** The example, put together from its parts. */
  const HostExample: seq<Byte> :=
    GetToken + [SPACE] + (SlashA + [SPACE] + (Http11 + CRLF + (HostKey + FieldSeparator + (HostValue + (CRLF + BodyText)))))

  /** Byte for byte, the example is that request text. */
  lemma HostExampleText()
    ensures HostExample == "GET /a HTTP/1.1\r\nHost: x\r\n\r\nbody"
  {
    assert HostExample == "GET /a HTTP/1.1\r\nHost: x\r\n\r\nbody";
  }

  /** The header line "Host: x": its value search starts two bytes into the
      value, past the line's own CR, and stops at the CR LF of the empty
      line, so the value takes the line break with it. */
  lemma HostLineTakesEmptyLine(input: seq<Byte>, at: nat, r: Request)
    requires TextAt(input, at, HostKey + FieldSeparator + (HostValue + (CRLF + BodyText)))
    ensures ParseLineStep(input, Progress(at, r))
      == Ok(Progress(at + 11, r.(header := Insert(r.header, HostKey, HostValue))))
    ensures TextAt(input, at + 11, BodyText)
  {
    TextAtSplit(input, at, HostKey + FieldSeparator, HostValue + (CRLF + BodyText));
    TextAtSplit(input, at, HostKey, FieldSeparator);
    TextAtSplit(input, at + 6, HostValue, CRLF + BodyText);
    TextAtSplit(input, at + 9, CRLF, BodyText);
    forall j | at <= j < at + 4 ensures !IsSeparator(input[j]) {
      ByteAt(input, at, HostKey, j - at);
    }
    ByteAt(input, at + 4, FieldSeparator, 0);
    ByteAt(input, at + 4, FieldSeparator, 1);
    ByteAt(input, at + 6, HostValue, 0);
    ByteAt(input, at + 6, HostValue, 2);
    ByteAt(input, at + 9, CRLF, 0);
    ByteAt(input, at + 9, CRLF, 1);
    TextAtSlice(input, at, HostKey);
    TextAtSlice(input, at + 6, HostValue);
    LineFrom(input, Progress(at, r), at + 4, at + 6, at + 9);
  }

  /** The body that follows is read as a header line whose key scan runs off
      the end. */
  lemma BodyTextAsKey(input: seq<Byte>, at: nat, r: Request)
    requires TextAt(input, at, BodyText) && |input| == at + |BodyText|
    ensures ParseLineStep(input, Progress(at, r)) == Err(TruncatedInput)
  {
    forall j | at <= j < |input| ensures !IsSeparator(input[j]) {
      ByteAt(input, at, BodyText, j - at);
    }
    ParseLineStepKeyRunsOut(input, Progress(at, r));
  }

  /** The example does not parse: the empty line is
      read into the Host value, the body is then read as a header line, and
      the parser fails with TruncatedInput where the source indexes past the
      end. */
  lemma HostExampleTruncated()
    ensures Parse(HostExample) == Err(TruncatedInput)
  {
    var input := HostExample;
    var line := HostKey + FieldSeparator + (HostValue + (CRLF + BodyText));
    assert TextAt(input, 0, input);
    assert GetToken == MethodTokens[1] && Http11 == VersionTokens[2];
    RequestLineThen(input, NewRequest(), GetToken, SlashA, Http11, line);
    var r := NewRequest().(httpMethod := GetToken, requestUri := SlashA, httpVersion := Http11);
    ByteAt(input, 17, line, 0);
    HeaderStepContinues(input, Progress(17, r));
    HostLineTakesEmptyLine(input, 17, r);
    var q := Progress(28, r.(header := Insert(r.header, HostKey, HostValue)));
    ByteAt(input, 28, BodyText, 0);
    HeaderStepContinues(input, q);
    BodyTextAsKey(input, 28, q.request);
  }

  /** A parsed request always carries an accepted method and an accepted
      version. */
  lemma ParseTokensValid(input: seq<Byte>)
    ensures Parse(input).Ok? ==>
      IsValidMethod(Parse(input).value.httpMethod) && IsValidVersion(Parse(input).value.httpVersion)
  {
    var p0 := Progress(0, NewRequest());
    if Parse(input).Ok? {
      MethodStepSpec(input, p0);
      var p1 := MethodStep(input, p0).value;
      UriStepSpec(input, p1);
      var p2 := UriStep(input, p1);
      VersionStepSpec(input, p2);
      var p3 := VersionStep(input, p2).value;
      HeaderStepSpec(input, p3);
    }
  }
}
