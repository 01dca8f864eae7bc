# A verified model of the type-state HTTP/1.1 request parser

This project models the request parser of `src/parser.rs`, a zero-copy
HTTP/1.1 request parser. Its request grammar follows section 5 of RFC 2616:
the request line is covered in section 5.1, and the accepted methods in
section 5.1.1. The parser reads one fully buffered request text and goes
through a fixed chain of states:
`RequestLine<Method>` → `RequestLine<Uri>` → `RequestLine<Version>` →
`Header` → `Body`. The last state hands out the `Request` record: method,
request URI, version, a header table, and the body.

The model works on bytes, `type Byte = c: char | c as int < 0x100`. It
has these modules:

- **HttpSyntax** (`syntax.dfy`): the delimiter bytes, `is_crlf` and
  `is_whitespace`, and the header separator class (whitespace or colon). It
  also holds the two closed validation sets, `IsValidMethod` and
  `IsValidVersion`.
- **Scan** (`scan.dfy`): each of the source's `while` scans as a function from
  a start index to the index where it stops. Each contract characterizes
  that index uniquely.
- **HttpRequest** (`request.dfy`): the `Request` record and `Request::new`;
  the errors; the closed set of state tags; and the predicate `SpansIn`,
  "every stored span is an untransformed piece of the input".
- **Transitions** (`transitions.dfy`): each transition as a function on a
  value, `Progress(pos, request)`. The source's cursor `packet` is
  `input[pos..]`. The `...Spec` lemmas say what each transition promises,
  in terms of the input.
- **Parser** (`parser.dfy`): the parser object, a class `HttpRequestParser`.
  Its fields are the borrowed input, the cursor `pos`, the `request` and the
  state tag `state`. Its methods are the source's methods. Each transition
  method `requires` its state tag and sets the next one. Its `ensures` ties
  the new cursor and request to the matching function of `Transitions`.
  - The source's `while` loops over an index `curr` are the module-level
    methods `ScanMethod`, `ScanVersion`, `ScanKey`, `ScanSeparator` and
    `ScanValue`, which the class methods call.
  - Each of these loops also stops at the end of the input, a test the
    source's loops lack. That stop is where the model reports
    `TruncatedInput` and the source would panic (next section).
  - `ParseRequest` is a driver that chains the transitions as `src/main.rs`
    does.
- **Spans** (`spans.dfy`): zero copy. Every transition keeps every span
  stored in the request a verbatim slice of the input, so every span of a
  parsed request is one too.
- **Properties** (`properties.dfy`), the properties that span several steps:
  - the Method and Version transitions succeed exactly when the token is
    accepted;
  - each listed method and version token passes its transition;
  - a header value is read as the text up to its line's CR LF exactly
    when that text is at least as long as the separator before it;
  - a well-formed header line is read back as written;
  - last write wins in the header table;
  - a round trip from a request text without header lines to the request
    it denotes;
  - five concrete inputs that show how the separator and value scans behave:
    - in `EmptyValueTakesNextLine` the separator scan crosses the line break;
    - in `ShortValueTakesNextLine` and `HostLineTakesEmptyLine` the value
      scan runs into the next line;
    - in `SeparatorWithoutColon` a separator without a colon is accepted;
    - in `ColonRunSeparator` a run of two colons is one separator.

## Where the code differs from its comments or from what one would expect

The model follows the code of `src/parser.rs` in each of these cases.

- **Separator without a colon.** The comment at src/parser.rs:255 says the
  separator matches the regular expression `\s*:\s*`. The loop at
  src/parser.rs:258-260 accepts any run of whitespace and colons instead,
  so `K v\r\n` is read as key `K` and value `v`
  (`Properties.SeparatorWithoutColon`), and `K::vw\r\n` as key `K` and
  value `vw` (`Properties.ColonRunSeparator`). A value shorter than its
  separator, such as `v` after `::`, runs into the next line instead (see
  the value scan below).
- **A small request.** One would expect the request
  `"GET /a HTTP/1.1\r\nHost: x\r\n\r\nbody"` to give the header
  `Host: x` and the body `body`.
  - The code instead reads `x\r\n` as the value of `Host`, because the
    value scan skips the first two bytes (next item).
  - It then reads `body` as another header line, whose key scan runs off the
    end. The source indexes out of range there.
  - `Properties.HostExampleTruncated` proves that the model gives
    `Err(TruncatedInput)` for this input.
- **Value scan does not restart at the value's first byte.** `parse_line`
  does not reset its index `curr` between the separator scan
  (src/parser.rs:256-260) and the value scan (src/parser.rs:265-267).
  - The search for CR LF therefore starts as many bytes into the value as
    the separator is long.
  - A value shorter than its separator, such as `1` after `": "`, runs into
    the next line.
  - The model does exactly this: `Transitions.SplitLine` starts the search at
    `valueStart + (valueStart - keyEnd)`.
- **Separator can cross lines.** The separator class includes CR and LF, so
  the separator of a line with an empty value swallows that line's break
  (`Properties.EmptyValueTakesNextLine`).
- **Out-of-range reads.** Every scan that runs past the end of the input
  becomes the extra error `TruncatedInput`. The source indexes or slices out
  of range there and panics. This happens:
  - in the Method scan (`src/parser.rs:177`);
  - in the Version scan (`221`);
  - in the key and separator scans of `parse_line` (`249`, `258`);
  - in the value scan and the slices after it (`265-269`);
  - in `skip_crlf` when fewer than two bytes remain (`124`).

  The source's own errors are only `InvalidMethod` and `InvalidVersion`,
  each carrying the rejected token (`src/parser.rs:340-345`).

## Model

| member | source | states |
|---|---|---|
| HttpSyntax.IsValidMethod | src/parser.rs:320-325 | accepts exactly OPTIONS, GET, HEAD, POST, PUT, DELETE, TRACE and CONNECT; every accepted token is 3 to 7 upper-case letters |
| HttpSyntax.IsCrlf | src/parser.rs:349-351 | true exactly when the first byte is CR and the second LF, the expression of `is_crlf` |
| HttpSyntax.WhitespaceBytes | src/parser.rs:355-357 | a byte is whitespace exactly when it is SPACE, TAB, CR or LF; no whitespace byte is above SPACE or is a colon |
| HttpSyntax.IsValidVersion | src/parser.rs:331-336 | accepts exactly HTTP/1, HTTP/1.0, HTTP/1.1 and HTTP/2; every accepted token starts with "HTTP/" and holds no whitespace or colon |
| Scan.SpaceEnd | src/parser.rs:113-117 | the end of the maximal run of SPACE bytes from the start: all bytes before it are SPACE, the byte at it is not |
| Scan.IndexOf | src/parser.rs:130-134 | the first index holding the given byte, or the end of the input; no earlier byte is that byte |
| Scan.KeyEnd | src/parser.rs:247-251 | the first separator byte (whitespace or colon) from the start, or the end of the input |
| Scan.SeparatorEnd | src/parser.rs:256-260 | the end of the maximal run of separator bytes from the start |
| Scan.FindCrlf | src/parser.rs:219-223 | the first index from the start where CR LF begins, with no CR LF before it; None when there is none |
| HttpRequest.NewRequestSpans | src/parser.rs:65-73 | the record `Request::new` builds has an empty header table and satisfies the span invariant on every input |
| HttpRequest.SliceVerbatim | src/parser.rs:180 | any slice of the input occurs verbatim in the input |
| HttpRequest.InsertSpans | src/parser.rs:271 | inserting a verbatim key and value keeps every stored span verbatim |
| Transitions.MethodStepSpec | src/parser.rs:174-192 | on success the method is the text up to the first SPACE, it is accepted, the cursor moves past that SPACE and the run of spaces after it, and only the method changes; InvalidMethod carries exactly that refused token; otherwise no SPACE follows the cursor |
| Transitions.MethodStepTruncated | src/parser.rs:177-179 | when no byte from the cursor to the end is SPACE, the transition fails with TruncatedInput |
| Transitions.MethodStepRejects | src/parser.rs:180-183 | when the first SPACE after the cursor is at `end` and the bytes before it are not an accepted method, the transition fails with InvalidMethod carrying those bytes |
| Transitions.MethodStepAccepts | src/parser.rs:184-186 | when the first SPACE after the cursor is at `end` and the bytes before it are an accepted method, those bytes become the method and the cursor moves past the run of spaces from `end` |
| Transitions.UriStepSpec | src/parser.rs:201-209 | never fails; the URI is the verbatim text up to the first SPACE or the end, the cursor moves past the run of spaces after it, and only the URI changes |
| Transitions.VersionStepSpec | src/parser.rs:218-235 | on success the version is the text up to the first CR LF, it is accepted, the cursor is right after that CR LF, and only the version changes; InvalidVersion carries exactly the refused token; otherwise no CR LF follows the cursor |
| Transitions.VersionStepTruncated | src/parser.rs:221-223 | when no CR LF begins at any index from the cursor, the transition fails with TruncatedInput |
| Transitions.VersionStepRejects | src/parser.rs:224-227 | when the first CR LF after the cursor begins at `end` and the bytes before it are not an accepted version, the transition fails with InvalidVersion carrying those bytes |
| Transitions.VersionStepAccepts | src/parser.rs:228-229 | when the first CR LF after the cursor begins at `end` and the bytes before it are an accepted version, those bytes become the version and the cursor moves to `end + 2` |
| Transitions.SplitLineSpec | src/parser.rs:247-267 | the key is the maximal run of non-separator bytes; the separator is the maximal run of separator bytes after it; the value ends at the first CR LF found from the value start plus the separator length; every failure is TruncatedInput |
| Transitions.Insert | src/parser.rs:271 | afterwards the key maps to the new value, every other key keeps its value, and no other key appears |
| Transitions.ParseLineStep | src/parser.rs:269 | a parsed line moves the cursor forward by at least four bytes and stays within the input, so the Header loop terminates |
| Transitions.HeaderLoop | src/parser.rs:279-283 | the loop stops with fewer than two bytes left or at CR LF, the cursor only moves forward, only the header table changes, and every failure is TruncatedInput |
| Transitions.HeaderStep | src/parser.rs:278-291 | on success the cursor moves forward and stays within the input |
| Transitions.HeaderStepSpec | src/parser.rs:278-291 | a failure is TruncatedInput; on success the two bytes before the new cursor are the CR LF that ends the header block, and only the header table changed |
| Parser.HttpRequestParser.Start | src/parser.rs:157-163 | a parser over the whole input, at the Method state, with the record of `Request::new` |
| Parser.HttpRequestParser.SkipSpaces | src/parser.rs:112-119 | removes exactly the maximal leading run of SPACE bytes and nothing else; the remaining packet is empty or does not start with SPACE |
| Parser.HttpRequestParser.SkipCrlf | src/parser.rs:122-127 | drops exactly two bytes when the packet starts with CR LF and otherwise leaves it unchanged; fails when fewer than two bytes remain |
| Parser.HttpRequestParser.ParseUntilChar | src/parser.rs:129-138 | the result followed by the new packet is the old packet; the result holds no `chr`; the new packet is empty or starts with `chr` |
| Parser.HttpRequestParser.ParseMethod | src/parser.rs:174-192 | from the Method state, computes MethodStep; moves to the Uri state on success; on failure reports the error and changes neither cursor nor request |
| Parser.HttpRequestParser.ParseUri | src/parser.rs:201-209 | from the Uri state, computes UriStep and moves to the Version state |
| Parser.HttpRequestParser.ParseVersion | src/parser.rs:218-235 | from the Version state, computes VersionStep; moves to the Header state on success; on failure reports the error and changes neither cursor nor request |
| Parser.HttpRequestParser.ParseLine | src/parser.rs:245-272 | computes ParseLineStep with the source's three scans, including the index that is not reset; on failure changes nothing |
| Parser.HttpRequestParser.ParseHeader | src/parser.rs:278-291 | from the Header state, computes HeaderStep with a loop over ParseLine, then skip_crlf; moves to the Body state on success |
| Parser.HttpRequestParser.ParseBody | src/parser.rs:302-305 | the body is exactly the remaining packet; every other field is unchanged; the record is handed out |
| Parser.ScanMethod | src/parser.rs:175-179 | the method scan stops at the first SPACE, or at the end where the source reads past it |
| Parser.ScanVersion | src/parser.rs:219-223 | the version scan stops at the first CR LF; stopping without two bytes left means there is none |
| Parser.ScanKey | src/parser.rs:247-251 | the key scan stops at the first separator byte |
| Parser.ScanSeparator | src/parser.rs:256-260 | the separator scan stops at the end of the run of separator bytes |
| Parser.ScanValue | src/parser.rs:264-267 | the value scan starts at the separator's length and stops at the first CR LF from there; stopping without two bytes left means there is none |
| Parser.ParseRequest | src/main.rs:15-25 | chaining start and every transition computes Parse, and every span of the result is a verbatim slice of the input |
| Spans.MethodStepSpans | src/parser.rs:180-184 | the Method transition keeps every stored span verbatim |
| Spans.UriStepSpans | src/parser.rs:202 | the Uri transition keeps every stored span verbatim |
| Spans.VersionStepSpans | src/parser.rs:224-228 | the Version transition keeps every stored span verbatim |
| Spans.ParseLineStepSpans | src/parser.rs:252-271 | parse_line inserts a verbatim key and a verbatim value |
| Spans.HeaderLoopSpans | src/parser.rs:280-283 | the Header loop keeps every stored span verbatim |
| Spans.HeaderStepSpans | src/parser.rs:278-291 | the Header transition keeps every stored span verbatim |
| Spans.BodyStepSpans | src/parser.rs:303 | the body is a verbatim slice of the input |
| Spans.ParseSpansVerbatim | src/parser.rs:42-48 | every span of a parsed request (method, URI, version, each header key and value, body) is an untransformed piece of the input |
| Properties.MethodStepOkIff | src/parser.rs:177-183 | the Method transition succeeds if and only if there is an index where the first SPACE after the cursor lies and the bytes before it are an accepted method |
| Properties.VersionStepOkIff | src/parser.rs:221-227 | the Version transition succeeds if and only if there is an index where the first CR LF after the cursor begins and the bytes before it are an accepted version |
| Properties.ParseLineStepOkIff | src/parser.rs:245-272 | parse_line succeeds if and only if the line splits into a key of non-separator bytes, a separator run ending before a non-separator byte, and a value ending at the first CR LF searched from the value start plus the separator length; every failure is TruncatedInput |
| Properties.AcceptsEveryMethod | src/parser.rs:174-186 | each accepted method followed by SPACE is stored, and the cursor moves past the spaces after it |
| Properties.UriStepOn | src/parser.rs:201-203 | a URI without SPACE followed by SPACE is stored as it is |
| Properties.AcceptsEveryVersion | src/parser.rs:218-229 | each accepted version followed by CR LF is stored, and the cursor moves right after the CR LF |
| Properties.LineFrom | src/parser.rs:245-272 | a header line whose scans stop at given bounds inserts exactly the key and value between them |
| Properties.LineAt | src/parser.rs:263-269 | a value at least as long as its separator and without CR LF is read exactly up to its line's CR LF |
| Properties.ValueIsLineIff | src/parser.rs:256-271 | both directions: the stored value is the line's text up to its own CR LF exactly when that text is at least as long as the separator, since the CR LF search starts the separator's length into the value |
| Properties.EmptyValueTakesNextLine | src/parser.rs:256-260 | after `A:` with an empty value, the separator swallows the line break and `B: cd` becomes the value of `A` |
| Properties.SeparatorWithoutColon | src/parser.rs:255-261 | in `K v` the single SPACE is taken as the separator, although it holds no colon, and `K` maps to `v` |
| Properties.ColonRunSeparator | src/parser.rs:256-269 | in `K::vw` the run `::` is one separator and `K` maps to `vw`, the value being as long as the separator |
| Properties.ShortValueTakesNextLine | src/parser.rs:256-268 | in `X: 1` the value search starts past the line's CR, so the value of `X` is `1\r\nX: 2` |
| Properties.InsertLastWriteWins | src/parser.rs:271 | inserting a key twice keeps only the later value |
| Properties.FieldLineStep | src/parser.rs:245-272 | a well-formed header line `key: value\r\n` is parsed back into exactly its key and value, and the cursor moves to the next line |
| Properties.RequestLineThen | src/parser.rs:174-235 | a request line `method SP uri SP version CRLF` passes the three request-line transitions, which store exactly its three tokens and stop right after it |
| Properties.EmptyLineThenBody | src/parser.rs:280-284 | the empty line at the cursor ends the Header transition with no header inserted |
| Properties.ParseAfterRequestLine | src/parser.rs:278-305 | after the request line, an empty line and a body give the request with that body verbatim |
| Properties.ParseRoundTrip | src/parser.rs:174-305 | the text of an accepted method, a URI without SPACE, an accepted version, the empty line and a body parses to exactly those parts, with an empty header table |
| Properties.HostLineTakesEmptyLine | src/parser.rs:256-269 | in the Host request above, the value of `Host` is `x\r\n`: the search for CR LF skips the line's own CR |
| Properties.BodyTextAsKey | src/parser.rs:249-251 | the body text left after that line is read as a header key whose scan runs off the end |
| Properties.HostExampleTruncated | src/parser.rs:245-291 | the Host request above does not parse: it gives TruncatedInput |
| Properties.ParseTokensValid | src/parser.rs:181-183 | a parsed request always carries an accepted method and an accepted version |

## Left out

- Out-of-range reads: each panic of the source becomes the error
  `TruncatedInput`. The source has no such error.
- Moving `self`: after a failed transition, or after Body hands out the
  record, the state tag becomes `Consumed`. This stands for Rust moving the
  parser value away. The source's failed transitions return only the
  error.
- The generic `Parse` trait, its associated `NextState` types and the sealed
  trait (src/parser.rs:20-26, 79-94, 166) are Rust's type-level encoding of
  the state chain. They become the `State` tag and `requires` clauses.
- Borrowing and lifetimes: the packet is the cursor `pos` into an input that
  never changes, and spans are subsequences of that input.
- UTF-8: `&str` slicing panics off a character boundary. The model works on
  bytes and has no such case.
- `HashMap`: hashing and capacity are not modelled; the header table is a
  Dafny `map`.
- `#[derive(Debug)]`, the `thiserror` display strings and the `to_string()`
  copies of rejected tokens are left out. Only the error variant and its
  token are modelled.
- The commented-out `RequestMethod` enum (src/parser.rs:51-61) is dead code.
- `src/main.rs` prints each parser state; the printing is left out, and only
  its chain of calls is modelled, by `Parser.ParseRequest`.
- Parser.HttpRequestParser.ParseUri: the source returns a `Result` that is
  always `Ok`; the model's method returns nothing.
- Properties.ParseRoundTrip: covers requests without header lines. The
  header lines of a request are covered one line at a time by
  `Properties.FieldLineStep` together with the helper lemma
  `Transitions.HeaderStepContinues`. A lemma chaining them over a whole
  header block is not part of this model.
- Properties.FieldLineStep: covers only well-formed lines. A well-formed line
  has a non-empty key of non-separator bytes and the separator `": "`. Its
  value does not start with a separator, holds no CR LF, and is at least two
  bytes long. Other lines are covered by `Properties.ParseLineStepOkIff`,
  `Transitions.ParseLineStepSpec` and the concrete lemmas.
