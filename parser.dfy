/** The parser object: a cursor over one fully buffered request, the request
    it builds, and its state tag. Each transition method requires the tag of
    its state, changes the cursor and the request in place with the same byte
    scans as the source, and is proved to compute the matching function of
    module Transitions. */
module Parser {
  import opened HttpSyntax
  import opened Scan
  import opened HttpRequest
  import opened Transitions
  import opened Spans

  class HttpRequestParser {
    /** The borrowed input buffer; it never changes. */
    const input: seq<Byte>
    /** The source's `packet` is input[pos..]: each step replaces it with a
        suffix of itself by moving the cursor forward. */
    var pos: nat
    var request: Request
    var state: State

    /** The cursor stays within the input. */
    ghost predicate Valid()
      reads this
    {
      pos <= |input|
    }

    /** The part of the input not yet consumed. */
    function Packet(): (rest: seq<Byte>)
      reads this
      requires pos <= |input|
    {
      input[pos..]
    }

    function Current(): (c: Progress)
      reads this
    {
      Progress(pos, request)
    }

    /** `start`: a parser at the method of the request line, over the whole
        input, with an empty request. */
    constructor Start(packet: seq<Byte>)
      ensures Valid()
      ensures input == packet && pos == 0 && Packet() == packet
      ensures request == NewRequest() && state == RequestLine(Method)
    {
      input := packet;
      pos := 0;
      request := NewRequest();
      state := RequestLine(Method);
    }

    /** skip_spaces: drop the leading run of SPACE bytes, and nothing else. */
    method SkipSpaces()
      requires Valid()
      modifies this`pos
      ensures Valid() && pos == SpaceEnd(input, old(pos))
      ensures forall i :: 0 <= i < |old(Packet())| - |Packet()| ==> old(Packet())[i] == SPACE
      ensures Packet() == [] || Packet()[0] != SPACE
    {
      var curr := 0;
      // byte curr of the packet is input[pos + curr]
      while pos + curr < |input| && input[pos + curr] == SPACE
        invariant pos + curr <= |input|
        invariant SpaceEnd(input, pos + curr) == SpaceEnd(input, pos)
      {
        curr := curr + 1;
      }
      pos := pos + curr;
    }

    /** skip_crlf: drop a leading CR LF and otherwise leave the packet alone.
        `ok` is false where fewer than two bytes remain, the case in which the
        source reads out of range. */
    method SkipCrlf() returns (ok: bool)
      requires Valid()
      modifies this`pos
      ensures Valid()
      ensures ok == AfterCrlf(input, old(pos)).Ok?
      ensures ok ==> pos == AfterCrlf(input, old(pos)).value
      ensures !ok ==> pos == old(pos) && |old(Packet())| < 2
      ensures ok && CrlfAt(input, old(pos)) ==> pos == old(pos) + 2
      ensures ok && !CrlfAt(input, old(pos)) ==> pos == old(pos)
    {
      if |input| - pos < 2 {
        return false;
      }
      if IsCrlf(input[pos], input[pos + 1]) {
        pos := pos + 2;
      }
      ok := true;
    }

    /** parse_until_char: return the bytes before the first `chr` (all that
        remain if there is none) and move the cursor to that `chr`. */
    method ParseUntilChar(chr: Byte) returns (res: seq<Byte>)
      requires Valid()
      modifies this`pos
      ensures Valid() && pos == IndexOf(input, chr, old(pos))
      ensures res == input[old(pos)..pos]
      ensures res + Packet() == old(Packet())
      ensures forall i :: 0 <= i < |res| ==> res[i] != chr
      ensures Packet() == [] || Packet()[0] == chr
    {
      var curr := 0;
      while pos + curr < |input| && input[pos + curr] != chr
        invariant pos + curr <= |input|
        invariant IndexOf(input, chr, pos + curr) == IndexOf(input, chr, pos)
      {
        curr := curr + 1;
      }
      res := input[pos..pos + curr];
      pos := pos + curr;
      assert res + Packet() == old(Packet());
    }

    /** The Method transition. */
    method ParseMethod() returns (r: Outcome)
      requires Valid() && state == RequestLine(Method)
      modifies this
      ensures Valid() && old(pos) <= pos
      ensures MethodStep(input, old(Current())).Ok? ==>
        r == Pass && state == RequestLine(Uri) && Current() == MethodStep(input, old(Current())).value
      ensures MethodStep(input, old(Current())).Err? ==>
        && r == Fail(MethodStep(input, old(Current())).error)
        && state == Consumed && pos == old(pos) && request == old(request)
    {
      ghost var before := Current();
      var curr := ScanMethod(input, pos);
      if pos + curr == |input| {
        // the source indexes past the end here
        MethodStepTruncated(input, before);
        state := Consumed;
        return Fail(TruncatedInput);
      }
      var token := input[pos..pos + curr];
      if !IsValidMethod(token) {
        MethodStepRejects(input, before, pos + curr);
        state := Consumed;
        return Fail(InvalidMethod(token));
      }
      MethodStepAccepts(input, before, pos + curr);
      request := request.(httpMethod := token);
      pos := pos + curr + 1;
      SkipSpaces();
      state := RequestLine(Uri);
      r := Pass;
    }

    /** The Uri transition; it cannot fail. */
    method ParseUri()
      requires Valid() && state == RequestLine(Uri)
      modifies this
      ensures Valid() && old(pos) <= pos
      ensures state == RequestLine(Version) && Current() == UriStep(input, old(Current()))
    {
      var uri := ParseUntilChar(SPACE);
      request := request.(requestUri := uri);
      SkipSpaces();
      state := RequestLine(Version);
    }

    /** The Version transition. */
    method ParseVersion() returns (r: Outcome)
      requires Valid() && state == RequestLine(Version)
      modifies this
      ensures Valid() && old(pos) <= pos
      ensures VersionStep(input, old(Current())).Ok? ==>
        r == Pass && state == Header && Current() == VersionStep(input, old(Current())).value
      ensures VersionStep(input, old(Current())).Err? ==>
        && r == Fail(VersionStep(input, old(Current())).error)
        && state == Consumed && pos == old(pos) && request == old(request)
    {
      ghost var before := Current();
      var curr := ScanVersion(input, pos);
      if pos + curr + 1 >= |input| {
        // the source indexes past the end here
        VersionStepTruncated(input, before);
        state := Consumed;
        return Fail(TruncatedInput);
      }
      var token := input[pos..pos + curr];
      if !IsValidVersion(token) {
        VersionStepRejects(input, before, pos + curr);
        state := Consumed;
        return Fail(InvalidVersion(token));
      }
      VersionStepAccepts(input, before, pos + curr);
      request := request.(httpVersion := token);
      pos := pos + curr + 2;
      state := Header;
      r := Pass;
    }

    /** parse_line: cut one header line and insert it into the header table.
        `ok` is false where one of the scans runs past the end. */
    method ParseLine() returns (ok: bool)
      requires Valid() && state == Header
      modifies this`pos, this`request
      ensures Valid() && old(pos) <= pos
      ensures ok == ParseLineStep(input, old(Current())).Ok?
      ensures ok ==> Current() == ParseLineStep(input, old(Current())).value
      ensures !ok ==> pos == old(pos) && request == old(request)
    {
      ghost var before := Current();
      // the key
      var curr := ScanKey(input, pos);
      if pos + curr == |input| {
        ParseLineStepKeyRunsOut(input, before);
        return false;
      }
      var key := input[pos..pos + curr];
      var keyEnd := pos + curr;

      // the separator: the maximal run of whitespace and colons
      curr := ScanSeparator(input, keyEnd);
      if keyEnd + curr == |input| {
        ParseLineStepSeparatorRunsOut(input, before, keyEnd);
        return false;
      }
      var valueStart := keyEnd + curr;

      // the value: `curr` is not reset, so the search for CR LF starts as
      // many bytes into the value as the separator is long
      curr := ScanValue(input, valueStart, curr);
      if valueStart + curr + 1 >= |input| {
        // the source indexes, or slices, past the end here
        ParseLineStepValueRunsOut(input, before, keyEnd, valueStart);
        return false;
      }
      var value := input[valueStart..valueStart + curr];
      ParseLineStepAt(input, before, keyEnd, valueStart, valueStart + curr);
      request := request.(header := Insert(request.header, key, value));
      pos := valueStart + curr + 2;
      ok := true;
    }

    /** The Header transition: parse lines until CR LF (or fewer than two
        bytes) remain, then skip that CR LF. */
    method ParseHeader() returns (r: Outcome)
      requires Valid() && state == Header
      modifies this
      ensures Valid() && old(pos) <= pos
      ensures HeaderStep(input, old(Current())).Ok? ==>
        r == Pass && state == Body && Current() == HeaderStep(input, old(Current())).value
      ensures HeaderStep(input, old(Current())).Err? ==>
        r == Fail(HeaderStep(input, old(Current())).error) && state == Consumed
    {
      ghost var before := Current();
      while |input| - pos >= 2 && !IsCrlf(input[pos], input[pos + 1])
        invariant Valid() && state == Header && before.pos <= pos
        invariant HeaderStep(input, Current()) == HeaderStep(input, before)
        decreases |input| - pos
      {
        HeaderStepContinues(input, Current());
        var ok := ParseLine();
        if !ok {
          state := Consumed;
          return Fail(TruncatedInput);
        }
      }
      HeaderStepStops(input, Current());
      var ok := SkipCrlf();
      if !ok {
        state := Consumed;
        return Fail(TruncatedInput);
      }
      state := Body;
      r := Pass;
    }

    /** The Body transition: the rest of the packet becomes the body, every
        other field stays, and the finished request is handed out. */
    method ParseBody() returns (req: Request)
      requires Valid() && state == Body
      modifies this
      ensures req == BodyStep(input, old(Current())) && state == Consumed
      ensures req.body == old(Packet())
      ensures req == old(request).(body := req.body)
    {
      request := request.(body := Packet());
      state := Consumed;
      req := request;
    }
  }

  /** The method scan of the Method transition, over the packet
      input[from..]: the length of its leading run of bytes other than SPACE.
      A result that reaches the end of the input is where the source's scan
      runs past it. */
  method ScanMethod(input: seq<Byte>, from: nat) returns (curr: nat)
    requires from <= |input|
    ensures from + curr == IndexOf(input, SPACE, from)
  {
    curr := 0;
    while from + curr < |input| && input[from + curr] != SPACE
      invariant from + curr <= |input|
      invariant IndexOf(input, SPACE, from + curr) == IndexOf(input, SPACE, from)
    {
      curr := curr + 1;
    }
  }

  /** The version scan of the Version transition, over the packet
      input[from..]: the offset of its first CR LF. A result with no two bytes
      left at it says there is none, where the source's scan runs past the
      end. */
  method ScanVersion(input: seq<Byte>, from: nat) returns (curr: nat)
    requires from <= |input|
    ensures from + curr + 1 < |input| ==> FindCrlf(input, from) == Some(from + curr)
    ensures from + curr + 1 >= |input| ==> FindCrlf(input, from) == None
  {
    curr := 0;
    while from + curr + 1 < |input| && !IsCrlf(input[from + curr], input[from + curr + 1])
      invariant FindCrlf(input, from + curr) == FindCrlf(input, from)
    {
      curr := curr + 1;
    }
  }

  /** The key scan of parse_line, over the packet input[from..]: the length
      of its leading run of bytes that are not separators. A result that
      reaches the end of the input is where the source's scan runs past it. */
  method ScanKey(input: seq<Byte>, from: nat) returns (curr: nat)
    requires from <= |input|
    ensures from + curr == KeyEnd(input, from)
  {
    curr := 0;
    while from + curr < |input| && !IsWhitespace(input[from + curr]) && input[from + curr] != COLON
      invariant from + curr <= |input|
      invariant KeyEnd(input, from + curr) == KeyEnd(input, from)
    {
      curr := curr + 1;
    }
  }

  /** The separator scan of parse_line, over the packet input[from..]: the
      length of its leading run of whitespace and colons. A result that
      reaches the end of the input is where the source's scan runs past it. */
  method ScanSeparator(input: seq<Byte>, from: nat) returns (curr: nat)
    requires from <= |input|
    ensures from + curr == SeparatorEnd(input, from)
  {
    curr := 0;
    while from + curr < |input| && (IsWhitespace(input[from + curr]) || input[from + curr] == COLON)
      invariant from + curr <= |input|
      invariant SeparatorEnd(input, from + curr) == SeparatorEnd(input, from)
    {
      curr := curr + 1;
    }
  }

  /** The value scan of parse_line, over the packet input[from..] and
      starting `start` bytes into it (the separator's length, as the source
      leaves its index there): the offset of the first CR LF from there. A
      result with no two bytes left at it says there is none, where the
      source indexes or slices past the end. */
  method ScanValue(input: seq<Byte>, from: nat, start: nat) returns (curr: nat)
    requires from <= |input|
    ensures start <= curr
    ensures from + curr + 1 < |input| ==> FindCrlf(input, from + start) == Some(from + curr)
    ensures from + curr + 1 >= |input| ==> FindCrlf(input, from + start) == None
  {
    curr := start;
    while |input| - from >= 2 && from + curr + 1 < |input|
      && !IsCrlf(input[from + curr], input[from + curr + 1])
      invariant start <= curr
      invariant FindCrlf(input, from + curr) == FindCrlf(input, from + start)
    {
      curr := curr + 1;
    }
  }

  /** A driver that starts a parser on `packet` and advances it through every
      state, stopping at the first error. */
  method ParseRequest(packet: seq<Byte>) returns (r: Result<Request>)
    ensures r == Parse(packet)
    ensures r.Ok? ==> SpansIn(r.value, packet)
  {
    var parser := new HttpRequestParser.Start(packet);
    var outcome := parser.ParseMethod();
    if outcome.Fail? {
      return Err(outcome.error);
    }
    parser.ParseUri();
    outcome := parser.ParseVersion();
    if outcome.Fail? {
      return Err(outcome.error);
    }
    outcome := parser.ParseHeader();
    if outcome.Fail? {
      return Err(outcome.error);
    }
    var request := parser.ParseBody();
    r := Ok(request);
    ParseSpansVerbatim(packet);
  }
}
