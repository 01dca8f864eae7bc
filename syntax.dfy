/** The byte vocabulary of the request parser: the delimiter bytes, the two
    byte classes, and the closed sets of accepted method and version tokens
    (methods as listed in section 5.1.1 of RFC 2616). */
module HttpSyntax {

  /** One octet of the request text. The parser works on the bytes of the
      text, so every character of the model stands for one byte. */
  type Byte = c: char | c as int < 0x100 witness ' '

  const SPACE: Byte := ' '
  const COLON: Byte := ':'
  const CR: Byte := '\r'
  const LF: Byte := '\n'
  const TAB: Byte := '\t'

  /** The line terminator, CR LF. */
  const CRLF: seq<Byte> := [CR, LF]

  /** is_crlf: the two bytes are CR followed by LF, the line terminator. */
  predicate IsCrlf(first: Byte, second: Byte) {
    first == CR && second == LF
  }

  /** is_whitespace. */
  predicate IsWhitespace(b: Byte) {
    b == SPACE || b == LF || b == CR || b == TAB
  }

  /** The whitespace bytes are SPACE, TAB and the two bytes of the line
      terminator. Each of them is an ASCII byte no greater than SPACE, so no
      letter, digit or colon is whitespace. */
  lemma WhitespaceBytes(b: Byte)
    ensures IsWhitespace(b) <==> b in [SPACE, TAB] + CRLF
    ensures IsWhitespace(b) ==> b as int <= SPACE as int && b != COLON
  {
    assert [SPACE, TAB] + CRLF == [SPACE, TAB, CR, LF];
  }

  /** A byte that ends a header key and may occur in the separator that
      follows it: whitespace or the colon. */
  predicate IsSeparator(b: Byte) {
    IsWhitespace(b) || b == COLON
  }

  /** The accepted methods, in the order the source lists them. */
  const MethodTokens: seq<seq<Byte>> :=
    ["OPTIONS", "GET", "HEAD", "POST", "PUT", "DELETE", "TRACE", "CONNECT"]

  /** The accepted versions, in the order the source lists them. */
  const VersionTokens: seq<seq<Byte>> := ["HTTP/1", "HTTP/1.0", "HTTP/1.1", "HTTP/2"]

  /** A short word of upper-case letters. */
  ghost predicate IsUpperWord(token: seq<Byte>) {
    3 <= |token| <= 7 && forall i :: 0 <= i < |token| ==> 'A' <= token[i] <= 'Z'
  }

  /** Starts with "HTTP/" and holds no whitespace and no colon. */
  ghost predicate IsVersionWord(token: seq<Byte>) {
    && 6 <= |token| <= 8 && token[..5] == "HTTP/"
    && forall i :: 0 <= i < |token| ==> !IsSeparator(token[i])
  }

  /** is_valid_method: the token is one of the accepted methods. Each of them
      is a short word of upper-case letters, so an accepted method never
      contains a space or any other delimiter. */
  function IsValidMethod(token: seq<Byte>): (valid: bool)
    ensures valid ==> IsUpperWord(token)
  {
    assert forall k :: 0 <= k < |MethodTokens| ==> IsUpperWord(MethodTokens[k]);
    token in MethodTokens
  }

  /** is_valid_version: the token is one of the accepted versions. Each of
      them starts with "HTTP/" and holds no whitespace and no colon, so in
      particular no CR LF. */
  function IsValidVersion(token: seq<Byte>): (valid: bool)
    ensures valid ==> IsVersionWord(token)
  {
    assert forall k :: 0 <= k < |VersionTokens| ==> IsVersionWord(VersionTokens[k]);
    token in VersionTokens
  }
}
