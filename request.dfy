/**
 * Request parsing of the server in src/main.rs: the header block is split
 * into lines, the first line into the method, target and version, and every
 * other line into a header field; the message body is cut to the declared
 * `Content-Length`.
 */
module Request {
  import opened Wrappers
  import opened Text
  import opened Numbers

  const CRLF := "\r\n"
  /** The blank line that ends the header block. */
  const HeaderTerminator := "\r\n\r\n"
  const ContentLengthKey := "Content-Length"

  datatype RequestMethod =
    GET | HEAD | POST | PUT | DELETE | CONNECT | OPTIONS | TRACE | PATCH | UNKNOWN

  /** The method tokens the parser recognises, spelled exactly. */
  const MethodNames: set<string> :=
    {"GET", "HEAD", "POST", "PUT", "DELETE", "CONNECT", "OPTIONS", "TRACE", "PATCH"}

  /** The wire spelling of a recognised method. */
  function MethodName(m: RequestMethod): (r: string)
    requires m != UNKNOWN
    ensures r in MethodNames
  {
    match m
    case GET => "GET"
    case HEAD => "HEAD"
    case POST => "POST"
    case PUT => "PUT"
    case DELETE => "DELETE"
    case CONNECT => "CONNECT"
    case OPTIONS => "OPTIONS"
    case TRACE => "TRACE"
    case PATCH => "PATCH"
  }

  /**
   * The method table: a token names a method only when it is spelled exactly
   * (case included) as one of the nine names; anything else is `UNKNOWN`.
   */
  function ClassifyMethod(token: string): (r: RequestMethod)
    ensures r != UNKNOWN <==> token in MethodNames
    ensures r != UNKNOWN ==> MethodName(r) == token
  {
    if token == "GET" then GET
    else if token == "HEAD" then HEAD
    else if token == "POST" then POST
    else if token == "PUT" then PUT
    else if token == "DELETE" then DELETE
    else if token == "CONNECT" then CONNECT
    else if token == "OPTIONS" then OPTIONS
    else if token == "TRACE" then TRACE
    else if token == "PATCH" then PATCH
    else UNKNOWN
  }

  /** The first line of a request: method, target and version. */
  datatype RequestLine = RequestLine(requestMethod: RequestMethod, target: string, version: string)

  /** What the header parser produces (the response line it never fills is left out). */
  datatype HeaderInformation = HeaderInformation(
    requestLine: Option<RequestLine>,
    headerFields: map<string, string>)

  /** A parsed message: the header information and, when a length was declared, the payload. */
  datatype HttpMessage = HttpMessage(headerInfo: HeaderInformation, payload: Option<string>)

  /**
   * The first line can be read without a panic: a recognised method must be
   * followed by at least a target and a version token.
   */
  predicate WellFormedStartLine(line: string) {
    var start := Split(line, " ");
    ClassifyMethod(start[0]) != UNKNOWN ==> |start| >= 3
  }

  /**
   * The request line: present exactly when the first space-separated token
   * is a recognised method, and then carrying the second and third tokens
   * verbatim; further tokens are ignored.
   */
  function RequestLineOf(line: string): (r: Option<RequestLine>)
    requires WellFormedStartLine(line)
    ensures var start := Split(line, " ");
      && (r.Some? <==> start[0] in MethodNames)
      && (r.Some? ==> r.value.requestMethod != UNKNOWN
                      && MethodName(r.value.requestMethod) == start[0]
                      && r.value.target == start[1] && r.value.version == start[2])
  {
    var start := Split(line, " ");
    var requestMethod := ClassifyMethod(start[0]);
    if requestMethod == UNKNOWN then None else Some(RequestLine(requestMethod, start[1], start[2]))
  }

  /** Every recognised method is read back from its own name. */
  lemma ClassifyName(m: RequestMethod)
    requires m != UNKNOWN
    ensures ClassifyMethod(MethodName(m)) == m
  {
  }

  /** Three space-free tokens joined by single spaces split back into those tokens. */
  lemma ThreeTokens(a: string, b: string, c: string)
    requires ' ' !in a && ' ' !in b && ' ' !in c
    ensures Split(a + " " + b + " " + c, " ") == [a, b, c]
  {
    var tokens := [a, b, c];
    assert [b, c][1..] == [c];
    assert Join([b, c], " ") == b + " " + c;
    assert tokens[1..] == [b, c];
    assert Join(tokens, " ") == a + " " + (b + " " + c);
    AppendAssoc(a + " ", b + " ", c);
    AppendAssoc(a + " ", b, " ");
    SplitOfJoin(tokens, " ");
  }

  /**
   * A request line written as `method target version`, with space-free
   * target and version, is read back as exactly that request line.
   */
  lemma RequestLineRoundTrip(m: RequestMethod, target: string, version: string)
    requires m != UNKNOWN && ' ' !in target && ' ' !in version
    ensures WellFormedStartLine(MethodName(m) + " " + target + " " + version)
    ensures RequestLineOf(MethodName(m) + " " + target + " " + version)
         == Some(RequestLine(m, target, version))
  {
    assert ' ' !in MethodName(m);
    ThreeTokens(MethodName(m), target, version);
    ClassifyName(m);
  }

  /** A line of three space-free tokens whose first is not a method holds no request line. */
  lemma NoRequestLine(a: string, b: string, c: string)
    requires ' ' !in a && ' ' !in b && ' ' !in c && a !in MethodNames
    ensures WellFormedStartLine(a + " " + b + " " + c)
    ensures RequestLineOf(a + " " + b + " " + c) == None
  {
    ThreeTokens(a, b, c);
  }

  /** The field name of a header line: everything before its first colon. */
  function FieldName(line: string): string {
    Split(line, ":")[0]
  }

  /** The field value: the pieces after the first one rejoined with colons, trimmed. */
  function FieldValue(line: string): string {
    Trim(Join(Split(line, ":")[1..], ":"))
  }

  /**
   * A header line with a colon is cut at its FIRST colon: the name is the
   * text before it and the value is the trimmed rest, inner colons kept.
   */
  lemma FieldAtFirstColon(line: string, i: nat)
    requires i < |line| && line[i] == ':' && ':' !in line[..i]
    ensures FieldName(line) == line[..i]
    ensures FieldValue(line) == Trim(line[i + 1..])
  {
    assert OccursAt(line, ":", i) by {
      assert line[i..i + 1] == [line[i]];
    }
    forall j | 0 <= j < i ensures !OccursAt(line, ":", j) {
      assert line[j] == line[..i][j];
    }
    SplitAt(line, ":", i);
    assert Split(line, ":")[1..] == Split(line[i + 1..], ":");
  }

  /** A header line without a colon is all name, with an empty value. */
  lemma FieldWithoutColon(line: string)
    requires ':' !in line
    ensures FieldName(line) == line && FieldValue(line) == ""
  {
    forall j | 0 <= j <= |line| ensures !OccursAt(line, ":", j) {
      if j < |line| {
        assert line[j..j + 1] == [line[j]];
      }
    }
    SplitWithout(line, ":");
    assert Trim("") == "";
  }

  /** A line `name: value` with a colon-free name and an untrimmable value. */
  lemma FieldLine(name: string, value: string)
    requires ':' !in name
    requires |value| >= 1 && !IsWhitespace(value[0]) && !IsWhitespace(value[|value| - 1])
    ensures FieldName(name + ": " + value) == name
    ensures FieldValue(name + ": " + value) == value
  {
    var line := name + ": " + value;
    assert line[..|name|] == name;
    assert line[|name|] == ':';
    FieldAtFirstColon(line, |name|);
    assert line[|name| + 1..] == " " + value + "";
    assert AllWhitespace(" ");
    TrimPadded(" ", value, "");
  }

  /**
   * The header map the field lines build, inserting one after the other, so
   * that a later line with the same name replaces an earlier one.
   */
  function FieldsOf(lines: seq<string>): map<string, string> {
    if lines == [] then map[]
    else
      var last := lines[|lines| - 1];
      FieldsOf(lines[..|lines| - 1])[FieldName(last) := FieldValue(last)]
  }

  /** Every name in the map is the name of some field line. */
  lemma {:induction false} FieldsOfKeysFromLines(lines: seq<string>, name: string)
    requires name in FieldsOf(lines)
    ensures exists k :: 0 <= k < |lines| && FieldName(lines[k]) == name
    decreases |lines|
  {
    var init, last := lines[..|lines| - 1], lines[|lines| - 1];
    assert FieldsOf(lines) == FieldsOf(init)[FieldName(last) := FieldValue(last)];
    if name != FieldName(last) {
      FieldsOfKeysFromLines(init, name);
      var k :| 0 <= k < |init| && FieldName(init[k]) == name;
      assert lines[k] == init[k];
    }
  }

  /** Every field line's name is in the map. */
  lemma {:induction false} FieldsOfKeysOfLines(lines: seq<string>, k: nat)
    requires k < |lines|
    ensures FieldName(lines[k]) in FieldsOf(lines)
    decreases |lines|
  {
    var init := lines[..|lines| - 1];
    if k < |init| {
      FieldsOfKeysOfLines(init, k);
      assert init[k] == lines[k];
    }
  }

  /** Last write wins: a name maps to the value of its last line. */
  lemma {:induction false} FieldsOfLastWins(lines: seq<string>, j: nat)
    requires j < |lines|
    requires forall k :: j < k < |lines| ==> FieldName(lines[k]) != FieldName(lines[j])
    ensures FieldName(lines[j]) in FieldsOf(lines)
    ensures FieldsOf(lines)[FieldName(lines[j])] == FieldValue(lines[j])
    decreases |lines|
  {
    var init := lines[..|lines| - 1];
    if j < |lines| - 1 {
      assert forall k :: j < k < |init| ==> init[k] == lines[k];
      FieldsOfLastWins(init, j);
    }
  }

  /** Appending one field line inserts (or replaces) its name in the map. */
  lemma FieldsOfSnoc(init: seq<string>, line: string)
    ensures FieldsOf(init + [line]) == FieldsOf(init)[FieldName(line) := FieldValue(line)]
  {
    assert (init + [line])[..|init|] == init;
  }

  /** Three field lines give the map built by inserting their fields in order. */
  lemma FieldsOfThree(a: string, b: string, c: string)
    ensures FieldsOf([a, b, c])
         == map[FieldName(a) := FieldValue(a)][FieldName(b) := FieldValue(b)][FieldName(c) := FieldValue(c)]
  {
    FieldsOfSnoc([], a);
    assert [] + [a] == [a];
    FieldsOfSnoc([a], b);
    assert [a] + [b] == [a, b];
    FieldsOfSnoc([a, b], c);
    assert [a, b] + [c] == [a, b, c];
  }

  /** Three `name: value` lines give the map of their three fields, inserted in order. */
  lemma FieldsOfThreeLines(na: string, va: string, nb: string, vb: string, nc: string, vc: string)
    requires ':' !in na && ':' !in nb && ':' !in nc
    requires |va| >= 1 && !IsWhitespace(va[0]) && !IsWhitespace(va[|va| - 1])
    requires |vb| >= 1 && !IsWhitespace(vb[0]) && !IsWhitespace(vb[|vb| - 1])
    requires |vc| >= 1 && !IsWhitespace(vc[0]) && !IsWhitespace(vc[|vc| - 1])
    ensures FieldsOf([na + ": " + va, nb + ": " + vb, nc + ": " + vc]) == map[na := va][nb := vb][nc := vc]
  {
    FieldLine(na, va);
    FieldLine(nb, vb);
    FieldLine(nc, vc);
    FieldsOfThree(na + ": " + va, nb + ": " + vb, nc + ": " + vc);
  }

  /** Reading the header block cannot panic. */
  predicate ParsableHeaders(headers: string) {
    WellFormedStartLine(Split(headers, CRLF)[0])
  }

  /**
   * The header information of a header block, and whether it declares a
   * body: the flag is set exactly when `Content-Length` is a field name.
   */
  function HeaderInformationOf(headers: string): (r: (bool, HeaderInformation))
    requires ParsableHeaders(headers)
    ensures r.0 <==> ContentLengthKey in r.1.headerFields
  {
    var lines := Split(headers, CRLF);
    var fields := FieldsOf(lines[1..]);
    (ContentLengthKey in fields, HeaderInformation(RequestLineOf(lines[0]), fields))
  }

  /** A header block made of CR-free lines is read line by line. */
  lemma HeaderInformationOfLines(lines: seq<string>)
    requires |lines| >= 1
    requires forall k :: 0 <= k < |lines| ==> |lines[k]| >= 1 && '\r' !in lines[k]
    requires WellFormedStartLine(lines[0])
    ensures ParsableHeaders(Join(lines, CRLF))
    ensures HeaderInformationOf(Join(lines, CRLF)).1
         == HeaderInformation(RequestLineOf(lines[0]), FieldsOf(lines[1..]))
  {
    HeadAndRest(lines, "");
  }

  /**
   * `parse_header_information`: reads the request line, then inserts the
   * field lines into the header map one by one.
   */
  method ParseHeaderInformation(headers: string) returns (hasContentLength: bool, info: HeaderInformation)
    requires ParsableHeaders(headers)
    ensures (hasContentLength, info) == HeaderInformationOf(headers)
    ensures hasContentLength <==> ContentLengthKey in info.headerFields
  {
    var headerLines := Split(headers, CRLF);
    var start := Split(headerLines[0], " ");
    var requestMethod := ClassifyMethod(start[0]);
    var requestLine: Option<RequestLine> := None;
    if requestMethod != UNKNOWN {
      requestLine := Some(RequestLine(requestMethod, start[1], start[2]));
    }
    var fields: map<string, string> := map[];
    var x := 1;
    while x < |headerLines|
      invariant 1 <= x <= |headerLines|
      invariant fields == FieldsOf(headerLines[1..x])
    {
      var field := headerLines[x];
      var splitField := Split(field, ":");
      var fieldValue := Join(splitField[1..], ":");
      ghost var done := headerLines[1..x + 1];
      assert done[..|done| - 1] == headerLines[1..x] && done[|done| - 1] == field;
      assert FieldsOf(done) == FieldsOf(headerLines[1..x])[FieldName(field) := FieldValue(field)];
      fields := fields[splitField[0] := Trim(fieldValue)];
      x := x + 1;
    }
    assert headerLines[1..x] == headerLines[1..];
    assert requestLine == RequestLineOf(headerLines[0]);
    info := HeaderInformation(requestLine, fields);
    hasContentLength := ContentLengthKey in fields;
  }

  /**
   * A message can be assembled without a panic: the header block reads, and
   * when it declares a length, the value parses as a `usize` and a body
   * segment follows the blank line.
   */
  predicate ParsableMessage(text: string) {
    var segments := Split(text, HeaderTerminator);
    && ParsableHeaders(segments[0])
    && var parsed := HeaderInformationOf(segments[0]);
    && (parsed.0 ==> ParseUsize(parsed.1.headerFields[ContentLengthKey]).Some? && |segments| >= 2)
  }

  /**
   * The message read from the request text: the header information of the
   * part before the first blank line, and a payload exactly when a
   * `Content-Length` field is present. The payload is the second segment cut
   * to the declared length and never padded, so it holds no blank line.
   */
  function HttpMessageOf(text: string): (m: HttpMessage)
    requires ParsableMessage(text)
    ensures var segments := Split(text, HeaderTerminator);
      && m.headerInfo == HeaderInformationOf(segments[0]).1
      && (m.payload.Some? <==> ContentLengthKey in m.headerInfo.headerFields)
      && (m.payload.Some? ==>
            var declared := ParseUsize(m.headerInfo.headerFields[ContentLengthKey]).value;
            && |m.payload.value| == (if declared < |segments[1]| then declared else |segments[1]|)
            && m.payload.value == segments[1][..|m.payload.value|]
            && !Contains(m.payload.value, HeaderTerminator))
  {
    var segments := Split(text, HeaderTerminator);
    var parsed := HeaderInformationOf(segments[0]);
    if parsed.0 then
      var length := ParseUsize(parsed.1.headerFields[ContentLengthKey]).value;
      var data := Truncate(segments[1], length);
      SplitPieces(text, HeaderTerminator, 1);
      PrefixWithout(segments[1], |data|, HeaderTerminator);
      HttpMessage(parsed.1, Some(data))
    else
      HttpMessage(parsed.1, None)
  }

  /** A head of plain lines ended by a blank line is the first segment of the text it starts. */
  lemma HeadSegment(head: string, lines: seq<string>, rest: string)
    requires |lines| >= 1
    requires forall k :: 0 <= k < |lines| ==> |lines[k]| >= 1 && '\r' !in lines[k]
    requires head == Join(lines, CRLF) + HeaderTerminator
    ensures Split(head + rest, HeaderTerminator) == [Join(lines, CRLF)] + Split(rest, HeaderTerminator)
  {
    HeadAndRest(lines, rest);
  }

  /**
   * A message whose head declares exactly the length of what follows the
   * blank line carries that text, up to any further blank line, as payload.
   */
  lemma MessageWithLength(text: string, head: string, body: string, info: HeaderInformation)
    requires Split(text, HeaderTerminator) == [head] + Split(body, HeaderTerminator)
    requires ParsableHeaders(head) && HeaderInformationOf(head).1 == info
    requires ContentLengthKey in info.headerFields
    requires ParseUsize(info.headerFields[ContentLengthKey]) == Some(|body|)
    ensures ParsableMessage(text)
    ensures HttpMessageOf(text) == HttpMessage(info, Some(Split(body, HeaderTerminator)[0]))
  {
    SplitHead(body, HeaderTerminator);
  }

  /**
   * `parse_http_message`: splits the text at blank lines, parses the header
   * block and, when a length is declared, truncates the second segment to it.
   */
  method ParseHttpMessage(text: string) returns (message: HttpMessage)
    requires ParsableMessage(text)
    ensures message == HttpMessageOf(text)
  {
    var splitMessage := Split(text, HeaderTerminator);
    var hasLength, info := ParseHeaderInformation(splitMessage[0]);
    if hasLength {
      var length := ParseUsize(info.headerFields[ContentLengthKey]).value;
      var data := splitMessage[1];
      if length < |data| {
        data := data[..length];
      }
      message := HttpMessage(info, Some(data));
    } else {
      message := HttpMessage(info, None);
    }
  }
}
