/**
 * Response building of the server in src/main.rs: the content type chosen
 * from the target's extension, the file path under the root, and the bytes
 * of a `200 OK` response carrying the file.
 */
module Response {
  import opened Wrappers
  import opened Text
  import opened Numbers
  import opened Request

  datatype FileType = HTML | HTM | CSS | JS | PNG | JPG | JPEG | UNKNOWN

  /** The extension table: exact, case-sensitive extensions and their types. */
  const ContentTypes: map<string, string> := map[
    "html" := "text/html", "htm" := "text/html", "css" := "text/css",
    "jpeg" := "image/jpeg", "jpg" := "image/jpeg", "png" := "image/png",
    "js" := "text/javascript"]

  /** The type sent for every target the table does not cover. */
  const DefaultContentType := "text/plain"

  /** Every content type a response can carry. */
  const MimeTypes: set<string> :=
    {"text/html", "text/css", "image/jpeg", "image/png", "text/javascript", "text/plain"}

  /** The extension match: a known extension gives its file type, any other `FileType.UNKNOWN`. */
  function FileTypeOfExtension(ext: string): (r: FileType)
    ensures r != FileType.UNKNOWN <==> ext in ContentTypes
    ensures r != FileType.UNKNOWN ==> MimeType(r) == ContentTypes[ext]
  {
    if ext == "html" then HTML
    else if ext == "htm" then HTM
    else if ext == "css" then CSS
    else if ext == "jpeg" then JPEG
    else if ext == "jpg" then JPG
    else if ext == "png" then PNG
    else if ext == "js" then JS
    else FileType.UNKNOWN
  }

  /** The content-type match: `text/plain` exactly for `FileType.UNKNOWN`. */
  function MimeType(ft: FileType): (r: string)
    ensures r in MimeTypes
    ensures r == DefaultContentType <==> ft == FileType.UNKNOWN
  {
    match ft
    case HTM => "text/html"
    case HTML => "text/html"
    case JPG => "image/jpeg"
    case JPEG => "image/jpeg"
    case PNG => "image/png"
    case JS => "text/javascript"
    case CSS => "text/css"
    case UNKNOWN => "text/plain"
  }

  /**
   * The file type of a target: only a target that splits on `.` into
   * exactly two pieces, that is one with exactly one dot, can have a known
   * type, and then the piece after the dot decides it.
   */
  function FileTypeOf(uri: string): (r: FileType)
    ensures r != FileType.UNKNOWN ==> multiset(uri)['.'] == 1
  {
    var parts := Split(uri, ".");
    SplitCount(uri, '.');
    if |parts| == 2 then FileTypeOfExtension(parts[1]) else FileType.UNKNOWN
  }

  /** The content type sent for a target; `text/plain` unless it has exactly one dot. */
  function ContentTypeOf(uri: string): (r: string)
    ensures r in MimeTypes
    ensures multiset(uri)['.'] != 1 ==> r == DefaultContentType
  {
    MimeType(FileTypeOf(uri))
  }

  /**
   * For a target with a single dot, the text after the dot is looked up in
   * the extension table; an extension outside it gives `text/plain`.
   */
  lemma ContentTypeOfExtension(name: string, ext: string)
    requires '.' !in name && '.' !in ext
    ensures ContentTypeOf(name + "." + ext)
         == if ext in ContentTypes then ContentTypes[ext] else DefaultContentType
  {
    assert Join([name, ext], ".") == name + "." + ext;
    SplitOfJoin([name, ext], ".");
  }

  /** A path as the sequence of pieces pushed onto it, root first. */
  type Path = seq<string>

  /** The directory under the root that holds the served files. */
  const StaticDir := "html/static"

  /**
   * `&uri[1..]` does not panic: the target is not empty and its first
   * character is a single UTF-8 byte, so byte offset 1 is a character
   * boundary.
   */
  predicate Sliceable(uri: string) {
    |uri| >= 1 && uri[0] as int < 128
  }

  /**
   * The path of a target: the root, then `html/static`, then the target
   * without its first character, taken verbatim (no decoding, no check
   * for `..`).
   */
  function ResolvePath(root: string, uri: string): (p: Path)
    requires Sliceable(uri)
    ensures |p| == 3 && p[0] == root && p[1] == StaticDir
    ensures [uri[0]] + p[2] == uri
  {
    [root, StaticDir, uri[1..]]
  }

  /** The readable files: a path opens exactly when it is a key. */
  type FileSystem = map<Path, seq<byte>>

  /** What is sent for a path: the file's bytes, or nothing when it cannot be opened. */
  function FileBody(fs: FileSystem, path: Path): seq<byte> {
    if path in fs then fs[path] else []
  }

  const StatusLine := "HTTP/1.1 200 OK\r\n"
  const ServerLine := "Server: rust_test\r\n"

  /** `build_headers`: the status line and the `Server` line, each ended by CRLF. */
  function BuildHeaders(): string {
    StatusLine + ServerLine
  }

  /** Split into lines, the fixed head is the `200 OK` status line and the `Server` line. */
  lemma BuildHeadersLines()
    ensures Split(BuildHeaders(), CRLF) == ["HTTP/1.1 200 OK", "Server: rust_test", ""]
  {
    assert Join(["HTTP/1.1 200 OK", "Server: rust_test", ""], CRLF) == BuildHeaders();
    SplitOfJoin(["HTTP/1.1 200 OK", "Server: rust_test", ""], CRLF);
  }

  /** The `Content-Type` line for a content type. */
  function ContentTypeLine(contentType: string): string {
    "Content-Type: " + contentType + CRLF
  }

  /** The `Content-Length` line with the blank line that ends the head. */
  function ContentLengthLine(length: nat): string {
    "Content-Length: " + Decimal(length) + CRLF + CRLF
  }

  /** The `Content-Type` and `Content-Length` lines and the blank line. */
  function EntityHeaders(contentType: string, length: nat): string {
    ContentTypeLine(contentType) + ContentLengthLine(length)
  }

  /** Everything a response holds before its body. */
  function ResponseHead(contentType: string, length: nat): string {
    BuildHeaders() + EntityHeaders(contentType, length)
  }

  /**
   * A header value the field parser reads back unchanged: non-empty, no
   * carriage return, and no whitespace at either end for `trim` to drop.
   */
  predicate PlainValue(v: string) {
    |v| >= 1 && '\r' !in v && !IsWhitespace(v[0]) && !IsWhitespace(v[|v| - 1])
  }

  /** Every content type the server sends is such a value. */
  lemma MimeTypePlain(contentType: string)
    requires contentType in MimeTypes
    ensures PlainValue(contentType)
  {
  }

  /** The content types are ASCII, so their bytes are their characters. */
  lemma MimeTypeAscii(contentType: string)
    requires contentType in MimeTypes
    ensures IsAscii(contentType)
  {
  }

  /** The head is ASCII, and its bytes are those of its parts in order. */
  lemma ResponseHeadAscii(contentType: string, length: nat)
    requires contentType in MimeTypes
    ensures IsAscii(ContentTypeLine(contentType)) && IsAscii(ContentLengthLine(length))
    ensures IsAscii(BuildHeaders()) && IsAscii(EntityHeaders(contentType, length))
    ensures IsAscii(ResponseHead(contentType, length))
    ensures Bytes(EntityHeaders(contentType, length))
         == Bytes(ContentTypeLine(contentType)) + Bytes(ContentLengthLine(length))
    ensures Bytes(ResponseHead(contentType, length))
         == Bytes(BuildHeaders()) + Bytes(EntityHeaders(contentType, length))
  {
    var digits := Decimal(length);
    assert IsAscii(digits) by {
      forall k | 0 <= k < |digits| ensures digits[k] as int < 128 {
        assert IsDigit(digits[k]);
      }
    }
    MimeTypeAscii(contentType);
    assert IsAscii(StatusLine) && IsAscii(ServerLine) && IsAscii("Content-Type: ")
        && IsAscii(CRLF) && IsAscii("Content-Length: ");
    AsciiAppend(StatusLine, ServerLine);
    AsciiAppend("Content-Type: ", contentType);
    AsciiAppend("Content-Type: " + contentType, CRLF);
    AsciiAppend("Content-Length: ", digits);
    AsciiAppend("Content-Length: " + digits, CRLF);
    AsciiAppend("Content-Length: " + digits + CRLF, CRLF);
    BytesAppend(ContentTypeLine(contentType), ContentLengthLine(length));
    BytesAppend(BuildHeaders(), EntityHeaders(contentType, length));
  }

  /** The status and server lines followed by the entity headers make the whole head. */
  lemma ResponseAssembly(contentType: string, body: seq<byte>)
    requires contentType in MimeTypes
    ensures IsAscii(BuildHeaders()) && IsAscii(EntityHeaders(contentType, |body|))
    ensures IsAscii(ResponseHead(contentType, |body|))
    ensures Bytes(BuildHeaders()) + (Bytes(EntityHeaders(contentType, |body|)) + body)
         == Bytes(ResponseHead(contentType, |body|)) + body
  {
    ResponseHeadAscii(contentType, |body|);
    AppendAssoc(Bytes(BuildHeaders()), Bytes(EntityHeaders(contentType, |body|)), body);
  }

  /**
   * `build_get_response`: the `Content-Type` line for the target's type,
   * the `Content-Length` line and the blank line, then the file's bytes.
   * The length is that of the bytes sent: the file's size when it opens,
   * and 0 with no body when it does not.
   */
  method BuildGetResponse(uri: string, root: string, fs: FileSystem) returns (result: seq<byte>)
    requires Sliceable(uri)
    ensures var body := FileBody(fs, ResolvePath(root, uri));
      && IsAscii(EntityHeaders(ContentTypeOf(uri), |body|))
      && result == Bytes(EntityHeaders(ContentTypeOf(uri), |body|)) + body
    ensures ResolvePath(root, uri) !in fs ==> result == Bytes(EntityHeaders(ContentTypeOf(uri), 0))
  {
    var splitMessage := Split(uri, ".");
    var fileType := FileType.UNKNOWN;
    if |splitMessage| == 2 {
      fileType := FileTypeOfExtension(splitMessage[1]);
    }
    var path := ResolvePath(root, uri);
    var response: seq<byte> := [];
    var file: Option<seq<byte>> := if path in fs then Some(fs[path]) else None;
    var contentType := ContentTypeLine(MimeType(fileType));
    var conLen := 0;
    if file.Some? {
      conLen := |file.value|;
      response := file.value;
    }
    var contentLength := ContentLengthLine(conLen);
    assert fileType == FileTypeOf(uri);
    ResponseHeadAscii(MimeType(fileType), conLen);
    result := Bytes(contentType);
    result := result + Bytes(contentLength);
    result := result + response;
  }

  /**
   * `parse_request`: a `200 OK` response for the target of the request line,
   * whatever the outcome of opening the file.
   */
  method ParseRequest(request: HttpMessage, root: string, fs: FileSystem) returns (response: seq<byte>)
    requires request.headerInfo.requestLine.Some?
    requires Sliceable(request.headerInfo.requestLine.value.target)
    ensures var target := request.headerInfo.requestLine.value.target;
      var body := FileBody(fs, ResolvePath(root, target));
      && IsAscii(ResponseHead(ContentTypeOf(target), |body|))
      && response == Bytes(ResponseHead(ContentTypeOf(target), |body|)) + body
  {
    var reqLine := request.headerInfo.requestLine.value;
    ghost var contentType := ContentTypeOf(reqLine.target);
    ghost var body := FileBody(fs, ResolvePath(root, reqLine.target));
    ResponseAssembly(contentType, body);
    response := Bytes(BuildHeaders());
    var getResponse := BuildGetResponse(reqLine.target, root, fs);
    response := response + getResponse;
  }

  /** The request can be answered without a panic. */
  predicate Servable(text: string) {
    && ParsableMessage(text)
    && var line := HttpMessageOf(text).headerInfo.requestLine;
    && line.Some? && Sliceable(line.value.target)
  }

  /**
   * The handling of one connection's text: parse it, then answer the
   * target of its request line.
   */
  method Respond(text: string, root: string, fs: FileSystem) returns (response: seq<byte>)
    requires Servable(text)
    ensures var target := HttpMessageOf(text).headerInfo.requestLine.value.target;
      var body := FileBody(fs, ResolvePath(root, target));
      && IsAscii(ResponseHead(ContentTypeOf(target), |body|))
      && response == Bytes(ResponseHead(ContentTypeOf(target), |body|)) + body
  {
    var message := ParseHttpMessage(text);
    response := ParseRequest(message, root, fs);
  }

  /**
   * The lines of a response head, before the blank line. The first two are
   * `StatusLine` and `ServerLine` without their CRLF; `ResponseHeadLines`
   * proves that joining these lines gives back `ResponseHead`.
   */
  function ResponseLines(contentType: string, length: nat): seq<string> {
    ["HTTP/1.1 200 OK", "Server: rust_test",
     "Content-Type: " + contentType, "Content-Length: " + Decimal(length)]
  }

  /** The header fields a response head carries. */
  function ResponseFields(contentType: string, length: nat): map<string, string> {
    map["Server" := "rust_test", "Content-Type" := contentType, "Content-Length" := Decimal(length)]
  }

  /** The head is its four lines joined with CRLF, then the blank line. */
  lemma ResponseHeadLines(contentType: string, length: nat)
    ensures ResponseHead(contentType, length)
         == Join(ResponseLines(contentType, length), CRLF) + HeaderTerminator
  {
    JoinFour("HTTP/1.1 200 OK", "Server: rust_test", "Content-Type: " + contentType,
      "Content-Length: " + Decimal(length), CRLF);
  }

  /** The head's lines are not empty and hold no carriage return, colon-free names first. */
  lemma ResponseLinesPlain(contentType: string, length: nat)
    requires PlainValue(contentType)
    ensures var lines := ResponseLines(contentType, length);
      forall k :: 0 <= k < |lines| ==> |lines[k]| >= 1 && '\r' !in lines[k]
  {
    var digits := Decimal(length);
    forall k | 0 <= k < |digits| ensures digits[k] != '\r' {
      assert IsDigit(digits[k]);
    }
  }

  /** The status line of a response is not a request line. */
  lemma StatusLineIsNoRequest()
    ensures WellFormedStartLine("HTTP/1.1 200 OK")
    ensures RequestLineOf("HTTP/1.1 200 OK") == None
  {
    assert "HTTP/1.1" + " " + "200" + " " + "OK" == "HTTP/1.1 200 OK";
    NoRequestLine("HTTP/1.1", "200", "OK");
  }

  /** The field lines of a response, read as header fields. */
  lemma ResponseFieldLines(contentType: string, length: nat)
    requires PlainValue(contentType)
    ensures FieldsOf(ResponseLines(contentType, length)[1..]) == ResponseFields(contentType, length)
  {
    var digits := Decimal(length);
    assert IsDigit(digits[0]) && IsDigit(digits[|digits| - 1]);
    assert "Server: rust_test" == "Server" + ": " + "rust_test";
    assert "Content-Type: " == "Content-Type" + ": ";
    AppendAssoc("Content-Type", ": ", contentType);
    assert "Content-Length: " == "Content-Length" + ": ";
    AppendAssoc("Content-Length", ": ", digits);
    assert ResponseLines(contentType, length)[1..]
        == ["Server" + ": " + "rust_test", "Content-Type" + ": " + contentType,
            "Content-Length" + ": " + digits];
    FieldsOfThreeLines("Server", "rust_test", "Content-Type", contentType, "Content-Length", digits);
  }

  /** The head is its plain lines joined with CRLF, then the blank line. */
  lemma ResponseHeadPlain(contentType: string, length: nat)
    requires PlainValue(contentType)
    ensures var lines := ResponseLines(contentType, length);
      && ResponseHead(contentType, length) == Join(lines, CRLF) + HeaderTerminator
      && |lines| >= 1
      && forall k :: 0 <= k < |lines| ==> |lines[k]| >= 1 && '\r' !in lines[k]
  {
    ResponseHeadLines(contentType, length);
    ResponseLinesPlain(contentType, length);
  }

  /** A response's text splits at its blank line into its head lines and its body. */
  lemma ResponseSegments(contentType: string, body: string, head: string, lines: seq<string>)
    requires PlainValue(contentType)
    requires head == ResponseHead(contentType, |body|) && lines == ResponseLines(contentType, |body|)
    ensures Split(head + body, HeaderTerminator) == [Join(lines, CRLF)] + Split(body, HeaderTerminator)
  {
    ResponseHeadPlain(contentType, |body|);
    HeadSegment(head, lines, body);
  }

  /** A response's head lines hold no request line and exactly the three fields. */
  lemma ResponseHeaderInformation(contentType: string, length: nat, lines: seq<string>)
    requires PlainValue(contentType) && lines == ResponseLines(contentType, length)
    ensures ParsableHeaders(Join(lines, CRLF))
    ensures HeaderInformationOf(Join(lines, CRLF)).1
         == HeaderInformation(None, ResponseFields(contentType, length))
  {
    ResponseLinesPlain(contentType, length);
    StatusLineIsNoRequest();
    HeaderInformationOfLines(lines);
    ResponseFieldLines(contentType, length);
  }

  /** A response's text reads back as a message with the response's fields and its body as payload. */
  lemma ResponseMessage(contentType: string, body: string, head: string, lines: seq<string>)
    requires PlainValue(contentType) && |body| <= USIZE_MAX
    requires head == ResponseHead(contentType, |body|) && lines == ResponseLines(contentType, |body|)
    ensures ParsableMessage(head + body)
    ensures HttpMessageOf(head + body)
         == HttpMessage(HeaderInformation(None, ResponseFields(contentType, |body|)),
                        Some(Split(body, HeaderTerminator)[0]))
  {
    ParseDecimal(|body|);
    ResponseSegments(contentType, body, head, lines);
    ResponseHeaderInformation(contentType, |body|, lines);
    MessageWithLength(head + body, Join(lines, CRLF), body,
      HeaderInformation(None, ResponseFields(contentType, |body|)));
  }

  /**
   * Reading a response back with the request parser: the head has no
   * request line (its first token is not a method), exactly the `Server`,
   * `Content-Type` and `Content-Length` fields, a length that parses back to
   * the body's, and a payload that is the body up to any blank line in it.
   */
  lemma ResponseRoundTrip(contentType: string, body: string, head: string)
    requires PlainValue(contentType) && |body| <= USIZE_MAX
    requires head == ResponseHead(contentType, |body|)
    ensures ParsableMessage(head + body)
    ensures var m := HttpMessageOf(head + body);
      && m.headerInfo.requestLine == None
      && m.headerInfo.headerFields
         == map["Server" := "rust_test", "Content-Type" := contentType,
                "Content-Length" := Decimal(|body|)]
      && ParseUsize(m.headerInfo.headerFields[ContentLengthKey]) == Some(|body|)
      && m.payload == Some(Split(body, HeaderTerminator)[0])
      && (!Contains(body, HeaderTerminator) ==> m.payload == Some(body))
  {
    ResponseMessage(contentType, body, head, ResponseLines(contentType, |body|));
    ParseDecimal(|body|);
    if !Contains(body, HeaderTerminator) {
      SplitWithout(body, HeaderTerminator);
    }
  }
}
