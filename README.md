# A Dafny model of a minimal static web server

The server in `src/main.rs` reads at most 512 bytes from each TCP
connection. It parses them as an HTTP/1.1 message and answers with a
`200 OK` response that carries the file named by the request target. The
file is looked up under `<home>/html/static`.

This project models that request/response pipeline:

- **Request parsing** (`request.dfy`):
  - the header block is split into CRLF lines;
  - the first line is split into space-separated tokens and matched
    against the exact, case-sensitive table of nine methods;
  - every further line is cut at its first colon into a field name and a
    trimmed value, and inserted into the header map (the last line wins);
  - when `Content-Length` is present, the payload is the text between the
    first and the second blank line, truncated to the declared length.
  - The header loop of `parse_header_information` is a `while` loop proved
    against the function `FieldsOf`.
- **Response building** (`response.dfy`):
  - the content type comes from the target's extension;
  - the file path is the root, then `html/static`, then the target without
    its first character;
  - the bytes are the fixed status and `Server` lines, the `Content-Type`
    line, the `Content-Length` line and the file.
- **The Rust library pieces those rely on**:
  - `text.dfy`: `str::split` with a string pattern, `join`, `trim`,
    `truncate`, and `as_bytes` on ASCII text;
  - `numbers.dfy`: `format!("{}")` and `usize::from_str` for lengths;
  - `wrappers.dfy`: `Option`.

The main properties proved:

- The request line holds the second and third tokens exactly when the
  first token is a method.
- A header line splits at its first colon.
- The header map holds exactly the line names, and the last write wins.
- The flag is set exactly when `Content-Length` is present.
- The payload never exceeds the declared length and is never padded.
- The content-type table is followed, with `text/plain` for every target
  without exactly one dot.
- The response bytes are the head for the body's length followed by the
  body, with length 0 when the file cannot be opened.
- Reading a response head back with the request parser gives back its
  three fields and a length that parses to the body's length.

What the code does, and the model with it:

- The method table has nine entries, `GET` to `PATCH` (src/main.rs:150-160).
  The version token is copied and never checked (src/main.rs:175).
- Every response has the status line `HTTP/1.1 200 OK` (src/main.rs:295),
  whether or not the file opens.
- The target is pushed onto the path verbatim after its first character
  (src/main.rs:244): no percent-decoding and no check for `..`.
- A target whose extension is not in the table, or that does not split on
  `.` into exactly two pieces, gets `text/plain` (src/main.rs:228, 268).

## Model

| member | source | states |
|---|---|---|
| Request.ClassifyMethod | src/main.rs:150-161 | a token names a method iff it is one of the nine exact, case-sensitive names, and the method found is the one spelled by the token |
| Request.MethodName | src/main.rs:49-60 | every recognised method has one of the nine names as its spelling |
| Request.ClassifyName | src/main.rs:150-161 | the method table reads every method back from its own name |
| Request.RequestLineOf | src/main.rs:142-179 | a request line is present iff the first space-separated token is a method; it then holds that method and the second and third tokens verbatim |
| Request.RequestLineRoundTrip | src/main.rs:142-179 | `method target version` with space-free target and version is read back as exactly that request line |
| Request.NoRequestLine | src/main.rs:171-172 | a line whose first token is not a method yields no request line |
| Request.ThreeTokens | src/main.rs:142 | three space-free tokens joined by spaces split back into those tokens |
| Request.WellFormedStartLine | src/main.rs:142-175 | definition, no contract: `start[1]` and `start[2]` exist whenever the first token is a method |
| Request.FieldName | src/main.rs:184-187 | definition, no contract: the first piece of the line split on `:`; `FieldAtFirstColon` and `FieldWithoutColon` state its value |
| Request.FieldValue | src/main.rs:184-187 | definition, no contract: the other pieces rejoined with `:`, trimmed; `FieldAtFirstColon` and `FieldWithoutColon` state its value |
| Request.FieldAtFirstColon | src/main.rs:184-187 | a field line is cut at its first colon: the name is the text before it, the value the trimmed rest with inner colons kept |
| Request.FieldWithoutColon | src/main.rs:184-187 | a line without a colon is all name, with an empty value |
| Request.FieldLine | src/main.rs:184-187 | `name: value` reads back as that name and value when the name has no colon and the value has no outer whitespace |
| Request.FieldsOf | src/main.rs:181-188 | definition, no contract: the map built by inserting each field line's name and value in order; `FieldsOfKeysFromLines`, `FieldsOfKeysOfLines` and `FieldsOfLastWins` state its keys and values |
| Request.FieldsOfKeysFromLines | src/main.rs:181-188 | every key of the header map is the name of some field line |
| Request.FieldsOfKeysOfLines | src/main.rs:181-188 | every field line's name is a key of the header map |
| Request.FieldsOfLastWins | src/main.rs:181-188 | a name maps to the value of the last line with that name |
| Request.FieldsOfSnoc | src/main.rs:187 | one more field line inserts or replaces its name in the map |
| Request.FieldsOfThree | src/main.rs:181-188 | three field lines give the map built by inserting them in order |
| Request.FieldsOfThreeLines | src/main.rs:181-188 | three `name: value` lines give the map of exactly those three fields |
| Request.ParsableHeaders | src/main.rs:141-175 | definition, no contract: the first line of the header block is a well-formed start line |
| Request.HeaderInformationOf | src/main.rs:190-193 | the returned flag is true iff `Content-Length` is a field name |
| Request.HeaderInformationOfLines | src/main.rs:140-188 | a header block of plain lines is read line by line: the request line from the first line, the fields from the others |
| Request.ParseHeaderInformation | src/main.rs:140-194 | the loop over the field lines builds exactly the header map `FieldsOf` describes, and the flag is set iff `Content-Length` is present |
| Request.ParsableMessage | src/main.rs:117-123 | definition, no contract: the header block reads, and when it declares a length the value parses as a `usize` and a second segment exists |
| Request.HttpMessageOf | src/main.rs:115-138 | the header information is that of the first segment; a payload is present iff `Content-Length` is; it is a prefix of the second segment whose length is the minimum of the declared length and that segment's length, and it holds no blank line |
| Request.HeadSegment | src/main.rs:117 | a head of plain lines ended by a blank line is the first segment of the text |
| Request.MessageWithLength | src/main.rs:117-129 | when the head declares exactly the length of the rest, the payload is the rest up to any further blank line |
| Request.ParseHttpMessage | src/main.rs:115-138 | the method computes the message `HttpMessageOf` describes |
| Response.FileTypeOfExtension | src/main.rs:228-239 | an extension has a known type iff it is in the extension table, and that type's content type is the table's entry |
| Response.MimeType | src/main.rs:260-269 | every type has one of the six content types, and `text/plain` exactly for the unknown type |
| Response.FileTypeOf | src/main.rs:224-239 | a target has a known type only if it contains exactly one dot |
| Response.ContentTypeOf | src/main.rs:224-269 | the content type is always one of the six, and `text/plain` for any target without exactly one dot (`/`, `/a.b.css`) |
| Response.ContentTypeOfExtension | src/main.rs:224-239 | for `name.ext` with dot-free parts, the content type is the table entry for `ext`, or `text/plain` when `ext` is not in the table |
| Response.Sliceable | src/main.rs:244 | definition, no contract: `&uri[1..]` does not panic exactly when the target is non-empty and its first character is one UTF-8 byte |
| Response.ResolvePath | src/main.rs:241-244 | for a target whose first character is one byte, the path is the root, then `html/static`, then the target without its first character |
| Response.FileBody | src/main.rs:248-283 | definition, no contract: the bytes sent are the file's contents when the path opens, and none when it does not |
| Response.BuildHeaders | src/main.rs:294-299 | definition, no contract: the status line then the `Server` line, each ended by CRLF; `BuildHeadersLines` states its lines |
| Response.ContentTypeLine | src/main.rs:257-269 | definition, no contract: `Content-Type: `, the content type and CRLF |
| Response.ContentLengthLine | src/main.rs:285 | definition, no contract: `Content-Length: `, the length in decimal, CRLF and the blank line |
| Response.EntityHeaders | src/main.rs:287-288 | definition, no contract: the `Content-Type` line followed by the `Content-Length` line |
| Response.ResponseHead | src/main.rs:200-201 | definition, no contract: the fixed head followed by the entity headers; `ResponseHeadAscii` and `ResponseHeadLines` state its shape |
| Response.Servable | src/main.rs:198 | definition, no contract: the message parses without a panic, has a request line, and its target can be sliced after the first character |
| Response.BuildHeadersLines | src/main.rs:294-299 | the fixed head splits into the `HTTP/1.1 200 OK` line, the `Server: rust_test` line and an empty remainder |
| Response.MimeTypePlain | src/main.rs:260-269 | every content type is a non-empty value without CR or outer whitespace |
| Response.MimeTypeAscii | src/main.rs:260-269 | every content type is ASCII |
| Response.ResponseHeadAscii | src/main.rs:285-290 | the head is ASCII, and its bytes are the bytes of its parts in order |
| Response.ResponseAssembly | src/main.rs:200-201 | the fixed lines' bytes followed by the entity headers and body are the whole head followed by the body |
| Response.BuildGetResponse | src/main.rs:216-291 | the result is the `Content-Type` line for the target, the `Content-Length` line for the body's length and the blank line, then the body; a file that does not open gives length 0 and no body |
| Response.ParseRequest | src/main.rs:197-203 | for a target whose first character is one byte, the response is the whole head for the target's content type and the body's length, followed by the body |
| Response.Respond | src/main.rs:101-104 | for a request that parses without a panic, the bytes written for a request text are its response head followed by the file for its target |
| Response.ResponseHeadLines | src/main.rs:294-299 | the head is its four lines joined with CRLF, then the blank line |
| Response.ResponseLinesPlain | src/main.rs:285 | the head's lines are non-empty and hold no CR |
| Response.ResponseHeadPlain | src/main.rs:285-298 | the head is its plain lines followed by the blank line |
| Response.StatusLineIsNoRequest | src/main.rs:295 | the status line is not a request line |
| Response.ResponseFieldLines | src/main.rs:285-298 | the head's field lines give exactly the `Server`, `Content-Type` and `Content-Length` fields |
| Response.ResponseSegments | src/main.rs:285 | a response's text splits at its blank line into the head lines and the body |
| Response.ResponseHeaderInformation | src/main.rs:285-298 | the head yields no request line and exactly the three fields |
| Response.ResponseMessage | src/main.rs:285-290 | a response read back with the request parser gives the three fields and the body up to any blank line as payload |
| Response.ResponseRoundTrip | src/main.rs:197-203 | read back with the request parser, the response has no request line and exactly its three fields; the declared length parses to the body's length; the payload is the body, cut at any blank line in it |
| Text.FindFirst | src/main.rs:117 | the index found is an occurrence with none before it; when none is found, there is no occurrence |
| Text.FindFirstIs | src/main.rs:117 | an occurrence with none before it is the one found |
| Text.Split | src/main.rs:117 | a split has at least one piece, and joining the pieces with the separator gives the text back |
| Text.SplitPieces | src/main.rs:117 | no piece of a split contains the separator |
| Text.SplitHead | src/main.rs:117 | the first piece is a prefix of the text |
| Text.SplitAt | src/main.rs:184 | splitting at a first occurrence gives the text before it, then the split of the rest |
| Text.SplitAfter | src/main.rs:117 | splitting where the first occurrence follows `head` gives `head`, then the split of the rest |
| Text.SplitWithout | src/main.rs:184 | text without the separator is a single piece |
| Text.SplitOfJoin | src/main.rs:141 | splitting undoes joining when no piece holds the separator's first character |
| Text.SplitCount | src/main.rs:224-228 | splitting on a character gives one more piece than the character's occurrences |
| Text.Join | src/main.rs:185 | definition, no contract: the pieces with the separator between neighbours; `Split` states that it undoes splitting |
| Text.JoinFour | src/main.rs:185 | joining four pieces puts the separator between each neighbouring pair |
| Text.TrimStart | src/main.rs:187 | the result is no longer than the text and does not start with whitespace |
| Text.TrimStartSuffix | src/main.rs:187 | `trim_start` drops a whitespace prefix and keeps the rest |
| Text.TrimEnd | src/main.rs:187 | the result is no longer than the text and does not end with whitespace |
| Text.TrimEndPrefix | src/main.rs:187 | `trim_end` drops a whitespace suffix and keeps the rest |
| Text.Trim | src/main.rs:187 | the trimmed text is no longer than the text and has no whitespace at either end |
| Text.TrimInside | src/main.rs:187 | the trimmed text sits in the text between a whitespace prefix and a whitespace suffix |
| Text.TrimStartPadded | src/main.rs:187 | leading whitespace is dropped up to the first non-whitespace character |
| Text.TrimEndPadded | src/main.rs:187 | trailing whitespace is dropped back to the last non-whitespace character |
| Text.TrimPadded | src/main.rs:187 | a value without outer whitespace survives any whitespace padding |
| Text.FirstBlankLine | src/main.rs:117 | after CR-free lines joined with CRLF, the first blank line is the one that ends them |
| Text.HeadAndRest | src/main.rs:117-141 | such a head is the first segment, and its split into lines gives those lines back |
| Text.PrefixWithout | src/main.rs:124 | a prefix of text without the separator is without it too |
| Text.Truncate | src/main.rs:124 | truncation keeps the first `n` characters, or all when there are fewer |
| Text.Bytes | src/main.rs:287-288 | the bytes of ASCII text are its character codes, one per character |
| Text.BytesAppend | src/main.rs:287-289 | the bytes of a concatenation are the concatenated bytes |
| Numbers.Decimal | src/main.rs:285 | the numeral is non-empty, all digits, and has no leading zero |
| Numbers.DecimalValue | src/main.rs:285 | the printed numeral denotes the number printed |
| Numbers.ParseUsize | src/main.rs:122 | a parsed value fits in a `usize` and comes from text starting with a digit or `+` |
| Numbers.ParseDecimal | src/main.rs:122 | a printed length parses back to that length |
| Numbers.Zeros | src/main.rs:122 | `k` zero digits |
| Numbers.LeadingZero | src/main.rs:122 | a leading zero does not change a numeral's value |
| Numbers.LeadingZeros | src/main.rs:122 | any number of leading zeros does not change a numeral's value |
| Numbers.CanonicalNumeral | src/main.rs:122 | a numeral without a leading zero is the one printed for its value |
| Numbers.NumeralForm | src/main.rs:122 | every numeral is leading zeros followed by the printed form of its value |
| Numbers.ParseUsizeAccepts | src/main.rs:122 | an optional `+`, leading zeros and the numeral of `n` parse to `n` when `n` fits in a `usize`, and fail otherwise |
| Numbers.ParseUsizeForm | src/main.rs:122 | every accepted text is an optional `+`, leading zeros and the numeral of the value parsed |
| Numbers.ParseUsizeExactly | src/main.rs:122 | a text parses to `n` iff `n` fits in a `usize` and the text is an optional `+`, leading zeros and the numeral of `n` |

## Left out

- TCP I/O (`TcpListener`, `read`, `write`, `flush`), the connection loop and its `println!`, and threading: the pipeline is modelled on the request text.
- The 512-byte read buffer, including its zero bytes, and `String::from_utf8_lossy`. The request is modelled as already-decoded text (`seq<char>`); the payload is kept as text, and truncation counts characters (for ASCII these are the bytes).
- `dirs::home_dir`: the root is a parameter.
- `File::open` and `read_to_end`: the readable files are a map from path to bytes. The read-error path (length 0 after a partial read) is not modelled.
- `PathBuf::push`: a path is the list of pieces pushed. Push's own rules, such as an absolute piece replacing the path, are not modelled.
- Panics (`unwrap`, out-of-range indexing, slicing inside a character) are preconditions: `ParsableHeaders`, `ParsableMessage`, `Servable` and `Sliceable`. `&uri[1..]` (src/main.rs:244) panics on an empty target and on a target whose first character takes more than one byte; `ResolvePath`, `BuildGetResponse`, `ParseRequest` and `Respond` require the opposite.
- The unused `ResponseLine` type, the never-filled `response_line` field, and the not-found HTML text that is built but never sent.
- `usize` is taken to be 64 bits wide.
- Response.ResponseRoundTrip: reads the response back as text, not as the bytes written.
