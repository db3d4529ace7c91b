# HTTP/1.1 request decoder, modelled and verified in Dafny

This project models `HttpRequest::from_stream` in `src/lib.rs` and everything it calls. The decoder reads one request from a TCP connection through one shared, capped reader, in three stages:

1. **Request line** (`HttpMethodSection::parse_lines`): one line read with `read_line` and split on whitespace. The method token goes through `HttpMethod::parse` and the version token through `HttpVersion::parse`. The resource token is kept as it is.
2. **Header block** (`HttpHeaders::parse_lines`): lines are read until one is blank after trimming, or until end of stream. Each line is split on `:`; the name and the value are trimmed and lower-cased. The value is appended to the name's list in a `HashMap`.
3. **Body**: when there is a `content-length` header, its first value is parsed as a `usize`. That many bytes are read with `read_exact` into a zeroed buffer and decoded with `String::from_utf8`.

The first stage to fail decides the `HttpRequestValidationErr`. `HttpBody::parse_lines`, which the decoder does not call, is modelled on its own.

## How the model is built

- Text is bytes (`Text.Bytes`, a sequence of the newtype `Byte`), as a Rust `String` is. UTF-8 well-formedness follows section 4 of RFC 3629 (`Utf8.Valid`). A decoder and an encoder are proved to be inverse, so the predicate accepts exactly the encodings of Unicode scalar values.
- The connection is a `Cursor.Source`: the bytes the peer sends, then either an orderly close or a failing read (a reset, or the read timeout on a silent peer). `take(MAX_LINE_LENGTH)` caps the whole request at 4 × 80,000 = 320,000 bytes, and bytes past the cap read as end of stream (`Cursor.Limit`).
- Each stage has two forms:
  - a pure function of the source and a position: `ReadLineAt`, `MethodSectionAt`, `HeadersFrom`, `BodyAt`, `ContentBody`, `RequestOf`. Each returns its outcome and where it leaves the reader;
  - an imperative method on the `Cursor.Reader` class, whose `pos` field only advances. `ParseHeaders` updates its map in a loop and `ReadContent` fills an `array` in place. Each method is proved equal to its function.
- The properties are lemmas about the functions. Round trips are stated for requests written in wire form (`EncodeRequestLine`, `EncodeHeaders`, `EncodeHead`): a written request is read back with the same method, resource, version and body, and with the header map its lines describe (names and values trimmed and lower-cased, the values of a repeated name collected in order). Other lemmas cover the error order, the end of the header block, repeated names and the body framing.

## Behaviour of the code worth knowing

The model follows the code in each of these cases:

- `read_line` keeps the line's LF (and CR). The 320,000-byte cap applies to the whole request, not to each line, and past it the reader sees end of stream.
- Tokens after the third on the request line are ignored.
- A header line is split on every `:`. The name is the first piece and the value the second; anything after a second `:` is dropped (`host: a:8080` stores `a`). Both the name and the value are lower-cased.
- A line consisting only of whitespace ends the header block, just as an empty line does.
- Without `content-length` the body is the empty string, and `content-length: 0` also gives the empty string; the two cases cannot be told apart.
- `ResourceMalformed` is declared but never produced, and the resource token is kept byte for byte.
- `usize` parsing accepts one leading `+`.

## Model

| member | source | states |
|---|---|---|
| Http.ParseMethod | src/lib.rs:35-44 | a token is accepted only if its upper-cased form is a method name, and it is rejected only with `MethodMalformed` |
| Http.ParseMethodExactly | src/lib.rs:35-44 | a token gives method `m` exactly when it upper-cases to `m`'s name, and it is `MethodMalformed` exactly when it upper-cases to no method name |
| Http.ParseVersion | src/lib.rs:54-60 | a token is accepted only if it upper-cases to a version name, and it is rejected only with `HttpVersionMalformed` |
| Http.ParseVersionExactly | src/lib.rs:54-60 | `HTTP/1.1` and `HTTP/2`, in any letter case, are the only accepted versions; everything else is `HttpVersionMalformed` |
| Http.NamesRoundTrip | src/lib.rs:35-60 | each method and version name, upper-case or lower-case, parses back to itself |
| Cursor.Limit | src/lib.rs:166-170 | the capped reader delivers at most 320,000 bytes, and no more than the peer sent |
| Cursor.Reader.constructor | src/lib.rs:170 | `BufReader::new(stream).take(MAX_LINE_LENGTH)`: a fresh reader over the connection starts at its first byte |
| Cursor.ReadLineAt | src/lib.rs:117-119 | a read line is exactly the bytes between the old and the new position, and the position never moves back or past the cap |
| Cursor.Reader.ReadLine | src/lib.rs:117-119 | the scanning loop returns what `ReadLineAt` specifies and moves the cursor to where that read ends |
| Cursor.ReadLineOfLine | src/lib.rs:117-119 | a UTF-8 line whose only LF is its last byte is read whole, and the cursor moves just past it |
| Cursor.ReadLineAtEnd | src/lib.rs:117-121 | at the cap a read gives zero bytes after an orderly close, and fails when the transport failed |
| Cursor.EmptyLineOnlyAtEnd | src/lib.rs:121 | a zero-byte read happens only at the cap |
| Cursor.Reader.ReadExact | src/lib.rs:188-191 | the buffer is filled in place with the next bytes, or the read fails when the cap comes first and the cursor ends at the cap |
| RequestLine.ParseRequestLine | src/lib.rs:81-99 | on success the first word upper-cases to the method's name, the second word is the resource byte for byte, and the third word upper-cases to the version's name |
| RequestLine.RequestLineExactly | src/lib.rs:81-99 | a line decodes to a given method, resource and version exactly when its first three whitespace-separated words spell them, method and version in any letter case |
| RequestLine.RequestLineErrors | src/lib.rs:81-93 | each error is tied to its cause in both directions, and the first failing check wins: no word, bad method, one word, two words, bad version |
| RequestLine.RequestLineRoundTrip | src/lib.rs:81-99 | `METHOD SP resource SP VERSION`, followed by anything that starts with whitespace, parses to those three values |
| RequestLine.MethodSectionAt | src/lib.rs:71-79 | the request-line stage never moves the reader back or past the cap |
| RequestLine.ReadMethodSection | src/lib.rs:71-100 | the method returns the outcome and reader position that `MethodSectionAt` specifies |
| RequestLine.RequestLineAt | src/lib.rs:71-99 | a written request line in the stream decodes to its values, and the reader stops just past its LF |
| RequestLine.HeadlineExactly | src/lib.rs:73-79 | the request line is `Headline` exactly when its read fails or returns zero bytes; the token checks never produce it |
| RequestLine.RequestLineAtEnd | src/lib.rs:73-79 | with nothing left to read, the request line is `Headline`, whether the peer closed or its read failed |
| Headers.Get | src/lib.rs:107-109 | `get` finds a name exactly when the lower-cased name is stored, the list it finds is the one stored under the lower-cased name, and in a map the decoder built that list is never empty |
| Headers.Insert | src/lib.rs:133-137 | the key is added, its list gains the value at the end, and every other key is unchanged |
| Headers.InsertWellFormed | src/lib.rs:133-137 | inserting a lower-cased name and value keeps every list non-empty and every stored name and value lower-case |
| Headers.HeaderField | src/lib.rs:125-131 | a trimmed line has no field exactly when it has no `:`, and a field's name and value are lower-case and free of `:` |
| Headers.HeaderFieldOf | src/lib.rs:125-131 | `name:value` gives the trimmed, lower-cased name and value |
| Headers.HeaderFieldDropsRest | src/lib.rs:125-131 | text after a second `:` is dropped |
| Headers.HeaderLineFields | src/lib.rs:120-131 | a header line with its line break trims and splits to the trimmed, lower-cased name and value |
| Headers.HeadersFrom | src/lib.rs:111-141 | the block's only error is `HeadersMalformed`; a successful block keeps the names collected before it, keeps the map well formed, and leaves the reader within the cap |
| Headers.ParseHeaders | src/lib.rs:111-141 | the loop that updates the map in place returns the outcome and reader position that `HeadersFrom` specifies |
| Headers.HeadersAtEnd | src/lib.rs:117-123 | at end of stream the block ends with the headers collected so far, and is `HeadersMalformed` when the read fails |
| Headers.HeadersLineEnds | src/lib.rs:117-123 | a failed read is `HeadersMalformed`, and a line that trims to nothing ends the block with the headers collected so far; either way the reader is left after that read |
| Headers.HeaderLineWithoutColon | src/lib.rs:125-131 | a non-blank line without `:` is `HeadersMalformed`, and the reader is left after it |
| Headers.CollectLookup | src/lib.rs:133-137 | repeated names accumulate: each name's list is its earlier values followed by the new ones in arrival order, and a name is present exactly when it was before or some line gives it |
| Headers.LookupInsert | src/lib.rs:133-137 | one insertion appends to its own key only |
| Headers.GetCollected | src/lib.rs:107-109 | a name in any letter case finds the values the lines gave for it, in arrival order, and finds nothing when no line gave it |
| HeaderWire.HeadersRoundTrip | src/lib.rs:111-141 | a written header block decodes to the map its lines describe, and the reader stops right after the blank line |
| HeaderWire.BlockLines | src/lib.rs:115-123 | a written block is read back line by line: each header line whole, then the blank line |
| HeaderWire.LinesRoundTrip | src/lib.rs:115-137 | reading those lines inserts each trimmed, lower-cased field in order, and the block ends at the blank line |
| Body.ParseBodyLines | src/lib.rs:148-153 | the collected lines are a prefix of the input, none of them empty; the iterator is left after the first empty line, or exhausted |
| Body.ParseBodyLinesLongest | src/lib.rs:152 | the collected lines are exactly the longest run of non-empty lines at the front |
| Body.ParseBodyLinesSplits | src/lib.rs:152 | the collected lines, the empty line that stopped them and the rest give back the input |
| Numeric.ParseUsize | src/lib.rs:185-186 | a parsed length is the value of the digits left after one optional leading `+`, and fits in a 64-bit `usize` |
| Numeric.ParseUsizeExactly | src/lib.rs:185-186 | a length parses exactly when it is one or more ASCII digits, with or without one leading `+`, whose value fits in a `usize`; any other byte, a sign other than `+` or an empty numeral is an error |
| Numeric.ParseDecimal | src/lib.rs:185-186 | the decimal numeral of `n`, with or without `+`, parses back to `n` exactly when `n` fits in a `usize`, and overflows otherwise |
| Utf8.EncodeValid | src/lib.rs:192 | every string encodes to valid UTF-8 and decodes back to itself |
| Utf8.DecodeValid | src/lib.rs:192 | every valid byte sequence is the encoding of what it decodes to |
| Request.ContentBody | src/lib.rs:181-193 | `HeadersMalformed` exactly when the length does not parse; otherwise the body is exactly the announced number of bytes after the blank line and is valid UTF-8, or the result is `BodyMalformed` |
| Request.BodyAt | src/lib.rs:180-195 | without `content-length` the body is empty and nothing is read; otherwise the first value alone decides the body |
| Request.RequestOf | src/lib.rs:169-205 | the whole decoder never reads past 320,000 bytes, and a decoded request has a well-formed header map and a UTF-8 body |
| Request.FromStream | src/lib.rs:169-205 | the three stages on one shared reader give the result `RequestOf` specifies |
| Request.ReadBody | src/lib.rs:180-195 | the body stage on the shared reader gives the outcome and position `BodyAt` specifies |
| Request.ReadContent | src/lib.rs:182-192 | the in-place buffer read gives the outcome and position `ContentBody` specifies |
| Request.StageErrors | src/lib.rs:172-195 | a request-line error, and a header error after a good request line, is the whole result, unchanged and with no request built; a method, resource or version error comes only from the request line, and `BodyMalformed` arises only after good headers with a `content-length` |
| Request.Complete | src/lib.rs:180-205 | a body-stage error comes through as the same error, and a body is assembled with the decoded header map into the request |
| Request.EmptyStream | src/lib.rs:73-79 | a connection that delivers nothing is `Headline` |
| Request.HeadWithLength | src/lib.rs:178-192 | after a written head with a `Content-Length` line, the first value of that line alone decides the body, read from the byte after the blank line |
| Request.RequestRoundTrip | src/lib.rs:169-205 | a written request whose `Content-Length` is its UTF-8 body's decimal length decodes to that method, resource, version, header map and body, consuming exactly its bytes |
| Request.RequestWithoutLength | src/lib.rs:180-194 | a written request without `content-length` decodes with an empty body and leaves whatever follows the blank line unread |
| Text.Words | src/lib.rs:81 | `split_whitespace` yields only non-empty words that contain no whitespace |
| Text.Trim | src/lib.rs:120 | `trim` never lengthens a line, its result neither begins nor ends with whitespace, an all-whitespace line trims to nothing, and a line without whitespace at either end is kept whole |
| Utf8.Valid | src/lib.rs:117-119 | a valid line contains none of the bytes C0, C1 and F5 to FF, and every ASCII line is valid |
| Cursor.ReadExactAt | src/lib.rs:189-191 | `read_exact` of `n` bytes fails exactly when fewer than `n` remain before the cap, and otherwise gives the next `n` bytes of the stream |
| Text.Split | src/lib.rs:125 | the pieces contain no separator, and joining them with it gives back the line |
| Text.WordsOfJoin | src/lib.rs:81 | `split_whitespace` gives back words joined by single spaces |
| Text.TrimUnique | src/lib.rs:120 | `trim` keeps exactly the part between the leading and the trailing whitespace |
| Text.Upper | src/lib.rs:36 | `to_uppercase` (also at line 55) turns every lower-case ASCII letter into its capital and keeps every other byte, so no lower-case letter remains |
| Text.Lower | src/lib.rs:125 | `to_lowercase` (also at line 108) turns every capital ASCII letter into its lower-case letter and keeps every other byte, so no capital remains |
| Http.UpperOfLower | src/lib.rs:36 | upper-casing does not depend on the letter case a token was written in |
| Text.LowerIdempotent | src/lib.rs:108 | lower-casing twice is lower-casing once, so a stored lower-case name is found under any spelling |

## Left out

- Text.Upper, Text.Lower: `to_uppercase` and `to_lowercase` map ASCII letters only; Rust also maps non-ASCII letters, such as `ſ` to `S`, so `poſt` is a method in Rust but not in the model.
- Text.Trim, Text.Words: `char::is_whitespace`, behind `trim` and `split_whitespace`, is modelled on ASCII only; Rust also treats non-ASCII white space such as U+00A0 and U+3000 as whitespace.
- `BufReader`, `TcpStream` and `BUF_CAPACTIY`: buffering has no visible effect on the result. The socket is the `Source` value, and its read timeout and connection errors are the `failsAtEnd` flag.
- `src/main.rs`: the listener, threads, channel, socket timeouts and the fixed response are I/O and thread plumbing.
- `src/chat.rs`: it is not compiled into the crate.
- Request.ContentBody, Request.ReadContent: `vec![0; n]` for a huge announced length is not modelled. Above `isize::MAX` (e.g. `9223372036854775808`, which `usize` parsing accepts) Rust panics with "capacity overflow"; below that bound, but beyond available memory, the allocation fails and the process aborts. In both cases the model allocates the array, finds fewer than `n` bytes before the cap, and returns `BodyMalformed`.
- Numeric.ParseUsize: `usize` is taken to be 64 bits wide.
- Body.ParseBodyLines: the iterator is a finite sequence of lines, so an endless iterator is not modelled.
- `Debug` formatting of the types is not modelled.
