/** `HttpRequest::from_stream`: the request line, the header block and the
    body, read in that order from one capped reader, the first failing stage
    deciding the error. */
module Request {
  import opened Text
  import opened Optional
  import opened Http
  import opened Cursor
  import opened Numeric
  import opened RequestLine
  import opened Headers
  import HeaderWire
  import Utf8

  datatype Request = Request(
    requestMethod: Method,
    resource: Bytes,
    headers: HeaderMap,
    body: Bytes,
    version: Version)

  /** The key the body stage looks up. */
  const CONTENT_LENGTH: Bytes := Ascii("content-length")

  /** The body stage at `pos`, given the decoded headers: no body and no
      read without a `content-length`; otherwise its first value decides. */
  function BodyAt(src: Source, pos: nat, h: HeaderMap): (r: Parsed<Bytes>)
    requires pos <= Limit(src)
    requires WellFormed(h.entries)
    ensures pos <= r.next <= Limit(src)
    ensures Get(h, CONTENT_LENGTH).None? ==> r == Parsed(Ok([]), pos)
    ensures Get(h, CONTENT_LENGTH).Some? ==> r == ContentBody(src, pos, Get(h, CONTENT_LENGTH).value[0])
    ensures r.result.Ok? ==> Utf8.Valid(r.result.value)
  {
    match Get(h, CONTENT_LENGTH)
    case None => Parsed(Ok([]), pos)
    case Some(values) => ContentBody(src, pos, values[0])
  }

  /** A body of announced length `length`: it must parse as a `usize`
      (`HeadersMalformed`), that many bytes must follow before the limit
      and they must be UTF-8 (`BodyMalformed`). The body is then exactly
      the bytes consumed, as many as announced. */
  function ContentBody(src: Source, pos: nat, length: Bytes): (r: Parsed<Bytes>)
    requires pos <= Limit(src)
    ensures pos <= r.next <= Limit(src)
    ensures r.result == Err(HeadersMalformed) <==> ParseUsize(length).None?
    ensures r.result.Err? ==> r.result.error in {HeadersMalformed, BodyMalformed}
    ensures r.result.Ok? ==>
      && ParseUsize(length) == Some(|r.result.value|)
      && r.result.value == src.bytes[pos..r.next]
      && Utf8.Valid(r.result.value)
  {
    match ParseUsize(length)
    case None => Parsed(Err(HeadersMalformed), pos)
    case Some(n) =>
      match ReadExactAt(src, pos, n)
      case None => Parsed(Err(BodyMalformed), Limit(src))
      case Some(bytes) =>
        Parsed(if Utf8.Valid(bytes) then Ok(bytes) else Err(BodyMalformed), pos + n)
  }

  /** The whole decoder, from the first byte of the connection. */
  function RequestOf(src: Source): (r: Parsed<Request>)
    ensures r.next <= Limit(src) <= MAX_LINE_LENGTH
    ensures r.result.Ok? ==>
      WellFormed(r.result.value.headers.entries) && Utf8.Valid(r.result.value.body)
  {
    var ms := MethodSectionAt(src, 0);
    match ms.result
    case Err(e) => Parsed(Err(e), ms.next)
    case Ok(section) =>
      var hs := HeadersFrom(src, ms.next, map[]);
      match hs.result
      case Err(e) => Parsed(Err(e), hs.next)
      case Ok(h) =>
        Complete(section, h, BodyAt(src, hs.next, h))
  }

  /** The request assembled from its request line, its headers and the
      outcome of the body stage. */
  function Complete(section: MethodSection, h: HeaderMap, b: Parsed<Bytes>): (r: Parsed<Request>)
    ensures r.next == b.next
    ensures r.result.Ok? <==> b.result.Ok?
    ensures r.result.Ok? ==> r.result.value.headers == h && r.result.value.body == b.result.value
    ensures b.result.Err? ==> r.result == Err(b.result.error)
  {
    match b.result
    case Err(e) => Parsed(Err(e), b.next)
    case Ok(body) =>
      Parsed(Ok(Request(section.requestMethod, section.resource, h, body, section.version)), b.next)
  }

  /** `from_stream` on a connection: one reader shared by the three stages;
      the body is read into a buffer of the announced length. */
  method FromStream(s: Source) returns (res: Result<Request>)
    ensures res == RequestOf(s).result
  {
    var reader := new Reader(s);
    var section := ReadMethodSection(reader);
    if section.Err? {
      return Err(section.error);
    }
    ghost var q := reader.pos;
    var headers := ParseHeaders(reader);
    if headers.Err? {
      return Err(headers.error);
    }
    var h := headers.value;
    ghost var p := reader.pos;
    RequestOfStages(s, section.value, q, h, p);
    var body := ReadBody(reader, h);
    if body.Err? {
      return Err(body.error);
    }
    var sec := section.value;
    res := Ok(Request(sec.requestMethod, sec.resource, h, body.value, sec.version));
  }

  /** The body stage of `from_stream` on the shared reader. */
  method ReadBody(reader: Reader, h: HeaderMap) returns (r: Result<Bytes>)
    requires reader.Valid() && WellFormed(h.entries)
    modifies reader
    ensures reader.Valid()
    ensures Parsed(r, reader.pos) == BodyAt(reader.src, old(reader.pos), h)
  {
    var lengths := Get(h, CONTENT_LENGTH);
    if lengths.None? {
      return Ok([]);
    }
    r := ReadContent(reader, lengths.value[0]);
  }

  /** `vec![0; n]` filled by `read_exact`, then `String::from_utf8`. */
  method ReadContent(reader: Reader, length: Bytes) returns (r: Result<Bytes>)
    requires reader.Valid()
    modifies reader
    ensures reader.Valid()
    ensures Parsed(r, reader.pos) == ContentBody(reader.src, old(reader.pos), length)
  {
    var n := ParseUsize(length);
    if n.None? {
      return Err(HeadersMalformed);
    }
    var buf := new Byte[n.value];
    var ok := reader.ReadExact(buf);
    if !ok {
      return Err(BodyMalformed);
    }
    if !Utf8.Valid(buf[..]) {
      return Err(BodyMalformed);
    }
    r := Ok(buf[..]);
  }

  // ---------------------------------------------------------------------
  // Which stage decides the outcome.

  /** A failed request line decides the error; header and body errors are
      only reached past a good request line, and a body error only when a
      `content-length` was given. */
  lemma StageErrors(src: Source)
    ensures var ms := MethodSectionAt(src, 0);
      ms.result.Err? ==> RequestOf(src) == Parsed(Err(ms.result.error), ms.next)
    ensures var e := RequestOf(src).result;
      e.Err? && e.error !in {HeadersMalformed, BodyMalformed} ==>
        MethodSectionAt(src, 0).result.Err?
    ensures var ms := MethodSectionAt(src, 0);
      RequestOf(src).result == Err(BodyMalformed) ==>
        ms.result.Ok? && HeadersFrom(src, ms.next, map[]).result.Ok? &&
        Get(HeadersFrom(src, ms.next, map[]).result.value, CONTENT_LENGTH).Some?
    ensures var ms := MethodSectionAt(src, 0);
      ms.result.Ok? && HeadersFrom(src, ms.next, map[]).result.Err? ==>
        RequestOf(src) == Parsed(Err(HeadersMalformed), HeadersFrom(src, ms.next, map[]).next)
  {
    var ms := MethodSectionAt(src, 0);
    if ms.result.Ok? {
      var hs := HeadersFrom(src, ms.next, map[]);
      assert WellFormed(map[]);
    }
  }

  /** A connection that delivers nothing, whether closed or failing, is a
      `Headline` error. */
  lemma EmptyStream(failsAtEnd: bool)
    ensures RequestOf(Source([], failsAtEnd)).result == Err(Headline)
  {
    RequestLineAtEnd(Source([], failsAtEnd));
  }

  // ---------------------------------------------------------------------
  // A request read back from its wire form.

  /** The header name a client would write. */
  const CONTENT_LENGTH_NAME: Bytes := Ascii("Content-Length")

  lemma ContentLengthName()
    ensures Lower(Trim(CONTENT_LENGTH_NAME)) == CONTENT_LENGTH
    ensures Lower(CONTENT_LENGTH) == CONTENT_LENGTH
    ensures Encodable((CONTENT_LENGTH_NAME, []))
  {
    NameTrimmed();
    NameLower();
    NameAscii();
  }

  lemma NameTrimmed()
    ensures Trim(CONTENT_LENGTH_NAME) == CONTENT_LENGTH_NAME
  {
    var s := CONTENT_LENGTH_NAME;
    assert !IsSpace(s[0]) && !IsSpace(s[|s| - 1]);
    TrimUnique(s, 0, |s|);
    assert s[0..|s|] == s;
  }

  lemma NameLower()
    ensures Lower(CONTENT_LENGTH_NAME) == CONTENT_LENGTH
    ensures Lower(CONTENT_LENGTH) == CONTENT_LENGTH
  {
    NameLowerMixed();
    NameLowerLower();
  }

  lemma NameLowerMixed()
    ensures Lower(CONTENT_LENGTH_NAME) == CONTENT_LENGTH
  {
    NameBytes();
    LowerNameBytes();
  }

  lemma NameBytes()
    ensures CONTENT_LENGTH_NAME ==
      [0x43, 0x6F, 0x6E, 0x74, 0x65, 0x6E, 0x74, 0x2D, 0x4C, 0x65, 0x6E, 0x67, 0x74, 0x68]
    ensures CONTENT_LENGTH ==
      [0x63, 0x6F, 0x6E, 0x74, 0x65, 0x6E, 0x74, 0x2D, 0x6C, 0x65, 0x6E, 0x67, 0x74, 0x68]
  {
  }

  lemma LowerNameBytes()
    ensures Lower([0x43, 0x6F, 0x6E, 0x74, 0x65, 0x6E, 0x74, 0x2D, 0x4C, 0x65, 0x6E, 0x67, 0x74, 0x68]) ==
      [0x63, 0x6F, 0x6E, 0x74, 0x65, 0x6E, 0x74, 0x2D, 0x6C, 0x65, 0x6E, 0x67, 0x74, 0x68]
  {
    var s: Bytes := [0x43, 0x6F, 0x6E, 0x74, 0x65, 0x6E, 0x74, 0x2D, 0x4C, 0x65, 0x6E, 0x67, 0x74, 0x68];
    var t: Bytes := [0x63, 0x6F, 0x6E, 0x74, 0x65, 0x6E, 0x74, 0x2D, 0x6C, 0x65, 0x6E, 0x67, 0x74, 0x68];
    forall i | 0 <= i < |s| ensures Lower(s)[i] == t[i] {
    }
  }

  lemma NameLowerLower()
    ensures Lower(CONTENT_LENGTH) == CONTENT_LENGTH
  {
    var t := CONTENT_LENGTH;
    forall i | 0 <= i < |t| ensures Lower(t)[i] == t[i] {
    }
  }

  lemma NameAscii()
    ensures Encodable((CONTENT_LENGTH_NAME, []))
  {
    var s := CONTENT_LENGTH_NAME;
    forall i | 0 <= i < |s| ensures s[i] < 0x80 && s[i] != COLON && s[i] != LF {
    }
    Utf8.AsciiValid(s);
  }

  /** The request line, then a header block whose first line is
      `Content-Length:` with `len`, then the other lines. */
  function EncodeHead(m: Method, resource: Bytes, v: Version, len: Bytes, fields: seq<(Bytes, Bytes)>): Bytes {
    EncodeRequestLine(m, resource, v) + EncodeHeaders([(CONTENT_LENGTH_NAME, len)] + fields)
  }

  /** Encodable fields, and a resource that is one UTF-8 token. */
  predicate Writable(resource: Bytes, fields: seq<(Bytes, Bytes)>) {
    && resource != [] && NoSpace(resource) && Utf8.Valid(resource)
    && forall i :: 0 <= i < |fields| ==> Encodable(fields[i])
  }

  /** A head with a `Content-Length` line decodes to its method, resource,
      version and header map, and the value given with it (trimmed and
      lower-cased, as every value is stored) alone decides the body, read
      from the byte after the blank line. */
  lemma HeadWithLength(src: Source, m: Method, resource: Bytes, v: Version, len: Bytes,
                       fields: seq<(Bytes, Bytes)>)
    requires Writable(resource, fields)
    requires COLON !in len && LF !in len && Utf8.Valid(len)
    requires var head := EncodeHead(m, resource, v, len, fields);
      |head| <= Limit(src) && src.bytes[..|head|] == head
    ensures var p := |EncodeHead(m, resource, v, len, fields)|;
      var h := HeaderMap(Collect(map[], Normalized([(CONTENT_LENGTH_NAME, len)] + fields)));
      && p <= Limit(src)
      && RequestOf(src) == Complete(MethodSection(m, resource, v), h, ContentBody(src, p, Lower(Trim(len))))
  {
    var all := [(CONTENT_LENGTH_NAME, len)] + fields;
    WritableWithLength(resource, len, fields);
    assert EncodeHead(m, resource, v, len, fields) ==
      EncodeRequestLine(m, resource, v) + EncodeHeaders(all);
    HeadAt(src, m, resource, v, all);
    var q := |EncodeRequestLine(m, resource, v)|;
    var p := |EncodeHead(m, resource, v, len, fields)|;
    var h := HeaderMap(Collect(map[], Normalized(all)));
    RequestOfStages(src, MethodSection(m, resource, v), q, h, p);
    LengthFirst(len, fields);
  }

  /** Helper: the `Content-Length` line can be written. */
  lemma WritableWithLength(resource: Bytes, len: Bytes, fields: seq<(Bytes, Bytes)>)
    requires Writable(resource, fields)
    requires COLON !in len && LF !in len && Utf8.Valid(len)
    ensures Writable(resource, [(CONTENT_LENGTH_NAME, len)] + fields)
  {
    assert Encodable((CONTENT_LENGTH_NAME, len)) by {
      ContentLengthName();
    }
    EncodableCons((CONTENT_LENGTH_NAME, len), fields);
  }

  lemma EncodableCons(f: (Bytes, Bytes), fields: seq<(Bytes, Bytes)>)
    requires Encodable(f)
    requires forall i :: 0 <= i < |fields| ==> Encodable(fields[i])
    ensures forall i :: 0 <= i < |[f] + fields| ==> Encodable(([f] + fields)[i])
  {
  }

  /** Helper: the first line's value is the first `content-length` value,
      whatever the other lines say. */
  lemma LengthFirst(len: Bytes, fields: seq<(Bytes, Bytes)>)
    ensures var h := HeaderMap(Collect(map[], Normalized([(CONTENT_LENGTH_NAME, len)] + fields)));
      && Get(h, CONTENT_LENGTH).Some? && Get(h, CONTENT_LENGTH).value != []
      && Get(h, CONTENT_LENGTH).value[0] == Lower(Trim(len))
  {
    ContentLengthName();
    FirstValue(CONTENT_LENGTH_NAME, len, fields, CONTENT_LENGTH);
  }

  lemma FirstValue(name: Bytes, value: Bytes, fields: seq<(Bytes, Bytes)>, key: Bytes)
    requires Lower(Trim(name)) == key && Lower(key) == key
    ensures var h := HeaderMap(Collect(map[], Normalized([(name, value)] + fields)));
      && Get(h, key).Some? && Get(h, key).value != []
      && Get(h, key).value[0] == Lower(Trim(value))
  {
    var pairs := Normalized([(name, value)] + fields);
    assert pairs[0] == (key, Lower(Trim(value)));
    GetCollected(pairs, key);
  }

  /** Helper: a request line and a header block lying at the start of the
      stream decode to their section and map, leaving the reader after the
      blank line. */
  lemma HeadAt(src: Source, m: Method, resource: Bytes, v: Version, fields: seq<(Bytes, Bytes)>)
    requires Writable(resource, fields)
    requires var head := EncodeRequestLine(m, resource, v) + EncodeHeaders(fields);
      |head| <= Limit(src) && src.bytes[..|head|] == head
    ensures var q := |EncodeRequestLine(m, resource, v)|;
      && MethodSectionAt(src, 0) == Parsed(Ok(MethodSection(m, resource, v)), q)
      && HeadersFrom(src, q, map[]) == Parsed(
           Ok(HeaderMap(Collect(map[], Normalized(fields)))),
           |EncodeRequestLine(m, resource, v) + EncodeHeaders(fields)|)
  {
    LineAtStart(src, m, resource, v, fields);
    BlockAfterLine(src, m, resource, v, fields);
  }

  /** Helper: the request line at the start of the stream. */
  lemma LineAtStart(src: Source, m: Method, resource: Bytes, v: Version, fields: seq<(Bytes, Bytes)>)
    requires Writable(resource, fields)
    requires var head := EncodeRequestLine(m, resource, v) + EncodeHeaders(fields);
      |head| <= Limit(src) && src.bytes[..|head|] == head
    ensures MethodSectionAt(src, 0) ==
      Parsed(Ok(MethodSection(m, resource, v)), |EncodeRequestLine(m, resource, v)|)
  {
    var line, block := EncodeRequestLine(m, resource, v), EncodeHeaders(fields);
    PrefixParts(src.bytes, line, block);
    assert src.bytes[0..0 + |line|] == src.bytes[..|line|];
    RequestLineAt(src, 0, m, resource, v);
  }

  /** Helper: the header block that follows it. */
  lemma BlockAfterLine(src: Source, m: Method, resource: Bytes, v: Version, fields: seq<(Bytes, Bytes)>)
    requires Writable(resource, fields)
    requires var head := EncodeRequestLine(m, resource, v) + EncodeHeaders(fields);
      |head| <= Limit(src) && src.bytes[..|head|] == head
    ensures HeadersFrom(src, |EncodeRequestLine(m, resource, v)|, map[]) == Parsed(
      Ok(HeaderMap(Collect(map[], Normalized(fields)))),
      |EncodeRequestLine(m, resource, v) + EncodeHeaders(fields)|)
  {
    var line, block := EncodeRequestLine(m, resource, v), EncodeHeaders(fields);
    PrefixParts(src.bytes, line, block);
    HeaderWire.HeadersRoundTrip(src, |line|, map[], fields);
  }

  /** Helper: past a good request line and header block, the body stage
      alone decides the outcome. */
  lemma RequestOfStages(src: Source, section: MethodSection, q: nat, h: HeaderMap, p: nat)
    requires MethodSectionAt(src, 0) == Parsed(Ok(section), q)
    requires q <= Limit(src)
    requires HeadersFrom(src, q, map[]) == Parsed(Ok(h), p)
    ensures p <= Limit(src) && WellFormed(h.entries)
    ensures RequestOf(src) == Complete(section, h, BodyAt(src, p, h))
  {
    assert WellFormed(map[]);
  }

  /** Round trip: a request whose `Content-Length` is the decimal length of
      a UTF-8 body decodes to that request, consuming exactly its bytes. */
  lemma RequestRoundTrip(src: Source, m: Method, resource: Bytes, v: Version,
                         fields: seq<(Bytes, Bytes)>, body: Bytes)
    requires Writable(resource, fields) && Utf8.Valid(body)
    requires var wire := EncodeHead(m, resource, v, Decimal(|body|), fields) + body;
      |wire| <= Limit(src) && src.bytes[..|wire|] == wire
    ensures var all := [(CONTENT_LENGTH_NAME, Decimal(|body|))] + fields;
      RequestOf(src) == Parsed(
        Ok(Request(m, resource, HeaderMap(Collect(map[], Normalized(all))), body, v)),
        |EncodeHead(m, resource, v, Decimal(|body|), fields) + body|)
  {
    var len := Decimal(|body|);
    var head := EncodeHead(m, resource, v, len, fields);
    DecimalLength(|body|);
    BodyAfterHead(src, head, len, body);
    HeadWithLength(src, m, resource, v, len, fields);
  }

  /** Helper: the decimal length, as the body stage reads it back. */
  lemma DecimalLength(n: nat)
    requires n <= MAX_LINE_LENGTH
    ensures var len := Decimal(n);
      && Lower(Trim(len)) == len && ParseUsize(len) == Some(n)
      && COLON !in len && LF !in len && Utf8.Valid(len)
  {
    DecimalNormal(Decimal(n));
    ParseDecimal(n);
  }

  /** Helper: a body of exactly the announced length follows the head. */
  lemma BodyAfterHead(src: Source, head: Bytes, len: Bytes, body: Bytes)
    requires |head + body| <= Limit(src) && src.bytes[..|head + body|] == head + body
    requires ParseUsize(len) == Some(|body|) && Lower(Trim(len)) == len
    requires Utf8.Valid(body)
    ensures |head| <= Limit(src) && src.bytes[..|head|] == head
    ensures ContentBody(src, |head|, Lower(Trim(len))) == Parsed(Ok(body), |head + body|)
  {
    PrefixParts(src.bytes, head, body);
  }

  /** Helper: a stream that starts with `a + b` starts with `a`, and `b`
      follows it. */
  lemma PrefixParts(s: Bytes, a: Bytes, b: Bytes)
    requires |a + b| <= |s| && s[..|a + b|] == a + b
    ensures s[..|a|] == a && s[|a|..|a| + |b|] == b
  {
    assert (a + b)[..|a|] == a && (a + b)[|a|..] == b;
    assert s[..|a|] == s[..|a + b|][..|a|];
    assert s[|a|..|a| + |b|] == s[..|a + b|][|a|..];
  }

  /** A numeral is its own trimmed, lower-cased form, and an ASCII line
      fragment. */
  lemma DecimalNormal(s: Bytes)
    requires AllDigits(s)
    ensures Lower(Trim(s)) == s
    ensures COLON !in s && LF !in s && Utf8.Valid(s)
  {
    DigitsTrimmed(s);
    DigitsLower(s);
    DigitsAscii(s);
  }

  lemma DigitsTrimmed(s: Bytes)
    requires AllDigits(s)
    ensures Trim(s) == s
  {
    assert s != [] ==> IsDigit(s[0]) && IsDigit(s[|s| - 1]);
  }

  lemma DigitsLower(s: Bytes)
    requires AllDigits(s)
    ensures Lower(s) == s
  {
    forall i | 0 <= i < |s| ensures Lower(s)[i] == s[i] {
      assert IsDigit(s[i]);
    }
  }

  lemma DigitsAscii(s: Bytes)
    requires AllDigits(s)
    ensures COLON !in s && LF !in s && Utf8.Valid(s)
  {
    assert forall i :: 0 <= i < |s| ==> s[i] < 0x80 && IsDigit(s[i]);
  }

  /** Without a `content-length` line the body is empty and the reader stops
      at the blank line: whatever follows it is left unread. */
  lemma RequestWithoutLength(src: Source, m: Method, resource: Bytes, v: Version,
                             fields: seq<(Bytes, Bytes)>)
    requires Writable(resource, fields)
    requires ValuesOf(Normalized(fields), CONTENT_LENGTH) == []
    requires var head := EncodeRequestLine(m, resource, v) + EncodeHeaders(fields);
      |head| <= Limit(src) && src.bytes[..|head|] == head
    ensures RequestOf(src) == Parsed(
      Ok(Request(m, resource, HeaderMap(Collect(map[], Normalized(fields))), [], v)),
      |EncodeRequestLine(m, resource, v) + EncodeHeaders(fields)|)
  {
    HeadAt(src, m, resource, v, fields);
    var q := |EncodeRequestLine(m, resource, v)|;
    var p := |EncodeRequestLine(m, resource, v) + EncodeHeaders(fields)|;
    var h := HeaderMap(Collect(map[], Normalized(fields)));
    RequestOfStages(src, MethodSection(m, resource, v), q, h, p);
    assert Get(h, CONTENT_LENGTH) == None by {
      ContentLengthName();
      GetCollected(Normalized(fields), CONTENT_LENGTH);
    }
  }
}
