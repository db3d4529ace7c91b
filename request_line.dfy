/** `HttpMethodSection::parse_lines`: the request line. */
module RequestLine {
  import opened Text
  import opened Http
  import opened Cursor
  import Utf8

  datatype MethodSection = MethodSection(requestMethod: Method, resource: Bytes, version: Version)

  /** The token checks on a line that was read: `split_whitespace`, then
      method, resource and version in that order, the first failure winning.
      Tokens after the third are not looked at. */
  function ParseRequestLine(line: Bytes): (r: Result<MethodSection>)
    ensures r.Ok? ==> |Words(line)| >= 3 && r.value.resource == Words(line)[1]
    ensures r.Ok? ==> Upper(Words(line)[0]) == MethodName(r.value.requestMethod)
    ensures r.Ok? ==> Upper(Words(line)[2]) == VersionName(r.value.version)
  {
    var ws := Words(line);
    if |ws| == 0 then Err(MethodMissing)
    else match ParseMethod(ws[0])
      case Err(e) => Err(e)
      case Ok(m) =>
        if |ws| == 1 then Err(ResourceMissing)
        else if |ws| == 2 then Err(HttpVersionMissing)
        else match ParseVersion(ws[2])
          case Err(e) => Err(e)
          case Ok(v) => Ok(MethodSection(m, ws[1], v))
  }

  /** The request line at `pos`: a failed or zero-byte read is `Headline`. */
  function MethodSectionAt(src: Source, pos: nat): (r: Parsed<MethodSection>)
    requires pos <= Limit(src)
    ensures pos <= r.next <= Limit(src)
  {
    match ReadLineAt(src, pos)
    case LineFailed(n) => Parsed(Err(Headline), n)
    case Line(line, n) => Parsed(if line == [] then Err(Headline) else ParseRequestLine(line), n)
  }

  method ReadMethodSection(reader: Reader) returns (r: Result<MethodSection>)
    requires reader.Valid()
    modifies reader
    ensures reader.Valid()
    ensures Parsed(r, reader.pos) == MethodSectionAt(reader.src, old(reader.pos))
  {
    var line := reader.ReadLine();
    if line.LineFailed? {
      return Err(Headline);
    }
    if |line.line| == 0 {
      return Err(Headline);
    }
    r := ParseRequestLine(line.line);
  }

  // ---------------------------------------------------------------------

  /** The first failing check decides the error: a missing method, then a
      malformed one, then a missing resource, then a missing or malformed
      version. */
  lemma RequestLineErrors(line: Bytes)
    ensures var ws := Words(line);
      && (ParseRequestLine(line) == Err(MethodMissing) <==> ws == [])
      && (ParseRequestLine(line) == Err(MethodMalformed) <==>
            ws != [] && ParseMethod(ws[0]).Err?)
      && (ParseRequestLine(line) == Err(ResourceMissing) <==>
            |ws| == 1 && ParseMethod(ws[0]).Ok?)
      && (ParseRequestLine(line) == Err(HttpVersionMissing) <==>
            |ws| == 2 && ParseMethod(ws[0]).Ok?)
      && (ParseRequestLine(line) == Err(HttpVersionMalformed) <==>
            |ws| >= 3 && ParseMethod(ws[0]).Ok? && ParseVersion(ws[2]).Err?)
      && (ParseRequestLine(line).Err? ==>
            ParseRequestLine(line).error in {MethodMissing, MethodMalformed,
              ResourceMissing, HttpVersionMissing, HttpVersionMalformed})
  {
  }

  /** A line decodes to a request line exactly when its first word spells
      the method in any letter case, its second word is the resource and its
      third spells the version in any letter case; the words may be
      separated by any whitespace, and words after the third are ignored. */
  lemma RequestLineExactly(line: Bytes, s: MethodSection)
    ensures var ws := Words(line);
      ParseRequestLine(line) == Ok(s) <==>
        && |ws| >= 3
        && Upper(ws[0]) == MethodName(s.requestMethod)
        && ws[1] == s.resource
        && Upper(ws[2]) == VersionName(s.version)
  {
    var ws := Words(line);
    if |ws| >= 3 {
      ParseMethodExactly(ws[0], s.requestMethod);
      ParseVersionExactly(ws[2], s.version);
    }
  }

  lemma NamesAreWords(m: Method, v: Version)
    ensures MethodName(m) != [] && NoSpace(MethodName(m))
    ensures VersionName(v) != [] && NoSpace(VersionName(v))
    ensures forall i :: 0 <= i < |MethodName(m)| ==> MethodName(m)[i] < 0x80
    ensures forall i :: 0 <= i < |VersionName(v)| ==> VersionName(v)[i] < 0x80
  {
    MethodNameIsWord(m);
    VersionNameIsWord(v);
  }

  lemma MethodNameIsWord(m: Method)
    ensures MethodName(m) != [] && NoSpace(MethodName(m))
    ensures forall i :: 0 <= i < |MethodName(m)| ==> MethodName(m)[i] < 0x80
  {
    match m
    case GET => AsciiWord("GET");
    case PUT => AsciiWord("PUT");
    case PATCH => AsciiWord("PATCH");
    case POST => AsciiWord("POST");
    case DELETE => AsciiWord("DELETE");
  }

  lemma VersionNameIsWord(v: Version)
    ensures VersionName(v) != [] && NoSpace(VersionName(v))
    ensures forall i :: 0 <= i < |VersionName(v)| ==> VersionName(v)[i] < 0x80
  {
    match v
    case Http1_1 => AsciiWord("HTTP/1.1");
    case Http2 => AsciiWord("HTTP/2");
  }

  /** `METHOD SP resource SP VERSION`, followed by nothing or by anything
      that starts with whitespace (the CRLF, further tokens), decodes to the
      three values; the resource is kept byte for byte. */
  lemma RequestLineRoundTrip(m: Method, resource: Bytes, v: Version, tail: Bytes)
    requires resource != [] && NoSpace(resource)
    requires tail == [] || IsSpace(tail[0])
    ensures ParseRequestLine(MethodName(m) + [SP] + resource + [SP] + VersionName(v) + tail)
      == Ok(MethodSection(m, resource, v))
  {
    NamesAreWords(m, v);
    NamesRoundTrip(m, v);
    ThreeWords(MethodName(m), resource, VersionName(v), tail);
  }

  /** Helper: three words separated by single spaces, then the tail. */
  lemma ThreeWords(a: Bytes, b: Bytes, c: Bytes, tail: Bytes)
    requires a != [] && NoSpace(a) && b != [] && NoSpace(b) && c != [] && NoSpace(c)
    requires tail == [] || IsSpace(tail[0])
    ensures var ws := Words(a + [SP] + b + [SP] + c + tail);
      |ws| >= 3 && ws[0] == a && ws[1] == b && ws[2] == c
  {
    var ws := [a, b, c];
    WordsOfJoin(ws, tail);
    JoinThree(a, b, c);
  }

  lemma JoinThree(a: Bytes, b: Bytes, c: Bytes)
    ensures Join([a, b, c], SP) == a + [SP] + b + [SP] + c
  {
    var ws := [a, b, c];
    assert ws[1..] == [b, c] && ws[1..][1..] == [c];
    assert Join(ws[1..], SP) == b + [SP] + c;
    ConcatAssoc(a + [SP], b + [SP], c);
    ConcatAssoc(a + [SP], b, [SP]);
  }

  /** The wire form of a request line: the three tokens separated by single
      spaces and ended by CRLF. */
  function EncodeRequestLine(m: Method, resource: Bytes, v: Version): Bytes {
    MethodName(m) + [SP] + resource + [SP] + VersionName(v) + CRLF
  }

  /** A request line at `pos` is read whole and decoded, and the reader is
      left on the byte after its LF, where the header block begins. */
  lemma RequestLineAt(src: Source, pos: nat, m: Method, resource: Bytes, v: Version)
    requires resource != [] && NoSpace(resource) && Utf8.Valid(resource)
    requires var line := EncodeRequestLine(m, resource, v);
      pos + |line| <= Limit(src) && src.bytes[pos..pos + |line|] == line
    ensures MethodSectionAt(src, pos) ==
      Parsed(Ok(MethodSection(m, resource, v)), pos + |EncodeRequestLine(m, resource, v)|)
  {
    var line := EncodeRequestLine(m, resource, v);
    EncodedLineRead(src, pos, m, resource, v);
    ParseEncodedLine(m, resource, v);
    MethodSectionOfLine(src, pos, line, pos + |line|);
  }

  /** Helper: the wire form is read as one line. */
  lemma EncodedLineRead(src: Source, pos: nat, m: Method, resource: Bytes, v: Version)
    requires resource != [] && NoSpace(resource) && Utf8.Valid(resource)
    requires var line := EncodeRequestLine(m, resource, v);
      pos + |line| <= Limit(src) && src.bytes[pos..pos + |line|] == line
    ensures var line := EncodeRequestLine(m, resource, v);
      ReadLineAt(src, pos) == Line(line, pos + |line|)
  {
    EncodedLine(m, resource, v);
    ReadLineOfLine(src, pos, EncodeRequestLine(m, resource, v));
  }

  /** Helper: the wire form decodes to its three values. */
  lemma ParseEncodedLine(m: Method, resource: Bytes, v: Version)
    requires resource != [] && NoSpace(resource)
    ensures ParseRequestLine(EncodeRequestLine(m, resource, v)) == Ok(MethodSection(m, resource, v))
  {
    RequestLineRoundTrip(m, resource, v, CRLF);
  }

  /** Helper: the request line stage on a non-empty line that was read. */
  lemma MethodSectionOfLine(src: Source, pos: nat, line: Bytes, n: nat)
    requires pos <= Limit(src) && line != []
    requires ReadLineAt(src, pos) == Line(line, n)
    ensures MethodSectionAt(src, pos) == Parsed(ParseRequestLine(line), n)
  {
  }

  /** Helper: the wire form is a UTF-8 line whose only LF is its last byte. */
  lemma EncodedLine(m: Method, resource: Bytes, v: Version)
    requires resource != [] && NoSpace(resource) && Utf8.Valid(resource)
    ensures OneLine(EncodeRequestLine(m, resource, v))
  {
    EncodedLineValid(m, resource, v);
    EncodedLineBreak(m, resource, v);
  }

  lemma EncodedLineValid(m: Method, resource: Bytes, v: Version)
    requires Utf8.Valid(resource)
    ensures Utf8.Valid(EncodeRequestLine(m, resource, v))
  {
    var head, foot := MethodName(m) + [SP], [SP] + VersionName(v) + CRLF;
    NamesAreWords(m, v);
    assert EncodeRequestLine(m, resource, v) == head + resource + foot;
    Utf8.AsciiValid(head);
    Utf8.AsciiValid(foot);
    Utf8.ValidConcat(head, resource);
    Utf8.ValidConcat(head + resource, foot);
  }

  lemma EncodedLineBreak(m: Method, resource: Bytes, v: Version)
    requires NoSpace(resource)
    ensures var line := EncodeRequestLine(m, resource, v);
      line != [] && line[|line| - 1] == LF && LF !in line[..|line| - 1]
  {
    var mn, vn := MethodName(m), VersionName(v);
    var line := EncodeRequestLine(m, resource, v);
    NamesAreWords(m, v);
    assert line[..|line| - 1] == mn + [SP] + resource + [SP] + vn + [CR];
    assert forall i :: 0 <= i < |resource| ==> resource[i] != LF;
  }

  /** `Headline` means exactly that the read failed or returned zero
      bytes; token checks never produce it. */
  lemma HeadlineExactly(src: Source, pos: nat)
    requires pos <= Limit(src)
    ensures MethodSectionAt(src, pos).result == Err(Headline) <==>
      ReadLineAt(src, pos).LineFailed? || ReadLineAt(src, pos).line == []
  {
    var r := ReadLineAt(src, pos);
    if r.Line? && r.line != [] {
      RequestLineErrors(r.line);
    }
  }

  /** With nothing left to read, the request line is `Headline`, whether the
      peer closed the connection or its read failed. */
  lemma RequestLineAtEnd(src: Source)
    ensures MethodSectionAt(src, Limit(src)).result == Err(Headline)
  {
    ReadLineAtEnd(src);
  }
}
