/** The header block's wire form, `name:value` lines ended by a blank
    line, read back by `HttpHeaders::parse_lines`. */
module HeaderWire {
  import opened Text
  import opened Optional
  import opened Http
  import opened Cursor
  import opened Headers
  import Utf8

  lemma FieldLineRead(f: (Bytes, Bytes))
    requires Encodable(f)
    ensures OneLine(FieldLine(f))
  {
    var line := FieldLine(f);
    assert line[..|line| - 1] == f.0 + [COLON] + f.1 + [CR];
    assert Utf8.Valid(line) by {
      Utf8.AsciiValid([COLON]);
      Utf8.AsciiValid(CRLF);
      Utf8.ValidConcat(f.0, [COLON]);
      Utf8.ValidConcat(f.0 + [COLON], f.1);
      Utf8.ValidConcat(f.0 + [COLON] + f.1, CRLF);
    }
  }

  lemma FieldLineFields(f: (Bytes, Bytes))
    requires COLON !in f.0 && COLON !in f.1
    ensures HeaderField(Trim(FieldLine(f))) == Some((Lower(Trim(f.0)), Lower(Trim(f.1))))
  {
    HeaderLineFields(f.0, f.1, CRLF);
  }

  /** A header line on the wire is read whole. */
  lemma FieldLineAt(src: Source, pos: nat, f: (Bytes, Bytes))
    requires Encodable(f)
    requires pos + |FieldLine(f)| <= Limit(src)
    requires src.bytes[pos..pos + |FieldLine(f)|] == FieldLine(f)
    ensures ReadLineAt(src, pos) == Line(FieldLine(f), pos + |FieldLine(f)|)
  {
    FieldLineRead(f);
    ReadLineOfLine(src, pos, FieldLine(f));
  }

  /** Unfolds one step of `HeadersFrom` at a line that gives a field. */
  lemma HeadersFromField(src: Source, pos: nat, acc: Entries, raw: Bytes, n: nat, key: Bytes, value: Bytes)
    requires pos <= Limit(src)
    requires ReadLineAt(src, pos) == Line(raw, n)
    requires HeaderField(Trim(raw)) == Some((key, value))
    ensures n <= Limit(src)
    ensures HeadersFrom(src, pos, acc) == HeadersFrom(src, n, Insert(acc, key, value))
  {
    assert Trim(raw) != [];
  }
  lemma CollectCons(acc: Entries, fields: seq<(Bytes, Bytes)>)
    requires fields != []
    ensures Collect(acc, Normalized(fields)) ==
      Collect(Insert(acc, Lower(Trim(fields[0].0)), Lower(Trim(fields[0].1))), Normalized(fields[1..]))
  {
    var ps := Normalized(fields);
    NormalizedTail(fields);
    CollectStep(acc, ps, ps[0].0);
  }

  lemma NormalizedTail(fields: seq<(Bytes, Bytes)>)
    requires fields != []
    ensures Normalized(fields)[0] == (Lower(Trim(fields[0].0)), Lower(Trim(fields[0].1)))
    ensures Normalized(fields)[1..] == Normalized(fields[1..])
  {
    var p := (Lower(Trim(fields[0].0)), Lower(Trim(fields[0].1)));
    assert Normalized(fields) == [p] + Normalized(fields[1..]);
  }

  /** What the reader returns, line by line, over an encoded block. */
  predicate LinesAt(src: Source, pos: nat, fields: seq<(Bytes, Bytes)>)
    decreases |fields|
  {
    && pos <= Limit(src)
    && var r := ReadLineAt(src, pos);
    && r.Line?
    && if fields == [] then
         r.line == CRLF
       else
         && r.line == FieldLine(fields[0])
         && COLON !in fields[0].0 && COLON !in fields[0].1
         && LinesAt(src, r.next, fields[1..])
  }

  /** An encoded block in the stream is read back line by line. */
  lemma {:induction false} BlockLines(src: Source, pos: nat, fields: seq<(Bytes, Bytes)>)
    requires BlockAt(src, pos, fields)
    ensures LinesAt(src, pos, fields)
    decreases |fields|, 1
  {
    if fields == [] {
      BlankLine();
      ReadLineOfLine(src, pos, CRLF);
    } else {
      BlockLinesCons(src, pos, fields);
    }
  }

  /** The inductive step of BlockLines: the first line, then the rest. */
  lemma {:induction false} BlockLinesCons(src: Source, pos: nat, fields: seq<(Bytes, Bytes)>)
    requires BlockAt(src, pos, fields) && fields != []
    ensures LinesAt(src, pos, fields)
    decreases |fields|, 0
  {
    BlockSplit(src, pos, fields);
    FieldLineAt(src, pos, fields[0]);
    var n := ReadLineAt(src, pos).next;
    BlockLines(src, n, fields[1..]);
    LinesCons(src, pos, n, fields);
  }

  /** Helper: one step of `LinesAt`. */
  lemma LinesCons(src: Source, pos: nat, n: nat, fields: seq<(Bytes, Bytes)>)
    requires pos <= Limit(src) && fields != []
    requires ReadLineAt(src, pos) == Line(FieldLine(fields[0]), n)
    requires Encodable(fields[0])
    requires LinesAt(src, n, fields[1..])
    ensures LinesAt(src, pos, fields)
  {
  }

  lemma BlankLine()
    ensures OneLine(CRLF)
  {
    Utf8.AsciiValid(CRLF);
  }

  /** Helper: an encoded block is its first line followed by the encoding
      of the others. */
  lemma BlockSplit(src: Source, pos: nat, fields: seq<(Bytes, Bytes)>)
    requires BlockAt(src, pos, fields) && fields != []
    ensures var line := FieldLine(fields[0]);
      && Encodable(fields[0])
      && pos + |line| <= Limit(src) && src.bytes[pos..pos + |line|] == line
      && BlockAt(src, pos + |line|, fields[1..])
  {
    var line, rest := FieldLine(fields[0]), EncodeHeaders(fields[1..]);
    assert EncodeHeaders(fields) == line + rest;
    SliceParts(src.bytes, pos, line, rest);
    assert forall i :: 0 <= i < |fields[1..]| ==> fields[1..][i] == fields[i + 1];
  }

  lemma {:induction false} LinesRoundTrip(src: Source, pos: nat, acc: Entries, fields: seq<(Bytes, Bytes)>)
    requires LinesAt(src, pos, fields)
    ensures HeadersFrom(src, pos, acc) ==
      Parsed(Ok(HeaderMap(Collect(acc, Normalized(fields)))), pos + |EncodeHeaders(fields)|)
    decreases |fields|
  {
    if fields == [] {
      TrimAllSpace(CRLF);
    } else {
      var f, more := fields[0], fields[1..];
      var key, value := Lower(Trim(f.0)), Lower(Trim(f.1));
      var n := ReadLineAt(src, pos).next;
      LinesRoundTrip(src, n, Insert(acc, key, value), more);
      FieldLineFields(f);
      HeadersFromField(src, pos, acc, FieldLine(f), n, key, value);
      CollectCons(acc, fields);
    }
  }

  /** A header block read from the reader gives the map its lines describe,
      and leaves the reader just after the blank line, where the body
      begins. */
  lemma HeadersRoundTrip(src: Source, pos: nat, acc: Entries, fields: seq<(Bytes, Bytes)>)
    requires BlockAt(src, pos, fields)
    ensures HeadersFrom(src, pos, acc) ==
      Parsed(Ok(HeaderMap(Collect(acc, Normalized(fields)))), pos + |EncodeHeaders(fields)|)
  {
    BlockLines(src, pos, fields);
    LinesRoundTrip(src, pos, acc, fields);
  }
}
