/** `HttpHeaders`: the header block that follows the request line, read
    line by line from the shared reader into a map from lower-cased names to
    the values given for them, in arrival order. */
module Headers {
  import opened Text
  import opened Optional
  import opened Http
  import opened Cursor
  import Utf8

  type Entries = map<Bytes, seq<Bytes>>

  datatype HeaderMap = HeaderMap(entries: Entries)

  /** Lower-case and free of ':', as every name and value the decoder
      stores is. */
  predicate Normal(s: Bytes) {
    Lower(s) == s && COLON !in s
  }

  /** What every map the decoder builds satisfies: each name has at least
      one value, so taking the first value of `content-length` cannot fail. */
  predicate WellFormed(m: Entries) {
    forall k :: k in m ==>
      m[k] != [] && Normal(k) && forall j :: 0 <= j < |m[k]| ==> Normal(m[k][j])
  }

  /** The values stored under `key`, none when it is absent. */
  function Lookup(m: Entries, key: Bytes): seq<Bytes> {
    if key in m then m[key] else []
  }

  /** `get_mut(&key)` then `push`, or `insert(key, vec![value])`. */
  function Insert(m: Entries, key: Bytes, value: Bytes): (r: Entries)
    ensures r.Keys == m.Keys + {key}
    ensures r[key] == Lookup(m, key) + [value]
    ensures forall k :: k in m && k != key ==> r[k] == m[k]
  {
    if key in m then m[key := m[key] + [value]] else m[key := [value]]
  }

  /** `HttpHeaders::get`: the lookup lower-cases the name it is given. */
  function Get(h: HeaderMap, key: Bytes): (r: Option<seq<Bytes>>)
    ensures r.Some? <==> Lower(key) in h.entries
    ensures r.Some? ==> r.value == h.entries[Lower(key)]
    ensures WellFormed(h.entries) && r.Some? ==> r.value != []
  {
    if Lower(key) in h.entries then Some(h.entries[Lower(key)]) else None
  }

  lemma NormalPiece(p: Bytes)
    requires COLON !in p
    ensures Normal(Lower(Trim(p)))
  {
    NotInTrim(p, COLON);
    NotInLower(Trim(p), COLON);
    LowerIdempotent(Trim(p));
  }

  /** The name and value on a trimmed header line: the first two
      ':'-separated pieces, each trimmed and lower-cased, with any further
      pieces dropped. A line without ':' has no value. */
  function HeaderField(line: Bytes): (r: Option<(Bytes, Bytes)>)
    ensures r.None? <==> COLON !in line
    ensures r.Some? ==> Normal(r.value.0) && Normal(r.value.1)
  {
    var pieces := Split(line, COLON);
    if |pieces| < 2 then
      None
    else
      JoinHasSeparator(pieces, COLON);
      NormalPiece(pieces[0]);
      NormalPiece(pieces[1]);
      Some((Lower(Trim(pieces[0])), Lower(Trim(pieces[1]))))
  }

  /** `HttpHeaders::parse_lines` from position `pos`, with `acc` collected
      so far: a failed read is `HeadersMalformed`; a zero-byte read or a line
      that is blank once trimmed ends the block; a line without ':' is
      `HeadersMalformed`; any other line adds its value under its name. */
  function HeadersFrom(src: Source, pos: nat, acc: Entries): (r: Parsed<HeaderMap>)
    requires pos <= Limit(src)
    ensures pos <= r.next <= Limit(src)
    ensures r.result.Err? ==> r.result.error == HeadersMalformed
    ensures r.result.Ok? && WellFormed(acc) ==> WellFormed(r.result.value.entries)
    ensures r.result.Ok? ==> acc.Keys <= r.result.value.entries.Keys
    decreases Limit(src) - pos
  {
    match ReadLineAt(src, pos)
    case LineFailed(n) => Parsed(Err(HeadersMalformed), n)
    case Line(raw, n) =>
      var line := Trim(raw);
      if raw == [] || line == [] then
        Parsed(Ok(HeaderMap(acc)), n)
      else
        match HeaderField(line)
        case None => Parsed(Err(HeadersMalformed), n)
        case Some((key, value)) =>
          InsertWellFormed(acc, key, value);
          HeadersFrom(src, n, Insert(acc, key, value))
  }

  lemma InsertWellFormed(m: Entries, key: Bytes, value: Bytes)
    requires Normal(key) && Normal(value)
    ensures WellFormed(m) ==> WellFormed(Insert(m, key, value))
  {
    if WellFormed(m) {
      var r := Insert(m, key, value);
      forall k | k in r
        ensures r[k] != [] && Normal(k) && forall j :: 0 <= j < |r[k]| ==> Normal(r[k][j])
      {
        if k == key {
          assert r[k] == Lookup(m, k) + [value];
        }
      }
    }
  }

  /** The header loop over the shared reader, updating its map in place. */
  method ParseHeaders(reader: Reader) returns (r: Result<HeaderMap>)
    requires reader.Valid()
    modifies reader
    ensures reader.Valid()
    ensures Parsed(r, reader.pos) == HeadersFrom(reader.src, old(reader.pos), map[])
  {
    var entries: Entries := map[];
    while true
      invariant reader.Valid()
      invariant HeadersFrom(reader.src, reader.pos, entries) ==
                HeadersFrom(reader.src, old(reader.pos), map[])
      decreases Limit(reader.src) - reader.pos
    {
      var read := reader.ReadLine();
      if read.LineFailed? {
        return Err(HeadersMalformed);
      }
      var line := Trim(read.line);
      if |read.line| == 0 || line == [] {
        break;
      }
      var field := HeaderField(line);
      if field.None? {
        return Err(HeadersMalformed);
      }
      var (key, value) := field.value;
      if key in entries {
        entries := entries[key := entries[key] + [value]];
      } else {
        entries := entries[key := [value]];
      }
    }
    r := Ok(HeaderMap(entries));
  }

  // ---------------------------------------------------------------------
  // Header lines.

  /** A line with exactly one ':' gives the trimmed, lower-cased text on
      either side of it. */
  lemma HeaderFieldOf(name: Bytes, value: Bytes)
    requires COLON !in name && COLON !in value
    ensures HeaderField(name + [COLON] + value) ==
      Some((Lower(Trim(name)), Lower(Trim(value))))
  {
    assert Split(name + [COLON] + value, COLON) == [name, value] by {
      SplitAfter(name, value, COLON);
      SplitNone(value, COLON);
    }
  }

  /** Only the first two pieces matter: whatever follows a second ':' is
      dropped (so `host: a:8080` stores the value `a`). */
  lemma HeaderFieldDropsRest(name: Bytes, value: Bytes, rest: Bytes)
    requires COLON !in name && COLON !in value
    ensures HeaderField(name + [COLON] + value + [COLON] + rest) ==
      Some((Lower(Trim(name)), Lower(Trim(value))))
  {
    var tail := value + [COLON] + rest;
    var line := name + [COLON] + value + [COLON] + rest;
    assert line == name + [COLON] + tail;
    var pieces := Split(line, COLON);
    assert pieces == [name] + ([value] + Split(rest, COLON)) by {
      SplitAfter(name, tail, COLON);
      SplitAfter(value, rest, COLON);
    }
    assert pieces[0] == name && pieces[1] == value;
  }

  /** `name:value` followed by whitespace (the CRLF), once trimmed, gives
      the trimmed, lower-cased name and value. */
  lemma HeaderLineFields(name: Bytes, value: Bytes, w: Bytes)
    requires COLON !in name && COLON !in value && AllSpace(w)
    ensures HeaderField(Trim(name + [COLON] + value + w)) ==
      Some((Lower(Trim(name)), Lower(Trim(value))))
  {
    var s, e := TrimStart(name), TrimEnd(value);
    TrimAroundColon(name, value, w);
    NotInTrim(name, COLON);
    NotInTrim(value, COLON);
    HeaderFieldOf(s, e);
    TrimOfTrimStart(name);
    TrimOfTrimEnd(value);
  }

  /** Helper: trimming `name:value` and trailing whitespace trims only the
      front of the name and the back of the value. */
  lemma TrimAroundColon(name: Bytes, value: Bytes, w: Bytes)
    requires AllSpace(w)
    ensures Trim(name + [COLON] + value + w) == TrimStart(name) + [COLON] + TrimEnd(value)
  {
    var vw := value + w;
    assert name + [COLON] + value + w == name + [COLON] + vw;
    TrimAround(name, COLON, vw);
    TrimEndSpaces(value, w);
  }

  // ---------------------------------------------------------------------
  // Where the block ends.

  /** At the limit the block ends without error after an orderly close,
      and is `HeadersMalformed` when the transport failed. */
  lemma HeadersAtEnd(src: Source, acc: Entries)
    ensures HeadersFrom(src, Limit(src), acc) ==
      if EndsInError(src) then Parsed(Err(HeadersMalformed), Limit(src))
      else Parsed(Ok(HeaderMap(acc)), Limit(src))
  {
    ReadLineAtEnd(src);
  }

  /** A failed read is `HeadersMalformed`; a line that is empty after
      trimming ends the block with the names collected so far; either way
      the reader is left after that read. */
  lemma HeadersLineEnds(src: Source, pos: nat, acc: Entries)
    requires pos <= Limit(src)
    ensures var r := ReadLineAt(src, pos);
      r.LineFailed? ==> HeadersFrom(src, pos, acc) == Parsed(Err(HeadersMalformed), r.next)
    ensures var r := ReadLineAt(src, pos);
      r.Line? && Trim(r.line) == [] ==> HeadersFrom(src, pos, acc) == Parsed(Ok(HeaderMap(acc)), r.next)
  {
  }

  /** A line that is not blank and has no ':' is `HeadersMalformed`, and
      the reader is left after it. */
  lemma HeaderLineWithoutColon(src: Source, pos: nat, acc: Entries)
    requires pos <= Limit(src)
    requires ReadLineAt(src, pos).Line?
    requires Trim(ReadLineAt(src, pos).line) != [] && COLON !in ReadLineAt(src, pos).line
    ensures HeadersFrom(src, pos, acc) == Parsed(Err(HeadersMalformed), ReadLineAt(src, pos).next)
  {
    NotInTrim(ReadLineAt(src, pos).line, COLON);
  }

  // ---------------------------------------------------------------------
  // Repeated names, and the block read back from its wire form.

  /** The name and value each wire line gives, as `HeaderField` computes
      them: trimmed and lower-cased. */
  function Normalized(pairs: seq<(Bytes, Bytes)>): (r: seq<(Bytes, Bytes)>)
    ensures |r| == |pairs|
    ensures forall i :: 0 <= i < |r| ==>
      r[i] == (Lower(Trim(pairs[i].0)), Lower(Trim(pairs[i].1)))
    decreases |pairs|
  {
    if pairs == [] then []
    else [(Lower(Trim(pairs[0].0)), Lower(Trim(pairs[0].1)))] + Normalized(pairs[1..])
  }

  /** The map built from a list of stored names and values, one insertion
      per line. */
  function Collect(acc: Entries, pairs: seq<(Bytes, Bytes)>): Entries
    decreases |pairs|
  {
    if pairs == [] then acc
    else Collect(Insert(acc, pairs[0].0, pairs[0].1), pairs[1..])
  }

  /** The values the lines give for `key`, in the order the lines arrive. */
  function ValuesOf(pairs: seq<(Bytes, Bytes)>, key: Bytes): seq<Bytes>
    decreases |pairs|
  {
    if pairs == [] then []
    else (if pairs[0].0 == key then [pairs[0].1] else []) + ValuesOf(pairs[1..], key)
  }

  /** Repeated names accumulate: each name keeps its earlier values and
      gains the new ones in arrival order, and a name is present exactly
      when it was present before or some line gives it. */
  lemma CollectLookup(acc: Entries, pairs: seq<(Bytes, Bytes)>, key: Bytes)
    ensures Lookup(Collect(acc, pairs), key) == Lookup(acc, key) + ValuesOf(pairs, key)
    ensures key in Collect(acc, pairs) <==> key in acc || ValuesOf(pairs, key) != []
  {
    CollectValues(acc, pairs, key);
    CollectKeys(acc, pairs, key);
  }

  lemma {:induction false} CollectValues(acc: Entries, pairs: seq<(Bytes, Bytes)>, key: Bytes)
    ensures Lookup(Collect(acc, pairs), key) == Lookup(acc, key) + ValuesOf(pairs, key)
    decreases |pairs|
  {
    if pairs == [] {
      assert Lookup(acc, key) + [] == Lookup(acc, key);
    } else {
      CollectStep(acc, pairs, key);
      var f := pairs[0];
      CollectValues(Insert(acc, f.0, f.1), pairs[1..], key);
    }
  }

  lemma CollectStep(acc: Entries, pairs: seq<(Bytes, Bytes)>, key: Bytes)
    requires pairs != []
    ensures var f := pairs[0];
      var next := Insert(acc, f.0, f.1);
      Lookup(next, key) + ValuesOf(pairs[1..], key) == Lookup(acc, key) + ValuesOf(pairs, key) &&
      Collect(acc, pairs) == Collect(next, pairs[1..])
  {
    var f, more := pairs[0], pairs[1..];
    var old_, later := Lookup(acc, key), ValuesOf(more, key);
    LookupInsert(acc, f.0, f.1, key);
    if f.0 == key {
      assert ValuesOf(pairs, key) == [f.1] + later;
      assert old_ + [f.1] + later == old_ + ([f.1] + later);
    } else {
      assert ValuesOf(pairs, key) == later;
    }
  }

  lemma {:induction false} CollectKeys(acc: Entries, pairs: seq<(Bytes, Bytes)>, key: Bytes)
    ensures key in Collect(acc, pairs) <==> key in acc || ValuesOf(pairs, key) != []
    decreases |pairs|
  {
    if pairs != [] {
      var f, more := pairs[0], pairs[1..];
      var next := Insert(acc, f.0, f.1);
      assert Collect(acc, pairs) == Collect(next, more);
      CollectKeys(next, more, key);
      if f.0 == key {
        assert |ValuesOf(pairs, key)| > 0;
      } else {
        assert ValuesOf(pairs, key) == ValuesOf(more, key);
      }
    }
  }

  lemma LookupInsert(m: Entries, k: Bytes, v: Bytes, key: Bytes)
    ensures Lookup(Insert(m, k, v), key) == Lookup(m, key) + (if k == key then [v] else [])
    ensures key in Insert(m, k, v) <==> key in m || k == key
  {
    if k != key {
      assert Lookup(m, key) + [] == Lookup(m, key);
    }
  }

  /** Lookup through `get` on a block read from scratch: a name in any
      letter case finds the values given under it, and nothing when there
      were none. */
  lemma GetCollected(pairs: seq<(Bytes, Bytes)>, name: Bytes)
    ensures var vs := ValuesOf(pairs, Lower(name));
      Get(HeaderMap(Collect(map[], pairs)), name) == if vs == [] then None else Some(vs)
  {
    var vs := ValuesOf(pairs, Lower(name));
    CollectLookup(map[], pairs, Lower(name));
    assert Lookup(map[], Lower(name)) + vs == vs;
  }

  // ---------------------------------------------------------------------
  // The wire form of a header block.

  /** A header line on the wire: `name:value` and CRLF. */
  function FieldLine(f: (Bytes, Bytes)): Bytes {
    f.0 + [COLON] + f.1 + CRLF
  }

  /** A header block on the wire: its lines, then the blank line. */
  function EncodeHeaders(fields: seq<(Bytes, Bytes)>): Bytes
    decreases |fields|
  {
    if fields == [] then CRLF else FieldLine(fields[0]) + EncodeHeaders(fields[1..])
  }

  /** A name and a value that can be written on one line and read back:
      UTF-8, without ':' and without LF. */
  predicate Encodable(f: (Bytes, Bytes)) {
    COLON !in f.0 && COLON !in f.1 && LF !in f.0 && LF !in f.1 &&
    Utf8.Valid(f.0) && Utf8.Valid(f.1)
  }

  /** The encoding of `fields` lies at `pos`, within the limit. */
  predicate BlockAt(src: Source, pos: nat, fields: seq<(Bytes, Bytes)>) {
    && (forall i :: 0 <= i < |fields| ==> Encodable(fields[i]))
    && pos + |EncodeHeaders(fields)| <= Limit(src)
    && src.bytes[pos..pos + |EncodeHeaders(fields)|] == EncodeHeaders(fields)
  }
}
