/** The byte source `HttpRequest::from_stream` reads from: the connection
    wrapped in a `BufReader` and then in `take(MAX_LINE_LENGTH)`, one cursor
    shared by the request-line, header and body stages. */
module Cursor {
  import opened Text
  import opened Optional
  import Utf8

  /** `size_of::<char>() * 80_000`: a `char` is four bytes, so the whole
      request may be at most 320,000 bytes. Bytes past it read as EOF. */
  const MAX_LINE_LENGTH: nat := 4 * 80000

  /** What the peer sends: `bytes`, followed by an orderly close (EOF) or,
      when `failsAtEnd`, by a failing read (a reset, or the read timeout
      expiring on a silent peer). */
  datatype Source = Source(bytes: Bytes, failsAtEnd: bool)

  /** How many bytes the capped reader can deliver at all. */
  function Limit(src: Source): (n: nat)
    ensures n <= MAX_LINE_LENGTH && n <= |src.bytes|
    ensures n == MAX_LINE_LENGTH || n == |src.bytes|
  {
    if |src.bytes| < MAX_LINE_LENGTH then |src.bytes| else MAX_LINE_LENGTH
  }

  /** A read at the limit fails rather than returning EOF: the transport is
      reached only while the cap has not been used up. */
  predicate EndsInError(src: Source) {
    src.failsAtEnd && |src.bytes| < MAX_LINE_LENGTH
  }

  datatype LineRead = Line(line: Bytes, next: nat) | LineFailed(next: nat)

  /** `BufRead::read_line` at position `pos`: the bytes up to and including
      the first LF, or up to the limit when there is none; an error when
      those bytes are not UTF-8 or the read ran into a failing transport. */
  function ReadLineAt(src: Source, pos: nat): (r: LineRead)
    requires pos <= Limit(src)
    ensures pos <= r.next <= Limit(src)
    ensures r.Line? ==> r.next == pos + |r.line| && r.line == src.bytes[pos..r.next]
  {
    var avail := src.bytes[pos..Limit(src)];
    var i := IndexOf(avail, LF);
    if i < |avail| then
      var line := avail[..i + 1];
      if Utf8.Valid(line) then Line(line, pos + i + 1) else LineFailed(pos + i + 1)
    else if EndsInError(src) then
      LineFailed(Limit(src))
    else if Utf8.Valid(avail) then
      Line(avail, Limit(src))
    else
      LineFailed(Limit(src))
  }

  /** `Read::read_exact` of `n` bytes at `pos`: the next `n` bytes, or an
      error when fewer remain before the limit (EOF or a failing read). */
  function ReadExactAt(src: Source, pos: nat, n: nat): (r: Option<Bytes>)
    requires pos <= Limit(src)
    ensures r.None? <==> Limit(src) - pos < n
    ensures r.Some? ==> |r.value| == n && forall i :: 0 <= i < n ==> r.value[i] == src.bytes[pos + i]
  {
    if pos + n <= Limit(src) then Some(src.bytes[pos..pos + n]) else None
  }

  // ---------------------------------------------------------------------
  // What `read_line` returns, stated from the line's point of view.

  /** A UTF-8 line whose only LF is its last byte. */
  predicate OneLine(line: Bytes) {
    line != [] && line[|line| - 1] == LF && LF !in line[..|line| - 1] && Utf8.Valid(line)
  }

  /** A line lying within the limit is read whole, and the cursor moves
      just past it. */
  lemma ReadLineOfLine(src: Source, pos: nat, line: Bytes)
    requires pos + |line| <= Limit(src)
    requires src.bytes[pos..pos + |line|] == line
    requires OneLine(line)
    ensures ReadLineAt(src, pos) == Line(line, pos + |line|)
  {
    var avail := src.bytes[pos..Limit(src)];
    AvailablePrefix(src, pos, line);
    FirstNewline(avail, line);
    ReadLineAtNewline(src, pos, line);
  }

  /** Helper: the bytes available at `pos` start with `line`. */
  lemma AvailablePrefix(src: Source, pos: nat, line: Bytes)
    requires pos + |line| <= Limit(src)
    requires src.bytes[pos..pos + |line|] == line
    ensures var avail := src.bytes[pos..Limit(src)];
      |line| <= |avail| && avail[..|line|] == line
  {
  }

  /** Helper: a read whose first LF ends `line` returns `line`. */
  lemma ReadLineAtNewline(src: Source, pos: nat, line: Bytes)
    requires pos <= Limit(src) && line != [] && Utf8.Valid(line)
    requires var avail := src.bytes[pos..Limit(src)];
      |line| <= |avail| && avail[..|line|] == line && IndexOf(avail, LF) == |line| - 1
    ensures ReadLineAt(src, pos) == Line(line, pos + |line|)
  {
  }

  /** Helper: the available bytes start with `line`, whose only LF is last. */
  lemma FirstNewline(avail: Bytes, line: Bytes)
    requires |line| <= |avail| && avail[..|line|] == line
    requires line != [] && line[|line| - 1] == LF && LF !in line[..|line| - 1]
    ensures IndexOf(avail, LF) == |line| - 1
  {
    var n := |line| - 1;
    assert forall k :: 0 <= k < n ==> avail[k] == line[..n][k];
    IndexOfUnique(avail, LF, n);
  }

  /** At the limit a read returns zero bytes, or fails when the peer's
      transport reports an error. */
  lemma ReadLineAtEnd(src: Source)
    ensures ReadLineAt(src, Limit(src)) ==
      if EndsInError(src) then LineFailed(Limit(src)) else Line([], Limit(src))
  {
  }

  /** The only way to read zero bytes is to be at the limit already. */
  lemma EmptyLineOnlyAtEnd(src: Source, pos: nat)
    requires pos <= Limit(src)
    requires ReadLineAt(src, pos).Line? && ReadLineAt(src, pos).line == []
    ensures pos == Limit(src)
  {
  }

  /** Helper: `read_line` once the first LF at or after `pos` (or the
      limit) has been found at `i`. */
  lemma ReadLineAtScan(src: Source, pos: nat, i: nat)
    requires pos <= i <= Limit(src)
    requires forall k :: pos <= k < i ==> src.bytes[k] != LF
    requires i < Limit(src) ==> src.bytes[i] == LF
    ensures ReadLineAt(src, pos) ==
      if i < Limit(src) then
        (if Utf8.Valid(src.bytes[pos..i + 1]) then Line(src.bytes[pos..i + 1], i + 1) else LineFailed(i + 1))
      else if EndsInError(src) then LineFailed(Limit(src))
      else if Utf8.Valid(src.bytes[pos..Limit(src)]) then Line(src.bytes[pos..Limit(src)], Limit(src))
      else LineFailed(Limit(src))
  {
    var avail := src.bytes[pos..Limit(src)];
    IndexOfUnique(avail, LF, i - pos);
    assert i < Limit(src) ==> avail[..i - pos + 1] == src.bytes[pos..i + 1];
  }

  // ---------------------------------------------------------------------

  /** The capped, buffered reader: the position of the next byte it will
      deliver. Every stage of the decoder advances the same reader. */
  class Reader {
    const src: Source
    var pos: nat

    ghost predicate Valid()
      reads this
    {
      pos <= Limit(src)
    }

    constructor (s: Source)
      ensures src == s && pos == 0 && Valid()
    {
      src := s;
      pos := 0;
    }

    /** `read_line`: scans for the first LF below the limit. */
    method ReadLine() returns (r: LineRead)
      requires Valid()
      modifies this
      ensures Valid()
      ensures r == ReadLineAt(src, old(pos)) && pos == r.next
    {
      var end := Limit(src);
      var i := pos;
      while i < end && src.bytes[i] != LF
        invariant pos <= i <= end
        invariant forall k :: pos <= k < i ==> src.bytes[k] != LF
      {
        i := i + 1;
      }
      ReadLineAtScan(src, pos, i);
      if i < end {
        var line := src.bytes[pos..i + 1];
        if Utf8.Valid(line) {
          r := Line(line, i + 1);
        } else {
          r := LineFailed(i + 1);
        }
      } else if EndsInError(src) {
        r := LineFailed(end);
      } else if Utf8.Valid(src.bytes[pos..end]) {
        r := Line(src.bytes[pos..end], end);
      } else {
        r := LineFailed(end);
      }
      pos := r.next;
    }

    /** `read_exact`: fills `buf` in place from the stream; fails when the
      limit comes first, having consumed everything up to it. */
    method ReadExact(buf: array<Byte>) returns (ok: bool)
      requires Valid()
      modifies this, buf
      ensures Valid()
      ensures ok == ReadExactAt(src, old(pos), buf.Length).Some?
      ensures ok ==> buf[..] == ReadExactAt(src, old(pos), buf.Length).value
      ensures pos == if ok then old(pos) + buf.Length else Limit(src)
    {
      var end := Limit(src);
      var i := 0;
      while i < buf.Length && pos < end
        invariant 0 <= i <= buf.Length
        invariant pos == old(pos) + i <= end
        invariant buf[..i] == src.bytes[old(pos)..pos]
      {
        buf[i] := src.bytes[pos];
        i := i + 1;
        pos := pos + 1;
      }
      ok := i == buf.Length;
    }
  }
}
