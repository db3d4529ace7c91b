/** `HttpBody::parse_lines`: the lines of an iterator up to the first empty
    one. `take_while` consumes that empty line too, so the iterator is left
    on the line after it. The decoder itself does not call it. */
module Body {
  import opened Text

  /** The lines collected and what remains of the iterator afterwards. */
  datatype Taken = Taken(lines: seq<Bytes>, rest: seq<Bytes>)

  function ParseBodyLines(lines: seq<Bytes>): (r: Taken)
    ensures |r.lines| <= |lines| && r.lines == lines[..|r.lines|]
    ensures forall i :: 0 <= i < |r.lines| ==> r.lines[i] != []
    ensures |r.lines| < |lines| ==> lines[|r.lines|] == [] && r.rest == lines[|r.lines| + 1..]
    ensures |r.lines| == |lines| ==> r.rest == []
    decreases |lines|
  {
    if lines == [] then Taken([], [])
    else if lines[0] == [] then Taken([], lines[1..])
    else
      var t := ParseBodyLines(lines[1..]);
      Taken([lines[0]] + t.lines, t.rest)
  }

  /** The collected lines are exactly the longest prefix of non-empty lines:
      any `k` that ends such a prefix at an empty line or at the end is the
      number collected. */
  lemma {:induction false} ParseBodyLinesLongest(lines: seq<Bytes>, k: nat)
    requires k <= |lines|
    requires forall i :: 0 <= i < k ==> lines[i] != []
    requires k < |lines| ==> lines[k] == []
    ensures ParseBodyLines(lines).lines == lines[..k]
    decreases k
  {
    if k > 0 {
      var more := lines[1..];
      assert forall i :: 0 <= i < k - 1 ==> more[i] == lines[i + 1];
      ParseBodyLinesLongest(more, k - 1);
      assert lines[..k] == [lines[0]] + more[..k - 1];
    }
  }

  /** Nothing is lost but the terminating empty line: the collected lines,
      that line when there was one, and the rest give back the input. */
  lemma ParseBodyLinesSplits(lines: seq<Bytes>)
    ensures var r := ParseBodyLines(lines);
      lines == r.lines + (if |r.lines| < |lines| then [[]] else []) + r.rest
  {
    var r := ParseBodyLines(lines);
    if |r.lines| < |lines| {
      assert lines == lines[..|r.lines|] + [lines[|r.lines|]] + lines[|r.lines| + 1..];
    } else {
      assert lines == r.lines + [] + [];
    }
  }
}
