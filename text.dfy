/** Byte strings and the handful of `str` operations the request decoder
    applies to them: ASCII case mapping, `find`, `split`, `trim` and
    `split_whitespace`. A Rust `String` is a UTF-8 byte sequence, so text is
    modelled as `Bytes`; whitespace and case follow the ASCII part of Rust's
    Unicode tables (see the README for what that leaves out). */
module Text {

  /** One octet, Rust's `u8`. */
  newtype Byte = b: int | 0 <= b < 256

  type Bytes = seq<Byte>

  const TAB: Byte := 0x09
  const LF: Byte := 0x0A
  const CR: Byte := 0x0D
  const SP: Byte := 0x20
  const COLON: Byte := 0x3A
  const CRLF: Bytes := [CR, LF]

  /** The bytes of a string literal that is written in ASCII. */
  function Ascii(s: string): (b: Bytes)
    ensures |b| == |s|
  {
    seq(|s|, i requires 0 <= i < |s| => (s[i] as int % 256) as Byte)
  }

  // ---------------------------------------------------------------------
  // Whitespace: the ASCII members of Unicode White_Space, which are what
  // `char::is_whitespace` accepts below U+0080 (tab, LF, VT, FF, CR, space).

  predicate IsSpace(b: Byte) {
    b == SP || TAB <= b <= CR
  }

  predicate AllSpace(s: Bytes) {
    forall i :: 0 <= i < |s| ==> IsSpace(s[i])
  }

  predicate NoSpace(s: Bytes) {
    forall i :: 0 <= i < |s| ==> !IsSpace(s[i])
  }

  // ---------------------------------------------------------------------
  // ASCII case mapping (`to_uppercase` / `to_lowercase` restricted to ASCII).

  function UpperByte(b: Byte): Byte {
    if 'a' as int <= b as int <= 'z' as int then b - 0x20 else b
  }

  function LowerByte(b: Byte): Byte {
    if 'A' as int <= b as int <= 'Z' as int then b + 0x20 else b
  }

  /** Every lower-case ASCII letter becomes its capital; every other byte
      is kept. */
  function Upper(s: Bytes): (r: Bytes)
    ensures |r| == |s|
    ensures forall i :: 0 <= i < |r| ==> !('a' as int <= r[i] as int <= 'z' as int)
    ensures forall i :: 0 <= i < |r| ==>
      r[i] == s[i] || ('a' as int <= s[i] as int <= 'z' as int && r[i] as int + 0x20 == s[i] as int)
  {
    seq(|s|, i requires 0 <= i < |s| => UpperByte(s[i]))
  }

  /** Every capital ASCII letter becomes its lower-case letter; every other
      byte is kept. */
  function Lower(s: Bytes): (r: Bytes)
    ensures |r| == |s|
    ensures forall i :: 0 <= i < |r| ==> !('A' as int <= r[i] as int <= 'Z' as int)
    ensures forall i :: 0 <= i < |r| ==>
      r[i] == s[i] || ('A' as int <= s[i] as int <= 'Z' as int && r[i] as int == s[i] as int + 0x20)
  {
    seq(|s|, i requires 0 <= i < |s| => LowerByte(s[i]))
  }

  /** Lower-casing introduces no byte other than a lower-case letter. */
  lemma NotInLower(s: Bytes, b: Byte)
    requires b !in s && !('a' as int <= b as int <= 'z' as int)
    ensures b !in Lower(s)
  {
    assert forall i :: 0 <= i < |s| ==> Lower(s)[i] == LowerByte(s[i]);
  }

  /** Lower-casing a lower-cased string changes nothing, so a key stored
      lower-cased is found again by lower-casing any spelling of it. */
  lemma LowerIdempotent(s: Bytes)
    ensures Lower(Lower(s)) == Lower(s)
  {
    forall i | 0 <= i < |s| ensures Lower(Lower(s))[i] == Lower(s)[i] {
      assert Lower(s)[i] == LowerByte(s[i]);
    }
  }

  // ---------------------------------------------------------------------
  // `find`: the first position of a byte.

  /** The index of the first `c` in `s`, or `|s|` when there is none. */
  function IndexOf(s: Bytes, c: Byte): (i: nat)
    ensures i <= |s|
    ensures forall k :: 0 <= k < i ==> s[k] != c
    ensures i < |s| ==> s[i] == c
    decreases |s|
  {
    if s == [] || s[0] == c then 0 else 1 + IndexOf(s[1..], c)
  }

  /** The three properties of IndexOf determine it. */
  lemma IndexOfUnique(s: Bytes, c: Byte, i: nat)
    requires i <= |s|
    requires forall k :: 0 <= k < i ==> s[k] != c
    requires i < |s| ==> s[i] == c
    ensures IndexOf(s, c) == i
  {
  }

  lemma IndexOfConcat(a: Bytes, b: Bytes, c: Byte)
    requires c !in a
    ensures IndexOf(a + b, c) == |a| + IndexOf(b, c)
  {
    var j := IndexOf(b, c);
    forall k | 0 <= k < |a| + j ensures (a + b)[k] != c {
      if k < |a| {
        assert (a + b)[k] == a[k] && a[k] in a;
      } else {
        assert (a + b)[k] == b[k - |a|];
      }
    }
    IndexOfUnique(a + b, c, |a| + j);
  }

  // ---------------------------------------------------------------------
  // `split(sep)`: the pieces between separators; there is always at least
  // one piece, and joining them back with the separator gives the input.

  function Join(pieces: seq<Bytes>, sep: Byte): Bytes
    requires |pieces| >= 1
    decreases |pieces|
  {
    if |pieces| == 1 then pieces[0] else pieces[0] + [sep] + Join(pieces[1..], sep)
  }

  function Split(s: Bytes, sep: Byte): (pieces: seq<Bytes>)
    ensures |pieces| >= 1
    ensures forall p :: p in pieces ==> sep !in p
    ensures Join(pieces, sep) == s
    decreases |s|
  {
    var i := IndexOf(s, sep);
    if i == |s| then
      [s]
    else
      var rest := Split(s[i + 1..], sep);
      assert sep !in s[..i] by {
        forall k | 0 <= k < i ensures s[..i][k] != sep { }
      }
      assert Join([s[..i]] + rest, sep) == s[..i] + [sep] + Join(rest, sep) by {
        assert ([s[..i]] + rest)[1..] == rest;
      }
      assert s == s[..i] + [sep] + s[i + 1..];
      [s[..i]] + rest
  }

  /** A separator-free prefix is the first piece, and the split goes on
      after the separator. */
  lemma {:induction false} SplitAfter(a: Bytes, b: Bytes, sep: Byte)
    requires sep !in a
    ensures Split(a + [sep] + b, sep) == [a] + Split(b, sep)
  {
    var s := a + [sep] + b;
    IndexOfConcat(a, [sep] + b, sep);
    assert a + ([sep] + b) == s;
    assert IndexOf(s, sep) == |a|;
    assert s[..|a|] == a && s[|a| + 1..] == b;
  }

  /** Input without a separator is one piece. */
  lemma {:induction false} SplitNone(a: Bytes, sep: Byte)
    requires sep !in a
    ensures Split(a, sep) == [a]
  {
    IndexOfConcat(a, [], sep);
    assert a + [] == a;
  }

  /** Two or more pieces are joined by at least one separator. */
  lemma JoinHasSeparator(pieces: seq<Bytes>, sep: Byte)
    requires |pieces| >= 2
    ensures sep in Join(pieces, sep)
  {
    assert Join(pieces, sep)[|pieces[0]|] == sep;
  }

  // ---------------------------------------------------------------------
  // `trim_start`, `trim_end` and `trim`. Each contract determines its result:
  // the dropped bytes are whitespace and the kept part does not begin (end)
  // with whitespace.

  function TrimStart(s: Bytes): (r: Bytes)
    ensures |r| <= |s| && r == s[|s| - |r|..]
    ensures forall i :: 0 <= i < |s| - |r| ==> IsSpace(s[i])
    ensures r == [] || !IsSpace(r[0])
    decreases |s|
  {
    if s != [] && IsSpace(s[0]) then TrimStart(s[1..]) else s
  }

  function TrimEnd(s: Bytes): (r: Bytes)
    ensures |r| <= |s| && r == s[..|r|]
    ensures forall i :: |r| <= i < |s| ==> IsSpace(s[i])
    ensures r == [] || !IsSpace(r[|r| - 1])
    decreases |s|
  {
    if s != [] && IsSpace(s[|s| - 1]) then TrimEnd(s[..|s| - 1]) else s
  }

  /** `str::trim`: whitespace removed at both ends. */
  function Trim(s: Bytes): (r: Bytes)
    ensures |r| <= |s|
    ensures r == [] || (!IsSpace(r[0]) && !IsSpace(r[|r| - 1]))
    ensures (forall i :: 0 <= i < |s| ==> IsSpace(s[i])) ==> r == []
    ensures (s == [] || (!IsSpace(s[0]) && !IsSpace(s[|s| - 1]))) ==> r == s
  {
    TrimEnd(TrimStart(s))
  }

  /** Trimming only removes bytes. */
  lemma NotInTrim(s: Bytes, b: Byte)
    requires b !in s
    ensures b !in TrimStart(s) && b !in TrimEnd(s) && b !in Trim(s)
  {
    NotInSuffix(s, TrimStart(s), b);
    NotInPrefix(s, TrimEnd(s), b);
    NotInPrefix(TrimStart(s), Trim(s), b);
  }

  lemma NotInSuffix(s: Bytes, t: Bytes, b: Byte)
    requires b !in s && |t| <= |s| && t == s[|s| - |t|..]
    ensures b !in t
  {
    assert forall i :: 0 <= i < |t| ==> t[i] == s[|s| - |t| + i];
  }

  lemma NotInPrefix(s: Bytes, t: Bytes, b: Byte)
    requires b !in s && |t| <= |s| && t == s[..|t|]
    ensures b !in t
  {
    assert forall i :: 0 <= i < |t| ==> t[i] == s[i];
  }

  lemma TrimStartUnique(s: Bytes, k: nat)
    requires k <= |s|
    requires forall i :: 0 <= i < k ==> IsSpace(s[i])
    requires k == |s| || !IsSpace(s[k])
    ensures TrimStart(s) == s[k..]
  {
    var r := TrimStart(s);
    var j := |s| - |r|;
    assert j < |s| ==> !IsSpace(s[j]) by {
      if j < |s| { assert s[j] == r[0]; }
    }
  }

  lemma TrimEndUnique(s: Bytes, k: nat)
    requires k <= |s|
    requires forall i :: k <= i < |s| ==> IsSpace(s[i])
    requires k == 0 || !IsSpace(s[k - 1])
    ensures TrimEnd(s) == s[..k]
  {
    var r := TrimEnd(s);
    var j := |r|;
    assert j > 0 ==> !IsSpace(s[j - 1]) by {
      if j > 0 { assert s[j - 1] == r[j - 1]; }
    }
  }

  /** Trimming the front of `a + b`, where `b` starts with a non-space,
      only touches `a`. */
  lemma {:induction false} TrimStartConcat(a: Bytes, b: Bytes)
    requires b != [] && !IsSpace(b[0])
    ensures TrimStart(a + b) == TrimStart(a) + b
    decreases |a|
  {
    if a == [] {
      assert a + b == b;
    } else if IsSpace(a[0]) {
      assert (a + b)[1..] == a[1..] + b;
      TrimStartConcat(a[1..], b);
    } else {
      assert (a + b)[0] == a[0];
    }
  }

  lemma {:induction false} TrimEndConcat(a: Bytes, b: Bytes)
    requires a != [] && !IsSpace(a[|a| - 1])
    ensures TrimEnd(a + b) == a + TrimEnd(b)
    decreases |b|
  {
    if b == [] {
      assert a + b == a;
    } else if IsSpace(b[|b| - 1]) {
      var s := a + b;
      assert s[..|s| - 1] == a + b[..|b| - 1];
      TrimEndConcat(a, b[..|b| - 1]);
    } else {
      var s := a + b;
      assert s[|s| - 1] == b[|b| - 1];
    }
  }

  /** Trailing whitespace, such as a line's CRLF, does not survive `trim_end`. */
  lemma TrimEndSpaces(a: Bytes, w: Bytes)
    requires AllSpace(w)
    ensures TrimEnd(a + w) == TrimEnd(a)
  {
    var s := a + w;
    var k := |TrimEnd(a)|;
    assert forall i :: k <= i < |s| ==> IsSpace(s[i]) by {
      forall i | k <= i < |s| ensures IsSpace(s[i]) {
        if i < |a| { assert s[i] == a[i]; } else { assert s[i] == w[i - |a|]; }
      }
    }
    assert k > 0 ==> !IsSpace(s[k - 1]) by {
      if k > 0 { assert s[k - 1] == TrimEnd(a)[k - 1]; }
    }
    TrimEndUnique(s, k);
    assert s[..k] == a[..k];
  }

  /** A non-space byte `c` splits the trim: whitespace is removed only at
      the front of what precedes it and at the back of what follows it. */
  lemma TrimAround(a: Bytes, c: Byte, b: Bytes)
    requires !IsSpace(c)
    ensures Trim(a + [c] + b) == TrimStart(a) + [c] + TrimEnd(b)
  {
    var tc := TrimStart(a) + [c];
    TrimStartBefore(a, c, b);
    TrimEndAfter(tc, b);
  }

  /** Helper: the front trim of `a + [c] + b` stops at `c`. */
  lemma TrimStartBefore(a: Bytes, c: Byte, b: Bytes)
    requires !IsSpace(c)
    ensures TrimStart(a + [c] + b) == (TrimStart(a) + [c]) + b
  {
    ConcatAssoc(a, [c], b);
    ConcatAssoc(TrimStart(a), [c], b);
    TrimStartConcat(a, [c] + b);
  }

  /** The slice of `s` at `p` that holds `a + b` holds `a`, then `b`. */
  lemma SliceParts<T>(s: seq<T>, p: nat, a: seq<T>, b: seq<T>)
    requires p + |a + b| <= |s| && s[p..p + |a + b|] == a + b
    ensures s[p..p + |a|] == a && s[p + |a|..p + |a| + |b|] == b
  {
    var all := s[p..p + |a + b|];
    assert s[p..p + |a|] == all[..|a|];
    assert s[p + |a|..p + |a| + |b|] == all[|a|..];
  }

  lemma DropConcat<T>(x: seq<T>, y: seq<T>, n: nat)
    requires n <= |x|
    ensures (x + y)[n..] == x[n..] + y
  {
  }

  lemma ConcatAssoc<T>(x: seq<T>, y: seq<T>, z: seq<T>)
    ensures x + y + z == x + (y + z)
  {
  }

  /** Helper: the back trim of `tc + b`, where `tc` ends in a non-space. */
  lemma TrimEndAfter(tc: Bytes, b: Bytes)
    requires tc != [] && !IsSpace(tc[|tc| - 1])
    ensures TrimEnd(tc + b) == tc + TrimEnd(b)
  {
    TrimEndConcat(tc, b);
  }

  lemma TrimOfTrimStart(a: Bytes)
    ensures Trim(TrimStart(a)) == Trim(a)
  {
    TrimStartUnique(TrimStart(a), 0);
  }

  /** `trim` keeps exactly the part between the leading and the trailing
      whitespace. */
  lemma TrimUnique(s: Bytes, i: nat, m: nat)
    requires i <= m <= |s|
    requires forall j :: 0 <= j < i ==> IsSpace(s[j])
    requires forall j :: m <= j < |s| ==> IsSpace(s[j])
    requires i < m ==> !IsSpace(s[i]) && !IsSpace(s[m - 1])
    ensures Trim(s) == s[i..m]
  {
    if i < m {
      TrimStartUnique(s, i);
      TrimEndOfSuffix(s, i, m);
    } else {
      TrimStartUnique(s, |s|);
    }
  }

  /** Helper: `trim_end` of the part of `s` from `i` on. */
  lemma TrimEndOfSuffix(s: Bytes, i: nat, m: nat)
    requires i < m <= |s|
    requires forall j :: m <= j < |s| ==> IsSpace(s[j])
    requires !IsSpace(s[m - 1])
    ensures TrimEnd(s[i..]) == s[i..m]
  {
    var t := s[i..];
    forall j | m - i <= j < |t| ensures IsSpace(t[j]) {
      assert t[j] == s[i + j];
    }
    assert t[m - i - 1] == s[m - 1];
    TrimEndUnique(t, m - i);
    assert t[..m - i] == s[i..m];
  }

  lemma TrimOfTrimEnd(b: Bytes)
    ensures Trim(TrimEnd(b)) == Trim(b)
  {
    var m := |TrimEnd(b)|;
    var i := |b| - |TrimStart(b)|;
    if m == 0 {
      TrimUnique(b, 0, 0);
    } else {
      TrimLeadBeforeEnd(b);
      TrimUnique(b, i, m);
      TrimOfPrefix(b, i, m);
    }
  }

  /** Helper: cutting the trailing whitespace off first does not change
      what `trim` keeps. */
  lemma TrimOfPrefix(b: Bytes, i: nat, m: nat)
    requires i < m <= |b|
    requires forall j :: 0 <= j < i ==> IsSpace(b[..m][j])
    requires !IsSpace(b[i]) && !IsSpace(b[m - 1])
    ensures Trim(b[..m]) == b[i..m]
  {
    TrimUnique(b[..m], i, m);
    assert b[..m][i..m] == b[i..m];
  }

  /** Helper: when `b` is not all whitespace, its leading whitespace ends
      before its trailing whitespace starts, and `b[..m]` has the same lead. */
  lemma TrimLeadBeforeEnd(b: Bytes)
    requires TrimEnd(b) != []
    ensures |b| - |TrimStart(b)| < |TrimEnd(b)|
    ensures !IsSpace(b[|b| - |TrimStart(b)|]) && !IsSpace(b[|TrimEnd(b)| - 1])
    ensures forall j :: 0 <= j < |b| - |TrimStart(b)| ==> IsSpace(b[..|TrimEnd(b)|][j])
  {
    var e, t := TrimEnd(b), TrimStart(b);
    var m, i := |e|, |b| - |t|;
    assert b[m - 1] == e[m - 1];
    assert i < m;
    assert b[i] == t[0];
  }

  /** Everything `trim` removes is whitespace: a string of whitespace trims
      to nothing. */
  lemma TrimAllSpace(s: Bytes)
    requires AllSpace(s)
    ensures Trim(s) == []
  {
    TrimStartUnique(s, |s|);
  }

  // ---------------------------------------------------------------------
  // `split_whitespace`: the maximal runs of non-whitespace bytes.

  /** Length of the run of non-whitespace bytes at the start of `s`. */
  function WordEnd(s: Bytes): (k: nat)
    ensures k <= |s|
    ensures forall i :: 0 <= i < k ==> !IsSpace(s[i])
    ensures k < |s| ==> IsSpace(s[k])
    decreases |s|
  {
    if s == [] || IsSpace(s[0]) then 0 else 1 + WordEnd(s[1..])
  }

  function Words(s: Bytes): (ws: seq<Bytes>)
    ensures forall w :: w in ws ==> w != [] && NoSpace(w)
    decreases |s|
  {
    if s == [] then
      []
    else if IsSpace(s[0]) then
      Words(s[1..])
    else
      var k := WordEnd(s);
      assert NoSpace(s[..k]) by {
        forall i | 0 <= i < k ensures !IsSpace(s[..k][i]) { }
      }
      [s[..k]] + Words(s[k..])
  }

  /** Leading whitespace produces no word. */
  lemma {:induction false} WordsSkip(w: Bytes, rest: Bytes)
    requires AllSpace(w)
    ensures Words(w + rest) == Words(rest)
    decreases |w|
  {
    if w != [] {
      assert (w + rest)[1..] == w[1..] + rest;
      WordsSkip(w[1..], rest);
    } else {
      assert w + rest == rest;
    }
  }

  /** A word followed by whitespace (or by nothing) comes out whole. */
  lemma WordsCons(w: Bytes, rest: Bytes)
    requires w != [] && NoSpace(w)
    requires rest == [] || IsSpace(rest[0])
    ensures Words(w + rest) == [w] + Words(rest)
  {
    var s := w + rest;
    assert forall i :: 0 <= i < |w| ==> !IsSpace(s[i]) by {
      forall i | 0 <= i < |w| ensures !IsSpace(s[i]) { assert s[i] == w[i]; }
    }
    assert |w| < |s| ==> IsSpace(s[|w|]) by {
      if |w| < |s| { assert s[|w|] == rest[0]; }
    }
    assert WordEnd(s) == |w|;
    assert s[..|w|] == w && s[|w|..] == rest;
  }

  /** `split_whitespace` undoes joining non-empty, whitespace-free words with
      single spaces, and stops at whitespace that follows them. */
  lemma {:induction false} WordsOfJoin(ws: seq<Bytes>, tail: Bytes)
    requires |ws| >= 1
    requires forall i :: 0 <= i < |ws| ==> ws[i] != [] && NoSpace(ws[i])
    requires tail == [] || IsSpace(tail[0])
    ensures Words(Join(ws, SP) + tail) == ws + Words(tail)
    decreases |ws|
  {
    if |ws| == 1 {
      WordsCons(ws[0], tail);
    } else {
      var j := Join(ws[1..], SP);
      var rest := j + tail;
      WordsOfJoin(ws[1..], tail);
      WordsSkip([SP], rest);
      WordsCons(ws[0], [SP] + rest);
      ConcatAssoc(ws[0] + [SP], j, tail);
      ConcatAssoc(ws[0], [SP], rest);
      ConcatAssoc([ws[0]], ws[1..], Words(tail));
      assert [ws[0]] + ws[1..] == ws;
    }
  }

  /** ASCII text without spaces or control characters. */
  lemma AsciiWord(s: string)
    requires forall i :: 0 <= i < |s| ==> '!' <= s[i] <= '~'
    ensures NoSpace(Ascii(s))
    ensures forall i :: 0 <= i < |s| ==> Ascii(s)[i] < 0x80
  {
  }
}
