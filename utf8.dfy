/** Well-formed UTF-8, as section 4 of RFC 3629 defines it. Rust's
    `read_line` and `String::from_utf8` accept exactly these byte sequences;
    the decoder is the partner that shows the predicate accepts precisely
    the encodings of Unicode scalar values. */
module Utf8 {
  import opened Text

  predicate IsTail(b: Byte) {
    0x80 <= b <= 0xBF
  }

  /** The bytes C0, C1 and F5 to FF, which section 1 of RFC 3629 says
      never appear in UTF-8. */
  predicate Forbidden(b: Byte) {
    b == 0xC0 || b == 0xC1 || b >= 0xF5
  }

  /** The length of the well-formed sequence (UTF8-1 to UTF8-4 of RFC 3629)
      that `s` starts with, or 0 when `s` does not start with one. */
  function SequenceLength(s: Bytes): (n: nat)
    ensures n <= |s| && n <= 4
    ensures n == 1 <==> s != [] && s[0] < 0x80
    ensures forall i :: 0 <= i < n ==> !Forbidden(s[i])
  {
    if s == [] then 0
    else if s[0] < 0x80 then 1
    else if |s| >= 2 && 0xC2 <= s[0] <= 0xDF && IsTail(s[1]) then 2
    else if |s| >= 3 && IsTail(s[2]) &&
            ((s[0] == 0xE0 && 0xA0 <= s[1] <= 0xBF) ||
             ((0xE1 <= s[0] <= 0xEC || 0xEE <= s[0] <= 0xEF) && IsTail(s[1])) ||
             (s[0] == 0xED && 0x80 <= s[1] <= 0x9F)) then 3
    else if |s| >= 4 && IsTail(s[2]) && IsTail(s[3]) &&
            ((s[0] == 0xF0 && 0x90 <= s[1] <= 0xBF) ||
             (0xF1 <= s[0] <= 0xF3 && IsTail(s[1])) ||
             (s[0] == 0xF4 && 0x80 <= s[1] <= 0x8F)) then 4
    else 0
  }

  /** `s` is a concatenation of well-formed sequences. */
  predicate Valid(s: Bytes)
    ensures Valid(s) ==> forall i :: 0 <= i < |s| ==> !Forbidden(s[i])
    ensures (forall i :: 0 <= i < |s| ==> s[i] < 0x80) ==> Valid(s)
    decreases |s|
  {
    s == [] || (SequenceLength(s) > 0 && Valid(s[SequenceLength(s)..]))
  }

  // ---------------------------------------------------------------------
  // Encoding and decoding of scalar values (Dafny's `char`).

  function EncodeScalar(c: char): (b: Bytes)
    ensures 1 <= |b| <= 4
  {
    var v := c as int;
    if v < 0x80 then
      [v as Byte]
    else if v < 0x800 then
      [(0xC0 + v / 64) as Byte, (0x80 + v % 64) as Byte]
    else if v < 0x10000 then
      [(0xE0 + v / 64 / 64) as Byte, (0x80 + v / 64 % 64) as Byte, (0x80 + v % 64) as Byte]
    else
      [(0xF0 + v / 64 / 64 / 64) as Byte, (0x80 + v / 64 / 64 % 64) as Byte,
       (0x80 + v / 64 % 64) as Byte, (0x80 + v % 64) as Byte]
  }

  function Encode(s: string): Bytes
    decreases |s|
  {
    if s == "" then [] else EncodeScalar(s[0]) + Encode(s[1..])
  }

  /** The value carried by a well-formed sequence: the lead byte's payload
      followed by six bits from each continuation byte. */
  function SequenceValue(s: Bytes): int
    requires SequenceLength(s) > 0
  {
    var n := SequenceLength(s);
    if n == 1 then s[0] as int
    else if n == 2 then Shift(s[0] as int - 0xC0, s[1])
    else if n == 3 then Shift(Shift(s[0] as int - 0xE0, s[1]), s[2])
    else Shift(Shift(Shift(s[0] as int - 0xF0, s[1]), s[2]), s[3])
  }

  /** Appends the six payload bits of a continuation byte. */
  function Shift(acc: int, tail: Byte): int {
    acc * 64 + (tail as int - 0x80)
  }

  lemma SequenceValueRange(s: Bytes)
    requires SequenceLength(s) > 0
    ensures var v := SequenceValue(s);
      0 <= v < 0xD800 || 0xE000 <= v < 0x110000
  {
  }

  function DecodeScalar(s: Bytes): char
    requires SequenceLength(s) > 0
  {
    SequenceValueRange(s);
    SequenceValue(s) as char
  }

  function Decode(s: Bytes): string
    requires Valid(s)
    decreases |s|
  {
    if s == [] then "" else [DecodeScalar(s)] + Decode(s[SequenceLength(s)..])
  }

  /** Helper: base-64 digits. */
  lemma Radix(q: int, r: int)
    requires q >= 0 && 0 <= r < 64
    ensures (q * 64 + r) / 64 == q && (q * 64 + r) % 64 == r
  {
  }

  lemma Digits(v: int)
    requires v >= 0
    ensures v == v / 64 * 64 + v % 64 && 0 <= v % 64 < 64 && v / 64 >= 0
  {
  }

  /** The encoding of one scalar value is one well-formed sequence, whatever
      follows it, and it decodes to that value. */
  lemma ScalarRoundTrip(c: char, rest: Bytes)
    ensures SequenceLength(EncodeScalar(c) + rest) == |EncodeScalar(c)|
    ensures DecodeScalar(EncodeScalar(c) + rest) == c
  {
    var v := c as int;
    var s := EncodeScalar(c) + rest;
    Digits(v);
    Digits(v / 64);
    Digits(v / 64 / 64);
    if v < 0x80 {
    } else if v < 0x800 {
      assert s[0] as int == 0xC0 + v / 64 && s[1] as int == 0x80 + v % 64;
    } else if v < 0x10000 {
      assert s[0] as int == 0xE0 + v / 64 / 64;
      assert s[1] as int == 0x80 + v / 64 % 64;
      assert s[2] as int == 0x80 + v % 64;
    } else {
      assert s[0] as int == 0xF0 + v / 64 / 64 / 64;
      assert s[1] as int == 0x80 + v / 64 / 64 % 64;
      assert s[2] as int == 0x80 + v / 64 % 64;
      assert s[3] as int == 0x80 + v % 64;
    }
  }

  /** Every sequence the predicate accepts re-encodes from its decoding. */
  lemma DecodeScalarRoundTrip(s: Bytes)
    requires SequenceLength(s) > 0
    ensures EncodeScalar(DecodeScalar(s)) == s[..SequenceLength(s)]
  {
    var n := SequenceLength(s);
    if n == 2 {
      TwoByteRoundTrip(s);
    } else if n == 3 {
      ThreeByteRoundTrip(s);
    } else if n == 4 {
      FourByteRoundTrip(s);
    }
  }

  lemma TwoByteRoundTrip(s: Bytes)
    requires SequenceLength(s) == 2
    ensures EncodeScalar(DecodeScalar(s)) == s[..2]
  {
    Radix(s[0] as int - 0xC0, s[1] as int - 0x80);
  }

  lemma ThreeByteRoundTrip(s: Bytes)
    requires SequenceLength(s) == 3
    ensures EncodeScalar(DecodeScalar(s)) == s[..3]
  {
    var a := Shift(s[0] as int - 0xE0, s[1]);
    Radix(s[0] as int - 0xE0, s[1] as int - 0x80);
    Radix(a, s[2] as int - 0x80);
  }

  lemma FourByteRoundTrip(s: Bytes)
    requires SequenceLength(s) == 4
    ensures EncodeScalar(DecodeScalar(s)) == s[..4]
  {
    var a := Shift(s[0] as int - 0xF0, s[1]);
    var b := Shift(a, s[2]);
    Radix(s[0] as int - 0xF0, s[1] as int - 0x80);
    Radix(a, s[2] as int - 0x80);
    Radix(b, s[3] as int - 0x80);
  }

  /** Every string encodes to valid UTF-8, and decoding gives it back. */
  lemma {:induction false} EncodeValid(s: string)
    ensures Valid(Encode(s)) && Decode(Encode(s)) == s
    decreases |s|
  {
    if s != "" {
      EncodeValid(s[1..]);
      var e := Encode(s);
      ScalarRoundTrip(s[0], Encode(s[1..]));
      assert e[|EncodeScalar(s[0])|..] == Encode(s[1..]);
    }
  }

  /** Every valid sequence is the encoding of its decoding: together with
      EncodeValid, `Valid(s)` holds exactly when `s` encodes some string. */
  lemma {:induction false} DecodeValid(s: Bytes)
    requires Valid(s)
    ensures Encode(Decode(s)) == s
    decreases |s|
  {
    if s != [] {
      var n := SequenceLength(s);
      var c, d := DecodeScalar(s), Decode(s[n..]);
      DecodeValid(s[n..]);
      DecodeScalarRoundTrip(s);
      DecodeCons(s);
      EncodeCons(c, d);
      SplitAt(s, n);
    }
  }

  lemma DecodeCons(s: Bytes)
    requires Valid(s) && s != []
    ensures Decode(s) == [DecodeScalar(s)] + Decode(s[SequenceLength(s)..])
  {
  }

  lemma SplitAt(s: Bytes, n: nat)
    requires n <= |s|
    ensures s[..n] + s[n..] == s
  {
  }

  lemma EncodeCons(c: char, d: string)
    ensures Encode([c] + d) == EncodeScalar(c) + Encode(d)
  {
    assert ([c] + d)[0] == c && ([c] + d)[1..] == d;
  }

  // ---------------------------------------------------------------------
  // Facts the decoder's proofs use.

  /** A well-formed sequence is recognised no matter what follows it. */
  lemma SequenceLengthPrefix(a: Bytes, b: Bytes)
    requires SequenceLength(a) > 0
    ensures SequenceLength(a + b) == SequenceLength(a)
  {
    var s := a + b;
    assert s[0] == a[0];
    assert |a| >= 2 ==> s[1] == a[1];
    assert |a| >= 3 ==> s[2] == a[2];
    assert |a| >= 4 ==> s[3] == a[3];
  }

  lemma {:induction false} ValidConcat(a: Bytes, b: Bytes)
    requires Valid(a) && Valid(b)
    ensures Valid(a + b)
    decreases |a|
  {
    if a == [] {
      assert a + b == b;
    } else {
      var n := SequenceLength(a);
      var s := a + b;
      assert SequenceLength(s) == n > 0 by { SequenceLengthPrefix(a, b); }
      ValidConcat(a[n..], b);
      DropConcat(a, b, n);
    }
  }

  /** ASCII text is valid UTF-8. */
  lemma {:induction false} AsciiValid(s: Bytes)
    requires forall i :: 0 <= i < |s| ==> s[i] < 0x80
    ensures Valid(s)
    decreases |s|
  {
    if s != [] {
      AsciiValid(s[1..]);
    }
  }
}
