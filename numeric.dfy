/** `str::parse::<usize>()`, which the decoder applies to the first
    `content-length` value, and its partner, the shortest decimal numeral. */
module Numeric {
  import opened Text
  import opened Optional

  /** `usize::MAX` on a 64-bit target. */
  const USIZE_MAX: nat := 0xFFFF_FFFF_FFFF_FFFF

  const PLUS: Byte := 0x2B
  const ZERO: Byte := 0x30

  predicate IsDigit(b: Byte) {
    ZERO <= b <= 0x39
  }

  predicate AllDigits(s: Bytes) {
    forall i :: 0 <= i < |s| ==> IsDigit(s[i])
  }

  /** The value of a numeral, most significant digit first. */
  function DigitsValue(s: Bytes): nat
    requires AllDigits(s)
    decreases |s|
  {
    if s == [] then 0 else DigitsValue(s[..|s| - 1]) * 10 + (s[|s| - 1] - ZERO) as int
  }

  /** The part of `s` after a leading `+`, if there is one. */
  function Magnitude(s: Bytes): Bytes {
    if s != [] && s[0] == PLUS then s[1..] else s
  }

  /** `usize::from_str`: an optional `+`, then one or more ASCII digits whose
      value does not overflow `usize`. Anything else is an error. */
  function ParseUsize(s: Bytes): (r: Option<nat>)
    ensures r.Some? ==> r.value <= USIZE_MAX
    ensures r.Some? ==> s != [] && AllDigits(Magnitude(s)) && r.value == DigitsValue(Magnitude(s))
  {
    var digits := Magnitude(s);
    if digits == [] || !AllDigits(digits) then None
    else if DigitsValue(digits) > USIZE_MAX then None
    else Some(DigitsValue(digits))
  }

  /** The shortest decimal numeral of `n`. */
  function Decimal(n: nat): (s: Bytes)
    ensures s != [] && AllDigits(s)
    decreases n
  {
    var d := (ZERO as int + n % 10) as Byte;
    if n < 10 then [d] else Decimal(n / 10) + [d]
  }

  lemma {:induction false} DecimalValue(n: nat)
    ensures DigitsValue(Decimal(n)) == n
    decreases n
  {
    if n >= 10 {
      DecimalValue(n / 10);
      var s := Decimal(n);
      assert s[..|s| - 1] == Decimal(n / 10);
    }
  }

  /** Parsing a decimal numeral gives its value back, with or without a
      leading `+`, as long as it fits in a `usize`; past that it overflows. */
  lemma ParseDecimal(n: nat)
    ensures ParseUsize(Decimal(n)) == if n <= USIZE_MAX then Some(n) else None
    ensures ParseUsize([PLUS] + Decimal(n)) == ParseUsize(Decimal(n))
  {
    DecimalValue(n);
    assert ([PLUS] + Decimal(n))[1..] == Decimal(n);
  }

  /** A length parses exactly when it is one or more ASCII digits, with or
      without one leading `+`, whose value fits in a `usize`: `"007"` is 7,
      while `""`, `"+"`, `"-7"`, `" 7"`, `"7 "` and `"x7"` are errors. */
  lemma {:induction false} ParseUsizeExactly(s: Bytes)
    ensures ParseUsize(s).Some? <==>
      exists d :: d != [] && AllDigits(d) && (s == d || s == [PLUS] + d) && DigitsValue(d) <= USIZE_MAX
  {
    if ParseUsize(s).Some? {
      var d := Magnitude(s);
      assert s == d || s == [PLUS] + d;
    }
    forall d | d != [] && AllDigits(d) && (s == d || s == [PLUS] + d) && DigitsValue(d) <= USIZE_MAX
      ensures ParseUsize(s).Some?
    {
      if s == [PLUS] + d {
        assert Magnitude(s) == d;
      } else {
        assert IsDigit(d[0]);
        assert Magnitude(s) == d;
      }
    }
  }
}
