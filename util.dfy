/**
 * The helpers of smart_open/util.py: the whence constants, clamping of a seek
 * target, and the `bytes=start-[stop]` byte-range specifier of an HTTP Range
 * header (section 14.35 of RFC 2616, section 2.1 of RFC 7233), together with a
 * parser for that specifier so that the formatter can be checked by a round trip.
 */
module Util {
  import opened Wrappers

  /** Chunk size for streamed reads (128 KiB); the model treats chunk boundaries as arbitrary. */
  const DEFAULT_BUFFER_SIZE: nat := 128 * 1024

  /** The `whence` values of a seek: from the start, from the current position, from the end. */
  const START: int := 0
  const CURRENT: int := 1
  const END: int := 2
  const WHENCE_CHOICES: seq<int> := [START, CURRENT, END]

  function Min(a: int, b: int): int { if a <= b then a else b }
  function Max(a: int, b: int): int { if a >= b then a else b }

  /** `max(min(value, maxval), minval)`: pulls `value` into `[minval, maxval]`. */
  function Clamp(value: int, minval: int, maxval: int): (r: int)
    ensures minval <= maxval ==> minval <= r <= maxval
    ensures minval <= value <= maxval ==> r == value
    ensures value < minval ==> r == minval
    ensures minval <= maxval < value ==> r == maxval
    ensures maxval < minval ==> r == minval
  {
    Max(Min(value, maxval), minval)
  }

  /** Clamping a value that was already clamped changes nothing. */
  lemma ClampIdempotent(value: int, minval: int, maxval: int)
    ensures Clamp(Clamp(value, minval, maxval), minval, maxval) == Clamp(value, minval, maxval)
  {
  }

  // ---------------------------------------------------------------------------
  // Decimal numerals, as Python's '%d' writes them.

  predicate IsDigit(c: char) {
    '0' <= c <= '9'
  }

  predicate AllDigits(s: string) {
    forall i :: 0 <= i < |s| ==> IsDigit(s[i])
  }

  /** A numeral without superfluous leading zeros. */
  predicate Canonical(s: string) {
    |s| >= 1 && AllDigits(s) && (s[0] == '0' ==> |s| == 1)
  }

  function DigitChar(d: nat): (c: char)
    requires d < 10
    ensures IsDigit(c)
  {
    (48 + d) as char
  }

  function DigitValue(c: char): (d: nat)
    requires IsDigit(c)
    ensures d < 10 && DigitChar(d) == c
  {
    c as int - 48
  }

  /** The decimal numeral of `n`: the digits of `n / 10`, then the last digit. */
  function NatToDecimal(n: nat): (s: string)
    ensures Canonical(s)
    ensures s[0] == '0' <==> n == 0
    decreases n
  {
    if n < 10 then [DigitChar(n)] else NatToDecimal(n / 10) + [DigitChar(n % 10)]
  }

  /** Python's '%d' of an integer: a minus sign for negative values, then the digits. */
  function IntToDecimal(n: int): (s: string)
    ensures |s| >= 1 && IsDigit(s[|s| - 1])
    ensures s[0] == '-' <==> n < 0
    ensures n >= 0 ==> Canonical(s)
  {
    if n < 0 then "-" + NatToDecimal(-n) else NatToDecimal(n)
  }

  /** The value of a string of digits, most significant digit first. */
  function DigitsValue(s: string): nat
    requires AllDigits(s)
  {
    if s == [] then 0 else DigitsValue(s[..|s| - 1]) * 10 + DigitValue(s[|s| - 1])
  }

  /** Reads a non-empty run of decimal digits; anything else is rejected. */
  function ParseNat(s: string): (r: Option<nat>)
    ensures r.Some? <==> |s| >= 1 && AllDigits(s)
  {
    if |s| >= 1 && AllDigits(s) then Some(DigitsValue(s)) else None
  }

  /** Reading back the numeral of `n` gives `n`. */
  lemma {:induction false} DecimalRoundTrip(n: nat)
    ensures DigitsValue(NatToDecimal(n)) == n
    decreases n
  {
    var s := NatToDecimal(n);
    if n < 10 {
      assert s[..0] == [];
    } else {
      var prefix := NatToDecimal(n / 10);
      assert s[..|s| - 1] == prefix;
      DecimalRoundTrip(n / 10);
    }
  }

  /** A numeral whose leading digit is not zero denotes a positive number. */
  lemma {:induction false} LeadingDigitPositive(s: string)
    requires |s| >= 1 && AllDigits(s) && s[0] != '0'
    ensures DigitsValue(s) > 0
    decreases |s|
  {
    if |s| == 1 {
      assert s[..0] == [];
      assert DigitValue(s[0]) != 0;
    } else {
      LeadingDigitPositive(s[..|s| - 1]);
    }
  }

  /** Every canonical numeral is the one '%d' writes for its value. */
  lemma {:induction false} CanonicalDecimal(s: string)
    requires Canonical(s)
    ensures NatToDecimal(DigitsValue(s)) == s
    decreases |s|
  {
    var prefix := s[..|s| - 1];
    var d := DigitValue(s[|s| - 1]);
    if |s| == 1 {
      assert prefix == [];
      assert [DigitChar(d)] == s;
    } else {
      assert Canonical(prefix);
      LeadingDigitPositive(prefix);
      CanonicalDecimal(prefix);
      var n := DigitsValue(s);
      assert n == DigitsValue(prefix) * 10 + d;
      assert n / 10 == DigitsValue(prefix) && n % 10 == d;
      assert s == prefix + [s[|s| - 1]];
    }
  }

  // ---------------------------------------------------------------------------
  // The byte-range specifier.

  /** `bytes=first-` or `bytes=first-last`: a range of byte positions, inclusive. */
  datatype ByteRange = ByteRange(first: int, last: Option<int>)

  /** `_range_string(start, stop=None)`: the Range header value for `start`, open-ended when `stop` is None. */
  function RangeString(start: int, stop: Option<int>): (r: string)
    ensures |r| > 7 && r[..6] == "bytes="
    ensures stop.None? <==> r[|r| - 1] == '-'
  {
    match stop
    case None => "bytes=" + IntToDecimal(start) + "-"
    case Some(last) => "bytes=" + IntToDecimal(start) + "-" + IntToDecimal(last)
  }

  /** The index of the first '-' in `s`, or `|s|` when there is none. */
  function FindDash(s: string): (i: nat)
    ensures i <= |s|
    ensures i < |s| ==> s[i] == '-'
    ensures forall j :: 0 <= j < i ==> s[j] != '-'
  {
    if s == [] then 0 else if s[0] == '-' then 0 else 1 + FindDash(s[1..])
  }

  /**
   * Reads a single byte-range specifier `bytes=<digits>-[<digits>]` (the
   * byte-range-spec of section 2.1 of RFC 7233 for one range); None for
   * anything else.
   */
  function ParseRangeSpec(s: string): (r: Option<ByteRange>)
    ensures r.Some? ==> |s| >= 6 && s[..6] == "bytes="
    ensures r.Some? ==> r.value.first >= 0 && (r.value.last.Some? ==> r.value.last.value >= 0)
  {
    if |s| < 6 || s[..6] != "bytes=" then None
    else
      var spec := s[6..];
      var dash := FindDash(spec);
      if dash == |spec| || ParseNat(spec[..dash]).None? then None
      else if dash + 1 == |spec| then Some(ByteRange(ParseNat(spec[..dash]).value, None))
      else if ParseNat(spec[dash + 1..]).None? then None
      else Some(ByteRange(ParseNat(spec[..dash]).value, Some(ParseNat(spec[dash + 1..]).value)))
  }

  /** A run of digits followed by '-' has its first dash right after the digits. */
  lemma DashAfterDigits(digits: string, rest: string)
    requires AllDigits(digits)
    ensures FindDash(digits + "-" + rest) == |digits|
  {
    var s := digits + "-" + rest;
    assert s[|digits|] == '-';
  }

  /** What the parser makes of `bytes=` followed by the numeral of `start`, a dash and `tail`. */
  lemma ParseFormatted(start: nat, tail: string)
    ensures var spec := NatToDecimal(start) + "-" + tail;
      ParseRangeSpec("bytes=" + spec)
        == if tail == [] then Some(ByteRange(start, None))
           else if ParseNat(tail).None? then None
           else Some(ByteRange(start, Some(ParseNat(tail).value)))
  {
    var first := NatToDecimal(start);
    var spec := first + "-" + tail;
    var s := "bytes=" + spec;
    assert s[..6] == "bytes=" && s[6..] == spec;
    DashAfterDigits(first, tail);
    assert spec[..|first|] == first;
    assert spec[|first| + 1..] == tail;
    DecimalRoundTrip(start);
    assert ParseNat(first) == Some(start);
  }

  /** For non-negative positions, parsing the formatted specifier recovers them. */
  lemma RangeStringRoundTrip(start: int, stop: Option<int>)
    requires start >= 0 && (stop.Some? ==> stop.value >= 0)
    ensures ParseRangeSpec(RangeString(start, stop)) == Some(ByteRange(start, stop))
  {
    match stop
    case None =>
      assert RangeString(start, stop) == "bytes=" + (NatToDecimal(start) + "-" + "");
      ParseFormatted(start, "");
    case Some(last) =>
      var tail := NatToDecimal(last);
      assert RangeString(start, stop) == "bytes=" + (NatToDecimal(start) + "-" + tail);
      ParseFormatted(start, tail);
      DecimalRoundTrip(last);
  }
}
