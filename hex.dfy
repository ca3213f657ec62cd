/**
 * Hexadecimal and decimal text as the converter reads and writes it:
 * strict parsing of a run of hex digits (the model of `int(s, 16)`) and
 * zero-padded upper-case formatting (the model of `"{:0NX}".format(n)`).
 */
module Hex {
  import opened Wrappers

  /** One byte of a record or of an output file. */
  type byte = b: nat | b < 256

  predicate IsHexDigit(c: char) {
    ('0' <= c <= '9') || ('a' <= c <= 'f') || ('A' <= c <= 'F')
  }

  predicate AllHex(s: string) {
    forall i :: 0 <= i < |s| ==> IsHexDigit(s[i])
  }

  function DigitValue(c: char): (v: nat)
    requires IsHexDigit(c)
    ensures v < 16
  {
    if '0' <= c <= '9' then c as nat - '0' as nat
    else if 'a' <= c <= 'f' then c as nat - 'a' as nat + 10
    else c as nat - 'A' as nat + 10
  }

  /** The upper-case digit for a value below 16. */
  function DigitChar(v: nat): (c: char)
    requires v < 16
    ensures IsHexDigit(c) && DigitValue(c) == v
    ensures !('a' <= c <= 'f')
  {
    if v < 10 then ('0' as nat + v) as char else ('A' as nat + v - 10) as char
  }

  function Pow16(n: nat): (p: nat)
    ensures p >= 1
  {
    if n == 0 then 1 else 16 * Pow16(n - 1)
  }

  /** The value of a run of hex digits, most significant digit first. */
  function Value(s: string): (v: nat)
    requires AllHex(s)
    ensures v < Pow16(|s|)
  {
    if s == [] then 0 else Value(s[..|s| - 1]) * 16 + DigitValue(s[|s| - 1])
  }

  /** Strict `int(s, 16)`: a non-empty run of hex digits and nothing else. */
  function Parse(s: string): (r: Option<nat>)
    ensures r.Some? ==> r.value < Pow16(|s|)
  {
    if |s| > 0 && AllHex(s) then Some(Value(s)) else None
  }

  /**
   * `"{:0<width>X}".format(n)`: upper-case digits, zero-padded on the left to
   * `width`; a number that needs more digits keeps all of them.
   */
  function Format(n: nat, width: nat): (s: string)
    ensures |s| >= 1 && |s| >= width && AllHex(s)
    ensures forall i :: 0 <= i < |s| ==> !('a' <= s[i] <= 'f')
    ensures |s| > 1 && |s| > width ==> s[0] != '0'
    decreases n, width
  {
    if n < 16 && width <= 1 then [DigitChar(n)]
    else
      var w := if width > 0 then width - 1 else 0;
      var init := Format(n / 16, w);
      var s := init + [DigitChar(n % 16)];
      assert forall i :: 0 <= i < |init| ==> s[i] == init[i];
      if |s| > width && |init| == 1 then
        // the padding is used up, so the digits above the last one are not 0
        assert n / 16 < 16 && w <= 1 && n / 16 != 0;
        s
      else
        s
  }

  predicate IsDecimalDigit(c: char) {
    '0' <= c <= '9'
  }

  predicate AllDecimal(s: string) {
    forall i :: 0 <= i < |s| ==> IsDecimalDigit(s[i])
  }

  /** The value of a run of decimal digits, most significant digit first. */
  function DecimalValue(s: string): nat
    requires AllDecimal(s)
  {
    if s == [] then 0 else DecimalValue(s[..|s| - 1]) * 10 + (s[|s| - 1] as nat - '0' as nat)
  }

  /** `"{}".format(n)` for a natural number: its decimal digits, which denote `n`. */
  function Decimal(n: nat): (s: string)
    ensures 1 <= |s| && AllDecimal(s) && DecimalValue(s) == n
    ensures |s| > 1 ==> s[0] != '0'
    decreases n
  {
    var last := [('0' as nat + n % 10) as char];
    if n < 10 then last
    else
      var init := Decimal(n / 10);
      var s := init + last;
      assert s[..|s| - 1] == init;
      s
  }

  lemma Pow16Monotone(a: nat, b: nat)
    requires a <= b
    ensures Pow16(a) <= Pow16(b)
    decreases b
  {
    if a < b { Pow16Monotone(a, b - 1); }
  }

  /** The value of a concatenation: the digits of `b` are the low-order ones. */
  lemma {:induction false} ValueAppend(a: string, b: string)
    requires AllHex(a) && AllHex(b)
    ensures AllHex(a + b) && Value(a + b) == Value(a) * Pow16(|b|) + Value(b)
    decreases |b|
  {
    if b == [] {
      assert a + b == a;
    } else {
      var b' := b[..|b| - 1];
      assert (a + b)[..|a + b| - 1] == a + b';
      ValueAppend(a, b');
      Regroup(Value(a), Pow16(|b'|), Value(b'), DigitValue(b[|b| - 1]));
    }
  }

  /** Two bytes written as two-digit fields read back as one 16-bit value, high byte first. */
  lemma ParseTwoBytes(x: byte, y: byte)
    ensures Parse(Format(x, 2) + Format(y, 2)) == Some(x as int * 256 + y as int)
  {
    assert Pow16(2) == 256;
    FormatLength(x, 2);
    FormatLength(y, 2);
    ParseFormat(x, 2);
    ParseFormat(y, 2);
    ValueAppend(Format(x, 2), Format(y, 2));
  }

  lemma Regroup(x: nat, p: nat, y: nat, d: nat)
    ensures (x * p + y) * 16 + d == x * (16 * p) + (y * 16 + d)
  {
  }

  /** Reading back a formatted number gives the number: `int("{:0wX}".format(n), 16) == n`. */
  lemma {:induction false} ParseFormat(n: nat, width: nat)
    ensures Parse(Format(n, width)) == Some(n)
    decreases n, width
  {
    if !(n < 16 && width <= 1) {
      var w' := if width > 0 then width - 1 else 0;
      var init, s := Format(n / 16, w'), Format(n, width);
      ParseFormat(n / 16, w');
      assert s[..|s| - 1] == init && s[|s| - 1] == DigitChar(n % 16);
      assert Value(s) == Value(init) * 16 + n % 16;
    }
  }

  /** A number below 16^width is formatted in exactly `width` digits. */
  lemma {:induction false} FormatLength(n: nat, width: nat)
    requires 1 <= width && n < Pow16(width)
    ensures |Format(n, width)| == width
    decreases n, width
  {
    if !(n < 16 && width <= 1) {
      assert width > 1;
      FormatLength(n / 16, width - 1);
    }
  }
}
