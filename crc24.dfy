/**
 * The converter's own CRC-24 (`crc24` and `calc_crc24`): bytes are taken in
 * little-endian pairs as 16-bit words, each word is folded in by
 * `crc = (crc << 1) ^ word`, and when bit 24 of that value is set it is XORed
 * with the polynomial 0x80001B. An odd-length buffer is padded with one zero
 * byte. The running value is an unbounded integer; only bits 0..23 of the
 * final value are kept.
 */
module Crc24 {
  import opened Hex

  /** `2^24`: one more than the largest CRC value. */
  const Modulus := 0x100_0000

  /** A CRC value as `calc_crc24` returns it: bits 0..23 only. */
  type Crc = c: nat | c < 0x100_0000

  const Poly := 0x80_001B

  /** Bitwise exclusive or of two non-negative integers (Python's `^`). */
  function Xor(a: nat, b: nat): nat
    decreases a + b
  {
    if a == 0 then b
    else if b == 0 then a
    else 2 * Xor(a / 2, b / 2) + (if a % 2 == b % 2 then 0 else 1)
  }

  function Pow2(k: nat): (p: nat)
    ensures p >= 1
  {
    if k == 0 then 1 else 2 * Pow2(k - 1)
  }

  /** `crc24`: one step on the unbounded running value, as Python computes it. */
  function Step(crc: nat, first: byte, second: byte): nat {
    var result := Xor(crc * 2, second * 0x100 + first);
    if result / Modulus % 2 == 1 then Xor(result, Poly) else result
  }

  /** Folding the steps over an even-length buffer, pair by pair. */
  function Fold(crc: nat, data: seq<byte>): nat
    requires |data| % 2 == 0
    decreases |data|
  {
    if data == [] then crc else Fold(Step(crc, data[0], data[1]), data[2..])
  }

  /** The buffer `calc_crc24` folds: its copy of `base`, with a zero appended when the length is odd. */
  function Padded(base: seq<byte>): (data: seq<byte>)
    ensures |data| % 2 == 0
  {
    if |base| % 2 == 1 then base + [0] else base
  }

  /** `calc_crc24(crc, base)`: the fold, masked to 24 bits at the end. */
  function Calc(crc: nat, base: seq<byte>): Crc {
    Fold(crc, Padded(base)) % Modulus
  }

  /** Folding a concatenation is folding its parts in turn. */
  lemma {:induction false} FoldAppend(crc: nat, a: seq<byte>, b: seq<byte>)
    requires |a| % 2 == 0 && |b| % 2 == 0
    ensures Fold(Fold(crc, a), b) == Fold(crc, a + b)
    decreases |a|
  {
    if a != [] {
      assert (a + b)[2..] == a[2..] + b;
      FoldAppend(Step(crc, a[0], a[1]), a[2..], b);
    } else {
      assert a + b == b;
    }
  }

  lemma XorZero(a: nat)
    ensures Xor(a, 0) == a && Xor(0, a) == a
  {
  }

  /** Two values below 2^k have their exclusive or below 2^k. */
  lemma {:induction false} XorBound(x: nat, y: nat, k: nat)
    requires x < Pow2(k) && y < Pow2(k)
    ensures Xor(x, y) < Pow2(k)
    decreases k
  {
    if x != 0 && y != 0 {
      XorBound(x / 2, y / 2, k - 1);
    }
  }

  /** Bits at and above k pass through an exclusive or with a value below 2^k. */
  lemma XorHigh(h: nat, x: nat, y: nat, k: nat)
    requires x < Pow2(k) && y < Pow2(k)
    ensures Xor(h * Pow2(k) + x, y) == h * Pow2(k) + Xor(x, y)
  {
    MultipleAligned(h, k);
    XorAligned(h * Pow2(k), x, y, k);
  }

  /** Bits 0..k-1 of `n` are zero. */
  predicate Aligned(n: nat, k: nat) {
    k == 0 || (n % 2 == 0 && Aligned(n / 2, k - 1))
  }

  lemma {:induction false} MultipleAligned(h: nat, k: nat)
    ensures Aligned(h * Pow2(k), k)
    decreases k
  {
    if k > 0 {
      MultipleAligned(h, k - 1);
      assert h * Pow2(k) == 2 * (h * Pow2(k - 1));
    }
  }

  lemma {:induction false} XorAligned(high: nat, x: nat, y: nat, k: nat)
    requires Aligned(high, k) && x < Pow2(k) && y < Pow2(k)
    ensures Xor(high + x, y) == high + Xor(x, y)
    decreases k
  {
    var a := high + x;
    if y == 0 {
      XorZero(a);
      XorZero(x);
    } else if a == 0 {
      XorZero(y);
    } else {
      var bit := if x % 2 == y % 2 then 0 else 1;
      assert a / 2 == high / 2 + x / 2 && a % 2 == x % 2;
      XorAligned(high / 2, x / 2, y / 2, k - 1);
      if x == 0 {
        XorZero(y / 2);
      }
      assert Xor(x, y) == 2 * Xor(x / 2, y / 2) + bit;
    }
  }

  lemma Pow2Values()
    ensures Pow2(16) == 0x1_0000 && Pow2(24) == Modulus && Pow2(25) == 2 * Modulus
  {
    assert Pow2(4) == 16;
    assert Pow2(8) == 0x100;
    assert Pow2(12) == 0x1000;
    assert Pow2(16) == 0x1_0000;
    assert Pow2(20) == 0x10_0000;
    assert Pow2(24) == Modulus;
  }

  /**
   * The low 24 bits of a step depend only on the low 24 bits of the running
   * value: bit 24 of `(crc << 1) ^ word` is bit 23 of `crc`, and the word and
   * the polynomial touch bits 0..23 only.
   */
  lemma StepLow(crc: nat, first: byte, second: byte)
    ensures Step(crc, first, second) % Modulus == Step(crc % Modulus, first, second) % Modulus
  {
    var q, low := crc / Modulus, crc % Modulus;
    var word := second * 0x100 + first;
    ShiftHigh(crc, q, low, word);
    var r := Xor(low * 2, word);
    BitAbove(q, r);
    if r / Modulus % 2 == 1 {
      XorHigh25(q, r, Poly);
      MaskHigh(q, Xor(r, Poly));
    } else {
      MaskHigh(q, r);
    }
  }

  /** Shifting `crc = q * 2^24 + low` left and folding in a word leaves `q` above bit 24. */
  lemma ShiftHigh(crc: nat, q: nat, low: nat, word: nat)
    requires crc == q * Modulus + low && low < Modulus && word < 0x1_0000
    ensures Xor(crc * 2, word) == q * (2 * Modulus) + Xor(low * 2, word)
    ensures Xor(low * 2, word) < 2 * Modulus
  {
    Pow2Values();
    assert crc * 2 == q * (2 * Modulus) + low * 2;
    XorBound(low * 2, word, 25);
    XorHigh25(q, low * 2, word);
  }

  lemma XorHigh25(q: nat, x: nat, y: nat)
    requires x < 2 * Modulus && y < 2 * Modulus
    ensures Xor(q * (2 * Modulus) + x, y) == q * (2 * Modulus) + Xor(x, y)
  {
    Pow2Values();
    XorHigh(q, x, y, 25);
  }

  /** Bit 24 of `q * 2^25 + r` is bit 24 of `r`. */
  lemma BitAbove(q: nat, r: nat)
    ensures (q * (2 * Modulus) + r) / Modulus % 2 == r / Modulus % 2
  {
    var a := r / Modulus;
    assert q * (2 * Modulus) + r == (2 * q + a) * Modulus + r % Modulus;
    ModUniqueNat(q * (2 * Modulus) + r, 2 * q + a, r % Modulus);
  }

  lemma ModUniqueNat(n: nat, q: nat, r: nat)
    requires r < Modulus && n == q * Modulus + r
    ensures n / Modulus == q && n % Modulus == r
  {
  }

  lemma MaskHigh(q: nat, z: nat)
    ensures (q * (2 * Modulus) + z) % Modulus == z % Modulus
  {
    var a, r := z / Modulus, z % Modulus;
    var n := q * (2 * Modulus) + z;
    assert n == (2 * q + a) * Modulus + r;
    ModUniqueNat(n, 2 * q + a, r);
  }

  /** Masking the running value at any point does not change the masked result. */
  lemma {:induction false} FoldLow(crc: nat, data: seq<byte>)
    requires |data| % 2 == 0
    ensures Fold(crc, data) % Modulus == Fold(crc % Modulus, data) % Modulus
    decreases |data|
  {
    if data != [] {
      StepLow(crc, data[0], data[1]);
      var s, s' := Step(crc, data[0], data[1]), Step(crc % Modulus, data[0], data[1]);
      FoldLow(s, data[2..]);
      FoldLow(s', data[2..]);
    }
  }

  /**
   * Composition: after an even-length buffer, continuing from the returned
   * (masked) CRC with a second buffer is the same as one call over both.
   */
  lemma CalcCompose(crc: nat, a: seq<byte>, b: seq<byte>)
    requires |a| % 2 == 0
    ensures Calc(Calc(crc, a), b) == Calc(crc, a + b)
  {
    assert Padded(a + b) == a + Padded(b);
    FoldAppend(crc, a, Padded(b));
    FoldLow(Fold(crc, a), Padded(b));
  }

  /** An odd-length buffer gives the CRC of the same buffer with a trailing zero. */
  lemma CalcOddPadding(crc: nat, base: seq<byte>)
    requires |base| % 2 == 1
    ensures Calc(crc, base) == Calc(crc, base + [0])
  {
  }

  /**
   * The loop of `calc_crc24`: it works on a copy of the caller's buffer (the
   * caller's sequence is a value and is never changed), pads it to even
   * length, folds it two bytes at a time without masking, and masks at the end.
   */
  method CalcCrc24(crc: nat, base: seq<byte>) returns (r: Crc)
    ensures r == Calc(crc, base)
  {
    var data := base;
    if |data| % 2 == 1 {
      data := data + [0];
    }
    var running: nat := crc;
    var i := 0;
    ghost var pairs := 0;
    ghost var n := |data| / 2;
    assert |data| == 2 * n;
    while i < |data|
      invariant 0 <= i <= |data| && i == 2 * pairs && pairs <= n
      invariant Fold(running, data[i..]) == Fold(crc, Padded(base))
      decreases |data| - i
    {
      assert data[i..][2..] == data[i + 2..];
      pairs := pairs + 1;
      running := Step(running, data[i], data[i + 1]);
      i := i + 2;
    }
    r := running % Modulus;
  }
}
