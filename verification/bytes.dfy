/** Bytes and the bit operations the codec applies to them. Bytes are
    integers below 256; each bitwise C operation the firmware uses is
    written as the arithmetic it amounts to on such integers. */
module Bytes {

  type Byte = x: int | 0 <= x < 256

  /** 16-bit words, used for the fan/swing word. */
  type Word = x: int | 0 <= x < 0x1_0000

  function Pow2(k: nat): (r: nat)
    ensures r >= 1
  {
    if k == 0 then 1 else 2 * Pow2(k - 1)
  }

  /** Bit `k` of `v` (bit 0 is the least significant): `v & (1 << k) != 0`. */
  predicate BitSet(v: nat, k: nat) {
    (v / Pow2(k)) % 2 == 1
  }

  /** `b & 0xF0`: the high nibble, in place. */
  function HighNibble(b: Byte): (r: Byte)
    ensures r % 16 == 0 && r <= b
    ensures r + LowNibble(b) == b
  {
    b - b % 16
  }

  /** `b & 0x0F`: the low nibble. */
  function LowNibble(b: Byte): (r: Byte)
    ensures r < 16 && r <= b
  {
    b % 16
  }

  /** `b | 0xF0`: all four high bits set, the low nibble kept. */
  function OrHighNibble(b: Byte): (r: Byte)
    ensures LowNibble(r) == LowNibble(b)
    ensures HighNibble(r) == 0xF0
  {
    0xF0 + b % 16
  }

  /** `b | 0x01`: bit 0 set, every other bit kept. */
  function OrBit0(b: Byte): (r: Byte)
    ensures BitSet(r, 0)
    ensures r / 2 == b / 2
  {
    if b % 2 == 1 then b else b + 1
  }

  /** `b | 0x04`: bit 2 set, every other bit kept. */
  function OrBit2(b: Byte): (r: Byte)
    ensures BitSet(r, 2)
    ensures r % 4 == b % 4 && r / 8 == b / 8
  {
    assert Pow2(2) == 4;
    if (b / 4) % 2 == 1 then b else b + 4
  }

  /** `b & 0xC0 == 0` (bits 6 and 7 both clear) is `b < 64`. */
  lemma TopBitsClear(b: Byte)
    ensures (!BitSet(b, 6) && !BitSet(b, 7)) <==> b < 64
  {
    assert Pow2(6) == 64 && Pow2(7) == 128;
  }

  /** Integer division by `P` undoes `P * q + s` for a remainder `s < P`. */
  lemma DivAdd(P: nat, q: int, s: nat)
    requires 0 <= s < P
    ensures (P * q + s) / P == q
    ensures (P * q + s) % P == s
  {
    var x := P * q + s;
    var d, m := x / P, x % P;
    assert P * d + m == P * q + s;
    assert P * (d - q) == s - m;
    if d > q {
      MulAtLeast(P, d - q);
    } else if d < q {
      MulAtLeast(P, q - d);
    }
  }

  lemma MulAtLeast(P: nat, e: int)
    requires e >= 1
    ensures P * e >= P
  {
  }

  /** Halving shifts every bit down by one: `(v >> 1) >> (k - 1) == v >> k`. */
  lemma HalveShift(v: nat, k: nat)
    requires k > 0
    ensures (v / 2) / Pow2(k - 1) == v / Pow2(k)
  {
    var P := Pow2(k - 1);
    assert Pow2(k) == 2 * P;
    var q := v / (2 * P);
    var r := v % (2 * P);
    assert v == (2 * P) * q + r;
    assert v == 2 * (P * q) + r;
    assert v / 2 == P * q + r / 2;
    assert 0 <= r / 2 < P;
    DivAdd(P, q, r / 2);
  }
}
