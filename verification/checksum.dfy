/** The additive frame checksum: the sum, wrapped to eight bits, of every
    byte of a frame before its last, stored in the last. */
module Checksum {
  import opened Bytes

  /** The plain (unbounded) sum of the bytes of `s`. */
  function Total(s: seq<Byte>): (t: nat)
    ensures t <= 255 * |s|
  {
    if |s| == 0 then 0 else s[0] + Total(s[1..])
  }

  /** The checksum: the bytes of `s` added into a `uint8_t`, wrapping at
      256 after every addition. Wrapping after every addition is the same
      as wrapping the plain sum once at the end. */
  function Sum(s: seq<Byte>): (r: Byte)
    ensures r == Total(s) % 256
  {
    if |s| == 0 then 0
    else
      WrapStep(s[0], Total(s[1..]));
      (s[0] + Sum(s[1..])) % 256
  }

  /** Adding a byte to a wrapped value wraps the plain sum. */
  lemma WrapStep(f: Byte, a: nat)
    ensures (f + a % 256) % 256 == (f + a) % 256
  {
    ModStep(a, f);
  }

  lemma ModStep(a: int, f: int)
    ensures ((a % 256) + f) % 256 == (a + f) % 256
  {
  }

  /** The plain sum of a concatenation adds up. */
  lemma {:induction false} TotalAppend(a: seq<Byte>, b: seq<Byte>)
    ensures Total(a + b) == Total(a) + Total(b)
  {
    if |a| == 0 {
      assert a + b == b;
    } else {
      assert (a + b)[1..] == a[1..] + b;
      TotalAppend(a[1..], b);
    }
  }

  /** Replacing one byte changes the plain sum by the difference. */
  lemma {:induction false} TotalUpdate(s: seq<Byte>, i: nat, v: Byte)
    requires i < |s|
    ensures Total(s[i := v]) == Total(s) - s[i] + v
  {
    if i == 0 {
      assert s[i := v][1..] == s[1..];
    } else {
      assert s[i := v][1..] == s[1..][i - 1 := v];
      TotalUpdate(s[1..], i - 1, v);
    }
  }

  /** A frame whose last byte is the checksum of the bytes before it. */
  predicate ChecksumOk(frame: seq<Byte>) {
    |frame| >= 1 && frame[|frame| - 1] == Sum(frame[..|frame| - 1])
  }

  /** Changing any one byte of a frame that passes the check, the checksum
      byte included, makes it fail: the check detects every single-byte
      error. */
  lemma SingleByteErrorDetected(frame: seq<Byte>, i: nat, v: Byte)
    requires ChecksumOk(frame) && i < |frame| && v != frame[i]
    ensures !ChecksumOk(frame[i := v])
  {
    var n := |frame| - 1;
    var body := frame[..n];
    var changed := frame[i := v];
    if i < n {
      assert changed[..n] == body[i := v];
      assert changed[n] == frame[n];
      TotalUpdate(body, i, v);
      ShiftChangesResidue(Total(body), v - body[i]);
    } else {
      assert changed[..n] == body;
    }
  }

  /** Moving by less than 256, but not by zero, changes the residue. */
  lemma ShiftChangesResidue(a: int, d: int)
    requires -256 < d < 256 && d != 0
    ensures (a + d) % 256 != a % 256
  {
  }

  /** Adding the next byte to the wrapped accumulator wraps the total of
      the longer prefix. */
  lemma AccumulateStep(run: seq<Byte>, k: nat, init: Byte)
    requires k < |run|
    ensures (init + Total(run[..k + 1])) % 256 == ((init + Total(run[..k])) % 256 + run[k]) % 256
  {
    assert run[..k + 1] == run[..k] + [run[k]];
    TotalAppend(run[..k], [run[k]]);
    ModStep(init + Total(run[..k]), run[k]);
  }

  /** The firmware's checksum loop: starting from `init`, add every byte of
      `frame[from..to]` in ascending order to an eight-bit accumulator. */
  method Accumulate(frame: seq<Byte>, from: nat, to: nat, init: Byte) returns (c: Byte)
    requires from <= to <= |frame|
    ensures c == (init + Total(frame[from..to])) % 256
    ensures init == 0 ==> c == Sum(frame[from..to])
  {
    var run := frame[from..to];
    c := init;
    var k := 0;
    while k < |run|
      invariant 0 <= k <= |run|
      invariant c == (init + Total(run[..k])) % 256
    {
      AccumulateStep(run, k, init);
      c := (c + run[k]) % 256;
      k := k + 1;
    }
    assert run[..k] == run;
  }
}
