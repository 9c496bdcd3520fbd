/** The infrared pulse layer: the transmitter's (mark, space) pairs, least
    significant bit first, and the receiver's exact-match reading of them
    back into bytes. */
module PulseCodec {
  import opened Optional
  import opened Bytes
  import opened DaikinConstants

  /** One mark followed by one space, both in microseconds. */
  type Pulse = (nat, nat)

  const Leader: Pulse := (HeaderMark, HeaderSpace)
  const OneBit: Pulse := (BitMark, OneSpace)
  const ZeroBit: Pulse := (BitMark, ZeroSpace)
  /** Closes a frame that another frame follows. */
  const FrameGap: Pulse := (BitMark, MessageSpace)
  /** Closes the last frame of a transmission. */
  const EndMark: Pulse := (BitMark, 0)

  /** The pair that carries one bit. */
  function BitPulse(bit: bool): (p: Pulse)
    ensures p.0 == BitMark
    ensures p.1 == (if bit then OneSpace else ZeroSpace)
  {
    if bit then OneBit else ZeroBit
  }

  /** The low `n` bits of `v`, least significant first. */
  function BitPulses(v: nat, n: nat): (r: seq<Pulse>)
    ensures |r| == n
  {
    if n == 0 then [] else [BitPulse(v % 2 == 1)] + BitPulses(v / 2, n - 1)
  }

  /** Pair `k` of `BitPulses(v, n)` carries bit `k` of `v`. */
  lemma {:induction false} BitPulsesAt(v: nat, n: nat, k: nat)
    requires k < n
    ensures BitPulses(v, n)[k] == BitPulse(BitSet(v, k))
    decreases k
  {
    if k > 0 {
      BitPulsesAt(v / 2, n - 1, k - 1);
      HalveShift(v, k);
    }
  }

  /** The eight pairs of one byte: for each mask 1, 2, 4, ..., 128 in turn,
      a one-bit pair when the masked bit is set and a zero-bit pair when
      it is clear. */
  function BytePulses(b: Byte): (r: seq<Pulse>)
    ensures |r| == 8
    ensures forall k :: 0 <= k < 8 ==> r[k] == BitPulse(BitSet(b, k))
  {
    var r := BitPulses(b, 8);
    forall k | 0 <= k < 8
      ensures r[k] == BitPulse(BitSet(b, k))
    {
      BitPulsesAt(b, 8, k);
    }
    r
  }

  /** The pairs of a byte sequence, byte after byte. */
  function BytesPulses(bs: seq<Byte>): (r: seq<Pulse>)
    ensures |r| == 8 * |bs|
  {
    if |bs| == 0 then [] else BytePulses(bs[0]) + BytesPulses(bs[1..])
  }

  /** One transmitted frame: the leader, the frame's bytes, and the pair
      that closes it. */
  function Burst(bytes: seq<Byte>, trailer: Pulse): (r: seq<Pulse>)
    ensures |r| == 8 * |bytes| + 2
    ensures r[0] == Leader && r[|r| - 1] == trailer
  {
    [Leader] + BytesPulses(bytes) + [trailer]
  }

  /** The pair sequence the transmitter sends for a 35-byte message: the
      first frame, the time frame unless the model is ARC432A14, and the
      state frame, each after a leader; frames that another follows end
      with the long gap, the last with a zero-length space. */
  function Serialize(msg: seq<Byte>, model: Model): (r: seq<Pulse>)
    requires |msg| == MessageSize
    ensures |r| == (if model == ARC432A14 then 220 else 286)
    ensures r[0] == Leader && r[|r| - 1] == EndMark
  {
    Burst(msg[..TimeFrameOffset], FrameGap)
    + (if model == ARC432A14 then [] else Burst(msg[TimeFrameOffset..StateFrameOffset], FrameGap))
    + Burst(msg[StateFrameOffset..], EndMark)
  }

  /* ---------- Reading ---------- */

  /** One bit read as the receiver reads it: a one-bit pair is tried
      first, then a zero-bit pair; a pair is consumed only when it
      matches exactly, and anything else fails. */
  function ReadBit(p: seq<Pulse>): (r: Option<(bool, seq<Pulse>)>)
    ensures r.Some? <==> |p| > 0 && (p[0] == OneBit || p[0] == ZeroBit)
    ensures r.Some? ==> r.value.1 == p[1..] && p[0] == BitPulse(r.value.0)
  {
    if |p| > 0 && p[0] == OneBit then Some((true, p[1..]))
    else if |p| > 0 && p[0] == ZeroBit then Some((false, p[1..]))
    else None
  }

  /** `n` bits read least significant first (`byte |= 1 << bit`), with the
      pairs left over. */
  function ReadBits(p: seq<Pulse>, n: nat): (r: Option<(nat, seq<Pulse>)>)
    ensures r.Some? ==> r.value.0 < Pow2(n)
    ensures r.Some? ==> n <= |p| && r.value.1 == p[n..]
  {
    if n == 0 then Some((0, p))
    else
      match ReadBit(p)
      case None => None
      case Some((bit, rest)) =>
        match ReadBits(rest, n - 1)
        case None => None
        case Some((v, rest')) => Some(((if bit then 1 else 0) + 2 * v, rest'))
  }

  /** One byte: eight bits. */
  function ReadByte(p: seq<Pulse>): (r: Option<(Byte, seq<Pulse>)>)
    ensures r.Some? <==> ReadBits(p, 8).Some?
    ensures r.Some? ==> 8 <= |p| && r.value.1 == p[8..]
  {
    assert Pow2(8) == 256;
    match ReadBits(p, 8)
    case None => None
    case Some((v, rest)) => Some((v, rest))
  }

  /** Reading `n` bits inverts writing them. */
  lemma {:induction false} ReadBitsRoundTrip(v: nat, n: nat, rest: seq<Pulse>)
    requires v < Pow2(n)
    ensures ReadBits(BitPulses(v, n) + rest, n) == Some((v, rest))
  {
    if n > 0 {
      var p := BitPulses(v, n) + rest;
      assert p[0] == BitPulse(v % 2 == 1);
      assert p[1..] == BitPulses(v / 2, n - 1) + rest;
      assert ReadBit(p) == Some((v % 2 == 1, p[1..]));
      ReadBitsRoundTrip(v / 2, n - 1, rest);
      assert ReadBits(p[1..], n - 1) == Some((v / 2, rest));
      assert (if v % 2 == 1 then 1 else 0) + 2 * (v / 2) == v;
    } else {
      assert BitPulses(v, n) + rest == rest;
    }
  }

  /** Reading a byte inverts the transmitter's eight pairs for it. */
  lemma ReadByteRoundTrip(b: Byte, rest: seq<Pulse>)
    ensures ReadByte(BytePulses(b) + rest) == Some((b, rest))
  {
    assert Pow2(8) == 256;
    ReadBitsRoundTrip(b, 8, rest);
  }

  /** What `n` bits were read from is exactly the pairs that write the
      value read: the reader accepts nothing but the writer's output. */
  lemma {:induction false} ReadBitsSound(p: seq<Pulse>, n: nat)
    requires ReadBits(p, n).Some?
    ensures p[..n] == BitPulses(ReadBits(p, n).value.0, n)
  {
    if n > 0 {
      var bit := ReadBit(p).value.0;
      var v' := ReadBits(p[1..], n - 1).value.0;
      var v := ReadBits(p, n).value.0;
      assert v == (if bit then 1 else 0) + 2 * v';
      assert v % 2 == 1 <==> bit;
      assert v / 2 == v';
      ReadBitsSound(p[1..], n - 1);
      assert p[..n] == [p[0]] + p[1..][..n - 1];
    }
  }

  /** Converse of `ReadByteRoundTrip`: a byte read successfully was sent
      as exactly that byte's eight pairs. */
  lemma ReadByteSound(p: seq<Pulse>)
    requires ReadByte(p).Some?
    ensures p == BytePulses(ReadByte(p).value.0) + ReadByte(p).value.1
  {
    ReadBitsSound(p, 8);
    assert p == p[..8] + p[8..];
  }

  /** A pair that is neither bit pair stops the reader. */
  lemma NonBitStops(p: seq<Pulse>)
    requires |p| > 0 && p[0] != OneBit && p[0] != ZeroBit
    ensures ReadByte(p).None?
  {
  }

  /** Up to `n` bytes read greedily: reading stops at the first pair that
      does not carry a bit. */
  function ReadBytes(p: seq<Pulse>, n: nat): (r: seq<Byte>)
    ensures |r| <= n
    decreases n
  {
    if n == 0 then []
    else
      match ReadByte(p)
      case None => []
      case Some((b, rest)) => [b] + ReadBytes(rest, n - 1)
  }

  /** One byte's pairs at the front of the stream: that byte is read
      first, and reading goes on after its pairs. */
  lemma ReadBytesStep(b: Byte, tail: seq<Pulse>, n: nat)
    requires n > 0
    ensures ReadBytes(BytePulses(b) + tail, n) == [b] + ReadBytes(tail, n - 1)
  {
    ReadByteRoundTrip(b, tail);
  }

  /** Splitting off the first element and appending commute. */
  lemma ConsThenAppend<T>(s: seq<T>, t: seq<T>)
    requires |s| > 0
    ensures [s[0]] + (s[1..] + t) == s + t
  {
    assert s == [s[0]] + s[1..];
  }

  /** Reading the pairs of `bs` gives back `bs`, then continues with
      whatever follows. */
  lemma {:induction false} ReadBytesRoundTrip(bs: seq<Byte>, rest: seq<Pulse>, n: nat)
    requires |bs| <= n
    ensures ReadBytes(BytesPulses(bs) + rest, n) == bs + ReadBytes(rest, n - |bs|)
  {
    if |bs| > 0 {
      var head := BytePulses(bs[0]);
      var tail := BytesPulses(bs[1..]) + rest;
      var after := ReadBytes(rest, n - |bs|);
      assert BytesPulses(bs) == head + BytesPulses(bs[1..]);
      assert BytesPulses(bs) + rest == head + tail;
      ReadBytesRoundTrip(bs[1..], rest, n - 1);
      assert ReadBytes(tail, n - 1) == bs[1..] + after;
      ReadBytesStep(bs[0], tail, n);
      ConsThenAppend(bs, after);
    } else {
      assert BytesPulses(bs) + rest == rest;
      assert bs + ReadBytes(rest, n) == ReadBytes(rest, n);
    }
  }

  /** Reading a burst after its leader gives back exactly its bytes: the
      closing pair is no bit pair. */
  lemma ReadBurst(bytes: seq<Byte>, trailer: Pulse, more: seq<Pulse>, n: nat)
    requires |bytes| <= n
    requires trailer != OneBit && trailer != ZeroBit
    ensures ReadBytes((Burst(bytes, trailer) + more)[1..], n) == bytes
  {
    var rest := [trailer] + more;
    assert (Burst(bytes, trailer) + more)[1..] == BytesPulses(bytes) + rest;
    ReadBytesRoundTrip(bytes, rest, n);
    if n - |bytes| > 0 {
      NonBitStops(rest);
    }
    assert bytes + [] == bytes;
  }

  /** The gap and the end mark are no bit pairs, and the leader is none. */
  lemma TrailersAreNotBits()
    ensures FrameGap != OneBit && FrameGap != ZeroBit
    ensures EndMark != OneBit && EndMark != ZeroBit
    ensures Leader != OneBit && Leader != ZeroBit
  {
  }
}
