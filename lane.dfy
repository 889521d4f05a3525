/** The bit-plane transpose at the heart of the MultiMix bulk format, shared
    by the Python reference decoder and the C driver.

    A row (frame) of the bulk stream is 32 bytes.  Bit b (0..4) of bytes
    0..23 carries the 24 bits of one sample, byte 0 holding the most
    significant bit; bits 5..7 and bytes 24..31 carry nothing. */
module Lane {
  import opened Bits

  type Byte = x: int | 0 <= x < 256

  const FRAME_BYTES: nat := 32
  const SAMPLE_BITS: nat := 24
  const LANES: nat := 5
  const SAMPLE_LIMIT: nat := 0x100_0000

  lemma Pow2Of24()
    ensures Pow2(SAMPLE_BITS) == SAMPLE_LIMIT
  {
    assert Pow2(8) == 256;
    assert Pow2(16) == 65536;
  }

  /** The integer formed by bit b of l[0], ..., l[k-1], l[0] most significant:
      what the accumulator `s[b]` holds after k rounds of `s[b] <<= 1` and
      OR-ing in the next bit. */
  function PlaneValue(l: seq<int>, b: nat, k: nat): nat
    requires k <= |l|
  {
    if k == 0 then 0 else 2 * PlaneValue(l, b, k - 1) + Bit(l[k - 1], b)
  }

  /** k bits give a value below 2^k. */
  lemma {:induction false} PlaneValueBound(l: seq<int>, b: nat, k: nat)
    requires k <= |l|
    ensures PlaneValue(l, b, k) < Pow2(k)
  {
    if k > 0 {
      PlaneValueBound(l, b, k - 1);
    }
  }

  /** Lane b's 24-bit sample in a frame. */
  function LaneValue(l: seq<int>, b: nat): (v: nat)
    requires SAMPLE_BITS <= |l|
    ensures v < SAMPLE_LIMIT
  {
    PlaneValueBound(l, b, SAMPLE_BITS);
    Pow2Of24();
    PlaneValue(l, b, SAMPLE_BITS)
  }

  /** Bit k-1-i of the plane value is bit b of byte i: byte 0 lands in the
      most significant place, byte k-1 in the least. */
  lemma {:induction false} PlaneValueBit(l: seq<int>, b: nat, k: nat, i: nat)
    requires i < k <= |l|
    ensures Bit(PlaneValue(l, b, k), k - 1 - i) == Bit(l[i], b)
  {
    var p := PlaneValue(l, b, k - 1);
    BitOfDouble(p, Bit(l[k - 1], b), k - 1 - i);
    if i < k - 1 {
      PlaneValueBit(l, b, k - 1, i);
    }
  }

  /** The plane value depends on nothing but bit b of the first k bytes. */
  lemma {:induction false} PlaneValueOnlyPlane(l: seq<int>, l': seq<int>, b: nat, k: nat)
    requires k <= |l| && k <= |l'|
    requires forall i :: 0 <= i < k ==> Bit(l[i], b) == Bit(l'[i], b)
    ensures PlaneValue(l, b, k) == PlaneValue(l', b, k)
  {
    if k > 0 {
      PlaneValueOnlyPlane(l, l', b, k - 1);
    }
  }

  /** Bytes whose bit b is set throughout give the all-ones value. */
  lemma {:induction false} PlaneValueAllOnes(l: seq<int>, b: nat, k: nat)
    requires k <= |l|
    requires forall i :: 0 <= i < k ==> Bit(l[i], b) == 1
    ensures PlaneValue(l, b, k) == Pow2(k) - 1
  {
    if k > 0 {
      PlaneValueAllOnes(l, b, k - 1);
    }
  }

  /** Bytes whose bit b is clear throughout give zero. */
  lemma {:induction false} PlaneValueAllZeros(l: seq<int>, b: nat, k: nat)
    requires k <= |l|
    requires forall i :: 0 <= i < k ==> Bit(l[i], b) == 0
    ensures PlaneValue(l, b, k) == 0
  {
    if k > 0 {
      PlaneValueAllZeros(l, b, k - 1);
    }
  }

  /** `(v & 0xff, (v >> 8) & 0xff, (v >> 16) & 0xff)`: the low three bytes of v
      in little-endian order (S24_3LE). */
  function Pack3(v: int): (r: seq<Byte>)
    ensures |r| == 3
  {
    [v % 256, (v / 256) % 256, (v / 256 / 256) % 256]
  }

  /** Three little-endian bytes read back as an unsigned 24-bit integer. */
  function Unpack3(bs: seq<Byte>): (v: nat)
    requires |bs| == 3
    ensures v < SAMPLE_LIMIT
  {
    bs[0] as int + 256 * bs[1] as int + 65536 * bs[2] as int
  }

  /** Packing keeps exactly the low 24 bits of any integer, negative ones
      included. */
  lemma Pack3Low24(v: int)
    ensures Unpack3(Pack3(v)) == v % SAMPLE_LIMIT
  {
    var q1 := v / 256;
    var q2 := q1 / 256;
    var q3 := q2 / 256;
    assert v == v % 256 + 256 * q1;
    assert q1 == q1 % 256 + 256 * q2;
    assert q2 == q2 % 256 + 256 * q3;
    var low := Unpack3(Pack3(v));
    assert v == low + SAMPLE_LIMIT * q3;
  }

  /** Round trip: a 24-bit sample is recovered from its three bytes. */
  lemma Pack3RoundTrip(v: int)
    requires 0 <= v < SAMPLE_LIMIT
    ensures Unpack3(Pack3(v)) == v
  {
    Pack3Low24(v);
  }

  /** Round trip the other way: three bytes are recovered from their value. */
  lemma Unpack3RoundTrip(bs: seq<Byte>)
    requires |bs| == 3
    ensures Pack3(Unpack3(bs)) == bs
  {
    var v := Unpack3(bs);
    assert v % 256 == bs[0];
    assert v / 256 == bs[1] as int + 256 * bs[2] as int;
    assert v / 256 / 256 == bs[2];
  }

  /** A 24-bit pattern read as a two's-complement signed sample. */
  function Signed24(v: int): (s: int)
    requires 0 <= v < SAMPLE_LIMIT
    ensures -0x80_0000 <= s < 0x80_0000
    ensures (v - s) % SAMPLE_LIMIT == 0
  {
    if v < 0x80_0000 then v else v - SAMPLE_LIMIT
  }

  /** A sample in signed 24-bit range survives packing and unpacking. */
  lemma Pack3Signed(s: int)
    requires -0x80_0000 <= s < 0x80_0000
    ensures Signed24(Unpack3(Pack3(s))) == s
  {
    Pack3Low24(s);
  }
}
