/** The integer logic of the MultiMix JACK client (jackd_alesis_multimix.c,
    of which alesis_jackd_plugin.c is a byte-for-byte copy).

    Samples travel as 32-bit integers: the capture side stores `sample << 8`
    for each 24-bit lane value, the playback side packs bits 8..31 of each
    integer into three bytes.  The float scaling the C code wraps around these
    integers (division and multiplication by INT_MAX) is not modelled, so a
    ring buffer here holds the integers themselves, one per 4-byte slot. */
module MultimixDriver {
  import opened Bits
  import opened Lane
  import ExtractChannels

  /** `sizeof(jack_default_audio_sample_t)`: the bytes of one ring-buffer slot. */
  const SAMPLE_SIZE: nat := 4
  const CAPTURE_CHANNELS: nat := 10
  const PLAYBACK_CHANNELS: nat := 2
  /** `ibframe`, `rbframe`: bytes of one capture / playback frame. */
  const IB_FRAME: nat := 40
  const RB_FRAME: nat := 8
  /** Rows in a full bulk transfer, and the bytes of that transfer. */
  const MAX_ROWS: nat := 4096
  const BULK_TRANSFER_SIZE: nat := 0x20000
  /** `fbAdjust`: feedback counts per one-frame rate adjustment. */
  const FB_ADJUST: nat := 3
  /** Playback frames in one output transfer at the nominal rate. */
  const OUT_FRAMES: nat := 480
  const ISO_PACKETS: nat := 40
  const ISO_PACKET_LENGTH: nat := 72
  const OUT_TRANSFER_LENGTH: nat := 2880
  /** Bytes allocated for an output transfer: room for 481 frames. */
  const OUT_BUFFER_SIZE: nat := 2886
  const FEEDBACK_BYTES: nat := 6
  /** Six feedback counters of 96 each: the device consumes 576 samples per
      feedback transfer at the nominal rate. */
  const FEEDBACK_NOMINAL: nat := 576
  /** Largest JACK period accepted, and the sizes of the two static buffers. */
  const MAX_NFRAMES: nat := 1024
  const AB_SAMPLES: nat := 1025 * 10
  const OB_SAMPLES: nat := 962

  /** How a libusb transfer ended (every other status acts like Failed). */
  datatype TransferStatus = Completed | Cancelled | Failed

  // ---------------------------------------------------------------------
  // bulk_in: rows of the capture transfer

  /** `nr` in bulk_in: the rows that fit the capture ring buffer, rounded
      down to whole 10-channel frames and capped at one full transfer. */
  function RowCount(writeSpace: nat): (nr: nat)
    ensures nr % 2 == 0 && nr <= MAX_ROWS
    ensures 5 * 4 * nr <= writeSpace
    ensures nr == MAX_ROWS || writeSpace < 5 * 4 * (nr + 2)
  {
    var rows := (writeSpace / 40) * 2;
    if rows < MAX_ROWS then rows else MAX_ROWS
  }

  /** Row r of a bulk transfer: 32 bytes, of which the first 24 carry bits. */
  function Row(buf: seq<Byte>, r: nat): (row: seq<int>)
    requires (r + 1) * 32 <= |buf|
    ensures |row| == FRAME_BYTES
    ensures forall i :: 0 <= i < FRAME_BYTES ==> row[i] == buf[r * 32 + i]
  {
    buf[r * 32 .. (r + 1) * 32]
  }

  /** `sample << 8` on a 32-bit int: the 24-bit lane value read as a signed
      sample and moved up to bits 8..31. */
  function RowSample(v: nat): (s: int)
    requires v < SAMPLE_LIMIT
    ensures s == 256 * Signed24(v)
    ensures INT32_MIN <= s <= INT32_MAX
  {
    Wrap32(256 * v)
  }

  /** The five integers bulk_in stores for row r, lane 0 first. */
  function RowSamples(buf: seq<Byte>, r: nat): (s: seq<int>)
    requires (r + 1) * 32 <= |buf|
    ensures |s| == LANES
    ensures forall ch :: 0 <= ch < LANES ==> s[ch] == RowSample(LaneValue(Row(buf, r), ch))
  {
    seq(LANES, ch requires 0 <= ch < LANES => RowSample(LaneValue(Row(buf, r), ch)))
  }

  /** Everything bulk_in stores for the first nr rows, row by row. */
  function DecodedRows(buf: seq<Byte>, nr: nat): seq<int>
    requires nr * 32 <= |buf|
  {
    if nr == 0 then [] else DecodedRows(buf, nr - 1) + RowSamples(buf, nr - 1)
  }

  /** 5 integers per row; integer ch of row r is lane ch of that row. */
  lemma {:induction false} DecodedRowsAt(buf: seq<Byte>, nr: nat, r: nat, ch: nat)
    requires nr * 32 <= |buf| && r < nr && ch < LANES
    ensures |DecodedRows(buf, nr)| == 5 * nr
    ensures DecodedRows(buf, nr)[5 * r + ch] == RowSample(LaneValue(Row(buf, r), ch))
  {
    DecodedRowsLength(buf, nr - 1);
    var prefix := DecodedRows(buf, nr - 1);
    assert DecodedRows(buf, nr) == prefix + RowSamples(buf, nr - 1);
    if r < nr - 1 {
      assert 5 * r + ch < 5 * (nr - 1);
      DecodedRowsAt(buf, nr - 1, r, ch);
    } else {
      assert 5 * r + ch == |prefix| + ch;
    }
  }

  lemma {:induction false} DecodedRowsLength(buf: seq<Byte>, nr: nat)
    requires nr * 32 <= |buf|
    ensures |DecodedRows(buf, nr)| == 5 * nr
  {
    if nr > 0 {
      DecodedRowsLength(buf, nr - 1);
    }
  }

  /** Slot c of the f-th 10-channel frame holds lane c % 5 of row 2f + c / 5:
      the even row fills channels 0-4, the odd row channels 5-9, the same
      routing the reference decoder applies to frames of even and odd
      parity. */
  lemma CaptureFrameSlot(buf: seq<Byte>, nr: nat, f: nat, c: nat)
    requires nr * 32 <= |buf| && 2 * f + 1 < nr && c < CAPTURE_CHANNELS
    ensures |DecodedRows(buf, nr)| == 5 * nr
    ensures DecodedRows(buf, nr)[10 * f + c]
         == RowSample(LaneValue(Row(buf, 2 * f + ExtractChannels.Half(c)), ExtractChannels.LaneOf(c)))
  {
    ExtractChannels.HalfAndLane(c);
    DecodedRowsAt(buf, nr, 2 * f + ExtractChannels.Half(c), ExtractChannels.LaneOf(c));
  }

  /** The two inner loops of bulk_in's row loop: 24 bytes from bpos on,
      bit ch of each shifted into `sample[ch]`, most significant first. */
  method AssembleRow(buffer: array<Byte>, bpos: nat) returns (samples: seq<int>)
    requires bpos + FRAME_BYTES <= buffer.Length
    ensures |samples| == LANES
    ensures forall ch :: 0 <= ch < LANES ==> samples[ch] == LaneValue(buffer[bpos .. bpos + FRAME_BYTES], ch)
  {
    ghost var bytes: seq<int> := buffer[bpos .. bpos + FRAME_BYTES];
    var sample := new int[LANES](_ => 0);
    var p := bpos;
    var b := 0;
    while b < SAMPLE_BITS
      invariant 0 <= b <= SAMPLE_BITS
      invariant p == bpos + b
      invariant forall c :: 0 <= c < LANES ==> sample[c] == PlaneValue(bytes, c, b)
    {
      var bb: int := buffer[p];
      assert bb == bytes[b];
      var ch := 0;
      while ch < LANES
        invariant 0 <= ch <= LANES
        invariant bb == Shr(bytes[b], ch)
        invariant forall c :: 0 <= c < ch ==> sample[c] == PlaneValue(bytes, c, b + 1)
        invariant forall c :: ch <= c < LANES ==> sample[c] == PlaneValue(bytes, c, b)
      {
        sample[ch] := 2 * sample[ch] + bb % 2;
        bb := bb / 2;
        ch := ch + 1;
      }
      p := p + 1;
      b := b + 1;
    }
    samples := sample[..];
  }

  /** bulk_in's row loop over a transfer buffer (bytes read through an
      `unsigned char`): returns what it stores in its temporary array `a`. */
  method DecodeRows(buffer: array<Byte>, nr: nat) returns (a: seq<int>)
    requires nr <= MAX_ROWS && nr * 32 <= buffer.Length
    ensures a == DecodedRows(buffer[..], nr)
  {
    var temp := new int[10 * 2048];
    var ap := 0;
    var bpos := 0;
    var row := 0;
    while row < nr
      invariant 0 <= row <= nr
      invariant ap == 5 * row && bpos == 32 * row
      invariant temp[..ap] == DecodedRows(buffer[..], row)
    {
      var sample := AssembleRow(buffer, bpos);
      assert buffer[bpos .. bpos + FRAME_BYTES] == Row(buffer[..], row);
      ghost var stored := RowSamples(buffer[..], row);
      var s := 0;
      while s < LANES
        invariant 0 <= s <= LANES
        invariant ap == 5 * row + s
        invariant temp[..ap] == DecodedRows(buffer[..], row) + stored[..s]
      {
        temp[ap] := Wrap32(sample[s] * 256);
        assert stored[..s + 1] == stored[..s] + [temp[ap]];
        ap := ap + 1;
        s := s + 1;
      }
      assert stored[..LANES] == stored;
      bpos := bpos + FRAME_BYTES;
      row := row + 1;
    }
    a := temp[..ap];
  }

  // ---------------------------------------------------------------------
  // cb_out: the playback rate adjustment and the S24_3LE packing

  /** `sd` in cb_out: the sign of outDelta / fbAdjust under C's truncating
      division.  A drift of fbAdjust feedback counts either way adds or drops
      one frame; anything smaller changes nothing. */
  function OutAdjust(outDelta: int): (sd: int)
    ensures -1 <= sd <= 1
    ensures sd == 1 <==> outDelta >= FB_ADJUST
    ensures sd == -1 <==> outDelta <= -(FB_ADJUST as int)
  {
    Sign(TruncDiv(outDelta, FB_ADJUST))
  }

  /** outDelta after cb_out: reset when the transfer was adjusted, kept
      otherwise; either way it is left strictly inside the dead band, so the
      next transfer is not adjusted again without new feedback. */
  lemma AdjustSettles(outDelta: int)
    ensures var d := if OutAdjust(outDelta) != 0 then 0 else outDelta;
      -(FB_ADJUST as int) < d < FB_ADJUST && OutAdjust(d) == 0
  {
  }

  /** `transfer->length` and the length of the last ISO packet for a given sd. */
  function TransferLength(sd: int): int
  {
    OUT_TRANSFER_LENGTH + 6 * sd
  }

  function LastPacketLength(sd: int): int
  {
    ISO_PACKET_LENGTH + 6 * sd
  }

  /** Sum of the ISO packet lengths of a transfer. */
  function PacketSum(s: seq<int>): int
  {
    if s == [] then 0 else PacketSum(s[..|s| - 1]) + s[|s| - 1]
  }

  /** 39 packets of 72 bytes and a last one of any length add up to 2808 plus
      that length. */
  lemma {:induction false} PacketSumNominal(s: seq<int>, k: nat)
    requires k <= |s| && forall i :: 0 <= i < k ==> s[i] == ISO_PACKET_LENGTH
    ensures PacketSum(s[..k]) == ISO_PACKET_LENGTH * k
  {
    if k > 0 {
      assert s[..k][..k - 1] == s[..k - 1];
      PacketSumNominal(s, k - 1);
    }
  }

  lemma PacketSumLast(s: seq<int>)
    requires |s| == ISO_PACKETS && forall i :: 0 <= i < ISO_PACKETS - 1 ==> s[i] == ISO_PACKET_LENGTH
    ensures PacketSum(s) == ISO_PACKET_LENGTH * (ISO_PACKETS - 1) + s[ISO_PACKETS - 1]
  {
    PacketSumNominal(s, ISO_PACKETS - 1);
    assert s[..ISO_PACKETS] == s;
  }

  /** The three lengths cb_out keeps in step: 39 full packets plus the last
      one make up the transfer, which is exactly the 3 bytes x 2 channels x
      (480 + sd) frames the packing loop writes, and fits the 2886 bytes
      allocated for it. */
  lemma TransferLengths(sd: int)
    requires -1 <= sd <= 1
    ensures ISO_PACKET_LENGTH * (ISO_PACKETS - 1) + LastPacketLength(sd) == TransferLength(sd)
    ensures TransferLength(sd) == 3 * 2 * (OUT_FRAMES + sd)
    ensures 0 < TransferLength(sd) <= OUT_BUFFER_SIZE
    ensures 2 * (OUT_FRAMES + sd) <= OB_SAMPLES
  {
  }

  /** The three bytes cb_out emits for one integer sample: three rounds of
      `sample >>= 8` (an arithmetic shift) and `sample & 0xff` (the low byte
      in two's complement), which are Dafny's `/ 256` and `% 256`. */
  function PackSample(s: int): (bs: seq<Byte>)
    ensures |bs| == 3
  {
    [(s / 256) % 256, (s / 256 / 256) % 256, (s / 256 / 256 / 256) % 256]
  }

  /** The packed bytes are bits 8..31 of the sample, lowest byte first; for a
      32-bit sample they read back as the sample shifted down by 8. */
  lemma PackSampleBits(s: int)
    ensures PackSample(s) == Pack3(s / 256)
    ensures Unpack3(PackSample(s)) == (s / 256) % SAMPLE_LIMIT
    ensures INT32_MIN <= s <= INT32_MAX ==> Signed24(Unpack3(PackSample(s))) == s / 256
  {
    Pack3Low24(s / 256);
    if INT32_MIN <= s <= INT32_MAX {
      Pack3Signed(s / 256);
    }
  }

  /** A captured lane value, stored by bulk_in and packed by cb_out, comes
      back as the same 24 bits. */
  lemma PackRowSample(v: nat)
    requires v < SAMPLE_LIMIT
    ensures Unpack3(PackSample(RowSample(v))) == v
  {
    PackSampleBits(RowSample(v));
    assert RowSample(v) / 256 == Signed24(v);
  }

  /** Everything the packing loop writes for the samples xs, in order. */
  function PackAll(xs: seq<int>): seq<Byte>
  {
    if xs == [] then [] else PackAll(xs[..|xs| - 1]) + PackSample(xs[|xs| - 1])
  }

  lemma {:induction false} PackAllAt(xs: seq<int>, k: nat)
    requires k < |xs|
    ensures |PackAll(xs)| == 3 * |xs|
    ensures PackAll(xs)[3 * k .. 3 * k + 3] == PackSample(xs[k])
  {
    var init := xs[..|xs| - 1];
    PackAllLength(init);
    if k < |xs| - 1 {
      PackAllAt(init, k);
    }
  }

  lemma {:induction false} PackAllLength(xs: seq<int>)
    ensures |PackAll(xs)| == 3 * |xs|
  {
    if xs != [] {
      PackAllLength(xs[..|xs| - 1]);
    }
  }

  /** `sample` after b rounds of `sample >>= 8`. */
  function ShiftedBytes(s: int, b: nat): int
  {
    if b == 0 then s else ShiftedBytes(s, b - 1) / 256
  }

  /** The innermost loop of cb_out's packing: the three bytes of one sample
      written at dst[bp..bp+3]. */
  method EmitSample(s: int, dst: array<Byte>, bp: nat)
    requires bp + 3 <= dst.Length
    modifies dst
    ensures dst[bp .. bp + 3] == PackSample(s)
    ensures dst[..bp] == old(dst[..bp]) && dst[bp + 3..] == old(dst[bp + 3..])
  {
    var sample := s;
    var b := 0;
    while b < 3
      invariant 0 <= b <= 3
      invariant sample == ShiftedBytes(s, b)
      invariant dst[bp .. bp + b] == PackSample(s)[..b]
      invariant dst[..bp] == old(dst[..bp]) && dst[bp + 3..] == old(dst[bp + 3..])
    {
      sample := sample / 256;
      dst[bp + b] := sample % 256;
      b := b + 1;
    }
  }

  /** One frame of cb_out's packing loop: the two samples at src[pab] and
      src[pab + 1], three bytes each, written at dst[3 * pab ..]. */
  method EmitFrame(src: array<int>, pab: nat, dst: array<Byte>)
    requires pab + 2 <= src.Length && 3 * pab + 6 <= dst.Length
    modifies dst
    ensures dst[3 * pab .. 3 * pab + 6] == PackSample(src[pab]) + PackSample(src[pab + 1])
    ensures dst[..3 * pab] == old(dst[..3 * pab]) && dst[3 * pab + 6..] == old(dst[3 * pab + 6..])
  {
    var ch := 0;
    while ch < PLAYBACK_CHANNELS
      invariant 0 <= ch <= 2
      invariant dst[3 * pab .. 3 * pab + 3 * ch] == PackAll(src[pab .. pab + ch])
      invariant dst[..3 * pab] == old(dst[..3 * pab]) && dst[3 * pab + 6..] == old(dst[3 * pab + 6..])
    {
      ghost var before := dst[3 * pab .. 3 * pab + 3 * ch];
      EmitSample(src[pab + ch], dst, 3 * pab + 3 * ch);
      assert dst[3 * pab .. 3 * pab + 3 * ch + 3] == before + PackSample(src[pab + ch]);
      assert src[pab .. pab + ch + 1][..ch] == src[pab .. pab + ch];
      ch := ch + 1;
    }
    assert src[pab .. pab + 2][..1] == [src[pab]];
    assert PackAll([src[pab]]) == PackSample(src[pab]);
  }

  /** The packing loop of cb_out: `frames` frames of 2 samples from src,
      3 bytes each, into dst from its start. */
  method PackFrames(src: array<int>, frames: nat, dst: array<Byte>)
    requires 2 * frames <= src.Length && 6 * frames <= dst.Length
    modifies dst
    ensures dst[..6 * frames] == PackAll(src[..2 * frames])
    ensures dst[6 * frames..] == old(dst[6 * frames..])
  {
    var pab := 0;
    var bp := 0;
    var i := 0;
    while i < frames
      invariant 0 <= i <= frames
      invariant pab == 2 * i && bp == 3 * pab
      invariant dst[..bp] == PackAll(src[..pab])
      invariant dst[6 * frames..] == old(dst[6 * frames..])
    {
      ghost var before := dst[..bp];
      EmitFrame(src, pab, dst);
      assert dst[..bp + 6] == before + PackSample(src[pab]) + PackSample(src[pab + 1]);
      assert src[..pab + 2][..pab + 1] == src[..pab + 1];
      assert src[..pab + 1][..pab] == src[..pab];
      assert dst[6 * frames..] == dst[bp + 6..][6 * frames - bp - 6..];
      bp := bp + 6;
      pab := pab + 2;
      i := i + 1;
    }
  }

  /** Filling dst[..n] with zeros: the `memset` of an underrun. */
  function Zeros(n: nat): (z: seq<Byte>)
    ensures |z| == n && forall k :: 0 <= k < n ==> z[k] == 0
  {
    seq(n, _ => 0)
  }

  method ZeroFill(dst: array<Byte>, n: nat)
    requires n <= dst.Length
    modifies dst
    ensures dst[..n] == Zeros(n) && dst[n..] == old(dst[n..])
  {
    var k := 0;
    while k < n
      invariant 0 <= k <= n
      invariant dst[..k] == Zeros(k) && dst[n..] == old(dst[n..])
    {
      dst[k] := 0;
      assert Zeros(k + 1) == Zeros(k) + [0];
      k := k + 1;
    }
  }

  /** `jack_ringbuffer_read` into a static buffer: the samples xs land at the
      start of dst, the rest of dst keeps its old contents. */
  method CopyIn(dst: array<int>, xs: seq<int>)
    requires |xs| <= dst.Length
    modifies dst
    ensures dst[..|xs|] == xs && dst[|xs|..] == old(dst[|xs|..])
  {
    var k := 0;
    while k < |xs|
      invariant 0 <= k <= |xs|
      invariant dst[..k] == xs[..k] && dst[|xs|..] == old(dst[|xs|..])
    {
      dst[k] := xs[k];
      assert xs[..k + 1] == xs[..k] + [xs[k]];
      k := k + 1;
    }
  }

  // ---------------------------------------------------------------------
  // fb_in: the feedback accumulator

  const UINT32_MOD: nat := 0x1_0000_0000

  /** fSum: the feedback bytes added up, each read as `unsigned int`. */
  function FeedbackSum(fb: seq<Byte>): nat
  {
    if fb == [] then 0 else FeedbackSum(fb[..|fb| - 1]) + fb[|fb| - 1]
  }

  lemma {:induction false} FeedbackSumBound(fb: seq<Byte>)
    ensures FeedbackSum(fb) <= 255 * |fb|
  {
    if fb != [] {
      FeedbackSumBound(fb[..|fb| - 1]);
    }
  }

  /** The summing loop of fb_in over the six bytes of a feedback transfer. */
  method SumFeedback(buffer: array<Byte>) returns (fSum: nat)
    requires FEEDBACK_BYTES <= buffer.Length
    ensures fSum == FeedbackSum(buffer[..FEEDBACK_BYTES])
    ensures fSum <= 255 * FEEDBACK_BYTES
  {
    fSum := 0;
    var i := 0;
    while i < FEEDBACK_BYTES
      invariant 0 <= i <= FEEDBACK_BYTES
      invariant fSum == FeedbackSum(buffer[..i])
    {
      assert buffer[..i + 1][..i] == buffer[..i];
      fSum := fSum + buffer[i];
      i := i + 1;
    }
    FeedbackSumBound(buffer[..FEEDBACK_BYTES]);
  }

  /** `outDelta += fSum - 576`: the difference is taken in `unsigned int`,
      added to outDelta converted to `unsigned int`, and the sum converted
      back to `int`.  The detour through unsigned arithmetic is harmless: the
      result is the 32-bit wrap of the exact sum, and the exact sum itself
      whenever that fits in an int. */
  function FeedbackDelta(outDelta: int, fSum: nat): (d: int)
    ensures d == Wrap32(outDelta + fSum - FEEDBACK_NOMINAL)
    ensures INT32_MIN <= outDelta + fSum - FEEDBACK_NOMINAL <= INT32_MAX ==>
      d == outDelta + fSum - FEEDBACK_NOMINAL
  {
    var diff := (fSum - FEEDBACK_NOMINAL) % UINT32_MOD;
    var sum := (outDelta % UINT32_MOD + diff) % UINT32_MOD;
    Wrap32Congruent(sum, outDelta + fSum - FEEDBACK_NOMINAL);
    Wrap32(sum)
  }

  lemma Wrap32Congruent(x: int, y: int)
    requires (x - y) % UINT32_MOD == 0
    ensures Wrap32(x) == Wrap32(y)
  {
    var q := (x - y) / UINT32_MOD;
    assert x - INT32_MIN == (y - INT32_MIN) + q * UINT32_MOD;
  }

  /** The feedback loop closed: starting from the settled accumulator that
      cb_out leaves behind, one feedback transfer makes the next output
      transfer one frame longer exactly when the device asked for at least
      fbAdjust more samples than nominal, and one frame shorter exactly when
      it asked for at least fbAdjust fewer.  Six counters of 96 leave the
      accumulator unchanged. */
  lemma FeedbackLoop(outDelta: int, fb: seq<Byte>)
    requires -(FB_ADJUST as int) < outDelta < FB_ADJUST && |fb| == FEEDBACK_BYTES
    ensures var d := FeedbackDelta(outDelta, FeedbackSum(fb));
      && d == outDelta + FeedbackSum(fb) - FEEDBACK_NOMINAL
      && (OutAdjust(d) == 1 <==> outDelta + FeedbackSum(fb) >= FEEDBACK_NOMINAL + FB_ADJUST)
      && (OutAdjust(d) == -1 <==> outDelta + FeedbackSum(fb) <= FEEDBACK_NOMINAL - FB_ADJUST)
      && (FeedbackSum(fb) == FEEDBACK_NOMINAL ==> d == outDelta)
  {
    FeedbackSumBound(fb);
  }

  /** Counters all equal to v add up to v per counter; six counters of 96 to
      the nominal 576. */
  lemma {:induction false} FeedbackSumConstant(fb: seq<Byte>, v: nat)
    requires forall i :: 0 <= i < |fb| ==> fb[i] == v
    ensures FeedbackSum(fb) == v * |fb|
    ensures |fb| == FEEDBACK_BYTES && v == 96 ==> FeedbackSum(fb) == FEEDBACK_NOMINAL
  {
    if fb != [] {
      FeedbackSumConstant(fb[..|fb| - 1], v);
    }
  }

  // ---------------------------------------------------------------------
  // jack_process, capture side: ring buffer to the ten output ports

  /** `na` on the capture side: nothing when fewer than nframes frames are
      buffered (underrun: the period is dropped), otherwise one frame more,
      the same or one frame fewer as sd asks, but never more than buffered. */
  function CaptureBytes(nframes: nat, nb: nat, sd: int): (na: nat)
    requires 1 <= nframes && -1 <= sd <= 1
    ensures na <= nb && na <= 40 * (nframes + 1)
    ensures nb < 40 * nframes ==> na == 0
    ensures nb >= 40 * nframes ==> 40 * (nframes - 1) <= na
    ensures na == 0 <==> nb < 40 * nframes || (nframes == 1 && sd == -1)
    ensures na > 0 ==> IB_FRAME <= na
    ensures nb % 40 == 0 ==> na % 40 == 0
    ensures nb >= 40 * nframes ==>
      na == 40 * (nframes + sd) || (sd == 1 && na == nb < 40 * (nframes + 1))
  {
    var nr := 40 * nframes;
    if nb < nr then 0
    else
      var want := nr + sd * 40;
      if want > nb then nb else want
  }

  /** ab after the padding loop: the samples read, extended to n samples by
      copying, one at a time, the sample one capture frame (10 samples)
      earlier. */
  function Pad(xs: seq<int>, n: nat): (r: seq<int>)
    requires CAPTURE_CHANNELS <= |xs|
    ensures |r| == if n <= |xs| then |xs| else n
    decreases n
  {
    if n <= |xs| then xs
    else
      var p := Pad(xs, n - 1);
      p + [p[n - 1 - CAPTURE_CHANNELS]]
  }

  /** Padding keeps the samples read and repeats the last 10 of them
      cyclically. */
  lemma {:induction false} PadAt(xs: seq<int>, n: nat, k: nat)
    requires CAPTURE_CHANNELS <= |xs| && k < |Pad(xs, n)|
    ensures k < |xs| ==> Pad(xs, n)[k] == xs[k]
    ensures |xs| <= k ==> Pad(xs, n)[k] == xs[|xs| - CAPTURE_CHANNELS + (k - |xs|) % 10]
    decreases n
  {
    if n > |xs| {
      var p := Pad(xs, n - 1);
      if k < n - 1 {
        PadAt(xs, n - 1, k);
      } else if k - CAPTURE_CHANNELS < |xs| {
        PadAt(xs, n - 1, k - CAPTURE_CHANNELS);
      } else {
        PadAt(xs, n - 1, k - CAPTURE_CHANNELS);
        assert (k - CAPTURE_CHANNELS - |xs|) % 10 == (k - |xs|) % 10;
      }
    }
  }

  /** When whole frames were read, every padded frame is a copy of the last
      frame read, channel for channel. */
  lemma PadRepeatsLastFrame(xs: seq<int>, n: nat, i: nat, ch: nat)
    requires CAPTURE_CHANNELS <= |xs| && |xs| % 10 == 0 && ch < CAPTURE_CHANNELS
    requires |xs| <= 10 * i && 10 * i + ch < n
    ensures Pad(xs, n)[10 * i + ch] == xs[|xs| - CAPTURE_CHANNELS + ch]
  {
    PadAt(xs, n, 10 * i + ch);
    var f := |xs| / 10;
    assert 10 * i + ch - |xs| == 10 * (i - f) + ch;
  }

  /** The deinterleaving loop of jack_process: sample 10 * i + ch of src
      goes to port ch at position i. */
  method Deinterleave(src: array<int>, nframes: nat, outs: array2<int>)
    requires outs.Length0 == CAPTURE_CHANNELS && nframes <= outs.Length1
    requires 10 * nframes <= src.Length
    modifies outs
    ensures forall ch, i :: 0 <= ch < CAPTURE_CHANNELS && 0 <= i < nframes ==>
      outs[ch, i] == src[10 * i + ch]
    ensures forall ch, i :: 0 <= ch < CAPTURE_CHANNELS && nframes <= i < outs.Length1 ==>
      outs[ch, i] == old(outs[ch, i])
  {
    var pab := 0;
    var i := 0;
    while i < nframes
      invariant 0 <= i <= nframes && pab == 10 * i
      invariant forall c, j :: 0 <= c < 10 && 0 <= j < i ==> outs[c, j] == src[10 * j + c]
      invariant forall c, j :: 0 <= c < 10 && i <= j < outs.Length1 ==> outs[c, j] == old(outs[c, j])
    {
      var ch := 0;
      while ch < CAPTURE_CHANNELS
        invariant 0 <= ch <= 10 && pab == 10 * i + ch
        invariant forall c, j :: 0 <= c < 10 && 0 <= j < i ==> outs[c, j] == src[10 * j + c]
        invariant forall c :: 0 <= c < ch ==> outs[c, i] == src[10 * i + c]
        invariant forall c, j :: 0 <= c < 10 && i <= j < outs.Length1 && (j != i || ch <= c) ==>
          outs[c, j] == old(outs[c, j])
      {
        outs[ch, i] := src[pab];
        pab := pab + 1;
        ch := ch + 1;
      }
      i := i + 1;
    }
  }

  // ---------------------------------------------------------------------
  // jack_process, playback side: the two input ports to the ring buffer

  /** The two input ports interleaved frame by frame, left sample first. */
  function Interleaved(ins: seq<seq<int>>, n: nat): (r: seq<int>)
    requires |ins| == PLAYBACK_CHANNELS && n <= |ins[0]| && n <= |ins[1]|
    ensures |r| == 2 * n
  {
    if n == 0 then [] else Interleaved(ins, n - 1) + [ins[0][n - 1], ins[1][n - 1]]
  }

  lemma {:induction false} InterleavedAt(ins: seq<seq<int>>, n: nat, i: nat, ch: nat)
    requires |ins| == PLAYBACK_CHANNELS && n <= |ins[0]| && n <= |ins[1]|
    requires i < n && ch < PLAYBACK_CHANNELS
    ensures Interleaved(ins, n)[2 * i + ch] == ins[ch][i]
  {
    if i < n - 1 {
      InterleavedAt(ins, n - 1, i, ch);
    }
  }

  /** The playback overrun guard, corrected: it leaves room for the extra
      frame the rate adjustment may append. */
  predicate Overrun(nr: int, writeSpace: int)
  {
    nr + RB_FRAME > writeSpace
  }

  /** The guard as written at line 276 leaves room for one byte only. */
  predicate OverrunAsWritten(nr: int, writeSpace: int)
  {
    nr + 1 > writeSpace
  }

  /** `na` on the playback side: nr bytes, one frame more or one fewer. */
  function PlaybackBytes(nr: int, adjust: int): int
  {
    nr + adjust * 8
  }

  /** With the corrected guard the write always fits the ring buffer, so
      jack_ringbuffer_write never falls short. */
  lemma OverrunGuardFits(nr: int, writeSpace: int, adjust: int)
    requires RB_FRAME <= nr && -1 <= adjust <= 1 && !Overrun(nr, writeSpace)
    ensures 0 <= PlaybackBytes(nr, adjust) <= writeSpace
  {
  }

  /** As written, the guard lets through every write space from nr + 1 to
      nr + 7 bytes, where appending the duplicate frame writes nr + 8 bytes:
      the write falls short and jack_process returns 1. */
  lemma OverrunAsWrittenShortWrite(nr: int, writeSpace: int)
    requires nr + 1 <= writeSpace < nr + RB_FRAME
    ensures !OverrunAsWritten(nr, writeSpace) && Overrun(nr, writeSpace)
    ensures PlaybackBytes(nr, 1) > writeSpace
  {
  }

  /** One period of one frame with 15 bytes of space: the smallest case. */
  lemma OverrunAsWrittenExample()
    ensures !OverrunAsWritten(8 * 1, 15) && PlaybackBytes(8 * 1, 1) == 16
  {
  }

  /** The write falls short under the guard as written exactly when a frame
      is added and the write space is nr+1 to nr+7: the window the corrected
      guard closes.  Otherwise the guard as written lets the whole period
      through. */
  lemma ShortWriteWindow(nr: int, writeSpace: int, adjust: int)
    requires RB_FRAME <= nr && -1 <= adjust <= 1
    ensures (!OverrunAsWritten(nr, writeSpace) && PlaybackBytes(nr, adjust) > writeSpace)
      <==> (adjust == 1 && nr + 1 <= writeSpace < nr + RB_FRAME)
    ensures !OverrunAsWritten(nr, writeSpace) ==> nr <= writeSpace
    ensures Overrun(nr, writeSpace) && !OverrunAsWritten(nr, writeSpace)
      <==> nr + 1 <= writeSpace < nr + RB_FRAME
  {
  }

  /** The interleaved period after the rate adjustment: the last frame sent
      twice, the last frame dropped, or the period unchanged. */
  function Adjusted(frames: seq<int>, adjust: int): (r: seq<int>)
    requires PLAYBACK_CHANNELS <= |frames| && -1 <= adjust <= 1
    ensures |r| == |frames| + 2 * adjust
    ensures adjust == 1 ==> r[..|frames|] == frames && r[|frames|..] == frames[|frames| - 2..]
    ensures adjust == -1 ==> frames == r + frames[|frames| - 2..]
    ensures adjust == 0 ==> r == frames
  {
    if adjust == 1 then frames + frames[|frames| - 2..]
    else if adjust == -1 then frames[..|frames| - 2]
    else frames
  }

  /** The rate adjustment keeps every frame but the last in place, and
      every slot after them is the matching channel of the last frame: one
      copy of it, two, or none. */
  lemma AdjustedFrames(frames: seq<int>, adjust: int)
    requires PLAYBACK_CHANNELS <= |frames| && |frames| % 2 == 0 && -1 <= adjust <= 1
    ensures var r := Adjusted(frames, adjust);
      var m := |frames| - 2;
      && |r| % 2 == 0 && m <= |r|
      && r[..m] == frames[..m]
      && forall i :: m <= i < |r| ==> r[i] == frames[m + i % 2]
  {
    var r := Adjusted(frames, adjust);
    var m := |frames| - 2;
    forall i | m <= i < |r|
      ensures r[i] == frames[m + i % 2]
    {
      if adjust == 1 && i >= |frames| {
        assert r[i] == frames[i - 2];
      }
    }
  }

  /** The interleaving loop of jack_process: sample i of port ch goes to
      dst[2 * i + ch]. */
  method Interleave(ins: seq<seq<int>>, nframes: nat, dst: array<int>)
    requires |ins| == PLAYBACK_CHANNELS && nframes <= |ins[0]| && nframes <= |ins[1]|
    requires 2 * nframes <= dst.Length
    modifies dst
    ensures dst[..2 * nframes] == Interleaved(ins, nframes)
    ensures dst[2 * nframes..] == old(dst[2 * nframes..])
  {
    var pab := 0;
    var i := 0;
    while i < nframes
      invariant 0 <= i <= nframes && pab == 2 * i
      invariant dst[..pab] == Interleaved(ins, i)
      invariant dst[2 * nframes..] == old(dst[2 * nframes..])
    {
      var ch := 0;
      while ch < PLAYBACK_CHANNELS
        invariant 0 <= ch <= 2 && pab == 2 * i + ch
        invariant dst[..2 * i] == Interleaved(ins, i)
        invariant forall c :: 0 <= c < ch ==> dst[2 * i + c] == ins[c][i]
        invariant dst[2 * nframes..] == old(dst[2 * nframes..])
      {
        dst[pab] := ins[ch][i];
        pab := pab + 1;
        ch := ch + 1;
      }
      assert dst[..pab] == dst[..2 * i] + [ins[0][i], ins[1][i]];
      i := i + 1;
    }
  }

  /** The padding loop of jack_process: from byte na of buf (in 4-byte
      slots) up to byte nr, each slot copied from one capture frame earlier;
      returns the slots added (what `ibadd` counts). */
  method PadPeriod(buf: array<int>, na: nat, nr: nat) returns (added: nat)
    requires na % 4 == 0 && nr % 4 == 0
    requires IB_FRAME <= na && na <= 4 * buf.Length && nr <= 4 * buf.Length
    modifies buf
    ensures var m := na / 4;
      var filled := Pad(old(buf[..m]), nr / 4);
      && buf[..|filled|] == filled && buf[|filled|..] == old(buf[|filled|..])
      && added == |filled| - m
  {
    var pab := na / 4;
    ghost var m := pab;
    ghost var xs := buf[..m];
    var n := na;
    added := 0;
    while n < nr
      invariant m <= pab <= buf.Length && n == 4 * pab
      invariant pab <= if m < nr / 4 then nr / 4 else m
      invariant buf[..pab] == Pad(xs, pab) && buf[pab..] == old(buf[pab..])
      invariant added == pab - m
    {
      buf[pab] := buf[pab - CAPTURE_CHANNELS];
      assert buf[..pab + 1] == Pad(xs, pab) + [Pad(xs, pab)[pab - CAPTURE_CHANNELS]];
      pab := pab + 1;
      n := n + SAMPLE_SIZE;
      added := added + 1;
    }
    assert Pad(xs, pab) == Pad(xs, nr / 4);
  }

  // ---------------------------------------------------------------------
  // The driver's state

  /** An output (playback) ISO transfer as run_audio sets it up: 2886 bytes of
      buffer, 40 packets of 72 bytes, 2880 bytes in all.  cb_out only ever
      changes the last packet and the total, and keeps them in step. */
  class OutTransfer {
    const buffer: array<Byte>
    const packets: array<int>
    var length: int

    ghost predicate Valid()
      reads this, packets
    {
      && buffer.Length == OUT_BUFFER_SIZE && packets.Length == ISO_PACKETS
      && (forall i :: 0 <= i < ISO_PACKETS - 1 ==> packets[i] == ISO_PACKET_LENGTH)
      && length == PacketSum(packets[..])
    }

    constructor ()
      ensures Valid() && fresh(buffer) && fresh(packets)
      ensures buffer[..] == Zeros(OUT_BUFFER_SIZE) && length == OUT_TRANSFER_LENGTH
      ensures forall i :: 0 <= i < ISO_PACKETS ==> packets[i] == ISO_PACKET_LENGTH
    {
      buffer := new Byte[OUT_BUFFER_SIZE](_ => 0);
      packets := new int[ISO_PACKETS](_ => ISO_PACKET_LENGTH);
      length := OUT_TRANSFER_LENGTH;
      new;
      PacketSumLast(packets[..]);
    }
  }

  /** The driver's globals and static buffers.  ib (capture, filled by
      bulk_in, drained by jack_process) and rb (playback, filled by
      jack_process, drained by cb_out) are the two ring buffers, their
      contents kept as 4-byte slots; ab and ob are the static transfer
      buffers of jack_process and cb_out. */
  class Driver {
    var running: bool
    var outDelta: int
    var ib: seq<int>
    var rb: seq<int>
    const ibCapacity: nat
    const rbCapacity: nat
    const ab: array<int>
    const ob: array<int>
    var ibadd: int
    var ibdrop: int
    var rbadd: int
    var rbdrop: int

    /** Both ring buffers within capacity, and holding whole frames. */
    ghost predicate Valid()
      reads this
    {
      && ab.Length == AB_SAMPLES && ob.Length == OB_SAMPLES && ab != ob
      && 4 * |ib| <= ibCapacity && |ib| % 10 == 0
      && 4 * |rb| <= rbCapacity && |rb| % 2 == 0
    }

    /** `jack_ringbuffer_write_space` of the two ring buffers, in bytes. */
    function IbWriteSpace(): nat
      reads this
      requires Valid()
    {
      ibCapacity - 4 * |ib|
    }

    function RbWriteSpace(): nat
      reads this
      requires Valid()
    {
      rbCapacity - 4 * |rb|
    }

    constructor (ibCapacity: nat, rbCapacity: nat)
      ensures Valid() && fresh(ab) && fresh(ob)
      ensures this.ibCapacity == ibCapacity && this.rbCapacity == rbCapacity
      ensures !running && outDelta == 0 && ib == [] && rb == []
      ensures ibadd == 0 && ibdrop == 0 && rbadd == 0 && rbdrop == 0
    {
      running := false;
      outDelta := 0;
      ib := [];
      rb := [];
      this.ibCapacity := ibCapacity;
      this.rbCapacity := rbCapacity;
      ab := new int[AB_SAMPLES](_ => 0);
      ob := new int[OB_SAMPLES](_ => 0);
      ibadd, ibdrop, rbadd, rbdrop := 0, 0, 0, 0;
    }

    /** run_audio lets jack_process run once the transfers are queued. */
    method Start()
      modifies this`running
      ensures running
    {
      running := true;
    }

    /** bulk_in: a completed bulk transfer is decoded into the capture ring
        buffer, as many rows as fit in whole frames, and queued again.  The
        write cannot fall short, so the "IN buffer error" exit is never
        taken.  A failed or cancelled transfer is dropped and not queued. */
    method BulkIn(status: TransferStatus, buffer: array<Byte>) returns (resubmit: bool)
      requires Valid() && buffer.Length == BULK_TRANSFER_SIZE
      modifies this`ib
      ensures Valid()
      ensures resubmit == (status == Completed)
      ensures ib == if status == Completed
        then old(ib) + DecodedRows(buffer[..], RowCount(old(IbWriteSpace())))
        else old(ib)
    {
      resubmit := false;
      if status == Completed {
        var nr := RowCount(IbWriteSpace());
        var a := DecodeRows(buffer, nr);
        DecodedRowsLength(buffer[..], nr);
        assert |a| == 10 * (nr / 2);
        ib := ib + a;
        resubmit := true;
      }
    }

    /** fb_in: every transfer that was not cancelled is queued again and its
        six counters are added to outDelta, less the nominal 576. */
    method FbIn(status: TransferStatus, buffer: array<Byte>) returns (resubmit: bool)
      requires Valid() && FEEDBACK_BYTES <= buffer.Length
      modifies this`outDelta
      ensures Valid()
      ensures resubmit == (status != Cancelled)
      ensures outDelta == if status == Cancelled then old(outDelta)
        else FeedbackDelta(old(outDelta), FeedbackSum(buffer[..FEEDBACK_BYTES]))
    {
      resubmit := status != Cancelled;
      if status != Cancelled {
        var fSum := SumFeedback(buffer);
        outDelta := FeedbackDelta(outDelta, fSum);
      }
    }

    /** cb_out from line 337 on: the next 480 + sd frames of the playback
        ring buffer packed into the transfer, or zeros when fewer are
        buffered (which are then left in place). */
    method FillTransfer(sd: int, t: OutTransfer)
      requires Valid() && t.Valid() && -1 <= sd <= 1 && t.length == TransferLength(sd)
      modifies this`rb, ob, t.buffer
      ensures Valid()
      ensures var n := 2 * (OUT_FRAMES + sd);
        var len := TransferLength(sd);
        && t.buffer[len..] == old(t.buffer[len..])
        && (4 * |old(rb)| < 8 * (OUT_FRAMES + sd) ==>
              rb == old(rb) && unchanged(ob) && t.buffer[..len] == Zeros(len))
        && (4 * |old(rb)| >= 8 * (OUT_FRAMES + sd) ==>
              && rb == old(rb)[n..]
              && ob[..n] == old(rb)[..n] && ob[n..] == old(ob[n..])
              && t.buffer[..len] == PackAll(old(rb)[..n]))
    {
      TransferLengths(sd);
      var nr := 8 * (OUT_FRAMES + sd);
      var nb := 4 * |rb|;
      var na := nr;
      if nb < nr {
        ZeroFill(t.buffer, t.length);
        na := 0;
      }
      if na > 0 {
        var n := na / 4;
        CopyIn(ob, rb[..n]);
        rb := rb[n..];
        PackFrames(ob, OUT_FRAMES + sd, t.buffer);
      }
    }

    /** cb_out: unless cancelled, outDelta decides sd, the transfer and its
        last packet are resized by sd frames, the transfer is filled and
        queued again. */
    method CbOut(status: TransferStatus, t: OutTransfer) returns (resubmit: bool)
      requires Valid() && t.Valid() && t.packets != ob
      modifies this`outDelta, this`rb, ob, t`length, t.packets, t.buffer
      ensures Valid() && t.Valid()
      ensures resubmit == (status != Cancelled)
      ensures status == Cancelled ==>
        && outDelta == old(outDelta) && rb == old(rb) && t.length == old(t.length)
        && unchanged(ob, t.packets, t.buffer)
      ensures status != Cancelled ==>
        var sd := OutAdjust(old(outDelta));
        var n := 2 * (OUT_FRAMES + sd);
        var len := TransferLength(sd);
        && outDelta == (if sd == 0 then old(outDelta) else 0)
        && t.length == len
        && t.packets[..] == old(t.packets[..])[ISO_PACKETS - 1 := LastPacketLength(sd)]
        && t.buffer[len..] == old(t.buffer[len..])
        && (4 * |old(rb)| < 8 * (OUT_FRAMES + sd) ==>
              rb == old(rb) && unchanged(ob) && t.buffer[..len] == Zeros(len))
        && (4 * |old(rb)| >= 8 * (OUT_FRAMES + sd) ==>
              && rb == old(rb)[n..]
              && ob[..n] == old(rb)[..n] && ob[n..] == old(ob[n..])
              && t.buffer[..len] == PackAll(old(rb)[..n]))
    {
      resubmit := status != Cancelled;
      if status == Cancelled {
        return;
      }
      var sd := OutAdjust(outDelta);
      if sd != 0 {
        outDelta := 0;
      }
      TransferLengths(sd);
      t.length := OUT_TRANSFER_LENGTH + sd * 6;
      t.packets[ISO_PACKETS - 1] := ISO_PACKET_LENGTH + sd * 6;
      PacketSumLast(t.packets[..]);
      FillTransfer(sd, t);
    }

    /** jack_process: nothing is done until the driver is running or when
        JACK asks for more than 1024 frames; otherwise one period is
        captured into the ten output ports and the two input ports are
        queued for playback.  captureSd and playbackAdjust are the
        moving-average decisions of the two halves, inputs here.  The result
        is 1 exactly when the playback write falls short ("Output buffer
        error"), which the guard of line 276 lets happen. */
    method JackProcess(nframes: nat, captureSd: int, playbackAdjust: int,
                       outs: array2<int>, ins: seq<seq<int>>) returns (code: int)
      requires Valid() && 1 <= nframes && -1 <= captureSd <= 1 && -1 <= playbackAdjust <= 1
      requires outs.Length0 == CAPTURE_CHANNELS && nframes <= outs.Length1
      requires |ins| == PLAYBACK_CHANNELS && nframes <= |ins[0]| && nframes <= |ins[1]|
      modifies this`ib, this`ibadd, this`ibdrop, this`rb, this`rbadd, this`rbdrop, ab, outs
      ensures Valid()
      ensures !running || nframes > MAX_NFRAMES ==>
        && code == 0 && ib == old(ib) && rb == old(rb) && unchanged(ab, outs)
        && ibadd == old(ibadd) && ibdrop == old(ibdrop)
        && rbadd == old(rbadd) && rbdrop == old(rbdrop)
      ensures running && nframes <= MAX_NFRAMES ==>
        var nb := 4 * |old(ib)|;
        var m := CaptureBytes(nframes, nb, captureSd) / 4;
        && m <= |old(ib)|
        && ib == old(ib)[m..]
        && ibdrop == old(ibdrop) + (if nb >= 40 * nframes && captureSd == 1 then CAPTURE_CHANNELS else 0)
        && (m == 0 ==> unchanged(outs) && ibadd == old(ibadd))
        && (m > 0 ==>
              CAPTURE_CHANNELS <= m &&
              var filled := Pad(old(ib)[..m], 10 * nframes);
              && ibadd == old(ibadd) + (|filled| - m)
              && (forall ch, i :: 0 <= ch < CAPTURE_CHANNELS && 0 <= i < nframes ==>
                    outs[ch, i] == filled[10 * i + ch])
              && (forall ch, i :: 0 <= ch < CAPTURE_CHANNELS && nframes <= i < outs.Length1 ==>
                    outs[ch, i] == old(outs[ch, i])))
        && var frames := Interleaved(ins, nframes);
        var ws := old(RbWriteSpace());
        var overrun := OverrunAsWritten(8 * nframes, ws);
        var short := !overrun && PlaybackBytes(8 * nframes, playbackAdjust) > ws;
        && code == (if short then 1 else 0)
        && (overrun ==> rb == old(rb) && rbadd == old(rbadd) && rbdrop == old(rbdrop))
        && (short ==> rb == old(rb) + frames && rbadd == old(rbadd) + 1 && rbdrop == old(rbdrop))
        && (!overrun && !short ==>
              && rb == old(rb) + Adjusted(frames, playbackAdjust)
              && rbadd == old(rbadd) + (if playbackAdjust == 1 then 1 else 0)
              && rbdrop == old(rbdrop) + (if playbackAdjust == -1 then 1 else 0))
    {
      code := 0;
      if !running || nframes > MAX_NFRAMES {
        return;
      }
      Capture(nframes, captureSd, outs);
      code := Playback(nframes, playbackAdjust, ins);
    }

    /** jack_process, lines 220-261: the capture ring buffer read into ab,
        padded to a whole period and spread over the ten output ports.
        sd is the moving-average decision (lines 232-236), an input here. */
    method Capture(nframes: nat, sd: int, outs: array2<int>)
      requires Valid() && 1 <= nframes <= MAX_NFRAMES && -1 <= sd <= 1
      requires outs.Length0 == CAPTURE_CHANNELS && nframes <= outs.Length1
      modifies this`ib, this`ibadd, this`ibdrop, ab, outs
      ensures Valid()
      ensures var nb := 4 * |old(ib)|;
        var m := CaptureBytes(nframes, nb, sd) / 4;
        && m <= |old(ib)|
        && ib == old(ib)[m..]
        && ibdrop == old(ibdrop) + (if nb >= 40 * nframes && sd == 1 then CAPTURE_CHANNELS else 0)
        && (m == 0 ==> unchanged(ab, outs) && ibadd == old(ibadd))
        && (m > 0 ==>
              CAPTURE_CHANNELS <= m &&
              var filled := Pad(old(ib)[..m], 10 * nframes);
              && ab[..|filled|] == filled && ab[|filled|..] == old(ab[|filled|..])
              && ibadd == old(ibadd) + (|filled| - m)
              && (forall ch, i :: 0 <= ch < CAPTURE_CHANNELS && 0 <= i < nframes ==>
                    outs[ch, i] == filled[10 * i + ch])
              && (forall ch, i :: 0 <= ch < CAPTURE_CHANNELS && nframes <= i < outs.Length1 ==>
                    outs[ch, i] == old(outs[ch, i])))
    {
      var nb := 4 * |ib|;
      var nr := nframes * 40;
      var na := 0;
      // with nb < nr (underrun) the period is dropped: na stays 0
      if nb >= nr {
        na := nr + sd * 40;
        na := if na > nb then nb else na;
        ibdrop := ibdrop + (if sd == 1 then CAPTURE_CHANNELS else 0);
      }
      assert na == CaptureBytes(nframes, nb, sd);
      assert nr / 4 == 10 * nframes;
      if na > 0 {
        assert nb == 40 * (|ib| / 10);
        ghost var filled := Pad(ib[..na / 4], 10 * nframes);
        ReadPeriod(na, nr);
        assert ab[..|filled|] == filled;
        Deinterleave(ab, nframes, outs);
      }
    }

    /** jack_process, lines 242-251: na bytes taken from the capture ring
        buffer into ab and padded up to nr bytes. */
    method ReadPeriod(na: nat, nr: nat)
      requires Valid() && IB_FRAME <= na <= 4 * |ib| && na % 40 == 0
      requires na <= 4 * AB_SAMPLES && nr <= 4 * AB_SAMPLES && nr % 4 == 0
      modifies this`ib, this`ibadd, ab
      ensures Valid()
      ensures var m := na / 4;
        var filled := Pad(old(ib)[..m], nr / 4);
        && ib == old(ib)[m..]
        && ab[..|filled|] == filled && ab[|filled|..] == old(ab[|filled|..])
        && ibadd == old(ibadd) + (|filled| - m)
    {
      var pab := na / 4;
      ghost var k := |ib| / 10 - na / 40;
      assert pab == 10 * (na / 40);
      CopyIn(ab, ib[..pab]);
      ib := ib[pab..];
      assert |ib| == 10 * k;
      var added := PadPeriod(ab, na, nr);
      ibadd := ibadd + added;
    }

    /** jack_process, lines 263-303: the two input ports interleaved into
        ab, then appended to the playback ring buffer; the result is
        jack_process's. */
    method Playback(nframes: nat, adjust: int, ins: seq<seq<int>>) returns (code: int)
      requires Valid() && 1 <= nframes <= MAX_NFRAMES && -1 <= adjust <= 1
      requires |ins| == PLAYBACK_CHANNELS && nframes <= |ins[0]| && nframes <= |ins[1]|
      modifies this`rb, this`rbadd, this`rbdrop, ab
      ensures Valid()
      ensures var frames := Interleaved(ins, nframes);
        var ws := old(RbWriteSpace());
        var overrun := OverrunAsWritten(8 * nframes, ws);
        var short := !overrun && PlaybackBytes(8 * nframes, adjust) > ws;
        var end := 2 * nframes + (if !overrun && adjust == 1 then PLAYBACK_CHANNELS else 0);
        && code == (if short then 1 else 0)
        && ab[..2 * nframes] == frames
        && ab[end..] == old(ab[end..])
        && (!overrun && adjust == 1 ==> ab[..end] == Adjusted(frames, adjust))
        && (overrun ==> rb == old(rb) && rbadd == old(rbadd) && rbdrop == old(rbdrop))
        && (short ==> rb == old(rb) + frames && rbadd == old(rbadd) + 1 && rbdrop == old(rbdrop))
        && (!overrun && !short ==>
              && rb == old(rb) + Adjusted(frames, adjust)
              && rbadd == old(rbadd) + (if adjust == 1 then 1 else 0)
              && rbdrop == old(rbdrop) + (if adjust == -1 then 1 else 0))
    {
      Interleave(ins, nframes, ab);
      code := Append(nframes, adjust);
    }

    /** jack_process, lines 273-303: the nframes interleaved frames at the
        start of ab appended to the playback ring buffer, one frame longer or
        shorter as adjust says (1 when the moving average is below rbtlow,
        -1 when above rbthigh: lines 283-299, an input here).  Nothing is
        written when the write space is not above nr, the guard of line 276
        as written.  When it passes but the period with its added frame does
        not fit, the write falls short and jack_process returns 1; the model
        then keeps the period and drops the part of the extra frame that
        fit. */
    method Append(nframes: nat, adjust: int) returns (code: int)
      requires Valid() && 1 <= nframes <= MAX_NFRAMES && -1 <= adjust <= 1
      modifies this`rb, this`rbadd, this`rbdrop, ab
      ensures Valid()
      ensures var frames := old(ab[..2 * nframes]);
        var ws := old(RbWriteSpace());
        var overrun := OverrunAsWritten(8 * nframes, ws);
        var short := !overrun && PlaybackBytes(8 * nframes, adjust) > ws;
        var end := 2 * nframes + (if !overrun && adjust == 1 then PLAYBACK_CHANNELS else 0);
        && code == (if short then 1 else 0)
        && ab[..2 * nframes] == frames
        && ab[end..] == old(ab[end..])
        && (!overrun && adjust == 1 ==> ab[..end] == Adjusted(frames, adjust))
        && (overrun ==> rb == old(rb) && rbadd == old(rbadd) && rbdrop == old(rbdrop))
        && (short ==> rb == old(rb) + frames && rbadd == old(rbadd) + 1 && rbdrop == old(rbdrop))
        && (!overrun && !short ==>
              && rb == old(rb) + Adjusted(frames, adjust)
              && rbadd == old(rbadd) + (if adjust == 1 then 1 else 0)
              && rbdrop == old(rbdrop) + (if adjust == -1 then 1 else 0))
    {
      ghost var frames := ab[..2 * nframes];
      var nr := nframes * RB_FRAME;
      var ws := RbWriteSpace();
      code := 0;
      if !OverrunAsWritten(nr, ws) {
        var na := AdjustPeriod(nframes, adjust);
        ShortWriteWindow(nr, ws, adjust);
        if na > ws {
          // "Output buffer error": only ws of the na bytes fit
          code := 1;
          var period := ab[..2 * nframes];
          ghost var k := |rb| / 2 + nframes;
          assert 4 * (|rb| + |period|) <= rbCapacity && |rb| + |period| == 2 * k;
          rb := rb + period;
        } else {
          var chunk := ab[..na / 4];
          ghost var k := |rb| / 2 + nframes + adjust;
          assert 4 * (|rb| + |chunk|) <= rbCapacity && |rb| + |chunk| == 2 * k;
          rb := rb + chunk;
        }
      }
    }

    /** Append with the overrun guard corrected to leave room for the extra
        frame, as line 275 intends: the period is then always written whole,
        with its frame added or dropped. */
    method AppendCorrected(nframes: nat, adjust: int)
      requires Valid() && 1 <= nframes <= MAX_NFRAMES && -1 <= adjust <= 1
      modifies this`rb, this`rbadd, this`rbdrop, ab
      ensures Valid()
      ensures var frames := old(ab[..2 * nframes]);
        var overrun := Overrun(8 * nframes, old(RbWriteSpace()));
        var end := 2 * nframes + (if !overrun && adjust == 1 then PLAYBACK_CHANNELS else 0);
        && ab[..2 * nframes] == frames
        && ab[end..] == old(ab[end..])
        && (!overrun && adjust == 1 ==> ab[..end] == Adjusted(frames, adjust))
        && (overrun ==> rb == old(rb) && rbadd == old(rbadd) && rbdrop == old(rbdrop))
        && (!overrun ==>
              && rb == old(rb) + Adjusted(frames, adjust)
              && rbadd == old(rbadd) + (if adjust == 1 then 1 else 0)
              && rbdrop == old(rbdrop) + (if adjust == -1 then 1 else 0))
    {
      ghost var frames := ab[..2 * nframes];
      var nr := nframes * RB_FRAME;
      var ws := RbWriteSpace();
      if !Overrun(nr, ws) {
        var na := AdjustPeriod(nframes, adjust);
        OverrunGuardFits(nr, ws, adjust);
        var chunk := ab[..na / 4];
        ghost var k := |rb| / 2 + nframes + adjust;
        assert 4 * (|rb| + |chunk|) <= rbCapacity && |rb| + |chunk| == 2 * k;
        rb := rb + chunk;
      }
    }

    /** jack_process, lines 286-299: the byte count of the period, and the
        duplicate of the last frame written behind it when one is added. */
    method AdjustPeriod(nframes: nat, adjust: int) returns (na: int)
      requires Valid() && 1 <= nframes <= MAX_NFRAMES && -1 <= adjust <= 1
      modifies this`rbadd, this`rbdrop, ab
      ensures Valid()
      ensures var frames := old(ab[..2 * nframes]);
        var end := 2 * nframes + (if adjust == 1 then 2 else 0);
        && na == PlaybackBytes(8 * nframes, adjust) && na / 4 == 2 * nframes + 2 * adjust
        && ab[..na / 4] == Adjusted(frames, adjust)
        && ab[..2 * nframes] == frames
        && ab[end..] == old(ab[end..])
        && rbadd == old(rbadd) + (if adjust == 1 then 1 else 0)
        && rbdrop == old(rbdrop) + (if adjust == -1 then 1 else 0)
    {
      ghost var frames := ab[..2 * nframes];
      var pab := 2 * nframes;
      na := nframes * RB_FRAME;
      if adjust == 1 {
        ab[pab] := ab[pab - 2];
        pab := pab + 1;
        ab[pab] := ab[pab - 2];
        na := na + RB_FRAME;
        rbadd := rbadd + 1;
        assert ab[..2 * nframes + 2] == frames + frames[2 * nframes - 2..];
      }
      if adjust == -1 {
        na := na - RB_FRAME;
        rbdrop := rbdrop + 1;
      }
    }
  }
}
