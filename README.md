# Alesis MultiMix USB audio: the bulk format and the driver's sample paths

The Alesis MultiMix 8/12 USB 2.0 mixers send ten capture channels (24-bit,
96 kHz) as a USB bulk stream in a bit-transposed format. Each 32-byte row
holds five samples: bit b (0..4) of bytes 0..23 carries the 24 bits of lane
b, most significant bit first, and bytes 24..31 are padding. Two rows make one
frame, with channels 0-4 in the even row and 5-9 in the odd row. Two
stereo channels go back to the mixer as S24_3LE in isochronous transfers
sized by a feedback endpoint.

This project models and proves:

* **The Python reference decoder** `research/extract-channels.py`. It covers
  the line normalisation in module `HexLines`: `strip`, hexdump address
  removal, 2-character chunks and `int(h, 16)`, including Python's sign and
  whitespace forms. The framer (`frame`, `extract`) is in module
  `ExtractChannels`. Its ten output buffers are a class, `Channels`, and each
  wave writer is a ghost log of the byte runs it was given. The main result
  is `Extract`: on success, each channel's writer received exactly the
  samples a reference definition (`ChannelStream`) decodes for that channel,
  one run per non-comment line. A chunk that is not a number stops the run at
  its line.
* **The integer logic of the JACK driver** `jackd_alesis_multimix.c`. Module
  `MultimixDriver` covers:
  * `bulk_in`'s row clamp and bit-plane decode into the capture ring buffer;
  * `cb_out`'s `sd` decision, transfer and last-packet sizing, and packing to
    S24_3LE;
  * `fb_in`'s feedback accumulation, with unsigned wrap-around;
  * `jack_process`'s capture read, its padding and deinterleave, and the
    playback interleave, frame add/drop and write into the playback ring
    buffer.

  The ring buffers are kept as sequences of 4-byte sample slots. The driver's
  globals and static buffers are the fields of class `Driver`.

The driver model follows the playback overrun guard of line 276 as written (see Findings). `Driver.AppendCorrected` is the corrected write.

`alesis_jackd_plugin.c` is byte-identical to `jackd_alesis_multimix.c`, so
each row below uses one of the two for its citation. The line numbers are the
same in both.

Module `Lane` holds the bit-plane transpose and the 3-byte packing shared by
both programs. Module `Bits` holds Python/C shifts, C's truncating `/` and
32-bit two's-complement wrap-around.

C arithmetic that can overflow is written out:

* `sample<<8` on a 24-bit value above 0x7FFFFF overflows `int`. It is modelled
  as the wrap-around gcc produces (`Wrap32`), which equals `256 * Signed24(v)`.
* `fb_in`'s unsigned sum, less 576, is added to the signed `outDelta`. This is
  modelled as `Wrap32` of the exact sum.
* `outDelta/fbAdjust` truncates towards zero (`TruncDiv`).

## Model

| member | source | states |
|---|---|---|
| Bits.Wrap32 | jackd_alesis_multimix.c:431 | the value is a 32-bit int congruent to the exact value mod 2^32, and equals it when in range |
| Bits.TruncDiv | alesis_jackd_plugin.c:329 | C's quotient: the remainder has the dividend's sign and is smaller than the divisor |
| Bits.BitOfDouble | research/extract-channels.py:22-23 | shifting a value up and OR-ing in a bit puts that bit at 0 and moves every other bit up one |
| Lane.PlaneValueBound | research/extract-channels.py:19-23 | after k rounds of shift-and-OR the accumulator is below 2^k |
| Lane.LaneValue | research/extract-channels.py:19-23 | a lane's accumulated sample is a 24-bit value |
| Lane.PlaneValueBit | research/extract-channels.py:20-23 | bit 23-i of lane b's sample is bit b of byte i: byte 0 is the most significant |
| Lane.PlaneValueOnlyPlane | research/extract-channels.py:20-23 | a lane's sample depends only on that lane's bit of the 24 data bytes |
| Lane.PlaneValueAllOnes | research/extract-channels.py:20-23 | a lane whose bit is set in every byte gives 0xFFFFFF |
| Lane.PlaneValueAllZeros | research/extract-channels.py:20-23 | a lane whose bit is clear in every byte gives 0 |
| Lane.Pack3Low24 | research/extract-channels.py:28 | the three packed bytes read back as exactly the low 24 bits of the value, negative values included |
| Lane.Pack3RoundTrip | research/extract-channels.py:28 | a 24-bit sample is recovered from its three little-endian bytes |
| Lane.Unpack3RoundTrip | research/extract-channels.py:28 | three bytes are recovered from the value they encode |
| Lane.Signed24 | jackd_alesis_multimix.c:431 | the two's-complement reading of a 24-bit pattern: in signed 24-bit range and congruent to it mod 2^24 |
| Lane.Pack3Signed | alesis_jackd_plugin.c:354-359 | a signed 24-bit sample survives packing and signed readback |
| HexLines.StripLeft | research/extract-channels.py:46 | the result is a suffix of the line that starts with a non-space |
| HexLines.StripLeftRemovesSpace | research/extract-channels.py:46 | everything removed on the left is whitespace |
| HexLines.StripRight | research/extract-channels.py:46 | the result is a prefix of the line that ends with a non-space |
| HexLines.StripRightRemovesSpace | research/extract-channels.py:46 | everything removed on the right is whitespace |
| HexLines.Strip | research/extract-channels.py:46 | the stripped line is empty or starts and ends with a non-space |
| HexLines.StripIsInfix | research/extract-channels.py:46 | the stripped line is a slice of the line with only whitespace on either side |
| HexLines.FindSpace | research/extract-channels.py:47 | -1 exactly when there is no space, otherwise the index of the first space |
| HexLines.RemoveSpaces | research/extract-channels.py:49 | the result has no space, and a line without spaces is unchanged |
| HexLines.RemoveSpacesAppend | research/extract-channels.py:49 | removing spaces distributes over concatenation |
| HexLines.DropAddress | research/extract-channels.py:47-49 | the result has no space, and a line without a space is kept whole |
| HexLines.DropAddressOfHexdump | research/extract-channels.py:45-49 | an address, a space and data give the data with its spaces removed |
| HexLines.Chunks | research/extract-channels.py:51 | ceil(n/2) chunks, all of length 2 except a last odd one of length 1 |
| HexLines.ChunksConcat | research/extract-channels.py:51 | the chunks concatenate back to the line |
| HexLines.HexDigit | research/extract-channels.py:52 | a hex digit's value is below 16 |
| HexLines.ParseHex | research/extract-channels.py:52 | int(h, 16) on a 1-2 character chunk: two hex digits give their byte, and a single character parses exactly when it is a hex digit, to that digit's value. A sign or an int() whitespace before a digit, or whitespace after it, gives that digit, negated after a minus. A chunk is accepted only in one of these forms, so a chunk without a digit is an error |
| HexLines.SeparatorNotSkipped | research/extract-channels.py:52 | U+001C..U+001F are whitespace to strip() but not to int(), so next to a digit they make the chunk an error |
| HexLines.FormatByte | research/extract-channels.py:5-6 | a byte printed as two hex digits, as tshark prints capture data |
| HexLines.ParseFormatByte | research/extract-channels.py:52 | parsing a printed byte gives the byte back |
| HexLines.ParseChunks | research/extract-channels.py:51-52 | a parsed line has one value per chunk |
| HexLines.ParseChunksEach | research/extract-channels.py:51-52 | a line parses exactly when every chunk does, and each value is its chunk's |
| HexLines.FirstBadChunkExists | research/extract-channels.py:51-52 | a line whose chunks do not all parse has a first chunk that is not a number |
| HexLines.FirstBadChunkUnique | research/extract-channels.py:51-52 | that first bad chunk is unique |
| HexLines.LineChunks | research/extract-channels.py:46-51 | every chunk of a normalised line has one or two characters |
| HexLines.CapLine | research/extract-channels.py:5-6 | a capture line of n bytes is 2n hex digits |
| HexLines.ChunksOfCapLine | research/extract-channels.py:51 | a capture line is cut into exactly its printed bytes |
| HexLines.ParseFormatted | research/extract-channels.py:52 | parsing the printed bytes gives the bytes back |
| HexLines.CapLineValues | research/extract-channels.py:46-52 | round trip: a tshark capture line is read back as its bytes |
| HexLines.StripCapLine | research/extract-channels.py:46-49 | stripping a capture line removes only the newline, and it has no space |
| ExtractChannels.HalfAndLane | research/extract-channels.py:25-28 | channel c is lane c mod 5 of the even (c < 5) or odd (c >= 5) frame |
| ExtractChannels.FrameRouting | research/extract-channels.py:25-28 | a frame gives channel Route(n, ch) the packed sample of lane ch, and only the five channels of its parity get anything |
| ExtractChannels.DecodedPrefix | research/extract-channels.py:53-56 | decoding the first k frames does not depend on later bytes |
| ExtractChannels.FramesOfParityCount | research/extract-channels.py:53-55 | among frames 0..k-1, (k+1-h)/2 have parity h |
| ExtractChannels.FramesBefore | research/extract-channels.py:53-55 | frame 2m+h has parity h and is preceded by m frames of that parity |
| ExtractChannels.DecodedLength | research/extract-channels.py:53-56 | a channel gets 3 bytes for each frame of its parity |
| ExtractChannels.DecodedLastSample | research/extract-channels.py:53-56 | a frame of the channel's parity appends its sample after 3m bytes |
| ExtractChannels.DecodedSampleAt | research/extract-channels.py:53-56 | bytes 3m..3m+3 of channel c are the sample of frame 2m + Half(c) |
| ExtractChannels.StreamStep | research/extract-channels.py:51-56 | a byte changes a channel's stream only when it completes a frame, which then appends that frame's output |
| ExtractChannels.TrailingDiscard | research/extract-channels.py:53-56 | fewer than 32 trailing bytes decode to nothing |
| ExtractChannels.FeedStep | research/extract-channels.py:52-56 | the pending list is always the bytes after the last whole frame, and the frame counter is the number of whole frames |
| ExtractChannels.StreamOfDefined | research/extract-channels.py:41-52 | the byte stream of a capture is defined exactly when every non-comment line parses |
| ExtractChannels.StreamDefined | research/extract-channels.py:41-52 | the same for the decoder's own line reading |
| ExtractChannels.StreamComment | research/extract-channels.py:43-44 | a comment line adds no bytes and no flush |
| ExtractChannels.StreamLine | research/extract-channels.py:41-52 | a non-comment line appends its values to the stream and adds one flush |
| ExtractChannels.StreamBad | research/extract-channels.py:52 | a line that does not parse makes the whole capture undefined |
| ExtractChannels.Channels.constructor | research/extract-channels.py:32-38 | ten empty buffers and ten writers that have been given nothing |
| ExtractChannels.Channels.Frame | research/extract-channels.py:17-28 | each lane's sample is appended, packed, to Route(n, lane), and the other five buffers are unchanged |
| ExtractChannels.Channels.Flush | research/extract-channels.py:58-60 | each writer is given its buffer, and the buffer is cleared |
| ExtractChannels.FlattenAppend | research/extract-channels.py:58-60 | a writer's output grows by the run it is given |
| ExtractChannels.FedShort | research/extract-channels.py:52-53 | a byte that does not complete a frame keeps the decoder invariant |
| ExtractChannels.FedFrame | research/extract-channels.py:53-56 | a byte that completes a frame, and that frame's output, keep the decoder invariant with the counter one higher |
| ExtractChannels.FedStart | research/extract-channels.py:39-40 | the invariant holds for the empty stream |
| ExtractChannels.FedFlush | research/extract-channels.py:58-60 | flushing keeps the invariant |
| ExtractChannels.FeedChunks | research/extract-channels.py:51-56 | the chunks of a line feed the framer: on success the state is that of the extended stream; otherwise it reports the first chunk that is not a number |
| ExtractChannels.FedEmpty | research/extract-channels.py:57-60 | with the buffers empty, each writer has been given exactly its channel stream |
| ExtractChannels.FeedLine | research/extract-channels.py:41-61 | one line: normalised, fed and flushed on success, so each writer keeps its earlier runs and is given exactly one more; or an error on its first chunk that is not a number, before the flush, with no writer given anything |
| ExtractChannels.ExtractLine | research/extract-channels.py:41-61 | one turn of the loop on a non-comment line: either one more line has been extracted, or the line's first bad chunk is reported while the writers hold exactly the earlier lines' output |
| ExtractChannels.Extract | research/extract-channels.py:30-63 | each writer is given its channel's decoded samples, one run per non-comment line, with the undecoded tail returned; or the first bad line and its first bad chunk, after the lines before it were fully written |
| ExtractChannels.AllOnesExample | research/extract-channels.py:17-28 | 24 bytes of 0x01 give lane 0 the value 0xFFFFFF and lanes 1-4 zero |
| ExtractChannels.ZeroFrame | research/extract-channels.py:20-23 | an all-zero frame decodes to zero in every lane |
| ExtractChannels.OnesFrame | research/extract-channels.py:20-23 | an all-0xFF frame decodes to 0xFFFFFF in every lane |
| ExtractChannels.TwoFrameScenario | research/extract-channels.py:53-56 | a zero even frame and an 0xFF odd frame give channels 0-4 zero and 5-9 0xFFFFFF |
| MultimixDriver.RowCount | jackd_alesis_multimix.c:406-412 | an even row count that fits the write space in whole frames, at most 4096, and maximal |
| MultimixDriver.RowSample | jackd_alesis_multimix.c:431 | sample<<8 is 256 times the signed 24-bit reading, in int range |
| MultimixDriver.DecodedRowsAt | jackd_alesis_multimix.c:414-436 | slot 5r+ch of the decoded rows is lane ch of row r |
| MultimixDriver.DecodedRowsLength | alesis_jackd_plugin.c:414-436 | nr rows give 5nr slots |
| MultimixDriver.CaptureFrameSlot | jackd_alesis_multimix.c:401-404 | slot c of capture frame f is lane c mod 5 of row 2f + (c >= 5): the even/odd routing of the Python decoder |
| MultimixDriver.AssembleRow | alesis_jackd_plugin.c:419-428 | the shift-and-OR loop gives each lane's 24-bit plane value |
| MultimixDriver.DecodeRows | jackd_alesis_multimix.c:414-436 | the temp buffer holds the decoded rows |
| MultimixDriver.OutAdjust | alesis_jackd_plugin.c:329-330 | sd is 1 exactly when outDelta >= 3, -1 exactly when outDelta <= -3, else 0 |
| MultimixDriver.AdjustSettles | jackd_alesis_multimix.c:329-333 | after the reset, the accumulator asks for no further adjustment |
| MultimixDriver.PacketSumNominal | alesis_jackd_plugin.c:335-336 | k nominal packets total 72k bytes |
| MultimixDriver.PacketSumLast | jackd_alesis_multimix.c:335-336 | 39 nominal packets plus the last one total 2808 plus the last one's length |
| MultimixDriver.TransferLengths | alesis_jackd_plugin.c:334-336 | the resized last packet keeps the packets' total equal to the transfer length, 6 bytes per frame, within the 2886-byte buffer |
| MultimixDriver.PackSampleBits | jackd_alesis_multimix.c:354-359 | the three bytes emitted are bits 8-31 of the sample, and read back signed as sample>>8 |
| MultimixDriver.PackRowSample | alesis_jackd_plugin.c:354-359 | packing a decoded capture sample gives back its 24-bit pattern |
| MultimixDriver.PackAllAt | jackd_alesis_multimix.c:352-362 | bytes 3k..3k+2 of the packed buffer are sample k's |
| MultimixDriver.PackAllLength | alesis_jackd_plugin.c:352-362 | three bytes per sample |
| MultimixDriver.EmitSample | jackd_alesis_multimix.c:355-359 | the byte loop writes one sample's three bytes and nothing else |
| MultimixDriver.EmitFrame | alesis_jackd_plugin.c:353-361 | the channel loop writes one frame's six bytes and nothing else |
| MultimixDriver.PackFrames | jackd_alesis_multimix.c:350-362 | the frame loop writes the packed frames and leaves the rest of the buffer unchanged |
| MultimixDriver.ZeroFill | jackd_alesis_multimix.c:343 | the first n bytes are zeroed and the rest unchanged |
| MultimixDriver.CopyIn | alesis_jackd_plugin.c:348 | the ring buffer read copies the slots into the front of the buffer |
| MultimixDriver.FeedbackSumBound | jackd_alesis_multimix.c:381-385 | the sum of k byte counters is at most 255k |
| MultimixDriver.SumFeedback | alesis_jackd_plugin.c:381-385 | the loop sums the six feedback counters |
| MultimixDriver.FeedbackDelta | jackd_alesis_multimix.c:386 | the unsigned detour gives the 32-bit wrap of the exact sum, which is the exact sum when in range |
| MultimixDriver.Wrap32Congruent | alesis_jackd_plugin.c:386 | values congruent mod 2^32 wrap to the same int |
| MultimixDriver.FeedbackLoop | jackd_alesis_multimix.c:381-386 | from a settled accumulator, the next transfer is adjusted up exactly when the counters exceed 576 by 3 or more, and down by 3 or more |
| MultimixDriver.FeedbackSumConstant | alesis_jackd_plugin.c:381-386 | six counters of 96 give the nominal 576 |
| MultimixDriver.CaptureBytes | jackd_alesis_multimix.c:219-239 | nothing on underrun; otherwise exactly the period adjusted by sd frames, except that a period one frame longer is cut to what is buffered; zero exactly on underrun or a one-frame period cut to nothing |
| MultimixDriver.Pad | alesis_jackd_plugin.c:245-251 | the samples read, padded up to the period |
| MultimixDriver.PadAt | jackd_alesis_multimix.c:245-251 | each padded slot repeats the slot one capture frame earlier, so slot k repeats slot k mod 10 of the last frame read |
| MultimixDriver.PadRepeatsLastFrame | alesis_jackd_plugin.c:245-251 | every padded frame is a copy of the last frame read |
| MultimixDriver.PadPeriod | jackd_alesis_multimix.c:245-251 | the padding loop fills ab up to the period as Pad says and returns the number of samples added |
| MultimixDriver.Deinterleave | alesis_jackd_plugin.c:252-259 | port ch's sample i is slot 10i+ch of the buffer, and the rest of each port is unchanged |
| MultimixDriver.Interleaved | jackd_alesis_multimix.c:264-272 | two samples per frame |
| MultimixDriver.InterleavedAt | alesis_jackd_plugin.c:264-272 | slot 2i+ch is port ch's sample i |
| MultimixDriver.Interleave | jackd_alesis_multimix.c:264-272 | the loop writes the interleaved frames to the front of ab and nothing else |
| MultimixDriver.OverrunGuardFits | alesis_jackd_plugin.c:275-300 | under the corrected guard the bytes written, the extra frame included, always fit the write space |
| MultimixDriver.OverrunAsWrittenShortWrite | jackd_alesis_multimix.c:276 | with the guard as written, write space in nr+1..nr+7 passes, but a period with its extra frame does not fit |
| MultimixDriver.OverrunAsWrittenExample | alesis_jackd_plugin.c:276 | a one-frame period with 15 bytes free passes the guard as written and then needs 16 |
| MultimixDriver.ShortWriteWindow | jackd_alesis_multimix.c:276-303 | under the guard as written the write falls short exactly when a frame is added and the write space is nr+1..nr+7, the only spaces where the two guards differ; otherwise the period fits |
| MultimixDriver.AdjustedFrames | alesis_jackd_plugin.c:286-299 | the rate adjustment keeps every frame but the last in place, and every slot after them repeats the matching channel of the last frame |
| MultimixDriver.OutTransfer.constructor | alesis_jackd_plugin.c:500-506 | a zeroed 2886-byte buffer, 40 packets of 72 bytes, 2880 bytes in all |
| MultimixDriver.Driver.constructor | jackd_alesis_multimix.c:708-709 | empty ring buffers of the given capacities, zeroed counters, not yet running |
| MultimixDriver.Driver.Start | alesis_jackd_plugin.c:520 | jack_process may now run |
| MultimixDriver.Driver.BulkIn | jackd_alesis_multimix.c:390-445 | a completed transfer appends its decoded rows (as many whole frames as fit) to the capture ring buffer and is queued again; anything else changes nothing and is not queued |
| MultimixDriver.Driver.FbIn | alesis_jackd_plugin.c:371-388 | every transfer that was not cancelled is queued again and adds its counters less 576 to outDelta |
| MultimixDriver.Driver.FillTransfer | jackd_alesis_multimix.c:337-363 | on playback underrun, zeros and the ring buffer untouched; otherwise the next 480+sd frames are taken from the ring buffer and packed |
| MultimixDriver.Driver.CbOut | alesis_jackd_plugin.c:319-368 | a cancelled transfer changes nothing; otherwise sd from outDelta, a reset when it is non-zero, the transfer resized to match its packets, filled and queued again |
| MultimixDriver.Driver.JackProcess | jackd_alesis_multimix.c:202-310 | nothing happens, with result 0, until running or with more than 1024 frames; otherwise the capture and playback halves below, and the result is 1 exactly when the playback write falls short |
| MultimixDriver.Driver.Capture | alesis_jackd_plugin.c:219-260 | the capture ring buffer loses exactly the samples read; ports get the padded period frame by frame; underrun leaves the ports and ab untouched; the add/drop counters are kept |
| MultimixDriver.Driver.ReadPeriod | jackd_alesis_multimix.c:242-251 | the read moves the samples from the ring buffer to ab and pads them to the period |
| MultimixDriver.Driver.Playback | alesis_jackd_plugin.c:262-303 | the input ports are interleaved, then appended as Append says, with Append's result |
| MultimixDriver.Driver.Append | jackd_alesis_multimix.c:273-303 | with line 276's guard as written: nothing is written when the space is not above nr; a short write (frame added, space nr+1..nr+7) gives result 1 and keeps the period; otherwise the period with its frame added or dropped is appended, and the counters say which |
| MultimixDriver.Driver.AppendCorrected | alesis_jackd_plugin.c:273-300 | with the guard corrected to leave room for a frame: either nothing is written or the whole adjusted period is appended |
| MultimixDriver.Driver.AdjustPeriod | alesis_jackd_plugin.c:286-299 | the byte count of the period, and a copy of the last frame after it when one is added |

## Left out

- Wave files, `print(n)`, argument handling and file and stdin reading in the Python decoder are I/O. A wave writer is modelled by the log of the runs it was given.
- Python's `int()` accepts non-ASCII Unicode digits. Only the ASCII digits are modelled, so a chunk holding any other digit is an error here. The whitespace `int()` skips is modelled: the ASCII whitespace, and the non-ASCII whitespace it turns into a space. The separators U+001C..U+001F are rejected, as `int()` rejects them.
- The USB and JACK plumbing is not modelled: libusb setup, control transfers, device discovery, the event loop, logging and statistics printing. `Driver.Start` stands for the `running=1` of the loop.
- Callbacks are modelled one at a time, as methods. The concurrency between the libusb thread and the JACK thread is not modelled.
- Floating point is not modelled: the `/(float)INT_MAX` and `*((float)INT_MAX)` conversions are left out. The ring buffers hold the integer samples, and a value that crosses both conversions is assumed to come back unchanged.
- The moving averages `ibavg` and `rbavg`, and `jack_frames_since_cycle_start`, are not modelled. Their decisions are inputs: `sd` on the capture side and `adjust` on the playback side.
- The JACK ring buffer's byte layout, wrap point and power-of-two rounding of its size are not modelled. A ring buffer is a sequence of 4-byte slots with a capacity in bytes, which stands for `jack_ringbuffer_write_space`.
- Driver.BulkIn: reads its rows from the start of the 128 KiB buffer whatever the transfer's `actual_length` is, as `bulk_in` does. A short transfer is not modelled.
- Resubmission is a returned flag. `libusb_submit_transfer`'s own failure is not modelled.
- Driver.JackProcess requires nframes >= 1. With 0 frames the source reads before `ab` and writes a negative length.
- The "IN buffer error" (`done=1`) branch is not modelled. The row clamp makes it unreachable.
- Driver.Append: on the short write that line 276 lets through (a frame added, 1 to 7 bytes short), the source also writes the first 1 to 7 bytes of the duplicated frame, which puts every later sample in the ring buffer out of step. The model's ring buffer holds whole 4-byte slots, so it appends the period alone. It returns 1, as the source does.
- Driver.JackProcess: does not state what is left in `ab` afterwards, which only jack_process reads, and always before writing it.

## Findings

| source | as written | input that shows it | evidently intended | confidence | as-written member | corrected member |
|---|---|---|---|---|---|---|
| jackd_alesis_multimix.c:276 | the overrun guard is `(nr+1) > write_space`, which leaves room for one byte extra, while line 275 says it allows for an extra frame, and line 292 can add 8 bytes | nframes = 1, write space 15: the guard passes, the low moving average adds a frame, only 15 of the 16 bytes are written, and jack_process returns 1 | `nr + rbframe > write_space` | not executed | MultimixDriver.OverrunAsWrittenShortWrite | MultimixDriver.OverrunGuardFits |
