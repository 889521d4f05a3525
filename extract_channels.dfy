/** The reference decoder of research/extract-channels.py.

    `frame(n, l)` transposes the bit planes of one 32-byte frame into five
    24-bit samples and appends each, as three little-endian bytes, to channel
    `ch` or `ch+5` according to the parity flag n.  `extract` feeds the bytes
    of every non-comment line into a pending list, decodes each completed
    32-byte frame with parity `n & 1`, and after every such line hands all ten
    channel buffers to their wave writers and clears them.  The writers are
    modelled by a ghost log of the byte runs each one was given. */
module ExtractChannels {
  import opened Bits
  import opened Lane
  import opened HexLines

  const CHNS: nat := 10

  /** `ch+5 if n else ch`: the channel lane ch of a frame goes to. */
  function Route(n: bool, ch: nat): nat
  {
    if n then ch + LANES else ch
  }

  /** The half of the channels c lies in: `c / 5` for a channel number. */
  function Half(c: nat): nat
  {
    if c < LANES then 0 else 1
  }

  /** The lane channel c is fed from: `c % 5` for a channel number. */
  function LaneOf(c: nat): nat
  {
    if c < LANES then c else c - LANES
  }

  lemma HalfAndLane(c: nat)
    requires c < CHNS
    ensures Half(c) == c / LANES && LaneOf(c) == c % LANES
    ensures c == LANES * Half(c) + LaneOf(c)
  {
  }

  /** What `frame(n, l)` appends to channel c: lane c % 5's sample when c lies
      in the half of the channels that n selects, nothing otherwise. */
  function FrameOut(l: seq<int>, n: bool, c: nat): seq<Byte>
    requires SAMPLE_BITS <= |l| && c < CHNS
  {
    if Half(c) == (if n then 1 else 0) then Pack3(LaneValue(l, LaneOf(c))) else []
  }

  /** The routing rule: lane ch lands in `Route(n, ch)` and nowhere else. */
  lemma FrameRouting(l: seq<int>, n: bool, ch: nat, c: nat)
    requires SAMPLE_BITS <= |l| && ch < LANES && c < CHNS
    ensures Route(n, ch) < CHNS
    ensures c == Route(n, ch) ==> FrameOut(l, n, c) == Pack3(LaneValue(l, ch))
    ensures FrameOut(l, n, c) != [] <==> c == Route(n, LaneOf(c))
  {
  }

  function Flatten(runs: seq<seq<Byte>>): seq<Byte>
  {
    if runs == [] then [] else Flatten(runs[..|runs| - 1]) + runs[|runs| - 1]
  }

  /** What channel c has received once the first k frames of the byte stream
      s have been decoded, frame j with parity j % 2. */
  function Decoded(s: seq<int>, c: nat, k: nat): seq<Byte>
    requires c < CHNS && FRAME_BYTES * k <= |s|
  {
    if k == 0 then []
    else
      Decoded(s, c, k - 1)
      + FrameOut(s[FRAME_BYTES * (k - 1)..FRAME_BYTES * k], (k - 1) % 2 == 1, c)
  }

  /** Everything channel c receives from the byte stream s: only complete
      frames are decoded. */
  function ChannelStream(s: seq<int>, c: nat): seq<Byte>
    requires c < CHNS
  {
    Decoded(s, c, |s| / FRAME_BYTES)
  }

  /** Bytes after the first k frames do not change what those frames give. */
  lemma {:induction false} DecodedPrefix(s: seq<int>, t: seq<int>, c: nat, k: nat)
    requires c < CHNS && FRAME_BYTES * k <= |s|
    ensures Decoded(s + t, c, k) == Decoded(s, c, k)
  {
    if k > 0 {
      DecodedPrefix(s, t, c, k - 1);
      assert (s + t)[FRAME_BYTES * (k - 1)..FRAME_BYTES * k]
          == s[FRAME_BYTES * (k - 1)..FRAME_BYTES * k];
    }
  }

  /** How many of frames 0..k-1 have parity h. */
  function FramesOfParity(k: nat, h: nat): nat
  {
    if k == 0 then 0 else FramesOfParity(k - 1, h) + (if (k - 1) % 2 == h then 1 else 0)
  }

  /** Of the first k frames, (k + 1) / 2 are even and k / 2 odd. */
  lemma {:induction false} FramesOfParityCount(k: nat, h: nat)
    requires h < 2
    ensures FramesOfParity(k, h) == (k + 1 - h) / 2
  {
    if k > 0 {
      FramesOfParityCount(k - 1, h);
    }
  }

  /** Frame 2m + h is preceded by exactly m frames of its own parity h. */
  lemma {:induction false} FramesBefore(m: nat, h: nat)
    requires h < 2
    ensures (2 * m + h) % 2 == h && FramesOfParity(2 * m + h, h) == m
  {
    if m > 0 {
      FramesBefore(m - 1, h);
      assert (2 * m - 2 + h) % 2 == h;
      assert (2 * m - 1 + h) % 2 != h;
    }
  }

  /** Channels 0-4 get one sample from each even frame, channels 5-9 one from
      each odd frame. */
  lemma {:induction false} DecodedLength(s: seq<int>, c: nat, k: nat)
    requires c < CHNS && FRAME_BYTES * k <= |s|
    ensures |Decoded(s, c, k)| == 3 * FramesOfParity(k, Half(c))
  {
    if k > 0 {
      DecodedLength(s, c, k - 1);
      var last := FrameOut(s[FRAME_BYTES * (k - 1)..FRAME_BYTES * k], (k - 1) % 2 == 1, c);
      assert Decoded(s, c, k) == Decoded(s, c, k - 1) + last;
    }
  }

  /** The sample of channel c in frame f: lane c % 5 of the frame's 32 bytes. */
  function FrameSample(s: seq<int>, c: nat, f: nat): seq<Byte>
    requires c < CHNS && FRAME_BYTES * f + FRAME_BYTES <= |s|
  {
    Pack3(LaneValue(s[FRAME_BYTES * f..FRAME_BYTES * f + FRAME_BYTES], LaneOf(c)))
  }

  /** The last of k frames, when it has channel c's parity, adds channel c's
      m-th sample, m being the number of earlier frames of that parity. */
  lemma DecodedLastSample(s: seq<int>, c: nat, k: nat, m: nat)
    requires c < CHNS && FRAME_BYTES * k <= |s|
    requires 2 * m + Half(c) == k - 1
    ensures Decoded(s, c, k) == Decoded(s, c, k - 1) + FrameSample(s, c, k - 1)
    ensures |Decoded(s, c, k - 1)| == 3 * m
  {
    DecodedLength(s, c, k - 1);
    FramesBefore(m, Half(c));
  }

  /** The m-th sample of channel c is the lane c % 5 value of frame
      2m + c / 5: the k-th frame is decoded with parity k mod 2. */
  lemma {:induction false} DecodedSampleAt(s: seq<int>, c: nat, k: nat, m: nat)
    requires c < CHNS && FRAME_BYTES * k <= |s|
    requires 2 * m + Half(c) < k
    ensures 3 * m + 3 <= |Decoded(s, c, k)|
    ensures Decoded(s, c, k)[3 * m..3 * m + 3] == FrameSample(s, c, 2 * m + Half(c))
  {
    var prior := Decoded(s, c, k - 1);
    if 2 * m + Half(c) == k - 1 {
      DecodedLastSample(s, c, k, m);
      assert (prior + FrameSample(s, c, k - 1))[3 * m..3 * m + 3] == FrameSample(s, c, k - 1);
    } else {
      DecodedSampleAt(s, c, k - 1, m);
      var last := FrameOut(s[FRAME_BYTES * (k - 1)..FRAME_BYTES * k], (k - 1) % 2 == 1, c);
      assert Decoded(s, c, k) == prior + last;
      assert (prior + last)[3 * m..3 * m + 3] == prior[3 * m..3 * m + 3];
    }
  }

  /** Feeding one more byte decodes a frame exactly when it completes one. */
  lemma StreamStep(s: seq<int>, v: int, c: nat)
    requires c < CHNS
    ensures var s' := s + [v];
      (|s'| % FRAME_BYTES != 0 ==> ChannelStream(s', c) == ChannelStream(s, c))
      && (|s'| % FRAME_BYTES == 0 ==>
            ChannelStream(s', c)
            == ChannelStream(s, c)
               + FrameOut(s'[|s'| - FRAME_BYTES..], (|s'| / FRAME_BYTES - 1) % 2 == 1, c))
  {
    var s' := s + [v];
    var k := |s| / FRAME_BYTES;
    DecodedPrefix(s, [v], c, k);
    if |s'| % FRAME_BYTES == 0 {
      assert |s'| / FRAME_BYTES == k + 1;
      assert s'[FRAME_BYTES * k..FRAME_BYTES * (k + 1)] == s'[|s'| - FRAME_BYTES..];
    }
  }

  /** Trailing discard: fewer than 32 bytes after the last whole frame add
      nothing to any channel. */
  lemma TrailingDiscard(s: seq<int>, t: seq<int>, c: nat)
    requires c < CHNS && |s| % FRAME_BYTES == 0 && |t| < FRAME_BYTES
    ensures ChannelStream(s + t, c) == ChannelStream(s, c)
  {
    assert |s + t| / FRAME_BYTES == |s| / FRAME_BYTES;
    DecodedPrefix(s, t, c, |s| / FRAME_BYTES);
  }

  /** One byte fed to the framer, with the pending list `s[32n..]`: either the
      list is still short and no channel gains anything, or it has just
      reached 32 bytes and is decoded as frame n, with parity n mod 2. */
  lemma FeedStep(s: seq<int>, v: int, n: nat)
    requires n == |s| / FRAME_BYTES
    ensures var s', l' := s + [v], s[FRAME_BYTES * n..] + [v];
      (|l'| < FRAME_BYTES ==>
         |s'| / FRAME_BYTES == n && l' == s'[FRAME_BYTES * n..]
         && forall c :: 0 <= c < CHNS ==> ChannelStream(s', c) == ChannelStream(s, c))
      && (|l'| >= FRAME_BYTES ==>
         |l'| == FRAME_BYTES && |s'| / FRAME_BYTES == n + 1 && s'[FRAME_BYTES * (n + 1)..] == []
         && forall c :: 0 <= c < CHNS ==>
              ChannelStream(s', c) == ChannelStream(s, c) + FrameOut(l', n % 2 == 1, c))
  {
    var s', l' := s + [v], s[FRAME_BYTES * n..] + [v];
    assert |l'| == |s| - FRAME_BYTES * n + 1;
    assert l' == s'[FRAME_BYTES * n..];
    forall c | 0 <= c < CHNS
      ensures |s'| % FRAME_BYTES != 0 ==> ChannelStream(s', c) == ChannelStream(s, c)
      ensures |s'| % FRAME_BYTES == 0 ==>
        ChannelStream(s', c)
        == ChannelStream(s, c) + FrameOut(s'[|s'| - FRAME_BYTES..], (|s'| / FRAME_BYTES - 1) % 2 == 1, c)
    {
      StreamStep(s, v, c);
    }
    if |l'| >= FRAME_BYTES {
      assert |s'| == FRAME_BYTES * (n + 1);
      assert l' == s'[|s'| - FRAME_BYTES..];
    }
  }

  predicate IsComment(line: string)
  {
    |line| > 0 && line[0] == '#'
  }

  /** A line that does not parse, and the chunk `extract` stops at: its first
      chunk that is not a number. */
  predicate BadLine(line: string, chunk: string)
  {
    LineValues(line).None? && FirstBadChunk(LineChunks(line), chunk)
  }

  /** The bytes the non-comment lines feed to the framer, each line read by
      `parse`, or None when one of them does not parse. */
  function StreamOf(lines: seq<string>, parse: string -> Option<seq<int>>): Option<seq<int>>
  {
    if lines == [] then Some([])
    else
      var last := lines[|lines| - 1];
      var prior := StreamOf(lines[..|lines| - 1], parse);
      if IsComment(last) then prior
      else if prior.Some? && parse(last).Some? then Some(prior.value + parse(last).value)
      else None
  }

  lemma {:induction false} StreamOfDefined(lines: seq<string>, parse: string -> Option<seq<int>>)
    ensures StreamOf(lines, parse).Some? <==>
      forall i :: 0 <= i < |lines| && !IsComment(lines[i]) ==> parse(lines[i]).Some?
  {
    if lines != [] {
      var prior := lines[..|lines| - 1];
      StreamOfDefined(prior, parse);
      assert forall i :: 0 <= i < |prior| ==> prior[i] == lines[i];
    }
  }

  /** The bytes of a whole capture, each line read as `extract` reads it. */
  function Stream(lines: seq<string>): Option<seq<int>>
  {
    StreamOf(lines, LineValues)
  }

  /** The capture decodes exactly when every line that is not a comment
      parses. */
  lemma StreamDefined(lines: seq<string>)
    ensures Stream(lines).Some? <==>
      forall i :: 0 <= i < |lines| && !IsComment(lines[i]) ==> LineValues(lines[i]).Some?
  {
    StreamOfDefined(lines, LineValues);
  }

  /** The number of non-comment lines: one flush each. */
  function NonComments(lines: seq<string>): nat
  {
    if lines == [] then 0
    else NonComments(lines[..|lines| - 1]) + (if IsComment(lines[|lines| - 1]) then 0 else 1)
  }

  /** A comment line adds neither bytes nor a flush. */
  lemma StreamComment(prior: seq<string>, line: string)
    requires IsComment(line)
    ensures Stream(prior + [line]) == Stream(prior)
    ensures NonComments(prior + [line]) == NonComments(prior)
  {
    assert (prior + [line])[..|prior|] == prior;
  }

  /** Any other line adds its values and one flush. */
  lemma StreamLine(prior: seq<string>, line: string)
    requires !IsComment(line)
    requires Stream(prior).Some? && LineValues(line).Some?
    ensures Stream(prior + [line]) == Some(Stream(prior).value + LineValues(line).value)
    ensures NonComments(prior + [line]) == NonComments(prior) + 1
  {
    assert (prior + [line])[..|prior|] == prior;
  }

  /** One line with a bad chunk spoils the whole capture. */
  lemma StreamBad(lines: seq<string>, i: nat)
    requires i < |lines| && !IsComment(lines[i]) && LineValues(lines[i]).None?
    ensures Stream(lines).None?
  {
    StreamDefined(lines);
  }

  /** The ten channel buffers of `outs`, with the wave writers they are
      flushed to. */
  class Channels {
    /** The ten `bytearray`s: samples not yet written. */
    var bufs: seq<seq<Byte>>
    /** For each channel, the byte runs passed to `writeframes`, in order. */
    ghost var log: seq<seq<seq<Byte>>>

    ghost predicate Valid()
      reads this
    {
      |bufs| == CHNS && |log| == CHNS
    }

    /** Ten empty buffers and ten writers that have been given nothing. */
    constructor ()
      ensures Valid()
      ensures forall c :: 0 <= c < CHNS ==> bufs[c] == [] && log[c] == []
    {
      bufs := seq(CHNS, _ => []);
      log := seq(CHNS, _ => []);
    }

    /** `frame(n, l)`: decode the first 24 bytes of l and append lane ch's
        sample to channel `Route(n, ch)`; the other five buffers stay as
        they are. */
    method Frame(n: bool, l: seq<int>)
      requires Valid() && SAMPLE_BITS <= |l|
      modifies this
      ensures Valid() && log == old(log)
      ensures forall ch :: 0 <= ch < LANES ==>
        bufs[Route(n, ch)] == old(bufs[Route(n, ch)]) + Pack3(LaneValue(l, ch))
      ensures forall c :: 0 <= c < CHNS ==> bufs[c] == old(bufs[c]) + FrameOut(l, n, c)
    {
      var s := new int[LANES](_ => 0);
      for i := 0 to SAMPLE_BITS
        modifies s
        invariant forall b :: 0 <= b < LANES ==> s[b] == PlaneValue(l, b, i)
      {
        for b := 0 to LANES
          modifies s
          invariant forall b' :: 0 <= b' < b ==> s[b'] == PlaneValue(l, b', i + 1)
          invariant forall b' :: b <= b' < LANES ==> s[b'] == PlaneValue(l, b', i)
        {
          // s[b] <<= 1; s[b] |= bit: after the shift the low bit is 0, so
          // OR-ing the bit in adds it
          s[b] := s[b] * 2 + Bit(l[i], b);
        }
      }
      for ch := 0 to LANES
        modifies this
        invariant Valid() && log == old(log)
        invariant forall b :: 0 <= b < ch ==>
          bufs[Route(n, b)] == old(bufs[Route(n, b)]) + Pack3(LaneValue(l, b))
        invariant forall b :: ch <= b < LANES ==> bufs[Route(n, b)] == old(bufs[Route(n, b)])
        invariant forall c :: 0 <= c < CHNS && (LANES <= c) != n ==> bufs[c] == old(bufs[c])
      {
        var v := s[ch];
        var c := if n then ch + LANES else ch;
        bufs := bufs[c := bufs[c] + Pack3(v)];
      }
      forall c | 0 <= c < CHNS
        ensures bufs[c] == old(bufs[c]) + FrameOut(l, n, c)
      {
        if Half(c) == (if n then 1 else 0) {
          assert c == Route(n, LaneOf(c));
        }
      }
    }

    /** The end-of-line flush: every writer is given its buffer, then the
        buffer is cleared; an empty buffer is written as an empty run. */
    method Flush()
      requires Valid()
      modifies this
      ensures Valid()
      ensures forall c :: 0 <= c < CHNS ==>
        bufs[c] == [] && log[c] == old(log[c]) + [old(bufs[c])]
    {
      for c := 0 to CHNS
        invariant Valid()
        invariant forall d :: 0 <= d < c ==>
          bufs[d] == [] && log[d] == old(log[d]) + [old(bufs[d])]
        invariant forall d :: c <= d < CHNS ==> bufs[d] == old(bufs[d]) && log[d] == old(log[d])
      {
        log := log[c := log[c] + [bufs[c]]];
        bufs := bufs[c := []];
      }
    }
  }

  lemma FlattenAppend(runs: seq<seq<Byte>>, run: seq<Byte>)
    ensures Flatten(runs + [run]) == Flatten(runs) + run
  {
    assert (runs + [run])[..|runs|] == runs;
  }

  datatype Status = Finished | BadHex(line: nat, chunk: string)

  /** The writers' logs followed by the buffers hold exactly what the byte
      stream s decodes to, channel by channel. */
  ghost predicate Fed(log: seq<seq<seq<Byte>>>, bufs: seq<seq<Byte>>, s: seq<int>)
  {
    |log| == CHNS && |bufs| == CHNS
    && forall c :: 0 <= c < CHNS ==> Flatten(log[c]) + bufs[c] == ChannelStream(s, c)
  }

  /** A byte that leaves the pending list short keeps the logs and buffers
      in step with the stream. */
  lemma FedShort(log: seq<seq<seq<Byte>>>, bufs: seq<seq<Byte>>, s: seq<int>, v: int, n: nat)
    requires Fed(log, bufs, s) && n == |s| / FRAME_BYTES
    requires |s[FRAME_BYTES * n..] + [v]| < FRAME_BYTES
    ensures Fed(log, bufs, s + [v])
    ensures |s + [v]| / FRAME_BYTES == n && s[FRAME_BYTES * n..] + [v] == (s + [v])[FRAME_BYTES * n..]
  {
    FeedStep(s, v, n);
  }

  /** A byte that completes the pending list, followed by decoding it as
      frame n, keeps the logs and buffers in step with the stream. */
  lemma FedFrame(log: seq<seq<seq<Byte>>>, bufs: seq<seq<Byte>>, bufs': seq<seq<Byte>>,
                 s: seq<int>, v: int, n: nat)
    requires Fed(log, bufs, s) && n == |s| / FRAME_BYTES
    requires |s[FRAME_BYTES * n..] + [v]| >= FRAME_BYTES
    requires |bufs'| == CHNS
    requires forall c :: 0 <= c < CHNS ==>
      bufs'[c] == bufs[c] + FrameOut(s[FRAME_BYTES * n..] + [v], n % 2 == 1, c)
    ensures Fed(log, bufs', s + [v])
    ensures |s + [v]| / FRAME_BYTES == n + 1 && (s + [v])[FRAME_BYTES * (n + 1)..] == []
  {
    FeedStep(s, v, n);
  }

  /** Empty logs and empty buffers are in step with the empty stream. */
  lemma FedStart(log: seq<seq<seq<Byte>>>, bufs: seq<seq<Byte>>)
    requires |log| == CHNS && |bufs| == CHNS
    requires forall c :: 0 <= c < CHNS ==> log[c] == [] && bufs[c] == []
    ensures Fed(log, bufs, [])
  {
  }

  /** Handing every buffer to its writer and clearing it keeps logs and
      buffers in step with the stream. */
  lemma FedFlush(log: seq<seq<seq<Byte>>>, bufs: seq<seq<Byte>>,
                 log': seq<seq<seq<Byte>>>, bufs': seq<seq<Byte>>, s: seq<int>)
    requires Fed(log, bufs, s)
    requires |log'| == CHNS && |bufs'| == CHNS
    requires forall c :: 0 <= c < CHNS ==> bufs'[c] == [] && log'[c] == log[c] + [bufs[c]]
    ensures Fed(log', bufs', s)
  {
    forall c | 0 <= c < CHNS
      ensures Flatten(log'[c]) + bufs'[c] == ChannelStream(s, c)
    {
      FlattenAppend(log[c], bufs[c]);
      assert Flatten(log'[c]) + bufs'[c] == Flatten(log'[c]);
    }
  }

  /** The chunk loop of `extract` for one line: append each value to the
      pending list l and decode a frame, with parity `n & 1`, whenever l
      reaches 32 bytes.  Returns the first chunk that is not a number, if
      any, having fed the values before it. */
  method FeedChunks(outs: Channels, chunks: seq<string>, n0: nat, l0: seq<int>, ghost base: seq<int>)
    returns (n: nat, l: seq<int>, bad: Option<string>)
    requires forall k :: 0 <= k < |chunks| ==> 1 <= |chunks[k]| <= 2
    requires n0 == |base| / FRAME_BYTES && l0 == base[FRAME_BYTES * n0..]
    requires Fed(outs.log, outs.bufs, base)
    modifies outs
    ensures outs.Valid() && outs.log == old(outs.log)
    ensures bad.None? <==> ParseChunks(chunks).Some?
    ensures bad.Some? ==> bad.value in chunks && ParseHex(bad.value).None? && FirstBadChunk(chunks, bad.value)
    ensures bad.None? ==>
      var s := base + ParseChunks(chunks).value;
      n == |s| / FRAME_BYTES && l == s[FRAME_BYTES * n..] && Fed(outs.log, outs.bufs, s)
  {
    ParseChunksEach(chunks);
    n, l := n0, l0;
    ghost var vals: seq<int> := [];
    assert base + vals == base;
    var j := 0;
    while j < |chunks|
      invariant 0 <= j <= |chunks|
      invariant |vals| == j && forall k :: 0 <= k < j ==> ParseHex(chunks[k]) == Some(vals[k])
      invariant n == |base + vals| / FRAME_BYTES && l == (base + vals)[FRAME_BYTES * n..]
      invariant outs.Valid() && outs.log == old(outs.log)
      invariant Fed(outs.log, outs.bufs, base + vals)
    {
      var h := chunks[j];
      var parsed := ParseHex(h);
      if parsed.None? {
        bad := Some(h);
        assert FirstBadChunk(chunks, h) by {
          assert chunks[j] == h;
        }
        return;
      }
      var v := parsed.value;
      ghost var s := base + vals;
      assert base + (vals + [v]) == s + [v];
      if |l + [v]| < FRAME_BYTES {
        FedShort(outs.log, outs.bufs, s, v, n);
        l := l + [v];
      } else {
        l := l + [v];
        ghost var before := outs.bufs;
        outs.Frame(n % 2 == 1, l);
        FedFrame(outs.log, before, outs.bufs, s, v, n);
        n := n + 1;
        l := [];
      }
      vals := vals + [v];
      j := j + 1;
    }
    assert ParseChunks(chunks).value == vals;
    bad := None;
  }

  /** Logs in step with s and no buffered bytes: each channel's writers hold
      exactly channel c of s. */
  lemma FedEmpty(log: seq<seq<seq<Byte>>>, bufs: seq<seq<Byte>>, s: seq<int>)
    requires Fed(log, bufs, s)
    requires forall c :: 0 <= c < CHNS ==> bufs[c] == []
    ensures forall c :: 0 <= c < CHNS ==> Flatten(log[c]) == ChannelStream(s, c)
  {
    forall c | 0 <= c < CHNS
      ensures Flatten(log[c]) == ChannelStream(s, c)
    {
      assert Flatten(log[c]) + bufs[c] == Flatten(log[c]);
    }
  }

  /** After a flush: every buffer is empty and every writer has been given
      exactly one more run, its earlier runs kept as they were. */
  ghost predicate RunAdded(log0: seq<seq<seq<Byte>>>, log: seq<seq<seq<Byte>>>, bufs: seq<seq<Byte>>)
    requires |log0| == |log| == |bufs| == CHNS
  {
    forall c :: 0 <= c < CHNS ==>
      bufs[c] == [] && |log[c]| == |log0[c]| + 1 && log[c][..|log0[c]|] == log0[c]
  }

  /** The body of `extract`'s loop for a line that is not a comment: strip it,
      drop the address column, split the rest into chunks of two, feed them
      to the framer and flush every buffer.  On a bad chunk nothing is
      flushed and the remaining chunks are not looked at. */
  method FeedLine(outs: Channels, line: string, n0: nat, l0: seq<int>, ghost base: seq<int>)
    returns (n: nat, l: seq<int>, bad: Option<string>)
    requires n0 == |base| / FRAME_BYTES && l0 == base[FRAME_BYTES * n0..]
    requires Fed(outs.log, outs.bufs, base)
    requires forall c :: 0 <= c < CHNS ==> outs.bufs[c] == []
    modifies outs
    ensures outs.Valid()
    ensures bad.None? <==> LineValues(line).Some?
    ensures bad.Some? ==> BadLine(line, bad.value) && outs.log == old(outs.log)
    ensures bad.None? ==>
      var s := base + LineValues(line).value;
      n == |s| / FRAME_BYTES && l == s[FRAME_BYTES * n..] && Fed(outs.log, outs.bufs, s)
      && RunAdded(old(outs.log), outs.log, outs.bufs)
  {
    var text := Strip(line);
    var o := FindSpace(text);
    if o >= 0 {
      text := RemoveSpaces(text[o..]);
    }
    var chunks := Chunks(text);
    assert chunks == LineChunks(line);
    n, l, bad := FeedChunks(outs, chunks, n0, l0, base);
    if bad.None? {
      ghost var log, bufs := outs.log, outs.bufs;
      outs.Flush();
      FedFlush(log, bufs, outs.log, outs.bufs, base + ParseChunks(chunks).value);
    }
  }

  /** The state of `extract` after its first i lines: the stream they give
      is defined, the decoder is in step with it, every buffer has been
      flushed and each writer has been given one run per non-comment line. */
  ghost predicate ExtractedUpTo(lines: seq<string>, i: nat, log: seq<seq<seq<Byte>>>,
                                bufs: seq<seq<Byte>>, n: nat, l: seq<int>)
    requires i <= |lines|
  {
    Stream(lines[..i]).Some?
    && var s := Stream(lines[..i]).value;
    n == |s| / FRAME_BYTES && l == s[FRAME_BYTES * n..] && Fed(log, bufs, s)
    && forall c :: 0 <= c < CHNS ==> bufs[c] == [] && |log[c]| == NonComments(lines[..i])
  }

  /** One turn of `extract`'s loop on a line that is not a comment: either the
      first i+1 lines have been extracted, or the line's first bad chunk is
      reported with the writers holding exactly the earlier lines' output. */
  method ExtractLine(outs: Channels, lines: seq<string>, i: nat, n0: nat, l0: seq<int>)
    returns (n: nat, l: seq<int>, bad: Option<string>)
    requires i < |lines| && !IsComment(lines[i])
    requires ExtractedUpTo(lines, i, outs.log, outs.bufs, n0, l0)
    modifies outs
    ensures outs.Valid()
    ensures bad.None? <==> LineValues(lines[i]).Some?
    ensures bad.None? ==> ExtractedUpTo(lines, i + 1, outs.log, outs.bufs, n, l)
    ensures bad.Some? ==>
      BadLine(lines[i], bad.value)
      && forall c :: 0 <= c < CHNS ==>
           |outs.log[c]| == NonComments(lines[..i])
           && Flatten(outs.log[c]) == ChannelStream(Stream(lines[..i]).value, c)
  {
    var line := lines[i];
    assert lines[..i + 1] == lines[..i] + [line];
    ghost var base := Stream(lines[..i]).value;
    FedEmpty(outs.log, outs.bufs, base);
    n, l, bad := FeedLine(outs, line, n0, l0, base);
    if bad.None? {
      StreamLine(lines[..i], line);
    }
  }

  /** `extract`: run the whole capture through the framer.  On success every
      channel's writer has been given, one run per non-comment line, exactly
      the samples decoded for that channel, and the fewer than 32 bytes left
      pending are returned undecoded.  A chunk that is not a number stops
      the run at its line, before that line's flush. */
  method Extract(lines: seq<string>) returns (outs: Channels, status: Status, n: nat, l: seq<int>)
    ensures fresh(outs) && outs.Valid()
    ensures status.Finished? <==> Stream(lines).Some?
    ensures status.Finished? ==>
      var s := Stream(lines).value;
      n == |s| / FRAME_BYTES && l == s[FRAME_BYTES * n..] && |l| < FRAME_BYTES
      && forall c :: 0 <= c < CHNS ==>
           outs.bufs[c] == [] && |outs.log[c]| == NonComments(lines)
           && Flatten(outs.log[c]) == ChannelStream(s, c)
    ensures status.BadHex? ==>
      var i := status.line;
      i < |lines| && !IsComment(lines[i]) && BadLine(lines[i], status.chunk)
      && Stream(lines[..i]).Some?
      && forall c :: 0 <= c < CHNS ==>
           |outs.log[c]| == NonComments(lines[..i])
           && Flatten(outs.log[c]) == ChannelStream(Stream(lines[..i]).value, c)
  {
    outs := new Channels();
    n := 0;
    l := [];
    FedStart(outs.log, outs.bufs);
    var i := 0;
    while i < |lines|
      invariant 0 <= i <= |lines|
      invariant fresh(outs)
      invariant ExtractedUpTo(lines, i, outs.log, outs.bufs, n, l)
    {
      if |lines[i]| > 0 && lines[i][0] == '#' {
        assert lines[..i + 1] == lines[..i] + [lines[i]];
        StreamComment(lines[..i], lines[i]);
        i := i + 1;
        continue;
      }
      var bad;
      n, l, bad := ExtractLine(outs, lines, i, n, l);
      if bad.Some? {
        status := BadHex(i, bad.value);
        StreamBad(lines, i);
        return;
      }
      i := i + 1;
    }
    assert lines[..i] == lines;
    status := Finished;
    FedEmpty(outs.log, outs.bufs, Stream(lines).value);
  }

  /** The bit-conservation example: 24 bytes of 0x01 give lane 0 the value
      0xFFFFFF and lanes 1-4 zero. */
  lemma AllOnesExample(l: seq<int>)
    requires |l| == FRAME_BYTES
    requires forall i :: 0 <= i < SAMPLE_BITS ==> l[i] == 0x01
    ensures LaneValue(l, 0) == 0xFF_FFFF
    ensures forall b :: 1 <= b < LANES ==> LaneValue(l, b) == 0
  {
    PlaneValueAllOnes(l, 0, SAMPLE_BITS);
    Pow2Of24();
    forall b | 1 <= b < LANES ensures LaneValue(l, b) == 0 {
      assert Shr(1, b) == 0 by {
        assert Shr(1, 1) == 0;
        ShrZero(b);
      }
      PlaneValueAllZeros(l, b, SAMPLE_BITS);
    }
  }

  lemma {:induction false} ShrZero(b: nat)
    requires b >= 1
    ensures Shr(1, b) == 0
  {
    if b > 1 {
      ShrZero(b - 1);
    }
  }

  lemma BitsOfFF(b: nat)
    requires b < LANES
    ensures Bit(0xFF, b) == 1 && Bit(0, b) == 0
  {
    assert Shr(0xFF, 1) == 0x7F;
    assert Shr(0xFF, 2) == 0x3F;
    assert Shr(0xFF, 3) == 0x1F;
    assert Shr(0xFF, 4) == 0x0F;
    ShrOfZero(b);
  }

  lemma {:induction false} ShrOfZero(b: nat)
    ensures Shr(0, b) == 0
  {
    if b > 0 {
      ShrOfZero(b - 1);
    }
  }

  /** A frame whose first 24 bytes are 0x00 carries silence on every lane. */
  lemma ZeroFrame(l: seq<int>, b: nat)
    requires |l| == FRAME_BYTES && b < LANES
    requires forall i :: 0 <= i < SAMPLE_BITS ==> l[i] == 0x00
    ensures LaneValue(l, b) == 0
  {
    BitsOfFF(b);
    PlaneValueAllZeros(l, b, SAMPLE_BITS);
  }

  /** A frame whose first 24 bytes are 0xFF carries 0xFFFFFF on every lane. */
  lemma OnesFrame(l: seq<int>, b: nat)
    requires |l| == FRAME_BYTES && b < LANES
    requires forall i :: 0 <= i < SAMPLE_BITS ==> l[i] == 0xFF
    ensures LaneValue(l, b) == 0xFF_FFFF
  {
    BitsOfFF(b);
    Pow2Of24();
    PlaneValueAllOnes(l, b, SAMPLE_BITS);
  }

  /** The end-to-end scenario: a frame whose first 24 bytes are 0x00 followed
      by one whose first 24 bytes are 0xFF gives channels 0-4 the sample
      00 00 00 and channels 5-9 the sample FF FF FF. */
  lemma TwoFrameScenario(s: seq<int>, c: nat)
    requires |s| == 2 * FRAME_BYTES && c < CHNS
    requires forall i :: 0 <= i < SAMPLE_BITS ==> s[i] == 0x00
    requires forall i :: FRAME_BYTES <= i < FRAME_BYTES + SAMPLE_BITS ==> s[i] == 0xFF
    ensures c < LANES ==> ChannelStream(s, c) == [0x00, 0x00, 0x00]
    ensures c >= LANES ==> ChannelStream(s, c) == [0xFF, 0xFF, 0xFF]
  {
    var f0 := s[..FRAME_BYTES];
    var f1 := s[FRAME_BYTES..];
    assert s[0..FRAME_BYTES] == f0 && s[FRAME_BYTES..2 * FRAME_BYTES] == f1;
    assert |s| / FRAME_BYTES == 2;
    assert Decoded(s, c, 1) == FrameOut(f0, false, c);
    assert ChannelStream(s, c) == FrameOut(f0, false, c) + FrameOut(f1, true, c);
    if c < LANES {
      ZeroFrame(f0, c);
      assert FrameOut(f0, false, c) == Pack3(0);
    } else {
      OnesFrame(f1, LaneOf(c));
      assert FrameOut(f1, true, c) == Pack3(0xFF_FFFF);
    }
  }
}
