/** Turning one text line of a capture into byte values, as
    research/extract-channels.py does before framing: strip the line, drop a
    hexdump address (everything before the first space) together with every
    space, cut the rest into 2-character chunks and read each chunk with
    Python's `int(chunk, 16)`. */
module HexLines {

  datatype Option<T> = None | Some(value: T)

  /** Python's `str.isspace()`: the characters `strip()` removes. */
  predicate IsSpace(c: char)
  {
    var k := c as int;
    (9 <= k <= 13) || (0x1c <= k <= 0x20) || k == 0x85 || k == 0xa0 || k == 0x1680
    || (0x2000 <= k <= 0x200a) || k == 0x2028 || k == 0x2029 || k == 0x202f
    || k == 0x205f || k == 0x3000
  }

  /** The whitespace Python's `int()` skips around its digits: it first turns
      every non-ASCII whitespace character into a space and then skips only the
      ASCII whitespace " \t\n\v\f\r", so the separators U+001C..U+001F,
      which `str.isspace()` accepts, are rejected. */
  predicate IntSpace(c: char)
  {
    IsSpace(c) && !(0x1c <= c as int <= 0x1f)
  }

  /** `s.lstrip()`. */
  function StripLeft(s: string): (r: string)
    ensures |r| <= |s| && r == s[|s| - |r|..]
    ensures r == [] || !IsSpace(r[0])
  {
    if s != [] && IsSpace(s[0]) then StripLeft(s[1..]) else s
  }

  /** What `lstrip()` removes is whitespace. */
  lemma {:induction false} StripLeftRemovesSpace(s: string)
    ensures forall i :: 0 <= i < |s| - |StripLeft(s)| ==> IsSpace(s[i])
  {
    if s != [] && IsSpace(s[0]) {
      StripLeftRemovesSpace(s[1..]);
      assert forall i :: 1 <= i < |s| ==> s[i] == s[1..][i - 1];
    }
  }

  /** `s.rstrip()`. */
  function StripRight(s: string): (r: string)
    ensures |r| <= |s| && r == s[..|r|]
    ensures r == [] || !IsSpace(r[|r| - 1])
  {
    if s != [] && IsSpace(s[|s| - 1]) then StripRight(s[..|s| - 1]) else s
  }

  /** What `rstrip()` removes is whitespace. */
  lemma {:induction false} StripRightRemovesSpace(s: string)
    ensures forall i :: |StripRight(s)| <= i < |s| ==> IsSpace(s[i])
  {
    if s != [] && IsSpace(s[|s| - 1]) {
      StripRightRemovesSpace(s[..|s| - 1]);
    }
  }

  /** `s.strip()`: `rstrip()` after `lstrip()`. */
  function Strip(s: string): (r: string)
    ensures |r| <= |s|
    ensures r == [] || (!IsSpace(r[0]) && !IsSpace(r[|r| - 1]))
  {
    StripRight(StripLeft(s))
  }

  /** `strip()` keeps an infix of s and removes only whitespace around it. */
  lemma StripIsInfix(s: string)
    ensures var r := Strip(s);
      exists i :: (0 <= i <= |s| - |r| && s[i..][..|r|] == r
                   && (forall k :: 0 <= k < i ==> IsSpace(s[k]))
                   && (forall k :: i + |r| <= k < |s| ==> IsSpace(s[k])))
  {
    var left := StripLeft(s);
    var r := StripRight(left);
    var i := |s| - |left|;
    StripLeftRemovesSpace(s);
    StripRightRemovesSpace(left);
    assert left == s[i..];
    assert s[i..][..|r|] == r;
    forall k | i + |r| <= k < |s|
      ensures IsSpace(s[k])
    {
      assert s[k] == left[k - i];
    }
  }

  /** `s.find(' ')`: the index of the first space, or -1. */
  function FindSpace(s: string): (r: int)
    ensures -1 <= r < |s|
    ensures r == -1 <==> ' ' !in s
    ensures r >= 0 ==> s[r] == ' ' && ' ' !in s[..r]
  {
    if s == [] then -1
    else if s[0] == ' ' then 0
    else
      var r := FindSpace(s[1..]);
      assert s[1..][..if r < 0 then 0 else r] == s[1..1 + if r < 0 then 0 else r];
      if r < 0 then -1 else r + 1
  }

  /** `s.replace(' ', '')`. */
  function RemoveSpaces(s: string): (r: string)
    ensures ' ' !in r
    ensures |r| <= |s|
    ensures ' ' !in s ==> r == s
  {
    if s == [] then []
    else if s[0] == ' ' then RemoveSpaces(s[1..])
    else [s[0]] + RemoveSpaces(s[1..])
  }

  /** Removing spaces commutes with concatenation. */
  lemma {:induction false} RemoveSpacesAppend(a: string, b: string)
    ensures RemoveSpaces(a + b) == RemoveSpaces(a) + RemoveSpaces(b)
  {
    if a != [] {
      assert (a + b)[0] == a[0];
      assert (a + b)[1..] == a[1..] + b;
      RemoveSpacesAppend(a[1..], b);
      if a[0] != ' ' {
        calc {
          RemoveSpaces(a + b);
          [a[0]] + RemoveSpaces(a[1..] + b);
          [a[0]] + (RemoveSpaces(a[1..]) + RemoveSpaces(b));
          ([a[0]] + RemoveSpaces(a[1..])) + RemoveSpaces(b);
        }
      }
    } else {
      assert a + b == b;
    }
  }

  /** The hexdump fix-up: a line holding a space keeps only what follows its
      first space, with every space removed; a line without one is kept. */
  function DropAddress(s: string): (r: string)
    ensures ' ' !in r
    ensures ' ' !in s ==> r == s
  {
    var o := FindSpace(s);
    if o >= 0 then RemoveSpaces(s[o..]) else s
  }

  /** A hexdump line "address data" loses its address and the spaces of its
      data, whatever the address is, as long as the address has no space. */
  lemma DropAddressOfHexdump(address: string, data: string)
    requires ' ' !in address
    ensures DropAddress(address + " " + data) == RemoveSpaces(data)
  {
    var s := address + " " + data;
    var o := FindSpace(s);
    assert s[..|address|] == address;
    assert s[|address|] == ' ';
    assert o == |address|;
    assert s[o..] == " " + data;
    RemoveSpacesAppend(" ", data);
  }

  /** `[s[i:i+2] for i in range(0, len(s), 2)]`. */
  function Chunks(s: string): (r: seq<string>)
    ensures |r| == (|s| + 1) / 2
    ensures forall k :: 0 <= k < |r| ==> |r[k]| == 2 || (k == |r| - 1 && |r[k]| == 1)
    ensures forall k :: 0 <= k < |r| ==> (|r[k]| == 1 <==> |s| % 2 == 1 && k == |r| - 1)
  {
    if |s| <= 2 then (if s == [] then [] else [s]) else [s[..2]] + Chunks(s[2..])
  }

  function Concat(ss: seq<string>): string
  {
    if ss == [] then [] else Concat(ss[..|ss| - 1]) + ss[|ss| - 1]
  }

  lemma {:induction false} ConcatPrepend(x: string, ss: seq<string>)
    ensures Concat([x] + ss) == x + Concat(ss)
  {
    if ss != [] {
      assert ([x] + ss)[..|ss|] == [x] + ss[..|ss| - 1];
      ConcatPrepend(x, ss[..|ss| - 1]);
    }
  }

  /** The chunks put back together are the line. */
  lemma {:induction false} ChunksConcat(s: string)
    ensures Concat(Chunks(s)) == s
  {
    if |s| > 2 {
      ChunksConcat(s[2..]);
      ConcatPrepend(s[..2], Chunks(s[2..]));
      assert s == s[..2] + s[2..];
    } else if s != [] {
      assert Concat([s]) == Concat([]) + s;
    }
  }

  predicate IsHexDigit(c: char)
  {
    ('0' <= c <= '9') || ('a' <= c <= 'f') || ('A' <= c <= 'F')
  }

  function HexDigit(c: char): (d: nat)
    requires IsHexDigit(c)
    ensures d < 16
  {
    if '0' <= c <= '9' then (c as int) - ('0' as int)
    else if 'a' <= c <= 'f' then (c as int) - ('a' as int) + 10
    else (c as int) - ('A' as int) + 10
  }

  /** Python's `int(h, 16)` on a chunk of one or two characters: whitespace
      around the digits is skipped, a sign is allowed, at least one hex digit
      is needed; anything else raises `ValueError` (None here). */
  function ParseHex(h: string): (r: Option<int>)
    requires 1 <= |h| <= 2
    ensures r.Some? ==> -15 <= r.value <= 255
    ensures |h| == 2 && IsHexDigit(h[0]) && IsHexDigit(h[1])
      ==> r == Some(16 * HexDigit(h[0]) + HexDigit(h[1]))
    ensures |h| == 1 ==> (r.Some? <==> IsHexDigit(h[0]))
    ensures |h| == 1 && IsHexDigit(h[0]) ==> r == Some(HexDigit(h[0]))
    ensures (forall i :: 0 <= i < |h| ==> !IsHexDigit(h[i])) ==> r.None?
    ensures r.Some? && r.value < 0 ==> h[0] == '-'
    ensures |h| == 2 && h[0] == '-' && IsHexDigit(h[1]) ==> r == Some(-(HexDigit(h[1]) as int))
    ensures |h| == 2 && (h[0] == '+' || IntSpace(h[0])) && IsHexDigit(h[1])
      ==> r == Some(HexDigit(h[1]))
    ensures |h| == 2 && IsHexDigit(h[0]) && IntSpace(h[1]) ==> r == Some(HexDigit(h[0]))
    ensures |h| == 2 && r.Some? ==>
      (IsHexDigit(h[0]) && (IsHexDigit(h[1]) || IntSpace(h[1])))
      || ((h[0] == '-' || h[0] == '+' || IntSpace(h[0])) && IsHexDigit(h[1]))
  {
    if |h| == 1 then
      if IsHexDigit(h[0]) then Some(HexDigit(h[0])) else None
    else if IsHexDigit(h[0]) && IsHexDigit(h[1]) then
      Some(16 * HexDigit(h[0]) + HexDigit(h[1]))
    else if h[0] == '-' && IsHexDigit(h[1]) then
      var d: int := HexDigit(h[1]);
      Some(-d)
    else if (h[0] == '+' || IntSpace(h[0])) && IsHexDigit(h[1]) then
      Some(HexDigit(h[1]))
    else if IsHexDigit(h[0]) && IntSpace(h[1]) then
      Some(HexDigit(h[0]))
    else
      None
  }

  /** The information separators U+001C..U+001F are whitespace to `strip()`
      but not to `int()`: next to a hex digit they make the chunk an error. */
  lemma SeparatorNotSkipped(d: char, c: char)
    requires IsHexDigit(d) && 0x1c <= c as int <= 0x1f
    ensures IsSpace(c) && !IntSpace(c)
    ensures ParseHex([d, c]).None? && ParseHex([c, d]).None?
  {
  }

  /** A byte as two lower-case hex digits, the way tshark prints capture data. */
  function FormatByte(v: nat): (h: string)
    requires v < 256
    ensures |h| == 2 && IsHexDigit(h[0]) && IsHexDigit(h[1])
  {
    var digits := "0123456789abcdef";
    [digits[v / 16], digits[v % 16]]
  }

  /** Reading a formatted byte gives the byte back. */
  lemma ParseFormatByte(v: nat)
    requires v < 256
    ensures ParseHex(FormatByte(v)) == Some(v)
  {
    var h := FormatByte(v);
    var digits := "0123456789abcdef";
    forall d | 0 <= d < 16 ensures HexDigit(digits[d]) == d { }
    assert HexDigit(h[0]) == v / 16 && HexDigit(h[1]) == v % 16;
  }

  /** The values of a run of chunks, or None when one of them is not a
      number; every chunk has one or two characters. */
  function ParseChunks(chunks: seq<string>): (r: Option<seq<int>>)
    requires forall k :: 0 <= k < |chunks| ==> 1 <= |chunks[k]| <= 2
    ensures r.Some? ==> |r.value| == |chunks|
  {
    if chunks == [] then Some([])
    else
      match (ParseChunks(chunks[..|chunks| - 1]), ParseHex(chunks[|chunks| - 1]))
      case (Some(vs), Some(v)) => Some(vs + [v])
      case _ => None
  }

  /** A line parses exactly when each of its chunks does, and then value k is
      chunk k's. */
  lemma {:induction false} ParseChunksEach(chunks: seq<string>)
    requires forall k :: 0 <= k < |chunks| ==> 1 <= |chunks[k]| <= 2
    ensures ParseChunks(chunks).Some? <==> forall k :: 0 <= k < |chunks| ==> ParseHex(chunks[k]).Some?
    ensures ParseChunks(chunks).Some? ==>
      forall k :: 0 <= k < |chunks| ==> ParseHex(chunks[k]) == Some(ParseChunks(chunks).value[k])
  {
    if chunks != [] {
      var prior := chunks[..|chunks| - 1];
      ParseChunksEach(prior);
      assert forall k :: 0 <= k < |prior| ==> prior[k] == chunks[k];
    }
  }

  /** h is the first chunk that is not a number: the one on which the
      chunk loop's `int(h, 16)` raises. */
  predicate FirstBadChunk(chunks: seq<string>, h: string)
    requires forall k :: 0 <= k < |chunks| ==> 1 <= |chunks[k]| <= 2
  {
    exists k :: 0 <= k < |chunks| && chunks[k] == h && ParseHex(chunks[k]).None?
      && forall j :: 0 <= j < k ==> ParseHex(chunks[j]).Some?
  }

  /** A line that does not parse has a first bad chunk, and only one. */
  lemma {:induction false} FirstBadChunkExists(chunks: seq<string>)
    requires forall k :: 0 <= k < |chunks| ==> 1 <= |chunks[k]| <= 2
    requires ParseChunks(chunks).None?
    ensures exists h :: FirstBadChunk(chunks, h)
  {
    ParseChunksEach(chunks);
    var k :| 0 <= k < |chunks| && ParseHex(chunks[k]).None?;
    var i := 0;
    while ParseHex(chunks[i]).Some?
      invariant 0 <= i <= k
      invariant forall j :: 0 <= j < i ==> ParseHex(chunks[j]).Some?
      decreases k - i
    {
      i := i + 1;
    }
    assert FirstBadChunk(chunks, chunks[i]);
  }

  lemma FirstBadChunkUnique(chunks: seq<string>, h: string, h': string)
    requires forall k :: 0 <= k < |chunks| ==> 1 <= |chunks[k]| <= 2
    requires FirstBadChunk(chunks, h) && FirstBadChunk(chunks, h')
    ensures h == h'
  {
    var k :| 0 <= k < |chunks| && chunks[k] == h && ParseHex(chunks[k]).None?
      && forall j :: 0 <= j < k ==> ParseHex(chunks[j]).Some?;
    var k' :| 0 <= k' < |chunks| && chunks[k'] == h' && ParseHex(chunks[k']).None?
      && forall j :: 0 <= j < k' ==> ParseHex(chunks[j]).Some?;
    assert k == k';
  }

  /** The chunks one text line is cut into (extract-channels.py:46-51). */
  function LineChunks(line: string): (r: seq<string>)
    ensures forall k :: 0 <= k < |r| ==> 1 <= |r[k]| <= 2
  {
    Chunks(DropAddress(Strip(line)))
  }

  /** The values one text line contributes, or None on a bad chunk. */
  function LineValues(line: string): Option<seq<int>>
  {
    ParseChunks(LineChunks(line))
  }

  /** A tshark capture-data line: each byte as two hex digits, no separator. */
  function CapLine(bs: seq<nat>): (s: string)
    requires forall k :: 0 <= k < |bs| ==> bs[k] < 256
    ensures |s| == 2 * |bs|
    ensures forall k :: 0 <= k < |s| ==> IsHexDigit(s[k])
  {
    if bs == [] then []
    else
      var rest := CapLine(bs[1..]);
      var s := FormatByte(bs[0]) + rest;
      assert forall k :: 2 <= k < |s| ==> s[k] == rest[k - 2];
      s
  }

  /** A capture line is cut into exactly its two-digit bytes. */
  lemma {:induction false} ChunksOfCapLine(bs: seq<nat>)
    requires forall k :: 0 <= k < |bs| ==> bs[k] < 256
    ensures Chunks(CapLine(bs)) == seq(|bs|, k requires 0 <= k < |bs| => FormatByte(bs[k]))
  {
    var want := seq(|bs|, k requires 0 <= k < |bs| => FormatByte(bs[k]));
    if bs != [] {
      var s := CapLine(bs);
      assert s[..2] == FormatByte(bs[0]) && s[2..] == CapLine(bs[1..]);
      if |bs| == 1 {
        assert s == s[..2];
        assert want == [FormatByte(bs[0])];
      } else {
        ChunksOfCapLine(bs[1..]);
        assert want == [FormatByte(bs[0])] + want[1..];
      }
    }
  }

  /** Formatted bytes parse back to themselves. */
  lemma ParseFormatted(bs: seq<nat>)
    requires forall k :: 0 <= k < |bs| ==> bs[k] < 256
    ensures ParseChunks(seq(|bs|, k requires 0 <= k < |bs| => FormatByte(bs[k]))) == Some(bs)
  {
    var chunks := seq(|bs|, k requires 0 <= k < |bs| => FormatByte(bs[k]));
    forall k | 0 <= k < |bs| ensures ParseHex(chunks[k]) == Some(bs[k] as int) {
      ParseFormatByte(bs[k]);
    }
    ParseChunksEach(chunks);
    var r := ParseChunks(chunks);
    assert r.Some?;
    assert r.value == bs;
  }

  /** A capture line ending in a newline yields exactly the bytes it was
      printed from. */
  lemma CapLineValues(bs: seq<nat>)
    requires forall k :: 0 <= k < |bs| ==> bs[k] < 256
    ensures LineValues(CapLine(bs) + "\n") == Some(bs)
  {
    var s := CapLine(bs);
    StripCapLine(s);
    assert DropAddress(s) == s;
    ChunksOfCapLine(bs);
    ParseFormatted(bs);
  }

  /** A line of hex digits loses only its newline to `strip()`, and holds no
      space for the hexdump fix-up to act on. */
  lemma StripCapLine(s: string)
    requires forall k :: 0 <= k < |s| ==> IsHexDigit(s[k])
    ensures Strip(s + "\n") == s
    ensures ' ' !in s
  {
    var line := s + "\n";
    if s == [] {
      assert line[1..] == [];
      assert StripLeft(line) == StripLeft(line[1..]) == [];
    } else {
      assert IsHexDigit(line[0]);
      assert StripLeft(line) == line;
      assert line[..|line| - 1] == s;
      assert StripRight(line) == StripRight(s);
      assert IsHexDigit(s[|s| - 1]);
      assert StripRight(s) == s;
    }
    assert forall k :: 0 <= k < |s| ==> s[k] != ' ';
  }
}
