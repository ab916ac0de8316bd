/** The data of a QR code: segments padded to the capacity, and the block interleaving
    (ISO/IEC 18004:2015, sections 7.4.10 and 7.6). */
module QrData {
  import opened Wrappers
  import opened Bits
  import opened QrBuffer
  import opened Segments

  datatype Error = IllegalCharacter | BadVersion | Overflow

  datatype Result<T> = Ok(value: T) | Err(error: Error)

  // ---- Padding --------------------------------------------------------------------------------

  const PAD0: nat := 0xEC
  const PAD1: nat := 0x11

  /** Pad codewords, alternating from PAD0. */
  function PadBytes(n: nat): (p: seq<nat>)
    ensures |p| == n
  {
    seq(n, i => if i % 2 == 0 then PAD0 else PAD1)
  }

  function Terminated(s: seq<bool>, total: nat): seq<bool> {
    if |s| + 4 <= total * BYTE then s + Zeros(4) else s
  }

  function Aligned(s: seq<bool>): (a: seq<bool>)
    ensures |a| % BYTE == 0 && |s| <= |a| < |s| + BYTE
  {
    BoundaryIs(|s|);
    s + Zeros(ToBoundary(|s|))
  }

  /** The bits of all data codewords for the segment bits `s`. */
  function Message(s: seq<bool>, total: nat): seq<bool>
    requires |s| <= total * BYTE
  {
    var a := Aligned(Terminated(s, total));
    assert |a| <= total * BYTE;
    a + MsbBytes(PadBytes(total - |a| / BYTE))
  }

  /** The message has exactly the capacity, and starts with the segments and a valid end. */
  lemma MessageShape(s: seq<bool>, total: nat) returns (tail: seq<bool>)
    requires |s| <= total * BYTE
    ensures |Message(s, total)| == total * BYTE
    ensures Message(s, total) == s + tail && EndsSegments(tail)
  {
    hide MsbBytes;
    var t := Terminated(s, total);
    var a := Aligned(t);
    var pads := PadBytes(total - |a| / BYTE);
    ChunksLength(pads);
    var zeros := Zeros((BYTE - |t| % BYTE) % BYTE);
    tail := (if |s| + 4 <= total * BYTE then Zeros(4) else []) + zeros + MsbBytes(pads);
    assert Message(s, total) == s + tail;
    if |s| + 4 <= total * BYTE {
      assert tail[..4] == Zeros(4);
    }
  }

  /** MAIN RESULT: the data codewords read back as the segments that were put in. */
  lemma MessageParses(segments: seq<Segment>, version: int, total: nat)
    requires AllWritable(segments, version)
    requires |SegmentsBits(segments, version)| <= total * BYTE
    requires forall i :: 0 <= i < |segments| ==> CountFits(segments[i], version)
    ensures ParseSegments(Message(SegmentsBits(segments, version), total), version) == Some(segments)
  {
    hide ParseSegments, Message, SegmentsBits, EndsSegments;
    var tail := MessageShape(SegmentsBits(segments, version), total);
    SegmentsRoundTrip(segments, version, tail);
  }

  /** The largest number of data codewords of the versions that share a count width. */
  function MaxDataCodewords(version: int): nat {
    if version < 10 then 232 else if version < 27 then 1370 else 2956
  }

  /** A payload is at least this long, so an overlong count cannot stay within the capacity. */
  lemma {:induction false} NumericLength(s: string)
    requires AllDigits(s)
    ensures 3 * |NumericBits(s)| >= 10 * |s|
  {
    if |s| > 0 { NumericLength(s[Min(3, |s|)..]); }
  }

  lemma {:induction false} AlphanumericLength(s: string)
    requires AllInAlphabet(s)
    ensures 2 * |AlphanumericBits(s)| >= 11 * |s|
  {
    if |s| > 1 { AlphanumericLength(s[2..]); }
  }

  lemma CountWidths()
    ensures Pow2(8) == 256 && Pow2(9) == 512 && Pow2(10) == 1024 && Pow2(11) == 2048 && Pow2(12) == 4096
    ensures Pow2(13) == 8192 && Pow2(14) == 16384 && Pow2(16) == 65536
  {
    Pow2Eight();
    assert Pow2(3) == 8;
    Pow2Sum(8, 1);
    Pow2Sum(8, 2);
    Pow2Sum(8, 3);
    Pow2Sum(8, 4);
    Pow2Sum(8, 5);
    Pow2Sum(8, 6);
    Pow2Sum(8, 8);
  }

  /** put() silently drops high bits of a count that is too wide for its field, but the overflow
      check catches every such segment: a segment within the capacity has a count that fits. */
  lemma CapacityBoundsCount(s: Segment, version: int, total: nat)
    requires Writable(s) && 1 <= version < 41
    requires total <= MaxDataCodewords(version)
    requires |SegmentBits(s, version)| <= total * BYTE
    ensures CountFits(s, version)
  {
    hide Pow2, Msb;
    CountWidths();
    match s {
      case Numeric(text) => NumericLength(text);
      case Alphanumeric(text) => AlphanumericLength(text);
      case Bytes(bytes) => ChunksLength(bytes);
    }
  }

  lemma {:induction false} PartsWithinWhole(segments: seq<Segment>, version: int, i: nat)
    requires AllWritable(segments, version) && i < |segments|
    ensures |SegmentBits(segments[i], version)| <= |SegmentsBits(segments, version)|
  {
    hide SegmentBits;
    if i > 0 { PartsWithinWhole(segments[1..], version, i - 1); }
  }

  /** Segments that pass the overflow check read back, for every version and capacity. */
  lemma NoOverflowParses(segments: seq<Segment>, version: int, total: nat)
    requires 1 <= version < 41 && total <= MaxDataCodewords(version)
    requires AllWritable(segments, version)
    requires |SegmentsBits(segments, version)| <= total * BYTE
    ensures ParseSegments(Message(SegmentsBits(segments, version), total), version) == Some(segments)
  {
    hide SegmentBits, SegmentsBits, Message, ParseSegments, CountFits;
    forall i | 0 <= i < |segments| ensures CountFits(segments[i], version) {
      PartsWithinWhole(segments, version, i);
      CapacityBoundsCount(segments[i], version, total);
    }
    MessageParses(segments, version, total);
  }

  /** Everything createData puts before padding. */
  method WriteSegments(buffer: QrBitBuffer, segments: seq<Segment>, version: int) returns (error: Option<Error>)
    requires buffer.Valid() && buffer.bits == []
    requires forall i :: 0 <= i < |segments| && segments[i].Bytes? ==> Writable(segments[i])
    modifies buffer
    ensures buffer.Valid()
    ensures error.None? <==> AllWritable(segments, version)
    ensures error.None? ==> buffer.bits == SegmentsBits(segments, version)
    ensures error.Some? ==> error.value != Overflow
  {
    hide Msb, Payload, Writable, LengthInBits, Holds, SegmentsBits, SegmentBits;
    SegmentsStart(segments, version);
    var i := 0;
    while i < |segments|
      invariant 0 <= i <= |segments| && buffer.Valid()
      invariant AllWritable(segments[..i], version)
      invariant AllWritable(segments[i..], version) ==> AllWritable(segments, version)
      invariant AllWritable(segments, version) ==>
                  buffer.bits + SegmentsBits(segments[i..], version) == SegmentsBits(segments, version)
    {
      var s := segments[i];
      buffer.Put(Mode(s), 4);
      var width := LengthInBits(s, version);
      if width.None? {
        return Some(BadVersion);
      }
      buffer.Put(Count(s), width.value);
      var ok := Write(buffer, s);
      if !ok {
        return Some(IllegalCharacter);
      }
      SegmentsStep(segments, i, version);
      i := i + 1;
    }
    assert segments[..i] == segments && segments[i..] == [];
    SegmentsStart(segments, version);
    return None;
  }

  lemma SegmentsStep(segments: seq<Segment>, i: nat, version: int)
    requires i < |segments|
    requires AllWritable(segments[..i], version)
    requires Writable(segments[i]) && LengthInBits(segments[i], version).Some?
    ensures AllWritable(segments[..i + 1], version)
    ensures AllWritable(segments[i + 1..], version) ==> AllWritable(segments[i..], version)
    ensures AllWritable(segments[i + 1..], version) ==>
              SegmentsBits(segments[i..], version)
              == Msb(Mode(segments[i]), 4) + (Msb(Count(segments[i]), LengthInBits(segments[i], version).value)
                 + Payload(segments[i])) + SegmentsBits(segments[i + 1..], version)
  {
    hide Msb, Payload, Writable, LengthInBits;
    assert segments[..i + 1] == segments[..i] + [segments[i]];
    assert segments[i..] == [segments[i]] + segments[i + 1..];
  }

  lemma SegmentsStart(segments: seq<Segment>, version: int)
    ensures segments[..0] == [] && segments[0..] == segments
    ensures SegmentsBits([], version) == []
  {}

  /** Appends the terminator if it fits, zeros to the byte boundary, and pad codewords. */
  method Pad(buffer: QrBitBuffer, total: nat)
    requires buffer.Valid() && |buffer.bits| <= total * BYTE
    modifies buffer
    ensures buffer.Valid()
    ensures buffer.bits == Message(old(buffer.bits), total)
  {
    hide Msb, MsbBytes, Pow2, Holds;
    ghost var s := buffer.bits;
    if buffer.length + 4 <= total * BYTE {
      buffer.Put(0, 4);
      MsbOfZero(4);
    }
    ghost var t := Terminated(s, total);
    assert buffer.bits == t + Zeros(0);
    ghost var k := 0;
    while buffer.length % BYTE != 0
      invariant buffer.Valid() && buffer.bits == t + Zeros(k)
      invariant k <= ToBoundary(|t|)
      decreases ToBoundary(|t|) - k
    {
      BeforeBoundary(|t|, k);
      buffer.PutBit(false);
      assert t + Zeros(k) + [false] == t + Zeros(k + 1);
      k := k + 1;
    }
    AtBoundary(|t|, k);
    assert buffer.bits == Aligned(t);
    PadCodewords(buffer, total);
  }

  /** The bits missing to a whole number of bytes. */
  function ToBoundary(length: nat): (n: nat)
    ensures n < BYTE
  {
    var r := length % BYTE;
    if r == 0 then 0 else BYTE - r
  }

  lemma BoundaryIs(length: nat)
    ensures (length + ToBoundary(length)) % BYTE == 0
  {
    var q, r := DivMod(length, BYTE);
    var n := ToBoundary(length);
    var k := if r == 0 then q else q + 1;
    assert length + n == k * BYTE;
    ModUnique(length + n, BYTE, k, 0);
  }

  lemma BeforeBoundary(length: nat, k: nat)
    requires k <= ToBoundary(length) && (length + k) % BYTE != 0
    ensures k < ToBoundary(length)
  {
    BoundaryIs(length);
  }

  lemma ShortOfBoundary(length: nat, k: nat)
    requires k < ToBoundary(length)
    ensures (length + k) % BYTE != 0
  {
    var q, r := DivMod(length, BYTE);
    ModUnique(length + k, BYTE, q, r + k);
  }

  lemma AtBoundary(length: nat, k: nat)
    requires k <= ToBoundary(length) && (length + k) % BYTE == 0
    ensures k == ToBoundary(length)
  {
    if k < ToBoundary(length) { ShortOfBoundary(length, k); }
  }

  method PadCodewords(buffer: QrBitBuffer, total: nat)
    requires buffer.Valid() && |buffer.bits| % BYTE == 0 && |buffer.bits| <= total * BYTE
    modifies buffer
    ensures buffer.Valid()
    ensures buffer.bits == old(buffer.bits) + MsbBytes(PadBytes(total - |old(buffer.bits)| / BYTE))
  {
    hide Msb, MsbBytes, Pow2, Holds, PadBytes;
    ghost var a := buffer.bits;
    ghost var n := 0;
    NoBytes();
    assert a + [] == a;
    while true
      invariant buffer.Valid() && n % 2 == 0 && n <= total - |a| / BYTE
      invariant buffer.bits == a + MsbBytes(PadBytes(n))
      decreases total - n
    {
      PadLength(n);
      if buffer.length >= total * BYTE {
        break;
      }
      PadMore(n);
      buffer.Put(PAD0, BYTE);
      PadLength(n + 1);
      if buffer.length >= total * BYTE {
        n := n + 1;
        break;
      }
      PadMore(n + 1);
      buffer.Put(PAD1, BYTE);
      n := n + 2;
    }
    assert n == total - |a| / BYTE;
  }

  lemma NoBytes()
    ensures MsbBytes(PadBytes(0)) == []
  {
    assert PadBytes(0) == [];
  }

  lemma PadLength(n: nat)
    ensures |MsbBytes(PadBytes(n))| == BYTE * n
  {
    hide Msb;
    ChunksLength(PadBytes(n));
  }

  lemma PadMore(n: nat)
    ensures MsbBytes(PadBytes(n + 1)) == MsbBytes(PadBytes(n)) + Msb(if n % 2 == 0 then PAD0 else PAD1, BYTE)
  {
    hide Msb;
    var p := if n % 2 == 0 then PAD0 else PAD1;
    MsbChunksAppend(PadBytes(n), [p], BYTE);
    MsbChunksOne(p, BYTE);
    assert PadBytes(n + 1) == PadBytes(n) + [p];
  }

  /** The data codewords, or the exception: overflow exactly when the segments are writable and
      longer than the capacity. */
  method CreateCodewords(segments: seq<Segment>, version: int, total: nat) returns (r: Result<seq<nat>>)
    requires forall i :: 0 <= i < |segments| && segments[i].Bytes? ==> Writable(segments[i])
    ensures r.Ok? <==> AllWritable(segments, version) && |SegmentsBits(segments, version)| <= total * BYTE
    ensures r == Err(Overflow) <==> AllWritable(segments, version) && |SegmentsBits(segments, version)| > total * BYTE
    ensures r.Ok? ==>
              && |r.value| == total && (forall i :: 0 <= i < total ==> r.value[i] < 256)
              && MsbBytes(r.value) == Message(SegmentsBits(segments, version), total)
              && PadsRight(r.value, |SegmentsBits(segments, version)|, total)
  {
    hide SegmentsBits, Msb, MsbBytes, Message;
    var buffer := new QrBitBuffer();
    var error := WriteSegments(buffer, segments, version);
    if error.Some? {
      return Err(error.value);
    }
    if buffer.length > total * BYTE {
      return Err(Overflow);
    }
    ghost var tail := MessageShape(buffer.bits, total);
    Pad(buffer, total);
    ChunksLength(buffer.buffer);
    WholeBytes(buffer.buffer, buffer.bits, total);
    PaddingIs(buffer.buffer, SegmentsBits(segments, version), total);
    return Ok(buffer.buffer);
  }

  lemma WholeBytes(bytes: seq<nat>, bits: seq<bool>, total: nat)
    requires Holds(bytes, bits) && |bits| == total * BYTE
    ensures |bytes| == total && MsbBytes(bytes) == bits
  {
    hide Msb, MsbBytes;
    ChunksLength(bytes);
    var pad: nat :| pad < BYTE && MsbBytes(bytes) == bits + Zeros(pad);
    assert BYTE * |bytes| == total * BYTE + pad;
    assert pad == 0;
    assert bits + Zeros(0) == bits;
  }

  /** Where the pad codewords begin: after the segments, a terminator of four bits, and zeros to the
      byte boundary. */
  function FirstPad(length: nat, total: nat): nat {
    if length + 4 <= total * BYTE then (length + 11) / 8 else total
  }

  /** Codewords 236 and 17 in turn fill the rest (section 7.4.10). */
  ghost predicate PadsRight(bytes: seq<nat>, length: nat, total: nat) {
    var first := FirstPad(length, total);
    && first <= |bytes| == total
    && forall i :: first <= i < total ==> bytes[i] == (if (i - first) % 2 == 0 then 236 else 17)
  }

  lemma PaddingIs(bytes: seq<nat>, s: seq<bool>, total: nat)
    requires |s| <= total * BYTE && |bytes| == total && forall i :: 0 <= i < total ==> bytes[i] < 256
    requires MsbBytes(bytes) == Message(s, total)
    ensures PadsRight(bytes, |s|, total)
  {
    hide Msb, MsbBytes, Terminated, Aligned, PadBytes, ParseBytes;
    var a := Aligned(Terminated(s, total));
    FirstPadIs(s, total);
    var first := FirstPad(|s|, total);
    var pads := PadBytes(total - first);
    assert MsbBytes(bytes) == a + MsbBytes(pads);
    var tail := bytes[first..];
    assert bytes == bytes[..first] + tail;
    BytesSplit(bytes[..first], tail);
    assert MsbBytes(tail) == MsbBytes(pads) by {
      assert |MsbBytes(bytes[..first])| == |a|;
      assert MsbBytes(tail) == MsbBytes(bytes)[|a|..] == MsbBytes(pads);
    }
    PadsAre(total - first);
    BytesRoundTrip(tail, []);
    BytesRoundTrip(pads, []);
  }

  lemma BytesSplit(xs: seq<nat>, ys: seq<nat>)
    ensures MsbBytes(xs + ys) == MsbBytes(xs) + MsbBytes(ys) && |MsbBytes(xs)| == BYTE * |xs|
  {
    hide Msb;
    MsbChunksAppend(xs, ys, BYTE);
    ChunksLength(xs);
  }

  lemma PadsAre(n: nat)
    ensures forall i :: 0 <= i < n ==> PadBytes(n)[i] == (if i % 2 == 0 then 236 else 17)
  {}

  lemma FirstPadIs(s: seq<bool>, total: nat)
    requires |s| <= total * BYTE
    ensures |Aligned(Terminated(s, total))| == BYTE * FirstPad(|s|, total) <= total * BYTE
  {
    var t := Terminated(s, total);
    var n := ToBoundary(|t|);
    BoundaryIs(|t|);
    assert |Aligned(t)| == |t| + n;
    var q, r := DivMod(|t| + n, BYTE);
    assert |t| + n == q * BYTE;
    if |s| + 4 <= total * BYTE {
      assert |s| + 11 == q * BYTE + (7 - n);
      ModUnique(|s| + 11, BYTE, q, 7 - n);
    } else {
      assert (q - 1) * BYTE < |t| <= total * BYTE;
    }
  }

  // ---- Interleaving ---------------------------------------------------------------------------

  /** The i-th codeword of every block that has one, in block order. */
  function Round<T>(blocks: seq<seq<T>>, i: nat): seq<T> {
    if blocks == [] then []
    else (if i < |blocks[0]| then [blocks[0][i]] else []) + Round(blocks[1..], i)
  }

  /** Rounds `from` up to n, one after the other. */
  function Interleave<T>(blocks: seq<seq<T>>, from: nat, n: nat): seq<T>
    decreases n - from
  {
    if from >= n then [] else Round(blocks, from) + Interleave(blocks, from + 1, n)
  }

  /** Reads one round back: at most one codeword a block, and what follows the round. */
  function ReadRound<T>(lengths: seq<nat>, i: nat, s: seq<T>): (seq<seq<T>>, seq<T>) {
    if lengths == [] then ([], s)
    else if i < lengths[0] && s != [] then
      var (heads, rest) := ReadRound(lengths[1..], i, s[1..]);
      ([[s[0]]] + heads, rest)
    else
      var (heads, rest) := ReadRound(lengths[1..], i, s);
      ([[]] + heads, rest)
  }

  function Zip<T>(heads: seq<seq<T>>, tails: seq<seq<T>>): seq<seq<T>> {
    if heads == [] || tails == [] then [] else [heads[0] + tails[0]] + Zip(heads[1..], tails[1..])
  }

  function Empties<T>(n: nat): (e: seq<seq<T>>)
    ensures |e| == n
  {
    seq(n, _ => [])
  }

  /** Rebuilds the blocks from their lengths and the interleaved stream. */
  function Deinterleave<T>(lengths: seq<nat>, from: nat, n: nat, s: seq<T>): (seq<seq<T>>, seq<T>)
    decreases n - from
  {
    if from >= n then (Empties(|lengths|), s)
    else
      var (heads, rest) := ReadRound(lengths, from, s);
      var (tails, left) := Deinterleave(lengths, from + 1, n, rest);
      (Zip(heads, tails), left)
  }

  function Lengths<T>(blocks: seq<seq<T>>): (l: seq<nat>)
    ensures |l| == |blocks|
  {
    if blocks == [] then [] else [|blocks[0]|] + Lengths(blocks[1..])
  }

  /** Every block without its first `from` codewords. */
  function Suffixes<T>(blocks: seq<seq<T>>, from: nat): seq<seq<T>> {
    if blocks == [] then []
    else [if from <= |blocks[0]| then blocks[0][from..] else []] + Suffixes(blocks[1..], from)
  }

  function Heads<T>(blocks: seq<seq<T>>, i: nat): seq<seq<T>> {
    if blocks == [] then [] else [if i < |blocks[0]| then [blocks[0][i]] else []] + Heads(blocks[1..], i)
  }

  lemma {:induction false} RoundReads<T>(blocks: seq<seq<T>>, i: nat, tail: seq<T>)
    ensures ReadRound(Lengths(blocks), i, Round(blocks, i) + tail) == (Heads(blocks, i), tail)
  {
    if blocks == [] {
      assert [] + tail == tail;
    } else {
      hide Round, Heads;
      RoundReads(blocks[1..], i, tail);
      RoundStarts(blocks, i, tail);
      ReadRoundStep(Lengths(blocks), i, Round(blocks, i) + tail);
      assert Lengths(blocks)[1..] == Lengths(blocks[1..]);
    }
  }

  lemma RoundStarts<T>(blocks: seq<seq<T>>, i: nat, tail: seq<T>)
    requires blocks != []
    ensures Heads(blocks, i) == [if i < |blocks[0]| then [blocks[0][i]] else []] + Heads(blocks[1..], i)
    ensures i < |blocks[0]| ==>
              Round(blocks, i) + tail == [blocks[0][i]] + (Round(blocks[1..], i) + tail)
    ensures i >= |blocks[0]| ==> Round(blocks, i) + tail == Round(blocks[1..], i) + tail
  {
    var head := if i < |blocks[0]| then [blocks[0][i]] else [];
    var more := Round(blocks[1..], i);
    assert Round(blocks, i) == head + more;
    Assoc(head, more, tail);
    assert i >= |blocks[0]| ==> head + (more + tail) == more + tail;
  }

  lemma ReadRoundStep<T>(lengths: seq<nat>, i: nat, s: seq<T>)
    requires lengths != []
    ensures i < lengths[0] && s != [] ==>
              ReadRound(lengths, i, s)
              == ([[s[0]]] + ReadRound(lengths[1..], i, s[1..]).0, ReadRound(lengths[1..], i, s[1..]).1)
    ensures i >= lengths[0] ==>
              ReadRound(lengths, i, s)
              == ([[]] + ReadRound(lengths[1..], i, s).0, ReadRound(lengths[1..], i, s).1)
  {}

  lemma {:induction false} HeadsAndSuffixes<T>(blocks: seq<seq<T>>, i: nat)
    ensures Zip(Heads(blocks, i), Suffixes(blocks, i + 1)) == Suffixes(blocks, i)
  {
    if blocks != [] {
      HeadsAndSuffixes(blocks[1..], i);
      var b, heads, tails := blocks[0], Heads(blocks, i), Suffixes(blocks, i + 1);
      assert heads[1..] == Heads(blocks[1..], i) && tails[1..] == Suffixes(blocks[1..], i + 1);
      assert heads[0] + tails[0] == Suffixes(blocks, i)[0];
      assert Zip(heads, tails) == [heads[0] + tails[0]] + Zip(heads[1..], tails[1..]);
    }
  }

  predicate NoLonger<T>(blocks: seq<seq<T>>, n: nat) {
    forall r :: 0 <= r < |blocks| ==> |blocks[r]| <= n
  }

  lemma {:induction false} SuffixesEnd<T>(blocks: seq<seq<T>>, from: nat)
    requires NoLonger(blocks, from)
    ensures Suffixes(blocks, from) == Empties(|blocks|)
  {
    if blocks != [] {
      SuffixesEnd(blocks[1..], from);
      assert |blocks[0]| <= from;
    }
  }

  /** MAIN RESULT: de-interleaving undoes interleaving for any block lengths. */
  lemma {:induction false} InterleaveRoundTrip<T>(blocks: seq<seq<T>>, from: nat, n: nat, tail: seq<T>)
    requires NoLonger(blocks, n) && from <= n
    ensures Deinterleave(Lengths(blocks), from, n, Interleave(blocks, from, n) + tail) == (Suffixes(blocks, from), tail)
    decreases n - from
  {
    if from >= n {
      SuffixesEnd(blocks, from);
      assert [] + tail == tail;
    } else {
      var more := Interleave(blocks, from + 1, n) + tail;
      Assoc(Round(blocks, from), Interleave(blocks, from + 1, n), tail);
      RoundReads(blocks, from, more);
      InterleaveRoundTrip(blocks, from + 1, n, tail);
      HeadsAndSuffixes(blocks, from);
    }
  }

  lemma {:induction false} SuffixesAll<T>(blocks: seq<seq<T>>)
    ensures Suffixes(blocks, 0) == blocks
  {
    if blocks != [] { SuffixesAll(blocks[1..]); }
  }

  function TotalLength<T>(blocks: seq<seq<T>>): nat {
    if blocks == [] then 0 else |blocks[0]| + TotalLength(blocks[1..])
  }

  lemma {:induction false} RoundLength<T>(blocks: seq<seq<T>>, i: nat)
    ensures |Round(blocks, i)| + TotalLength(Suffixes(blocks, i + 1)) == TotalLength(Suffixes(blocks, i))
  {
    if blocks != [] {
      RoundLength(blocks[1..], i);
      assert Suffixes(blocks, i)[1..] == Suffixes(blocks[1..], i);
      assert Suffixes(blocks, i + 1)[1..] == Suffixes(blocks[1..], i + 1);
    }
  }

  lemma {:induction false} BlankLength<T>(n: nat)
    ensures TotalLength(Empties<T>(n)) == 0
  {
    if n > 0 {
      BlankLength<T>(n - 1);
      assert Empties<T>(n)[1..] == Empties<T>(n - 1);
    }
  }

  lemma {:induction false} InterleaveLength<T>(blocks: seq<seq<T>>, from: nat, n: nat)
    requires NoLonger(blocks, n) && from <= n
    ensures |Interleave(blocks, from, n)| == TotalLength(Suffixes(blocks, from))
    decreases n - from
  {
    if from >= n {
      SuffixesEnd(blocks, from);
      BlankLength<T>(|blocks|);
    } else {
      InterleaveLength(blocks, from + 1, n);
      RoundLength(blocks, from);
    }
  }
}
