/** The final codeword sequence of a QR code: data blocks, their error correction, interleaved
    (ISO/IEC 18004:2015, section 7.6), and the way back from it to the segments. The loops copy the
    parts symbol by symbol; de-interleaving knows the block table only. */
module QrBlocks {
  import opened Wrappers
  import Bits
  import Gf256
  import Segments
  import opened ReedSolomon
  import opened QrData

  type Elem = Gf256.Elem

  datatype RsBlock = RsBlock(totalCount: nat, dataCount: nat)

  predicate Proper(blocks: seq<RsBlock>) {
    forall r :: 0 <= r < |blocks| ==> blocks[r].dataCount <= blocks[r].totalCount
  }

  function EcCount(b: RsBlock): nat
    requires b.dataCount <= b.totalCount
  {
    b.totalCount - b.dataCount
  }

  predicate AllBytes(bytes: seq<nat>) {
    forall i :: 0 <= i < |bytes| ==> bytes[i] < 256
  }

  function ToElems(bytes: seq<nat>): (es: Poly)
    requires AllBytes(bytes)
    ensures |es| == |bytes|
  {
    seq(|bytes|, i requires 0 <= i < |bytes| => Gf256.ToElem(bytes[i]))
  }

  function ToNumbers(es: Poly): (bytes: seq<nat>)
    ensures |bytes| == |es|
  {
    seq(|es|, i requires 0 <= i < |es| => Gf256.Number(es[i]))
  }

  lemma NumbersRoundTrip(bytes: seq<nat>)
    requires AllBytes(bytes)
    ensures ToNumbers(ToElems(bytes)) == bytes
  {
    hide Gf256.ToElem, Gf256.Number;
  }

  function DataTotal(blocks: seq<RsBlock>): nat {
    if blocks == [] then 0 else blocks[0].dataCount + DataTotal(blocks[1..])
  }

  function CodeTotal(blocks: seq<RsBlock>): nat {
    if blocks == [] then 0 else blocks[0].totalCount + CodeTotal(blocks[1..])
  }

  /** The data codewords cut into blocks. */
  function Cut(data: Poly, blocks: seq<RsBlock>): (parts: seq<Poly>)
    requires DataTotal(blocks) <= |data|
    ensures |parts| == |blocks|
  {
    if blocks == [] then [] else [data[..blocks[0].dataCount]] + Cut(data[blocks[0].dataCount..], blocks[1..])
  }

  function Join<T>(parts: seq<seq<T>>): seq<T> {
    if parts == [] then [] else parts[0] + Join(parts[1..])
  }

  lemma {:induction false} CutJoins(data: Poly, blocks: seq<RsBlock>)
    requires DataTotal(blocks) == |data|
    ensures Join(Cut(data, blocks)) == data
  {
    if blocks != [] {
      CutJoins(data[blocks[0].dataCount..], blocks[1..]);
    }
  }

  /** Each block's error correction makes a code word of its data. */
  ghost predicate Corrects(dc: seq<Poly>, ec: seq<Poly>, blocks: seq<RsBlock>)
    requires Proper(blocks)
  {
    && |dc| == |ec| == |blocks|
    && forall r :: 0 <= r < |blocks| ==>
         |dc[r]| == blocks[r].dataCount && dc[r] + ec[r] == Codeword(dc[r], EcCount(blocks[r]))
  }

  /** glog meets a zero coefficient while n error correction symbols of a block are computed. */
  predicate BlockThrows(data: Poly, n: nat) {
    n > 255 || (n == 255 && Strip(data) != [])
  }

  /** No block asks for as many symbols as alpha has powers; the standard's tables stay at 30. */
  predicate ShortCorrections(blocks: seq<RsBlock>)
    requires Proper(blocks)
  {
    forall k :: 0 <= k < |blocks| ==> EcCount(blocks[k]) < 255
  }

  function MaxLength<T>(parts: seq<seq<T>>): (n: nat)
    ensures NoLonger(parts, n)
  {
    if parts == [] then 0 else
      var m := MaxLength(parts[1..]);
      assert forall r :: 1 <= r < |parts| ==> parts[r] == parts[1..][r - 1];
      if |parts[0]| >= m then |parts[0]| else m
  }

  /** Rounds of data codewords, then rounds of error correction codewords. */
  function Arrange(dc: seq<Poly>, ec: seq<Poly>): Poly {
    Interleave(dc, 0, MaxLength(dc)) + Interleave(ec, 0, MaxLength(ec))
  }

  /** MAIN RESULT: the block lengths and the arranged stream determine every block. */
  lemma ArrangeRoundTrip(dc: seq<Poly>, ec: seq<Poly>)
    ensures var (data, rest) := Deinterleave(Lengths(dc), 0, MaxLength(dc), Arrange(dc, ec));
            && data == dc
            && Deinterleave(Lengths(ec), 0, MaxLength(ec), rest) == (ec, [])
  {
    InterleaveRoundTrip(dc, 0, MaxLength(dc), Interleave(ec, 0, MaxLength(ec)));
    SuffixesAll(dc);
    InterleaveRoundTrip(ec, 0, MaxLength(ec), []);
    assert Interleave(ec, 0, MaxLength(ec)) + [] == Interleave(ec, 0, MaxLength(ec));
    SuffixesAll(ec);
  }

  lemma {:induction false} TotalsAdd(dc: seq<Poly>, ec: seq<Poly>, blocks: seq<RsBlock>)
    requires Proper(blocks) && Corrects(dc, ec, blocks)
    ensures TotalLength(dc) + TotalLength(ec) == CodeTotal(blocks)
  {
    hide Codeword;
    if blocks != [] {
      TotalsAdd(dc[1..], ec[1..], blocks[1..]);
      assert |dc[0] + ec[0]| == |Codeword(dc[0], EcCount(blocks[0]))|;
    }
  }

  lemma ArrangeLength(dc: seq<Poly>, ec: seq<Poly>)
    ensures |Arrange(dc, ec)| == TotalLength(dc) + TotalLength(ec)
  {
    InterleaveLength(dc, 0, MaxLength(dc));
    SuffixesAll(dc);
    InterleaveLength(ec, 0, MaxLength(ec));
    SuffixesAll(ec);
  }

  // ---- The methods ----------------------------------------------------------------------------

  /** Copies the blocks round by round into `data` from `start` on. */
  method InterleaveInto(data: array<Elem>, start: nat, parts: seq<Poly>, max: nat) returns (index: nat)
    requires start + |Interleave(parts, 0, max)| <= data.Length
    modifies data
    ensures index == start + |Interleave(parts, 0, max)|
    ensures data[..index] == old(data[..start]) + Interleave(parts, 0, max)
  {
    index := start;
    ghost var goal := old(data[..start]) + Interleave(parts, 0, max);
    var i := 0;
    while i < max
      invariant 0 <= i <= max && start <= index <= data.Length
      invariant data[..index] + Interleave(parts, i, max) == goal
    {
      index := CopyRound(data, index, parts, i, goal, Interleave(parts, i + 1, max));
      i := i + 1;
    }
    assert Interleave(parts, i, max) == [];
    assert data[..index] + [] == data[..index];
  }

  method CopyRound(data: array<Elem>, start: nat, parts: seq<Poly>, i: nat, ghost goal: Poly, ghost more: Poly)
    returns (index: nat)
    requires start <= data.Length && |goal| <= data.Length
    requires data[..start] + (Round(parts, i) + more) == goal
    modifies data
    ensures start <= index <= data.Length
    ensures data[..index] + more == goal
  {
    index := start;
    var r := 0;
    while r < |parts|
      invariant 0 <= r <= |parts| && start <= index <= data.Length
      invariant data[..index] + (Round(parts[r..], i) + more) == goal
    {
      RoundStarts(parts[r..], i, more);
      assert parts[r..][1..] == parts[r + 1..];
      if i < |parts[r]| {
        assert |data[..index] + (Round(parts[r..], i) + more)| == |goal|;
        ghost var before := data[..index];
        data[index] := parts[r][i];
        index := index + 1;
        assert data[..index] == before + [parts[r][i]];
        Bits.Assoc(before, [parts[r][i]], Round(parts[r + 1..], i) + more);
      }
      r := r + 1;
    }
    assert Round(parts[r..], i) == [];
    assert [] + more == more;
  }

  lemma {:induction false} MaxSnoc<T>(parts: seq<seq<T>>, p: seq<T>)
    ensures MaxLength(parts + [p]) == if |p| >= MaxLength(parts) then |p| else MaxLength(parts)
  {
    if parts != [] {
      MaxSnoc(parts[1..], p);
      assert (parts + [p])[1..] == parts[1..] + [p];
    }
  }

  lemma SliceOfTail(data: Poly, d: nat, from: nat, count: nat)
    requires d + from + count <= |data|
    ensures data[d..][from..from + count] == data[d + from..d + from + count]
  {}

  lemma {:induction false} TotalAt(blocks: seq<RsBlock>, r: nat)
    requires r < |blocks|
    ensures DataTotal(blocks[..r]) + blocks[r].dataCount <= DataTotal(blocks)
    ensures DataTotal(blocks[..r + 1]) == DataTotal(blocks[..r]) + blocks[r].dataCount
    ensures r > 0 ==> DataTotal(blocks[..r]) == blocks[0].dataCount + DataTotal(blocks[1..][..r - 1])
  {
    if r == 0 {
      assert blocks[..1][1..] == [];
    } else {
      TotalAt(blocks[1..], r - 1);
      assert blocks[..r][1..] == blocks[1..][..r - 1] && blocks[..r + 1][1..] == blocks[1..][..r];
    }
  }

  lemma {:induction false} CutAt(data: Poly, blocks: seq<RsBlock>, r: nat)
    requires r < |blocks| && DataTotal(blocks) <= |data|
    ensures DataTotal(blocks[..r]) + blocks[r].dataCount <= DataTotal(blocks)
    ensures DataTotal(blocks[..r + 1]) == DataTotal(blocks[..r]) + blocks[r].dataCount
    ensures var offset := DataTotal(blocks[..r]);
            Cut(data, blocks)[r] == data[offset..offset + blocks[r].dataCount]
  {
    TotalAt(blocks, r);
    if r > 0 {
      var d := blocks[0].dataCount;
      CutAt(data[d..], blocks[1..], r - 1);
      assert Cut(data, blocks)[r] == Cut(data[d..], blocks[1..])[r - 1];
      SliceOfTail(data, d, DataTotal(blocks[1..][..r - 1]), blocks[r].dataCount);
    }
  }

  /** The blocks of data and error correction codewords; None is the exception of a logarithm of
      zero. */
  method MakeBlocks(math: Gf256.QrMath, buffer: seq<nat>, blocks: seq<RsBlock>)
    returns (r: Option<(seq<Poly>, seq<Poly>)>, maxDc: nat, maxEc: nat)
    requires math.Valid() && Proper(blocks) && AllBytes(buffer) && DataTotal(blocks) <= |buffer|
    ensures r.None? <==> exists k :: 0 <= k < |blocks|
                           && BlockThrows(Cut(ToElems(buffer), blocks)[k], EcCount(blocks[k]))
    ensures r.Some? ==>
              && r.value.0 == Cut(ToElems(buffer), blocks)
              && Corrects(r.value.0, r.value.1, blocks)
              && maxDc == MaxLength(r.value.0) && maxEc == MaxLength(r.value.1)
  {
    hide Codeword, Generator, Cut, Gf256.ToElem, MaxLength, Strip;
    ghost var all := Cut(ToElems(buffer), blocks);
    var dcdata: seq<Poly>, ecdata: seq<Poly> := [], [];
    var offset := 0;
    maxDc, maxEc := 0, 0;
    NoParts();
    var k := 0;
    while k < |blocks|
      invariant 0 <= k <= |blocks| == |all|
      invariant |dcdata| == |ecdata| == k
      invariant offset == DataTotal(blocks[..k])
      invariant maxDc == MaxLength(dcdata) && maxEc == MaxLength(ecdata)
      invariant forall j :: 0 <= j < k ==> !BlockThrows(all[j], EcCount(blocks[j]))
      invariant forall j :: 0 <= j < k ==>
                  && dcdata[j] == all[j] && |dcdata[j]| == blocks[j].dataCount
                  && dcdata[j] + ecdata[j] == Codeword(dcdata[j], EcCount(blocks[j]))
    {
      CutAt(ToElems(buffer), blocks, k);
      var dcCount, ecCount := blocks[k].dataCount, EcCount(blocks[k]);
      var dc: Poly := seq(dcCount, i requires 0 <= i < dcCount => Gf256.ToElem(buffer[offset + i]));
      assert dc == all[k];
      var ec := ErrorCorrection(math, dc, ecCount);
      if ec.None? {
        return None, maxDc, maxEc;
      }
      assert |ec.value| == ecCount by { assert |dc + ec.value| == |Codeword(dc, ecCount)|; }
      MaxSnoc(dcdata, dc);
      MaxSnoc(ecdata, ec.value);
      maxDc := if dcCount >= maxDc then dcCount else maxDc;
      maxEc := if ecCount >= maxEc then ecCount else maxEc;
      dcdata, ecdata := dcdata + [dc], ecdata + [ec.value];
      offset := offset + dcCount;
      k := k + 1;
    }
    assert dcdata == all;
    return Some((dcdata, ecdata)), maxDc, maxEc;
  }

  lemma NoParts()
    ensures MaxLength<Elem>([]) == 0
  {}

  /** All codewords of the symbol in their final order. */
  method CreateBytes(math: Gf256.QrMath, buffer: seq<nat>, blocks: seq<RsBlock>)
    returns (r: Option<Poly>, ghost ec: seq<Poly>)
    requires math.Valid() && Proper(blocks) && AllBytes(buffer) && DataTotal(blocks) <= |buffer|
    ensures r.None? <==> exists k :: 0 <= k < |blocks|
                           && BlockThrows(Cut(ToElems(buffer), blocks)[k], EcCount(blocks[k]))
    ensures ShortCorrections(blocks) ==> r.Some?
    ensures r.Some? ==> Corrects(Cut(ToElems(buffer), blocks), ec, blocks)
    ensures r.Some? ==> r.value == Arrange(Cut(ToElems(buffer), blocks), ec) && |r.value| == CodeTotal(blocks)
  {
    hide Corrects, Cut, Gf256.ToElem, MaxLength, Interleave, Strip;
    var made, maxDc, maxEc := MakeBlocks(math, buffer, blocks);
    if made.None? {
      return None, [];
    }
    var (dcdata, ecdata) := made.value;
    ec := ecdata;
    TotalsAdd(dcdata, ecdata, blocks);
    ArrangeLength(dcdata, ecdata);
    var totalCodeCount := AddTotals(blocks);
    var data := new Elem[totalCodeCount];
    var index := InterleaveInto(data, 0, dcdata, maxDc);
    index := InterleaveInto(data, index, ecdata, maxEc);
    assert data[..index] == Arrange(dcdata, ecdata);
    assert data[..] == data[..index];
    return Some(data[..]), ec;
  }

  method AddTotals(blocks: seq<RsBlock>) returns (total: nat)
    ensures total == CodeTotal(blocks)
  {
    total := 0;
    var i := 0;
    while i < |blocks|
      invariant 0 <= i <= |blocks| && total + CodeTotal(blocks[i..]) == CodeTotal(blocks)
    {
      total := total + blocks[i].totalCount;
      assert blocks[i..][1..] == blocks[i + 1..];
      i := i + 1;
    }
  }

  // ---- A reader -------------------------------------------------------------------------------

  /** The lengths of the data blocks as the version's table gives them. */
  function DataLengths(blocks: seq<RsBlock>): (l: seq<nat>)
    ensures |l| == |blocks|
  {
    if blocks == [] then [] else [blocks[0].dataCount] + DataLengths(blocks[1..])
  }

  function MaxDataCount(blocks: seq<RsBlock>): nat {
    if blocks == [] then 0 else
      var m := MaxDataCount(blocks[1..]);
      if blocks[0].dataCount >= m then blocks[0].dataCount else m
  }

  /** Reads the segments back from an undamaged codeword stream, knowing version and block table. */
  function ReadSymbol(stream: Poly, blocks: seq<RsBlock>, version: int): Option<seq<Segments.Segment>> {
    var data := Deinterleave(DataLengths(blocks), 0, MaxDataCount(blocks), stream).0;
    Segments.ParseSegments(Bits.MsbBytes(ToNumbers(Join(data))), version)
  }

  lemma {:induction false} CutLengths(data: Poly, blocks: seq<RsBlock>)
    requires DataTotal(blocks) <= |data|
    ensures Lengths(Cut(data, blocks)) == DataLengths(blocks)
    ensures MaxLength(Cut(data, blocks)) == MaxDataCount(blocks)
  {
    if blocks != [] {
      CutLengths(data[blocks[0].dataCount..], blocks[1..]);
      assert Cut(data, blocks)[1..] == Cut(data[blocks[0].dataCount..], blocks[1..]);
    }
  }

  /** MAIN RESULT: whatever createData returns reads back as the segments it was given. */
  lemma SymbolRoundTrip(segments: seq<Segments.Segment>, version: int, bytes: seq<nat>,
                        blocks: seq<RsBlock>, ec: seq<Poly>)
    requires 1 <= version < 41 && DataTotal(blocks) <= MaxDataCodewords(version)
    requires Segments.AllWritable(segments, version)
    requires |Segments.SegmentsBits(segments, version)| <= DataTotal(blocks) * Bits.BYTE
    requires AllBytes(bytes) && |bytes| == DataTotal(blocks)
    requires Bits.MsbBytes(bytes) == Message(Segments.SegmentsBits(segments, version), DataTotal(blocks))
    ensures ReadSymbol(Arrange(Cut(ToElems(bytes), blocks), ec), blocks, version) == Some(segments)
  {
    hide Segments.ParseSegments, Segments.SegmentsBits, Message, Bits.MsbBytes, Deinterleave, Arrange, Gf256.ToElem, ToNumbers;
    var data := ToElems(bytes);
    var dc := Cut(data, blocks);
    ArrangeRoundTrip(dc, ec);
    CutLengths(data, blocks);
    CutJoins(data, blocks);
    NumbersRoundTrip(bytes);
    NoOverflowParses(segments, version, DataTotal(blocks));
  }

  /** createData: the segments' codewords in final order; None, the exception of a logarithm of
      zero, for no block table of the standard. `ec` are the error correction blocks. */
  method CreateData(math: Gf256.QrMath, version: int, blocks: seq<RsBlock>, segments: seq<Segments.Segment>)
    returns (r: Result<Option<Poly>>, ghost ec: seq<Poly>)
    requires math.Valid() && Proper(blocks)
    requires forall i :: 0 <= i < |segments| && segments[i].Bytes? ==> Segments.Writable(segments[i])
    ensures r.Ok? <==> Segments.AllWritable(segments, version)
                       && |Segments.SegmentsBits(segments, version)| <= DataTotal(blocks) * Bits.BYTE
    ensures r.Ok? && ShortCorrections(blocks) ==> r.value.Some?
    ensures r.Ok? && r.value.Some? ==> |r.value.value| == CodeTotal(blocks)
    ensures r.Ok? && r.value.Some? ==> exists dc :: Corrects(dc, ec, blocks) && r.value.value == Arrange(dc, ec)
    ensures r.Ok? && r.value.Some? && 1 <= version < 41 && DataTotal(blocks) <= MaxDataCodewords(version) ==>
              ReadSymbol(r.value.value, blocks, version) == Some(segments)
  {
    hide Segments.AllWritable, Segments.SegmentsBits, Message, Bits.MsbBytes, ReadSymbol, BlockThrows, Corrects, Arrange, Cut;
    var total := AddDataCounts(blocks);
    var made := CreateCodewords(segments, version, total);
    if made.Err? {
      return Err(made.error), [];
    }
    var out, corrections := CreateBytes(math, made.value, blocks);
    ec := corrections;
    if out.Some? && 1 <= version < 41 && total <= MaxDataCodewords(version) {
      SymbolRoundTrip(segments, version, made.value, blocks, ec);
    }
    return Ok(out), ec;
  }

  method AddDataCounts(blocks: seq<RsBlock>) returns (total: nat)
    ensures total == DataTotal(blocks)
  {
    total := 0;
    var i := 0;
    while i < |blocks|
      invariant 0 <= i <= |blocks| && total + DataTotal(blocks[i..]) == DataTotal(blocks)
    {
      total := total + blocks[i].dataCount;
      assert blocks[i..][1..] == blocks[i + 1..];
      i := i + 1;
    }
  }
}
