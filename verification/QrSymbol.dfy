/** The whole way: segments to a masked grid of modules, and back. */
module QrSymbol {
  import opened Wrappers
  import Bits
  import Gf256
  import Segments
  import opened QrData
  import opened QrBlocks
  import opened QrPlacement

  /** A scanner of an undamaged symbol: reads the bits along the path, takes the codewords,
      undoes the interleaving and parses the segments. `before` tells which modules hold data. */
  function Scan(n: nat, before: Grid, after: Grid, pattern: nat, blocks: seq<RsBlock>, version: int)
    : Option<seq<Segments.Segment>>
    requires pattern < 8
  {
    if !(Within(Walk(n), before) && Within(Walk(n), after)) then None else
    match Segments.ParseBytes(ReadBack(Walk(n), before, after, pattern), CodeTotal(blocks))
    case None => None
    case Some((stream, rest)) =>
      if AllBytes(stream) then ReadSymbol(ToElems(stream), blocks, version) else None
  }

  lemma ElemsRoundTrip(es: seq<Gf256.Elem>)
    ensures AllBytes(ToNumbers(es)) && ToElems(ToNumbers(es)) == es
  {
    hide Gf256.ToElem, Gf256.Number;
    var bytes := ToNumbers(es);
    forall i | 0 <= i < |es| ensures bytes[i] < 256 {
      Gf256.NumberRange(es[i]);
    }
    forall i | 0 <= i < |es| ensures ToElems(bytes)[i] == es[i] {
      Gf256.SameNumber(Gf256.ToElem(bytes[i]), es[i]);
    }
  }

  /** The placed codewords scan back when the grid has room for them. */
  lemma ScanReads(n: nat, before: Grid, codewords: seq<Gf256.Elem>, pattern: nat, blocks: seq<RsBlock>, version: int)
    requires n >= 7 && n % 2 == 1 && pattern < 8 && IsGrid(n, before)
    requires forall r :: 0 <= r < n ==> before[Cell(r, 6)] != Empty
    requires |codewords| == CodeTotal(blocks)
    requires Within(ZigZag(n), before) && |Free(before)| >= Bits.BYTE * |codewords|
    ensures var after := Fill(ZigZag(n), before, ToNumbers(codewords), 0, pattern);
            Scan(n, before, after, pattern, blocks, version) == ReadSymbol(codewords, blocks, version)
  {
    hide Fill, ReadBack, Bits.MsbBytes, Segments.ParseBytes, ReadSymbol, Path, EmptyCount, ToNumbers, ToElems, BitsFrom;
    hide WalkFrom;
    var data, room := ToNumbers(codewords), |Free(before)|;
    ZigZagPlaces(n, before, data, pattern);
    BitsFromStart(data, room);
    ElemsRoundTrip(codewords);
    Segments.BytesRoundTrip(data, Bits.Zeros(room - Bits.BYTE * |data|));
  }

  /** MAIN RESULT: a symbol made from segments scans back to the segments, for every mask, every
      function pattern that leaves enough empty modules, and every block table within the
      version's capacity. */
  method MakeSymbol(math: Gf256.QrMath, modules: array2<Module>, version: int, blocks: seq<RsBlock>,
                    segments: seq<Segments.Segment>, pattern: nat)
    returns (r: Result<Option<seq<Gf256.Elem>>>)
    requires math.Valid() && modules.Length0 == modules.Length1 > 0 && pattern < 8
    requires Proper(blocks) && 1 <= version < 41 && DataTotal(blocks) <= MaxDataCodewords(version)
    requires forall i :: 0 <= i < |segments| && segments[i].Bytes? ==> Segments.Writable(segments[i])
    modifies modules
    ensures r.Ok? <==> Segments.AllWritable(segments, version)
                       && |Segments.SegmentsBits(segments, version)| <= DataTotal(blocks) * Bits.BYTE
    ensures r.Ok? && ShortCorrections(blocks) ==> r.value.Some?
    ensures !(r.Ok? && r.value.Some?) ==> Cells(modules) == old(Cells(modules))
    ensures var n := modules.Length0;
            && r.Ok? && r.value.Some? && n >= 7 && n % 2 == 1
            && (forall i :: 0 <= i < n ==> old(Cells(modules))[Cell(i, 6)] != Empty)
            && |Free(old(Cells(modules)))| >= Bits.BYTE * CodeTotal(blocks)
            ==> Scan(n, old(Cells(modules)), Cells(modules), pattern, blocks, version) == Some(segments)
  {
    hide Fill, ReadSymbol, Path, EmptyCount, ToNumbers, Scan, Segments.AllWritable, Segments.SegmentsBits, Corrects, Arrange;
    hide Free;
    var made, ec := CreateData(math, version, blocks, segments);
    r := made;
    var n := modules.Length0;
    ghost var before := Cells(modules);
    if r.Ok? && r.value.Some? {
      MapData(modules, ToNumbers(r.value.value), pattern);
      if n >= 7 && n % 2 == 1 && (forall i :: 0 <= i < n ==> before[Cell(i, 6)] != Empty) {
        if |Free(before)| >= Bits.BYTE * CodeTotal(blocks) {
          ScanReads(n, before, r.value.value, pattern, blocks, version);
        }
      }
    }
  }
}
