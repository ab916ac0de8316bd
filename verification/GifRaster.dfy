/** The GIF raster of the enrolment QR image, compressed with LZW. */
module GifRaster {
  // A bit packer, a compressor whose code width grows, and a decoder written from GIF89a Appendix F
  // alone. The main result, RasterDecodes, is that the decoder returns exactly the pixels for every
  // pixel sequence over the root alphabet.

  import opened Wrappers
  import opened Bits

  // ---- Bit packer ---------------------------------------------------------------------------

  /** Packs codes of varying width into bytes, least significant bit first. */
  class BitOutputStream {
    var bytes: seq<nat>
    var bitLength: nat
    var bitBuffer: nat

    ghost predicate Valid()
      reads this
    {
      && bitLength < BYTE
      && bitBuffer < Pow2(bitLength)
      && forall i :: 0 <= i < |bytes| ==> bytes[i] < 256
    }

    /** Every bit written so far, in order. */
    ghost function Written(): seq<bool>
      reads this
    {
      LsbBytes(bytes) + Lsb(bitBuffer, bitLength)
    }

    constructor ()
      ensures Valid() && Written() == [] && bytes == []
    {
      bytes, bitLength, bitBuffer := [], 0, 0;
    }

    /** Fails, leaving the stream alone, exactly when the number does not fit its width. */
    method Write(data: nat, length: nat) returns (ok: bool)
      requires Valid()
      modifies this
      ensures Valid()
      ensures ok <==> data < Pow2(length)
      ensures Written() == if ok then old(Written()) + Lsb(data, length) else old(Written())
    {
      if data >= Pow2(length) {
        return false;
      }
      var d: nat, len: nat := data, length;
      ghost var goal := Written() + Lsb(data, length);
      while bitLength + len >= BYTE
        invariant Valid()
        invariant d < Pow2(len)
        invariant Written() + Lsb(d, len) == goal
        decreases len + bitLength
      {
        WriteStep(bytes, bitBuffer, d, bitLength, len);
        bytes := bytes + [ShlOr(d, bitLength, bitBuffer) % 256];
        d, len := Shr(d, BYTE - bitLength), len - (BYTE - bitLength);
        bitBuffer, bitLength := 0, 0;
      }
      WriteRest(bytes, bitBuffer, d, bitLength, len);
      bitBuffer := ShlOr(d, bitLength, bitBuffer);
      bitLength := bitLength + len;
      return true;
    }

    /** Pads the last byte with zero bits. */
    method Flush() returns (ghost padding: nat)
      requires Valid()
      modifies this
      ensures padding < BYTE
      ensures LsbBytes(bytes) == old(Written()) + Zeros(padding)
      ensures forall i :: 0 <= i < |bytes| ==> bytes[i] < 256
    {
      if bitLength > 0 {
        padding := BYTE - bitLength;
        FlushedByte(bitBuffer, bitLength);
        AppendByte(bytes, bitBuffer);
        bytes := bytes + [bitBuffer];
      } else {
        padding := 0;
      }
    }
  }

  lemma AppendByte(was: seq<nat>, byte: nat)
    ensures LsbBytes(was + [byte]) == LsbBytes(was) + Lsb(byte, BYTE)
  {
    LsbChunksAppend(was, [byte], BYTE);
    LsbChunksOne(byte, BYTE);
  }

  /** One output byte takes the buffered bits and the low bits of the number. */
  lemma FillByte(buffer: nat, d: nat, bl: nat, len: nat)
    requires bl < BYTE && buffer < Pow2(bl) && bl + len >= BYTE
    ensures Lsb(buffer, bl) + Lsb(d, len)
         == Lsb(ShlOr(d, bl, buffer) % 256, BYTE) + Lsb(Shr(d, BYTE - bl), bl + len - BYTE)
  {
    var room, full := BYTE - bl, ShlOr(d, bl, buffer);
    LsbSplit(d, room, len - room);
    LsbJoin(buffer, d, bl, room);
    assert Lsb(full % 256, BYTE) == Lsb(full, BYTE) by {
      Pow2Eight();
      LsbMod(full, BYTE, BYTE);
    }
  }

  lemma WriteStep(bytes: seq<nat>, buffer: nat, d: nat, bl: nat, len: nat)
    requires bl < BYTE && buffer < Pow2(bl) && bl + len >= BYTE && d < Pow2(len)
    ensures Shr(d, BYTE - bl) < Pow2(bl + len - BYTE)
    ensures LsbBytes(bytes) + Lsb(buffer, bl) + Lsb(d, len)
         == LsbBytes(bytes + [ShlOr(d, bl, buffer) % 256]) + Lsb(0, 0) + Lsb(Shr(d, BYTE - bl), bl + len - BYTE)
  {
    FillByte(buffer, d, bl, len);
    ShrFits(d, BYTE - bl, len);
    var byte := ShlOr(d, bl, buffer) % 256;
    AppendByte(bytes, byte);
    Regroup(LsbBytes(bytes), Lsb(buffer, bl), Lsb(d, len), Lsb(byte, BYTE), Lsb(Shr(d, BYTE - bl), bl + len - BYTE));
  }

  lemma Regroup<T>(a: seq<T>, b: seq<T>, c: seq<T>, x: seq<T>, y: seq<T>)
    requires b + c == x + y
    ensures a + b + c == (a + x) + [] + y
  {
    assert a + b + c == a + (b + c);
    assert (a + x) + [] + y == a + (x + y);
  }

  lemma WriteRest(bytes: seq<nat>, buffer: nat, d: nat, bl: nat, len: nat)
    requires buffer < Pow2(bl) && d < Pow2(len)
    ensures ShlOr(d, bl, buffer) < Pow2(bl + len)
    ensures LsbBytes(bytes) + Lsb(buffer, bl) + Lsb(d, len)
         == LsbBytes(bytes) + Lsb(ShlOr(d, bl, buffer), bl + len)
  {
    LsbJoin(buffer, d, bl, len);
    JoinFits(buffer, d, bl, len);
  }

  lemma ShrFits(d: nat, k: nat, len: nat)
    requires d < Pow2(len) && k <= len
    ensures Shr(d, k) < Pow2(len - k)
  {
    var q, r := DivMod(d, Pow2(k));
    if q >= Pow2(len - k) {
      Pow2Sum(len - k, k);
      MulMonotone(Pow2(len - k), q, Pow2(k));
    }
  }

  lemma JoinFits(lo: nat, hi: nat, a: nat, b: nat)
    requires lo < Pow2(a) && hi < Pow2(b)
    ensures ShlOr(hi, a, lo) < Pow2(a + b)
  {
    Pow2Sum(b, a);
    MulStep(hi, Pow2(b), Pow2(a));
  }

  lemma {:induction false} LsbOfZero(n: nat)
    ensures Lsb(0, n) == Zeros(n)
  {
    if n > 0 { LsbOfZero(n - 1); }
  }

  lemma ShlZero(a: nat, lo: nat)
    ensures ShlOr(0, a, lo) == lo
  {}

  lemma FlushedByte(buffer: nat, bl: nat)
    requires 0 < bl < BYTE && buffer < Pow2(bl)
    ensures buffer < 256 && Lsb(buffer, BYTE) == Lsb(buffer, bl) + Zeros(BYTE - bl)
  {
    Pow2Eight();
    Pow2Monotone(bl, BYTE);
    LsbJoin(buffer, 0, bl, BYTE - bl);
    ShlZero(bl, buffer);
    LsbOfZero(BYTE - bl);
  }

  // ---- Code table ---------------------------------------------------------------------------

  type Str = seq<nat>

  /** The largest table the encoder grows to, and the size at which a GIF decoder stops adding. */
  const ENCODER_LIMIT: nat := 0xfff
  const DECODER_LIMIT: nat := 4096
  const MAX_WIDTH: nat := 12

  /** Maps strings to the codes 0, 1, 2, ... in the order they were added. */
  class LzwTable {
    var codes: map<Str, nat>
    var size: nat
    ghost var entries: seq<Str>

    ghost predicate Valid()
      reads this
    {
      && size == |entries|
      && (forall i :: 0 <= i < |entries| ==> entries[i] in codes && codes[entries[i]] == i)
      && (forall s :: s in codes ==> codes[s] < |entries| && entries[codes[s]] == s)
    }

    constructor ()
      ensures Valid() && entries == []
    {
      codes, size, entries := map[], 0, [];
    }

    /** Refuses a string that already has a code. */
    method Add(s: Str) returns (ok: bool)
      requires Valid()
      modifies this
      ensures Valid()
      ensures ok <==> s !in old(entries)
      ensures entries == if ok then old(entries) + [s] else old(entries)
    {
      if s in codes {
        return false;
      }
      codes := codes[s := size];
      size := size + 1;
      entries := entries + [s];
      return true;
    }

    method Contains(s: Str) returns (found: bool)
      requires Valid()
      ensures found <==> s in entries
    {
      return s in codes;
    }

    method IndexOf(s: Str) returns (code: nat)
      requires Valid() && s in entries
      ensures code < |entries| && entries[code] == s
      ensures code == CodeOf(entries, s)
    {
      CodeOfUnique(entries, s, codes[s]);
      return codes[s];
    }
  }

  function CodeOf(table: seq<Str>, s: Str): (code: nat)
    requires s in table
    ensures code < |table| && table[code] == s
  {
    if table[0] == s then 0 else 1 + CodeOf(table[1..], s)
  }

  lemma {:induction false} CodeOfUnique(table: seq<Str>, s: Str, i: nat)
    requires i < |table| && table[i] == s && Distinct(table)
    ensures CodeOf(table, s) == i
  {
    var c := CodeOf(table, s);
    assert c == i;
  }

  ghost predicate Distinct<T>(xs: seq<T>) {
    forall i, j :: 0 <= i < j < |xs| ==> xs[i] != xs[j]
  }

  // ---- Encoder ------------------------------------------------------------------------------

  function ClearCode(m: nat): nat { Pow2(m) }

  function EndCode(m: nat): nat { Pow2(m) + 1 }

  /** The one-pixel strings, then the clear and end codes as strings of their own. */
  function Roots(n: nat): (table: seq<Str>)
    ensures |table| == n && forall i :: 0 <= i < n ==> table[i] == [i]
  {
    seq(n, i => [i])
  }

  function InitialTable(m: nat): seq<Str> {
    Roots(Pow2(m) + 2)
  }

  /** One code of the output with the number of bits it is written in. */
  datatype Emitted = Emitted(code: nat, width: nat)

  /** Adding an entry first widens the codes when the table just filled the current width. */
  function GrownTable(table: seq<Str>, entry: Str): seq<Str> {
    if |table| < ENCODER_LIMIT then table + [entry] else table
  }

  function GrownWidth(table: seq<Str>, width: nat): nat {
    if |table| < ENCODER_LIMIT && |table| == Pow2(width) then width + 1 else width
  }

  predicate AllRoots(table: seq<Str>, pixels: seq<nat>) {
    forall i :: 0 <= i < |pixels| ==> [pixels[i]] in table
  }

  /** Codes for the matched string `s` followed by the pixels `rest`. */
  function Encode(table: seq<Str>, width: nat, s: Str, rest: seq<nat>): seq<Emitted>
    requires s in table && AllRoots(table, rest)
    decreases |rest|
  {
    if rest == [] then
      [Emitted(CodeOf(table, s), width)]
    else if s + [rest[0]] in table then
      Encode(table, width, s + [rest[0]], rest[1..])
    else
      [Emitted(CodeOf(table, s), width)]
      + Encode(GrownTable(table, s + [rest[0]]), GrownWidth(table, width), [rest[0]], rest[1..])
  }

  function EmittedBits(es: seq<Emitted>): seq<bool> {
    if es == [] then [] else Lsb(es[0].code, es[0].width) + EmittedBits(es[1..])
  }

  // ---- Decoder, from GIF89a Appendix F ------------------------------------------------------

  /** The string a code stands for: a table entry, or the entry this very code will create. */
  function CodeString(table: seq<Str>, prev: Str, code: nat): Option<Str> {
    if code < |table| then Some(table[code])
    else if code == |table| && prev != [] then Some(prev + [prev[0]])
    else None
  }

  /** After a clear code a decoder knows the one-pixel strings and two codes without one. */
  function KnownRoots(m: nat): (known: seq<Str>)
    ensures |known| == Pow2(m) + 2
  {
    seq(Pow2(m) + 2, code => [code])
  }

  lemma RootsKnown(m: nat)
    ensures KnownRoots(m) == InitialTable(m)
    ensures ClearCode(m) == Pow2(m) && EndCode(m) == Pow2(m) + 1
  {}

  /** The pixels read, and where the decoder stands afterwards: its width and the bits left. */
  datatype Decoded = Decoded(pixels: seq<nat>, width: nat, left: seq<bool>)

  function Prepend(s: Str, d: Option<Decoded>): Option<Decoded> {
    match d
    case None => None
    case Some(r) => Some(r.(pixels := s + r.pixels))
  }

  /** Reads codes until `need` pixels are known; `prev` is empty right after a clear code. */
  function Decode(m: nat, table: seq<Str>, width: nat, prev: Str, bits: seq<bool>, need: nat): Option<Decoded>
    requires width > 0
    decreases |bits|
  {
    if need == 0 then Some(Decoded([], width, bits))
    else if |bits| < width then None
    else
      var code, more := LsbValue(bits[..width]), bits[width..];
      if code == Pow2(m) then Decode(m, KnownRoots(m), m + 1, [], more, need)
      else if code == Pow2(m) + 1 then None
      else match CodeString(table, prev, code)
        case None => None
        case Some(s) =>
          if s == [] || |s| > need then None
          else
            var table' := NextKnown(table, prev, s);
            Prepend(s, Decode(m, table', NextWidth(table', width), s, more, need - |s|))
  }

  /** The decoder's table after a code that names `s`: the entry pairs the previous string with
      the first pixel of this one. */
  function NextKnown(known: seq<Str>, prev: Str, s: Str): seq<Str>
    requires s != []
  {
    if prev == [] || |known| >= DECODER_LIMIT then known else known + [prev + [s[0]]]
  }

  function NextWidth(known: seq<Str>, width: nat): (w: nat)
    ensures width <= w <= width + 1
  {
    if |known| == Pow2(width) && width < 12 then width + 1 else width
  }

  // ---- The decoder follows the encoder ------------------------------------------------------

  /** What the encoder keeps: distinct entries that fit the width, pixel strings besides the
      two control codes. */
  ghost predicate EncoderInv(m: nat, table: seq<Str>, width: nat, s: Str)
  {
    && 2 <= m <= 8
    && Distinct(table)
    && Pow2(m) + 2 <= |table| <= ENCODER_LIMIT
    && table[..Pow2(m) + 2] == InitialTable(m)
    && m < width <= MAX_WIDTH && |table| <= Pow2(width)
    && (|table| == ENCODER_LIMIT ==> width == MAX_WIDTH)
    && s in table && s != [] && AllPixels(m, s)
  }

  /** The decoder lags the encoder by one entry until the encoder's table is frozen. */
  ghost predicate Synced(m: nat, table: seq<Str>, width: nat, s: Str, known: seq<Str>, width': nat, prev: Str)
    requires s != []
  {
    && width' == width
    && if prev == [] then
         known == table == InitialTable(m) && width == m + 1
       else if |known| < ENCODER_LIMIT then
         |table| == |known| + 1 && table == known + [prev + [s[0]]]
       else
         |table| == ENCODER_LIMIT && table <= known
  }

  lemma Pow2Twelve()
    ensures Pow2(MAX_WIDTH) == 4096 && Pow2(11) == 2048
  {
    assert Pow2(4) == 16;
    Pow2Sum(4, 4);
    Pow2Sum(4, 8);
    assert Pow2(3) == 8;
    Pow2Sum(3, 8);
  }

  /** The code of a matched string fits its width, is no control code, and the lagging decoder
      reads the string back: from its table, or as the entry it is about to create. */
  lemma CodeReads(m: nat, table: seq<Str>, width: nat, s: Str, known: seq<Str>, width': nat, prev: Str)
    requires EncoderInv(m, table, width, s) && Synced(m, table, width, s, known, width', prev)
    ensures var code := CodeOf(table, s);
            && code < Pow2(width) && code != ClearCode(m) && code != EndCode(m)
            && CodeString(known, prev, code) == Some(s)
    ensures width == width' && s != [] && 0 < width
  {
    var code := CodeOf(table, s);
    var first := InitialTable(m);
    assert forall i :: 0 <= i < |first| ==> table[i] == table[..|first|][i];
    assert table[Pow2(m)] == [Pow2(m)] && table[Pow2(m) + 1] == [Pow2(m) + 1];
    if prev != [] && code == |known| {
      assert s == prev + [s[0]];
      assert s[0] == prev[0];
    }
  }

  /** Starting the next match keeps the encoder's invariant. */
  lemma StepKeepsInv(m: nat, table: seq<Str>, width: nat, s: Str, c: nat)
    requires EncoderInv(m, table, width, s)
    requires c < Pow2(m) && s + [c] !in table
    ensures EncoderInv(m, GrownTable(table, s + [c]), GrownWidth(table, width), [c])
  {
    Pow2Twelve();
    var table', w := GrownTable(table, s + [c]), GrownWidth(table, width);
    assert table'[..Pow2(m) + 2] == table[..Pow2(m) + 2];
    assert table'[c] == table'[..Pow2(m) + 2][c] == [c];
    if |table| < ENCODER_LIMIT {
      if width == MAX_WIDTH { assert |table| < Pow2(width); }
      WidthIsTwelve(|table'|, w);
    }
  }

  /** When a match ends, both sides add an entry and widen their codes alike. */
  lemma StepKeepsSync(m: nat, table: seq<Str>, width: nat, s: Str, c: nat,
                      known: seq<Str>, width': nat, prev: Str)
    requires EncoderInv(m, table, width, s) && Synced(m, table, width, s, known, width', prev)
    ensures Synced(m, GrownTable(table, s + [c]), GrownWidth(table, width), [c],
                   NextKnown(known, prev, s), NextWidth(NextKnown(known, prev, s), width'), s)
  {
    Pow2Twelve();
    InitialFits(m);
  }

  lemma InitialFits(m: nat)
    requires 2 <= m <= 8
    ensures Pow2(m) + 2 < Pow2(m + 1) && Pow2(m + 1) <= 512
  {
    Pow2Monotone(2, m);
    assert Pow2(2) == 4;
    Pow2Monotone(m + 1, 9);
    assert Pow2(5) == 32 && Pow2(4) == 16;
    Pow2Sum(5, 4);
  }

  lemma WidthIsTwelve(size: nat, width: nat)
    requires size <= Pow2(width) && width <= MAX_WIDTH
    ensures size == ENCODER_LIMIT ==> width == MAX_WIDTH
  {
    Pow2Twelve();
    if width <= 11 { Pow2Monotone(width, 11); }
  }

  lemma PixelsAreRoots(m: nat, table: seq<Str>, rest: seq<nat>)
    requires |table| >= Pow2(m) + 2 && table[..Pow2(m) + 2] == InitialTable(m)
    requires AllPixels(m, rest)
    ensures AllRoots(table, rest)
  {
    forall i | 0 <= i < |rest| ensures [rest[i]] in table {
      assert table[rest[i]] == table[..Pow2(m) + 2][rest[i]];
    }
  }

  ghost predicate AllPixels(m: nat, pixels: seq<nat>) {
    forall i :: 0 <= i < |pixels| ==> pixels[i] < Pow2(m)
  }

  /** One step of the decoder on a code that names `s`. */
  lemma ReadsOne(m: nat, known: seq<Str>, width: nat, prev: Str, code: nat, more: seq<bool>, need: nat, s: Str)
    requires 0 < width && code < Pow2(width) && code != ClearCode(m) && code != EndCode(m)
    requires CodeString(known, prev, code) == Some(s) && s != [] && |s| <= need
    ensures Decode(m, known, width, prev, Lsb(code, width) + more, need)
         == Prepend(s, Decode(m, NextKnown(known, prev, s), NextWidth(NextKnown(known, prev, s), width), s,
                              more, need - |s|))
  {
    var bits := Lsb(code, width) + more;
    LsbRoundTrip(code, width);
    assert bits[..width] == Lsb(code, width) && bits[width..] == more;
  }

  /** The decoder reads one emitted code and goes on as it would on what follows. */
  lemma EmitThen(m: nat, known: seq<Str>, width: nat, prev: Str, code: nat, s: Str,
                 es: seq<Emitted>, tail: seq<bool>, need: nat)
    requires 0 < width && code < Pow2(width) && code != ClearCode(m) && code != EndCode(m)
    requires s != [] && CodeString(known, prev, code) == Some(s)
    ensures Decode(m, known, width, prev, EmittedBits([Emitted(code, width)] + es) + tail, |s| + need)
         == Prepend(s, Decode(m, NextKnown(known, prev, s), NextWidth(NextKnown(known, prev, s), width), s,
                              EmittedBits(es) + tail, need))
  {
    hide Decode;
    var all := [Emitted(code, width)] + es;
    assert all[1..] == es;
    Assoc(Lsb(code, width), EmittedBits(es), tail);
    ReadsOne(m, known, width, prev, code, EmittedBits(es) + tail, |s| + need, s);
  }

  lemma ExtendKeepsSync(m: nat, table: seq<Str>, width: nat, s: Str, c: nat,
                        known: seq<Str>, width': nat, prev: Str)
    requires EncoderInv(m, table, width, s) && Synced(m, table, width, s, known, width', prev)
    requires c < Pow2(m) && s + [c] in table
    ensures EncoderInv(m, table, width, s + [c]) && Synced(m, table, width, s + [c], known, width', prev)
  {}

  lemma DecodeNothing(m: nat, known: seq<Str>, width: nat, prev: Str, bits: seq<bool>)
    requires width > 0
    ensures Decode(m, known, width, prev, bits, 0) == Some(Decoded([], width, bits))
  {}

  /** The last of the codes fills a table of `size` entries up to its own width: each code but the
      last adds an entry. */
  predicate FillsWidth(size: nat, es: seq<Emitted>) {
    es != [] && es[|es| - 1].width < MAX_WIDTH && size + |es| - 1 == Pow2(es[|es| - 1].width)
  }

  /** The decoder has read `pixels`, left `tail`, and stands at the encoder's last width, or at one
      more if the table is full: the encoder does not widen after the last code of the image. */
  ghost predicate ReadsBack(d: Option<Decoded>, pixels: seq<nat>, es: seq<Emitted>, tail: seq<bool>, size: nat) {
    && es != [] && d.Some?
    && d.value.pixels == pixels && d.value.left == tail
    && d.value.width == es[|es| - 1].width + (if FillsWidth(size, es) then 1 else 0)
  }

  /** After its last code the decoder widens exactly when the encoder's table is full. */
  lemma LastCodeWidens(m: nat, table: seq<Str>, width: nat, s: Str, known: seq<Str>, prev: Str, code: nat)
    requires EncoderInv(m, table, width, s) && Synced(m, table, width, s, known, width, prev)
    ensures NextWidth(NextKnown(known, prev, s), width)
         == width + (if FillsWidth(|table|, [Emitted(code, width)]) then 1 else 0)
  {
    Pow2Twelve();
    InitialFits(m);
  }

  lemma FitsTwelve(m: nat, table: seq<Str>, width: nat, s: Str)
    requires EncoderInv(m, table, width, s)
    ensures width <= MAX_WIDTH && s in table
  {}

  lemma LongerInv(m: nat, table: seq<Str>, width: nat, s: Str, rest: seq<nat>)
    requires EncoderInv(m, table, width, s) && AllPixels(m, rest) && rest != [] && s + [rest[0]] in table
    ensures EncoderInv(m, table, width, s + [rest[0]]) && AllPixels(m, rest[1..])
  {}

  lemma FirstPixel(m: nat, rest: seq<nat>)
    requires AllPixels(m, rest) && rest != []
    ensures rest[0] < Pow2(m)
  {}

  /** Codes never get narrower, and the codes of a table that has stopped growing have 12 bits. */
  lemma {:induction false} LastIsWidest(m: nat, table: seq<Str>, width: nat, s: Str, rest: seq<nat>)
    requires EncoderInv(m, table, width, s)
    requires AllPixels(m, rest) && AllRoots(table, rest)
    ensures var es := Encode(table, width, s, rest); es != [] && width <= es[|es| - 1].width <= MAX_WIDTH
    decreases |rest|
  {
    hide Pow2, CodeOf, AllPixels, EncoderInv;
    FitsTwelve(m, table, width, s);
    if rest != [] && s + [rest[0]] in table {
      LongerInv(m, table, width, s, rest);
      LastIsWidest(m, table, width, s + [rest[0]], rest[1..]);
    } else if rest != [] {
      var c := rest[0];
      FirstPixel(m, rest);
      StepKeepsInv(m, table, width, s, c);
      var table', w := GrownTable(table, s + [c]), GrownWidth(table, width);
      RootsStay(m, table', w, [c], rest);
      LastIsWidest(m, table', w, [c], rest[1..]);
    }
  }

  /** A code before the last one moves the count of entries along, or the table has stopped. */
  lemma FillsWidthStep(m: nat, table: seq<Str>, width: nat, s: Str, c: nat, rest: seq<nat>, first: Emitted)
    requires EncoderInv(m, table, width, s) && c < Pow2(m) && s + [c] !in table
    requires var table' := GrownTable(table, s + [c]);
             EncoderInv(m, table', GrownWidth(table, width), [c]) && AllPixels(m, rest) && AllRoots(table', rest)
    ensures var es := Encode(GrownTable(table, s + [c]), GrownWidth(table, width), [c], rest);
            FillsWidth(|table|, [first] + es) == FillsWidth(|GrownTable(table, s + [c])|, es)
  {
    hide Pow2, Encode;
    LastIsWidest(m, GrownTable(table, s + [c]), GrownWidth(table, width), [c], rest);
  }

  /** Everything the encoder emits for `s` and `rest` reads back as `s` and `rest`, whatever
      follows it in the bit stream. */
  lemma {:induction false} DecodeFollowsEncode(
      m: nat, table: seq<Str>, width: nat, s: Str, rest: seq<nat>,
      known: seq<Str>, width': nat, prev: Str, tail: seq<bool>)
    requires EncoderInv(m, table, width, s) && Synced(m, table, width, s, known, width', prev)
    requires AllPixels(m, rest) && AllRoots(table, rest)
    requires 0 < width'
    ensures ReadsBack(
              Decode(m, known, width', prev, EmittedBits(Encode(table, width, s, rest)) + tail, |s| + |rest|),
              s + rest, Encode(table, width, s, rest), tail, |table|)
    decreases |rest|
  {
    hide Decode, Synced, EncoderInv, CodeString, Lsb, NextKnown, NextWidth, Pow2, FillsWidth;
    if rest != [] && s + [rest[0]] in table {
      ExtendKeepsSync(m, table, width, s, rest[0], known, width', prev);
      DecodeFollowsEncode(m, table, width, s + [rest[0]], rest[1..], known, width', prev, tail);
      assert s + [rest[0]] + rest[1..] == s + rest;
    } else {
      CodeReads(m, table, width, s, known, width', prev);
      var known', w' := NextKnown(known, prev, s), NextWidth(NextKnown(known, prev, s), width');
      var first := Emitted(CodeOf(table, s), width);
      var es: seq<Emitted> := [];
      if rest == [] {
        DecodeNothing(m, known', w', s, EmittedBits(es) + tail);
        LastCodeWidens(m, table, width, s, known, prev, first.code);
        assert [first] + es == [first];
      } else {
        var c := rest[0];
        StepKeepsInv(m, table, width, s, c);
        StepKeepsSync(m, table, width, s, c, known, width', prev);
        var table', w := GrownTable(table, s + [c]), GrownWidth(table, width);
        RootsStay(m, table', w, [c], rest);
        DecodeFollowsEncode(m, table', w, [c], rest[1..], known', w', s, tail);
        FillsWidthStep(m, table, width, s, c, rest[1..], first);
        assert [c] + rest[1..] == rest;
        es := Encode(table', w, [c], rest[1..]);
      }
      assert Encode(table, width, s, rest) == [first] + es;
      EmitThen(m, known, width, prev, CodeOf(table, s), s, es, tail, |rest|);
    }
  }

  lemma RootsStay(m: nat, table': seq<Str>, width: nat, s: Str, rest: seq<nat>)
    requires EncoderInv(m, table', width, s) && AllPixels(m, rest) && rest != []
    ensures AllPixels(m, rest[1..]) && AllRoots(table', rest[1..])
  {
    PixelsAreRoots(m, table', rest[1..]);
  }

  /** No code is ever too wide for the bit packer, and no width exceeds 12 bits. */
  lemma {:induction false} EmittedFit(m: nat, table: seq<Str>, width: nat, s: Str, rest: seq<nat>)
    requires EncoderInv(m, table, width, s)
    requires AllPixels(m, rest) && AllRoots(table, rest)
    ensures forall e :: e in Encode(table, width, s, rest) ==> e.code < Pow2(e.width) && m < e.width <= MAX_WIDTH
    decreases |rest|
  {
    if rest != [] && s + [rest[0]] in table {
      EmittedFit(m, table, width, s + [rest[0]], rest[1..]);
    } else if rest != [] {
      var c := rest[0];
      StepKeepsInv(m, table, width, s, c);
      var table', w := GrownTable(table, s + [c]), GrownWidth(table, width);
      RootsStay(m, table', w, [c], rest);
      EmittedFit(m, table', w, [c], rest[1..]);
    }
  }

  // ---- The raster of a whole image ----------------------------------------------------------

  /** The first match; an empty image is encoded as if it began with colour 0. */
  function FirstMatch(data: seq<nat>): Str {
    if data == [] then [0] else [data[0]]
  }

  function AfterFirst(data: seq<nat>): seq<nat> {
    if data == [] then [] else data[1..]
  }

  lemma InitialInv(m: nat, data: seq<nat>)
    requires 2 <= m <= 8 && AllPixels(m, data)
    ensures EncoderInv(m, InitialTable(m), m + 1, FirstMatch(data))
    ensures AllPixels(m, AfterFirst(data)) && AllRoots(InitialTable(m), AfterFirst(data))
    ensures Synced(m, InitialTable(m), m + 1, FirstMatch(data), InitialTable(m), m + 1, [])
  {
    InitialFits(m);
    var table := InitialTable(m);
    assert table[FirstMatch(data)[0]] == FirstMatch(data);
    assert table[..Pow2(m) + 2] == table;
    PixelsAreRoots(m, table, AfterFirst(data));
  }

  function ImageCodes(m: nat, data: seq<nat>): seq<Emitted>
    requires 2 <= m <= 8 && AllPixels(m, data)
  {
    InitialInv(m, data);
    Encode(InitialTable(m), m + 1, FirstMatch(data), AfterFirst(data))
  }

  lemma {:induction false} EncodeNonempty(table: seq<Str>, width: nat, s: Str, rest: seq<nat>)
    requires s in table && AllRoots(table, rest)
    ensures Encode(table, width, s, rest) != []
    decreases |rest|
  {
    if rest != [] && s + [rest[0]] in table { EncodeNonempty(table, width, s + [rest[0]], rest[1..]); }
  }

  /** The width of the last image code, in which the end code is written too. */
  function LastWidth(m: nat, data: seq<nat>): nat
    requires 2 <= m <= 8 && AllPixels(m, data)
  {
    InitialInv(m, data);
    EncodeNonempty(InitialTable(m), m + 1, FirstMatch(data), AfterFirst(data));
    var es := ImageCodes(m, data);
    es[|es| - 1].width
  }

  /** The entries fill the last width: the guard for widening, which the encoder does not come back
      to before the end code. Each code but the last adds an entry to the first Pow2(m) + 2. */
  predicate TableFull(m: nat, data: seq<nat>)
    requires 2 <= m <= 8 && AllPixels(m, data)
  {
    Pow2(m) + 1 + |ImageCodes(m, data)| == Pow2(LastWidth(m, data)) && LastWidth(m, data) < MAX_WIDTH
  }

  function RasterBits(m: nat, data: seq<nat>): seq<bool>
    requires 2 <= m <= 8 && AllPixels(m, data)
  {
    Lsb(ClearCode(m), m + 1) + (EmittedBits(ImageCodes(m, data)) + Lsb(EndCode(m), LastWidth(m, data)))
  }

  /** A decoder that knows only the root size and the number of pixels. */
  function DecodeImage(m: nat, bits: seq<bool>, count: nat): Option<Decoded> {
    Decode(m, KnownRoots(m), m + 1, [], bits, count)
  }

  /** The raster starts with a clear code, as GIF89a asks of encoders. */
  lemma StartsWithClear(m: nat, data: seq<nat>)
    requires 2 <= m <= 8 && AllPixels(m, data)
    ensures |RasterBits(m, data)| >= m + 1 && LsbValue(RasterBits(m, data)[..m + 1]) == Pow2(m)
  {
    hide ImageCodes, LastWidth, EmittedBits, Lsb;
    LsbRoundTrip(ClearCode(m), m + 1);
    var rest := EmittedBits(ImageCodes(m, data)) + Lsb(EndCode(m), LastWidth(m, data));
    assert (Lsb(ClearCode(m), m + 1) + rest)[..m + 1] == Lsb(ClearCode(m), m + 1);
  }

  lemma {:induction false} DecodeClear(m: nat, bits: seq<bool>, count: nat)
    requires count > 0
    ensures DecodeImage(m, Lsb(ClearCode(m), m + 1) + bits, count) == DecodeImage(m, bits, count)
  {
    var all := Lsb(ClearCode(m), m + 1) + bits;
    RootsKnown(m);
    LsbRoundTrip(ClearCode(m), m + 1);
    assert all[..m + 1] == Lsb(ClearCode(m), m + 1) && all[m + 1..] == bits;
  }

  /** MAIN RESULT: every image over the root alphabet decodes to its own pixels. */
  lemma RasterDecodes(m: nat, data: seq<nat>, padding: seq<bool>)
    requires 2 <= m <= 8 && AllPixels(m, data)
    ensures var d := DecodeImage(m, RasterBits(m, data) + padding, |data|);
            && d.Some? && d.value.pixels == data
            && (data != [] ==>
                 && d.value.left == Lsb(EndCode(m), LastWidth(m, data)) + padding
                 && d.value.width == LastWidth(m, data) + (if TableFull(m, data) then 1 else 0))
  {
    hide Decode, Encode, EmittedBits, EncoderInv, Synced, Lsb, Pow2, AllRoots, Roots;
    if data == [] {
      DecodeNothing(m, KnownRoots(m), m + 1, [], RasterBits(m, data) + padding);
    } else {
      InitialInv(m, data);
      RootsKnown(m);
      var codes, end := EmittedBits(ImageCodes(m, data)), Lsb(EndCode(m), LastWidth(m, data));
      Assoc(Lsb(ClearCode(m), m + 1), codes + end, padding);
      Assoc(codes, end, padding);
      DecodeClear(m, codes + (end + padding), |data|);
      DecodeFollowsEncode(m, InitialTable(m), m + 1, FirstMatch(data), AfterFirst(data),
                          InitialTable(m), m + 1, [], end + padding);
      assert [data[0]] + data[1..] == data;
    }
  }

  lemma EndCodeBits(m: nat, width: nat, wider: bool, padding: nat)
    requires EndCode(m) < Pow2(width)
    ensures var bits := Lsb(EndCode(m), width) + Zeros(padding);
            var w := if wider then width + 1 else width;
            && (|bits| >= w <==> !wider || padding > 0)
            && (|bits| >= w ==> LsbValue(bits[..w]) == EndCode(m))
  {
    var bits := Lsb(EndCode(m), width) + Zeros(padding);
    LsbRoundTrip(EndCode(m), width);
    assert bits[..width] == Lsb(EndCode(m), width);
    if wider && padding > 0 {
      LsbJoin(EndCode(m), 0, width, 1);
      ShlZero(width, EndCode(m));
      LsbOfZero(1);
      assert bits[..width + 1] == Lsb(EndCode(m), width) + Zeros(1) == Lsb(EndCode(m), width + 1);
      Pow2Monotone(width, width + 1);
      LsbRoundTrip(EndCode(m), width + 1);
    }
  }

  /** The encoder writes the end code without checking the width once more, so the decoder wants one
      bit more than was written when the table is full. It finds the end code exactly when the table
      is not full or the bits do not end at a byte boundary, which brings a padding bit. */
  lemma EndCodeReadable(m: nat, data: seq<nat>, raster: seq<nat>, padding: nat)
    requires 2 <= m <= 8 && AllPixels(m, data) && data != []
    requires padding < BYTE && LsbBytes(raster) == RasterBits(m, data) + Zeros(padding)
    ensures DecodeImage(m, LsbBytes(raster), |data|).Some?
    ensures var d := DecodeImage(m, LsbBytes(raster), |data|).value;
            && (|d.left| >= d.width <==> !TableFull(m, data) || |RasterBits(m, data)| % BYTE != 0)
            && (|d.left| >= d.width ==> LsbValue(d.left[..d.width]) == Pow2(m) + 1)
  {
    hide DecodeImage, RasterBits, LastWidth, Lsb, LsbBytes, Pow2, AllPixels, TableFull;
    RasterDecodes(m, data, Zeros(padding));
    var w := LastWidth(m, data);
    LastWidthExceeds(m, data);
    EndCodeFits(m, w);
    EndCodeBits(m, w, TableFull(m, data), padding);
    LsbLength(raster);
    PaddingNeeded(|RasterBits(m, data)|, padding, |raster|);
  }

  lemma {:induction false} LsbLength(bytes: seq<nat>)
    ensures |LsbBytes(bytes)| == BYTE * |bytes|
  {
    hide Lsb;
    if bytes != [] { LsbLength(bytes[1..]); }
  }

  lemma PaddingNeeded(bits: nat, padding: nat, bytes: nat)
    requires padding < BYTE && bits + padding == BYTE * bytes
    ensures padding > 0 <==> bits % BYTE != 0
  {}

  lemma LastWidthExceeds(m: nat, data: seq<nat>)
    requires 2 <= m <= 8 && AllPixels(m, data)
    ensures m < LastWidth(m, data) <= MAX_WIDTH
  {
    hide Encode, Pow2, AllRoots, EncoderInv;
    InitialInv(m, data);
    EncodeNonempty(InitialTable(m), m + 1, FirstMatch(data), AfterFirst(data));
    EmittedFit(m, InitialTable(m), m + 1, FirstMatch(data), AfterFirst(data));
    var es := ImageCodes(m, data);
    assert es[|es| - 1] in es;
  }

  lemma EndCodeFits(m: nat, width: nat)
    requires 2 <= m <= 8 && m < width
    ensures EndCode(m) < Pow2(width)
  {
    InitialFits(m);
    Pow2Monotone(m + 1, width);
  }

  lemma {:induction false} EmittedBitsAppend(xs: seq<Emitted>, ys: seq<Emitted>)
    ensures EmittedBits(xs + ys) == EmittedBits(xs) + EmittedBits(ys)
  {
    if xs == [] {
      assert xs + ys == ys;
    } else {
      assert (xs + ys)[1..] == xs[1..] + ys;
      EmittedBitsAppend(xs[1..], ys);
      Assoc(Lsb(xs[0].code, xs[0].width), EmittedBits(xs[1..]), EmittedBits(ys));
    }
  }

  function Left(data: seq<nat>, i: nat): seq<nat> {
    if i <= |data| then data[i..] else []
  }

  /** What is emitted so far and what the encoder would still emit make up the whole image. */
  ghost predicate Encoding(m: nat, data: seq<nat>, table: seq<Str>, width: nat, s: Str, rest: seq<nat>,
                           done: seq<Emitted>)
  {
    && EncoderInv(m, table, width, s)
    && AllPixels(m, data) && AllPixels(m, rest) && AllRoots(table, rest)
    && ImageCodes(m, data) == done + Encode(table, width, s, rest)
  }

  lemma EncodingStarts(m: nat, data: seq<nat>)
    requires 2 <= m <= 8 && AllPixels(m, data)
    ensures Encoding(m, data, Roots(Pow2(m) + 2), m + 1, FirstMatch(data), AfterFirst(data), [])
  {
    InitialInv(m, data);
  }

  /** The current match can be emitted: it has a code, and the code fits. */
  lemma MatchHasCode(m: nat, data: seq<nat>, table: seq<Str>, width: nat, s: Str, rest: seq<nat>, done: seq<Emitted>)
    requires Encoding(m, data, table, width, s, rest, done)
    ensures s in table && CodeOf(table, s) < Pow2(width)
    ensures EndCode(m) < Pow2(width)
  {}

  lemma EncodingExtends(m: nat, data: seq<nat>, table: seq<Str>, width: nat, s: Str, rest: seq<nat>, done: seq<Emitted>)
    requires Encoding(m, data, table, width, s, rest, done) && rest != [] && s + [rest[0]] in table
    ensures Encoding(m, data, table, width, s + [rest[0]], rest[1..], done)
  {}

  lemma EncodingEmits(m: nat, data: seq<nat>, table: seq<Str>, width: nat, s: Str, rest: seq<nat>, done: seq<Emitted>)
    requires Encoding(m, data, table, width, s, rest, done) && rest != [] && s + [rest[0]] !in table
    ensures s in table
    ensures Encoding(m, data, GrownTable(table, s + [rest[0]]), GrownWidth(table, width), [rest[0]], rest[1..],
                     done + [Emitted(CodeOf(table, s), width)])
  {
    var c := rest[0];
    StepKeepsInv(m, table, width, s, c);
    RootsStay(m, GrownTable(table, s + [c]), GrownWidth(table, width), [c], rest);
    Assoc(done, [Emitted(CodeOf(table, s), width)],
          Encode(GrownTable(table, s + [c]), GrownWidth(table, width), [c], rest[1..]));
  }

  lemma EncodingEnds(m: nat, data: seq<nat>, table: seq<Str>, width: nat, s: Str, done: seq<Emitted>)
    requires Encoding(m, data, table, width, s, [], done)
    ensures s in table
    ensures ImageCodes(m, data) == done + [Emitted(CodeOf(table, s), width)] && LastWidth(m, data) == width
  {}

  lemma EmitMore(head: seq<bool>, done: seq<Emitted>, one: Emitted)
    ensures head + EmittedBits(done) + Lsb(one.code, one.width) == head + EmittedBits(done + [one])
  {
    EmittedBitsAppend(done, [one]);
    assert EmittedBits([one][1..]) == [];
    Assoc(head, EmittedBits(done), Lsb(one.code, one.width));
  }

  method SetupTable(m: nat) returns (table: LzwTable)
    ensures table.Valid() && fresh(table) && table.entries == Roots(Pow2(m) + 2)
  {
    table := new LzwTable();
    var i := 0;
    while i < Pow2(m) + 2
      invariant i <= Pow2(m) + 2
      invariant table.Valid() && fresh(table) && table.entries == Roots(i)
    {
      var added := table.Add([i]);
      assert added;
      i := i + 1;
    }
  }

  /** Gives the entry the next code, widening the codes first when the table fills the width. */
  method GrowTable(table: LzwTable, entry: Str, bitLength: nat) returns (width: nat)
    requires table.Valid() && entry !in table.entries
    modifies table
    ensures table.Valid()
    ensures table.entries == GrownTable(old(table.entries), entry)
    ensures width == GrownWidth(old(table.entries), bitLength)
  {
    width := bitLength;
    if table.size < ENCODER_LIMIT {
      if table.size == Pow2(width) {
        width := width + 1;
      }
      var added := table.Add(entry);
      assert added;
    }
  }

  /** Writes the code of a match; it always fits. */
  method EmitCode(table: LzwTable, bitOut: BitOutputStream, s: Str, bitLength: nat,
                  ghost head: seq<bool>, ghost done: seq<Emitted>)
    returns (ghost one: Emitted)
    requires table.Valid() && bitOut.Valid()
    requires s in table.entries && CodeOf(table.entries, s) < Pow2(bitLength)
    requires bitOut.Written() == head + EmittedBits(done)
    modifies bitOut
    ensures bitOut.Valid() && one == Emitted(CodeOf(table.entries, s), bitLength)
    ensures bitOut.Written() == head + EmittedBits(done + [one])
  {
    var code := table.IndexOf(s);
    one := Emitted(code, bitLength);
    var ok := bitOut.Write(code, bitLength);
    assert ok;
    EmitMore(head, done, one);
  }

  /** Writes the last match and the end code, and pads the last byte. */
  method FinishRaster(m: nat, data: seq<nat>, table: LzwTable, bitOut: BitOutputStream, s: Str, bitLength: nat,
                      ghost head: seq<bool>, ghost done: seq<Emitted>)
    returns (ghost padding: nat)
    requires table.Valid() && bitOut.Valid()
    requires 2 <= m <= 8 && AllPixels(m, data)
    requires Encoding(m, data, table.entries, bitLength, s, [], done)
    requires head == Lsb(ClearCode(m), m + 1) && bitOut.Written() == head + EmittedBits(done)
    modifies bitOut
    ensures padding < BYTE && LsbBytes(bitOut.bytes) == RasterBits(m, data) + Zeros(padding)
    ensures forall i :: 0 <= i < |bitOut.bytes| ==> bitOut.bytes[i] < 256
  {
    hide Encode, Encoding, EmittedBits, CodeOf, Lsb, LsbBytes, ImageCodes, LastWidth;
    hide LzwTable.Valid, BitOutputStream.Valid, BitOutputStream.Written;
    MatchHasCode(m, data, table.entries, bitLength, s, [], done);
    EncodingEnds(m, data, table.entries, bitLength, s, done);
    ghost var last := EmitCode(table, bitOut, s, bitLength, head, done);
    var ok := bitOut.Write(EndCode(m), bitLength);
    assert ok;
    Assoc(head, EmittedBits(ImageCodes(m, data)), Lsb(EndCode(m), bitLength));
    padding := bitOut.Flush();
  }

  /** One turn of the encoder's loop: lengthen the match, or emit it and start a new one. */
  method EncodePixel(m: nat, ghost data: seq<nat>, table: LzwTable, bitOut: BitOutputStream,
                     s: Str, bitLength: nat, c: nat,
                     ghost rest: seq<nat>, ghost head: seq<bool>, ghost done: seq<Emitted>)
    returns (s': Str, bitLength': nat, ghost done': seq<Emitted>)
    requires table.Valid() && bitOut.Valid()
    requires rest != [] && rest[0] == c
    requires Encoding(m, data, table.entries, bitLength, s, rest, done)
    requires bitOut.Written() == head + EmittedBits(done)
    modifies table, bitOut
    ensures table.Valid() && bitOut.Valid()
    ensures Encoding(m, data, table.entries, bitLength', s', rest[1..], done')
    ensures bitOut.Written() == head + EmittedBits(done')
  {
    hide Encoding, EmittedBits, CodeOf, GrownTable, GrownWidth;
    hide LzwTable.Valid, BitOutputStream.Valid, BitOutputStream.Written;
    var found := table.Contains(s + [c]);
    if found {
      EncodingExtends(m, data, table.entries, bitLength, s, rest, done);
      s', bitLength', done' := s + [c], bitLength, done;
    } else {
      MatchHasCode(m, data, table.entries, bitLength, s, rest, done);
      EncodingEmits(m, data, table.entries, bitLength, s, rest, done);
      ghost var one := EmitCode(table, bitOut, s, bitLength, head, done);
      done' := done + [one];
      bitLength' := GrowTable(table, s + [c], bitLength);
      s' := [c];
    }
  }

  /** Compresses the pixels. None of the encoder's own failures ('length over', 'dup key') can
      happen, and the bytes are those of RasterBits. */
  method GetLzwRaster(m: nat, data: seq<nat>) returns (raster: seq<nat>, ghost padding: nat)
    requires 2 <= m <= 8 && AllPixels(m, data)
    ensures padding < BYTE && LsbBytes(raster) == RasterBits(m, data) + Zeros(padding)
    ensures forall i :: 0 <= i < |raster| ==> raster[i] < 256
    ensures DecodeImage(m, LsbBytes(raster), |data|).Some?
    ensures DecodeImage(m, LsbBytes(raster), |data|).value.pixels == data
  {
    hide Encoding, EmittedBits, DecodeImage, Lsb, LsbBytes, RasterBits, Pow2, Roots, LastWidth, TableFull, AllPixels;
    hide LzwTable.Valid, BitOutputStream.Valid, BitOutputStream.Written;
    var table := SetupTable(m);
    var bitOut := new BitOutputStream();
    var bitLength: nat := m + 1;
    EncodingStarts(m, data);
    MatchHasCode(m, data, table.entries, bitLength, FirstMatch(data), AfterFirst(data), []);
    var ok := bitOut.Write(ClearCode(m), bitLength);
    ghost var head := Lsb(ClearCode(m), m + 1);
    ghost var done: seq<Emitted> := [];
    NothingEmitted(head);
    var dataIndex, s := 1, FirstMatch(data);
    while dataIndex < |data|
      invariant table.Valid() && bitOut.Valid() && fresh(table) && fresh(bitOut)
      invariant Encoding(m, data, table.entries, bitLength, s, Left(data, dataIndex), done)
      invariant bitOut.Written() == head + EmittedBits(done)
    {
      ghost var rest := Left(data, dataIndex);
      assert rest[1..] == Left(data, dataIndex + 1);
      s, bitLength, done := EncodePixel(m, data, table, bitOut, s, bitLength, data[dataIndex], rest, head, done);
      dataIndex := dataIndex + 1;
    }
    assert Left(data, dataIndex) == [];
    padding := FinishRaster(m, data, table, bitOut, s, bitLength, head, done);
    raster := bitOut.bytes;
    RasterDecodes(m, data, Zeros(padding));
  }

  lemma NothingEmitted(head: seq<bool>)
    ensures [] + head == head + EmittedBits([])
  {}

  // ---- Data sub-blocks ----------------------------------------------------------------------

  /** At most 255 bytes a block, each after its length, closed by an empty block. */
  function SubBlocks(raster: seq<nat>): seq<nat> {
    if |raster| > 255 then [255] + raster[..255] + SubBlocks(raster[255..]) else [|raster|] + raster + [0]
  }

  /** Joins sub-blocks up to the empty one; the second part is what follows them. */
  function ReadSubBlocks(bytes: seq<nat>): Option<(seq<nat>, seq<nat>)> {
    if bytes == [] then None
    else if bytes[0] == 0 then Some(([], bytes[1..]))
    else if |bytes| < 1 + bytes[0] then None
    else
      match ReadSubBlocks(bytes[1 + bytes[0]..])
      case None => None
      case Some((more, after)) => Some((bytes[1..1 + bytes[0]] + more, after))
  }

  lemma {:induction false} SubBlocksRoundTrip(raster: seq<nat>, after: seq<nat>)
    requires raster != []
    ensures ReadSubBlocks(SubBlocks(raster) + after) == Some((raster, after))
  {
    var bytes := SubBlocks(raster) + after;
    if |raster| > 255 {
      assert bytes[256..] == SubBlocks(raster[255..]) + after;
      assert bytes[1..256] == raster[..255];
      SubBlocksRoundTrip(raster[255..], after);
      assert raster[..255] + raster[255..] == raster;
    } else {
      var tail := bytes[1 + |raster|..];
      assert tail == [0] + after;
      assert bytes[1..1 + |raster|] == raster && raster + [] == raster;
      assert ReadSubBlocks(tail) == Some(([], after)) by { assert tail[1..] == after; }
    }
  }
}
