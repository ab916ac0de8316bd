/** The base64 streams that turn the GIF into a data URL. Both keep 32-bit shift buffers they never
    mask. Main results: the encoder writes the encoding of RFC 4648, section 4, and the decoder
    returns the bytes of any such text, white space included, and then the end of the stream. */
module Base64 {
  import opened Bits

  const WORD: nat := 32
  const SEXTET: nat := 6

  /** `(buffer << k) | v` on 32 bits, for v below bit k. */
  function Push(buffer: nat, k: nat, v: nat): nat {
    ShlOr(buffer, k, v) % Pow2(WORD)
  }

  // ---- The alphabet ---------------------------------------------------------------------------

  function EncodeChar(n: nat): char
    requires n < 64
  {
    if n < 26 then (0x41 + n) as char
    else if n < 52 then (0x61 + (n - 26)) as char
    else if n < 62 then (0x30 + (n - 52)) as char
    else if n == 62 then '+'
    else '/'
  }

  predicate Is64(c: char) {
    'A' <= c <= 'Z' || 'a' <= c <= 'z' || '0' <= c <= '9' || c == '+' || c == '/'
  }

  function DecodeChar(c: char): (n: nat)
    requires Is64(c)
    ensures n < 64
  {
    if 'A' <= c <= 'Z' then c as int - 0x41
    else if 'a' <= c <= 'z' then c as int - 0x61 + 26
    else if '0' <= c <= '9' then c as int - 0x30 + 52
    else if c == '+' then 62
    else 63
  }

  /** The characters the source's pattern for white space matches. */
  predicate IsSpace(c: char) {
    var k := c as int;
    || k == 0x20 || 0x09 <= k <= 0x0d || k == 0xa0 || k == 0x1680 || 0x2000 <= k <= 0x200a
    || k in {0x2028, 0x2029, 0x202f, 0x205f, 0x3000, 0xfeff}
  }

  lemma CharRoundTrip(n: nat)
    requires n < 64
    ensures Is64(EncodeChar(n)) && DecodeChar(EncodeChar(n)) == n
    ensures !IsSpace(EncodeChar(n)) && EncodeChar(n) != '='
  {}

  /** RFC 4648, table 1. */
  lemma Alphabet(n: nat)
    requires n < 64
    ensures EncodeChar(n) == if n < 26 then "ABCDEFGHIJKLMNOPQRSTUVWXYZ"[n]
                             else if n < 52 then "abcdefghijklmnopqrstuvwxyz"[n - 26]
                             else "0123456789+/"[n - 52]
  {
    if n < 26 { Upper(n); } else if n < 52 { Lower(n - 26); } else if n < 62 { Digit(n - 52); }
  }

  lemma Upper(n: nat)
    requires n < 26
    ensures (0x41 + n) as char == "ABCDEFGHIJKLMNOPQRSTUVWXYZ"[n]
  {}

  lemma Lower(n: nat)
    requires n < 26
    ensures (0x61 + n) as char == "abcdefghijklmnopqrstuvwxyz"[n]
  {}

  lemma Digit(n: nat)
    requires n < 10
    ensures (0x30 + n) as char == "0123456789+/"[n]
  {}

  /** Among the ASCII characters exactly the usual six are skipped. */
  lemma AsciiSpaces(c: char)
    requires c as int < 128
    ensures IsSpace(c) <==> c in " \t\n\r" || c as int in {11, 12}
  {}

  predicate AllSextets(xs: seq<nat>) {
    forall i :: 0 <= i < |xs| ==> xs[i] < 64
  }

  function Chars(sextets: seq<nat>): (s: string)
    requires AllSextets(sextets)
    ensures |s| == |sextets|
  {
    if sextets == [] then "" else [EncodeChar(sextets[0])] + Chars(sextets[1..])
  }

  lemma {:induction false} CharsAppend(xs: seq<nat>, ys: seq<nat>)
    requires AllSextets(xs) && AllSextets(ys)
    ensures AllSextets(xs + ys) && Chars(xs + ys) == Chars(xs) + Chars(ys)
  {
    hide EncodeChar;
    if xs == [] {
      assert xs + ys == ys;
    } else {
      assert (xs + ys)[1..] == xs[1..] + ys;
      CharsAppend(xs[1..], ys);
    }
  }

  // ---- RFC 4648, section 4 --------------------------------------------------------------------

  /** The bit string cut into 6-bit groups. */
  function Sextets(bits: seq<bool>): (xs: seq<nat>)
    requires |bits| % SEXTET == 0
    ensures AllSextets(xs)
    decreases |bits|
  {
    if bits == [] then [] else
      SextetFits(bits[..SEXTET]);
      [MsbValue(bits[..SEXTET])] + Sextets(bits[SEXTET..])
  }

  lemma {:induction false} ValueFits(bits: seq<bool>)
    ensures MsbValue(bits) < Pow2(|bits|)
  {
    if bits != [] { ValueFits(bits[..|bits| - 1]); }
  }

  lemma SextetFits(bits: seq<bool>)
    requires |bits| == SEXTET
    ensures MsbValue(bits) < 64
  {
    ValueFits(bits);
    Pow2Six();
  }

  lemma Pow2Six()
    ensures Pow2(SEXTET) == 64
  {
    assert Pow2(3) == 8;
    Pow2Sum(3, 3);
  }

  /** Zero bits added on the right, for a byte count. */
  function PadBits(count: nat): nat {
    if count % 3 == 0 then 0 else if count % 3 == 1 then 4 else 2
  }

  function PadChars(count: nat): string {
    if count % 3 == 0 then "" else if count % 3 == 1 then "==" else "="
  }

  function Rfc4648(bytes: seq<nat>): string
  {
    BytesLength(bytes);
    Chars(Sextets(MsbBytes(bytes) + Zeros(PadBits(|bytes|)))) + PadChars(|bytes|)
  }

  lemma BytesLength(bytes: seq<nat>)
    ensures |MsbBytes(bytes)| == BYTE * |bytes|
    ensures (|MsbBytes(bytes)| + PadBits(|bytes|)) % SEXTET == 0
  {
    ChunksLength(bytes);
    PadsToSextets(|bytes|);
  }

  /** The text comes in groups of four characters, one group for every three bytes or part of them. */
  lemma GroupsOfFour(bytes: seq<nat>)
    ensures |Rfc4648(bytes)| == 4 * ((|bytes| + 2) / 3)
  {
    hide Sextets;
    BytesLength(bytes);
    var bits := MsbBytes(bytes) + Zeros(PadBits(|bytes|));
    ChunksOfSextets(bits);
    SextetsOfChunks(Sextets(bits));
    GroupCount(|bytes|, |Sextets(bits)|);
  }

  lemma GroupCount(count: nat, sextets: nat)
    requires SEXTET * sextets == BYTE * count + PadBits(count)
    ensures sextets + |PadChars(count)| == 4 * ((count + 2) / 3)
  {
    var q, r := count / 3, count % 3;
    assert count == 3 * q + r;
    assert (count + 2) / 3 == if r == 0 then q else q + 1;
  }

  lemma PadsToSextets(count: nat)
    ensures (BYTE * count + PadBits(count)) % SEXTET == 0
  {
    var q, r := count / 3, count % 3;
    assert BYTE * count == 6 * (4 * q) + 8 * r;
  }

  lemma {:induction false} SextetsOfChunks(xs: seq<nat>)
    requires AllSextets(xs)
    ensures |MsbChunks(xs, SEXTET)| == SEXTET * |xs|
    ensures Sextets(MsbChunks(xs, SEXTET)) == xs
  {
    hide Msb, MsbValue;
    if xs != [] {
      SextetsOfChunks(xs[1..]);
      Pow2Six();
      MsbRoundTrip(xs[0], SEXTET);
      var bits := MsbChunks(xs, SEXTET);
      assert bits[..SEXTET] == Msb(xs[0], SEXTET) && bits[SEXTET..] == MsbChunks(xs[1..], SEXTET);
    }
  }

  // ---- Encoder --------------------------------------------------------------------------------

  class Base64EncodeOutputStream {
    var buffer: nat
    var buflen: nat
    var length: nat
    var base64: string
    ghost var bytes: seq<nat>
    ghost var sextets: seq<nat>

    /** The characters and the low `buflen` bits of the buffer spell the bytes written. */
    ghost predicate Valid()
      reads this
    {
      && buflen < SEXTET && length == |bytes|
      && AllSextets(sextets) && base64 == Chars(sextets)
      && MsbChunks(sextets, SEXTET) + Msb(buffer, buflen) == MsbBytes(bytes)
    }

    constructor ()
      ensures Valid() && bytes == []
    {
      buffer, buflen, length, base64, bytes, sextets := 0, 0, 0, "", [], [];
    }

    /** Appends the character of the low six bits. */
    method WriteEncoded(b: nat)
      requires AllSextets(sextets) && base64 == Chars(sextets)
      modifies this`base64, this`sextets
      ensures AllSextets(sextets) && base64 == Chars(sextets)
      ensures sextets == old(sextets) + [b % 64]
    {
      CharsAppend(sextets, [b % 64]);
      assert Chars([b % 64]) == [EncodeChar(b % 64)] by { assert [b % 64][1..] == []; }
      base64 := base64 + [EncodeChar(b % 64)];
      sextets := sextets + [b % 64];
    }

    method WriteByte(n: nat)
      requires Valid() && n < 256
      modifies this
      ensures Valid() && bytes == old(bytes) + [n]
    {
      hide Msb, Pow2;
      ghost var goal := MsbBytes(bytes + [n]);
      PushByte(sextets, buffer, buflen, bytes, n);
      buffer := Push(buffer, BYTE, n);
      buflen := buflen + BYTE;
      length := length + 1;
      bytes := bytes + [n];
      while buflen >= SEXTET
        invariant length == |bytes| && bytes == old(bytes) + [n]
        invariant AllSextets(sextets) && base64 == Chars(sextets)
        invariant MsbChunks(sextets, SEXTET) + Msb(buffer, buflen) == goal
      {
        TakeSextet(sextets, buffer, buflen);
        WriteEncoded(Shr(buffer, buflen - SEXTET));
        buflen := buflen - SEXTET;
      }
    }

    /** Ends the text; afterwards it is the encoding of all bytes written. */
    method Flush()
      requires Valid()
      modifies this
      ensures base64 == Rfc4648(old(bytes))
    {
      hide Msb, Pow2, MsbChunks;
      BytesLength(bytes);
      SextetsOfChunks(sextets);
      ghost var k: nat := if buflen > 0 then SEXTET - buflen else 0;
      assert k == PadBits(length);
      if buflen > 0 {
        LastSextet(sextets, buffer, buflen);
        ghost var was := sextets;
        var shifted := Push(buffer, SEXTET - buflen, 0);
        WriteEncoded(shifted);
        buffer, buflen := 0, 0;
      } else {
        NoBits(buffer, MsbChunks(sextets, SEXTET));
      }
      assert MsbChunks(sextets, SEXTET) == MsbBytes(bytes) + Zeros(k);
      SextetsOfChunks(sextets);
      if length % 3 != 0 {
        var padlen := 3 - length % 3;
        ghost var before := base64;
        var i := 0;
        while i < padlen
          invariant 0 <= i <= padlen
          invariant base64 == before + seq(i, _ => '=')
          invariant length == |bytes| && bytes == old(bytes)
        {
          base64 := base64 + "=";
          i := i + 1;
        }
        assert seq(padlen, _ => '=') == PadChars(length);
      }
    }
  }

  lemma NoBits(buffer: nat, chunks: seq<bool>)
    ensures chunks + Msb(buffer, 0) == chunks + Zeros(0)
  {}

  lemma PushBits(buffer: nat, bl: nat, k: nat, v: nat)
    requires v < Pow2(k) && bl + k <= WORD
    ensures Msb(Push(buffer, k, v), bl + k) == Msb(buffer, bl) + Msb(v, k)
  {
    MsbMod(ShlOr(buffer, k, v), bl + k, WORD);
    MsbJoin(buffer, v, bl, k);
  }

  lemma PushByte(sextets: seq<nat>, buffer: nat, bl: nat, bytes: seq<nat>, n: nat)
    requires bl < SEXTET && n < 256
    requires MsbChunks(sextets, SEXTET) + Msb(buffer, bl) == MsbBytes(bytes)
    ensures MsbChunks(sextets, SEXTET) + Msb(Push(buffer, BYTE, n), bl + BYTE) == MsbBytes(bytes + [n])
  {
    hide Msb, Pow2;
    Pow2Eight();
    PushBits(buffer, bl, BYTE, n);
    Assoc(MsbChunks(sextets, SEXTET), Msb(buffer, bl), Msb(n, BYTE));
    MsbChunksAppend(bytes, [n], BYTE);
    MsbChunksOne(n, BYTE);
  }

  lemma LowSextet(x: nat)
    ensures Msb(x % 64, SEXTET) == Msb(x, SEXTET)
  {
    Pow2Six();
    MsbMod(x, SEXTET, SEXTET);
  }

  lemma TakeSextet(sextets: seq<nat>, buffer: nat, bl: nat)
    requires bl >= SEXTET
    ensures MsbChunks(sextets, SEXTET) + Msb(buffer, bl)
         == MsbChunks(sextets + [Shr(buffer, bl - SEXTET) % 64], SEXTET) + Msb(buffer, bl - SEXTET)
  {
    hide Msb, Pow2;
    var x := Shr(buffer, bl - SEXTET);
    MsbSplit(buffer, SEXTET, bl - SEXTET);
    LowSextet(x);
    MsbChunksAppend(sextets, [x % 64], SEXTET);
    MsbChunksOne(x % 64, SEXTET);
    Assoc(MsbChunks(sextets, SEXTET), Msb(x, SEXTET), Msb(buffer, bl - SEXTET));
  }

  lemma LastSextet(sextets: seq<nat>, buffer: nat, bl: nat)
    requires 0 < bl < SEXTET
    ensures MsbChunks(sextets + [Push(buffer, SEXTET - bl, 0) % 64], SEXTET)
         == MsbChunks(sextets, SEXTET) + Msb(buffer, bl) + Zeros(SEXTET - bl)
  {
    hide Msb;
    var x := Push(buffer, SEXTET - bl, 0);
    PushBits(buffer, bl, SEXTET - bl, 0);
    MsbOfZero(SEXTET - bl);
    LowSextet(x);
    MsbChunksAppend(sextets, [x % 64], SEXTET);
    MsbChunksOne(x % 64, SEXTET);
    Assoc(MsbChunks(sextets, SEXTET), Msb(buffer, bl), Zeros(SEXTET - bl));
  }

  // ---- Decoder --------------------------------------------------------------------------------

  datatype ReadResult =
    | Byte(value: nat)
    | EndOfStream
    | UnexpectedEnd
    | IllegalCharacter

  /** One read, on the bits at hand and the text left: the result and what both become. */
  function Read(pending: seq<bool>, rest: string): (ReadResult, seq<bool>, string)
    decreases |rest|
  {
    if |pending| >= BYTE then (Byte(MsbValue(pending[..BYTE])), pending[BYTE..], rest)
    else if rest == "" then (if pending == [] then EndOfStream else UnexpectedEnd, pending, rest)
    else if rest[0] == '=' then (EndOfStream, [], rest[1..])
    else if IsSpace(rest[0]) then Read(pending, rest[1..])
    else if !Is64(rest[0]) then (IllegalCharacter, pending, rest[1..])
    else Read(pending + Msb(DecodeChar(rest[0]), SEXTET), rest[1..])
  }

  class Base64DecodeInputStream {
    const str: string
    var pos: nat
    var buffer: nat
    var buflen: nat

    ghost predicate Valid()
      reads this
    {
      pos <= |str| && buflen < BYTE
    }

    ghost function Pending(): seq<bool>
      reads this
    {
      Msb(buffer, buflen)
    }

    ghost function Rest(): string
      reads this
      requires Valid()
    {
      str[pos..]
    }

    constructor (s: string)
      ensures Valid() && Pending() == [] && Rest() == s
    {
      str, pos, buffer, buflen := s, 0, 0, 0;
    }

    method ReadByte() returns (r: ReadResult)
      requires Valid()
      modifies this
      ensures Valid()
      ensures (r, Pending(), Rest()) == Read(old(Pending()), old(Rest()))
    {
      hide Msb, MsbValue, IsSpace, Is64, DecodeChar, Pow2;
      ghost var goal := Read(Pending(), Rest());
      while buflen < BYTE
        invariant pos <= |str| && buflen < BYTE + SEXTET
        invariant Read(Msb(buffer, buflen), str[pos..]) == goal
        decreases |str| - pos
      {
        if pos >= |str| {
          if buflen == 0 {
            return EndOfStream;
          }
          return UnexpectedEnd;
        }
        var c := str[pos];
        assert str[pos..][1..] == str[pos + 1..];
        pos := pos + 1;
        if c == '=' {
          buflen := 0;
          return EndOfStream;
        } else if IsSpace(c) {
          continue;
        }
        if !Is64(c) {
          return IllegalCharacter;
        }
        SextetPushed(buffer, buflen, DecodeChar(c));
        buffer := Push(buffer, SEXTET, DecodeChar(c));
        buflen := buflen + SEXTET;
      }
      TopByte(buffer, buflen);
      var n := Shr(buffer, buflen - BYTE) % 256;
      buflen := buflen - BYTE;
      return Byte(n);
    }
  }

  lemma SextetPushed(buffer: nat, bl: nat, v: nat)
    requires bl < BYTE && v < 64
    ensures Msb(Push(buffer, SEXTET, v), bl + SEXTET) == Msb(buffer, bl) + Msb(v, SEXTET)
  {
    Pow2Six();
    PushBits(buffer, bl, SEXTET, v);
  }

  /** The top byte of the pending bits, and the bits below it. */
  lemma TopByte(buffer: nat, bl: nat)
    requires bl >= BYTE
    ensures MsbValue(Msb(buffer, bl)[..BYTE]) == Shr(buffer, bl - BYTE) % 256
    ensures Msb(buffer, bl)[BYTE..] == Msb(buffer, bl - BYTE)
  {
    hide Msb, MsbValue;
    var x := Shr(buffer, bl - BYTE);
    MsbSplit(buffer, BYTE, bl - BYTE);
    Pow2Eight();
    MsbMod(x, BYTE, BYTE);
    MsbRoundTrip(x % 256, BYTE);
  }

  // ---- Round trip -----------------------------------------------------------------------------

  function StripSpace(s: string): string {
    if s == "" then "" else (if IsSpace(s[0]) then "" else [s[0]]) + StripSpace(s[1..])
  }

  /** `bytes` are what is still to be read: the pending bits and the remaining characters spell
      them, followed by k zero bits, which need a pad character to be dropped at. */
  ghost predicate Spells(pending: seq<bool>, rest: string, bytes: seq<nat>, sextets: seq<nat>, pads: string, k: nat) {
    && AllSextets(sextets) && k < SEXTET
    && pads in {"", "=", "=="} && (k > 0 ==> pads != "")
    && StripSpace(rest) == Chars(sextets) + pads
    && pending + MsbChunks(sextets, SEXTET) == MsbBytes(bytes) + Zeros(k)
  }

  /** Nothing more to come: pads only, or no bits at hand. */
  predicate Exhausted(pending: seq<bool>, rest: string) {
    && StripSpace(rest) in {"", "=", "=="}
    && |pending| < BYTE
    && (StripSpace(rest) == "" ==> pending == [])
  }

  /** While bytes are left, a read returns the next one. */
  lemma {:induction false} ReadsNext(pending: seq<bool>, rest: string, bytes: seq<nat>, sextets: seq<nat>, pads: string, k: nat)
    returns (sextets': seq<nat>)
    requires Spells(pending, rest, bytes, sextets, pads, k) && bytes != [] && bytes[0] < 256
    ensures Read(pending, rest).0 == Byte(bytes[0])
    ensures Spells(Read(pending, rest).1, Read(pending, rest).2, bytes[1..], sextets', pads, k)
    decreases |rest|
  {
    hide Msb, MsbValue, EncodeChar, Is64, IsSpace, DecodeChar, Pow2;
    if |pending| >= BYTE {
      sextets' := sextets;
      FirstByte(pending, MsbChunks(sextets, SEXTET), bytes, k);
    } else if sextets == [] {
      ChunksLength(bytes);
      assert false;
    } else if IsSpace(rest[0]) {
      StripFirst(rest);
      PadIsNoSpace();
      assert Read(pending, rest) == Read(pending, rest[1..]);
      sextets' := ReadsNext(pending, rest[1..], bytes, sextets, pads, k);
    } else {
      CharRoundTrip(sextets[0]);
      StripFirst(rest);
      assert rest[0] == EncodeChar(sextets[0]) by {
        assert (Chars(sextets) + pads)[0] == Chars(sextets)[0];
      }
      var more := Msb(sextets[0], SEXTET);
      Assoc(pending, more, MsbChunks(sextets[1..], SEXTET));
      assert StripSpace(rest[1..]) == Chars(sextets[1..]) + pads by {
        assert StripSpace(rest)[1..] == StripSpace(rest[1..]);
        assert (Chars(sextets) + pads)[1..] == Chars(sextets[1..]) + pads;
      }
      assert Read(pending, rest) == Read(pending + more, rest[1..]);
      sextets' := ReadsNext(pending + more, rest[1..], bytes, sextets[1..], pads, k);
    }
  }

  /** Stripping starts with the first character: dropped if white space, kept otherwise. */
  lemma StripFirst(s: string)
    requires s != ""
    ensures IsSpace(s[0]) ==> StripSpace(s) == StripSpace(s[1..])
    ensures !IsSpace(s[0]) ==> StripSpace(s) == [s[0]] + StripSpace(s[1..])
  {
    hide IsSpace;
  }

  lemma PadIsNoSpace()
    ensures !IsSpace('=')
  {}

  lemma FirstByte(pending: seq<bool>, chunks: seq<bool>, bytes: seq<nat>, k: nat)
    requires |pending| >= BYTE && bytes != [] && bytes[0] < 256
    requires pending + chunks == MsbBytes(bytes) + Zeros(k)
    ensures MsbValue(pending[..BYTE]) == bytes[0]
    ensures pending[BYTE..] + chunks == MsbBytes(bytes[1..]) + Zeros(k)
  {
    hide Msb, MsbValue, Pow2;
    var first, later := Msb(bytes[0], BYTE), MsbBytes(bytes[1..]);
    Assoc(first, later, Zeros(k));
    assert pending[..BYTE] == (pending + chunks)[..BYTE] == first;
    assert pending[BYTE..] + chunks == (pending + chunks)[BYTE..] == later + Zeros(k);
    Pow2Eight();
    MsbRoundTrip(bytes[0], BYTE);
  }

  /** With no bytes left, only pads and spare zero bits remain. */
  lemma SpellsNothing(pending: seq<bool>, rest: string, sextets: seq<nat>, pads: string, k: nat)
    requires Spells(pending, rest, [], sextets, pads, k)
    ensures Exhausted(pending, rest)
  {
    hide Msb, StripSpace;
    SextetsOfChunks(sextets);
    assert MsbBytes([]) == [];
    assert |pending| + SEXTET * |sextets| == k;
    assert sextets == [];
    assert Chars([]) + pads == pads;
  }

  lemma {:induction false} ReadsEnd(pending: seq<bool>, rest: string)
    requires Exhausted(pending, rest)
    ensures Read(pending, rest).0 == EndOfStream
    ensures Exhausted(Read(pending, rest).1, Read(pending, rest).2)
    decreases |rest|
  {
    hide Msb, IsSpace, Is64;
    PadIsNoSpace();
    if rest != "" {
      StripFirst(rest);
      if IsSpace(rest[0]) {
        ReadsEnd(pending, rest[1..]);
      } else {
        assert StripSpace(rest)[0] == rest[0] && StripSpace(rest)[1..] == StripSpace(rest[1..]);
      }
    }
  }

  /** The results of n reads. */
  function Reads(pending: seq<bool>, rest: string, n: nat): seq<ReadResult>
    decreases n
  {
    if n == 0 then [] else
      var (r, pending', rest') := Read(pending, rest);
      [r] + Reads(pending', rest', n - 1)
  }

  /** The bytes, then the end of the stream as often as it is asked for. */
  function Expected(bytes: seq<nat>, n: nat): seq<ReadResult> {
    if n == 0 then []
    else if bytes == [] then [EndOfStream] + Expected([], n - 1)
    else [Byte(bytes[0])] + Expected(bytes[1..], n - 1)
  }

  lemma {:induction false} ReadsSpelled(pending: seq<bool>, rest: string, bytes: seq<nat>,
                                        sextets: seq<nat>, pads: string, k: nat, n: nat)
    requires Spells(pending, rest, bytes, sextets, pads, k)
    requires forall i :: 0 <= i < |bytes| ==> bytes[i] < 256
    ensures Reads(pending, rest, n) == Expected(bytes, n)
    decreases n
  {
    hide Read, Spells, Exhausted;
    if bytes == [] {
      SpellsNothing(pending, rest, sextets, pads, k);
      ReadsOnlyEnd(pending, rest, n);
    } else if n > 0 {
      var sextets' := ReadsNext(pending, rest, bytes, sextets, pads, k);
      ReadsSpelled(Read(pending, rest).1, Read(pending, rest).2, bytes[1..], sextets', pads, k, n - 1);
    }
  }

  lemma {:induction false} ReadsOnlyEnd(pending: seq<bool>, rest: string, n: nat)
    requires Exhausted(pending, rest)
    ensures Reads(pending, rest, n) == Expected([], n)
    decreases n
  {
    hide Read, Exhausted;
    if n > 0 {
      ReadsEnd(pending, rest);
      ReadsOnlyEnd(Read(pending, rest).1, Read(pending, rest).2, n - 1);
    }
  }

  lemma {:induction false} ChunksOfSextets(bits: seq<bool>)
    requires |bits| % SEXTET == 0
    ensures MsbChunks(Sextets(bits), SEXTET) == bits
    decreases |bits|
  {
    hide MsbValue;
    if bits != [] {
      ChunksOfSextets(bits[SEXTET..]);
      BitsOfValue(bits[..SEXTET]);
      assert bits[..SEXTET] + bits[SEXTET..] == bits;
    }
  }

  lemma {:induction false} BitsOfValue(bits: seq<bool>)
    ensures Msb(MsbValue(bits), |bits|) == bits
  {
    if bits != [] {
      var front, last := bits[..|bits| - 1], bits[|bits| - 1];
      BitsOfValue(front);
      assert front + [last] == bits;
    }
  }

  /** MAIN RESULT: a text that is the encoding of the bytes, with any white space in it, reads
      back as the bytes and then as the end of the stream, however often it is read. */
  lemma DecodesEncoding(bytes: seq<nat>, text: string, n: nat)
    requires forall i :: 0 <= i < |bytes| ==> bytes[i] < 256
    requires StripSpace(text) == Rfc4648(bytes)
    ensures Reads([], text, n) == Expected(bytes, n)
  {
    hide Msb, StripSpace, Read, Expected;
    var k := PadBits(|bytes|);
    var bits := MsbBytes(bytes) + Zeros(k);
    BytesLength(bytes);
    ChunksOfSextets(bits);
    assert [] + MsbChunks(Sextets(bits), SEXTET) == bits;
    ReadsSpelled([], text, bytes, Sextets(bits), PadChars(|bytes|), k, n);
  }

  lemma {:induction false} NoSpaceIn(sextets: seq<nat>, pads: string)
    requires AllSextets(sextets) && pads in {"", "=", "=="}
    ensures StripSpace(Chars(sextets) + pads) == Chars(sextets) + pads
  {
    hide IsSpace, EncodeChar;
    PadIsNoSpace();
    var s := Chars(sextets) + pads;
    if sextets != [] {
      CharRoundTrip(sextets[0]);
      NoSpaceIn(sextets[1..], pads);
      assert s[1..] == Chars(sextets[1..]) + pads;
    } else {
      assert s == pads;
      assert |pads| > 0 ==> pads[1..] in {"", "="};
    }
  }

  /** The encoder's own text, with nothing inserted, reads back as the bytes. */
  lemma RoundTrip(bytes: seq<nat>, n: nat)
    requires forall i :: 0 <= i < |bytes| ==> bytes[i] < 256
    ensures Reads([], Rfc4648(bytes), n) == Expected(bytes, n)
  {
    hide StripSpace, Reads, Expected;
    BytesLength(bytes);
    NoSpaceIn(Sextets(MsbBytes(bytes) + Zeros(PadBits(|bytes|))), PadChars(|bytes|));
    DecodesEncoding(bytes, Rfc4648(bytes), n);
  }
}
