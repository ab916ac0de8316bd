/** The data segments of a QR code (ISO/IEC 18004:2015, section 7.4): their bits, a reader written
    from the standard, and the buffer writers. */
module Segments {
  // Main result: reading a segment back from its bits returns it, whatever bits follow.

  import opened Wrappers
  import opened Bits
  import opened QrBuffer

  datatype Segment =
    | Numeric(text: string)
    | Alphanumeric(text: string)
    | Bytes(bytes: seq<nat>)

  function Mode(s: Segment): nat {
    match s
    case Numeric(_) => 1
    case Alphanumeric(_) => 2
    case Bytes(_) => 4
  }

  function Count(s: Segment): nat {
    match s
    case Numeric(text) => |text|
    case Alphanumeric(text) => |text|
    case Bytes(bytes) => |bytes|
  }

  predicate IsDigit(c: char) { '0' <= c <= '9' }

  predicate AllDigits(s: string) {
    forall i :: 0 <= i < |s| ==> IsDigit(s[i])
  }

  predicate InAlphabet(c: char) {
    IsDigit(c) || 'A' <= c <= 'Z' || c in " $%*+-./:"
  }

  predicate AllInAlphabet(s: string) {
    forall i :: 0 <= i < |s| ==> InAlphabet(s[i])
  }

  predicate Writable(s: Segment) {
    match s
    case Numeric(text) => AllDigits(text)
    case Alphanumeric(text) => AllInAlphabet(text)
    case Bytes(bytes) => forall i :: 0 <= i < |bytes| ==> bytes[i] < 256
  }

  /** The width of the character count; None is the exception for a version above 40. */
  function LengthInBits(s: Segment, version: int): Option<nat> {
    if 1 <= version < 10 then
      Some(match s case Numeric(_) => 10 case Alphanumeric(_) => 9 case Bytes(_) => 8)
    else if version < 27 then
      Some(match s case Numeric(_) => 12 case Alphanumeric(_) => 11 case Bytes(_) => 16)
    else if version < 41 then
      Some(match s case Numeric(_) => 14 case Alphanumeric(_) => 13 case Bytes(_) => 16)
    else
      None
  }

  // ---- Digits ---------------------------------------------------------------------------------

  function DigitValue(c: char): (v: nat)
    requires IsDigit(c)
    ensures v < 10
  {
    c as int - '0' as int
  }

  function StrToNum(s: string): nat
    requires AllDigits(s)
  {
    if s == "" then 0 else StrToNum(s[..|s| - 1]) * 10 + DigitValue(s[|s| - 1])
  }

  /** v in n decimal digits. */
  function NumToStr(v: nat, n: nat): (s: string)
    ensures |s| == n
  {
    if n == 0 then "" else NumToStr(v / 10, n - 1) + [('0' as int + v % 10) as char]
  }

  function Pow10(n: nat): nat {
    if n == 0 then 1 else 10 * Pow10(n - 1)
  }

  lemma {:induction false} DigitsRoundTrip(s: string)
    requires AllDigits(s)
    ensures StrToNum(s) < Pow10(|s|)
    ensures NumToStr(StrToNum(s), |s|) == s
  {
    if s != "" {
      var front := s[..|s| - 1];
      DigitsRoundTrip(front);
      var v := StrToNum(s);
      assert v / 10 == StrToNum(front) && v % 10 == DigitValue(s[|s| - 1]);
      assert front + [s[|s| - 1]] == s;
    }
  }

  /** Three digits in 10 bits, two in 7, one in 4. */
  function GroupWidth(digits: nat): nat {
    if digits >= 3 then 10 else if digits == 2 then 7 else 4
  }

  lemma GroupFits(k: nat)
    requires 1 <= k <= 3
    ensures Pow10(k) <= Pow2(GroupWidth(k))
  {
    assert Pow10(1) == 10 && Pow10(2) == 100 && Pow10(3) == 1000;
    assert Pow2(4) == 16 && Pow2(3) == 8;
    Pow2Sum(4, 3);
    Pow2Sum(7, 3);
  }

  function Min(a: nat, b: nat): nat { if a <= b then a else b }

  function NumericBits(s: string): seq<bool>
    requires AllDigits(s)
  {
    if s == "" then [] else
      var k := Min(3, |s|);
      Msb(StrToNum(s[..k]), GroupWidth(k)) + NumericBits(s[k..])
  }

  /** How many digits the next group of a reader holds, in how many bits, and one more than its
      largest value. */
  function NextGroup(n: nat): (nat, nat, nat) {
    if n >= 3 then (3, 10, 1000) else if n == 2 then (2, 7, 100) else (1, 4, 10)
  }

  function ParseNumeric(bits: seq<bool>, n: nat): Option<(string, seq<bool>)> {
    if n == 0 then Some(("", bits)) else
      var (k, w, top) := NextGroup(n);
      if |bits| < w || MsbValue(bits[..w]) >= top then None else
        match ParseNumeric(bits[w..], n - k)
        case None => None
        case Some((more, left)) => Some((NumToStr(MsbValue(bits[..w]), k) + more, left))
  }

  lemma GroupsAgree(n: nat)
    requires n > 0
    ensures NextGroup(n) == (Min(3, n), GroupWidth(Min(3, n)), Pow10(Min(3, n)))
  {
    assert Pow10(1) == 10 && Pow10(2) == 100 && Pow10(3) == 1000;
  }

  lemma {:induction false} NumericRoundTrip(s: string, rest: seq<bool>)
    requires AllDigits(s)
    ensures ParseNumeric(NumericBits(s) + rest, |s|) == Some((s, rest))
  {
    hide Msb, Pow2, Pow10, StrToNum, NumToStr;
    if s == "" {
      assert [] + rest == rest;
    } else {
      var k := Min(3, |s|);
      var w, v := GroupWidth(k), StrToNum(s[..k]);
      var bits := NumericBits(s) + rest;
      Assoc(Msb(v, w), NumericBits(s[k..]), rest);
      assert bits[..w] == Msb(v, w) && bits[w..] == NumericBits(s[k..]) + rest;
      DigitsRoundTrip(s[..k]);
      GroupsAgree(|s|);
      GroupFits(k);
      MsbRoundTrip(v, w);
      NumericRoundTrip(s[k..], rest);
      assert s[..k] + s[k..] == s;
    }
  }

  // ---- Alphanumeric ---------------------------------------------------------------------------

  function GetCode(c: char): (v: nat)
    requires InAlphabet(c)
    ensures v < 45
  {
    if IsDigit(c) then c as int - '0' as int
    else if 'A' <= c <= 'Z' then c as int - 'A' as int + 10
    else if c == ' ' then 36
    else if c == '$' then 37
    else if c == '%' then 38
    else if c == '*' then 39
    else if c == '+' then 40
    else if c == '-' then 41
    else if c == '.' then 42
    else if c == '/' then 43
    else 44
  }

  /** The alphabet of ISO/IEC 18004:2015, table 5. */
  function CharOf(v: nat): char
    requires v < 45
  {
    if v < 10 then ('0' as int + v) as char
    else if v < 36 then ('A' as int + (v - 10)) as char
    else " $%*+-./:"[v - 36]
  }

  lemma CodeRoundTrip(c: char)
    requires InAlphabet(c)
    ensures CharOf(GetCode(c)) == c
  {}

  /** The other way round: the writer accepts all 45 characters, and all ten digits. */
  lemma AlphabetIsWhole(v: nat)
    requires v < 45
    ensures InAlphabet(CharOf(v)) && GetCode(CharOf(v)) == v
    ensures v < 10 ==> IsDigit("0123456789"[v]) && CharOf(v) == "0123456789"[v] && DigitValue(CharOf(v)) == v
  {}

  function AlphanumericBits(s: string): seq<bool>
    requires AllInAlphabet(s)
  {
    if s == "" then []
    else if |s| == 1 then Msb(GetCode(s[0]), 6)
    else Msb(GetCode(s[0]) * 45 + GetCode(s[1]), 11) + AlphanumericBits(s[2..])
  }

  function ParseAlphanumeric(bits: seq<bool>, n: nat): Option<(string, seq<bool>)> {
    if n == 0 then Some(("", bits))
    else if n == 1 then
      if |bits| < 6 || MsbValue(bits[..6]) >= 45 then None
      else Some(([CharOf(MsbValue(bits[..6]))], bits[6..]))
    else if |bits| < 11 || MsbValue(bits[..11]) >= 45 * 45 then None
    else
      var v := MsbValue(bits[..11]);
      match ParseAlphanumeric(bits[11..], n - 2)
      case None => None
      case Some((more, left)) => Some(([CharOf(v / 45), CharOf(v % 45)] + more, left))
  }

  lemma Pow2SixAndEleven()
    ensures Pow2(6) == 64 && Pow2(11) == 2048
  {
    assert Pow2(3) == 8 && Pow2(5) == 32;
    Pow2Sum(3, 3);
    Pow2Sum(6, 5);
  }

  /** A number read from the front of a bit string. */
  lemma ReadFront(v: nat, w: nat, rest: seq<bool>)
    requires v < Pow2(w)
    ensures var bits := Msb(v, w) + rest;
            |bits| >= w && MsbValue(bits[..w]) == v && bits[w..] == rest
  {
    MsbRoundTrip(v, w);
    var bits := Msb(v, w) + rest;
    assert bits[..w] == Msb(v, w);
  }

  lemma {:induction false} AlphanumericRoundTrip(s: string, rest: seq<bool>)
    requires AllInAlphabet(s)
    ensures ParseAlphanumeric(AlphanumericBits(s) + rest, |s|) == Some((s, rest))
  {
    hide Msb, Pow2, MsbValue, CharOf;
    Pow2SixAndEleven();
    if s == "" {
      assert [] + rest == rest;
    } else if |s| == 1 {
      ReadFront(GetCode(s[0]), 6, rest);
      CodeRoundTrip(s[0]);
      assert [s[0]] == s;
    } else {
      var a, b := GetCode(s[0]), GetCode(s[1]);
      var v := a * 45 + b;
      assert v / 45 == a && v % 45 == b;
      CodeRoundTrip(s[0]);
      CodeRoundTrip(s[1]);
      Assoc(Msb(v, 11), AlphanumericBits(s[2..]), rest);
      ReadFront(v, 11, AlphanumericBits(s[2..]) + rest);
      AlphanumericRoundTrip(s[2..], rest);
      assert [s[0], s[1]] + s[2..] == s;
    }
  }

  // ---- Bytes ----------------------------------------------------------------------------------

  function ParseBytes(bits: seq<bool>, n: nat): Option<(seq<nat>, seq<bool>)> {
    if n == 0 then Some(([], bits))
    else if |bits| < BYTE then None
    else
      match ParseBytes(bits[BYTE..], n - 1)
      case None => None
      case Some((more, left)) => Some(([MsbValue(bits[..BYTE])] + more, left))
  }

  lemma {:induction false} BytesRoundTrip(bytes: seq<nat>, rest: seq<bool>)
    requires forall i :: 0 <= i < |bytes| ==> bytes[i] < 256
    ensures ParseBytes(MsbBytes(bytes) + rest, |bytes|) == Some((bytes, rest))
  {
    hide Msb, Pow2, MsbValue;
    Pow2Eight();
    if bytes == [] {
      assert [] + rest == rest;
    } else {
      Assoc(Msb(bytes[0], BYTE), MsbBytes(bytes[1..]), rest);
      ReadFront(bytes[0], BYTE, MsbBytes(bytes[1..]) + rest);
      BytesRoundTrip(bytes[1..], rest);
      assert [bytes[0]] + bytes[1..] == bytes;
    }
  }

  // ---- Whole segments -------------------------------------------------------------------------

  function Payload(s: Segment): seq<bool>
    requires Writable(s)
  {
    match s
    case Numeric(text) => NumericBits(text)
    case Alphanumeric(text) => AlphanumericBits(text)
    case Bytes(bytes) => MsbBytes(bytes)
  }

  /** Mode indicator, character count, payload. */
  function SegmentBits(s: Segment, version: int): seq<bool>
    requires Writable(s) && LengthInBits(s, version).Some?
  {
    Msb(Mode(s), 4) + (Msb(Count(s), LengthInBits(s, version).value) + Payload(s))
  }

  predicate AllWritable(segments: seq<Segment>, version: int) {
    forall i :: 0 <= i < |segments| ==> Writable(segments[i]) && LengthInBits(segments[i], version).Some?
  }

  function SegmentsBits(segments: seq<Segment>, version: int): seq<bool>
    requires AllWritable(segments, version)
  {
    if segments == [] then [] else SegmentBits(segments[0], version) + SegmentsBits(segments[1..], version)
  }

  /** ISO/IEC 18004:2015, table 3: the bits of the character count, by mode indicator and version. */
  function CountBits(mode: nat, version: int): Option<nat> {
    if version > 40 then None
    else if mode == 1 then Some(if 1 <= version <= 9 then 10 else if version <= 26 then 12 else 14)
    else if mode == 2 then Some(if 1 <= version <= 9 then 9 else if version <= 26 then 11 else 13)
    else if mode == 4 then Some(if 1 <= version <= 9 then 8 else 16)
    else None
  }

  function ParsePayload(mode: nat, n: nat, bits: seq<bool>): Option<(Segment, seq<bool>)> {
    if mode == 1 then
      match ParseNumeric(bits, n) case None => None case Some((text, left)) => Some((Numeric(text), left))
    else if mode == 2 then
      match ParseAlphanumeric(bits, n) case None => None case Some((text, left)) => Some((Alphanumeric(text), left))
    else
      match ParseBytes(bits, n) case None => None case Some((bytes, left)) => Some((Bytes(bytes), left))
  }

  function ParseSegment(bits: seq<bool>, version: int): Option<(Segment, seq<bool>)> {
    if |bits| < 4 then None else
    match CountBits(MsbValue(bits[..4]), version)
    case None => None
    case Some(w) =>
      if |bits| < 4 + w then None
      else ParsePayload(MsbValue(bits[..4]), MsbValue(bits[4..][..w]), bits[4..][w..])
  }

  /** The count field holds the count; otherwise it would wrap around. */
  predicate CountFits(s: Segment, version: int) {
    LengthInBits(s, version).Some? && Count(s) < Pow2(LengthInBits(s, version).value)
  }

  /** MAIN RESULT: a segment reads back from its bits. */
  lemma SegmentRoundTrip(s: Segment, version: int, rest: seq<bool>)
    requires Writable(s) && CountFits(s, version)
    ensures ParseSegment(SegmentBits(s, version) + rest, version) == Some((s, rest))
  {
    hide Msb, Pow2, MsbValue, NumericBits, AlphanumericBits, MsbBytes, ParseNumeric, ParseAlphanumeric, ParseBytes;
    var w := LengthInBits(s, version).value;
    var head, count, body := Msb(Mode(s), 4), Msb(Count(s), w), Payload(s);
    var bits := SegmentBits(s, version) + rest;
    assert bits == head + (count + (body + rest)) by {
      Assoc(count, body, rest);
      Assoc(head, count + body, rest);
    }
    Pow2Four();
    ReadFront(Mode(s), 4, count + (body + rest));
    ReadFront(Count(s), w, body + rest);
    match s {
      case Numeric(text) => NumericRoundTrip(text, rest);
      case Alphanumeric(text) => AlphanumericRoundTrip(text, rest);
      case Bytes(bytes) => BytesRoundTrip(bytes, rest);
    }
  }

  lemma Pow2Four()
    ensures Pow2(4) == 16
  {}

  /** Reads segments up to the terminator, or until too few bits are left for another mode. */
  function ParseSegments(bits: seq<bool>, version: int): Option<seq<Segment>>
    decreases |bits|
  {
    if |bits| < 4 || MsbValue(bits[..4]) == 0 then Some([]) else
    match ParseSegment(bits, version)
    case None => None
    case Some((s, left)) =>
      if |left| >= |bits| then None else
      match ParseSegments(left, version)
      case None => None
      case Some(more) => Some([s] + more)
  }

  /** What may follow the segments: fewer than four bits, or a terminator. */
  predicate EndsSegments(tail: seq<bool>) {
    |tail| < 4 || tail[..4] == Zeros(4)
  }

  lemma {:induction false} SegmentsRoundTrip(segments: seq<Segment>, version: int, tail: seq<bool>)
    requires AllWritable(segments, version) && EndsSegments(tail)
    requires forall i :: 0 <= i < |segments| ==> CountFits(segments[i], version)
    ensures ParseSegments(SegmentsBits(segments, version) + tail, version) == Some(segments)
  {
    hide SegmentBits, ParseSegment, ParseSegments, EndsSegments, Msb, MsbValue, Pow2;
    if segments == [] {
      assert [] + tail == tail;
      ParseEnd(tail, version);
    } else {
      var s, more := segments[0], SegmentsBits(segments[1..], version);
      Assoc(SegmentBits(s, version), more, tail);
      var bits := SegmentBits(s, version) + (more + tail);
      SegmentRoundTrip(s, version, more + tail);
      HeadIsMode(s, version, more + tail);
      SegmentsRoundTrip(segments[1..], version, tail);
      ParseStep(bits, version, s, more + tail, segments[1..]);
      assert [s] + segments[1..] == segments;
    }
  }

  lemma ParseEnd(tail: seq<bool>, version: int)
    requires EndsSegments(tail)
    ensures ParseSegments(tail, version) == Some([])
  {
    hide ParseSegment;
    if |tail| >= 4 { ZerosValue(4); }
  }

  lemma ParseStep(bits: seq<bool>, version: int, s: Segment, left: seq<bool>, more: seq<Segment>)
    requires |bits| >= 4 && MsbValue(bits[..4]) != 0 && |left| < |bits|
    requires ParseSegment(bits, version) == Some((s, left)) && ParseSegments(left, version) == Some(more)
    ensures ParseSegments(bits, version) == Some([s] + more)
  {
    hide ParseSegment, MsbValue;
  }

  lemma HeadIsMode(s: Segment, version: int, rest: seq<bool>)
    requires Writable(s) && LengthInBits(s, version).Some?
    ensures var bits := SegmentBits(s, version) + rest;
            |bits| >= 4 + |rest| && MsbValue(bits[..4]) == Mode(s)
  {
    hide Msb, MsbValue;
    Pow2Four();
    var body := Msb(Count(s), LengthInBits(s, version).value) + Payload(s);
    Assoc(Msb(Mode(s), 4), body, rest);
    ReadFront(Mode(s), 4, body + rest);
  }

  lemma {:induction false} ZerosValue(n: nat)
    ensures MsbValue(Zeros(n)) == 0
  {
    if n > 0 {
      assert Zeros(n)[..n - 1] == Zeros(n - 1);
      ZerosValue(n - 1);
    }
  }

  // ---- The writers ----------------------------------------------------------------------------

  /** None is the exception thrown on an illegal character. */
  method ReadNumber(s: string) returns (r: Option<nat>)
    ensures r.Some? <==> AllDigits(s)
    ensures r.Some? ==> r.value == StrToNum(s)
  {
    var num: nat := 0;
    var i := 0;
    while i < |s|
      invariant 0 <= i <= |s|
      invariant AllDigits(s[..i]) && num == StrToNum(s[..i])
    {
      if !IsDigit(s[i]) {
        return None;
      }
      assert s[..i + 1][..i] == s[..i];
      num := num * 10 + DigitValue(s[i]);
      i := i + 1;
    }
    assert s[..|s|] == s;
    return Some(num);
  }

  method WriteNumeric(buffer: QrBitBuffer, s: string) returns (ok: bool)
    requires buffer.Valid()
    modifies buffer
    ensures buffer.Valid()
    ensures ok <==> AllDigits(s)
    ensures ok ==> buffer.bits == old(buffer.bits) + NumericBits(s)
  {
    hide Msb, StrToNum;
    var i := 0;
    while i + 2 < |s|
      invariant 0 <= i <= |s| && buffer.Valid()
      invariant AllDigits(s[..i])
      invariant AllDigits(s[i..]) ==>
                  AllDigits(s) && buffer.bits + NumericBits(s[i..]) == old(buffer.bits) + NumericBits(s)
    {
      var v := ReadNumber(s[i..i + 3]);
      if v.None? {
        GroupIllegal(s, i, i + 3);
        return false;
      }
      GroupLegal(s, i, i + 3);
      buffer.Put(v.value, 10);
      i := i + 3;
    }
    if i < |s| {
      var v := ReadNumber(s[i..]);
      if v.None? {
        GroupIllegal(s, i, |s|);
        assert s[i..|s|] == s[i..];
        return false;
      }
      GroupLegal(s, i, |s|);
      assert s[i..|s|] == s[i..];
      buffer.Put(v.value, GroupWidth(|s| - i));
    }
    assert i >= |s| ==> s[i..] == "" && s[..i] == s;
    return true;
  }

  lemma GroupIllegal(s: string, i: nat, j: nat)
    requires i <= j <= |s| && !AllDigits(s[i..j])
    ensures !AllDigits(s)
  {}

  /** One group of digits is the next piece of the segment's bits. */
  lemma GroupLegal(s: string, i: nat, j: nat)
    requires i < j <= |s| && j - i == Min(3, |s| - i) && AllDigits(s[..i]) && AllDigits(s[i..j])
    ensures AllDigits(s[..j])
    ensures AllDigits(s[j..]) ==> AllDigits(s[i..])
    ensures AllDigits(s[j..]) ==>
              NumericBits(s[i..]) == Msb(StrToNum(s[i..j]), GroupWidth(j - i)) + NumericBits(s[j..])
  {
    hide Msb, StrToNum;
    assert s[i..][..j - i] == s[i..j] && s[i..][j - i..] == s[j..];
    assert s[i..] == s[i..j] + s[j..] && s[..j] == s[..i] + s[i..j];
  }

  method WriteAlphanumeric(buffer: QrBitBuffer, s: string) returns (ok: bool)
    requires buffer.Valid()
    modifies buffer
    ensures buffer.Valid()
    ensures ok <==> AllInAlphabet(s)
    ensures ok ==> buffer.bits == old(buffer.bits) + AlphanumericBits(s)
  {
    hide Msb, GetCode;
    var i := 0;
    while i + 1 < |s|
      invariant 0 <= i <= |s| && buffer.Valid()
      invariant AllInAlphabet(s[..i])
      invariant AllInAlphabet(s[i..]) ==>
                  buffer.bits + AlphanumericBits(s[i..]) == old(buffer.bits) + AlphanumericBits(s)
    {
      if !InAlphabet(s[i]) || !InAlphabet(s[i + 1]) {
        return false;
      }
      PairLegal(s, i);
      buffer.Put(GetCode(s[i]) * 45 + GetCode(s[i + 1]), 11);
      i := i + 2;
    }
    if i < |s| {
      if !InAlphabet(s[i]) {
        return false;
      }
      assert s[i..] == [s[i]] && s[..i] + [s[i]] == s;
      buffer.Put(GetCode(s[i]), 6);
    }
    assert i >= |s| ==> s[i..] == "" && s[..i] == s;
    return true;
  }

  lemma PairLegal(s: string, i: nat)
    requires i + 1 < |s| && InAlphabet(s[i]) && InAlphabet(s[i + 1]) && AllInAlphabet(s[..i])
    ensures AllInAlphabet(s[..i + 2])
    ensures AllInAlphabet(s[i + 2..]) ==> AllInAlphabet(s[i..])
    ensures AllInAlphabet(s[i + 2..]) ==>
              AlphanumericBits(s[i..]) == Msb(GetCode(s[i]) * 45 + GetCode(s[i + 1]), 11) + AlphanumericBits(s[i + 2..])
  {
    hide Msb, GetCode, InAlphabet;
    assert s[i..] == [s[i], s[i + 1]] + s[i + 2..] && s[..i + 2] == s[..i] + [s[i], s[i + 1]];
  }

  method WriteBytes(buffer: QrBitBuffer, bytes: seq<nat>)
    requires buffer.Valid()
    modifies buffer
    ensures buffer.Valid()
    ensures buffer.bits == old(buffer.bits) + MsbBytes(bytes)
  {
    hide Msb;
    var i := 0;
    while i < |bytes|
      invariant 0 <= i <= |bytes| && buffer.Valid()
      invariant buffer.bits + MsbBytes(bytes[i..]) == old(buffer.bits) + MsbBytes(bytes)
    {
      assert bytes[i..][1..] == bytes[i + 1..];
      buffer.Put(bytes[i], BYTE);
      i := i + 1;
    }
  }

  /** The write method of the segment's kind. */
  method Write(buffer: QrBitBuffer, s: Segment) returns (ok: bool)
    requires buffer.Valid() && (s.Bytes? ==> Writable(s))
    modifies buffer
    ensures buffer.Valid()
    ensures ok <==> Writable(s)
    ensures ok ==> buffer.bits == old(buffer.bits) + Payload(s)
  {
    match s {
      case Numeric(text) => ok := WriteNumeric(buffer, text);
      case Alphanumeric(text) => ok := WriteAlphanumeric(buffer, text);
      case Bytes(bytes) => WriteBytes(buffer, bytes); ok := true;
    }
  }
}
