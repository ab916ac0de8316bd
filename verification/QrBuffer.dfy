/** The bit buffer QR data is assembled in: bits fill each byte from its most significant end. The
    class keeps the bits put so far as a ghost field and ties the bytes to it; a number put into the
    buffer appends its low bits. */
module QrBuffer {
  import opened Bits

  class QrBitBuffer {
    var buffer: seq<nat>
    var length: nat
    ghost var bits: seq<bool>

    /** The bytes hold the bits put so far and zeros up to the next byte boundary. */
    ghost predicate Valid()
      reads this
    {
      && length == |bits|
      && Holds(buffer, bits)
      && forall i :: 0 <= i < |buffer| ==> buffer[i] < 256
    }

    constructor ()
      ensures Valid() && bits == []
    {
      buffer, length, bits := [], 0, [];
      new;
      assert MsbBytes([]) == [] + Zeros(0);
    }

    method PutBit(bit: bool)
      requires Valid()
      modifies this
      ensures Valid()
      ensures bits == old(bits) + [bit]
    {
      hide Msb, Pow2;
      MakeRoom(buffer, bits);
      var bufIndex := length / BYTE;
      if |buffer| <= bufIndex {
        buffer := buffer + [0];
      }
      if bit {
        SetBit(buffer, bits);
        buffer := buffer[bufIndex := buffer[bufIndex] + Pow2(BYTE - 1 - length % BYTE)];
      } else {
        ClearBit(buffer, bits);
      }
      length := length + 1;
      bits := bits + [bit];
    }

    /** Appends the low `len` bits of a number, most significant first. */
    method Put(num: nat, len: nat)
      requires Valid()
      modifies this
      ensures Valid()
      ensures bits == old(bits) + Msb(num, len)
    {
      var i := 0;
      while i < len
        invariant 0 <= i <= len
        invariant Valid()
        invariant bits == old(bits) + Msb(Shr(num, len - i), i)
      {
        ShrStep(num, len - i - 1);
        PutBit(Shr(num, len - i - 1) % 2 == 1);
        i := i + 1;
      }
      assert Shr(num, 0) == num;
    }
  }

  /** Bytes that spell the bits followed by fewer than 8 zeros. */
  ghost predicate Holds(bytes: seq<nat>, bits: seq<bool>) {
    exists pad: nat :: pad < BYTE && MsbBytes(bytes) == bits + Zeros(pad)
  }

  /** Room for at least one more bit in the last byte. */
  ghost predicate HasRoom(bytes: seq<nat>, bits: seq<bool>) {
    && |bytes| == |bits| / BYTE + 1
    && MsbBytes(bytes) == bits + Zeros(BYTE - |bits| % BYTE)
  }

  lemma MakeRoom(bytes: seq<nat>, bits: seq<bool>)
    requires Holds(bytes, bits)
    ensures HasRoom(if |bytes| <= |bits| / BYTE then bytes + [0] else bytes, bits)
  {
    hide Msb, MsbBytes;
    ChunksLength(bytes);
    if |bytes| <= |bits| / BYTE {
      AppendZeroByte(bytes);
      assert bits + Zeros(0) == bits;
    }
  }

  lemma AppendZeroByte(bytes: seq<nat>)
    ensures MsbBytes(bytes + [0]) == MsbBytes(bytes) + Zeros(BYTE)
  {
    hide Msb;
    MsbChunksAppend(bytes, [0], BYTE);
    MsbChunksOne(0, BYTE);
    MsbOfZero(BYTE);
  }

  lemma ClearBit(bytes: seq<nat>, bits: seq<bool>)
    requires HasRoom(bytes, bits)
    ensures Holds(bytes, bits + [false])
  {
    hide MsbBytes;
    var room := BYTE - |bits| % BYTE;
    assert bits + Zeros(room) == (bits + [false]) + Zeros(room - 1);
  }

  lemma SetBit(bytes: seq<nat>, bits: seq<bool>)
    requires HasRoom(bytes, bits) && forall i :: 0 <= i < |bytes| ==> bytes[i] < 256
    ensures var last := |bytes| - 1;
            var byte := bytes[last] + Pow2(BYTE - 1 - |bits| % BYTE);
            byte < 256 && Holds(bytes[last := byte], bits + [true])
  {
    hide Msb, Pow2, MsbBytes, Zeros;
    var last, k := |bytes| - 1, |bits| % BYTE;
    var front := bytes[..last];
    ChunksLength(front);
    assert |bits| == |MsbBytes(front)| + k;
    SetBitAt(bytes, bits, last, k);
  }

  /** The next bit is bit k of the last byte. */
  lemma SetBitAt(bytes: seq<nat>, bits: seq<bool>, last: nat, k: nat)
    requires |bytes| == last + 1 && k < BYTE && bytes[last] < 256
    requires |bits| == |MsbBytes(bytes[..last])| + k && MsbBytes(bytes) == bits + Zeros(BYTE - k)
    ensures var byte := bytes[last] + Pow2(BYTE - 1 - k);
      byte < 256 && MsbBytes(bytes[last := byte]) == (bits + [true]) + Zeros(BYTE - 1 - k)
  {
    hide Msb, Pow2, MsbBytes, Zeros;
    var front, byte := bytes[..last], bytes[last];
    SplitLast(bytes);
    var n := |MsbBytes(front)|;
    SplitSum(MsbBytes(front), Msb(byte, BYTE), bits, Zeros(BYTE - k));
    SetBitInByte(byte, k, bits[n..]);
    var bytes' := bytes[last := byte + Pow2(BYTE - 1 - k)];
    SplitLast(bytes');
    assert bytes'[..last] == front;
    Rejoin(bits, n, [true], Zeros(BYTE - 1 - k));
  }

  lemma SplitSum<T>(a: seq<T>, b: seq<T>, bits: seq<T>, z: seq<T>)
    requires a + b == bits + z && |a| <= |bits|
    ensures a == bits[..|a|] && b == bits[|a|..] + z
  {
    assert a == (a + b)[..|a|] == (bits + z)[..|a|];
    assert b == (a + b)[|a|..] == (bits + z)[|a|..];
  }

  lemma Rejoin<T>(bits: seq<T>, n: nat, x: seq<T>, z: seq<T>)
    requires n <= |bits|
    ensures bits[..n] + (bits[n..] + x + z) == (bits + x) + z
  {
    assert bits == bits[..n] + bits[n..];
  }

  lemma SplitLast(bytes: seq<nat>)
    requires bytes != []
    ensures MsbBytes(bytes) == MsbBytes(bytes[..|bytes| - 1]) + Msb(bytes[|bytes| - 1], BYTE)
  {
    hide Msb;
    var front, last := bytes[..|bytes| - 1], bytes[|bytes| - 1];
    MsbChunksAppend(front, [last], BYTE);
    MsbChunksOne(last, BYTE);
    assert front + [last] == bytes;
  }

  lemma {:induction false} ZeroBits(v: nat, n: nat)
    requires v < Pow2(n) && Msb(v, n) == Zeros(n)
    ensures v == 0
  {
    if n > 0 {
      assert Msb(v, n)[n - 1] == (v % 2 == 1);
      assert Msb(v, n)[..n - 1] == Msb(v / 2, n - 1);
      assert Zeros(n)[..n - 1] == Zeros(n - 1);
      ZeroBits(v / 2, n - 1);
    }
  }

  /** Or-ing a bit into a byte whose bits from there on are clear sets just that bit. */
  lemma SetBitInByte(byte: nat, k: nat, u: seq<bool>)
    requires byte < 256 && k < BYTE && |u| == k
    requires Msb(byte, BYTE) == u + Zeros(BYTE - k)
    ensures byte + Pow2(BYTE - 1 - k) < 256
    ensures Msb(byte + Pow2(BYTE - 1 - k), BYTE) == u + [true] + Zeros(BYTE - 1 - k)
  {
    hide Msb, Pow2;
    var room := BYTE - k;
    var hi, lo := DivMod(byte, Pow2(room));
    MsbSplit(byte, k, room);
    assert Msb(hi, k) == u && Msb(byte, room) == Zeros(room) by {
      assert Msb(byte, BYTE)[..k] == u && Msb(byte, BYTE)[k..] == Zeros(room);
    }
    MsbMod(byte, room, room);
    ZeroBits(lo, room);
    var one := Pow2(room - 1);
    Doubles(room);
    assert byte + one == ShlOr(hi, room, one);
    MsbJoin(hi, one, k, room);
    OneBit(room - 1);
    TopFits(byte, hi, k);
  }

  lemma Doubles(n: nat)
    requires n > 0
    ensures Pow2(n) == 2 * Pow2(n - 1)
  {}

  lemma OneBit(n: nat)
    ensures Msb(Pow2(n), n + 1) == [true] + Zeros(n)
  {
    hide Msb;
    MsbJoin(1, 0, 1, n);
    MsbOfZero(n);
    assert Msb(1, 1) == [true] by { MsbOfOne(); }
    assert ShlOr(1, n, 0) == Pow2(n);
  }

  lemma MsbOfOne()
    ensures Msb(1, 1) == [true]
  {}

  lemma TopFits(byte: nat, hi: nat, k: nat)
    requires byte < 256 && k < BYTE && byte == ShlOr(hi, BYTE - k, 0)
    ensures byte + Pow2(BYTE - 1 - k) < 256
  {
    hide Pow2;
    var p := Pow2(BYTE - k);
    Doubles(BYTE - k);
    assert 256 == Pow2(k) * p by { Pow2Sum(k, BYTE - k); Pow2Eight(); }
    if hi >= Pow2(k) {
      MulMonotone(Pow2(k), hi, p);
    } else {
      MulStep(hi, Pow2(k), p);
    }
  }

  lemma ShrStep(num: nat, k: nat)
    ensures Shr(num, k) / 2 == Shr(num, k + 1)
  {
    var q, r := DivMod(num, Pow2(k));
    var h, b := q / 2, q % 2;
    assert q == 2 * h + b;
    var p := Pow2(k);
    assert num == (r + b * p) + h * (2 * p) by { Distribute(h, b, p); }
    if b == 1 { assert b * p == p; } else { assert b * p == 0; }
    ModUnique(num, Pow2(k + 1), h, r + b * p);
  }

  lemma Distribute(h: nat, b: nat, p: nat)
    ensures (2 * h + b) * p == b * p + h * (2 * p)
  {}
}
