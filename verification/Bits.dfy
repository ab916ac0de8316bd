/** Bit strings of natural numbers, in both orders the encoders use. Bit operators of the source
    on disjoint bit ranges are written as arithmetic: `x << k` is `x * Pow2(k)`, `x >>> k` is
    `x / Pow2(k)` and `a | b` with no common bit is `a + b`. */
module Bits {

  function Pow2(n: nat): (p: nat)
    ensures p >= 1
  {
    if n == 0 then 1 else 2 * Pow2(n - 1)
  }

  lemma Pow2Sum(a: nat, b: nat)
    ensures Pow2(a + b) == Pow2(a) * Pow2(b)
  {
    if a > 0 { Pow2Sum(a - 1, b); }
  }

  lemma Pow2Monotone(a: nat, b: nat)
    requires a <= b
    ensures Pow2(a) <= Pow2(b)
    decreases b - a
  {
    if a < b { Pow2Monotone(a + 1, b); }
  }

  /** The source's `v >>> k` on a number that fits its 32 bits. */
  function Shr(v: nat, k: nat): nat {
    Quotient(v, Pow2(k))
  }

  function Quotient(v: nat, m: nat): nat
    requires m > 0
  {
    v / m
  }

  /** The source's `(hi << a) | lo`, for a `lo` below bit a. */
  function ShlOr(hi: nat, a: nat, lo: nat): nat {
    lo + hi * Pow2(a)
  }

  /** The low n bits of v, least significant first. */
  function Lsb(v: nat, n: nat): (b: seq<bool>)
    ensures |b| == n
  {
    if n == 0 then [] else [v % 2 == 1] + Lsb(v / 2, n - 1)
  }

  function LsbValue(b: seq<bool>): nat
  {
    if b == [] then 0 else (if b[0] then 1 else 0) + 2 * LsbValue(b[1..])
  }

  /** The low n bits of v, most significant first. */
  function Msb(v: nat, n: nat): (b: seq<bool>)
    ensures |b| == n
  {
    if n == 0 then [] else Msb(v / 2, n - 1) + [v % 2 == 1]
  }

  function MsbValue(b: seq<bool>): nat
  {
    if b == [] then 0 else 2 * MsbValue(b[..|b| - 1]) + (if b[|b| - 1] then 1 else 0)
  }

  function Zeros(n: nat): (b: seq<bool>)
    ensures |b| == n && forall i :: 0 <= i < n ==> !b[i]
  {
    seq(n, _ => false)
  }

  lemma {:induction false} LsbRoundTrip(v: nat, n: nat)
    requires v < Pow2(n)
    ensures LsbValue(Lsb(v, n)) == v
  {
    if n > 0 {
      LsbRoundTrip(v / 2, n - 1);
      assert Lsb(v, n)[1..] == Lsb(v / 2, n - 1);
    }
  }

  lemma {:induction false} MsbRoundTrip(v: nat, n: nat)
    requires v < Pow2(n)
    ensures MsbValue(Msb(v, n)) == v
  {
    if n > 0 {
      MsbRoundTrip(v / 2, n - 1);
      assert Msb(v, n)[..n - 1] == Msb(v / 2, n - 1);
    }
  }

  lemma {:induction false} HalfOfSum(lo: nat, hi: nat, a: nat)
    requires a > 0
    ensures (lo + hi * Pow2(a)) / 2 == lo / 2 + hi * Pow2(a - 1)
    ensures (lo + hi * Pow2(a)) % 2 == lo % 2
  {
    var h := hi * Pow2(a - 1);
    assert hi * Pow2(a) == 2 * h;
  }

  /** Writing `hi` above the a bits of `lo` appends its bits. */
  lemma {:induction false} LsbJoin(lo: nat, hi: nat, a: nat, b: nat)
    requires lo < Pow2(a)
    ensures Lsb(ShlOr(hi, a, lo), a + b) == Lsb(lo, a) + Lsb(hi, b)
  {
    hide Lsb;
    if a == 0 {
      assert lo + hi * Pow2(a) == hi;
      assert Lsb(lo, a) == [];
    } else {
      HalfOfSum(lo, hi, a);
      LsbJoin(lo / 2, hi, a - 1, b);
      LsbStep(ShlOr(hi, a, lo), a + b);
      LsbStep(lo, a);
      Assoc([lo % 2 == 1], Lsb(lo / 2, a - 1), Lsb(hi, b));
    }
  }

  lemma LsbStep(v: nat, n: nat)
    requires n > 0
    ensures Lsb(v, n) == [v % 2 == 1] + Lsb(v / 2, n - 1)
  {}

  lemma MsbStep(v: nat, n: nat)
    requires n > 0
    ensures Msb(v, n) == Msb(v / 2, n - 1) + [v % 2 == 1]
  {}

  lemma DivMod(v: nat, m: nat) returns (q: nat, r: nat)
    requires m > 0
    ensures q == Quotient(v, m) && r == v % m && r < m
    ensures v == r + q * m
  {
    q, r := v / m, v % m;
  }

  lemma {:induction false} LsbMod(v: nat, a: nat, k: nat)
    requires a <= k
    ensures Lsb(v % Pow2(k), a) == Lsb(v, a)
  {
    if a > 0 {
      var q, r := DivMod(v, Pow2(k));
      HalfOfSum(r, q, k);
      var half := v / 2;
      assert r / 2 < Pow2(k - 1);
      assert half % Pow2(k - 1) == r / 2 by { ModUnique(half, Pow2(k - 1), q, r / 2); }
      LsbMod(half, a - 1, k - 1);
    }
  }

  lemma MulStep(a: nat, b: nat, m: nat)
    requires a < b
    ensures a * m + m <= b * m
  {
    assert (a + 1) * m <= b * m;
  }

  lemma ModUnique(v: nat, m: nat, q: nat, r: nat)
    requires r < m && v == r + q * m
    ensures v % m == r && v / m == q
  {
    if v / m > q {
      MulStep(q, v / m, m);
    } else if v / m < q {
      MulStep(v / m, q, m);
    }
  }

  lemma {:induction false} LsbSplit(v: nat, a: nat, b: nat)
    ensures Lsb(v, a + b) == Lsb(v, a) + Lsb(Shr(v, a), b)
  {
    var q, r := DivMod(v, Pow2(a));
    LsbJoin(r, q, a, b);
    LsbMod(v, a, a);
  }

  lemma {:induction false} MsbJoin(hi: nat, lo: nat, a: nat, b: nat)
    requires lo < Pow2(b)
    ensures Msb(ShlOr(hi, b, lo), a + b) == Msb(hi, a) + Msb(lo, b)
  {
    hide Msb;
    if b == 0 {
      assert lo + hi * Pow2(b) == hi;
      assert Msb(lo, b) == [];
    } else {
      HalfOfSum(lo, hi, b);
      MsbJoin(hi, lo / 2, a, b - 1);
      MsbStep(ShlOr(hi, b, lo), a + b);
      MsbStep(lo, b);
      Assoc(Msb(hi, a), Msb(lo / 2, b - 1), [lo % 2 == 1]);
    }
  }

  lemma {:induction false} MsbMod(v: nat, a: nat, k: nat)
    requires a <= k
    ensures Msb(v % Pow2(k), a) == Msb(v, a)
  {
    if a > 0 {
      var q, r := DivMod(v, Pow2(k));
      HalfOfSum(r, q, k);
      var half := v / 2;
      assert half % Pow2(k - 1) == r / 2 by { ModUnique(half, Pow2(k - 1), q, r / 2); }
      MsbMod(half, a - 1, k - 1);
    }
  }

  lemma {:induction false} MsbSplit(v: nat, a: nat, b: nat)
    ensures Msb(v, a + b) == Msb(Shr(v, b), a) + Msb(v, b)
  {
    var q, r := DivMod(v, Pow2(b));
    MsbJoin(q, r, a, b);
    MsbMod(v, b, b);
  }

  lemma Assoc<T>(a: seq<T>, b: seq<T>, c: seq<T>)
    ensures a + (b + c) == (a + b) + c
  {}

  /** Numbers of n bits each, every one written least significant bit first. */
  function LsbChunks(xs: seq<nat>, n: nat): seq<bool>
  {
    if xs == [] then [] else Lsb(xs[0], n) + LsbChunks(xs[1..], n)
  }

  /** Numbers of n bits each, every one written most significant bit first. */
  function MsbChunks(xs: seq<nat>, n: nat): seq<bool>
  {
    if xs == [] then [] else Msb(xs[0], n) + MsbChunks(xs[1..], n)
  }

  lemma {:induction false} LsbChunksAppend(xs: seq<nat>, ys: seq<nat>, n: nat)
    ensures LsbChunks(xs + ys, n) == LsbChunks(xs, n) + LsbChunks(ys, n)
  {
    if xs == [] {
      assert xs + ys == ys;
    } else {
      assert (xs + ys)[1..] == xs[1..] + ys;
      LsbChunksAppend(xs[1..], ys, n);
      Assoc(Lsb(xs[0], n), LsbChunks(xs[1..], n), LsbChunks(ys, n));
    }
  }

  lemma {:induction false} MsbChunksAppend(xs: seq<nat>, ys: seq<nat>, n: nat)
    ensures MsbChunks(xs + ys, n) == MsbChunks(xs, n) + MsbChunks(ys, n)
  {
    if xs == [] {
      assert xs + ys == ys;
    } else {
      assert (xs + ys)[1..] == xs[1..] + ys;
      MsbChunksAppend(xs[1..], ys, n);
      Assoc(Msb(xs[0], n), MsbChunks(xs[1..], n), MsbChunks(ys, n));
    }
  }

  lemma LsbChunksOne(x: nat, n: nat)
    ensures LsbChunks([x], n) == Lsb(x, n)
  {
    assert LsbChunks([x][1..], n) == [];
  }

  lemma MsbChunksOne(x: nat, n: nat)
    ensures MsbChunks([x], n) == Msb(x, n)
  {
    assert MsbChunks([x][1..], n) == [];
  }

  const BYTE: nat := 8

  /** A byte array as GIF readers see it: least significant bit first. */
  function LsbBytes(bytes: seq<nat>): seq<bool> {
    LsbChunks(bytes, BYTE)
  }

  /** A byte array as QR and base64 readers see it: most significant bit first. */
  function MsbBytes(bytes: seq<nat>): seq<bool> {
    MsbChunks(bytes, BYTE)
  }

  lemma {:induction false} ChunksLength(bytes: seq<nat>)
    ensures |MsbBytes(bytes)| == BYTE * |bytes|
  {
    hide Msb;
    if bytes != [] { ChunksLength(bytes[1..]); }
  }

  lemma {:induction false} MsbOfZero(n: nat)
    ensures Msb(0, n) == Zeros(n)
  {
    if n > 0 { MsbOfZero(n - 1); }
  }

  lemma Pow2Eight()
    ensures Pow2(BYTE) == 256
  {
    assert Pow2(4) == 16;
    Pow2Sum(4, 4);
  }

  lemma MulMonotone(a: nat, b: nat, m: nat)
    requires a <= b
    ensures a * m <= b * m
  {}
}
