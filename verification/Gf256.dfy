/** The field of 256 elements behind the QR error correction code, as the log and exp tables of
    QRMath build it: powers of alpha = x modulo x^8 + x^4 + x^3 + x^2 + 1 (ISO/IEC 18004:2015,
    section 7.5.2). The table product turns out to be the shift-and-add product of polynomials,
    and with it the 256 bytes are a field. */
module Gf256 {
  import opened Wrappers

  type Elem = bv8

  function Add(a: Elem, b: Elem): Elem { a ^ b }

  /** Multiplication by x. */
  function Xtime(a: Elem): Elem {
    Add(a << 1, If(a & 0x80 != 0, 0x1d))
  }

  function If(bit: bool, a: Elem): Elem { if bit then a else 0 }

  /** alpha to the n-th power. */
  function Alpha(n: nat): Elem {
    if n == 0 then 1 else Xtime(Alpha(n - 1))
  }

  /** The field of ISO/IEC 18004:2015, section 7.5.2: x is 2, and x^8 + x^4 + x^3 + x^2 + 1 is 0. */
  lemma FieldPolynomial()
    ensures Alpha(1) == 2 && Alpha(2) == 4 && Alpha(3) == 8 && Alpha(4) == 16
    ensures Alpha(5) == 32 && Alpha(6) == 64 && Alpha(7) == 128
    ensures Alpha(8) == Add(Add(Alpha(4), Alpha(3)), Add(Alpha(2), 1))
  {}

  lemma AddLaws(a: Elem, b: Elem, c: Elem)
    ensures Add(a, b) == Add(b, a)
    ensures Add(a, Add(b, c)) == Add(Add(a, b), c)
    ensures Add(a, 0) == a && Add(0, a) == a && Add(a, a) == 0
  {}

  lemma AddSwap(a: Elem, b: Elem, c: Elem, d: Elem)
    ensures Add(Add(a, b), Add(c, d)) == Add(Add(a, c), Add(b, d))
  {
    hide Add;
    AddLaws(a, b, Add(c, d));
    AddLaws(b, c, d);
    AddLaws(c, b, d);
    AddLaws(a, c, Add(b, d));
  }

  lemma AddCancels(a: Elem, b: Elem)
    ensures Add(a, Add(a, b)) == b && (Add(a, b) == 0 <==> a == b)
  {}

  lemma XtimeLinear(a: Elem, b: Elem)
    ensures Xtime(Add(a, b)) == Add(Xtime(a), Xtime(b)) && Xtime(0) == 0
  {
    hide Add, If;
    ShiftOfAdd(a, b);
    IfBoth(a & 0x80 != 0, b & 0x80 != 0, 0x1d);
    AddSwap(a << 1, b << 1, If(a & 0x80 != 0, 0x1d), If(b & 0x80 != 0, 0x1d));
    AddLaws(0, 0, 0);
    IfBoth(false, false, 0x1d);
  }

  lemma ShiftOfAdd(a: Elem, b: Elem)
    ensures Add(a, b) << 1 == Add(a << 1, b << 1)
    ensures (Add(a, b) & 0x80 != 0) == ((a & 0x80 != 0) != (b & 0x80 != 0))
  {}

  lemma IfBoth(p: bool, q: bool, c: Elem)
    ensures If(p != q, c) == Add(If(p, c), If(q, c)) && If(false, c) == 0
  {}

  lemma XtimeInjective(a: Elem, b: Elem)
    requires Xtime(a) == Xtime(b)
    ensures a == b
  {}

  // ---- The polynomial product -----------------------------------------------------------------

  /** The coefficients of an element, lowest first. */
  function Coefficients(a: Elem): seq<bool> {
    [a & 1 != 0, a & 2 != 0, a & 4 != 0, a & 8 != 0, a & 16 != 0, a & 32 != 0, a & 64 != 0, a & 128 != 0]
  }

  function ShiftAdd(a: Elem, bits: seq<bool>): Elem
    decreases bits
  {
    if bits == [] then 0 else Add(If(bits[0], a), ShiftAdd(Xtime(a), bits[1..]))
  }

  /** The product of two elements as polynomials. */
  function Times(a: Elem, b: Elem): Elem {
    ShiftAdd(a, Coefficients(b))
  }

  lemma IfLaws(bit: bool, a: Elem, b: Elem)
    ensures If(bit, Add(a, b)) == Add(If(bit, a), If(bit, b))
    ensures If(bit, Xtime(a)) == Xtime(If(bit, a))
  {}

  lemma {:induction false} ShiftAddAdds(a: Elem, b: Elem, bits: seq<bool>)
    ensures ShiftAdd(Add(a, b), bits) == Add(ShiftAdd(a, bits), ShiftAdd(b, bits))
    decreases bits
  {
    hide Xtime, Add, If;
    if bits == [] {
      AddLaws(0, 0, 0);
    } else {
      XtimeLinear(a, b);
      ShiftAddAdds(Xtime(a), Xtime(b), bits[1..]);
      IfLaws(bits[0], a, b);
      AddSwap(If(bits[0], a), If(bits[0], b), ShiftAdd(Xtime(a), bits[1..]), ShiftAdd(Xtime(b), bits[1..]));
    }
  }

  lemma {:induction false} ShiftAddXtime(a: Elem, bits: seq<bool>)
    ensures ShiftAdd(Xtime(a), bits) == Xtime(ShiftAdd(a, bits))
    decreases bits
  {
    hide Xtime, Add, If;
    if bits == [] {
      XtimeLinear(0, 0);
    } else {
      ShiftAddXtime(Xtime(a), bits[1..]);
      IfLaws(bits[0], a, 0);
      XtimeLinear(If(bits[0], a), ShiftAdd(Xtime(a), bits[1..]));
    }
  }

  lemma XtimeOfBits()
    ensures Xtime(1) == 2 && Xtime(2) == 4 && Xtime(4) == 8 && Xtime(8) == 16
    ensures Xtime(16) == 32 && Xtime(32) == 64 && Xtime(64) == 128
  {}

  lemma TimesOne(b: Elem)
    ensures Times(1, b) == b
  {
    hide ShiftAdd;
    ShiftAddOne(Coefficients(b));
    BitsMakeUp(b);
  }

  lemma ShiftAddOne(bits: seq<bool>)
    requires |bits| == 8
    ensures ShiftAdd(1, bits) == (If(bits[0], 1) ^ If(bits[1], 2)) ^ ((If(bits[2], 4) ^ If(bits[3], 8))
             ^ ((If(bits[4], 16) ^ If(bits[5], 32)) ^ ((If(bits[6], 64) ^ If(bits[7], 128)) ^ 0)))
  {
    hide Xtime, If;
    XtimeOfBits();
    assert bits[2..][2..] == bits[4..] && bits[4..][2..] == bits[6..] && bits[6..][2..] == [];
    assert ShiftAdd(128, []) == 0;
    ShiftAddTwo(64, bits[6..]);
    ShiftAddTwo(16, bits[4..]);
    ShiftAddTwo(4, bits[2..]);
    ShiftAddTwo(1, bits);
  }

  lemma BitsMakeUp(b: Elem)
    ensures b == (If(b & 1 != 0, 1) ^ If(b & 2 != 0, 2)) ^ ((If(b & 4 != 0, 4) ^ If(b & 8 != 0, 8))
             ^ ((If(b & 16 != 0, 16) ^ If(b & 32 != 0, 32)) ^ ((If(b & 64 != 0, 64) ^ If(b & 128 != 0, 128)) ^ 0)))
  {
    assert b == ((b & 1) ^ (b & 2)) ^ (((b & 4) ^ (b & 8)) ^ (((b & 16) ^ (b & 32)) ^ ((b & 64) ^ (b & 128))));
  }

  lemma ShiftAddTwo(a: Elem, bits: seq<bool>)
    requires |bits| >= 2
    ensures ShiftAdd(a, bits) == (If(bits[0], a) ^ If(bits[1], Xtime(a))) ^ ShiftAdd(Xtime(Xtime(a)), bits[2..])
  {
    assert bits[1..][1..] == bits[2..];
  }

  // ---- Powers of alpha ------------------------------------------------------------------------

  lemma {:induction false} TimesAlpha(i: nat, j: nat)
    ensures Times(Alpha(i), Alpha(j)) == Alpha(i + j)
  {
    hide Xtime, Coefficients;
    if i == 0 {
      TimesOne(Alpha(j));
    } else {
      TimesAlpha(i - 1, j);
      ShiftAddXtime(Alpha(i - 1), Coefficients(Alpha(j)));
    }
  }

  lemma {:induction false} AlphaNonzero(n: nat)
    ensures Alpha(n) != 0
  {
    if n > 0 {
      AlphaNonzero(n - 1);
      XtimeLinear(0, 0);
      if Xtime(Alpha(n - 1)) == 0 { XtimeInjective(Alpha(n - 1), 0); }
    }
  }

  lemma {:induction false} AlphaInjectiveStep(i: nat, d: nat)
    requires Alpha(i + d) == Alpha(i)
    ensures Alpha(d) == 1
  {
    if i > 0 {
      XtimeInjective(Alpha(i - 1 + d), Alpha(i - 1));
      AlphaInjectiveStep(i - 1, d);
    }
  }

  lemma SmallestSquares()
    ensures Times(2, 2) == 4 && Times(4, 4) == 16
  {}

  lemma SmallSquares()
    ensures Times(16, 16) == 0x1d && Times(0x1d, 0x1d) == 0x4c
  {}

  lemma LargeSquares()
    ensures Times(0x4c, 0x4c) == 0x9d && Times(0x9d, 0x9d) == 0x5f
  {}

  lemma LargestSquares()
    ensures Times(0x5f, 0x5f) == 0x85 && Times(0x85, 0x85) == 2
  {}

  /** Repeated squaring of alpha. */
  lemma AlphaDoublings()
    ensures Alpha(1) == 2 && Alpha(2) == 4 && Alpha(4) == 16 && Alpha(16) == 0x4c && Alpha(32) == 0x9d
    ensures Alpha(64) == 0x5f && Alpha(256) == 2
  {
    assert Alpha(1) == 2;
    hide Times, Alpha;
    SmallestSquares();
    SmallSquares();
    LargeSquares();
    LargestSquares();
    TimesAlpha(1, 1);
    TimesAlpha(2, 2);
    TimesAlpha(4, 4);
    TimesAlpha(8, 8);
    TimesAlpha(16, 16);
    TimesAlpha(32, 32);
    TimesAlpha(64, 64);
    TimesAlpha(128, 128);
  }

  lemma AlphaPeriod()
    ensures Alpha(255) == 1
  {
    AlphaDoublings();
    AlphaInjectiveStep(1, 255);
  }

  /** The proper divisors of 255 divide 15, 51 or 85, and none of these is a period. */
  lemma NoProperPeriod()
    ensures Alpha(15) != 1 && Alpha(51) != 1 && Alpha(85) != 1
  {
    AlphaDoublings();
    hide Alpha, Times;
    ProductsFor51();
    ProductsFor85();
    TimesAlpha(15, 1);
    TimesAlpha(32, 16);
    TimesAlpha(48, 2);
    TimesAlpha(50, 1);
    TimesAlpha(64, 16);
    TimesAlpha(80, 4);
    TimesAlpha(84, 1);
    TimesOne(2);
  }

  lemma ProductsFor51()
    ensures Times(0x9d, 0x4c) == 0x46 && Times(0x46, 4) == 0x05 && Times(0x05, 2) == 0x0a
  {}

  lemma ProductsFor85()
    ensures Times(0x5f, 0x4c) == 0xfd && Times(0xfd, 0x10) == 0x6b && Times(0x6b, 2) == 0xd6
  {}

  lemma {:induction false} PeriodMultiple(d: nat, q: nat)
    requires Alpha(d) == 1
    ensures Alpha(d * q) == 1
  {
    hide Xtime, Times;
    if q > 0 {
      PeriodMultiple(d, q - 1);
      TimesAlpha(d, d * (q - 1));
      TimesOne(1);
      assert d + d * (q - 1) == d * q;
    }
  }

  lemma PeriodMod(n: nat, d: nat)
    requires d > 0 && Alpha(d) == 1
    ensures Alpha(n) == Alpha(n % d)
  {
    hide Alpha, Times;
    PeriodMultiple(d, n / d);
    TimesAlpha(d * (n / d), n % d);
    TimesOne(Alpha(n % d));
    assert d * (n / d) + n % d == n;
  }

  lemma DivisorOf255(d: nat) returns (q: nat)
    requires 0 < d < 255 && 255 % d == 0
    ensures d * q == 255 && (d in {1, 3, 5, 15} || d in {17, 51, 85})
  {
    q := 255 / d;
    assert d * q == 255;
    if d > 15 {
      if q > 15 { LargeProduct(d, q); }
      SmallDivisor(q, d);
    } else {
      SmallDivisor(d, q);
    }
  }

  lemma LargeProduct(d: nat, q: nat)
    requires d > 15 && q > 15
    ensures d * q > 255
  {
    assert (d - 16) * (q - 16) >= 0;
  }

  lemma SmallDivisor(d: nat, q: nat)
    requires d * q == 255 && d <= 15
    ensures (d == 1 && q == 255) || (d == 3 && q == 85) || (d == 5 && q == 51) || (d == 15 && q == 17)
  {
    if d == 0 {} else if d == 2 {} else if d == 4 {} else if d == 6 {} else if d == 7 {} else if d == 8 {}
    else if d == 9 {} else if d == 10 {} else if d == 11 {} else if d == 12 {} else if d == 13 {}
    else if d == 14 {} else {}
  }

  /** alpha has order exactly 255. */
  lemma {:induction false} NoShortPeriod(d: nat)
    requires 0 < d < 255
    ensures Alpha(d) != 1
  {
    hide Alpha;
    if Alpha(d) == 1 {
      AlphaPeriod();
      PeriodMod(255, d);
      if 255 % d > 0 {
        NoShortPeriod(255 % d);
      } else {
        var q := DivisorOf255(d);
        NoProperPeriod();
        PeriodMod(15, d);
        PeriodMod(51, d);
        PeriodMod(85, d);
      }
    }
  }

  /** The exp table lists 255 different elements. */
  lemma AlphaInjective(i: nat, j: nat)
    requires i < j < 255
    ensures Alpha(i) != Alpha(j)
  {
    if Alpha(i) == Alpha(j) {
      AlphaInjectiveStep(i, j - i);
      NoShortPeriod(j - i);
    }
  }

  // ---- Logarithms -----------------------------------------------------------------------------

  /** An element as the table index the source uses it as. */
  function Number(a: Elem): nat { a as nat }

  lemma SameNumber(a: Elem, b: Elem)
    requires Number(a) == Number(b)
    ensures a == b
  {
    assert (a as nat) as Elem == a;
  }

  lemma NumberRange(a: Elem)
    ensures Number(a) < 256 && (Number(a) == 0 <==> a == 0)
  {
    if Number(a) == 0 { SameNumber(a, 0); }
  }

  ghost function Powers(n: nat): set<nat> {
    if n == 0 then {} else Powers(n - 1) + {Number(Alpha(n - 1))}
  }

  ghost predicate IsPower(v: nat, n: nat) {
    exists i: nat :: i < n && Number(Alpha(i)) == v
  }

  lemma {:induction false} PowersAre(n: nat)
    requires n <= 255
    ensures forall v :: v in Powers(n) ==> IsPower(v, n) && 1 <= v < 256
    ensures |Powers(n)| == n
  {
    hide Xtime, Number;
    if n > 0 {
      PowersAre(n - 1);
      AlphaNonzero(n - 1);
      var new_ := Number(Alpha(n - 1));
      NumberRange(Alpha(n - 1));
      if new_ in Powers(n - 1) {
        var i: nat :| i < n - 1 && Number(Alpha(i)) == new_;
        SameNumber(Alpha(i), Alpha(n - 1));
        AlphaInjective(i, n - 1);
      }
      assert IsPower(new_, n);
      forall v | v in Powers(n - 1) ensures IsPower(v, n) {
        assert IsPower(v, n - 1);
        var i: nat :| i < n - 1 && Number(Alpha(i)) == v;
        assert i < n && Number(Alpha(i)) == v;
      }
    }
  }

  lemma {:induction false} RangeCount(s: set<nat>, n: nat)
    requires forall v :: v in s ==> 1 <= v <= n
    ensures |s| <= n
  {
    if n > 0 {
      RangeCount(s - {n}, n - 1);
    } else {
      assert s == {};
    }
  }

  /** Every nonzero element is a power of alpha: 255 different powers, 255 nonzero bytes. */
  lemma LogExists(a: Elem)
    requires a != 0
    ensures exists i: nat :: i < 255 && Alpha(i) == a
  {
    hide Alpha, Number, Powers;
    PowersAre(255);
    NumberRange(a);
    if Number(a) !in Powers(255) {
      RangeCount(Powers(255) + {Number(a)}, 255);
    }
    assert IsPower(Number(a), 255);
    var i: nat :| i < 255 && Number(Alpha(i)) == Number(a);
    SameNumber(Alpha(i), a);
  }

  /** Every byte value is the number of an element, by the same count. */
  lemma NumberOfByte(b: nat)
    requires b < 256
    ensures exists e: Elem :: Number(e) == b
  {
    hide Alpha, Number, Powers;
    if b == 0 {
      NumberRange(0);
      assert Number(0) == b;
    } else {
      PowersAre(255);
      if b !in Powers(255) {
        RangeCount(Powers(255) + {b}, 255);
      }
      assert IsPower(b, 255);
      var i: nat :| i < 255 && Number(Alpha(i)) == b;
    }
  }

  function ToElem(b: nat): (e: Elem)
    requires b < 256
    ensures Number(e) == b
  {
    NumberConverts(b);
    b as Elem
  }

  lemma NumberConverts(b: nat)
    requires b < 256
    ensures Number(b as Elem) == b
  {
    NumberOfByte(b);
    var e: Elem :| Number(e) == b;
    assert Number(e) as Elem == e;
  }

  ghost function Log(a: Elem): (i: nat)
    requires a != 0
    ensures i < 255 && Alpha(i) == a
  {
    LogExists(a);
    var i: nat :| i < 255 && Alpha(i) == a;
    i
  }

  lemma AlphaMod(n: nat)
    ensures Alpha(n) == Alpha(n % 255)
  {
    AlphaPeriod();
    PeriodMod(n, 255);
  }

  // ---- Field laws -----------------------------------------------------------------------------

  lemma {:induction false} ShiftAddZero(a: Elem, bits: seq<bool>)
    requires a == 0 || forall i :: 0 <= i < |bits| ==> !bits[i]
    ensures ShiftAdd(a, bits) == 0
    decreases bits
  {
    hide Xtime;
    if bits != [] {
      XtimeLinear(0, 0);
      ShiftAddZero(Xtime(a), bits[1..]);
    }
  }

  lemma TimesZero(a: Elem)
    ensures Times(a, 0) == 0 && Times(0, a) == 0
  {
    ShiftAddZero(a, Coefficients(0));
    ShiftAddZero(0, Coefficients(a));
  }

  lemma TimesCommutes(a: Elem, b: Elem)
    ensures Times(a, b) == Times(b, a)
  {
    hide Alpha, Times;
    TimesZero(a);
    TimesZero(b);
    if a != 0 && b != 0 {
      TimesAlpha(Log(a), Log(b));
      TimesAlpha(Log(b), Log(a));
    }
  }

  lemma TimesAssociates(a: Elem, b: Elem, c: Elem)
    ensures Times(Times(a, b), c) == Times(a, Times(b, c))
  {
    hide Alpha, Times;
    TimesZero(a);
    TimesZero(b);
    TimesZero(c);
    TimesZero(Times(a, b));
    TimesZero(Times(b, c));
    if a != 0 && b != 0 && c != 0 {
      TimesAlpha(Log(a), Log(b));
      TimesAlpha(Log(a) + Log(b), Log(c));
      TimesAlpha(Log(b), Log(c));
      TimesAlpha(Log(a), Log(b) + Log(c));
    }
  }

  lemma TimesDistributes(a: Elem, b: Elem, c: Elem)
    ensures Times(Add(a, b), c) == Add(Times(a, c), Times(b, c))
    ensures Times(c, Add(a, b)) == Add(Times(c, a), Times(c, b))
  {
    hide Add, ShiftAdd, Coefficients;
    ShiftAddAdds(a, b, Coefficients(c));
    TimesCommutes(c, Add(a, b));
    TimesCommutes(c, a);
    TimesCommutes(c, b);
  }

  /** The quotient a / b; division by zero does not occur. */
  ghost function Over(a: Elem, b: Elem): Elem
    requires b != 0
  {
    Times(a, Alpha(255 - Log(b)))
  }

  lemma OverTimes(a: Elem, b: Elem)
    requires b != 0
    ensures Times(Over(a, b), b) == a
  {
    hide Alpha, Times;
    var inverse := Alpha(255 - Log(b));
    TimesAlpha(255 - Log(b), Log(b));
    AlphaPeriod();
    TimesAssociates(a, inverse, b);
    TimesCommutes(a, 1);
    TimesOne(a);
  }

  /** MAIN RESULT: adding logarithms multiplies, so the table product is the polynomial product. */
  lemma TableProduct(a: Elem, b: Elem, i: nat, j: nat)
    requires Alpha(i) == a && Alpha(j) == b
    ensures Times(a, b) == Alpha((i + j) % 255)
  {
    hide Alpha, Times;
    TimesAlpha(i, j);
    AlphaMod(i + j);
  }

  // ---- The tables -----------------------------------------------------------------------------

  lemma AlphaOfBits(i: nat)
    requires i < 8
    ensures Alpha(i) == (1 as Elem) << i
  {
    XtimeOfBits();
    hide Xtime;
    assert Alpha(0) == 1;
    assert Alpha(1) == 2;
    assert Alpha(2) == 4;
    assert Alpha(3) == 8;
    assert Alpha(4) == 16;
    assert Alpha(5) == 32;
    assert Alpha(6) == 64;
    assert Alpha(7) == 128;
  }

  /** The recurrence the exp table is filled with follows from x^8 = x^4 + x^3 + x^2 + 1. */
  lemma {:induction false} AlphaRecurrence(i: nat)
    requires i >= 8
    ensures Alpha(i) == Add(Add(Add(Alpha(i - 4), Alpha(i - 5)), Alpha(i - 6)), Alpha(i - 8))
  {
    if i == 8 {
      AlphaAtEight();
    } else {
      AlphaRecurrence(i - 1);
      hide Xtime, Add;
      XtimeLinear(Add(Add(Alpha(i - 5), Alpha(i - 6)), Alpha(i - 7)), Alpha(i - 9));
      XtimeLinear(Add(Alpha(i - 5), Alpha(i - 6)), Alpha(i - 7));
      XtimeLinear(Alpha(i - 5), Alpha(i - 6));
    }
  }

  lemma AlphaAtEight()
    ensures Alpha(8) == Add(Add(Add(Alpha(4), Alpha(3)), Alpha(2)), Alpha(0))
  {
    assert Alpha(4) == 16 && Alpha(3) == 8 && Alpha(2) == 4;
    assert Alpha(8) == 0x1d;
  }

  method FillExp(table: array<Elem>)
    requires table.Length == 256
    modifies table
    ensures forall i :: 0 <= i < 256 ==> table[i] == Alpha(i)
  {
    hide Xtime, Add;
    var i := 0;
    while i < 8
      invariant 0 <= i <= 8
      invariant forall k :: 0 <= k < i ==> table[k] == Alpha(k)
    {
      AlphaOfBits(i);
      table[i] := (1 as Elem) << i;
      i := i + 1;
    }
    while i < 256
      invariant 8 <= i <= 256
      invariant forall k :: 0 <= k < i ==> table[k] == Alpha(k)
    {
      AlphaRecurrence(i);
      table[i] := Add(Add(Add(table[i - 4], table[i - 5]), table[i - 6]), table[i - 8]);
      i := i + 1;
    }
  }

  /** Each log is written once: the first 255 powers are different. */
  method FillLog(exp: array<Elem>, table: array<nat>)
    requires exp.Length == 256 && table.Length == 256
    requires exp as object != table && forall i :: 0 <= i < 256 ==> exp[i] == Alpha(i)
    modifies table
    ensures forall i :: 0 <= i < 255 ==> Number(Alpha(i)) < 256 && table[Number(Alpha(i))] == i
  {
    hide Xtime, Number;
    forall i | 0 <= i < 255 ensures Number(Alpha(i)) < 256 {
      NumberRange(Alpha(i));
    }
    var i := 0;
    while i < 255
      invariant 0 <= i <= 255
      invariant forall k :: 0 <= k < 256 ==> exp[k] == Alpha(k)
      invariant forall k :: 0 <= k < i ==> table[Number(Alpha(k))] == k
    {
      forall k | 0 <= k < i ensures Number(Alpha(k)) != Number(Alpha(i)) {
        AlphaInjective(k, i);
        if Number(Alpha(k)) == Number(Alpha(i)) { SameNumber(Alpha(k), Alpha(i)); }
      }
      table[Number(exp[i])] := i;
      i := i + 1;
    }
  }

  /** The log and exp tables of QRMath. */
  class QrMath {
    const expTable: array<Elem>
    const logTable: array<nat>

    ghost predicate Valid()
      reads expTable, logTable
    {
      && expTable.Length == 256 && logTable.Length == 256
      && (forall i :: 0 <= i < 256 ==> expTable[i] == Alpha(i))
      && (forall i :: 0 <= i < 255 ==> logTable[Number(Alpha(i))] == i)
    }

    constructor ()
      ensures Valid() && fresh(expTable) && fresh(logTable)
    {
      expTable := new Elem[256];
      logTable := new nat[256];
      new;
      FillExp(expTable);
      FillLog(expTable, logTable);
    }

    /** The discrete logarithm; None is the exception thrown for 0. */
    method Glog(n: Elem) returns (r: Option<nat>)
      requires Valid()
      ensures r.None? <==> n == 0
      ensures r.Some? ==> r.value < 255 && Alpha(r.value) == n
    {
      hide Alpha, Number;
      NumberRange(n);
      if Number(n) < 1 {
        return None;
      }
      ghost var i := Log(n);
      return Some(logTable[Number(n)]);
    }

    /** alpha to any integer power. */
    method Gexp(n: int) returns (r: Elem)
      requires Valid()
      ensures r == Alpha(n % 255)
    {
      hide Alpha;
      ghost var rest := n % 255;
      var k := n;
      while k < 0
        invariant k % 255 == rest
        invariant k < 256 || k == n
      {
        ModShift(k);
        k := k + 255;
      }
      while k >= 256
        invariant 0 <= k && k % 255 == rest
      {
        ModShift(k - 255);
        k := k - 255;
      }
      AlphaMod(k);
      return expTable[k];
    }
  }

  lemma ModShift(k: int)
    ensures (k + 255) % 255 == k % 255
  {}

}
