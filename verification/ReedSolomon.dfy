/** Reed-Solomon error correction (ISO/IEC 18004:2015, section 7.5). */
module ReedSolomon {
  // As qrPolynomial and getErrorCorrectPolynomial compute it. Polynomials are coefficient sequences,
  // highest degree first. Main results: the data followed by the remainder is a multiple of the
  // generator, its syndromes vanish, no nonzero word with that few nonzero symbols has vanishing
  // syndromes, and the encoder's logarithms never meet a zero for fewer than 255 symbols.

  import opened Wrappers
  import opened Gf256

  type Poly = seq<Elem>

  function Blank(n: nat): (z: Poly)
    ensures |z| == n && forall i :: 0 <= i < n ==> z[i] == 0
  {
    seq(n, _ => 0)
  }

  function AddVec(u: Poly, v: Poly): (w: Poly)
    requires |u| == |v|
    ensures |w| == |u| && forall i :: 0 <= i < |u| ==> w[i] == Add(u[i], v[i])
  {
    seq(|u|, i requires 0 <= i < |u| => Add(u[i], v[i]))
  }

  function Scale(c: Elem, p: Poly): (w: Poly)
    ensures |w| == |p| && forall i :: 0 <= i < |p| ==> w[i] == Times(c, p[i])
  {
    seq(|p|, i requires 0 <= i < |p| => Times(c, p[i]))
  }

  /** `p` added into `v` from position k on. */
  function AddAt(v: Poly, k: nat, p: Poly): (w: Poly)
    requires k + |p| <= |v|
    ensures |w| == |v|
    ensures forall i :: 0 <= i < |v| ==> w[i] == if k <= i < k + |p| then Add(v[i], p[i - k]) else v[i]
  {
    seq(|v|, i requires 0 <= i < |v| => if k <= i < k + |p| then Add(v[i], p[i - k]) else v[i])
  }

  /** The product of two polynomials. */
  function Product(q: Poly, g: Poly): (w: Poly)
    requires g != []
    ensures |w| == |q| + |g| - 1
  {
    if q == [] then Blank(|g| - 1) else AddAt([0] + Product(q[1..], g), 0, Scale(q[0], g))
  }

  /** The generator: the product of (x + alpha^i) for i < n. */
  function Generator(n: nat): (g: Poly)
    ensures |g| == n + 1
  {
    if n == 0 then [1] else Product(Generator(n - 1), [1, Alpha(n - 1)])
  }

  // ---- Division -------------------------------------------------------------------------------

  /** One step of long division: cancel the leading term and drop it. */
  ghost function Reduce(v: Poly, g: Poly): (w: Poly)
    requires g != [] && g[0] != 0 && |v| >= |g|
    ensures |w| == |v| - 1
  {
    AddAt(v, 0, Scale(Over(v[0], g[0]), g))[1..]
  }

  ghost function Remainder(v: Poly, g: Poly): (r: Poly)
    requires g != [] && g[0] != 0
    ensures |r| == if |v| < |g| then |v| else |g| - 1
    decreases |v|
  {
    if |v| < |g| then v else Remainder(Reduce(v, g), g)
  }

  ghost function Quotient(v: Poly, g: Poly): (q: Poly)
    requires g != [] && g[0] != 0
    ensures |q| == if |v| < |g| then 0 else |v| - |g| + 1
    decreases |v|
  {
    if |v| < |g| then [] else [Over(v[0], g[0])] + Quotient(Reduce(v, g), g)
  }

  lemma LeadCancels(v: Poly, g: Poly)
    requires g != [] && g[0] != 0 && |v| >= |g|
    ensures AddAt(v, 0, Scale(Over(v[0], g[0]), g)) == [0] + Reduce(v, g)
  {
    hide Times, Over, Add;
    OverTimes(v[0], g[0]);
    AddLaws(v[0], v[0], 0);
  }

  /** Adding the same multiple twice changes nothing. */
  lemma AddAtTwice(v: Poly, r: Poly, p: Poly)
    requires |v| == |r| && |p| <= |v|
    ensures AddAt(AddVec(AddAt(v, 0, p), r), 0, p) == AddVec(v, r)
  {
    hide Add;
    var w := AddAt(AddVec(AddAt(v, 0, p), r), 0, p);
    forall i | 0 <= i < |v| ensures w[i] == Add(v[i], r[i]) {
      if i < |p| {
        AddLaws(v[i], p[i], r[i]);
        AddLaws(v[i], r[i], p[i]);
        AddLaws(p[i], r[i], p[i]);
        AddLaws(Add(v[i], r[i]), p[i], p[i]);
        AddLaws(r[i], p[i], 0);
      }
    }
  }

  lemma DivisionStep(v: Poly, next: Poly, r: Poly, p: Poly)
    requires |r| == |next| == |v| - 1 && |p| <= |v|
    requires AddAt(v, 0, p) == [0] + next
    ensures AddAt([0] + AddVec(next, r), 0, p) == AddVec(v, [0] + r)
  {
    hide Add;
    AddLaws(0, 0, 0);
    assert [0] + AddVec(next, r) == AddVec([0] + next, [0] + r);
    AddAtTwice(v, [0] + r, p);
  }

  /** Long division is exact: subtracting the remainder leaves quotient times generator. */
  lemma {:induction false} DivisionIsExact(v: Poly, g: Poly)
    requires g != [] && g[0] != 0 && |v| >= |g| - 1
    ensures AddVec(v, Blank(|v| - |g| + 1) + Remainder(v, g)) == Product(Quotient(v, g), g)
    decreases |v|
  {
    hide Add, Times, Over, AddAt, Reduce;
    if |v| < |g| {
      forall i | 0 <= i < |v| ensures Add(v[i], v[i]) == 0 { AddLaws(v[i], v[i], 0); }
      assert Blank(0) + v == v;
    } else {
      var c, next := Over(v[0], g[0]), Reduce(v, g);
      DivisionIsExact(next, g);
      LeadCancels(v, g);
      var r := Blank(|next| - |g| + 1) + Remainder(next, g);
      DivisionStep(v, next, r, Scale(c, g));
      assert [0] + r == Blank(|v| - |g| + 1) + Remainder(v, g);
      assert Quotient(v, g)[1..] == Quotient(next, g);
    }
  }

  /** The code word: the data, then the remainder of the data shifted by the number of error
      correction symbols. */
  ghost function Codeword(data: Poly, n: nat): (w: Poly)
    ensures |w| == |data| + n
  {
    GeneratorIsMonic(n);
    data + Remainder(data + Blank(n), Generator(n))
  }

  lemma ProductHead(q: Poly, g: Poly)
    requires q != [] && g != []
    ensures Product(q, g)[0] == Times(q[0], g[0])
  {
    var w, p := [0] + Product(q[1..], g), Scale(q[0], g);
    assert Product(q, g) == AddAt(w, 0, p);
    AddAtHead(w, p);
  }

  lemma AddAtHead(w: Poly, p: Poly)
    requires 0 < |p| <= |w| && w[0] == 0
    ensures AddAt(w, 0, p)[0] == p[0]
  {
    AddLaws(0, p[0], 0);
  }

  lemma {:induction false} GeneratorIsMonic(n: nat)
    ensures Generator(n)[0] == 1
  {
    hide Add, Times;
    if n > 0 {
      GeneratorIsMonic(n - 1);
      ProductHead(Generator(n - 1), [1, Alpha(n - 1)]);
      TimesOne(1);
    }
  }

  /** MAIN RESULT: the code word is a multiple of the generator. */
  lemma CodewordDivisible(data: Poly, n: nat) returns (q: Poly)
    ensures |q| == |data|
    ensures Codeword(data, n) == Product(q, Generator(n))
  {
    hide Add, Times, Product, Generator, Remainder, Quotient;
    GeneratorIsMonic(n);
    var v, g := data + Blank(n), Generator(n);
    DivisionIsExact(v, g);
    q := Quotient(v, g);
    var r := Remainder(v, g);
    forall i | 0 <= i < |v| ensures AddVec(v, Blank(|data|) + r)[i] == Codeword(data, n)[i] {
      if i < |data| { AddLaws(data[i], 0, 0); } else { AddLaws(r[i - |data|], 0, 0); }
    }
    assert AddVec(v, Blank(|data|) + r) == Codeword(data, n);
  }

  // ---- Evaluation and syndromes ---------------------------------------------------------------

  function Pow(x: Elem, n: nat): Elem {
    if n == 0 then 1 else Times(Pow(x, n - 1), x)
  }

  /** The value of a polynomial at x. */
  function Eval(p: Poly, x: Elem): Elem {
    if p == [] then 0 else Add(Times(p[0], Pow(x, |p| - 1)), Eval(p[1..], x))
  }

  lemma {:induction false} PowSum(x: Elem, a: nat, b: nat)
    ensures Pow(x, a + b) == Times(Pow(x, a), Pow(x, b))
  {
    hide Times;
    if b == 0 {
      TimesOne(Pow(x, a));
      TimesCommutes(Pow(x, a), 1);
    } else {
      PowSum(x, a, b - 1);
      TimesAssociates(Pow(x, a), Pow(x, b - 1), x);
    }
  }

  lemma {:induction false} PowOfAlpha(i: nat, n: nat)
    ensures Pow(Alpha(i), n) == Alpha(i * n)
  {
    hide Times, Xtime;
    if n > 0 {
      PowOfAlpha(i, n - 1);
      TimesAlpha(i * (n - 1), i);
      assert i * (n - 1) + i == i * n;
    }
  }

  lemma {:induction false} EvalAdds(u: Poly, v: Poly, x: Elem)
    requires |u| == |v|
    ensures Eval(AddVec(u, v), x) == Add(Eval(u, x), Eval(v, x))
  {
    hide Times, Add, Pow;
    if u == [] {
      AddLaws(0, 0, 0);
    } else {
      EvalAdds(u[1..], v[1..], x);
      assert AddVec(u, v)[1..] == AddVec(u[1..], v[1..]);
      var m := Pow(x, |u| - 1);
      TimesDistributes(u[0], v[0], m);
      AddSwap(Times(u[0], m), Times(v[0], m), Eval(u[1..], x), Eval(v[1..], x));
    }
  }

  lemma {:induction false} EvalScales(c: Elem, p: Poly, x: Elem)
    ensures Eval(Scale(c, p), x) == Times(c, Eval(p, x))
  {
    hide Times, Add, Pow;
    if p == [] {
      TimesZero(c);
    } else {
      EvalScales(c, p[1..], x);
      assert Scale(c, p)[1..] == Scale(c, p[1..]);
      var m := Pow(x, |p| - 1);
      TimesAssociates(c, p[0], m);
      TimesDistributes(Times(p[0], m), Eval(p[1..], x), c);
    }
  }

  lemma {:induction false} EvalBlank(n: nat, x: Elem)
    ensures Eval(Blank(n), x) == 0
  {
    hide Times, Add, Pow;
    if n > 0 {
      EvalBlank(n - 1, x);
      assert Blank(n)[1..] == Blank(n - 1);
      TimesZero(Pow(x, n - 1));
      AddLaws(0, 0, 0);
    }
  }

  lemma {:induction false} EvalShifts(p: Poly, k: nat, x: Elem)
    ensures Eval(p + Blank(k), x) == Times(Eval(p, x), Pow(x, k))
  {
    hide Times, Add, Pow;
    if p == [] {
      EvalBlank(k, x);
      assert p + Blank(k) == Blank(k);
      TimesZero(Pow(x, k));
    } else {
      EvalShifts(p[1..], k, x);
      assert (p + Blank(k))[1..] == p[1..] + Blank(k);
      var m := Pow(x, |p| - 1);
      PowSum(x, |p| - 1, k);
      TimesAssociates(p[0], m, Pow(x, k));
      TimesDistributes(Times(p[0], m), Eval(p[1..], x), Pow(x, k));
    }
  }

  lemma EvalAddAt(v: Poly, p: Poly, x: Elem)
    requires |p| <= |v|
    ensures Eval(AddAt(v, 0, p), x) == Add(Eval(v, x), Times(Eval(p, x), Pow(x, |v| - |p|)))
  {
    hide Times, Add, Pow, Eval;
    var q := p + Blank(|v| - |p|);
    forall i | 0 <= i < |v| ensures AddAt(v, 0, p)[i] == AddVec(v, q)[i] {
      AddLaws(v[i], 0, 0);
    }
    assert AddAt(v, 0, p) == AddVec(v, q);
    EvalAdds(v, q, x);
    EvalShifts(p, |v| - |p|, x);
  }

  lemma EvalLeadingZero(v: Poly, x: Elem)
    ensures Eval([0] + v, x) == Eval(v, x)
  {
    hide Times, Add, Pow;
    TimesZero(Pow(x, |v|));
    AddLaws(0, Eval(v, x), 0);
    assert ([0] + v)[1..] == v;
    AddLaws(Eval(v, x), 0, 0);
  }

  /** Evaluation turns products of polynomials into products of values. */
  lemma {:induction false} EvalProduct(q: Poly, g: Poly, x: Elem)
    requires g != []
    ensures Eval(Product(q, g), x) == Times(Eval(q, x), Eval(g, x))
  {
    hide Times, Add, Pow, AddAt, Scale, Blank;
    if q == [] {
      EvalBlank(|g| - 1, x);
      TimesZero(Eval(g, x));
    } else {
      var rest, p := Product(q[1..], g), Scale(q[0], g);
      EvalProduct(q[1..], g, x);
      EvalAddAt([0] + rest, p, x);
      EvalLeadingZero(rest, x);
      EvalScales(q[0], g, x);
      ProductStep(q[0], Eval(q[1..], x), Eval(g, x), Pow(x, |q| - 1));
    }
  }

  lemma ProductStep(c: Elem, e: Elem, g: Elem, m: Elem)
    ensures Add(Times(e, g), Times(Times(c, g), m)) == Times(Add(Times(c, m), e), g)
  {
    hide Times, Add;
    TimesDistributes(Times(c, m), e, g);
    TimesAssociates(c, m, g);
    TimesAssociates(c, g, m);
    TimesCommutes(m, g);
    AddLaws(Times(e, g), Times(Times(c, g), m), 0);
  }

  /** The generator has the roots 1, alpha, alpha^2, ... */
  lemma {:induction false} GeneratorRoot(n: nat, i: nat)
    requires i < n
    ensures Eval(Generator(n), Alpha(i)) == 0
  {
    hide Times, Add, Pow, Alpha, Product, Eval;
    var g, f, x := Generator(n - 1), [1, Alpha(n - 1)], Alpha(i);
    EvalProduct(g, f, x);
    if i == n - 1 {
      EvalLinear(Alpha(n - 1), x);
      AddLaws(x, x, 0);
      TimesZero(Eval(g, x));
    } else {
      GeneratorRoot(n - 1, i);
      TimesZero(Eval(f, x));
    }
  }

  lemma EvalLinear(a: Elem, x: Elem)
    ensures Eval([1, a], x) == Add(x, a)
  {
    hide Times, Add;
    assert [1, a][1..] == [a] && [a][1..] == [];
    TimesOne(x);
    assert Pow(x, 1) == x;
    TimesCommutes(a, 1);
    TimesOne(a);
    AddLaws(a, 0, 0);
    assert Eval([a], x) == a;
  }

  /** MAIN RESULT: every syndrome of a code word is zero. */
  lemma SyndromesVanish(data: Poly, n: nat, i: nat)
    requires i < n
    ensures Eval(Codeword(data, n), Alpha(i)) == 0
  {
    hide Times, Add, Pow, Alpha, Product, Eval, Generator;
    var q := CodewordDivisible(data, n);
    EvalProduct(q, Generator(n), Alpha(i));
    GeneratorRoot(n, i);
    TimesZero(Eval(q, Alpha(i)));
  }

  // ---- What the syndromes detect --------------------------------------------------------------

  function Weight(v: Poly): nat {
    if v == [] then 0 else (if v[0] != 0 then 1 else 0) + Weight(v[1..])
  }

  /** Every symbol multiplied by the difference of its locator and the locator of position j. */
  function Twist(v: Poly, j: nat): (w: Poly)
    requires j < |v|
    ensures |w| == |v|
  {
    seq(|v|, k requires 0 <= k < |v| => Times(v[k], Add(Locator(v, k), Locator(v, j))))
  }

  function Locator(v: Poly, k: nat): Elem
    requires k < |v|
  {
    Alpha(|v| - 1 - k)
  }

  lemma LocatorsDiffer(v: Poly, j: nat, k: nat)
    requires j < |v| && k < |v| && |v| <= 255
    ensures Add(Locator(v, k), Locator(v, j)) == 0 <==> j == k
  {
    hide Add, Alpha;
    AddCancels(Locator(v, k), Locator(v, j));
    if j < k { AlphaInjective(|v| - 1 - k, |v| - 1 - j); }
    if k < j { AlphaInjective(|v| - 1 - j, |v| - 1 - k); }
  }

  lemma NoZeroDivisors(a: Elem, b: Elem)
    ensures Times(a, b) == 0 <==> a == 0 || b == 0
  {
    hide Alpha, Times;
    TimesZero(a);
    TimesZero(b);
    if a != 0 && b != 0 {
      TimesAlpha(Log(a), Log(b));
      AlphaNonzero(Log(a) + Log(b));
    }
  }

  lemma {:induction false} SameSupport(v: Poly, w: Poly)
    requires |v| == |w| && forall k :: 0 <= k < |v| ==> (v[k] != 0 <==> w[k] != 0)
    ensures Weight(v) == Weight(w)
  {
    if v != [] { SameSupport(v[1..], w[1..]); }
  }

  lemma {:induction false} WeightOfUpdate(v: Poly, j: nat)
    requires j < |v| && v[j] != 0
    ensures Weight(v[j := 0]) == Weight(v) - 1
  {
    if j == 0 {
      assert v[0 := 0][1..] == v[1..];
    } else {
      WeightOfUpdate(v[1..], j - 1);
      assert v[j := 0][1..] == v[1..][j - 1 := 0];
    }
  }

  /** Twisting by a position in the support removes exactly that position from it. */
  lemma TwistDropsOne(v: Poly, j: nat)
    requires j < |v| && |v| <= 255 && v[j] != 0
    ensures Weight(Twist(v, j)) == Weight(v) - 1
  {
    hide Add, Times, Alpha;
    var w := Twist(v, j);
    forall k | 0 <= k < |v| ensures w[k] != 0 <==> v[j := 0][k] != 0 {
      LocatorsDiffer(v, j, k);
      NoZeroDivisors(v[k], Add(Locator(v, k), Locator(v, j)));
    }
    SameSupport(w, v[j := 0]);
    WeightOfUpdate(v, j);
  }

  /** A symbol's term in the syndrome of a twisted word. */
  lemma TwistTerm(c: Elem, l: nat, m: nat, i: nat)
    ensures Times(Times(c, Add(Alpha(l), Alpha(m))), Pow(Alpha(i), l))
         == Add(Times(c, Pow(Alpha(i + 1), l)), Times(Alpha(m), Times(c, Pow(Alpha(i), l))))
  {
    hide Add, Times, Alpha, Pow;
    var p := Alpha(i * l);
    PowOfAlpha(i, l);
    PowOfAlpha(i + 1, l);
    assert (i + 1) * l == l + i * l;
    TimesAlpha(l, i * l);
    TimesDistributes(Alpha(l), Alpha(m), c);
    TimesDistributes(Times(c, Alpha(l)), Times(c, Alpha(m)), p);
    TimesAssociates(c, Alpha(l), p);
    TimesCommutes(c, Alpha(m));
    TimesAssociates(Alpha(m), c, p);
  }

  /** The syndromes of a twisted word are combinations of neighbouring syndromes. */
  lemma {:induction false} TwistSyndrome(v: Poly, w: Poly, m: nat, i: nat)
    requires |w| == |v|
    requires forall k :: 0 <= k < |v| ==> w[k] == Times(v[k], Add(Locator(v, k), Alpha(m)))
    ensures Eval(w, Alpha(i)) == Add(Eval(v, Alpha(i + 1)), Times(Alpha(m), Eval(v, Alpha(i))))
    decreases |v|
  {
    hide Add, Times, Alpha, Pow;
    if v == [] {
      TimesZero(Alpha(m));
      AddLaws(0, 0, 0);
    } else {
      forall k | 0 <= k < |v| - 1 ensures w[1..][k] == Times(v[1..][k], Add(Locator(v[1..], k), Alpha(m))) {
        assert w[k + 1] == Times(v[k + 1], Add(Locator(v, k + 1), Alpha(m)));
      }
      TwistSyndrome(v[1..], w[1..], m, i);
      var l := |v| - 1;
      TwistTerm(v[0], l, m, i);
      var a, b := Times(v[0], Pow(Alpha(i + 1), l)), Times(v[0], Pow(Alpha(i), l));
      var e, f := Eval(v[1..], Alpha(i + 1)), Eval(v[1..], Alpha(i));
      TimesDistributes(b, f, Alpha(m));
      AddSwap(a, Times(Alpha(m), b), e, Times(Alpha(m), f));
    }
  }

  lemma {:induction false} WeightZero(v: Poly)
    ensures Weight(v) == 0 <==> v == Blank(|v|)
  {
    if v != [] {
      WeightZero(v[1..]);
      assert Blank(|v|) == [0] + Blank(|v| - 1);
      assert v == [v[0]] + v[1..];
    }
  }

  lemma {:induction false} Support(v: Poly) returns (j: nat)
    requires Weight(v) > 0
    ensures j < |v| && v[j] != 0
  {
    if v[0] != 0 {
      j := 0;
    } else {
      var k := Support(v[1..]);
      j := k + 1;
    }
  }

  /** MAIN RESULT: a word of at most 255 symbols whose first n syndromes vanish has no nonzero
      symbol, or more than n of them. So changing up to n symbols of a code word never goes
      unnoticed. */
  lemma {:induction false} SyndromesDetect(v: Poly, n: nat)
    requires |v| <= 255 && Weight(v) <= n
    requires forall i: nat :: i < n ==> Eval(v, Alpha(i)) == 0
    ensures v == Blank(|v|)
    decreases n
  {
    hide Add, Times, Alpha, Pow, Eval;
    WeightZero(v);
    if Weight(v) > 0 {
      var j := Support(v);
      var m := |v| - 1 - j;
      var w := Twist(v, j);
      TwistDropsOne(v, j);
      forall i: nat | i < n - 1 ensures Eval(w, Alpha(i)) == 0 {
        TwistSyndrome(v, w, m, i);
        assert Eval(v, Alpha(i)) == 0 && Eval(v, Alpha(i + 1)) == 0;
        TimesZero(Alpha(m));
        AddLaws(0, 0, 0);
      }
      SyndromesDetect(w, n - 1);
      WeightZero(w);
      // One nonzero symbol is left, but the first syndrome of such a word is not zero.
      assert Eval(v, Alpha(0)) == 0;
      SingleSymbol(v, j);
    }
  }

  lemma {:induction false} SingleSymbol(v: Poly, j: nat)
    requires j < |v| && v[j] != 0 && Weight(v) == 1
    ensures Eval(v, Alpha(0)) != 0
  {
    hide Add, Times, Pow;
    var m := Pow(Alpha(0), |v| - 1);
    PowOfAlpha(0, |v| - 1);
    TimesOne(v[0]);
    TimesCommutes(v[0], 1);
    if j == 0 {
      WeightZero(v[1..]);
      EvalBlank(|v| - 1, Alpha(0));
      AddLaws(v[0], 0, 0);
    } else if v[0] == 0 {
      SingleSymbol(v[1..], j - 1);
      AddLaws(0, Eval(v[1..], Alpha(0)), 0);
      AddLaws(Eval(v[1..], Alpha(0)), 0, 0);
    } else {
      WeightZero(v[1..]);
    }
  }

  /** Changing between 1 and n symbols of a code word leaves a nonzero syndrome. */
  lemma CorruptionDetected(data: Poly, n: nat, errors: Poly)
    requires |errors| == |data| + n <= 255
    requires 0 < Weight(errors) <= n
    ensures exists i: nat :: i < n && Eval(AddVec(Codeword(data, n), errors), Alpha(i)) != 0
  {
    hide Add, Times, Alpha, Eval;
    if forall i: nat :: i < n ==> Eval(AddVec(Codeword(data, n), errors), Alpha(i)) == 0 {
      forall i: nat | i < n ensures Eval(errors, Alpha(i)) == 0 {
        EvalAdds(Codeword(data, n), errors, Alpha(i));
        SyndromesVanish(data, n, i);
        AddLaws(0, Eval(errors, Alpha(i)), 0);
        AddLaws(Eval(errors, Alpha(i)), 0, 0);
      }
      SyndromesDetect(errors, n);
      WeightZero(errors);
    }
  }

  // ---- The encoder ----------------------------------------------------------------------------

  /** qrPolynomial's constructor: leading zeros are dropped. */
  function Strip(num: Poly): (p: Poly)
    ensures p != [] ==> p[0] != 0
  {
    if num != [] && num[0] == 0 then Strip(num[1..]) else num
  }

  predicate HasZero(p: Poly) {
    exists i :: 0 <= i < |p| && p[i] == 0
  }

  /** Drops the leading zeros and appends `shift` zeros. */
  method QrPolynomial(num: Poly, shift: nat) returns (p: Poly)
    ensures p == Strip(num) + Blank(shift)
  {
    var offset := 0;
    while offset < |num| && num[offset] == 0
      invariant 0 <= offset <= |num|
      invariant Strip(num[offset..]) == Strip(num)
    {
      assert num[offset..][1..] == num[offset + 1..];
      offset := offset + 1;
    }
    p := num[offset..] + seq(shift, _ => 0);
  }

  lemma {:induction false} ProductSnoc(a: Poly, c: Elem, e: Poly)
    requires e != []
    ensures Product(a + [c], e) == AddAt(Product(a, e) + [0], |a|, Scale(c, e))
  {
    hide Add, Times, AddAt, Scale, Blank;
    if a == [] {
      assert a + [c] == [c] && [c][1..] == [];
      assert [0] + Product([], e) == Product([], e) + [0];
    } else {
      ProductSnoc(a[1..], c, e);
      assert (a + [c])[1..] == a[1..] + [c];
      var rest, p, q := Product(a[1..], e), Scale(a[0], e), Scale(c, e);
      AddAtCommutes([0] + rest, p, q, |a|);
      AddAtPrepend(rest + [0], |a| - 1, q);
      AddAtAppend([0] + rest, p);
      assert [0] + (rest + [0]) == ([0] + rest) + [0];
    }
  }

  lemma AddAtPrepend(v: Poly, k: nat, q: Poly)
    requires k + |q| <= |v|
    ensures [0] + AddAt(v, k, q) == AddAt([0] + v, k + 1, q)
  {}

  lemma AddAtAppend(v: Poly, p: Poly)
    requires |p| <= |v|
    ensures AddAt(v, 0, p) + [0] == AddAt(v + [0], 0, p)
  {}

  lemma AddAtCommutes(v: Poly, p: Poly, q: Poly, k: nat)
    requires |p| == |q| && k + |q| == |v| + 1
    ensures AddAt(AddAt(v + [0], k, q), 0, p) == AddAt(AddAt(v + [0], 0, p), k, q)
  {
    hide Add;
    var w := v + [0];
    forall i | 0 <= i < |w|
      ensures AddAt(AddAt(w, k, q), 0, p)[i] == AddAt(AddAt(w, 0, p), k, q)[i]
    {
      if k <= i < |p| {
        AddLaws(w[i], q[i - k], p[i]);
        AddLaws(w[i], p[i], q[i - k]);
        AddLaws(q[i - k], p[i], 0);
      }
    }
  }

  // ---- The encoder's methods ------------------------------------------------------------------

  /** The product by table look-ups. None is the exception glog throws on a zero coefficient. */
  method Multiply(math: QrMath, a: Poly, e: Poly) returns (r: Option<Poly>)
    requires math.Valid() && a != [] && e != []
    ensures r.None? <==> HasZero(a) || HasZero(e)
    ensures r.Some? ==> r.value == Product(a, e)
  {
    var num: Poly := seq(|a| + |e| - 1, _ => 0);
    assert a[..0] == [] && num == Product([], e) + Blank(|a|);
    var i := 0;
    while i < |a|
      invariant 0 <= i <= |a|
      invariant num == Product(a[..i], e) + Blank(|a| - i)
      invariant !HasZero(a[..i]) && (i > 0 ==> !HasZero(e))
    {
      ghost var before := num;
      var row := MultiplyRow(math, num, i, a[i], e);
      if row.None? {
        ZeroAt(a, i);
        return None;
      }
      num := row.value;
      NoZeroSnoc(a, i);
      RowAdds(a, i, e, before);
      i := i + 1;
    }
    assert a[..|a|] == a && num == Product(a, e);
    var p := QrPolynomial(num, 0);
    ProductHead(a, e);
    NoZeroHead(a);
    NoZeroHead(e);
    NoZeroDivisors(a[0], e[0]);
    assert num + Blank(0) == num;
    return Some(p);
  }

  lemma ZeroAt(a: Poly, i: nat)
    requires i < |a|
    ensures a[i] == 0 ==> HasZero(a)
  {}

  lemma NoZeroHead(a: Poly)
    requires a != [] && !HasZero(a)
    ensures a[0] != 0
  {}

  lemma NoZeroSnoc(a: Poly, i: nat)
    requires i < |a| && a[i] != 0 && !HasZero(a[..i])
    ensures !HasZero(a[..i + 1])
  {
    assert a[..i + 1] == a[..i] + [a[i]];
  }

  /** One coefficient of the first factor times the second, added in at its place. */
  lemma RowAdds(a: Poly, i: nat, e: Poly, num: Poly)
    requires i < |a| && e != [] && num == Product(a[..i], e) + Blank(|a| - i)
    ensures AddAt(num, i, Scale(a[i], e)) == Product(a[..i + 1], e) + Blank(|a| - i - 1)
  {
    hide Add, Times, Product;
    ProductSnoc(a[..i], a[i], e);
    assert a[..i + 1] == a[..i] + [a[i]];
    assert num == (Product(a[..i], e) + [0]) + Blank(|a| - i - 1);
    AddAtFront(Product(a[..i], e) + [0], i, Scale(a[i], e), Blank(|a| - i - 1));
  }

  lemma AddAtFront(v: Poly, k: nat, q: Poly, tail: Poly)
    requires k + |q| <= |v|
    ensures AddAt(v + tail, k, q) == AddAt(v, k, q) + tail
  {}

  method MultiplyRow(math: QrMath, num: Poly, i: nat, c: Elem, e: Poly) returns (r: Option<Poly>)
    requires math.Valid() && i + |e| <= |num| && e != []
    ensures r.None? <==> c == 0 || HasZero(e)
    ensures r.Some? ==> r.value == AddAt(num, i, Scale(c, e))
  {
    hide Add, Times, Alpha;
    var row := num;
    var j := 0;
    while j < |e|
      invariant 0 <= j <= |e| && |row| == |num|
      invariant j > 0 ==> c != 0
      invariant forall k :: 0 <= k < j ==> e[k] != 0
      invariant forall k :: 0 <= k < |num| ==>
                  row[k] == if i <= k < i + j then Add(num[k], Times(c, e[k - i])) else num[k]
    {
      var l := math.Glog(c);
      var m := math.Glog(e[j]);
      if l.None? || m.None? {
        assert c == 0 || e[j] == 0;
        return None;
      }
      var x := math.Gexp(l.value + m.value);
      TableProduct(c, e[j], l.value, m.value);
      row := row[i + j := Add(row[i + j], x)];
      j := j + 1;
    }
    assert row == AddAt(num, i, Scale(c, e));
    return Some(row);
  }

  /** The remainder in |g| - 1 symbols; shorter polynomials are padded with leading zeros. */
  ghost function PaddedRemainder(v: Poly, g: Poly): (r: Poly)
    requires g != [] && g[0] != 0
    ensures |r| == |g| - 1
  {
    if |v| < |g| - 1 then Blank(|g| - 1 - |v|) + v else Remainder(v, g)
  }

  lemma LeadingZeroReduces(v: Poly, g: Poly)
    requires g != [] && g[0] != 0 && |v| + 1 >= |g|
    ensures Reduce([0] + v, g) == v
  {
    hide Add, Times;
    TimesZero(Alpha(255 - Log(g[0])));
    assert Over(0, g[0]) == 0;
    var p := Scale(0, g);
    forall i | 0 <= i < |g| ensures p[i] == 0 { TimesZero(g[i]); }
    var w := [0] + v;
    forall i | 0 <= i < |w| ensures AddAt(w, 0, p)[i] == w[i] { AddLaws(w[i], 0, 0); }
    assert AddAt(w, 0, p) == w;
  }

  lemma PaddedLeadingZero(v: Poly, g: Poly)
    requires g != [] && g[0] != 0
    ensures PaddedRemainder([0] + v, g) == PaddedRemainder(v, g)
  {
    hide Reduce;
    if |v| + 1 >= |g| {
      LeadingZeroReduces(v, g);
    } else if |v| + 1 == |g| - 1 {
      assert Blank(1) + v == [0] + v;
    } else {
      assert Blank(|g| - 1 - (|v| + 1)) + ([0] + v) == Blank(|g| - 1 - |v|) + v;
    }
  }

  lemma {:induction false} PaddedStrip(v: Poly, tail: Poly, g: Poly)
    requires g != [] && g[0] != 0
    ensures PaddedRemainder(Strip(v) + tail, g) == PaddedRemainder(v + tail, g)
  {
    hide PaddedRemainder;
    if v != [] && v[0] == 0 {
      PaddedStrip(v[1..], tail, g);
      PaddedLeadingZero(v[1..] + tail, g);
      assert [0] + (v[1..] + tail) == v + tail;
    }
  }

  /** The table look-ups of mod multiply by the quotient of the leading coefficients. */
  lemma RatioProduct(p: Elem, e: Elem, c: Elem, lp: nat, le: nat, lc: nat, x: int)
    requires Alpha(lp) == p && Alpha(le) == e && Alpha(lc) == c && le < 255 && e != 0
    requires x == lc + (lp - le)
    ensures Times(Over(p, e), c) == Alpha(x % 255)
  {
    hide Alpha, Times;
    var k := lp + (255 - le);
    assert Over(p, e) == Alpha(k) by {
      LogUnique(e, le);
      TimesAlpha(lp, 255 - le);
    }
    assert Times(Over(p, e), c) == Alpha(k + lc) by { TimesAlpha(k, lc); }
    AlphaTurn(k + lc, x);
  }

  lemma AlphaTurn(n: nat, x: int)
    requires n == x + 255
    ensures Alpha(n) == Alpha(x % 255)
  {
    hide Alpha;
    AlphaMod(n);
    assert n % 255 == x % 255;
  }

  lemma LogUnique(e: Elem, le: nat)
    requires e != 0 && le < 255 && Alpha(le) == e
    ensures Log(e) == le
  {
    hide Alpha;
    if le < Log(e) { AlphaInjective(le, Log(e)); }
    if Log(e) < le { AlphaInjective(Log(e), le); }
  }

  /** The recursive remainder. None is the exception glog throws on a zero coefficient of `e`. */
  method Mod(math: QrMath, p: Poly, e: Poly) returns (r: Option<Poly>)
    requires math.Valid() && e != []
    requires |p| >= |e| ==> p[0] != 0
    ensures r.None? <==> |p| >= |e| && HasZero(e)
    ensures r.Some? ==> |r.value| < |e|
    ensures r.Some? && e[0] != 0 ==> Blank(|e| - 1 - |r.value|) + r.value == PaddedRemainder(p, e)
    decreases |p|
  {
    hide Add, Times, Alpha;
    if |p| < |e| {
      if e[0] != 0 { assert |p| == |e| - 1 ==> Blank(0) + p == p; }
      return Some(p);
    }
    var lp := math.Glog(p[0]);
    var le := math.Glog(e[0]);
    if lp.None? || le.None? {
      ZeroAt(e, 0);
      return None;
    }
    var row := SubtractRow(math, p, e, lp.value, le.value);
    if row.None? {
      return None;
    }
    LeadCancels(p, e);
    var rest := Reduce(p, e);
    var q := QrPolynomial(row.value, 0);
    assert q == Strip(row.value) by { assert Strip(row.value) + Blank(0) == Strip(row.value); }
    StripDrops(row.value);
    r := Mod(math, q, e);
    PaddedStrip(row.value, [], e);
    assert Strip(row.value) + [] == q && row.value + [] == row.value;
    PaddedLeadingZero(rest, e);
  }

  lemma {:induction false} StripShortens(v: Poly)
    ensures |Strip(v)| <= |v|
  {
    if v != [] { StripShortens(v[1..]); }
  }

  lemma StripDrops(v: Poly)
    requires v != [] && v[0] == 0
    ensures |Strip(v)| < |v|
  {
    StripShortens(v[1..]);
  }

  method SubtractRow(math: QrMath, p: Poly, e: Poly, lp: nat, le: nat) returns (r: Option<Poly>)
    requires math.Valid() && e != [] && |p| >= |e| && e[0] != 0
    requires Alpha(lp) == p[0] && Alpha(le) == e[0] && le < 255
    ensures r.None? <==> HasZero(e)
    ensures r.Some? ==> r.value == AddAt(p, 0, Scale(Over(p[0], e[0]), e))
  {
    hide Add, Times, Alpha, Over;
    var ratio: int := lp - le;
    var num := p;
    ghost var c := Over(p[0], e[0]);
    var i := 0;
    while i < |e|
      invariant 0 <= i <= |e| && |num| == |p|
      invariant forall k :: 0 <= k < i ==> e[k] != 0
      invariant forall k :: 0 <= k < |p| ==> num[k] == if k < i then Add(p[k], Times(c, e[k])) else p[k]
    {
      var li := math.Glog(e[i]);
      if li.None? {
        ZeroAt(e, i);
        return None;
      }
      var x := math.Gexp(li.value + ratio);
      RatioProduct(p[0], e[0], e[i], lp, le, li.value, li.value + ratio);
      num := num[i := Add(num[i], x)];
      i := i + 1;
    }
    assert num == AddAt(p, 0, Scale(c, e));
    return Some(num);
  }

  lemma {:induction false} WeightBound(v: Poly)
    ensures Weight(v) <= |v| && (HasZero(v) ==> Weight(v) < |v|)
  {
    if v != [] {
      WeightBound(v[1..]);
      if HasZero(v) && v[0] != 0 {
        var i :| 0 <= i < |v| && v[i] == 0;
        assert v[1..][i - 1] == 0;
      }
    }
  }

  /** MAIN RESULT: up to degree 254 no coefficient of a generator is zero: with one it would be a
      word of at most n nonzero symbols with n vanishing syndromes. */
  lemma GeneratorHasNoZero(n: nat)
    requires n <= 254
    ensures !HasZero(Generator(n))
  {
    hide Generator, Eval, Alpha;
    var g := Generator(n);
    if HasZero(g) {
      WeightBound(g);
      GeneratorIsMonic(n);
      forall i: nat | i < n ensures Eval(g, Alpha(i)) == 0 { GeneratorRoot(n, i); }
      SyndromesDetect(g, n);
    }
  }

  /** x^255 + 1, which all 255 powers of alpha are roots of. */
  function AllRoots(): (p: Poly)
    ensures |p| == 256
  {
    [1] + Blank(254) + [1]
  }

  lemma AllRootsVanish(i: nat)
    ensures Eval(AllRoots(), Alpha(i)) == 0
  {
    hide Add, Times, Alpha, Pow, Blank, Eval;
    var x, p := Alpha(i), AllRoots();
    var head := [1] + Blank(255);
    forall k | 0 <= k < 256 ensures AddVec(head, Blank(255) + [1])[k] == p[k] {
      AddLaws(head[k], 0, 0);
      AddLaws(1, 0, 0);
    }
    assert AddVec(head, Blank(255) + [1]) == p;
    EvalAdds(head, Blank(255) + [1], x);
    EvalShifts([1], 255, x);
    EvalOne(x);
    EvalPadded(255, x);
    PowOfAlpha(i, 255);
    AlphaTurns(i);
    TimesOne(1);
    AddLaws(1, 1, 0);
  }

  lemma EvalOne(x: Elem)
    ensures Eval([1], x) == 1
  {
    hide Add;
    assert [1][1..] == [] && Pow(x, 0) == 1 && Eval([], x) == 0;
    TimesOne(1);
    AddLaws(1, 0, 0);
  }

  lemma {:induction false} EvalPadded(n: nat, x: Elem)
    ensures Eval(Blank(n) + [1], x) == 1
  {
    hide Add, Times, Pow;
    if n == 0 {
      EvalOne(x);
      assert Blank(0) + [1] == [1];
    } else {
      EvalPadded(n - 1, x);
      EvalLeadingZero(Blank(n - 1) + [1], x);
      assert Blank(n) + [1] == [0] + (Blank(n - 1) + [1]);
    }
  }

  lemma AlphaTurns(i: nat)
    ensures Alpha(i * 255) == 1
  {
    hide Alpha;
    AlphaMod(i * 255);
    assert i * 255 % 255 == 0;
    assert Alpha(0) == 1 by { AlphaZero(); }
  }

  lemma AlphaZero()
    ensures Alpha(0) == 1
  {}

  /** The generator of degree 255 is x^255 + 1, so 254 is the largest degree without a zero. */
  lemma FullGenerator()
    ensures Generator(255) == AllRoots() && HasZero(Generator(255))
  {
    hide Add, Generator, Eval, Alpha, Blank;
    var g, p := Generator(255), AllRoots();
    var d := AddVec(g, p);
    GeneratorIsMonic(255);
    AddLaws(1, 1, 0);
    forall i: nat | i < 255 ensures Eval(d[1..], Alpha(i)) == 0 {
      GeneratorRoot(255, i);
      AllRootsVanish(i);
      EvalAdds(g, p, Alpha(i));
      AddLaws(0, 0, 0);
      EvalLeadingZero(d[1..], Alpha(i));
      assert [0] + d[1..] == d;
    }
    WeightBound(d[1..]);
    SyndromesDetect(d[1..], 255);
    forall k | 0 <= k < 256 ensures g[k] == p[k] {
      assert k > 0 ==> d[1..][k - 1] == Blank(255)[k - 1];
      EqualWhenSumIsZero(g[k], p[k]);
    }
    assert g[1] == 0;
  }

  lemma EqualWhenSumIsZero(a: Elem, b: Elem)
    ensures Add(a, b) == 0 ==> a == b
  {
    hide Add;
    AddLaws(a, a, b);
    AddLaws(b, 0, 0);
    AddLaws(a, b, 0);
    AddLaws(a, 0, 0);
  }

  /** A generator of lower degree has a zero coefficient exactly past the order of alpha. */
  lemma LowerGenerators(n: nat)
    ensures (exists k :: 0 <= k < n && HasZero(Generator(k))) <==> n > 255
  {
    hide Generator, HasZero;
    if n > 255 {
      FullGenerator();
    } else {
      forall k | 0 <= k < n ensures !HasZero(Generator(k)) { GeneratorHasNoZero(k); }
    }
  }

  /** The generator, or None, glog's exception, exactly for a length past 255. */
  method ErrorCorrectPolynomial(math: QrMath, n: nat) returns (r: Option<Poly>)
    requires math.Valid()
    ensures r.None? <==> n > 255
    ensures r.Some? ==> r.value == Generator(n)
  {
    hide Add, Times, Alpha, Product, HasZero;
    LowerGenerators(n);
    var a: Poly := [1];
    var i := 0;
    while i < n
      invariant 0 <= i <= n
      invariant a == Generator(i) && forall k :: 0 <= k < i ==> !HasZero(Generator(k))
    {
      var x := math.Gexp(i);
      AlphaMod(i);
      AlphaNonzero(i);
      var f: Poly := [1, x];
      NoZeroPair(x);
      var product := Multiply(math, a, f);
      if product.None? {
        assert HasZero(Generator(i));
        return None;
      }
      a := product.value;
      i := i + 1;
    }
    return Some(a);
  }

  lemma NoZeroPair(x: Elem)
    requires x != 0
    ensures !HasZero([1, x])
  {}

  /** The error correction symbols of one block; None, glog's exception, only from length 255 on. */
  method ErrorCorrection(math: QrMath, data: Poly, n: nat) returns (r: Option<Poly>)
    requires math.Valid()
    ensures r.None? <==> n > 255 || (n == 255 && Strip(data) != [])
    ensures r.Some? ==> data + r.value == Codeword(data, n)
  {
    hide Add, Times, Alpha, Product, Generator, Remainder, HasZero;
    var rs := ErrorCorrectPolynomial(math, n);
    if rs.None? {
      return None;
    }
    var rsPoly := rs.value;
    GeneratorIsMonic(n);
    if n < 255 { GeneratorHasNoZero(n); } else { FullGenerator(); }
    var rawPoly := QrPolynomial(data, |rsPoly| - 1);
    var m := Mod(math, rawPoly, rsPoly);
    if m.None? {
      return None;
    }
    var modPoly := m.value;
    var ec: Poly := seq(n, _ => 0);
    var i := 0;
    while i < n
      invariant 0 <= i <= n && |ec| == n
      invariant forall k :: 0 <= k < i ==> ec[k] == (Blank(n - |modPoly|) + modPoly)[k]
    {
      var modIndex := i + |modPoly| - n;
      ec := ec[i := if modIndex >= 0 then modPoly[modIndex] else 0];
      i := i + 1;
    }
    assert ec == Blank(n - |modPoly|) + modPoly;
    PaddedStrip(data, Blank(n), rsPoly);
    return Some(ec);
  }
}
