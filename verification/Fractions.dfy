// Fractions of polynomials that are quotients of products of distinct linear
// factors: what the root finder looks for.
module Fractions {
  import opened Modular
  import opened PrimeField
  import opened Polynomials
  import opened Interpolation
  import opened CPIReconciliation
  import opened SquareFreeness
  import opened LowCoefficients
  import opened NumberLibrary
  import opened CPISyncs
  import opened Lists

  // Two lists of different numbers with nothing in common.
  ghost predicate Separate(xs: seq<nat>, ys: seq<nat>) {
    NoRepeats(xs) && NoRepeats(ys) && ToSet(xs) !! ToSet(ys)
  }

  // P over Q is the product of x - r over the first list over that of the second.
  ghost predicate Fraction(p: nat, P: Poly, Q: Poly, num: seq<nat>, den: seq<nat>)
    requires 0 < p
  {
    && Separate(num, den) && (forall i :: 0 <= i < |num| ==> num[i] < p) && (forall i :: 0 <= i < |den| ==> den[i] < p)
    && |P| + |den| == |Q| + |num|
    && forall x: int :: Zero(p, Cross(Eval(P, x), ListProduct(den, x), Eval(Q, x), ListProduct(num, x)))
  }

  lemma {:induction false} ListTake(rs: seq<nat>, i: nat, x: int)
    requires i < |rs|
    ensures ListProduct(rs, x) == (x - rs[i]) * ListProduct(rs[..i] + rs[i + 1..], x)
  {
    var rest := rs[..i] + rs[i + 1..];
    if i == 0 {
      assert rest == rs[1..];
    } else {
      ListTake(rs[1..], i - 1, x);
      var tail := rs[1..][..i - 1] + rs[1..][i..];
      assert rest[0] == rs[0] && rest[1..] == tail;
      Regroup(x - rs[0], x - rs[i], ListProduct(tail, x));
    }
  }

  function ListPoly(rs: seq<nat>): (f: Poly)
    ensures |f| == |rs| + 1
  {
    if rs == [] then [1] else Mul(Linear(rs[0]), ListPoly(rs[1..]))
  }

  lemma {:induction false} ListPolyEval(rs: seq<nat>, x: int)
    ensures Monic(ListPoly(rs)) && Eval(ListPoly(rs), x) == ListProduct(rs, x)
  {
    hide Mul, Eval;
    if rs == [] {
      ConstantOne(x);
    } else {
      ListPolyEval(rs[1..], x);
      MulEval(Linear(rs[0]), ListPoly(rs[1..]), x);
      MulTop(Linear(rs[0]), ListPoly(rs[1..]));
      LinearEval(rs[0], x);
    }
  }

  // A number that is listed twice is a root of the polynomial's derivative too.
  lemma RepeatedCommon(p: nat, f: Poly, rs: seq<nat>, i: nat, j: nat)
    requires IsPrime(p) && 0 < p && Monic(f) && |f| == |rs| + 1 <= p && i < j < |rs| && rs[i] == rs[j] < p
    requires forall k :: 0 <= k < |rs| ==> rs[k] < p
    requires forall x: int :: Equal(p, Eval(f, x), ListProduct(rs, x))
    ensures IsExactCommon(p, f, Linear(rs[i]))
  {
    hide *;
    var r := rs[i];
    var rest := rs[..i] + rs[i + 1..];
    RestParts(p, rs, i, j);
    ListRoots(p, rs, r);
    EqualZero(p, Eval(f, r), ListProduct(rs, r));
    RootFactor(p, f, r);
    QuotientIsRest(p, f, rs, i);
    ListRoots(p, rest, r);
    EqualZero(p, Eval(Quotient(f, r), r), ListProduct(rest, r));
    DerivativeAt(f, r);
    LinearCommon(p, f, r);
  }

  lemma RestParts(p: nat, rs: seq<nat>, i: nat, j: nat)
    requires i < j < |rs| && rs[i] == rs[j] && forall k :: 0 <= k < |rs| ==> rs[k] < p
    ensures var rest := rs[..i] + rs[i + 1..];
      |rest| == |rs| - 1 && rs[i] in rest && rs[i] in rs && forall k :: 0 <= k < |rest| ==> rest[k] < p
  {
    var rest := rs[..i] + rs[i + 1..];
    assert rest[j - 1] == rs[j];
  }

  lemma QuotientIsRest(p: nat, f: Poly, rs: seq<nat>, i: nat)
    requires IsPrime(p) && 0 < p && |f| == |rs| + 1 <= p && i < |rs| && Zero(p, Eval(f, rs[i]))
    requires forall x: int :: Equal(p, Eval(f, x), ListProduct(rs, x))
    ensures forall x: int :: Equal(p, Eval(Quotient(f, rs[i]), x), ListProduct(rs[..i] + rs[i + 1..], x))
  {
    hide *;
    var (r, q) := (rs[i], Quotient(f, rs[i]));
    var g := ListPoly(rs[..i] + rs[i + 1..]);
    var e := Sub(q, g);
    LinearMonic(r);
    DifferenceLength(q, g, |rs|);
    RootDivides(p, f, r);
    forall x: int ensures Zero(p, Prod(Eval(Linear(r), x), Eval(e, x))) {
      LinearEval(r, x);
      SubEval(q, g, x);
      ListPolyEval(rs[..i] + rs[i + 1..], x);
      ListTake(rs, i, x);
      SameCofactor(p, Eval(f, x), ListProduct(rs, x), x - r, Eval(q, x), ListProduct(rs[..i] + rs[i + 1..], x));
    }
    MonicCancel(p, Linear(r), e);
    forall x: int ensures Equal(p, Eval(q, x), ListProduct(rs[..i] + rs[i + 1..], x)) {
      AllZeroEval(p, e, x);
      SubEval(q, g, x);
      ListPolyEval(rs[..i] + rs[i + 1..], x);
      EqualDifference(p, Eval(q, x), ListProduct(rs[..i] + rs[i + 1..], x));
    }
  }

  lemma DifferenceLength(q: Poly, g: Poly, n: nat)
    requires |q| == |g| == n
    ensures |Sub(q, g)| == n
  {
  }

  // A common root of a polynomial and its derivative is a common divisor.
  lemma LinearCommon(p: nat, f: Poly, r: int)
    requires IsPrime(p) && 0 < p && Monic(f) && 2 <= |f| && Zero(p, Eval(f, r)) && Zero(p, Eval(Derivative(f), r))
    ensures IsExactCommon(p, f, Linear(r))
  {
    var d := Derivative(f);
    DerivativeLength(f);
    RootIsFactor(p, f, r);
    RootDivides(p, d, r);
    hide Derivative, Eval, Quotient, Factored, IsPrime, Zero, Prod;
    forall x: int ensures Equal(p, Eval(d, x), Prod(Eval(Linear(r), x), Eval(Quotient(d, r), x))) {
      LinearEval(r, x);
    }
    assert CommonWithDerivative(p, f, Linear(r), Quotient(f, r), Quotient(d, r));
  }

  // The root of each factor, for factors of degree one.
  function RootsOf(p: nat, factors: seq<Poly>): (rs: seq<nat>)
    requires 0 < p
    ensures |rs| == |factors|
  {
    seq(|factors|, i requires 0 <= i < |factors| => (-Coefficient(factors[i], 0)) % p)
  }

  // Linear factors multiply to the product over their roots.
  lemma {:induction false} LinearProduct(p: nat, f: Poly, factors: seq<Poly>)
    requires IsPrime(p) && 0 < p && SplitInto(p, f, factors) && forall i :: 0 <= i < |factors| ==> |factors[i]| <= 2
    ensures |f| == |factors| + 1
    ensures forall x: int :: Equal(p, Eval(f, x), ListProduct(RootsOf(p, factors), x))
    decreases |factors|
  {
    if factors == [] {
      ZeroMultiple(p, 0);
      hide Eval;
      forall x: int ensures Equal(p, Eval(f, x), ListProduct(RootsOf(p, factors), x)) {
        ConstantOne(x);
      }
    } else {
      var rest :| Factored(p, f, factors[0], rest) && SplitInto(p, rest, factors[1..]);
      assert Monic(factors[0]) && |factors[0]| == 2;
      LinearProduct(p, rest, factors[1..]);
      LinearValue(p, factors[0]);
      var rs := RootsOf(p, factors);
      assert rs[1..] == RootsOf(p, factors[1..]);
      hide Eval, SplitInto, IsPrime, Zero, Prod;
      forall x: int ensures Equal(p, Eval(f, x), ListProduct(rs, x)) {
        ProductReplaced(p, Eval(f, x), Eval(factors[0], x), Eval(rest, x), x - rs[0], ListProduct(rs[1..], x));
      }
    }
  }

  lemma LinearValue(p: nat, g: Poly)
    requires 0 < p && |g| == 2 && g[1] == 1
    ensures forall x: int :: Equal(p, Eval(g, x), x - (-Coefficient(g, 0)) % p)
  {
    var r := (-g[0]) % p;
    EqualRemainders(p, r, -g[0]);
    ModSmall(r, p);
    forall x: int ensures Equal(p, Eval(g, x), x - r) {
      assert g == [g[0], 1] && g[1..] == [1] && g[1..][1..] == [];
      assert Eval(g[1..], x) == 1;
      assert Eval(g, x) - (x - r) == r + g[0];
    }
  }

  lemma ProductReplaced(p: nat, u: int, g: int, q: int, d: int, l: int)
    requires 0 < p && Equal(p, u, Prod(g, q)) && Equal(p, g, d) && Equal(p, q, l)
    ensures Equal(p, u, d * l)
  {
    ZeroProduct(p, g - d, q);
    Distribute(g, d, q);
    ZeroProduct(p, q - l, d);
    Factor(d, q, l);
    var (gq, dq, dl) := (g * q, d * q, d * l);
    hide Zero;
    ReplacedTwice(p, u, gq, dq, dl);
  }

  lemma ReplacedTwice(p: nat, u: int, gq: int, dq: int, dl: int)
    requires 0 < p && Equal(p, u, gq) && Zero(p, gq - dq) && Zero(p, dq - dl)
    ensures Equal(p, u, dl)
  {
    hide Zero;
    ZeroSum(p, u - gq, gq - dq);
    ZeroSum(p, u - dq, dq - dl);
  }

  // Without a longer common divisor with the derivative, the roots are distinct.
  lemma RootsDistinct(p: nat, f: Poly, rs: seq<nat>)
    requires IsPrime(p) && 0 < p && Monic(f) && |f| == |rs| + 1 <= p && IsGreatestCommon(p, f, [1])
    requires forall k :: 0 <= k < |rs| ==> rs[k] < p
    requires forall x: int :: Equal(p, Eval(f, x), ListProduct(rs, x))
    ensures NoRepeats(rs)
  {
    hide Eval, ListProduct, IsPrime, Zero, IsExactCommon, IsCommon;
    forall i, j | 0 <= i < j < |rs| ensures rs[i] != rs[j] {
      if rs[i] == rs[j] {
        assert |Linear(rs[i])| == 2;
        RepeatedCommon(p, f, rs, i, j);
        assert false;
      }
    }
  }

  // Quotients in lowest terms with distinct roots give the fraction.
  lemma LowestIsFraction(p: nat, P: Poly, Q: Poly, G: Poly, P': Poly, Q': Poly, num: seq<nat>, den: seq<nat>)
    requires IsPrime(p) && 0 < p && GreatestDivisor(p, P, Q, G, P', Q') && NoRepeats(num) && NoRepeats(den)
    requires |P'| == |num| + 1 && |Q'| == |den| + 1
    requires (forall k :: 0 <= k < |num| ==> num[k] < p) && (forall k :: 0 <= k < |den| ==> den[k] < p)
    requires forall x: int :: Equal(p, Eval(P', x), ListProduct(num, x)) && Equal(p, Eval(Q', x), ListProduct(den, x))
    ensures Fraction(p, P, Q, num, den)
  {
    hide *;
    DivisorParts(p, P, Q, G, P', Q');
    GreatestIsLowest(p, P, Q, G, P', Q');
    Coprime(p, P, Q, G, P', Q', num, den);
    forall x: int ensures Zero(p, Cross(Eval(P, x), ListProduct(den, x), Eval(Q, x), ListProduct(num, x))) {
      DivisorValues(p, P, Q, G, P', Q', x);
      CrossOfProducts(p, Eval(P, x), Eval(Q, x), Eval(G, x), Eval(P', x), Eval(Q', x),
                      ListProduct(num, x), ListProduct(den, x));
    }
    MakesFraction(p, P, Q, num, den);
  }

  lemma Coprime(p: nat, P: Poly, Q: Poly, G: Poly, P': Poly, Q': Poly, num: seq<nat>, den: seq<nat>)
    requires IsPrime(p) && 0 < p && LowestTerms(p, P, Q, G, P', Q') && NoRepeats(num) && NoRepeats(den)
    requires (forall k :: 0 <= k < |num| ==> num[k] < p) && (forall k :: 0 <= k < |den| ==> den[k] < p)
    requires forall x: int :: Equal(p, Eval(P', x), ListProduct(num, x)) && Equal(p, Eval(Q', x), ListProduct(den, x))
    ensures Separate(num, den)
  {
    hide Eval, ListProduct, IsPrime, Zero, Prod;
    forall r: nat | r in num && r in den ensures false {
      var i :| 0 <= i < |num| && num[i] == r;
      ListRoots(p, num, r);
      ListRoots(p, den, r);
      EqualZero(p, Eval(P', r), ListProduct(num, r));
      EqualZero(p, Eval(Q', r), ListProduct(den, r));
    }
  }

  lemma DivisorValues(p: nat, P: Poly, Q: Poly, G: Poly, P': Poly, Q': Poly, x: int)
    requires 0 < p && GreatestDivisor(p, P, Q, G, P', Q')
    ensures Equal(p, Eval(P, x), Prod(Eval(G, x), Eval(P', x))) && Equal(p, Eval(Q, x), Prod(Eval(G, x), Eval(Q', x)))
  {
  }

  lemma MakesFraction(p: nat, P: Poly, Q: Poly, num: seq<nat>, den: seq<nat>)
    requires 0 < p && Separate(num, den) && |P| + |den| == |Q| + |num|
    requires (forall i :: 0 <= i < |num| ==> num[i] < p) && (forall i :: 0 <= i < |den| ==> den[i] < p)
    requires forall x: int :: Zero(p, Cross(Eval(P, x), ListProduct(den, x), Eval(Q, x), ListProduct(num, x)))
    ensures Fraction(p, P, Q, num, den)
  {
  }

  lemma CrossOfProducts(p: nat, u: int, v: int, g: int, u': int, v': int, n: int, d: int)
    requires 0 < p && Equal(p, u, Prod(g, u')) && Equal(p, v, Prod(g, v')) && Equal(p, u', n) && Equal(p, v', d)
    ensures Zero(p, Cross(u, d, v, n))
  {
    ZeroMultiple(p, 0);
    hide Zero;
    ZeroSum(p, u' - n, u' - n);
    ProductReplaced(p, u, g, u', g, n);
    ProductReplaced(p, v, g, v', g, d);
    CrossSame(p, u, v, g, n, d);
  }

  lemma CrossSame(p: nat, u: int, v: int, g: int, n: int, d: int)
    requires 0 < p && Equal(p, u, g * n) && Equal(p, v, g * d)
    ensures Zero(p, Cross(u, d, v, n))
  {
    ZeroProduct(p, u - g * n, d);
    ZeroProduct(p, v - g * d, n);
    Distribute(u, g * n, d);
    Distribute(v, g * d, n);
    Regroup(g, n, d);
    Regroup(g, d, n);
    Commute(n, d);
    var (x, y) := ((u - g * n) * d, (v - g * d) * n);
    assert Cross(u, d, v, n) == x - y;
    hide Zero;
    ZeroSum(p, x, y);
  }

  // A fraction determines the quotients in lowest terms.
  lemma FractionIsLowest(p: nat, P: Poly, Q: Poly, G: Poly, P': Poly, Q': Poly, num: seq<nat>, den: seq<nat>)
    requires IsPrime(p) && 0 < p && Monic(P) && Monic(Q) && GreatestDivisor(p, P, Q, G, P', Q')
    requires Fraction(p, P, Q, num, den) && |P| + |den| <= p
    ensures |P'| == |num| + 1 && |Q'| == |den| + 1
    ensures forall x: int :: Equal(p, Eval(P', x), Chi(ToSet(num), x)) && Equal(p, Eval(Q', x), Chi(ToSet(den), x))
  {
    hide *;
    var (a, b) := (ToSet(den), ToSet(num));
    FractionParts(p, P, Q, num, den);
    DivisorParts(p, P, Q, G, P', Q');
    GreatestMonic(p, P, Q, G, P', Q');
    GreatestCofactor(p, P, Q, G, P', Q', a, b);
    ReducedFraction(p, P, Q, G, P', Q', a, b);
    DividedOut(p, P', Q', a, b);
  }

  lemma FractionParts(p: nat, P: Poly, Q: Poly, num: seq<nat>, den: seq<nat>)
    requires 0 < p && Fraction(p, P, Q, num, den)
    ensures var (a, b) := (ToSet(den), ToSet(num));
      && a !! b && |a| == |den| && |b| == |num| && (forall h :: h in a + b ==> h < p) && |P| + |a| == |Q| + |b|
      && forall x: int :: Zero(p, Cross(Eval(P, x), Chi(a, x), Eval(Q, x), Chi(b, x)))
  {
    hide Eval, Chi, ListProduct, Zero, Cross;
    ListSize(num);
    ListSize(den);
    forall x: int ensures ListProduct(num, x) == Chi(ToSet(num), x) && ListProduct(den, x) == Chi(ToSet(den), x) {
      ListProductChi(num, ToSet(num), x);
      ListProductChi(den, ToSet(den), x);
    }
  }

  lemma {:induction false} ListSize(rs: seq<nat>)
    requires NoRepeats(rs)
    ensures |ToSet(rs)| == |rs|
  {
    if rs != [] {
      var n := |rs| - 1;
      ListSize(rs[..n]);
      assert rs == rs[..n] + [rs[n]];
      assert ToSet(rs) == ToSet(rs[..n]) + {rs[n]};
    }
  }

  lemma ReducedFraction(p: nat, P: Poly, Q: Poly, G: Poly, P': Poly, Q': Poly, a: set<nat>, b: set<nat>)
    requires IsPrime(p) && 0 < p && GreatestDivisor(p, P, Q, G, P', Q') && |P| + |a| == |Q| + |b| <= p
    requires forall x: int :: Zero(p, Cross(Eval(P, x), Chi(a, x), Eval(Q, x), Chi(b, x)))
    ensures forall x: int :: Zero(p, Cross(Eval(P', x), Chi(a, x), Eval(Q', x), Chi(b, x)))
  {
    hide *;
    var (d, e) := (CrossPoly(P, ChiPoly(a), Q, ChiPoly(b)), CrossPoly(P', ChiPoly(a), Q', ChiPoly(b)));
    DivisorParts(p, P, Q, G, P', Q');
    GreatestMonic(p, P, Q, G, P', Q');
    forall x: int ensures Zero(p, Eval(d, x)) {
      CrossEval(P, Q, a, b, x);
    }
    CrossLength(P, a, Q, b);
    CrossLength(P', a, Q', b);
    VanishesEverywhere(p, d);
    forall y: int ensures Zero(p, Prod(Eval(G, y), Eval(e, y))) {
      DivisorValues(p, P, Q, G, P', Q', y);
      ChiPolyEval(a, y);
      ChiPolyEval(b, y);
      ReducedCrossAt(p, ChiPoly(a), ChiPoly(b), P, Q, P', Q', Eval(G, y), y);
    }
    MonicCancel(p, G, e);
    forall x: int ensures Zero(p, Cross(Eval(P', x), Chi(a, x), Eval(Q', x), Chi(b, x))) {
      AllZeroEval(p, e, x);
      CrossEval(P', Q', a, b, x);
    }
  }

  lemma GreatestMonic(p: nat, P: Poly, Q: Poly, G: Poly, P': Poly, Q': Poly)
    requires 0 < p && GreatestDivisor(p, P, Q, G, P', Q')
    ensures Monic(G) && 1 <= |G|
  {
  }
}
