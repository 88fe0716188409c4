// The square-freeness test before factoring: a characteristic polynomial and its
// formal derivative have no common divisor.
module SquareFreeness {
  import opened Modular
  import opened PrimeField
  import opened Polynomials
  import opened Interpolation
  import opened CPIReconciliation

  // The formal derivative: coefficient i times i, one degree lower.
  function Derivative(f: Poly): Poly {
    if f == [] then [] else Weighted(f[1..], 1)
  }

  function Weighted(f: Poly, k: int): Poly {
    if f == [] then [] else [k * f[0]] + Weighted(f[1..], k + 1)
  }

  lemma DerivativeLength(f: Poly)
    requires f != []
    ensures |Derivative(f)| == |f| - 1
  {
    WeightedLength(f[1..], 1);
  }

  lemma {:induction false} WeightedLength(f: Poly, k: int)
    ensures |Weighted(f, k)| == |f|
  {
    if f != [] {
      WeightedLength(f[1..], k + 1);
    }
  }

  lemma {:induction false} WeightedNext(f: Poly, k: int, x: int)
    ensures Eval(Weighted(f, k + 1), x) == Eval(Weighted(f, k), x) + Eval(f, x)
  {
    if f != [] {
      WeightedNext(f[1..], k + 1, x);
      WeightedParts(f, k, x);
      WeightedParts(f, k + 1, x);
      NextStep(k, f[0], x, Eval(Weighted(f[1..], k + 1), x), Eval(f[1..], x));
    }
  }

  lemma WeightedParts(f: Poly, k: int, x: int)
    requires f != []
    ensures Eval(Weighted(f, k), x) == k * f[0] + x * Eval(Weighted(f[1..], k + 1), x)
  {
    assert Weighted(f, k)[1..] == Weighted(f[1..], k + 1);
  }

  lemma NextStep(k: int, a: int, x: int, w: int, e: int)
    ensures (k + 1) * a + x * (w + e) == (k * a + x * w) + (a + x * e)
  {
    Distribute(w, e, x);
    Distribute(k, 1, a);
  }

  // At r the derivative is the quotient by x - r.
  lemma {:induction false} DerivativeAt(f: Poly, r: int)
    ensures Eval(Derivative(f), r) == Eval(Quotient(f, r), r)
  {
    if |f| > 1 {
      var t := f[1..];
      DerivativeParts(f);
      QuotientParts(f, r);
      hide *;
      DerivativeAt(t, r);
      WeightedParts(t, 1, r);
      WeightedNext(t[1..], 1, r);
      Distribute(Eval(Weighted(t[1..], 1), r), Eval(t[1..], r), r);
    }
  }

  lemma DerivativeParts(f: Poly)
    requires |f| > 1
    ensures Derivative(f) == Weighted(f[1..], 1) && Derivative(f[1..]) == Weighted(f[1..][1..], 1)
  {
  }

  lemma QuotientParts(f: Poly, r: int)
    requires |f| > 1
    ensures Eval(Quotient(f, r), r) == Eval(f[1..], r) + r * Eval(Quotient(f[1..], r), r)
    ensures Eval(f[1..], r) == f[1..][0] + r * Eval(f[1..][1..], r)
  {
    assert Quotient(f, r)[1..] == Quotient(f[1..], r);
  }

  lemma {:induction false} Listing(a: set<nat>) returns (xs: seq<int>)
    ensures |xs| == |a| && (forall i :: 0 <= i < |xs| ==> 0 <= xs[i] && xs[i] in a)
    ensures forall i, j :: 0 <= i < j < |xs| ==> xs[i] != xs[j]
    decreases a
  {
    if a == {} {
      xs := [];
    } else {
      var h :| h in a;
      var rest := Listing(a - {h});
      xs := [h as int] + rest;
    }
  }

  // A polynomial that vanishes on more elements than its degree is zero.
  lemma VanishesOn(p: nat, f: Poly, a: set<nat>)
    requires IsPrime(p) && |f| <= |a| && (forall h :: h in a ==> h < p)
    requires forall h :: h in a ==> Zero(p, Eval(f, h))
    ensures AllZero(p, f)
  {
    PrimePositive(p);
    var xs := Listing(a);
    hide IsPrime, Zero, Eval, AllZero;
    forall i, j | 0 <= i < j < |xs| ensures !Equal(p, xs[j], xs[i]) {
      ReducedEqual(p, xs[j], xs[i]);
    }
    ManyRoots(p, f, xs);
  }

  // A divisor of higher degree vanishes at some member.
  lemma DivisorRoot(p: nat, f: Poly, a: set<nat>, D: Poly, A: Poly) returns (r: nat)
    requires IsPrime(p) && 0 < p && |f| == |a| + 1 && Factored(p, f, D, A) && 2 <= |D|
    requires (forall h :: h in a ==> h < p) && forall x: int :: Equal(p, Eval(f, x), Chi(a, x))
    ensures r in a && Zero(p, Eval(D, r))
  {
    if forall h :: h in a ==> !Zero(p, Eval(D, h)) {
      forall h | h in a ensures Zero(p, Eval(A, h)) {
        RootSplits(p, a, h, Eval(f, h), Eval(D, h), Eval(A, h));
      }
      VanishesOn(p, A, a);
      TopOne(p, A);
      assert false;
    }
    r :| r in a && Zero(p, Eval(D, r));
  }

  lemma RootSplits(p: nat, a: set<nat>, h: nat, u: int, d: int, q: int)
    requires IsPrime(p) && 0 < p && h in a && (forall k :: k in a ==> k < p)
    requires Equal(p, u, Chi(a, h)) && Equal(p, u, Prod(d, q))
    ensures Zero(p, d) || Zero(p, q)
  {
    ChiRoots(p, a, h);
    EqualZero(p, u, Chi(a, h));
    EqualZero(p, u, Prod(d, q));
    NoZeroDivisors(p, d, q);
  }

  lemma TopOne(p: nat, A: Poly)
    requires IsPrime(p) && Monic(A)
    ensures 0 < p && !AllZero(p, A)
  {
    assert 1 % p == 1;
    assert !Zero(p, A[|A| - 1]);
  }

  // The derivative of a characteristic polynomial vanishes at no member.
  lemma SimpleRoots(p: nat, f: Poly, a: set<nat>, r: nat)
    requires IsPrime(p) && 0 < p && Monic(f) && |f| == |a| + 1 <= p && r in a && (forall h :: h in a ==> h < p)
    requires forall x: int :: Equal(p, Eval(f, x), Chi(a, x))
    ensures !Zero(p, Eval(Derivative(f), r))
  {
    hide *;
    var q, rest := Quotient(f, r), a - {r};
    var e := Sub(q, ChiPoly(rest));
    assert forall h :: h in rest ==> h in a;
    ChiRoots(p, a, r);
    EqualZero(p, Eval(f, r), Chi(a, r));
    RootFactor(p, f, r);
    ChiRoots(p, rest, r);
    LinearMonic(r);
    QuotientLength(q, rest);
    forall x: int ensures Zero(p, Prod(Eval(Linear(r), x), Eval(e, x))) {
      LinearEval(r, x);
      SubEval(q, ChiPoly(rest), x);
      ChiPolyEval(rest, x);
      ChiTake(a, r, x);
      SameCofactor(p, Eval(f, x), Chi(a, x), x - r, Eval(q, x), Chi(rest, x));
    }
    MonicCancel(p, Linear(r), e);
    AllZeroEval(p, e, r);
    SubEval(q, ChiPoly(rest), r);
    ChiPolyEval(rest, r);
    DerivativeAt(f, r);
    DifferenceZero(p, Eval(q, r), Chi(rest, r));
  }

  lemma QuotientLength(q: Poly, rest: set<nat>)
    requires |q| == |rest| + 1
    ensures |Sub(q, ChiPoly(rest))| == |q|
  {
    hide ChiPoly;
  }

  lemma SameCofactor(p: nat, u: int, c: int, d: int, q: int, o: int)
    requires 0 < p && Equal(p, u, c) && Equal(p, u, Prod(d, q)) && c == d * o
    ensures Zero(p, Prod(d, q - o))
  {
    Factor(d, q, o);
    hide Zero;
    ZeroSum(p, u - d * q, u - d * o);
    ZeroSum(p, u - d * o, u - d * q);
    Negative(p, (u - d * q) - (u - d * o));
  }

  lemma DifferenceZero(p: nat, q: int, o: int)
    requires 0 < p && Zero(p, q - o)
    ensures Zero(p, q) <==> Zero(p, o)
  {
    EqualZero(p, q, o);
  }

  // The test for square-freeness passes: only the constant one divides both a
  // characteristic polynomial and its derivative.
  lemma SquareFree(p: nat, f: Poly, a: set<nat>, D: Poly, A: Poly, B: Poly)
    requires IsPrime(p) && 0 < p && Monic(f) && |f| == |a| + 1 <= p && (forall h :: h in a ==> h < p)
    requires forall x: int :: Equal(p, Eval(f, x), Chi(a, x))
    requires Factored(p, f, D, A)
    requires forall x: int :: Equal(p, Eval(Derivative(f), x), Prod(Eval(D, x), Eval(B, x)))
    ensures D == [1]
  {
    if 2 <= |D| {
      var r := DivisorRoot(p, f, a, D, A);
      SimpleRoots(p, f, a, r);
      ZeroProduct(p, Eval(D, r), Eval(B, r));
      EqualZero(p, Eval(Derivative(f), r), Prod(Eval(D, r), Eval(B, r)));
      assert false;
    }
  }

  // With enough samples both tests of a reconciliation pass.
  lemma ReducedAreSquareFree(p: nat, self: set<nat>, other: set<nat>, xs: seq<int>, fs: seq<int>,
                             P: Poly, Q: Poly, G: Poly, P': Poly, Q': Poly, D: Poly, A: Poly, B: Poly)
    requires IsPrime(p) && 0 < p && Sampled(p, self, other, xs, fs) && |xs| < p
    requires Interpolates(p, xs, fs, |other| - |self|, P, Q) && GreatestDivisor(p, P, Q, G, P', Q')
    requires |self - other| + |other - self| <= |xs|
    requires forall h :: h in self + other ==> h < p
    ensures CommonWithDerivative(p, P', D, A, B) || CommonWithDerivative(p, Q', D, A, B) ==> D == [1]
  {
    ReducedAreDifferences(p, self, other, xs, fs, P, Q, G, P', Q');
    hide Sampled, Interpolates, GreatestDivisor, Factored, Monic, Eval, Chi, Derivative, IsPrime, Zero;
    assert forall h :: h in self - other || h in other - self ==> h in self + other;
    if CommonWithDerivative(p, P', D, A, B) {
      SquareFree(p, P', other - self, D, A, B);
    } else if CommonWithDerivative(p, Q', D, A, B) {
      SquareFree(p, Q', self - other, D, A, B);
    }
  }

  // D divides f, with quotient A, and its derivative, with quotient B.
  ghost predicate CommonWithDerivative(p: nat, f: Poly, D: Poly, A: Poly, B: Poly)
    requires 0 < p
  {
    Factored(p, f, D, A) && forall x: int :: Equal(p, Eval(Derivative(f), x), Prod(Eval(D, x), Eval(B, x)))
  }
}
