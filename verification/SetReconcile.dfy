// One reconciliation attempt of the server: interpolating the ratios, finding the
// roots of numerator and denominator, and checking them at the redundant samples.
module SetReconciles {
  import opened Modular
  import opened PrimeField
  import opened Polynomials
  import opened Interpolation
  import opened LowCoefficients
  import opened CPIReconciliation
  import opened CPISyncs
  import opened SquareFreeness
  import opened NumberLibrary
  import opened Fractions
  import opened RatFuncInterps
  import opened Lists
  import opened Wrappers

  // The polynomials of the two differences have no common divisor to divide out.
  lemma NothingToReduce(p: nat, P: Poly, Q: Poly, G: Poly, P': Poly, Q': Poly, self: set<nat>, other: set<nat>)
    requires IsPrime(p) && 0 < p && AreDifferences(p, P, Q, self, other) && (forall h :: h in self + other ==> h < p)
    requires GreatestDivisor(p, P, Q, G, P', Q')
    ensures |G| == 1
  {
    hide Eval, Chi, IsPrime, Zero, Monic;
    DifferencesSmall(p, self, other);
    DivisorParts(p, P, Q, G, P', Q');
    if 2 <= |G| {
      var r := DivisorRoot(p, P, other - self, G, P');
      ZeroProduct(p, Eval(G, r), Eval(Q', r));
      EqualZero(p, Eval(Q, r), Prod(Eval(G, r), Eval(Q', r)));
      EqualZero(p, Eval(Q, r), Chi(self - other, r));
      ChiRoots(p, self - other, r);
      assert false;
    }
    GreatestMonic(p, P, Q, G, P', Q');
  }

  // Dividing out a linear factor leaves the polynomial of the other members.
  lemma LinearCofactor(p: nat, f: Poly, a: set<nat>, g: Poly, rest: Poly) returns (r: nat)
    requires IsPrime(p) && 0 < p && |f| == |a| + 1 <= p && (forall h :: h in a ==> h < p)
    requires (forall x: int :: Equal(p, Eval(f, x), Chi(a, x))) && Irreducible(p, g) && Factored(p, f, g, rest)
    ensures r in a && |g| == 2 && r == (-g[0]) % p && |rest| == |a - {r}| + 1
    ensures forall x: int :: Equal(p, Eval(rest, x), Chi(a - {r}, x))
  {
    hide Eval, Chi, IsPrime, Zero;
    IrreducibleParts(p, g);
    r := DivisorRoot(p, f, a, g, rest);
    assert |g| == 2;
    LinearRoot(p, g, r);
    assert |a - {r}| == |a| - 1;
    RestIs(p, f, a, g, rest, r);
  }

  lemma IrreducibleParts(p: nat, g: Poly)
    requires 0 < p && Irreducible(p, g)
    ensures 2 <= |g| && g[|g| - 1] == 1 && (2 < |g| ==> forall x: int :: !Zero(p, Eval(g, x)))
  {
  }

  lemma LinearRoot(p: nat, g: Poly, r: nat)
    requires 0 < p && |g| == 2 && g[1] == 1 && r < p && Zero(p, Eval(g, r))
    ensures r == (-g[0]) % p
    ensures forall x: int :: Equal(p, Eval(g, x), x - r)
  {
    assert forall x: int :: Eval(g, x) == g[0] + x by {
      forall x: int ensures Eval(g, x) == g[0] + x {
        assert g == [g[0], 1] && g[1..] == [1] && g[1..][1..] == [];
        assert Eval(g[1..], x) == 1;
      }
    }
    hide Eval;
    EqualRemainders(p, r, -g[0]);
    ModSmall(r, p);
    assert forall x: int :: Eval(g, x) - (x - r) == g[0] + r;
  }

  lemma RestIs(p: nat, f: Poly, a: set<nat>, g: Poly, rest: Poly, r: nat)
    requires IsPrime(p) && 0 < p && |rest| == |a| < p && r in a
    requires forall x: int :: Equal(p, Eval(f, x), Chi(a, x))
    requires forall x: int :: Equal(p, Eval(f, x), Prod(Eval(g, x), Eval(rest, x)))
    requires forall x: int :: Equal(p, Eval(g, x), x - r)
    ensures forall x: int :: Equal(p, Eval(rest, x), Chi(a - {r}, x))
  {
    hide *;
    var e := Sub(rest, ChiPoly(a - {r}));
    RestLength(rest, a, r);
    LinearMonic(r);
    forall x: int ensures Zero(p, Prod(Eval(Linear(r), x), Eval(e, x))) {
      LinearEval(r, x);
      SubEval(rest, ChiPoly(a - {r}), x);
      ChiPolyEval(a - {r}, x);
      ChiTake(a, r, x);
      FactorReplaced(p, Eval(f, x), Eval(g, x), x - r, Eval(rest, x));
      SameCofactor(p, Eval(f, x), Chi(a, x), x - r, Eval(rest, x), Chi(a - {r}, x));
    }
    MonicCancel(p, Linear(r), e);
    forall x: int ensures Equal(p, Eval(rest, x), Chi(a - {r}, x)) {
      AllZeroEval(p, e, x);
      SubEval(rest, ChiPoly(a - {r}), x);
      ChiPolyEval(a - {r}, x);
      EqualDifference(p, Eval(rest, x), Chi(a - {r}, x));
    }
  }

  lemma RestLength(rest: Poly, a: set<nat>, r: nat)
    requires |rest| == |a| && r in a
    ensures |Sub(rest, ChiPoly(a - {r}))| == |a|
  {
    hide ChiPoly;
    assert |a - {r}| == |a| - 1;
  }

  lemma FactorReplaced(p: nat, u: int, g: int, d: int, q: int)
    requires 0 < p && Equal(p, u, Prod(g, q)) && Equal(p, g, d)
    ensures Equal(p, u, Prod(d, q))
  {
    ZeroProduct(p, g - d, q);
    ProdDifference(g, d, q);
    hide Zero, Prod;
    ZeroSum(p, u - Prod(g, q), Prod(g, q) - Prod(d, q));
  }

  lemma ProdDifference(g: int, d: int, q: int)
    ensures (g - d) * q == Prod(g, q) - Prod(d, q)
  {
    Distribute(g, d, q);
  }

  // Factoring the characteristic polynomial of a set lists the set's members.
  lemma {:induction false} FactorsListMembers(p: nat, f: Poly, a: set<nat>, factors: seq<Poly>)
    requires IsPrime(p) && 0 < p && |f| == |a| + 1 <= p && (forall h :: h in a ==> h < p)
    requires (forall x: int :: Equal(p, Eval(f, x), Chi(a, x))) && SplitInto(p, f, factors)
    ensures (forall i :: 0 <= i < |factors| ==> |factors[i]| == 2) && IsListOf(RootsOf(p, factors), a)
    decreases |factors|
  {
    if factors == [] {
      assert |a| == 0;
      assert a == {};
    } else {
      var rest :| Factored(p, f, factors[0], rest) && SplitInto(p, rest, factors[1..]);
      assert Irreducible(p, factors[0]);
      hide Eval, Chi, IsPrime, Zero, Factored, SplitInto, Irreducible;
      var r := LinearCofactor(p, f, a, factors[0], rest);
      FactorsListMembers(p, rest, a - {r}, factors[1..]);
      RootsStep(p, factors, a, r);
    }
  }

  lemma RootsStep(p: nat, factors: seq<Poly>, a: set<nat>, r: nat)
    requires 0 < p && factors != [] && |factors[0]| == 2 && r == (-factors[0][0]) % p && r in a
    requires forall i :: 0 <= i < |factors[1..]| ==> |factors[1..][i]| == 2
    requires IsListOf(RootsOf(p, factors[1..]), a - {r})
    ensures (forall i :: 0 <= i < |factors| ==> |factors[i]| == 2) && IsListOf(RootsOf(p, factors), a)
  {
    var (rs, tail) := (RootsOf(p, factors), RootsOf(p, factors[1..]));
    assert rs == [r] + tail;
    assert forall i :: 0 < i < |factors| ==> factors[i] == factors[1..][i - 1];
    assert forall i :: 0 <= i < |tail| ==> tail[i] in ToSet(tail);
    assert ToSet(rs) == ToSet(tail) + {r};
  }

  // The square-freeness test passes and the factors are linear.
  lemma DifferenceFactors(p: nat, lib: Library, f: Poly, a: set<nat>)
    requires IsPrime(p) && 0 < p && lib.Correct(p) && Monic(f) && |f| == |a| + 1 <= p && (forall h :: h in a ==> h < p)
    requires forall x: int :: Equal(p, Eval(f, x), Chi(a, x))
    ensures lib.gcd(f, Derivative(f)) == [1]
    ensures (forall i :: 0 <= i < |lib.factor(f)| ==> |lib.factor(f)[i]| == 2) && IsListOf(RootsOf(p, lib.factor(f)), a)
  {
    hide *;
    var A, B := DerivativeDivisor(p, lib, f);
    CommonParts(p, f, lib.gcd(f, Derivative(f)), A, B);
    SquareFree(p, f, a, lib.gcd(f, Derivative(f)), A, B);
    FactorContract(p, lib, f);
    FactorsListMembers(p, f, a, lib.factor(f));
  }

  lemma DerivativeDivisor(p: nat, lib: Library, f: Poly) returns (A: Poly, B: Poly)
    requires 0 < p && lib.Correct(p) && Monic(f) && |f| <= p
    ensures CommonWithDerivative(p, f, lib.gcd(f, Derivative(f)), A, B)
  {
    hide CommonWithDerivative, Derivative, Monic, IsGreatest, IsExactCommon;
    assert lib.FindsDivisor(p);
    assert IsGreatestCommon(p, f, lib.gcd(f, Derivative(f)));
    A, B :| CommonWithDerivative(p, f, lib.gcd(f, Derivative(f)), A, B);
  }

  lemma CommonParts(p: nat, f: Poly, D: Poly, A: Poly, B: Poly)
    requires 0 < p && CommonWithDerivative(p, f, D, A, B)
    ensures Factored(p, f, D, A) && forall x: int :: Equal(p, Eval(Derivative(f), x), Prod(Eval(D, x), Eval(B, x)))
  {
  }

  lemma FactorContract(p: nat, lib: Library, f: Poly)
    requires 0 < p && lib.Correct(p) && Monic(f) && |f| <= p && lib.gcd(f, Derivative(f)) == [1]
    ensures SplitInto(p, f, lib.factor(f))
  {
    hide SplitInto, Derivative, Monic;
    assert lib.Factors(p);
  }

  lemma DivisorContract(p: nat, lib: Library, P: Poly, Q: Poly, self: set<nat>, other: set<nat>)
    requires IsPrime(p) && 0 < p && lib.Correct(p) && AreDifferences(p, P, Q, self, other) && |P| <= p && |Q| <= p
    requires forall h :: h in self + other ==> h < p
    ensures |lib.gcd(P, Q)| == 1
  {
    hide GreatestDivisor, IsPrime, IsGreatestCommon;
    assert lib.FindsDivisor(p);
    assert IsGreatest(p, P, Q, lib.gcd(P, Q));
    var P', Q' :| GreatestDivisor(p, P, Q, lib.gcd(P, Q), P', Q');
    hide *;
    NothingToReduce(p, P, Q, lib.gcd(P, Q), P', Q', self, other);
  }

  // Numerator and denominator of the true differences pass every test.
  lemma DifferencesFactor(p: nat, lib: Library, P: Poly, Q: Poly, self: set<nat>, other: set<nat>)
    requires IsPrime(p) && 0 < p && lib.Correct(p) && AreDifferences(p, P, Q, self, other) && |P| <= p && |Q| <= p
    requires forall h :: h in self + other ==> h < p
    ensures lib.gcd(P, Derivative(P)) == lib.gcd(Q, Derivative(Q)) == [1]
    ensures (forall i :: 0 <= i < |lib.factor(P)| ==> |lib.factor(P)[i]| == 2)
      && IsListOf(RootsOf(p, lib.factor(P)), other - self)
    ensures (forall i :: 0 <= i < |lib.factor(Q)| ==> |lib.factor(Q)[i]| == 2)
      && IsListOf(RootsOf(p, lib.factor(Q)), self - other)
  {
    hide Eval, Chi, IsPrime, Zero, Monic, Derivative, IsListOf, RootsOf;
    assert forall h :: h in other - self ==> h in self + other;
    assert forall h :: h in self - other ==> h in self + other;
    DifferenceFactors(p, lib, P, other - self);
    DifferenceFactors(p, lib, Q, self - other);
  }

  // The library's quotients by the greatest common divisor are in lowest terms.
  lemma Quotients(p: nat, lib: Library, P: Poly, Q: Poly)
    requires IsPrime(p) && 0 < p && lib.Correct(p) && Monic(P) && Monic(Q) && |P| <= p && |Q| <= p
    ensures var G := lib.gcd(P, Q);
      GreatestDivisor(p, P, Q, G, if 1 < |G| then lib.div(P, G) else P, if 1 < |G| then lib.div(Q, G) else Q)
  {
    var G := lib.gcd(P, Q);
    var A, B := SomeQuotients(p, lib, P, Q);
    hide *;
    BothFactored(p, P, Q, G, A, B);
    if 1 < |G| {
      DivideContract(p, lib, P, G, A);
      DivideContract(p, lib, Q, G, B);
      OtherQuotients(p, P, Q, G, A, B, lib.div(P, G), lib.div(Q, G));
    } else {
      GreatestMonic(p, P, Q, G, A, B);
      ConstantDivisor(G);
      OneDivides(p, P);
      OneDivides(p, Q);
      OtherQuotients(p, P, Q, G, A, B, P, Q);
    }
  }

  lemma SomeQuotients(p: nat, lib: Library, P: Poly, Q: Poly) returns (A: Poly, B: Poly)
    requires IsPrime(p) && 0 < p && lib.Correct(p) && Monic(P) && Monic(Q) && |P| <= p && |Q| <= p
    ensures GreatestDivisor(p, P, Q, lib.gcd(P, Q), A, B)
  {
    hide GreatestDivisor, IsPrime, IsGreatestCommon;
    assert lib.FindsDivisor(p);
    assert IsGreatest(p, P, Q, lib.gcd(P, Q));
    A, B :| GreatestDivisor(p, P, Q, lib.gcd(P, Q), A, B);
  }

  lemma BothFactored(p: nat, P: Poly, Q: Poly, G: Poly, A: Poly, B: Poly)
    requires 0 < p && GreatestDivisor(p, P, Q, G, A, B)
    ensures Factored(p, P, G, A) && Factored(p, Q, G, B)
  {
  }

  lemma DivideContract(p: nat, lib: Library, P: Poly, G: Poly, A: Poly)
    requires 0 < p && lib.Correct(p) && Factored(p, P, G, A) && |P| <= p
    ensures Factored(p, P, G, lib.div(P, G))
  {
    hide Factored;
    assert lib.Divides(p);
    assert IsDivisor(p, P, G);
  }

  lemma OtherQuotients(p: nat, P: Poly, Q: Poly, G: Poly, A: Poly, B: Poly, A': Poly, B': Poly)
    requires 0 < p && GreatestDivisor(p, P, Q, G, A, B) && Factored(p, P, G, A') && Factored(p, Q, G, B')
    ensures GreatestDivisor(p, P, Q, G, A', B')
  {
    hide Factored;
  }

  lemma ConstantDivisor(G: Poly)
    requires Monic(G) && |G| <= 1
    ensures G == [1]
  {
  }

  // What passes the test has distinct roots, and linear factors list them.
  lemma PassedRoots(p: nat, lib: Library, f: Poly)
    requires IsPrime(p) && 0 < p && lib.Correct(p) && Monic(f) && |f| <= p && lib.gcd(f, Derivative(f)) == [1]
    requires forall i :: 0 <= i < |lib.factor(f)| ==> |lib.factor(f)[i]| <= 2
    ensures var rs := RootsOf(p, lib.factor(f));
      && NoRepeats(rs) && |f| == |rs| + 1 && (forall i :: 0 <= i < |rs| ==> rs[i] < p)
      && forall x: int :: Equal(p, Eval(f, x), ListProduct(rs, x))
  {
    hide *;
    FactorContract(p, lib, f);
    LinearProduct(p, f, lib.factor(f));
    RootsReduced(p, lib.factor(f));
    DerivativeContract(p, lib, f);
    RootsDistinct(p, f, RootsOf(p, lib.factor(f)));
  }

  lemma RootsReduced(p: nat, factors: seq<Poly>)
    requires 0 < p
    ensures var rs := RootsOf(p, factors);
      |rs| == |factors| && forall i :: 0 <= i < |rs| ==> rs[i] < p
  {
  }

  lemma DerivativeContract(p: nat, lib: Library, f: Poly)
    requires 0 < p && lib.Correct(p) && Monic(f) && |f| <= p
    ensures IsGreatestCommon(p, f, lib.gcd(f, Derivative(f)))
  {
    hide IsGreatestCommon, IsGreatest, Derivative, Monic;
    assert lib.FindsDivisor(p);
  }

  // The tests pass whenever there is a fraction to find.
  lemma FractionPasses(p: nat, lib: Library, P: Poly, Q: Poly, G: Poly, P': Poly, Q': Poly,
                       num: seq<nat>, den: seq<nat>)
    requires IsPrime(p) && 0 < p && lib.Correct(p) && Monic(P) && Monic(Q) && GreatestDivisor(p, P, Q, G, P', Q')
    requires Fraction(p, P, Q, num, den) && |P| + |den| <= p
    ensures lib.gcd(P', Derivative(P')) == [1] == lib.gcd(Q', Derivative(Q'))
    ensures forall i :: 0 <= i < |lib.factor(P')| ==> |lib.factor(P')[i]| == 2
    ensures forall i :: 0 <= i < |lib.factor(Q')| ==> |lib.factor(Q')[i]| == 2
  {
    hide *;
    FractionIsLowest(p, P, Q, G, P', Q', num, den);
    FractionParts(p, P, Q, num, den);
    DivisorParts(p, P, Q, G, P', Q');
    GreatestMonic(p, P, Q, G, P', Q');
    InUnion(ToSet(den), ToSet(num), p);
    DifferenceFactors(p, lib, P', ToSet(num));
    DifferenceFactors(p, lib, Q', ToSet(den));
  }

  lemma InUnion(a: set<nat>, b: set<nat>, p: nat)
    requires forall h :: h in a + b ==> h < p
    ensures (forall h :: h in a ==> h < p) && (forall h :: h in b ==> h < p)
  {
    assert forall h :: h in a ==> h in a + b;
    assert forall h :: h in b ==> h in a + b;
  }

  // Brings the fraction to lowest terms, tests both polynomials for multiple
  // factors, and reads the roots off their linear factors.
  method FindRoots(p: nat, lib: Library, P: Poly, Q: Poly, ghost self: set<nat>, ghost other: set<nat>)
    returns (r: Option<(seq<nat>, seq<nat>)>)
    requires IsPrime(p) && 0 < p && lib.Correct(p) && forall h :: h in self + other ==> h < p
    ensures AreDifferences(p, P, Q, self, other) && |P| <= p && |Q| <= p ==>
      r.Some? && IsListOf(r.value.0, other - self) && IsListOf(r.value.1, self - other)
    ensures Monic(P) && Monic(Q) && |P| <= p && |Q| <= p && r.Some? ==> Fraction(p, P, Q, r.value.0, r.value.1)
    ensures Monic(P) && Monic(Q) && |P| <= p && |Q| <= p && r.None? ==>
      forall num, den :: |P| + |den| <= p ==> !Fraction(p, P, Q, num, den)
  {
    hide *;
    var P', Q' := P, Q;
    ghost var proper := Monic(P) && Monic(Q) && |P| <= p && |Q| <= p;
    if AreDifferences(p, P, Q, self, other) && |P| <= p && |Q| <= p {
      DivisorContract(p, lib, P, Q, self, other);
      DifferencesFactor(p, lib, P, Q, self, other);
    }
    var G := lib.gcd(P, Q);
    if 1 < |G| {
      P', Q' := lib.div(P, G), lib.div(Q, G);
    }
    if proper {
      Quotients(p, lib, P, Q);
      DivisorParts(p, P, Q, G, P', Q');
      GreatestMonic(p, P, Q, G, P', Q');
      forall num, den | Fraction(p, P, Q, num, den) && |P| + |den| <= p
        ensures lib.gcd(P', Derivative(P')) == [1] == lib.gcd(Q', Derivative(Q'))
        ensures forall i :: 0 <= i < |lib.factor(P')| ==> |lib.factor(P')[i]| == 2
        ensures forall i :: 0 <= i < |lib.factor(Q')| ==> |lib.factor(Q')[i]| == 2
      {
        FractionPasses(p, lib, P, Q, G, P', Q', num, den);
      }
    }
    if lib.gcd(P', Derivative(P')) != [1] || lib.gcd(Q', Derivative(Q')) != [1] {
      return None;
    }
    var numerator := LinearRoots(p, lib.factor(P'));
    if numerator.None? {
      return None;
    }
    var denominator := LinearRoots(p, lib.factor(Q'));
    if denominator.None? {
      return None;
    }
    if proper {
      PassedRoots(p, lib, P');
      PassedRoots(p, lib, Q');
      LowestIsFraction(p, P, Q, G, P', Q', numerator.value, denominator.value);
    }
    return Some((numerator.value, denominator.value));
  }

  // The roots of linear factors, unless one is not linear.
  method LinearRoots(p: nat, factors: seq<Poly>) returns (r: Option<seq<nat>>)
    requires 0 < p
    ensures r == if forall i :: 0 <= i < |factors| ==> |factors[i]| <= 2 then Some(RootsOf(p, factors)) else None
  {
    var rs: seq<nat> := [];
    for ii := 0 to |factors|
      invariant |rs| == ii
      invariant forall i :: 0 <= i < ii ==> |factors[i]| <= 2 && rs[i] == RootsOf(p, factors)[i]
    {
      if 2 < |factors[ii]| {
        return None;
      }
      rs := rs + [(-Coefficient(factors[ii], 0)) % p];
    }
    assert rs == RootsOf(p, factors);
    return Some(rs);
  }

  // The lists are the two differences, each element once.
  ghost predicate Finds(self: set<nat>, other: set<nat>, deltaSelf: seq<nat>, deltaOther: seq<nat>) {
    IsListOf(deltaSelf, self - other) && IsListOf(deltaOther, other - self)
  }

  // An attempt is bound to succeed when the other side has nothing, or when this
  // side has something and there are enough samples.
  ghost predicate Answerable(self: set<nat>, other: set<nat>, n: nat) {
    other == {} || (self != {} && Covered(self, other, n))
  }

  ghost predicate AreEvaluations(p: nat, dataMax: nat, a: set<nat>, evals: seq<nat>)
    requires 0 < p
  {
    forall i :: 0 <= i < |evals| ==> evals[i] == Chi(a, Sample(p, dataMax, i)) % p
  }

  method AllMembers(a: set<nat>) returns (list: seq<nat>)
    ensures IsListOf(list, a)
  {
    list := [];
    var todo := a;
    while todo != {}
      invariant todo <= a && IsListOf(list, a - todo)
      decreases todo
    {
      var h :| h in todo;
      assert forall i :: 0 <= i < |list| ==> list[i] in ToSet(list);
      assert ToSet(list + [h]) == ToSet(list) + {h} == a - (todo - {h});
      list, todo := list + [h], todo - {h};
    }
  }

  lemma {:induction false} ListingOf(a: set<nat>) returns (list: seq<nat>)
    ensures IsListOf(list, a)
    decreases a
  {
    list := [];
    if a != {} {
      var h :| h in a;
      list := ListingOf(a - {h});
      assert forall i :: 0 <= i < |list| ==> list[i] in ToSet(list);
      assert ToSet(list + [h]) == ToSet(list) + {h} == a;
      list := list + [h];
    }
  }

  // The server's attempt at a bound on the number of differences.
  method SetReconcile(server: CPISync, lib: Library, otherSize: nat, otherEvals: seq<nat>, currDiff: nat,
                      ghost other: set<nat>)
    returns (ok: bool, deltaSelf: seq<nat>, deltaOther: seq<nat>)
    requires server.Valid() && 0 < server.p && lib.Correct(server.p)
    requires currDiff < |server.sampleLoc| && currDiff <= |otherEvals|
    requires |other| == otherSize && forall h :: h in other ==> h < server.dataMax
    requires AreEvaluations(server.p, server.dataMax, other, otherEvals)
    ensures Answerable(server.hashed.Keys, other, currDiff) ==>
      ok && Finds(server.hashed.Keys, other, deltaSelf, deltaOther)
    ensures server.hashed.Keys == {} ==> ok && deltaSelf == deltaOther == []
    ensures ok ==> Separate(deltaSelf, deltaOther)
  {
    hide *;
    NothingSeparate();
    ghost var self := server.hashed.Keys;
    if otherSize < 1 {
      deltaSelf := AllMembers(server.hashed.Keys);
      EverythingMissing(self, other, deltaSelf);
      ListSeparate(deltaSelf, server.hashed.Keys);
      return true, deltaSelf, [];
    }
    if server.hashed.Keys == {} {
      NothingOwn(other, currDiff);
      return true, [], [];
    }
    ServerParts(server, other, otherEvals, currDiff);
    var fs := server.Ratios(otherEvals, currDiff, other);
    var xs := Prefix(server.sampleLoc, currDiff);
    var found := RatFuncInterp(server.p, lib, xs, Prefix(fs, currDiff), otherSize, |server.hashed.Keys|, self, other);
    if Answerable(self, other, currDiff) {
      AnswerableParts(self, other, currDiff);
      DifferencesShort(server.p, found.value.0, found.value.1, self, other, currDiff);
    }
    if found.None? {
      return false, [], [];
    }
    var roots := FindRoots(server.p, lib, found.value.0, found.value.1, self, other);
    if roots.None? {
      return false, [], [];
    }
    BothLists(self, other, roots.value.1, roots.value.0);
    ShortEnough(server.p, found.value.0, found.value.1, currDiff);
    FractionSeparate(server.p, found.value.0, found.value.1, roots.value.0, roots.value.1);
    return true, roots.value.1, roots.value.0;
  }

  lemma NothingSeparate()
    ensures Separate([], [])
  {
  }

  lemma ListSeparate(list: seq<nat>, a: set<nat>)
    requires IsListOf(list, a)
    ensures Separate(list, [])
  {
  }

  lemma ShortEnough(p: nat, P: Poly, Q: Poly, n: nat)
    requires Monic(P) && Monic(Q) && |P| + |Q| <= n + 2 && n < p
    ensures |P| <= p && |Q| <= p
  {
  }

  lemma FractionSeparate(p: nat, P: Poly, Q: Poly, num: seq<nat>, den: seq<nat>)
    requires 0 < p && Fraction(p, P, Q, num, den)
    ensures Separate(den, num)
  {
  }

  lemma EverythingMissing(self: set<nat>, other: set<nat>, list: seq<nat>)
    requires |other| < 1 && IsListOf(list, self)
    ensures Finds(self, other, list, []) && (self == {} ==> list == [])
  {
    assert self - other == self && other - self == {};
    assert list != [] ==> list[0] in ToSet(list);
  }

  lemma BothLists(self: set<nat>, other: set<nat>, deltaSelf: seq<nat>, deltaOther: seq<nat>)
    ensures Finds(self, other, deltaSelf, deltaOther)
       <==> IsListOf(deltaSelf, self - other) && IsListOf(deltaOther, other - self)
  {
  }

  lemma NothingOwn(other: set<nat>, n: nat)
    requires 1 <= |other|
    ensures !Answerable({}, other, n)
  {
  }

  lemma AnswerableParts(self: set<nat>, other: set<nat>, n: nat)
    requires 1 <= |other| && Answerable(self, other, n)
    ensures Covered(self, other, n)
  {
  }

  lemma DifferencesShort(p: nat, P: Poly, Q: Poly, self: set<nat>, other: set<nat>, n: nat)
    requires 0 < p && AreDifferences(p, P, Q, self, other) && Covered(self, other, n) && n < p
    ensures |P| <= p && |Q| <= p
  {
  }

  // What the interpolation needs is what the server keeps.
  lemma ServerParts(server: CPISync, other: set<nat>, otherEvals: seq<nat>, n: nat)
    requires server.Valid() && 0 < server.p && n < |server.sampleLoc| && n <= |otherEvals|
    requires (forall h :: h in other ==> h < server.dataMax)
    requires AreEvaluations(server.p, server.dataMax, other, otherEvals)
    ensures IsPrime(server.p) && n < server.p && forall h :: h in server.hashed.Keys + other ==> h < server.p
    ensures forall i :: 0 <= i < n ==> otherEvals[i] == Chi(other, server.sampleLoc[i]) % server.p
  {
    hide Chi, IsPrime, Sample;
  }

  // At every redundant sample, this side with what it lacks and the other side with
  // what it lacks have the same characteristic polynomial.
  ghost predicate Consistent(p: nat, dataMax: nat, redundantK: nat, self: set<nat>, other: set<nat>, currDiff: nat,
                             deltaSelf: seq<nat>, deltaOther: seq<nat>)
    requires 0 < p
  {
    forall j :: currDiff <= j < currDiff + redundantK ==>
      var x := Sample(p, dataMax, j);
      Equal(p, Chi(self, x) * ListProduct(deltaOther, x), Chi(other, x) * ListProduct(deltaSelf, x))
  }

  // What one test of the server achieves: the differences when they can be found,
  // and separate lists that are consistent at the redundant samples whenever it
  // accepts. A
  // server without elements finds nothing, and accepts that exactly when the
  // client's evaluations are one at all redundant samples.
  ghost predicate TestResult(p: nat, dataMax: nat, redundantK: nat, self: set<nat>, other: set<nat>, currDiff: nat,
                             ok: bool, deltaSelf: seq<nat>, deltaOther: seq<nat>)
    requires 0 < p
  {
    && (Answerable(self, other, currDiff) ==> ok && Finds(self, other, deltaSelf, deltaOther))
    && (self == {} ==> deltaSelf == deltaOther == [])
    && (self == {} ==> (ok <==> AllOnes(p, dataMax, redundantK, other, currDiff)))
    && (ok ==> Separate(deltaSelf, deltaOther)
               && Consistent(p, dataMax, redundantK, self, other, currDiff, deltaSelf, deltaOther))
  }

  ghost predicate AllOnes(p: nat, dataMax: nat, redundantK: nat, other: set<nat>, currDiff: nat)
    requires 0 < p
  {
    forall j :: currDiff <= j < currDiff + redundantK ==> Equal(p, 1, Chi(other, Sample(p, dataMax, j)))
  }

  // One round of the server's loop: the attempt, and the check of its outcome
  // against the redundant samples.
  method ServerTest(server: CPISync, lib: Library, otherSize: nat, recvMeta: seq<nat>, currDiff: nat, redundantK: nat,
                    ghost other: set<nat>)
    returns (ok: bool, deltaSelf: seq<nat>, deltaOther: seq<nat>)
    requires server.Valid() && 0 < server.p && lib.Correct(server.p)
    requires 1 <= redundantK && currDiff + redundantK <= |server.sampleLoc| && currDiff + redundantK <= |recvMeta|
    requires |other| == otherSize && forall h :: h in other ==> h < server.dataMax
    requires AreEvaluations(server.p, server.dataMax, other, recvMeta)
    ensures TestResult(server.p, server.dataMax, redundantK, server.hashed.Keys, other, currDiff, ok,
                       deltaSelf, deltaOther)
  {
    hide *;
    ok, deltaSelf, deltaOther := SetReconcile(server, lib, otherSize, recvMeta, currDiff, other);
    if ok {
      ServerShape(server);
      ok := server.RedundancyCheck(recvMeta, currDiff, redundantK, deltaSelf, deltaOther);
      CheckResult(server, recvMeta, currDiff, redundantK, other, ok, deltaSelf, deltaOther);
    } else {
      NotFound(server, recvMeta, currDiff, redundantK, other, deltaSelf, deltaOther);
    }
  }

  lemma ServerShape(server: CPISync)
    requires server.Valid()
    ensures server.Shaped() && server.evals.Length == |server.sampleLoc|
  {
  }

  lemma NotFound(server: CPISync, recvMeta: seq<nat>, currDiff: nat, redundantK: nat, other: set<nat>,
                 deltaSelf: seq<nat>, deltaOther: seq<nat>)
    requires 0 < server.p && !Answerable(server.hashed.Keys, other, currDiff) && server.hashed.Keys != {}
    ensures TestResult(server.p, server.dataMax, redundantK, server.hashed.Keys, other, currDiff, false,
                       deltaSelf, deltaOther)
  {
  }

  lemma CheckResult(server: CPISync, recvMeta: seq<nat>, currDiff: nat, redundantK: nat, other: set<nat>, ok: bool,
                    deltaSelf: seq<nat>, deltaOther: seq<nat>)
    requires server.Valid() && 0 < server.p && AreEvaluations(server.p, server.dataMax, other, recvMeta)
    requires currDiff + redundantK <= |server.sampleLoc| && currDiff + redundantK <= |recvMeta|
    requires Answerable(server.hashed.Keys, other, currDiff) ==> Finds(server.hashed.Keys, other, deltaSelf, deltaOther)
    requires server.hashed.Keys == {} ==> deltaSelf == deltaOther == []
    requires Separate(deltaSelf, deltaOther)
    requires ok <==> forall j :: currDiff <= j < currDiff + redundantK ==>
      Passes(server.p, server.sampleLoc[j], server.evals[j], recvMeta[j], deltaSelf, deltaOther)
    ensures TestResult(server.p, server.dataMax, redundantK, server.hashed.Keys, other, currDiff, ok,
                       deltaSelf, deltaOther)
  {
    hide *;
    var self := server.hashed.Keys;
    ServerShape(server);
    forall j | currDiff <= j < currDiff + redundantK
      ensures Finds(self, other, deltaSelf, deltaOther) ==>
        Passes(server.p, server.sampleLoc[j], server.evals[j], recvMeta[j], deltaSelf, deltaOther)
      ensures self == {} ==>
        (Passes(server.p, server.sampleLoc[j], server.evals[j], recvMeta[j], deltaSelf, deltaOther)
         <==> Equal(server.p, 1, Chi(other, Sample(server.p, server.dataMax, j))))
      ensures var x := Sample(server.p, server.dataMax, j);
        Passes(server.p, server.sampleLoc[j], server.evals[j], recvMeta[j], deltaSelf, deltaOther)
        <==> Equal(server.p, Chi(self, x) * ListProduct(deltaOther, x), Chi(other, x) * ListProduct(deltaSelf, x))
    {
      SampleParts(server, recvMeta, other, j);
      PassesMeans(server.p, server.sampleLoc[j], Chi(self, server.sampleLoc[j]), Chi(other, server.sampleLoc[j]),
                  deltaSelf, deltaOther);
      BothLists(self, other, deltaSelf, deltaOther);
      if Finds(self, other, deltaSelf, deltaOther) {
        ListParts(deltaSelf, self - other);
        ListParts(deltaOther, other - self);
        TrueDifferencesPass(server.p, self, other, server.sampleLoc[j], deltaSelf, deltaOther);
      }
      if self == {} {
        EmptyPasses(server.p, server.sampleLoc[j], other);
      }
    }
    ResultIs(server.p, server.dataMax, redundantK, self, other, currDiff, ok, deltaSelf, deltaOther);
  }

  lemma SampleParts(server: CPISync, recvMeta: seq<nat>, other: set<nat>, j: nat)
    requires server.Valid() && 0 < server.p && AreEvaluations(server.p, server.dataMax, other, recvMeta)
    requires j < |server.sampleLoc| && j < |recvMeta|
    ensures server.sampleLoc[j] == Sample(server.p, server.dataMax, j)
    ensures server.evals[j] == Chi(server.hashed.Keys, server.sampleLoc[j]) % server.p
    ensures recvMeta[j] == Chi(other, server.sampleLoc[j]) % server.p
  {
    hide Chi, IsPrime, Sample;
  }

  // The check on remainders is the one on the products themselves.
  lemma PassesMeans(p: nat, x: nat, own: int, whole: int, deltaSelf: seq<nat>, deltaOther: seq<nat>)
    requires 0 < p
    ensures Passes(p, x, own % p, whole % p, deltaSelf, deltaOther)
       <==> Equal(p, own * ListProduct(deltaOther, x), whole * ListProduct(deltaSelf, x))
  {
    var (o, s) := (ListProduct(deltaOther, x), ListProduct(deltaSelf, x));
    hide ListProduct;
    ModMul(own, o, p);
    ModMul(whole, s, p);
    EqualRemainders(p, (own % p) * o, (whole % p) * s);
    EqualRemainders(p, own * o, whole * s);
  }

  lemma ListParts(rs: seq<nat>, a: set<nat>)
    requires IsListOf(rs, a)
    ensures NoRepeats(rs) && ToSet(rs) == a
  {
  }

  // A server without elements compares one with what the client sent.
  lemma EmptyPasses(p: nat, x: nat, other: set<nat>)
    requires 0 < p
    ensures Passes(p, x, Chi({}, x) % p, Chi(other, x) % p, [], []) <==> Equal(p, 1, Chi(other, x))
  {
    var o := Chi(other, x);
    assert Chi({}, x) == 1;
    hide Chi;
    EqualRemainders(p, 1, o);
    EqualRemainders(p, 1 % p, o % p);
    ModTwice(1, p);
    ModTwice(o, p);
  }

  lemma ResultIs(p: nat, dataMax: nat, redundantK: nat, self: set<nat>, other: set<nat>, currDiff: nat, ok: bool,
                 deltaSelf: seq<nat>, deltaOther: seq<nat>)
    requires 0 < p && (Answerable(self, other, currDiff) ==> ok && Finds(self, other, deltaSelf, deltaOther))
    requires self == {} ==> deltaSelf == deltaOther == []
    requires self == {} ==>
      (ok <==> forall j :: currDiff <= j < currDiff + redundantK ==> Equal(p, 1, Chi(other, Sample(p, dataMax, j))))
    requires Separate(deltaSelf, deltaOther)
    requires ok ==> forall j :: currDiff <= j < currDiff + redundantK ==>
      var x := Sample(p, dataMax, j);
      Equal(p, Chi(self, x) * ListProduct(deltaOther, x), Chi(other, x) * ListProduct(deltaSelf, x))
    ensures TestResult(p, dataMax, redundantK, self, other, currDiff, ok, deltaSelf, deltaOther)
  {
  }
}
