// Why a reconciliation succeeds: once the greatest common divisor is divided
// out, the interpolated numerator and denominator are the characteristic
// polynomials of the two set differences, so they split into linear factors.
module CPIReconciliation {
  import opened Modular
  import opened PrimeField
  import opened Polynomials
  import opened Interpolation
  import opened CPISyncs
  import opened Lists

  // P is D times A over the field.
  ghost predicate Factored(p: nat, P: Poly, D: Poly, A: Poly)
    requires 0 < p
  {
    && Monic(D) && Monic(A) && |P| == |D| + |A| - 1
    && forall x: int :: Equal(p, Eval(P, x), Prod(Eval(D, x), Eval(A, x)))
  }

  // G is a common divisor of P and Q, with these quotients, and none is longer.
  ghost predicate GreatestDivisor(p: nat, P: Poly, Q: Poly, G: Poly, P': Poly, Q': Poly)
    requires 0 < p
  {
    && Factored(p, P, G, P') && Factored(p, Q, G, Q')
    && forall D, A, B :: Factored(p, P, D, A) && Factored(p, Q, D, B) ==> |D| <= |G|
  }

  lemma {:induction false} QuotientMonic(f: Poly, r: int)
    requires Monic(f) && 2 <= |f|
    ensures Monic(Quotient(f, r))
  {
    if |f| > 2 {
      QuotientMonic(f[1..], r);
    } else {
      assert f[1..] == [1] && f[1..][1..] == [];
      assert Eval(f[1..], r) == 1;
    }
  }

  // A root can be divided out.
  lemma RootDivides(p: nat, f: Poly, r: int)
    requires 0 < p && Zero(p, Eval(f, r))
    ensures forall x: int :: Equal(p, Eval(f, x), Prod(x - r, Eval(Quotient(f, r), x)))
  {
    forall x: int ensures Equal(p, Eval(f, x), Prod(x - r, Eval(Quotient(f, r), x))) {
      QuotientEval(f, r, x);
    }
  }

  lemma RootFactor(p: nat, f: Poly, r: int)
    requires IsPrime(p) && Monic(f) && Zero(p, Eval(f, r))
    ensures 2 <= |f| && Monic(Quotient(f, r))
    ensures forall x: int :: Equal(p, Eval(f, x), Prod(x - r, Eval(Quotient(f, r), x)))
  {
    ConstantOne(r);
    assert 1 % p == 1;
    assert |f| == 1 ==> f == [1];
    QuotientMonic(f, r);
    RootDivides(p, f, r);
  }

  lemma RootIsFactor(p: nat, f: Poly, r: int)
    requires IsPrime(p) && 0 < p && Monic(f) && Zero(p, Eval(f, r))
    ensures Factored(p, f, Linear(r), Quotient(f, r))
  {
    RootFactor(p, f, r);
    hide Zero, IsPrime, Quotient;
    forall x: int ensures Equal(p, Eval(f, x), Prod(Eval(Linear(r), x), Eval(Quotient(f, r), x))) {
      LinearEval(r, x);
    }
  }

  lemma OneDivides(p: nat, P: Poly)
    requires 0 < p && Monic(P)
    ensures Factored(p, P, [1], P)
  {
    ZeroMultiple(p, 0);
    hide Zero;
    forall x: int ensures Equal(p, Eval(P, x), Prod(Eval([1], x), Eval(P, x))) {
      ConstantOne(x);
    }
  }

  // A common root of the quotients would make a greater common divisor.
  lemma GreatestIsLowest(p: nat, P: Poly, Q: Poly, G: Poly, P': Poly, Q': Poly)
    requires IsPrime(p) && GreatestDivisor(p, P, Q, G, P', Q')
    ensures LowestTerms(p, P, Q, G, P', Q')
  {
    forall x: int ensures !(Zero(p, Eval(P', x)) && Zero(p, Eval(Q', x))) {
      if Zero(p, Eval(P', x)) && Zero(p, Eval(Q', x)) {
        RootFactor(p, P', x);
        RootFactor(p, Q', x);
        MoreFactored(p, P, G, P', x);
        MoreFactored(p, Q, G, Q', x);
      }
    }
  }

  lemma MoreFactored(p: nat, P: Poly, G: Poly, A: Poly, r: int)
    requires IsPrime(p) && Factored(p, P, G, A) && Zero(p, Eval(A, r))
    ensures Factored(p, P, Mul(G, Linear(r)), Quotient(A, r))
  {
    RootFactor(p, A, r);
    MulTop(G, Linear(r));
    hide Mul, Eval, Quotient, IsPrime, Zero, Prod;
    forall x: int ensures Equal(p, Eval(P, x), Prod(Eval(Mul(G, Linear(r)), x), Eval(Quotient(A, r), x))) {
      MulEval(G, Linear(r), x);
      LinearEval(r, x);
      FactorTwice(p, Eval(P, x), Eval(G, x), Eval(A, x), x - r, Eval(Quotient(A, r), x));
    }
  }

  lemma FactorTwice(p: nat, u: int, g: int, a: int, d: int, q: int)
    requires 0 < p && Equal(p, u, Prod(g, a)) && Equal(p, a, Prod(d, q))
    ensures Equal(p, u, Prod(g * d, q))
  {
    ZeroProduct(p, a - d * q, g);
    Factor(g, a, d * q);
    Regroup(g, d, q);
    hide Zero;
    ZeroSum(p, u - g * a, g * a - g * (d * q));
  }

  // If P times the polynomial of a equals Q times that of b, and the sets are
  // disjoint, then both share a cofactor: P is Z times the polynomial of b, and
  // Q is Z times that of a. A polynomial that is not monic must have room for it.
  lemma {:induction false} SharedCofactor(p: nat, P: Poly, Q: Poly, a: set<nat>, b: set<nat>) returns (Z: Poly)
    requires IsPrime(p) && (Monic(P) || |b| <= |P|) && a !! b && forall h :: h in a + b ==> h < p
    requires |P| + |a| == |Q| + |b| <= p
    requires forall x: int :: Zero(p, Cross(Eval(P, x), Chi(a, x), Eval(Q, x), Chi(b, x)))
    ensures |P| == |Z| + |b| && (Monic(P) ==> Monic(Z))
    ensures forall x: int :: Equal(p, Eval(P, x), Prod(Eval(Z, x), Chi(b, x)))
    ensures forall x: int :: Equal(p, Eval(Q, x), Prod(Eval(Z, x), Chi(a, x)))
    decreases b
  {
    if b == {} {
      Z := P;
      forall x: int
        ensures Equal(p, Eval(P, x), Prod(Eval(Z, x), Chi(b, x)))
        ensures Equal(p, Eval(Q, x), Prod(Eval(Z, x), Chi(a, x)))
      {
        NothingShared(p, Eval(P, x), Chi(a, x), Eval(Q, x), Chi(b, x));
      }
    } else {
      var r :| r in b;
      RootOfP(p, Eval(P, r), Eval(Q, r), a, b, r);
      RootDivides(p, P, r);
      if Monic(P) {
        RootFactor(p, P, r);
      }
      var P1 := Quotient(P, r);
      CrossReduced(p, P, Q, a, b, r);
      hide Eval, Chi, Quotient, IsPrime, Zero, Cross, Prod;
      assert forall h :: h in a + (b - {r}) ==> h in a + b;
      assert |P1| + |a| == |Q| + |b - {r}|;
      Z := SharedCofactor(p, P1, Q, a, b - {r});
      forall x: int ensures Equal(p, Eval(P, x), Prod(Eval(Z, x), Chi(b, x))) {
        ChiTake(b, r, x);
        Reassemble(p, Eval(P, x), x - r, Eval(P1, x), Eval(Z, x), Chi(b - {r}, x), Chi(b, x));
      }
    }
  }

  lemma NothingShared(p: nat, u: int, s: int, v: int, o: int)
    requires 0 < p && o == 1 && Zero(p, Cross(u, s, v, o))
    ensures Equal(p, u, Prod(u, o)) && Equal(p, v, Prod(u, s))
  {
    Negative(p, u * s - v);
    ZeroMultiple(p, 0);
  }

  lemma RootOfP(p: nat, u: int, v: int, a: set<nat>, b: set<nat>, r: nat)
    requires IsPrime(p) && a !! b && r in b && forall h :: h in a + b ==> h < p
    requires Zero(p, Cross(u, Chi(a, r), v, Chi(b, r)))
    ensures Zero(p, u)
  {
    assert forall h | h in a :: h in a + b;
    assert forall h | h in b :: h in a + b;
    ChiRoots(p, a, r);
    ChiRoots(p, b, r);
    var s, o := Chi(a, r), Chi(b, r);
    hide Chi, Zero;
    ZeroProduct(p, o, v);
    ZeroSum(p, v * o, u * s - v * o);
    NoZeroDivisors(p, u, s);
  }

  lemma Reassemble(p: nat, u: int, d: int, u1: int, z: int, o1: int, o: int)
    requires 0 < p && Equal(p, u, Prod(d, u1)) && Equal(p, u1, Prod(z, o1)) && o == d * o1
    ensures Equal(p, u, Prod(z, o))
  {
    ZeroProduct(p, u1 - z * o1, d);
    Factor(d, u1, z * o1);
    Regroup(d, z, o1);
    hide Zero;
    ZeroSum(p, u - d * u1, d * u1 - d * (z * o1));
  }

  // The identity survives dividing both sides by x - r.
  lemma CrossReduced(p: nat, P: Poly, Q: Poly, a: set<nat>, b: set<nat>, r: nat)
    requires IsPrime(p) && 0 < p && P != [] && r in b && Zero(p, Eval(P, r)) && |P| + |a| == |Q| + |b| <= p
    requires forall x: int :: Zero(p, Cross(Eval(P, x), Chi(a, x), Eval(Q, x), Chi(b, x)))
    ensures forall x: int :: Zero(p, Cross(Eval(Quotient(P, r), x), Chi(a, x), Eval(Q, x), Chi(b - {r}, x)))
  {
    var P1, b' := Quotient(P, r), b - {r};
    hide *;
    LinearMonic(r);
    var e := CrossPoly(P1, ChiPoly(a), Q, ChiPoly(b'));
    forall x: int ensures Zero(p, Prod(Eval(Linear(r), x), Eval(e, x))) {
      CrossReducedAt(p, P, Q, a, b, r, x);
    }
    CrossLength(P1, a, Q, b');
    MonicCancel(p, Linear(r), e);
    forall x: int ensures Zero(p, Cross(Eval(P1, x), Chi(a, x), Eval(Q, x), Chi(b', x))) {
      AllZeroEval(p, e, x);
      CrossEval(P1, Q, a, b', x);
    }
  }

  lemma LinearMonic(r: int)
    ensures Monic(Linear(r)) && |Linear(r)| == 2
  {
  }

  lemma CrossReducedAt(p: nat, P: Poly, Q: Poly, a: set<nat>, b: set<nat>, r: nat, x: int)
    requires 0 < p && r in b && Zero(p, Eval(P, r))
    requires Zero(p, Cross(Eval(P, x), Chi(a, x), Eval(Q, x), Chi(b, x)))
    ensures Zero(p, Prod(Eval(Linear(r), x), Eval(CrossPoly(Quotient(P, r), ChiPoly(a), Q, ChiPoly(b - {r})), x)))
  {
    hide *;
    LinearEval(r, x);
    CrossEval(Quotient(P, r), Q, a, b - {r}, x);
    QuotientEval(P, r, x);
    ChiTake(b, r, x);
    CrossDivided(p, x - r, Eval(P, r), Eval(P, x), Eval(Quotient(P, r), x), Chi(a, x), Eval(Q, x), Chi(b, x),
                 Chi(b - {r}, x));
  }

  lemma CrossLength(P: Poly, a: set<nat>, Q: Poly, b: set<nat>)
    requires |P| + |a| == |Q| + |b|
    ensures |CrossPoly(P, ChiPoly(a), Q, ChiPoly(b))| <= |P| + |a|
  {
  }

  lemma CrossDivided(p: nat, d: int, u0: int, u: int, u1: int, s: int, v: int, o: int, o1: int)
    requires 0 < p && Zero(p, u0) && u == u0 + d * u1 && o == d * o1 && Zero(p, Cross(u, s, v, o))
    ensures Zero(p, Prod(d, Cross(u1, s, v, o1)))
  {
    Factor(d, u1 * s, v * o1);
    Regroup(d, u1, s);
    Regroup(d, v, o1);
    Regroup(v, d, o1);
    Distribute(u0, d * u1, s);
    ZeroProduct(p, u0, s);
    hide Zero;
    assert Prod(d, Cross(u1, s, v, o1)) == Cross(u, s, v, o) - u0 * s;
    ZeroSum(p, u0 * s, Cross(u, s, v, o));
  }

  // When the differences are no larger than the number of samples, the reduced
  // interpolant is exactly the pair of characteristic polynomials of the two
  // differences.
  lemma ReducedAreDifferences(p: nat, self: set<nat>, other: set<nat>, xs: seq<int>, fs: seq<int>,
                              P: Poly, Q: Poly, G: Poly, P': Poly, Q': Poly)
    requires IsPrime(p) && Sampled(p, self, other, xs, fs) && |xs| < p
    requires Interpolates(p, xs, fs, |other| - |self|, P, Q) && GreatestDivisor(p, P, Q, G, P', Q')
    requires |self - other| + |other - self| <= |xs|
    requires forall h :: h in self + other ==> h < p
    ensures forall x: int :: Equal(p, Eval(P', x), Chi(other - self, x)) && Equal(p, Eval(Q', x), Chi(self - other, x))
    ensures Monic(P') && Monic(Q') && |P'| == |other - self| + 1 && |Q'| == |self - other| + 1
  {
    hide *;
    PrimePositive(p);
    SampledDistinct(p, self, other, xs, fs);
    Parts(p, xs, fs, |other| - |self|, P, Q);
    SizesDiffer(self, other);
    CrossEverywhere(p, self, other, xs, fs, P, Q);
    ReducedCrossEverywhere(p, self, other, xs, fs, P, Q, G, P', Q');
    DifferencesSmall(p, self, other);
    DivisorParts(p, P, Q, G, P', Q');
    GreatestCofactor(p, P, Q, G, P', Q', self - other, other - self);
    DividedOut(p, P', Q', self - other, other - self);
  }

  lemma DifferencesSmall(p: nat, self: set<nat>, other: set<nat>)
    requires forall h :: h in self + other ==> h < p
    ensures forall h :: h in (self - other) + (other - self) ==> h < p
  {
    assert forall h :: h in (self - other) + (other - self) ==> h in self + other;
  }

  lemma CrossEverywhere(p: nat, self: set<nat>, other: set<nat>, xs: seq<int>, fs: seq<int>, P: Poly, Q: Poly)
    requires IsPrime(p) && 0 < p && Sampled(p, self, other, xs, fs)
    requires Interpolates(p, xs, fs, |other| - |self|, P, Q)
    requires |self - other| + |other - self| <= |xs|
    ensures forall x: int :: Zero(p, Cross(Eval(P, x), Chi(self - other, x), Eval(Q, x), Chi(other - self, x)))
  {
    hide *;
    InterpolantUnique(p, self, other, xs, fs, P, Q);
    forall x: int ensures Zero(p, Cross(Eval(P, x), Chi(self - other, x), Eval(Q, x), Chi(other - self, x))) {
      AllZeroEval(p, CrossPoly(P, ChiPoly(self - other), Q, ChiPoly(other - self)), x);
      CrossEval(P, Q, self - other, other - self, x);
    }
  }

  lemma ReducedCrossEverywhere(p: nat, self: set<nat>, other: set<nat>, xs: seq<int>, fs: seq<int>,
                               P: Poly, Q: Poly, G: Poly, P': Poly, Q': Poly)
    requires IsPrime(p) && 0 < p && Sampled(p, self, other, xs, fs) && |xs| < p
    requires Interpolates(p, xs, fs, |other| - |self|, P, Q) && GreatestDivisor(p, P, Q, G, P', Q')
    requires |self - other| + |other - self| <= |xs|
    ensures forall x: int :: Zero(p, Cross(Eval(P', x), Chi(self - other, x), Eval(Q', x), Chi(other - self, x)))
  {
    hide *;
    GreatestIsLowest(p, P, Q, G, P', Q');
    forall x: int ensures Zero(p, Cross(Eval(P', x), Chi(self - other, x), Eval(Q', x), Chi(other - self, x))) {
      ReducedCross(p, self, other, xs, fs, P, Q, G, P', Q', x);
    }
  }

  // The greatest common divisor is at least as long as the shared cofactor.
  lemma GreatestCofactor(p: nat, P: Poly, Q: Poly, G: Poly, P': Poly, Q': Poly, a: set<nat>, b: set<nat>)
    requires IsPrime(p) && 0 < p && Monic(P) && GreatestDivisor(p, P, Q, G, P', Q')
    requires a !! b && (forall h :: h in a + b ==> h < p) && |P| + |a| == |Q| + |b| <= p
    requires forall x: int :: Zero(p, Cross(Eval(P, x), Chi(a, x), Eval(Q, x), Chi(b, x)))
    ensures |P| <= |G| + |b|
  {
    hide *;
    var Z := SharedDivisor(p, P, Q, a, b);
    ShorterThanGreatest(p, P, Q, G, P', Q', Z, ChiPoly(b), ChiPoly(a));
  }

  lemma SharedDivisor(p: nat, P: Poly, Q: Poly, a: set<nat>, b: set<nat>) returns (Z: Poly)
    requires IsPrime(p) && 0 < p && Monic(P) && a !! b && (forall h :: h in a + b ==> h < p)
    requires |P| + |a| == |Q| + |b| <= p
    requires forall x: int :: Zero(p, Cross(Eval(P, x), Chi(a, x), Eval(Q, x), Chi(b, x)))
    ensures Factored(p, P, Z, ChiPoly(b)) && Factored(p, Q, Z, ChiPoly(a)) && |P| == |Z| + |b|
  {
    hide *;
    Z := SharedCofactor(p, P, Q, a, b);
    SharedIsCommon(p, P, Q, Z, a, b);
  }

  // Without a cofactor the polynomials are those of the two sets.
  lemma DividedOut(p: nat, P: Poly, Q: Poly, a: set<nat>, b: set<nat>)
    requires IsPrime(p) && 0 < p && Monic(P) && |P| <= |b| + 1
    requires a !! b && (forall h :: h in a + b ==> h < p) && |P| + |a| == |Q| + |b| <= p
    requires forall x: int :: Zero(p, Cross(Eval(P, x), Chi(a, x), Eval(Q, x), Chi(b, x)))
    ensures forall x: int :: Equal(p, Eval(P, x), Chi(b, x)) && Equal(p, Eval(Q, x), Chi(a, x))
    ensures |P| == |b| + 1 && |Q| == |a| + 1
  {
    hide *;
    var Z := SharedCofactor(p, P, Q, a, b);
    MonicLength(Z);
    OnlyOne(p, Z, P, Q, a, b);
  }

  lemma DivisorParts(p: nat, P: Poly, Q: Poly, G: Poly, P': Poly, Q': Poly)
    requires 0 < p && GreatestDivisor(p, P, Q, G, P', Q')
    ensures Monic(P') && Monic(Q') && |P| == |G| + |P'| - 1 && |Q| == |G| + |Q'| - 1
  {
  }

  lemma MonicLength(f: Poly)
    requires Monic(f)
    ensures 1 <= |f|
  {
  }

  lemma SharedIsCommon(p: nat, P: Poly, Q: Poly, Z: Poly, a: set<nat>, b: set<nat>)
    requires 0 < p && Monic(Z) && |P| == |Z| + |b| && |Q| == |Z| + |a|
    requires forall x: int :: Equal(p, Eval(P, x), Prod(Eval(Z, x), Chi(b, x)))
    requires forall x: int :: Equal(p, Eval(Q, x), Prod(Eval(Z, x), Chi(a, x)))
    ensures Factored(p, P, Z, ChiPoly(b)) && Factored(p, Q, Z, ChiPoly(a))
  {
    hide Eval, Chi, ChiPoly, Prod, Zero;
    forall x: int ensures Eval(ChiPoly(a), x) == Chi(a, x) && Eval(ChiPoly(b), x) == Chi(b, x) {
      ChiPolyEval(a, x);
      ChiPolyEval(b, x);
    }
    ChiPolyEval(a, 0);
    ChiPolyEval(b, 0);
  }

  lemma ShorterThanGreatest(p: nat, P: Poly, Q: Poly, G: Poly, P': Poly, Q': Poly, D: Poly, A: Poly, B: Poly)
    requires 0 < p && GreatestDivisor(p, P, Q, G, P', Q') && Factored(p, P, D, A) && Factored(p, Q, D, B)
    ensures |D| <= |G|
  {
  }

  // A cofactor of degree zero is one.
  lemma OnlyOne(p: nat, Z: Poly, P: Poly, Q: Poly, a: set<nat>, b: set<nat>)
    requires 0 < p && Monic(Z) && |Z| == 1
    requires forall x: int :: Equal(p, Eval(P, x), Prod(Eval(Z, x), Chi(b, x)))
    requires forall x: int :: Equal(p, Eval(Q, x), Prod(Eval(Z, x), Chi(a, x)))
    ensures forall x: int :: Equal(p, Eval(P, x), Chi(b, x)) && Equal(p, Eval(Q, x), Chi(a, x))
  {
    assert Z == [1];
    hide Eval, Chi, Zero;
    forall x: int ensures Equal(p, Eval(P, x), Chi(b, x)) && Equal(p, Eval(Q, x), Chi(a, x)) {
      ConstantOne(x);
    }
  }

  // The list names the members of the set, each once.
  ghost predicate IsListOf(rs: seq<nat>, a: set<nat>) {
    NoRepeats(rs) && ToSet(rs) == a
  }

  // A polynomial that agrees with the characteristic polynomial of a set splits
  // into linear factors, in one way only: the factors of the set's members.
  lemma SplitsIntoMembers(p: nat, f: Poly, a: set<nat>, rs: seq<nat>)
    requires IsPrime(p) && forall h :: h in a ==> h < p
    requires forall x: int :: Equal(p, Eval(f, x), Chi(a, x))
    ensures SplitsInto(p, f, rs) <==> IsListOf(rs, a)
  {
    assert 0 < p;
    hide Eval, Chi, ListProduct, IsPrime, Zero;
    if SplitsInto(p, f, rs) {
      forall r: nat ensures r in rs <==> r in a {
        if r < p {
          ListRoots(p, rs, r);
          ChiRoots(p, a, r);
          EqualZero(p, Eval(f, r), ListProduct(rs, r));
          EqualZero(p, Eval(f, r), Chi(a, r));
        }
      }
    }
    if IsListOf(rs, a) {
      assert forall i | 0 <= i < |rs| :: rs[i] in a;
      forall x: int ensures Equal(p, Eval(f, x), ListProduct(rs, x)) {
        ListProductChi(rs, a, x);
      }
    }
  }

  // A reconciliation with enough samples: factoring the reduced numerator and
  // denominator cannot fail, and gives the two differences.
  lemma ReconciliationSucceeds(p: nat, self: set<nat>, other: set<nat>, xs: seq<int>, fs: seq<int>,
                               P: Poly, Q: Poly, G: Poly, P': Poly, Q': Poly, rs: seq<nat>)
    requires IsPrime(p) && Sampled(p, self, other, xs, fs) && |xs| < p
    requires Interpolates(p, xs, fs, |other| - |self|, P, Q) && GreatestDivisor(p, P, Q, G, P', Q')
    requires |self - other| + |other - self| <= |xs|
    requires forall h :: h in self + other ==> h < p
    ensures SplitsInto(p, P', rs) <==> IsListOf(rs, other - self)
    ensures SplitsInto(p, Q', rs) <==> IsListOf(rs, self - other)
  {
    ReducedAreDifferences(p, self, other, xs, fs, P, Q, G, P', Q');
    hide Eval, Chi, SplitsInto, IsPrime, Zero;
    assert forall h :: h in other - self ==> h in self + other;
    assert forall h :: h in self - other ==> h in self + other;
    SplitsIntoMembers(p, P', other - self, rs);
    SplitsIntoMembers(p, Q', self - other, rs);
  }

  // Then the redundancy check accepts, at every sample.
  lemma ReconciliationPasses(p: nat, self: set<nat>, other: set<nat>, xs: seq<int>, fs: seq<int>, P: Poly, Q: Poly,
                             G: Poly, P': Poly, Q': Poly, numerator: seq<nat>, denominator: seq<nat>, x: nat)
    requires IsPrime(p) && 0 < p && Sampled(p, self, other, xs, fs) && |xs| < p
    requires Interpolates(p, xs, fs, |other| - |self|, P, Q) && GreatestDivisor(p, P, Q, G, P', Q')
    requires |self - other| + |other - self| <= |xs|
    requires forall h :: h in self + other ==> h < p
    requires SplitsInto(p, P', numerator) && SplitsInto(p, Q', denominator)
    ensures Passes(p, x, Chi(self, x) % p, Chi(other, x) % p, denominator, numerator)
  {
    ReconciliationSucceeds(p, self, other, xs, fs, P, Q, G, P', Q', numerator);
    ReconciliationSucceeds(p, self, other, xs, fs, P, Q, G, P', Q', denominator);
    hide Eval, Chi, Passes, SplitsInto, IsPrime, Sampled, Interpolates, GreatestDivisor;
    TrueDifferencesPass(p, self, other, x, denominator, numerator);
  }

  // When the degree bounds have been lowered to the sizes of the differences, as
  // many samples have exactly one interpolant, and it needs no reduction.
  lemma LoweredBounds(p: nat, self: set<nat>, other: set<nat>, xs: seq<int>, fs: seq<int>, P: Poly, Q: Poly)
    requires IsPrime(p) && Sampled(p, self, other, xs, fs) && |xs| < p
    requires Interpolates(p, xs, fs, |other| - |self|, P, Q)
    requires |xs| == |self - other| + |other - self|
    requires forall h :: h in self + other ==> h < p
    ensures forall x: int :: Equal(p, Eval(P, x), Chi(other - self, x)) && Equal(p, Eval(Q, x), Chi(self - other, x))
  {
    hide *;
    PrimePositive(p);
    SampledDistinct(p, self, other, xs, fs);
    Parts(p, xs, fs, |other| - |self|, P, Q);
    SizesDiffer(self, other);
    CrossEverywhere(p, self, other, xs, fs, P, Q);
    DifferencesSmall(p, self, other);
    DividedOut(p, P, Q, self - other, other - self);
  }
}
