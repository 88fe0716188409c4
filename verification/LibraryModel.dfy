// A library that keeps all its promises exists for every prime.
module LibraryModel {
  import opened PrimeField
  import opened Polynomials
  import opened Interpolation
  import opened CPIReconciliation
  import opened SquareFreeness
  import opened LinearSystem
  import opened Eliminations
  import opened NumberLibrary

  ghost function Gauss(p: nat, M: Matrix, w: nat): (Matrix, nat)
    requires 0 < p
  {
    if !Wide(M, w) then ([], 0)
    else if exists R :: Reduced(p, M, R, w) then
      var R :| Reduced(p, M, R, w);
      (R, Rank(p, M, w))
    else ([], Rank(p, M, w))
  }

  lemma GaussReduces(p: nat, M: Matrix, w: nat)
    requires IsPrime(p) && 0 < p && Wide(M, w) && Rank(p, M, w) == w
    ensures Reduced(p, M, Gauss(p, M, w).0, w)
  {
    FullRankIndependent(p, M, w);
    hide Rank, Reduced, Independent;
    var R := CanReduce(p, M, w);
  }

  // Some common divisor has length n.
  ghost predicate Shared(p: nat, P: Poly, Q: Poly, n: nat)
    requires 0 < p
  {
    exists D, A, B :: |D| == n && Factored(p, P, D, A) && Factored(p, Q, D, B)
  }

  lemma SharedBounded(p: nat, P: Poly, Q: Poly, n: nat)
    requires 0 < p && Shared(p, P, Q, n)
    ensures n <= |P|
  {
  }

  lemma {:induction false} LongestShared(p: nat, P: Poly, Q: Poly, n: nat) returns (m: nat)
    requires 0 < p && Shared(p, P, Q, n)
    ensures Shared(p, P, Q, m) && forall k: nat :: Shared(p, P, Q, k) ==> k <= m
    decreases |P| - n
  {
    SharedBounded(p, P, Q, n);
    hide Shared;
    m := n;
    if k: nat :| n < k && Shared(p, P, Q, k) {
      SharedBounded(p, P, Q, k);
      m := LongestShared(p, P, Q, k);
    }
  }

  lemma GreatestExists(p: nat, P: Poly, Q: Poly) returns (G: Poly)
    requires 0 < p && Monic(P) && Monic(Q)
    ensures IsGreatest(p, P, Q, G)
  {
    OneDivides(p, P);
    OneDivides(p, Q);
    hide Factored;
    assert |[1]| == 1;
    assert Shared(p, P, Q, 1);
    var m := LongestShared(p, P, Q, 1);
    var D, A, B :| |D| == m && Factored(p, P, D, A) && Factored(p, Q, D, B);
    G := D;
    forall D', A', B' | Factored(p, P, D', A') && Factored(p, Q, D', B') ensures |D'| <= |G| {
      assert Shared(p, P, Q, |D'|);
    }
    assert GreatestDivisor(p, P, Q, G, A, B);
  }

  ghost function Gcd(p: nat, P: Poly, Q: Poly): Poly
    requires 0 < p
  {
    if Monic(P) && Monic(Q) && exists G :: IsGreatest(p, P, Q, G) then
      var G :| IsGreatest(p, P, Q, G);
      G
    else if Monic(P) && Q == Derivative(P) && exists G :: IsGreatestCommon(p, P, G) then
      var G :| IsGreatestCommon(p, P, G);
      G
    else [1]
  }

  lemma GcdWorks(p: nat, P: Poly, Q: Poly)
    requires 0 < p && Monic(P) && Monic(Q)
    ensures IsGreatest(p, P, Q, Gcd(p, P, Q))
  {
    var _ := GreatestExists(p, P, Q);
  }

  // A common divisor with the derivative of length n, with quotients of the right
  // lengths.
  ghost predicate Common(p: nat, f: Poly, n: nat)
    requires 0 < p
  {
    exists D :: |D| == n && IsExactCommon(p, f, D)
  }

  lemma CommonBounded(p: nat, f: Poly, n: nat)
    requires 0 < p && Common(p, f, n)
    ensures n <= |f|
  {
  }

  lemma {:induction false} LongestCommon(p: nat, f: Poly, n: nat) returns (m: nat)
    requires 0 < p && Common(p, f, n)
    ensures Common(p, f, m) && forall k: nat :: Common(p, f, k) ==> k <= m
    decreases |f| - n
  {
    CommonBounded(p, f, n);
    hide Common;
    m := n;
    if k: nat :| n < k && Common(p, f, k) {
      CommonBounded(p, f, k);
      m := LongestCommon(p, f, k);
    }
  }

  lemma OneIsCommon(p: nat, f: Poly)
    requires 0 < p && Monic(f)
    ensures CommonWithDerivative(p, f, [1], f, Derivative(f)) && IsExactCommon(p, f, [1])
  {
    var d := Derivative(f);
    DerivativeLength(f);
    OneDivides(p, f);
    ZeroMultiple(p, 0);
    hide Zero, Derivative;
    forall x: int ensures Equal(p, Eval(d, x), Prod(Eval([1], x), Eval(d, x))) {
      ConstantOne(x);
    }
    assert CommonWithDerivative(p, f, [1], f, d);
  }

  lemma GreatestCommonExists(p: nat, f: Poly) returns (G: Poly)
    requires 0 < p && Monic(f)
    ensures IsGreatestCommon(p, f, G)
  {
    OneIsCommon(p, f);
    hide CommonWithDerivative;
    assert |[1]| == 1;
    assert Common(p, f, 1);
    var m := LongestCommon(p, f, 1);
    G :| |G| == m && IsExactCommon(p, f, G);
    forall D | IsExactCommon(p, f, D) ensures |D| <= |G| {
      assert Common(p, f, |D|);
    }
  }

  // A monic derivative is the constant one, which has no longer divisor.
  lemma MonicDerivative(p: nat, f: Poly, G: Poly)
    requires IsPrime(p) && 0 < p && Monic(f) && Monic(Derivative(f)) && IsGreatest(p, f, Derivative(f), G)
    ensures IsGreatestCommon(p, f, G)
  {
    var d := Derivative(f);
    DerivativeOne(f);
    var A, B :| GreatestDivisor(p, f, d, G, A, B);
    assert CommonWithDerivative(p, f, G, A, B);
    DivisorParts(p, f, d, G, A, B);
    hide GreatestDivisor, Derivative;
    forall D | IsExactCommon(p, f, D) ensures |D| <= |G| {
      var A', B' :| CommonWithDerivative(p, f, D, A', B') && |D| + |B'| == |f|;
      if |D| == 2 {
        assert B' == [];
        NothingIsOne(p, D, B');
        assert false;
      }
    }
  }

  lemma NothingIsOne(p: nat, D: Poly, B: Poly)
    requires IsPrime(p) && 0 < p && B == []
    ensures !Equal(p, Eval([1], 0), Prod(Eval(D, 0), Eval(B, 0)))
  {
    ConstantOne(0);
    assert 1 % p == 1;
    assert Eval(B, 0) == 0;
  }

  lemma DerivativeOne(f: Poly)
    requires Monic(f) && Monic(Derivative(f))
    ensures |f| == 2 && Derivative(f) == [1]
  {
    DerivativeLength(f);
    WeightedTop(f[1..], 1);
    assert |f| == 2 ==> Derivative(f) == [1 * f[1]];
  }

  lemma {:induction false} WeightedTop(f: Poly, k: int)
    requires f != []
    ensures |Weighted(f, k)| == |f| && Weighted(f, k)[|f| - 1] == (k + |f| - 1) * f[|f| - 1]
  {
    if |f| > 1 {
      WeightedTop(f[1..], k + 1);
    }
  }

  lemma GcdWithDerivative(p: nat, f: Poly)
    requires IsPrime(p) && 0 < p && Monic(f)
    ensures IsGreatestCommon(p, f, Gcd(p, f, Derivative(f)))
  {
    hide IsGreatestCommon, IsGreatest, Derivative;
    if Monic(Derivative(f)) {
      GcdWorks(p, f, Derivative(f));
      MonicDerivative(p, f, Gcd(p, f, Derivative(f)));
    } else {
      var _ := GreatestCommonExists(p, f);
    }
  }

  ghost function Divided(p: nat, P: Poly, D: Poly): Poly
    requires 0 < p
  {
    if IsDivisor(p, P, D) then
      var A :| Factored(p, P, D, A);
      A
    else []
  }

  // Takes out one root after the other.
  ghost function Split(p: nat, f: Poly): seq<Poly>
    requires 0 < p
    decreases |f|
  {
    if |f| <= 1 then []
    else if exists r: int :: Zero(p, Eval(f, r)) then
      var r: int :| Zero(p, Eval(f, r));
      [Linear(r)] + Split(p, Quotient(f, r))
    else [f]
  }

  lemma {:induction false} SplitWorks(p: nat, f: Poly)
    requires IsPrime(p) && 0 < p && Monic(f)
    ensures SplitInto(p, f, Split(p, f))
    decreases |f|
  {
    if |f| == 1 {
      assert f == [1];
    } else if exists r: int :: Zero(p, Eval(f, r)) {
      var r: int :| Zero(p, Eval(f, r)) && Split(p, f) == [Linear(r)] + Split(p, Quotient(f, r));
      RootFactor(p, f, r);
      SplitWorks(p, Quotient(f, r));
      RootFactored(p, f, r);
      assert Split(p, f)[1..] == Split(p, Quotient(f, r));
    } else {
      OneDivides(p, f);
      AllOfIt(p, f);
      assert [f][1..] == [];
    }
  }

  lemma RootFactored(p: nat, f: Poly, r: int)
    requires IsPrime(p) && 0 < p && Monic(f) && Zero(p, Eval(f, r))
    ensures Irreducible(p, Linear(r)) && Factored(p, f, Linear(r), Quotient(f, r))
  {
    RootIsFactor(p, f, r);
  }

  lemma AllOfIt(p: nat, f: Poly)
    requires 0 < p && Monic(f)
    ensures Factored(p, f, f, [1])
  {
    ZeroMultiple(p, 0);
    hide Zero;
    forall x: int ensures Equal(p, Eval(f, x), Prod(Eval(f, x), Eval([1], x))) {
      ConstantOne(x);
    }
  }

  ghost function Model(p: nat): Library
    requires 0 < p
  {
    Library((M, w) => Gauss(p, M, w), (P, Q) => Gcd(p, P, Q), (P, D) => Divided(p, P, D), f => Split(p, f))
  }

  lemma ModelEliminates(p: nat)
    requires IsPrime(p) && 0 < p
    ensures Model(p).Eliminates(p)
  {
    hide IsPrime, Rank, Reduced, Wide;
    forall M: Matrix, w: nat | Wide(M, w)
      ensures Gauss(p, M, w).1 == Rank(p, M, w)
      ensures Gauss(p, M, w).1 == w ==> Reduced(p, M, Gauss(p, M, w).0, w)
    {
      if Rank(p, M, w) == w {
        GaussReduces(p, M, w);
      }
    }
  }

  lemma ModelFindsDivisor(p: nat)
    requires IsPrime(p) && 0 < p
    ensures Model(p).FindsDivisor(p)
  {
    hide IsPrime, Gcd, IsGreatest, IsGreatestCommon, Monic, Derivative;
    forall P, Q | Monic(P) && Monic(Q) ensures IsGreatest(p, P, Q, Gcd(p, P, Q)) {
      GcdWorks(p, P, Q);
    }
    forall f | Monic(f) ensures IsGreatestCommon(p, f, Gcd(p, f, Derivative(f))) {
      GcdWithDerivative(p, f);
    }
  }

  lemma ModelDivides(p: nat)
    requires 0 < p
    ensures Model(p).Divides(p)
  {
    hide Factored;
  }

  lemma ModelFactors(p: nat)
    requires IsPrime(p) && 0 < p
    ensures Model(p).Factors(p)
  {
    hide IsPrime, Split, SplitInto, Monic, Gcd, Derivative;
    forall f | Monic(f) ensures SplitInto(p, f, Split(p, f)) {
      SplitWorks(p, f);
    }
  }

  // The promises can be kept.
  lemma LibraryExists(p: nat) returns (lib: Library)
    requires IsPrime(p) && 0 < p
    ensures lib.Correct(p)
  {
    lib := Model(p);
    ModelEliminates(p);
    ModelFindsDivisor(p);
    ModelDivides(p);
    ModelFactors(p);
    hide Model, Library.Eliminates, Library.FindsDivisor, Library.Divides, Library.Factors;
  }
}
