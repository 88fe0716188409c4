// What reconciliation uses of the number theory library: elimination, greatest
// common divisors, exact division and factoring over a prime field.
module NumberLibrary {
  import opened PrimeField
  import opened Polynomials
  import opened Interpolation
  import opened CPIReconciliation
  import opened LinearSystem
  import opened SquareFreeness

  datatype Library = Library(
    gauss: (Matrix, nat) -> (Matrix, nat),
    gcd: (Poly, Poly) -> Poly,
    div: (Poly, Poly) -> Poly,
    factor: Poly -> seq<Poly>)
  {
    // Elimination over the first w columns gives the rank, and reduced rows when
    // every column has a pivot.
    ghost predicate Eliminates(p: nat)
      requires 0 < p
    {
      forall M: Matrix, w: nat :: Wide(M, w) ==>
        && gauss(M, w).1 == Rank(p, M, w)
        && (gauss(M, w).1 == w ==> Reduced(p, M, gauss(M, w).0, w))
    }

    // For polynomials determined by their values, gcd is the greatest common divisor.
    ghost predicate FindsDivisor(p: nat)
      requires 0 < p
    {
      && (forall P, Q :: Monic(P) && Monic(Q) && |P| <= p && |Q| <= p ==>
            IsGreatest(p, P, Q, gcd(P, Q)))
      && (forall f :: Monic(f) && |f| <= p ==> IsGreatestCommon(p, f, gcd(f, Derivative(f))))
    }

    ghost predicate Divides(p: nat)
      requires 0 < p
    {
      forall P, D :: IsDivisor(p, P, D) && |P| <= p ==> Factored(p, P, D, div(P, D))
    }

    // A polynomial without multiple factors is split into irreducible ones.
    ghost predicate Factors(p: nat)
      requires 0 < p
    {
      forall f :: Monic(f) && |f| <= p && gcd(f, Derivative(f)) == [1] ==> SplitInto(p, f, factor(f))
    }

    ghost predicate Correct(p: nat)
      requires 0 < p
    {
      Eliminates(p) && FindsDivisor(p) && Divides(p) && Factors(p)
    }
  }

  ghost predicate IsGreatest(p: nat, P: Poly, Q: Poly, G: Poly)
    requires 0 < p
  {
    exists P', Q' :: GreatestDivisor(p, P, Q, G, P', Q')
  }

  // D divides f and its derivative.
  ghost predicate IsCommon(p: nat, f: Poly, D: Poly)
    requires 0 < p
  {
    exists A, B :: CommonWithDerivative(p, f, D, A, B)
  }

  // No longer polynomial divides both with quotients of the right lengths.
  ghost predicate IsGreatestCommon(p: nat, f: Poly, D: Poly)
    requires 0 < p
  {
    IsCommon(p, f, D) && forall D' :: IsExactCommon(p, f, D') ==> |D'| <= |D|
  }

  ghost predicate IsExactCommon(p: nat, f: Poly, D: Poly)
    requires 0 < p
  {
    exists A, B :: CommonWithDerivative(p, f, D, A, B) && |D| + |B| == |f|
  }

  ghost predicate IsDivisor(p: nat, P: Poly, D: Poly)
    requires 0 < p
  {
    exists A :: Factored(p, P, D, A)
  }

  // f is the product of these monic factors, of which only the linear ones have
  // a root.
  ghost predicate SplitInto(p: nat, f: Poly, factors: seq<Poly>)
    requires 0 < p
    decreases |factors|
  {
    if factors == [] then f == [1]
    else
      && Irreducible(p, factors[0])
      && exists rest :: Factored(p, f, factors[0], rest) && SplitInto(p, rest, factors[1..])
  }

  ghost predicate Irreducible(p: nat, f: Poly)
    requires 0 < p
  {
    Monic(f) && 2 <= |f| && (2 < |f| ==> forall x: int :: !Zero(p, Eval(f, x)))
  }
}
