// The lowest nonzero coefficient of a product, and polynomials determined by
// their values.
module LowCoefficients {
  import opened PrimeField
  import opened Polynomials
  import opened Interpolation
  import opened SquareFreeness

  // Coefficient k is the first that is nonzero in the field.
  ghost predicate LowAt(p: nat, f: Poly, k: nat)
    requires 0 < p
  {
    k < |f| && !Zero(p, f[k]) && forall i :: 0 <= i < k ==> Zero(p, f[i])
  }

  lemma {:induction false} LowExists(p: nat, f: Poly) returns (k: nat)
    requires 0 < p && !AllZero(p, f)
    ensures LowAt(p, f, k)
  {
    if Zero(p, f[0]) {
      assert forall i :: 0 < i < |f| ==> f[i] == f[1..][i - 1];
      k := LowExists(p, f[1..]);
      k := k + 1;
    } else {
      k := 0;
    }
  }

  function Coefficient(f: Poly, i: int): int {
    if 0 <= i < |f| then f[i] else 0
  }

  lemma {:induction false} AddCoefficient(f: Poly, g: Poly, i: nat)
    ensures Coefficient(AddPoly(f, g), i) == Coefficient(f, i) + Coefficient(g, i)
  {
    if f != [] && g != [] && i > 0 {
      AddCoefficient(f[1..], g[1..], i - 1);
    }
  }

  // A product's coefficient from those of its first factor's head and tail.
  lemma MulCoefficient(f: Poly, g: Poly, i: nat)
    requires f != [] && g != []
    ensures Coefficient(Mul(f, g), i) == f[0] * Coefficient(g, i) + Coefficient(Mul(f[1..], g), i - 1)
  {
    var rest := if |f| == 1 then [] else [0] + Mul(f[1..], g);
    AddCoefficient(Scale(f[0], g), rest, i);
    if i < |g| {
      ScaleAt(f[0], g, i);
    }
  }

  lemma {:induction false} MulZeros(p: nat, f: Poly, g: Poly, e: nat, i: nat)
    requires 0 < p && LowAt(p, g, e) && i < e
    ensures Zero(p, Coefficient(Mul(f, g), i))
    decreases |f|
  {
    hide Mul;
    ZeroMultiple(p, 0);
    if f != [] {
      MulCoefficient(f, g, i);
      ZeroProduct(p, g[i], f[0]);
      if i > 0 {
        MulZeros(p, f[1..], g, e, i - 1);
      }
      ZeroSum(p, f[0] * g[i], Coefficient(Mul(f[1..], g), i - 1));
    } else {
      assert Mul(f, g) == [];
    }
  }

  // The lowest coefficients multiply.
  lemma {:induction false} MulLow(p: nat, f: Poly, g: Poly, k: nat, e: nat)
    requires IsPrime(p) && 0 < p && LowAt(p, f, k) && LowAt(p, g, e)
    ensures LowAt(p, Mul(f, g), k + e)
    decreases |f|
  {
    hide Mul, IsPrime, Zero;
    if k == 0 {
      forall i: nat | i <= e ensures Zero(p, Coefficient(Mul(f, g), i)) <==> i < e {
        MulCoefficient(f, g, i);
        TailZero(p, f[1..], g, e, i);
        NoZeroDivisors(p, f[0], g[i]);
        ZeroSum(p, Coefficient(Mul(f[1..], g), i - 1), f[0] * g[i]);
      }
    } else {
      assert LowAt(p, f[1..], k - 1);
      MulLow(p, f[1..], g, k - 1, e);
      forall i: nat | i <= k + e ensures Zero(p, Coefficient(Mul(f, g), i)) <==> i < k + e {
        MulCoefficient(f, g, i);
        ZeroProduct(p, f[0], Coefficient(g, i));
        if i == 0 {
          TailZero(p, f[1..], g, e, i);
        }
        ZeroSum(p, f[0] * Coefficient(g, i), Coefficient(Mul(f[1..], g), i - 1));
      }
    }
    assert forall i: nat :: i <= k + e ==> Coefficient(Mul(f, g), i) == Mul(f, g)[i];
  }

  lemma TailZero(p: nat, f: Poly, g: Poly, e: nat, i: nat)
    requires 0 < p && LowAt(p, g, e) && i <= e
    ensures Zero(p, Coefficient(Mul(f, g), i - 1))
  {
    hide Mul;
    if i == 0 {
      ZeroMultiple(p, 0);
    } else {
      MulZeros(p, f, g, e, i - 1);
    }
  }

  // A polynomial of degree below the field size that vanishes everywhere is zero.
  lemma VanishesEverywhere(p: nat, f: Poly)
    requires IsPrime(p) && 0 < p && |f| <= p && forall x: int :: Zero(p, Eval(f, x))
    ensures AllZero(p, f)
  {
    hide *;
    var xs := FieldElements(p);
    ManyRoots(p, f, xs);
  }

  // Equal values everywhere make equal coefficients.
  lemma SameCoefficients(p: nat, f: Poly, g: Poly)
    requires IsPrime(p) && 0 < p && |f| == |g| <= p && forall x: int :: Equal(p, Eval(f, x), Eval(g, x))
    ensures forall i :: 0 <= i < |f| ==> Equal(p, f[i], g[i])
  {
    hide *;
    SubLength(f, g);
    forall x: int ensures Zero(p, Eval(Sub(f, g), x)) {
      SubEval(f, g, x);
      EqualIsZero(p, Eval(f, x), Eval(g, x));
    }
    VanishesEverywhere(p, Sub(f, g));
    forall i | 0 <= i < |f| ensures Equal(p, f[i], g[i]) {
      SubAt(f, g, i);
      AllZeroAt(p, Sub(f, g), i);
      EqualIsZero(p, f[i], g[i]);
    }
  }

  lemma EqualIsZero(p: nat, a: int, b: int)
    requires 0 < p
    ensures Equal(p, a, b) <==> Zero(p, a - b)
  {
  }

  lemma SubLength(f: Poly, g: Poly)
    requires |f| == |g|
    ensures |Sub(f, g)| == |f|
  {
  }

  lemma SubAt(f: Poly, g: Poly, i: nat)
    requires i < |f| == |g|
    ensures |Sub(f, g)| == |f| && Sub(f, g)[i] == f[i] - g[i]
  {
    AddAt(f, Scale(-1, g), i);
    ScaleAt(-1, g, i);
  }

  // The lowest coefficient of a characteristic polynomial: the constant one,
  // unless 0 is a member.
  function LowDegree(a: set<nat>): nat {
    if 0 in a then 1 else 0
  }

  lemma ChiLow(p: nat, a: set<nat>)
    requires IsPrime(p) && 0 < p && (forall h :: h in a ==> h < p) && |a| < p
    ensures LowAt(p, ChiPoly(a), LowDegree(a))
  {
    var f := ChiPoly(a);
    hide *;
    ChiPolyEval(a, 0);
    ChiRoots(p, a, 0);
    ConstantTerm(f);
    if 0 in a {
      forall x: int ensures Equal(p, Eval(f, x), Chi(a, x)) {
        ChiPolyEval(a, x);
        EqualItself(p, Chi(a, x));
      }
      SimpleRoots(p, f, a, 0);
      LinearTerm(f);
    }
    LowFromTerms(p, f, a);
  }

  lemma EqualItself(p: nat, a: int)
    requires 0 < p
    ensures Equal(p, a, a)
  {
    ZeroMultiple(p, 0);
  }

  lemma ConstantTerm(f: Poly)
    requires f != []
    ensures Eval(f, 0) == f[0]
  {
  }

  lemma LinearTerm(f: Poly)
    requires |f| >= 2
    ensures Eval(Derivative(f), 0) == f[1]
  {
    assert Weighted(f[1..], 1)[0] == f[1];
    ConstantTerm(Weighted(f[1..], 1));
  }

  lemma LowFromTerms(p: nat, f: Poly, a: set<nat>)
    requires 0 < p && |f| == |a| + 1 && (Zero(p, f[0]) <==> 0 in a) && (0 in a ==> |f| >= 2 && !Zero(p, f[1]))
    ensures LowAt(p, f, LowDegree(a))
  {
  }
}
