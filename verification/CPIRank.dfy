// The rank of the interpolation's linear system. When the samples exceed the
// differences, the system has exactly the spare degrees of freedom as dependent
// columns, and the system rebuilt without them has one solution, the differences.
module CPIRank {
  import opened PrimeField
  import opened Polynomials
  import opened Interpolation
  import opened LinearSystem
  import opened RationalSystem
  import opened CPIReconciliation
  import opened LowCoefficients

  // A combination of the columns, without the right-hand side, that vanishes at
  // every sample.
  ghost predicate InKernel(p: nat, xs: seq<int>, fs: seq<int>, mA: nat, mB: nat, c: seq<int>)
    requires 0 < p && |xs| == |fs| && |c| == mA + mB
  {
    forall i :: 0 <= i < |xs| ==> Zero(p, Dot(xs[i], fs[i], mA, mB, c, 0))
  }

  // The numerator and denominator parts of a combination.
  function Upper(c: seq<int>, mA: nat): Poly
    requires mA <= |c|
  {
    Reverse(c[..mA])
  }

  function Lower(c: seq<int>, mA: nat): Poly
    requires mA <= |c|
  {
    Reverse(c[mA..])
  }

  lemma DotParts(x: int, f: int, mA: nat, mB: nat, c: seq<int>)
    requires |c| == mA + mB
    ensures Dot(x, f, mA, mB, c, 0) == Eval(Upper(c, mA), x) - f * Eval(Lower(c, mA), x)
  {
    hide Dot, Eval, Reverse;
    DotHead(x, f, mA, mB, c, 0);
    DotTail(x, f, mA, mB, c, mA);
    assert c[0..mA] == c[..mA];
    assert c[mA..] == c[mA..mA + mB];
  }

  // U and V are Z times the polynomials of b and of a.
  ghost predicate Multiple(p: nat, U: Poly, V: Poly, Z: Poly, a: set<nat>, b: set<nat>)
    requires 0 < p
  {
    && (forall x: int :: Equal(p, Eval(U, x), Prod(Eval(Z, x), Chi(b, x))))
    && (forall x: int :: Equal(p, Eval(V, x), Prod(Eval(Z, x), Chi(a, x))))
  }

  // Every vanishing combination is a multiple of the true differences.
  lemma KernelIsMultiple(p: nat, self: set<nat>, other: set<nat>, xs: seq<int>, fs: seq<int>,
                         mA: nat, mB: nat, c: seq<int>)
    returns (Z: Poly)
    requires IsPrime(p) && 0 < p && Sampled(p, self, other, xs, fs) && |xs| == |fs| < p
    requires |c| == mA + mB <= |xs| && mA - mB == |other - self| - |self - other| && |other - self| <= mA
    requires (forall h :: h in self + other ==> h < p) && InKernel(p, xs, fs, mA, mB, c)
    ensures |Z| == mA - |other - self| && Multiple(p, Upper(c, mA), Lower(c, mA), Z, self - other, other - self)
  {
    hide *;
    PartLengths(c, mA);
    KernelCross(p, self, other, xs, fs, mA, mB, c);
    DifferencesSmall(p, self, other);
    Z := SharedCofactor(p, Upper(c, mA), Lower(c, mA), self - other, other - self);
    MakesMultiple(p, Upper(c, mA), Lower(c, mA), Z, self - other, other - self);
  }

  lemma PartLengths(c: seq<int>, mA: nat)
    requires mA <= |c|
    ensures |Upper(c, mA)| == mA && |Lower(c, mA)| == |c| - mA
  {
  }

  lemma MakesMultiple(p: nat, U: Poly, V: Poly, Z: Poly, a: set<nat>, b: set<nat>)
    requires 0 < p
    requires forall x: int :: Equal(p, Eval(U, x), Prod(Eval(Z, x), Chi(b, x)))
    requires forall x: int :: Equal(p, Eval(V, x), Prod(Eval(Z, x), Chi(a, x)))
    ensures Multiple(p, U, V, Z, a, b)
  {
  }

  lemma KernelCross(p: nat, self: set<nat>, other: set<nat>, xs: seq<int>, fs: seq<int>, mA: nat, mB: nat, c: seq<int>)
    requires IsPrime(p) && 0 < p && Sampled(p, self, other, xs, fs) && |xs| == |fs|
    requires |c| == mA + mB <= |xs| && mA - mB == |other - self| - |self - other| && |other - self| <= mA
    requires InKernel(p, xs, fs, mA, mB, c)
    ensures forall x: int ::
      Zero(p, Cross(Eval(Upper(c, mA), x), Chi(self - other, x), Eval(Lower(c, mA), x), Chi(other - self, x)))
  {
    hide *;
    var (U, V) := (Upper(c, mA), Lower(c, mA));
    var d := CrossPoly(U, ChiPoly(self - other), V, ChiPoly(other - self));
    PartLengths(c, mA);
    CrossLength(U, self - other, V, other - self);
    SampledDistinct(p, self, other, xs, fs);
    forall i | 0 <= i < |xs| ensures Zero(p, Eval(d, xs[i])) {
      SampledAt(p, self, other, xs, fs, i);
      KernelAt(p, xs, fs, mA, mB, c, i);
      CrossVanishesAt(p, self, other, xs[i], fs[i], U, V);
    }
    ManyRoots(p, d, xs);
    forall x: int ensures Zero(p, Cross(Eval(U, x), Chi(self - other, x), Eval(V, x), Chi(other - self, x))) {
      AllZeroEval(p, d, x);
      CrossEval(U, V, self - other, other - self, x);
    }
  }

  lemma SampledAt(p: nat, self: set<nat>, other: set<nat>, xs: seq<int>, fs: seq<int>, i: nat)
    requires 0 < p && Sampled(p, self, other, xs, fs) && i < |xs|
    ensures |xs| == |fs| && !Zero(p, Chi(self, xs[i])) && Equal(p, fs[i] * Chi(self, xs[i]), Chi(other, xs[i]))
  {
  }

  lemma KernelAt(p: nat, xs: seq<int>, fs: seq<int>, mA: nat, mB: nat, c: seq<int>, i: nat)
    requires 0 < p && |xs| == |fs| && |c| == mA + mB && InKernel(p, xs, fs, mA, mB, c) && i < |xs|
    ensures Equal(p, Eval(Upper(c, mA), xs[i]), fs[i] * Eval(Lower(c, mA), xs[i]))
  {
    DotParts(xs[i], fs[i], mA, mB, c);
    hide Dot, Eval, Reverse;
  }

  // Every multiple of the true differences is a vanishing combination.
  lemma MultipleInKernel(p: nat, self: set<nat>, other: set<nat>, xs: seq<int>, fs: seq<int>,
                         mA: nat, mB: nat, c: seq<int>, Z: Poly)
    requires IsPrime(p) && 0 < p && Sampled(p, self, other, xs, fs) && |xs| == |fs| && |c| == mA + mB
    requires Multiple(p, Upper(c, mA), Lower(c, mA), Z, self - other, other - self)
    ensures InKernel(p, xs, fs, mA, mB, c)
  {
    hide Dot, Eval, Reverse, Chi, Sampled, IsPrime, Upper, Lower, Prod, Zero;
    forall i | 0 <= i < |xs| ensures Zero(p, Dot(xs[i], fs[i], mA, mB, c, 0)) {
      SampledAt(p, self, other, xs, fs, i);
      DotParts(xs[i], fs[i], mA, mB, c);
      MultipleAt(p, self, other, xs[i], fs[i], Eval(Z, xs[i]), Eval(Upper(c, mA), xs[i]), Eval(Lower(c, mA), xs[i]));
    }
  }

  lemma MultipleAt(p: nat, self: set<nat>, other: set<nat>, x: int, f: int, z: int, u: int, v: int)
    requires IsPrime(p) && 0 < p && !Zero(p, Chi(self, x)) && Equal(p, f * Chi(self, x), Chi(other, x))
    requires Equal(p, u, Prod(z, Chi(other - self, x))) && Equal(p, v, Prod(z, Chi(self - other, x)))
    ensures Zero(p, u - f * v)
  {
    var (a, b, c) := (self - other, other - self, self * other);
    assert self == a + c && other == b + c;
    hide *;
    ChiParts(a, c, x);
    ChiParts(b, c, x);
    RatioAlgebra(p, Chi(self, x), Chi(other, x), Chi(a, x), Chi(b, x), Chi(c, x), f, z,
                 Prod(z, Chi(a, x)), Prod(z, Chi(b, x)));
    Replaced(p, u, v, f, Prod(z, Chi(b, x)), Prod(z, Chi(a, x)));
  }

  lemma Replaced(p: nat, u: int, v: int, f: int, u': int, v': int)
    requires 0 < p && Equal(p, u, u') && Equal(p, v, v') && Equal(p, u', f * v')
    ensures Zero(p, u - f * v)
  {
    hide Zero;
    ZeroProduct(p, v - v', f);
    Factor(f, v, v');
    Chained(p, u, u', f * v, f * v');
  }

  lemma Chained(p: nat, u: int, u': int, w: int, w': int)
    requires 0 < p && Equal(p, u, u') && Equal(p, w, w') && Equal(p, u', w')
    ensures Zero(p, u - w)
  {
    hide Zero;
    ZeroSum(p, u - u', u' - w');
    ZeroSum(p, w - w', u - w');
  }

  // Such combinations are those that vanish in every row of the system.
  lemma KernelVanishes(p: nat, xs: seq<int>, fs: seq<int>, mA: nat, mB: nat, c: seq<int>)
    requires 0 < p && |xs| == |fs| && |c| == mA + mB
    ensures InKernel(p, xs, fs, mA, mB, c) <==> Vanishing(p, SystemRows(xs, fs, mA, mB), c)
  {
    hide Zero, Dot, RowDot, SystemRow;
    forall i | 0 <= i < |xs|
      ensures RowDot(SystemRows(xs, fs, mA, mB)[i], c, 0) == Dot(xs[i], fs[i], mA, mB, c, 0)
    {
      RowDotIsDot(xs[i], fs[i], mA, mB, c, 0);
    }
  }

  lemma {:induction false} ReverseTwice(c: seq<int>)
    ensures Reverse(Reverse(c)) == c
  {
    var r := Reverse(c);
    assert forall i :: 0 <= i < |c| ==> Reverse(r)[i] == r[|c| - 1 - i] == c[i];
  }

  lemma LowEnds(p: nat, c: seq<int>, mA: nat, i: nat)
    requires 0 < p && mA <= |c| && LowAt(p, Lower(c, mA), i)
    ensures i < |c| && EndsAt(p, c, |c| - 1 - i)
  {
    hide Zero;
    var v := Lower(c, mA);
    assert forall l :: mA <= l < |c| ==> c[l] == c[mA..][l - mA] == v[|c| - 1 - l];
  }

  lemma EndsOnce(p: nat, c: seq<int>, j: nat, j': nat)
    requires 0 < p && EndsAt(p, c, j) && EndsAt(p, c, j')
    ensures j == j'
  {
  }

  lemma EndsSomewhere(p: nat, c: seq<int>, mA: nat, j: nat)
    requires 0 < p && mA <= |c| && EndsAt(p, c, j)
    ensures !AllZero(p, Upper(c, mA)) || !AllZero(p, Lower(c, mA))
  {
    if j < mA {
      assert Upper(c, mA)[mA - 1 - j] == c[..mA][j] == c[j];
    } else {
      assert Lower(c, mA)[|c| - 1 - j] == c[mA..][j - mA] == c[j];
    }
  }

  // A nonzero multiple of the differences ends at one of the last columns.
  lemma MultipleEnds(p: nat, c: seq<int>, mA: nat, Z: Poly, a: set<nat>, b: set<nat>, j: nat)
    requires IsPrime(p) && 0 < p && mA <= |c| < p && EndsAt(p, c, j) && (forall h :: h in a ==> h < p)
    requires |c| - mA == |Z| + |a| && Multiple(p, Upper(c, mA), Lower(c, mA), Z, a, b)
    ensures |c| - LowDegree(a) - |Z| <= j < |c| - LowDegree(a)
  {
    hide *;
    PartLengths(c, mA);
    if AllZero(p, Z) {
      ZeroMultipleParts(p, Upper(c, mA), Lower(c, mA), Z, a, b);
      EndsSomewhere(p, c, mA, j);
      assert false;
    }
    var z := LowExists(p, Z);
    var e := LowDegree(a);
    ChiLow(p, a);
    MulLow(p, Z, ChiPoly(a), z, e);
    ProductCoefficients(p, Lower(c, mA), Z, a, b, Upper(c, mA));
    LowTransfers(p, Mul(Z, ChiPoly(a)), Lower(c, mA), z + e);
    LowEnds(p, c, mA, z + e);
    EndsOnce(p, c, j, |c| - 1 - (z + e));
    LowBelow(p, Z, z);
  }

  lemma LowBelow(p: nat, Z: Poly, z: nat)
    requires 0 < p && LowAt(p, Z, z)
    ensures z < |Z|
  {
  }

  lemma ZeroMultipleParts(p: nat, U: Poly, V: Poly, Z: Poly, a: set<nat>, b: set<nat>)
    requires IsPrime(p) && 0 < p && |U| <= p && |V| <= p && AllZero(p, Z) && Multiple(p, U, V, Z, a, b)
    ensures AllZero(p, U) && AllZero(p, V)
  {
    hide Eval, Chi, AllZero, IsPrime, Zero;
    forall x: int ensures Zero(p, Eval(U, x)) && Zero(p, Eval(V, x)) {
      AllZeroEval(p, Z, x);
      ZeroProduct(p, Eval(Z, x), Chi(a, x));
      ZeroProduct(p, Eval(Z, x), Chi(b, x));
      EqualZero(p, Eval(U, x), Prod(Eval(Z, x), Chi(b, x)));
      EqualZero(p, Eval(V, x), Prod(Eval(Z, x), Chi(a, x)));
    }
    VanishesEverywhere(p, U);
    VanishesEverywhere(p, V);
  }

  lemma ProductCoefficients(p: nat, V: Poly, Z: Poly, a: set<nat>, b: set<nat>, U: Poly)
    requires IsPrime(p) && 0 < p && Z != [] && |V| == |Z| + |a| <= p && Multiple(p, U, V, Z, a, b)
    ensures |Mul(Z, ChiPoly(a))| == |V| && forall i :: 0 <= i < |V| ==> Equal(p, V[i], Mul(Z, ChiPoly(a))[i])
  {
    hide Eval, Chi, ChiPoly, Mul, IsPrime, Zero, Prod;
    forall x: int ensures Equal(p, Eval(V, x), Eval(Mul(Z, ChiPoly(a)), x)) {
      MulParts(Z, a, x);
    }
    SameCoefficients(p, V, Mul(Z, ChiPoly(a)));
  }

  lemma LowTransfers(p: nat, f: Poly, g: Poly, k: nat)
    requires 0 < p && LowAt(p, f, k) && |f| == |g| && forall i :: 0 <= i < |f| ==> Equal(p, g[i], f[i])
    ensures LowAt(p, g, k)
  {
    forall i | 0 <= i <= k ensures Zero(p, g[i]) <==> Zero(p, f[i]) {
      EqualZero(p, g[i], f[i]);
    }
  }

  // The multiple by x^z, as a combination of the columns.
  function Unit(z: nat, k: nat): Poly {
    seq(k, i => if i == z then 1 else 0)
  }

  lemma UnitLow(p: nat, z: nat, k: nat)
    requires 1 < p && z < k
    ensures LowAt(p, Unit(z, k), z)
  {
    assert 1 % p == 1;
    ZeroMultiple(p, 0);
  }

  lemma UnitCombination(p: nat, self: set<nat>, other: set<nat>, xs: seq<int>, fs: seq<int>, mA: nat, mB: nat, z: nat)
    returns (c: seq<int>)
    requires IsPrime(p) && 0 < p && Sampled(p, self, other, xs, fs) && |xs| == |fs|
    requires |other - self| <= mA && |self - other| + (mA - |other - self|) == mB && z < mA - |other - self|
    requires (forall h :: h in self + other ==> h < p) && mA + mB < p
    ensures |c| == mA + mB && InKernel(p, xs, fs, mA, mB, c)
    ensures EndsAt(p, c, mA + mB - 1 - z - LowDegree(self - other))
  {
    hide *;
    var Z := Unit(z, mA - |other - self|);
    UnitLength(z, mA - |other - self|);
    var (U, V) := (Mul(Z, ChiPoly(other - self)), Mul(Z, ChiPoly(self - other)));
    c := Reverse(U) + Reverse(V);
    Assembled(U, V, c);
    ProductsMultiple(p, U, V, Z, self - other, other - self);
    MultipleInKernel(p, self, other, xs, fs, mA, mB, c, Z);
    AtLeastTwo(p);
    UnitLow(p, z, mA - |other - self|);
    DifferencesSmall(p, self, other);
    ChiLow(p, self - other);
    MulLow(p, Z, ChiPoly(self - other), z, LowDegree(self - other));
    LowEnds(p, c, mA, z + LowDegree(self - other));
  }

  lemma AtLeastTwo(p: nat)
    requires IsPrime(p)
    ensures 1 < p
  {
  }

  lemma UnitLength(z: nat, k: nat)
    ensures |Unit(z, k)| == k
  {
  }

  lemma Assembled(U: Poly, V: Poly, c: seq<int>)
    requires c == Reverse(U) + Reverse(V)
    ensures |c| == |U| + |V| && Upper(c, |U|) == U && Lower(c, |U|) == V
  {
    ReverseTwice(U);
    ReverseTwice(V);
    assert c[..|U|] == Reverse(U) && c[|U|..] == Reverse(V);
  }

  lemma ProductsMultiple(p: nat, U: Poly, V: Poly, Z: Poly, a: set<nat>, b: set<nat>)
    requires 0 < p && U == Mul(Z, ChiPoly(b)) && V == Mul(Z, ChiPoly(a))
    ensures Multiple(p, U, V, Z, a, b)
  {
    hide Eval, Chi, ChiPoly, Mul, Zero;
    forall x: int
      ensures Equal(p, Eval(U, x), Prod(Eval(Z, x), Chi(b, x)))
      ensures Equal(p, Eval(V, x), Prod(Eval(Z, x), Chi(a, x)))
    {
      MulParts(Z, a, x);
      MulParts(Z, b, x);
      EqualItself(p, Eval(U, x));
      EqualItself(p, Eval(V, x));
    }
  }

  // Which columns are dependent: as many as the bounds exceed the differences.
  lemma DependentColumns(p: nat, self: set<nat>, other: set<nat>, xs: seq<int>, fs: seq<int>, mA: nat, mB: nat, j: nat)
    requires IsPrime(p) && 0 < p && Sampled(p, self, other, xs, fs) && |xs| == |fs| < p && mA + mB <= |xs|
    requires |other - self| <= mA && |self - other| + (mA - |other - self|) == mB
    requires forall h :: h in self + other ==> h < p
    ensures var end := mA + mB - LowDegree(self - other);
      DependentColumn(p, SystemRows(xs, fs, mA, mB), mA + mB, j) <==> end - (mA - |other - self|) <= j < end
  {
    hide *;
    var end := mA + mB - LowDegree(self - other);
    DifferencesSmall(p, self, other);
    if end - (mA - |other - self|) <= j < end {
      var c := UnitCombination(p, self, other, xs, fs, mA, mB, end - 1 - j);
      IsDependent(p, xs, fs, mA, mB, c, j);
    }
    if DependentColumn(p, SystemRows(xs, fs, mA, mB), mA + mB, j) {
      var c := Combination(p, xs, fs, mA, mB, j);
      var Z := KernelIsMultiple(p, self, other, xs, fs, mA, mB, c);
      MultipleEnds(p, c, mA, Z, self - other, other - self, j);
    }
  }

  lemma IsDependent(p: nat, xs: seq<int>, fs: seq<int>, mA: nat, mB: nat, c: seq<int>, j: nat)
    requires 0 < p && |xs| == |fs| && |c| == mA + mB && InKernel(p, xs, fs, mA, mB, c) && EndsAt(p, c, j)
    ensures DependentColumn(p, SystemRows(xs, fs, mA, mB), mA + mB, j)
  {
    KernelVanishes(p, xs, fs, mA, mB, c);
  }

  lemma Combination(p: nat, xs: seq<int>, fs: seq<int>, mA: nat, mB: nat, j: nat) returns (c: seq<int>)
    requires 0 < p && |xs| == |fs| && DependentColumn(p, SystemRows(xs, fs, mA, mB), mA + mB, j)
    ensures |c| == mA + mB && InKernel(p, xs, fs, mA, mB, c) && EndsAt(p, c, j)
  {
    c :| |c| == mA + mB && Vanishing(p, SystemRows(xs, fs, mA, mB), c) && EndsAt(p, c, j);
    KernelVanishes(p, xs, fs, mA, mB, c);
  }

  function Interval(lo: nat, hi: nat): (s: set<nat>)
    requires lo <= hi
    ensures |s| == hi - lo && forall j: nat :: j in s <==> lo <= j < hi
    decreases hi
  {
    if lo == hi then {} else Interval(lo, hi - 1) + {hi - 1}
  }

  lemma PivotCount(p: nat, M: Matrix, w: nat, lo: nat, hi: nat)
    requires 0 < p && Wide(M, w) && lo <= hi <= w
    requires forall j: nat :: j < w ==> (DependentColumn(p, M, w, j) <==> lo <= j < hi)
    ensures Rank(p, M, w) == w - (hi - lo)
  {
    hide DependentColumn;
    var pivots := set j: nat | j < w && !DependentColumn(p, M, w, j);
    assert pivots == Interval(0, lo) + Interval(hi, w);
  }

  // The rank falls short of the number of columns by exactly what the degree
  // bounds exceed the differences.
  lemma RankDeficiency(p: nat, self: set<nat>, other: set<nat>, xs: seq<int>, fs: seq<int>, mA: nat, mB: nat)
    requires IsPrime(p) && 0 < p && Sampled(p, self, other, xs, fs) && |xs| == |fs| < p && mA + mB <= |xs|
    requires |other - self| <= mA && |self - other| + (mA - |other - self|) == mB
    requires forall h :: h in self + other ==> h < p
    ensures mA + mB - Rank(p, SystemRows(xs, fs, mA, mB), mA + mB) == mA - |other - self| == mB - |self - other|
  {
    hide *;
    var (k, n, M) := (mA - |other - self|, mA + mB, SystemRows(xs, fs, mA, mB));
    var end := n - LowDegree(self - other);
    LowDegreeSmall(self - other);
    forall j: nat | j < n ensures DependentColumn(p, M, n, j) <==> end - k <= j < end {
      DependentColumns(p, self, other, xs, fs, mA, mB, j);
    }
    PivotCount(p, M, n, end - k, end);
  }

  lemma LowDegreeSmall(a: set<nat>)
    ensures LowDegree(a) <= |a|
  {
  }
}
