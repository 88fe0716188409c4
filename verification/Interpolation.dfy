// Why interpolating the ratio of two characteristic polynomials recovers the
// differences of two sets.
module Interpolation {
  import opened Modular
  import opened PrimeField
  import opened Polynomials

  // The characteristic polynomial of a set, evaluated at x: the product of
  // x - h over its members.
  ghost function Chi(a: set<nat>, x: int): int
    decreases a
  {
    if a == {} then 1 else var h :| h in a; (x - h) * Chi(a - {h}, x)
  }

  lemma {:induction false} ChiTake(a: set<nat>, h: nat, x: int)
    requires h in a
    ensures Chi(a, x) == (x - h) * Chi(a - {h}, x)
    decreases a
  {
    var k :| k in a && Chi(a, x) == (x - k) * Chi(a - {k}, x);
    if k != h {
      ChiTake(a - {k}, h, x);
      ChiTake(a - {h}, k, x);
      assert a - {k} - {h} == a - {h} - {k};
      var rest := Chi(a - {h} - {k}, x);
      Regroup(x - k, x - h, rest);
    }
  }

  lemma {:induction false} ChiUnion(a: set<nat>, b: set<nat>, x: int)
    requires a !! b
    ensures Chi(a + b, x) == Chi(a, x) * Chi(b, x)
    decreases a
  {
    if a == {} {
      assert a + b == b;
    } else {
      var h :| h in a;
      ChiTake(a, h, x);
      ChiTake(a + b, h, x);
      assert a + b - {h} == (a - {h}) + b;
      ChiUnion(a - {h}, b, x);
      Regroup(x - h, Chi(a - {h}, x), Chi(b, x));
    }
  }

  // It vanishes exactly at the members of the set.
  lemma {:induction false} ChiZero(p: nat, a: set<nat>, x: int)
    requires IsPrime(p)
    ensures Zero(p, Chi(a, x)) <==> exists h :: h in a && Equal(p, x, h)
    decreases a
  {
    if a == {} {
      assert 1 % p == 1;
    } else {
      assert 0 < p;
      hide IsPrime, Zero, Chi;
      var h :| h in a;
      ChiTake(a, h, x);
      ChiZero(p, a - {h}, x);
      NoZeroDivisors(p, x - h, Chi(a - {h}, x));
      assert Zero(p, x - h) <==> Equal(p, x, h);
      assert a == (a - {h}) + {h};
    }
  }

  lemma ReducedEqual(p: nat, r: nat, h: nat)
    requires r < p && h < p
    ensures Equal(p, r, h) <==> r == h
  {
  }

  // Over reduced members and arguments the roots are the members.
  lemma ChiRoots(p: nat, a: set<nat>, r: nat)
    requires IsPrime(p) && r < p && forall h :: h in a ==> h < p
    ensures Zero(p, Chi(a, r)) <==> r in a
  {
    ChiZero(p, a, r);
    forall h | h in a ensures Equal(p, r, h) <==> r == h {
      ReducedEqual(p, r, h);
    }
  }

  predicate Monic(f: Poly) {
    f != [] && f[|f| - 1] == 1
  }

  function Linear(h: int): Poly {
    [-h, 1]
  }

  ghost function ChiPoly(a: set<nat>): Poly
    ensures |ChiPoly(a)| == |a| + 1
    decreases a
  {
    if a == {} then [1] else var h :| h in a; Mul(Linear(h), ChiPoly(a - {h}))
  }

  lemma {:induction false} ChiPolyEval(a: set<nat>, x: int)
    ensures Monic(ChiPoly(a)) && Eval(ChiPoly(a), x) == Chi(a, x)
    decreases a
  {
    hide Mul, Eval, Chi;
    if a == {} {
      ConstantOne(x);
    } else {
      var h :| h in a && ChiPoly(a) == Mul(Linear(h), ChiPoly(a - {h}));
      ChiPolyEval(a - {h}, x);
      MulEval(Linear(h), ChiPoly(a - {h}), x);
      MulTop(Linear(h), ChiPoly(a - {h}));
      LinearEval(h, x);
      ChiTake(a, h, x);
    }
  }

  lemma ConstantOne(x: int)
    ensures Eval([1], x) == 1 == Chi({}, x)
  {
  }

  lemma LinearEval(h: int, x: int)
    ensures Eval(Linear(h), x) == x - h
  {
    assert Linear(h)[1..] == [1] && [1][1..] == [];
    assert Eval([1], x) == 1;
  }

  function Sub(f: Poly, g: Poly): Poly {
    AddPoly(f, Scale(-1, g))
  }

  lemma SubEval(f: Poly, g: Poly, x: int)
    ensures Eval(Sub(f, g), x) == Eval(f, x) - Eval(g, x)
  {
    AddEval(f, Scale(-1, g), x);
    ScaleEval(-1, g, x);
  }

  lemma {:induction false} AddAt(f: Poly, g: Poly, i: nat)
    requires i < |f| == |g|
    ensures AddPoly(f, g)[i] == f[i] + g[i]
  {
    if i > 0 {
      AddAt(f[1..], g[1..], i - 1);
    }
  }

  // Coefficients that are zero in the field do not change values.
  lemma {:induction false} DropZeros(p: nat, f: Poly, k: nat, x: int)
    requires 0 < p && k <= |f| && AllZero(p, f[k..])
    ensures Equal(p, Eval(f, x), Eval(f[..k], x))
  {
    hide Zero;
    if k == 0 {
      assert f[0..] == f && f[..0] == [];
      AllZeroEval(p, f, x);
    } else {
      assert f[1..][k - 1..] == f[k..] && f[..k][1..] == f[1..][..k - 1];
      DropZeros(p, f[1..], k - 1, x);
      HornerStep(p, f[0], x, Eval(f[1..], x), Eval(f[..k][1..], x));
    }
  }

  lemma HornerStep(p: nat, c: int, x: int, u: int, v: int)
    requires 0 < p && Equal(p, u, v)
    ensures Equal(p, c + x * u, c + x * v)
  {
    ZeroProduct(p, u - v, x);
    Factor(x, u, v);
  }

  // A polynomial of length n + 1 whose top coefficient vanishes, with n distinct
  // roots, is zero.
  lemma TopVanishes(p: nat, f: Poly, xs: seq<int>)
    requires IsPrime(p) && f != [] && |f| - 1 <= |xs| && f[|f| - 1] == 0
    requires forall i, j :: 0 <= i < j < |xs| ==> !Equal(p, xs[j], xs[i])
    requires forall i :: 0 <= i < |xs| ==> Zero(p, Eval(f, xs[i]))
    ensures AllZero(p, f)
  {
    var n := |f| - 1;
    ZeroMultiple(p, 0);
    assert AllZero(p, f[n..]);
    hide IsPrime;
    forall i | 0 <= i < |xs| ensures Zero(p, Eval(f[..n], xs[i])) {
      DropZeros(p, f, n, xs[i]);
      ZeroSum(p, Eval(f, xs[i]), -Eval(f[..n], xs[i]));
      Negative(p, Eval(f[..n], xs[i]));
    }
    ManyRoots(p, f[..n], xs);
    assert f == f[..n] + [f[n]];
  }

  // Two sets' sizes differ by as much as their differences do.
  lemma SizesDiffer(a: set<nat>, b: set<nat>)
    ensures |b| - |a| == |b - a| - |a - b|
  {
  }

  // The sampled ratios: other's evaluations divided by self's, at points where
  // self's do not vanish.
  ghost predicate Sampled(p: nat, self: set<nat>, other: set<nat>, xs: seq<int>, fs: seq<int>)
    requires 0 < p
  {
    && |xs| == |fs|
    && (forall i, j :: 0 <= i < j < |xs| ==> !Equal(p, xs[j], xs[i]))
    && (forall i :: 0 <= i < |xs| ==>
          !Zero(p, Chi(self, xs[i])) && Equal(p, fs[i] * Chi(self, xs[i]), Chi(other, xs[i])))
  }

  // Monic polynomials within the degree bounds whose ratio matches the samples.
  ghost predicate Interpolates(p: nat, xs: seq<int>, fs: seq<int>, delta: int, P: Poly, Q: Poly)
    requires 0 < p && |xs| == |fs|
  {
    && Monic(P) && Monic(Q) && |P| - |Q| == delta
    && 2 * (|P| - 1) <= |xs| + delta && 2 * (|Q| - 1) <= |xs| - delta
    && (forall i :: 0 <= i < |xs| ==> Equal(p, Eval(P, xs[i]), fs[i] * Eval(Q, xs[i])))
  }

  // At a sample the interpolant cross-multiplies with the true differences.
  lemma CrossAtSample(p: nat, self: set<nat>, other: set<nat>, x: int, f: int, u: int, v: int)
    requires IsPrime(p) && !Zero(p, Chi(self, x)) && Equal(p, f * Chi(self, x), Chi(other, x)) && Equal(p, u, f * v)
    ensures Equal(p, u * Chi(self - other, x), v * Chi(other - self, x))
  {
    var s, o, c := Chi(self - other, x), Chi(other - self, x), Chi(self * other, x);
    ChiUnion(self - other, self * other, x);
    ChiUnion(other - self, self * other, x);
    assert self == (self - other) + (self * other) && other == (other - self) + (self * other);
    NoZeroDivisors(p, s, c);
    CrossAlgebra(p, s, o, c, f, u, v);
    CancelFactor(p, c, u * s, v * o);
  }

  lemma CrossAlgebra(p: nat, s: int, o: int, c: int, f: int, u: int, v: int)
    requires 0 < p && Equal(p, f * (s * c), o * c) && Equal(p, u, f * v)
    ensures Equal(p, c * (u * s), c * (v * o))
  {
    ZeroProduct(p, u - f * v, c * s);
    ZeroProduct(p, f * (s * c) - o * c, v);
    Expand(s, o, c, f, u, v);
    hide Zero;
    ZeroSum(p, (u - f * v) * (c * s), (f * (s * c) - o * c) * v);
  }

  lemma Expand(s: int, o: int, c: int, f: int, u: int, v: int)
    ensures c * (u * s) - c * (v * o) == (u - f * v) * (c * s) + (f * (s * c) - o * c) * v
  {
  }

  // Uniqueness: when the differences are no larger than the number of samples,
  // every interpolant P / Q is the true ratio: P times the polynomial of
  // self - other equals Q times the polynomial of other - self.
  lemma InterpolantUnique(p: nat, self: set<nat>, other: set<nat>, xs: seq<int>, fs: seq<int>, P: Poly, Q: Poly)
    requires IsPrime(p) && Sampled(p, self, other, xs, fs)
    requires Interpolates(p, xs, fs, |other| - |self|, P, Q)
    requires |self - other| + |other - self| <= |xs|
    ensures AllZero(p, CrossPoly(P, ChiPoly(self - other), Q, ChiPoly(other - self)))
  {
    hide *;
    PrimePositive(p);
    SampledDistinct(p, self, other, xs, fs);
    Parts(p, xs, fs, |other| - |self|, P, Q);
    SizesDiffer(self, other);
    CrossShape(self - other, other - self, |xs|, P, Q);
    CrossVanishes(p, self, other, xs, fs, P, Q);
    TopVanishes(p, CrossPoly(P, ChiPoly(self - other), Q, ChiPoly(other - self)), xs);
  }

  // The leading terms of the cross products cancel, and the degree left is
  // within the number of samples.
  lemma CrossShape(a: set<nat>, b: set<nat>, n: nat, P: Poly, Q: Poly)
    requires Monic(P) && Monic(Q) && |P| - |Q| == |b| - |a| && 2 * (|P| - 1) <= n + |b| - |a| && |a| + |b| <= n
    ensures var d := CrossPoly(P, ChiPoly(a), Q, ChiPoly(b));
      d != [] && |d| - 1 <= n && d[|d| - 1] == 0
  {
    hide CrossPoly, Eval, ChiPoly, Chi;
    ChiPolyEval(a, 0);
    ChiPolyEval(b, 0);
    TopCancels(P, ChiPoly(a), Q, ChiPoly(b));
  }

  lemma SampledDistinct(p: nat, self: set<nat>, other: set<nat>, xs: seq<int>, fs: seq<int>)
    requires 0 < p && Sampled(p, self, other, xs, fs)
    ensures |xs| == |fs| && forall i, j :: 0 <= i < j < |xs| ==> !Equal(p, xs[j], xs[i])
  {
  }

  lemma Parts(p: nat, xs: seq<int>, fs: seq<int>, delta: int, P: Poly, Q: Poly)
    requires 0 < p && |xs| == |fs| && Interpolates(p, xs, fs, delta, P, Q)
    ensures Monic(P) && Monic(Q) && |P| - |Q| == delta && 2 * (|P| - 1) <= |xs| + delta
  {
  }

  lemma CrossVanishes(p: nat, self: set<nat>, other: set<nat>, xs: seq<int>, fs: seq<int>, P: Poly, Q: Poly)
    requires IsPrime(p) && Sampled(p, self, other, xs, fs)
    requires Interpolates(p, xs, fs, |other| - |self|, P, Q)
    ensures var d := CrossPoly(P, ChiPoly(self - other), Q, ChiPoly(other - self));
      forall i :: 0 <= i < |xs| ==> Zero(p, Eval(d, xs[i]))
  {
    var d := CrossPoly(P, ChiPoly(self - other), Q, ChiPoly(other - self));
    assert 0 < p;
    hide CrossPoly, Cross, Eval, ChiPoly, Chi, IsPrime, Zero;
    forall i | 0 <= i < |xs| ensures Zero(p, Eval(d, xs[i])) {
      CrossVanishesAt(p, self, other, xs[i], fs[i], P, Q);
    }
  }

  lemma CrossVanishesAt(p: nat, self: set<nat>, other: set<nat>, x: int, f: int, P: Poly, Q: Poly)
    requires IsPrime(p) && !Zero(p, Chi(self, x)) && Equal(p, f * Chi(self, x), Chi(other, x))
    requires Equal(p, Eval(P, x), f * Eval(Q, x))
    ensures Zero(p, Eval(CrossPoly(P, ChiPoly(self - other), Q, ChiPoly(other - self)), x))
  {
    assert 0 < p;
    hide CrossPoly, Cross, Eval, ChiPoly, Chi, IsPrime, Zero;
    CrossAtSample(p, self, other, x, f, Eval(P, x), Eval(Q, x));
    CrossEval(P, Q, self - other, other - self, x);
    CrossIs(Eval(P, x), Chi(self - other, x), Eval(Q, x), Chi(other - self, x));
  }

  lemma CrossIs(u: int, s: int, v: int, o: int)
    ensures Cross(u, s, v, o) == u * s - v * o
  {
  }

  lemma TopCancels(P: Poly, cs: Poly, Q: Poly, co: Poly)
    requires Monic(P) && Monic(Q) && cs != [] && co != [] && |P| + |cs| == |Q| + |co|
    requires cs[|cs| - 1] == 1 && co[|co| - 1] == 1
    ensures var d := CrossPoly(P, cs, Q, co);
      |d| == |P| + |cs| - 1 && d[|d| - 1] == 0
  {
    hide Mul, AddPoly, Scale;
    MulTop(P, cs);
    MulTop(Q, co);
    var n := |P| + |cs| - 2;
    ScaleAt(-1, Mul(Q, co), n);
    AddAt(Mul(P, cs), Scale(-1, Mul(Q, co)), n);
  }

  // Products kept as names, so that the solver does not multiply out the
  // polynomial values they are applied to.
  function Prod(u: int, v: int): int {
    u * v
  }

  function Cross(u: int, s: int, v: int, o: int): int {
    u * s - v * o
  }

  function CrossPoly(P: Poly, a: Poly, Q: Poly, b: Poly): Poly
    requires a != [] && b != []
  {
    Sub(Mul(P, a), Mul(Q, b))
  }

  lemma CrossPolyEval(P: Poly, a: Poly, Q: Poly, b: Poly, x: int)
    requires a != [] && b != []
    ensures Eval(CrossPoly(P, a, Q, b), x) == Cross(Eval(P, x), Eval(a, x), Eval(Q, x), Eval(b, x))
  {
    hide Mul, AddPoly, Scale, Sub;
    SubEval(Mul(P, a), Mul(Q, b), x);
    MulEval(P, a, x);
    MulEval(Q, b, x);
  }

  lemma CrossEval(P: Poly, Q: Poly, a: set<nat>, b: set<nat>, x: int)
    ensures Eval(CrossPoly(P, ChiPoly(a), Q, ChiPoly(b)), x) == Cross(Eval(P, x), Chi(a, x), Eval(Q, x), Chi(b, x))
    ensures Monic(ChiPoly(a)) && Monic(ChiPoly(b))
  {
    hide CrossPoly, Cross, Eval, Chi, ChiPoly;
    ChiPolyEval(a, x);
    ChiPolyEval(b, x);
    CrossPolyEval(P, ChiPoly(a), Q, ChiPoly(b), x);
  }

  // A monic factor can be cancelled: if g * e vanishes everywhere on the field,
  // and their degrees are small enough, e is zero.
  lemma MonicCancel(p: nat, g: Poly, e: Poly)
    requires IsPrime(p) && Monic(g) && |g| + |e| <= p + 1
    requires forall x: int :: Zero(p, Prod(Eval(g, x), Eval(e, x)))
    ensures AllZero(p, e)
  {
    if !AllZero(p, e) {
      var t := TopNonzero(p, e);
      TopMustVanish(p, g, e, t);
    }
  }

  lemma TopMustVanish(p: nat, g: Poly, e: Poly, t: nat)
    requires IsPrime(p) && Monic(g) && |g| + |e| <= p + 1
    requires forall x: int :: Zero(p, Prod(Eval(g, x), Eval(e, x)))
    requires t < |e| && AllZero(p, e[t + 1..])
    ensures Zero(p, e[t])
  {
    hide *;
    MonicOverPrime(p, g);
    var e1 := e[..t + 1];
    var m := Mul(g, e1);
    var xs := FieldElements(p);
    forall i | 0 <= i < p ensures Zero(p, Eval(m, xs[i])) {
      ProductVanishes(p, g, e, t + 1, xs[i]);
    }
    ManyRoots(p, m, xs);
    MulTop(g, e1);
    assert m[|m| - 1] == e[t];
    AllZeroAt(p, m, |m| - 1);
  }

  lemma MonicOverPrime(p: nat, g: Poly)
    requires IsPrime(p) && Monic(g)
    ensures 0 < p && g != [] && g[|g| - 1] == 1
  {
  }

  lemma AllZeroAt(p: nat, f: Poly, i: nat)
    requires 0 < p && AllZero(p, f) && i < |f|
    ensures Zero(p, f[i])
  {
  }

  lemma FieldElements(p: nat) returns (xs: seq<int>)
    requires 0 < p
    ensures |xs| == p && forall i, j :: 0 <= i < j < |xs| ==> !Equal(p, xs[j], xs[i])
  {
    xs := seq(p, i => i as int);
    forall i, j | 0 <= i < j < p ensures !Equal(p, xs[j], xs[i]) {
      ReducedEqual(p, j, i);
    }
  }

  lemma ProductVanishes(p: nat, g: Poly, e: Poly, k: nat, x: int)
    requires 0 < p && k <= |e| && 0 < k && AllZero(p, e[k..]) && Zero(p, Prod(Eval(g, x), Eval(e, x)))
    ensures Zero(p, Eval(Mul(g, e[..k]), x))
  {
    hide Zero, Eval, Mul;
    MulEval(g, e[..k], x);
    DropZeros(p, e, k, x);
    HornerStep(p, 0, Eval(g, x), Eval(e, x), Eval(e[..k], x));
    EqualZero(p, Eval(g, x) * Eval(e, x), Eval(g, x) * Eval(e[..k], x));
  }

  lemma EqualZero(p: nat, a: int, b: int)
    requires 0 < p && Equal(p, a, b)
    ensures Zero(p, a) <==> Zero(p, b)
  {
    hide Zero;
    ZeroSum(p, a - b, b);
  }

  lemma {:induction false} TopNonzero(p: nat, e: Poly) returns (t: nat)
    requires 0 < p && !AllZero(p, e)
    ensures t < |e| && !Zero(p, e[t]) && AllZero(p, e[t + 1..])
  {
    t := |e| - 1;
    if Zero(p, e[t]) {
      t := TopNonzero(p, e[..t]);
      assert forall i :: t < i < |e| ==> Zero(p, e[i]) by {
        assert forall i :: t < i < |e| - 1 ==> e[i] == e[..|e| - 1][t + 1..][i - t - 1];
      }
    }
  }

  // The interpolant in lowest terms: P = G P', Q = G Q' over the field, G monic,
  // and P' and Q' without a common root.
  ghost predicate LowestTerms(p: nat, P: Poly, Q: Poly, G: Poly, P': Poly, Q': Poly)
    requires 0 < p
  {
    && Monic(G) && P' != [] && Q' != [] && |P| == |G| + |P'| - 1 && |Q| == |G| + |Q'| - 1
    && (forall x: int :: Equal(p, Eval(P, x), Prod(Eval(G, x), Eval(P', x))))
    && (forall x: int :: Equal(p, Eval(Q, x), Prod(Eval(G, x), Eval(Q', x))))
    && (forall x: int :: !(Zero(p, Eval(P', x)) && Zero(p, Eval(Q', x))))
  }

  // After dividing out the greatest common divisor the cross products still agree.
  lemma ReducedCross(p: nat, self: set<nat>, other: set<nat>, xs: seq<int>, fs: seq<int>,
                     P: Poly, Q: Poly, G: Poly, P': Poly, Q': Poly, x: int)
    requires IsPrime(p) && Sampled(p, self, other, xs, fs) && |xs| < p
    requires Interpolates(p, xs, fs, |other| - |self|, P, Q) && LowestTerms(p, P, Q, G, P', Q')
    requires |self - other| + |other - self| <= |xs|
    ensures Zero(p, Cross(Eval(P', x), Chi(self - other, x), Eval(Q', x), Chi(other - self, x)))
  {
    var a, b := self - other, other - self;
    var e := CrossPoly(P', ChiPoly(a), Q', ChiPoly(b));
    InterpolantUnique(p, self, other, xs, fs, P, Q);
    Parts(p, xs, fs, |other| - |self|, P, Q);
    assert 0 < p;
    hide Prod, Cross, CrossPoly, Eval, ChiPoly, Chi, IsPrime, Zero, Interpolates, Sampled, AllZero;
    SizesDiffer(self, other);
    forall y: int ensures Zero(p, Prod(Eval(G, y), Eval(e, y))) {
      ReducedCrossAt(p, ChiPoly(a), ChiPoly(b), P, Q, P', Q', Eval(G, y), y);
    }
    LengthFits(P', a, Q', b);
    MonicCancel(p, G, e);
    AllZeroEval(p, e, x);
    CrossEval(P', Q', a, b, x);
  }

  lemma ReducedCrossAt(p: nat, a: Poly, b: Poly, P: Poly, Q: Poly, P': Poly, Q': Poly, g: int, y: int)
    requires 0 < p && a != [] && b != [] && AllZero(p, CrossPoly(P, a, Q, b))
    requires Equal(p, Eval(P, y), Prod(g, Eval(P', y))) && Equal(p, Eval(Q, y), Prod(g, Eval(Q', y)))
    ensures Zero(p, Prod(g, Eval(CrossPoly(P', a, Q', b), y)))
  {
    hide Prod, Cross, CrossPoly, Eval, Zero, AllZero;
    AllZeroEval(p, CrossPoly(P, a, Q, b), y);
    CrossPolyEval(P, a, Q, b, y);
    CrossPolyEval(P', a, Q', b, y);
    GcdAlgebra(p, g, Eval(P, y), Eval(Q, y), Eval(P', y), Eval(Q', y), Eval(a, y), Eval(b, y),
               Eval(CrossPoly(P, a, Q, b), y), Eval(CrossPoly(P', a, Q', b), y));
  }

  lemma LengthFits(P: Poly, a: set<nat>, Q: Poly, b: set<nat>)
    requires P != [] && Q != []
    ensures |CrossPoly(P, ChiPoly(a), Q, ChiPoly(b))| == if |P| + |a| < |Q| + |b| then |Q| + |b| else |P| + |a|
  {
  }

  lemma GcdAlgebra(p: nat, g: int, u: int, v: int, u': int, v': int, s: int, o: int, d: int, e: int)
    requires 0 < p && Equal(p, u, Prod(g, u')) && Equal(p, v, Prod(g, v'))
    requires d == Cross(u, s, v, o) && Zero(p, d) && e == Cross(u', s, v', o)
    ensures Zero(p, Prod(g, e))
  {
    ZeroProduct(p, u - g * u', s);
    ZeroProduct(p, v - g * v', o);
    GcdExpand(g, u, v, u', v', s, o);
    hide Zero;
    var x, y := (u - g * u') * s, (v - g * v') * o;
    ZeroSum(p, y, g * e - y);
    ZeroSum(p, x, d - x);
  }

  lemma GcdExpand(g: int, u: int, v: int, u': int, v': int, s: int, o: int)
    ensures g * (u' * s - v' * o) - (v - g * v') * o == u * s - v * o - (u - g * u') * s
  {
  }

  // The product of x - r over a list.
  function ListProduct(rs: seq<nat>, x: int): int {
    if rs == [] then 1 else (x - rs[0]) * ListProduct(rs[1..], x)
  }

  lemma {:induction false} ListRoots(p: nat, rs: seq<nat>, r: nat)
    requires IsPrime(p) && r < p && forall i :: 0 <= i < |rs| ==> rs[i] < p
    ensures Zero(p, ListProduct(rs, r)) <==> r in rs
  {
    if rs == [] {
      assert 1 % p == 1;
    } else {
      var h, rest := rs[0], rs[1..];
      assert ListProduct(rs, r) == (r - h) * ListProduct(rest, r);
      assert r in rs <==> r == h || r in rest;
      assert Equal(p, r, h) <==> Zero(p, r - h);
      hide ListProduct, IsPrime, Zero, Equal;
      ListRoots(p, rest, r);
      NoZeroDivisors(p, r - h, ListProduct(rest, r));
      ReducedEqual(p, r, h);
    }
  }

  // The polynomial splits into distinct linear factors with these roots.
  ghost predicate SplitsInto(p: nat, f: Poly, rs: seq<nat>)
    requires 0 < p
  {
    && (forall i :: 0 <= i < |rs| ==> rs[i] < p)
    && (forall i, j :: 0 <= i < j < |rs| ==> rs[i] != rs[j])
    && (forall x: int :: Equal(p, Eval(f, x), ListProduct(rs, x)))
  }

  // The system has a solution to find: the true differences, each times the same
  // monic polynomial, interpolate the samples.
  lemma DifferencesInterpolate(p: nat, self: set<nat>, other: set<nat>, xs: seq<int>, fs: seq<int>, Z: Poly)
    requires IsPrime(p) && Sampled(p, self, other, xs, fs) && Monic(Z)
    requires |self - other| + |other - self| + 2 * (|Z| - 1) <= |xs|
    ensures Interpolates(p, xs, fs, |other| - |self|, Mul(Z, ChiPoly(other - self)), Mul(Z, ChiPoly(self - other)))
  {
    assert 0 < p;
    hide Mul, Eval, ChiPoly, Chi, IsPrime, Zero, Monic;
    SizesDiffer(self, other);
    MonicProduct(Z, other - self);
    MonicProduct(Z, self - other);
    RatiosAgree(p, self, other, xs, fs, Z);
  }

  lemma MonicProduct(Z: Poly, a: set<nat>)
    requires Monic(Z)
    ensures Monic(Mul(Z, ChiPoly(a))) && |Mul(Z, ChiPoly(a))| == |Z| + |a|
  {
    ChiPolyEval(a, 0);
    MulTop(Z, ChiPoly(a));
  }

  lemma RatiosAgree(p: nat, self: set<nat>, other: set<nat>, xs: seq<int>, fs: seq<int>, Z: Poly)
    requires IsPrime(p) && Sampled(p, self, other, xs, fs)
    ensures forall i :: 0 <= i < |xs| ==>
      Equal(p, Eval(Mul(Z, ChiPoly(other - self)), xs[i]), fs[i] * Eval(Mul(Z, ChiPoly(self - other)), xs[i]))
  {
    assert 0 < p;
    hide Mul, Eval, ChiPoly, Chi, IsPrime, Zero;
    forall i | 0 <= i < |xs|
      ensures Equal(p, Eval(Mul(Z, ChiPoly(other - self)), xs[i]), fs[i] * Eval(Mul(Z, ChiPoly(self - other)), xs[i]))
    {
      TrueRatio(p, self, other, xs[i], fs[i], Z);
    }
  }

  lemma TrueRatio(p: nat, self: set<nat>, other: set<nat>, x: int, f: int, Z: Poly)
    requires IsPrime(p) && 0 < p && !Zero(p, Chi(self, x)) && Equal(p, f * Chi(self, x), Chi(other, x))
    ensures Equal(p, Eval(Mul(Z, ChiPoly(other - self)), x), f * Eval(Mul(Z, ChiPoly(self - other)), x))
  {
    var a, b, c := self - other, other - self, self * other;
    assert self == a + c && other == b + c;
    hide *;
    ChiParts(a, c, x);
    ChiParts(b, c, x);
    MulParts(Z, a, x);
    MulParts(Z, b, x);
    RatioAlgebra(p, Chi(self, x), Chi(other, x), Chi(a, x), Chi(b, x), Chi(c, x), f, Eval(Z, x),
                 Eval(Mul(Z, ChiPoly(a)), x), Eval(Mul(Z, ChiPoly(b)), x));
  }

  lemma ChiParts(a: set<nat>, c: set<nat>, x: int)
    requires a !! c
    ensures Chi(a + c, x) == Prod(Chi(a, x), Chi(c, x))
  {
    hide Chi;
    ChiUnion(a, c, x);
  }

  lemma MulParts(Z: Poly, a: set<nat>, x: int)
    ensures Eval(Mul(Z, ChiPoly(a)), x) == Prod(Eval(Z, x), Chi(a, x))
  {
    hide Eval, Chi, ChiPoly, Mul;
    ChiPolyEval(a, x);
    MulEval(Z, ChiPoly(a), x);
  }

  lemma RatioAlgebra(p: nat, self: int, other: int, s: int, o: int, c: int, f: int, z: int, u: int, v: int)
    requires IsPrime(p) && 0 < p && self == Prod(s, c) && other == Prod(o, c) && u == Prod(z, s) && v == Prod(z, o)
    requires !Zero(p, self) && Equal(p, f * self, other)
    ensures Equal(p, v, f * u)
  {
    NoZeroDivisors(p, s, c);
    assert f * (s * c) == c * (f * s) by { Regroup(s, c, f); Regroup(f, s, c); }
    assert o * c == c * o;
    CancelFactor(p, c, f * s, o);
    ZeroProduct(p, f * s - o, z);
    Factor(z, f * s, o);
    Regroup(f, z, s);
    Negative(p, z * o - f * (z * s));
  }
}
