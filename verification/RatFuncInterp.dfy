// Interpolating the ratio of two characteristic polynomials: the whole procedure,
// from the samples to the coefficients of numerator and denominator.
module RatFuncInterps {
  import opened PrimeField
  import opened Polynomials
  import opened Interpolation
  import opened LinearSystem
  import opened RationalSystem
  import opened CPIRank
  import opened NumberLibrary
  import opened Wrappers

  // P and Q are the characteristic polynomials of the two differences.
  ghost predicate AreDifferences(p: nat, P: Poly, Q: Poly, self: set<nat>, other: set<nat>)
    requires 0 < p
  {
    && Monic(P) && Monic(Q) && |P| == |other - self| + 1 && |Q| == |self - other| + 1
    && (forall x: int :: Equal(p, Eval(P, x), Chi(other - self, x)))
    && (forall x: int :: Equal(p, Eval(Q, x), Chi(self - other, x)))
  }

  // There are at least as many samples as differences.
  predicate Covered(self: set<nat>, other: set<nat>, n: nat) {
    |self - other| + |other - self| <= n
  }

  // The unknowns of the true differences, highest degree first.
  ghost function Target(self: set<nat>, other: set<nat>): seq<int> {
    Unknowns(ChiPoly(other - self)) + Unknowns(ChiPoly(self - other))
  }

  function Unknowns(f: Poly): seq<int>
    requires f != []
  {
    Reverse(f[..|f| - 1])
  }

  // Reduced rows for bounds equal to the sizes of the differences.
  ghost predicate Determines(p: nat, rows: Matrix, mA: nat, mB: nat, self: set<nat>, other: set<nat>)
    requires 0 < p
  {
    && mA == |other - self| && mB == |self - other|
    && Wide(rows, mA + mB) && Triangular(p, rows, mA + mB) && Solution(p, rows, Target(self, other))
  }

  // Interpolates the ratios. The procedure gives up when the sizes differ by more
  // than the samples, and lowers the degree bounds when elimination leaves columns
  // without a pivot. With enough samples it finds the two differences.
  method RatFuncInterp(p: nat, lib: Library, xs: seq<int>, fs: seq<int>, otherSize: nat, ownSize: nat,
                       ghost self: set<nat>, ghost other: set<nat>)
    returns (r: Option<(Poly, Poly)>)
    requires IsPrime(p) && 0 < p && lib.Correct(p) && |xs| == |fs| < p && Sampled(p, self, other, xs, fs)
    requires |other| == otherSize && |self| == ownSize && forall h :: h in self + other ==> h < p
    ensures Covered(self, other, |xs|) ==> r.Some? && AreDifferences(p, r.value.0, r.value.1, self, other)
    ensures |xs| + 2 <= otherSize - ownSize || |xs| + 2 <= ownSize - otherSize ==> r.None?
    ensures r.Some? ==> Monic(r.value.0) && Monic(r.value.1) && |r.value.0| + |r.value.1| <= |xs| + 2
  {
    hide *;
    var mA, mB := Half(|xs| + otherSize - ownSize), Half(|xs| - otherSize + ownSize);
    ghost var covered := Covered(self, other, |xs|);
    HalfTruncates(|xs| + otherSize - ownSize);
    HalfTruncates(|xs| - otherSize + ownSize);
    Bounds(|xs|, self, other, mA, mB);
    if mA < 0 || mB < 0 {
      return None;
    }
    var matrix := BuildMatrix(xs, fs, mA, mB);
    var copy := Rows(matrix);
    var (rows, rank) := lib.gauss(copy, mA + mB);
    FullRank(p, lib, xs, fs, mA, mB);
    if covered {
      Eliminated(p, lib, self, other, xs, fs, mA, mB);
    }
    if mA + mB < rank {
      return None;
    } else if rank < mA + mB {
      var mDiff := mA + mB - rank;
      if mA < mDiff || mB < mDiff {
        return None;
      }
      matrix := RebuildMatrix(xs, fs, mA, mB, mDiff, copy);
      mA, mB := mA - mDiff, mB - mDiff;
      var again := lib.gauss(Rows(matrix), mA + mB);
      rows, rank := again.0, again.1;
      FullRank(p, lib, xs[..mA + mB], fs[..mA + mB], mA, mB);
      if covered {
        SampledPrefix(p, self, other, xs, fs, mA + mB);
        Eliminated(p, lib, self, other, xs[..mA + mB], fs[..mA + mB], mA, mB);
      }
      if rank != mA + mB {
        return None;
      }
    }
    var c := BackSubstitute(p, rows, mA + mB);
    if covered {
      Determined(p, rows, mA, mB, self, other, c);
    }
    EncodedMonic(c[..mA]);
    EncodedMonic(c[mA..]);
    return Some((MonicOf(c[..mA]), MonicOf(c[mA..])));
  }

  lemma EncodedMonic(c: seq<int>)
    ensures Monic(MonicOf(c)) && |MonicOf(c)| == |c| + 1
  {
  }

  lemma Bounds(n: nat, self: set<nat>, other: set<nat>, mA: int, mB: int)
    requires mA == Half(n + |other| - |self|) && mB == Half(n - |other| + |self|)
    ensures mA + mB <= n
    ensures Covered(self, other, n) ==> |other - self| <= mA && |self - other| + (mA - |other - self|) == mB
  {
    SizesDiffer(self, other);
  }

  // Elimination that finds a pivot in every column makes the system triangular.
  lemma FullRank(p: nat, lib: Library, xs: seq<int>, fs: seq<int>, mA: nat, mB: nat)
    requires 0 < p && lib.Correct(p) && |xs| == |fs|
    ensures var (rows, rank) := lib.gauss(SystemRows(xs, fs, mA, mB), mA + mB);
      rank == mA + mB ==> Wide(rows, rank) && rank <= |rows| && Triangular(p, rows, rank)
  {
    var M := SystemRows(xs, fs, mA, mB);
    assert Wide(M, mA + mB);
    assert lib.Eliminates(p);
    hide Rank, SystemRows;
    assert lib.gauss(M, mA + mB).1 == Rank(p, M, mA + mB);
  }

  lemma SampledPrefix(p: nat, self: set<nat>, other: set<nat>, xs: seq<int>, fs: seq<int>, n: nat)
    requires 0 < p && |xs| == |fs| && n <= |xs| && Sampled(p, self, other, xs, fs)
    ensures Sampled(p, self, other, xs[..n], fs[..n])
  {
    hide Chi, Zero;
  }

  // Elimination of a system with enough samples: the columns left without a
  // pivot are as many as the bounds exceed the differences.
  lemma Eliminated(p: nat, lib: Library, self: set<nat>, other: set<nat>, xs: seq<int>, fs: seq<int>, mA: nat, mB: nat)
    requires IsPrime(p) && 0 < p && lib.Correct(p) && |xs| == |fs| < p && Sampled(p, self, other, xs, fs)
    requires |other - self| <= mA && |self - other| + (mA - |other - self|) == mB && mA + mB <= |xs|
    requires forall h :: h in self + other ==> h < p
    ensures var (rows, rank) := lib.gauss(SystemRows(xs, fs, mA, mB), mA + mB);
      && mA + mB - rank == mA - |other - self|
      && (rank == mA + mB ==> Determines(p, rows, mA, mB, self, other))
  {
    hide *;
    RankDeficiency(p, self, other, xs, fs, mA, mB);
    GaussRank(p, lib, SystemRows(xs, fs, mA, mB), mA + mB);
    if mA == |other - self| {
      TargetSolves(p, self, other, xs, fs, mA, mB);
      GaussKeeps(p, lib, SystemRows(xs, fs, mA, mB), mA, mB, self, other);
    }
  }

  lemma GaussRank(p: nat, lib: Library, M: Matrix, w: nat)
    requires 0 < p && lib.Correct(p) && Wide(M, w)
    ensures lib.gauss(M, w).1 == Rank(p, M, w)
  {
    assert lib.Eliminates(p);
    hide Rank, Wide;
  }

  lemma GaussKeeps(p: nat, lib: Library, M: Matrix, mA: nat, mB: nat, self: set<nat>, other: set<nat>)
    requires 0 < p && lib.Correct(p) && mA == |other - self| && mB == |self - other| && Wide(M, mA + mB)
    requires |Target(self, other)| == mA + mB && Solution(p, M, Target(self, other))
    ensures lib.gauss(M, mA + mB).1 == mA + mB ==> Determines(p, lib.gauss(M, mA + mB).0, mA, mB, self, other)
  {
    hide *;
    var (rows, rank) := lib.gauss(M, mA + mB);
    if rank == mA + mB {
      GaussReduces(p, lib, M, mA + mB);
      ReducedKeeps(p, M, rows, Target(self, other));
      MakesDetermined(p, rows, mA, mB, self, other);
    }
  }

  lemma GaussReduces(p: nat, lib: Library, M: Matrix, w: nat)
    requires 0 < p && lib.Correct(p) && Wide(M, w) && lib.gauss(M, w).1 == w
    ensures Reduced(p, M, lib.gauss(M, w).0, w)
  {
    assert lib.Eliminates(p);
    hide Rank, Wide, Reduced;
  }

  lemma ReducedKeeps(p: nat, M: Matrix, rows: Matrix, c: seq<int>)
    requires 0 < p && Wide(M, |c|) && Reduced(p, M, rows, |c|) && Solution(p, M, c)
    ensures Wide(rows, |c|) && Triangular(p, rows, |c|) && Solution(p, rows, c)
  {
  }

  lemma MakesDetermined(p: nat, rows: Matrix, mA: nat, mB: nat, self: set<nat>, other: set<nat>)
    requires 0 < p && mA == |other - self| && mB == |self - other| && |Target(self, other)| == mA + mB
    requires Wide(rows, mA + mB) && Triangular(p, rows, mA + mB) && Solution(p, rows, Target(self, other))
    ensures Determines(p, rows, mA, mB, self, other)
  {
  }

  lemma TargetParts(self: set<nat>, other: set<nat>)
    ensures var (mA, c) := (|other - self|, Target(self, other));
      && |c| == mA + |self - other|
      && MonicOf(c[..mA]) == ChiPoly(other - self) && MonicOf(c[mA..]) == ChiPoly(self - other)
  {
    var (f, g) := (ChiPoly(other - self), ChiPoly(self - other));
    ChiPolyEval(other - self, 0);
    ChiPolyEval(self - other, 0);
    UnknownsOf(f);
    UnknownsOf(g);
    hide ChiPoly, Reverse, MonicOf, Unknowns;
    assert Target(self, other)[..|other - self|] == Unknowns(f);
    assert Target(self, other)[|other - self|..] == Unknowns(g);
  }

  lemma UnknownsOf(f: Poly)
    requires Monic(f)
    ensures |Unknowns(f)| == |f| - 1 && MonicOf(Unknowns(f)) == f
  {
    ReverseTwice(f[..|f| - 1]);
  }

  // The true differences solve the system.
  lemma TargetSolves(p: nat, self: set<nat>, other: set<nat>, xs: seq<int>, fs: seq<int>, mA: nat, mB: nat)
    requires IsPrime(p) && 0 < p && |xs| == |fs| && Sampled(p, self, other, xs, fs)
    requires mA == |other - self| && mB == |self - other|
    ensures |Target(self, other)| == mA + mB && Solution(p, SystemRows(xs, fs, mA, mB), Target(self, other))
  {
    hide *;
    var c := Target(self, other);
    TargetParts(self, other);
    forall i | 0 <= i < |xs| ensures Equal(p, Dot(xs[i], fs[i], mA, mB, c, 0), Entry(xs[i], fs[i], mA, mB, mA + mB)) {
      SampledAt(p, self, other, xs, fs, i);
      ChiPolyEval(other - self, xs[i]);
      ChiPolyEval(self - other, xs[i]);
      ChiRatio(p, self, other, xs[i], fs[i]);
      SolutionInterpolates(p, xs[i], fs[i], mA, mB, c);
    }
    SolvesRows(p, xs, fs, mA, mB, c);
  }

  lemma ChiRatio(p: nat, self: set<nat>, other: set<nat>, x: int, f: int)
    requires IsPrime(p) && 0 < p && !Zero(p, Chi(self, x)) && Equal(p, f * Chi(self, x), Chi(other, x))
    ensures Equal(p, Chi(other - self, x), f * Chi(self - other, x))
  {
    var (u, v) := (Chi(other - self, x), Chi(self - other, x));
    ZeroMultiple(p, 0);
    hide Chi, Zero;
    MultipleAt(p, self, other, x, f, 1, u, v);
  }

  lemma SolvesRows(p: nat, xs: seq<int>, fs: seq<int>, mA: nat, mB: nat, c: seq<int>)
    requires 0 < p && |xs| == |fs| && |c| == mA + mB
    requires forall i :: 0 <= i < |xs| ==>
      Equal(p, Dot(xs[i], fs[i], mA, mB, c, 0), Entry(xs[i], fs[i], mA, mB, mA + mB))
    ensures Solution(p, SystemRows(xs, fs, mA, mB), c)
  {
    hide Zero, Dot, RowDot, Entry;
    forall i | 0 <= i < |xs|
      ensures RowDot(SystemRows(xs, fs, mA, mB)[i], c, 0) == Dot(xs[i], fs[i], mA, mB, c, 0)
    {
      RowDotIsDot(xs[i], fs[i], mA, mB, c, 0);
    }
  }

  // The only solution is the pair of differences.
  lemma Determined(p: nat, rows: Matrix, mA: nat, mB: nat, self: set<nat>, other: set<nat>, c: seq<int>)
    requires IsPrime(p) && 0 < p && Determines(p, rows, mA, mB, self, other)
    requires |c| == mA + mB && Wide(rows, mA + mB) && mA + mB <= |rows| && SolvedFrom(p, rows, mA + mB, c, 0)
    ensures AreDifferences(p, MonicOf(c[..mA]), MonicOf(c[mA..]), self, other)
  {
    hide *;
    var c' := Target(self, other);
    DeterminedParts(p, rows, mA, mB, self, other);
    TargetParts(self, other);
    TriangularUnique(p, rows, mA + mB, c, c', 0);
    SameMonic(p, c[..mA], c'[..mA], other - self);
    SameMonic(p, c[mA..], c'[mA..], self - other);
    BothDifferences(p, MonicOf(c[..mA]), MonicOf(c[mA..]), self, other);
  }

  lemma DeterminedParts(p: nat, rows: Matrix, mA: nat, mB: nat, self: set<nat>, other: set<nat>)
    requires 0 < p && Determines(p, rows, mA, mB, self, other)
    ensures mA == |other - self| && mB == |self - other| && Wide(rows, mA + mB) && |Target(self, other)| == mA + mB
    ensures Triangular(p, rows, mA + mB) && Solution(p, rows, Target(self, other))
  {
  }

  lemma BothDifferences(p: nat, P: Poly, Q: Poly, self: set<nat>, other: set<nat>)
    requires 0 < p && Monic(P) && Monic(Q) && |P| == |other - self| + 1 && |Q| == |self - other| + 1
    requires forall x: int :: Equal(p, Eval(P, x), Chi(other - self, x))
    requires forall x: int :: Equal(p, Eval(Q, x), Chi(self - other, x))
    ensures AreDifferences(p, P, Q, self, other)
  {
  }

  // Equal unknowns give polynomials with equal values.
  lemma SameMonic(p: nat, c: seq<int>, c': seq<int>, a: set<nat>)
    requires 0 < p && |c| == |c'| && (forall i :: 0 <= i < |c| ==> Equal(p, c[i], c'[i])) && MonicOf(c') == ChiPoly(a)
    ensures Monic(MonicOf(c)) && |MonicOf(c)| == |a| + 1
    ensures forall x: int :: Equal(p, Eval(MonicOf(c), x), Chi(a, x))
  {
    hide *;
    var (f, g) := (MonicOf(c), MonicOf(c'));
    MonicCoefficients(p, c, c');
    ChiPolyEval(a, 0);
    ChiPolyLength(a);
    forall x: int ensures Equal(p, Eval(f, x), Chi(a, x)) {
      ChiPolyEval(a, x);
      EqualCoefficients(p, f, g, x);
    }
  }

  lemma ChiPolyLength(a: set<nat>)
    ensures |ChiPoly(a)| == |a| + 1
  {
  }

  lemma MonicCoefficients(p: nat, c: seq<int>, c': seq<int>)
    requires 0 < p && |c| == |c'| && forall i :: 0 <= i < |c| ==> Equal(p, c[i], c'[i])
    ensures Monic(MonicOf(c)) && |MonicOf(c)| == |MonicOf(c')|
    ensures forall i :: 0 <= i < |MonicOf(c)| ==> Equal(p, MonicOf(c)[i], MonicOf(c')[i])
  {
    var (r, r') := (Reverse(c), Reverse(c'));
    ZeroMultiple(p, 0);
    hide Zero, Reverse;
    forall i | 0 <= i < |MonicOf(c)| ensures Equal(p, MonicOf(c)[i], MonicOf(c')[i]) {
      if i < |r| {
        assert r[i] == c[|c| - 1 - i] && r'[i] == c'[|c| - 1 - i];
      }
    }
  }

  lemma {:induction false} EqualCoefficients(p: nat, f: Poly, g: Poly, x: int)
    requires 0 < p && |f| == |g| && forall i :: 0 <= i < |f| ==> Equal(p, f[i], g[i])
    ensures Equal(p, Eval(f, x), Eval(g, x))
  {
    if f == [] {
      ZeroMultiple(p, 0);
    } else {
      EqualCoefficients(p, f[1..], g[1..], x);
      HornerStep(p, f[0], x, Eval(f[1..], x), Eval(g[1..], x));
      hide Zero, Eval;
      ZeroSum(p, f[0] - g[0], x * Eval(f[1..], x) - x * Eval(g[1..], x));
    }
  }
}
