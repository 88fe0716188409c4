// The linear system whose solutions are the coefficients of an interpolating
// pair of monic polynomials.
module RationalSystem {
  import opened PrimeField
  import opened Polynomials
  import opened Interpolation
  import opened LinearSystem

  function Power(x: int, n: nat): int {
    if n == 0 then 1 else x * Power(x, n - 1)
  }

  // Division by two of the source's language, which truncates towards zero.
  function Half(x: int): int {
    if 0 <= x then x / 2 else -((-x) / 2)
  }

  // Twice the half lies between zero and the number, and within one of it; so a bound
  // is negative only from minus two on.
  lemma HalfTruncates(x: int)
    ensures if 0 <= x then x - 1 <= 2 * Half(x) <= x else x <= 2 * Half(x) <= x + 1
    ensures Half(x) < 0 <==> x <= -2
  {
  }

  // Row of the system for one sample: powers for the numerator, powers times the
  // negated ratio for the denominator, and the right-hand side.
  function Entry(x: int, f: int, mA: nat, mB: nat, j: nat): int
    requires j <= mA + mB
  {
    if j < mA then Power(x, mA - j - 1)
    else if j < mA + mB then -f * Power(x, mB - (j - mA) - 1)
    else f * Power(x, mB) - Power(x, mA)
  }

  function SystemRow(x: int, f: int, mA: nat, mB: nat): (row: seq<int>)
    ensures |row| == mA + mB + 1
  {
    seq(mA + mB + 1, j requires 0 <= j <= mA + mB => Entry(x, f, mA, mB, j))
  }

  // The system for these degree bounds.
  function SystemRows(xs: seq<int>, fs: seq<int>, mA: nat, mB: nat): (M: Matrix)
    requires |xs| == |fs|
    ensures |M| == |xs| && Wide(M, mA + mB)
  {
    seq(|xs|, i requires 0 <= i < |xs| => SystemRow(xs[i], fs[i], mA, mB))
  }

  // The contents of an array of rows.
  function Rows(m: array2<int>): Matrix
    reads m
  {
    seq(m.Length0, i requires 0 <= i < m.Length0 reads m =>
      seq(m.Length1, j requires 0 <= j < m.Length1 reads m => m[i, j]))
  }

  lemma SameRows(m: array2<int>, xs: seq<int>, fs: seq<int>, mA: nat, mB: nat)
    requires |xs| == |fs| == m.Length0 && m.Length1 == mA + mB + 1
    requires forall i, j :: 0 <= i < |xs| && 0 <= j <= mA + mB ==> m[i, j] == Entry(xs[i], fs[i], mA, mB, j)
    ensures Rows(m) == SystemRows(xs, fs, mA, mB)
  {
    hide Entry;
    forall i | 0 <= i < |xs| ensures Rows(m)[i] == SystemRow(xs[i], fs[i], mA, mB) {
    }
  }

  // Fills the concatenated Vandermonde matrices.
  method BuildMatrix(xs: seq<int>, fs: seq<int>, mA: nat, mB: nat) returns (m: array2<int>)
    requires |xs| == |fs|
    ensures fresh(m) && m.Length0 == |xs| && m.Length1 == mA + mB + 1
    ensures Rows(m) == SystemRows(xs, fs, mA, mB)
  {
    hide Power, Rows, SystemRows;
    m := new int[|xs|, mA + mB + 1];
    for ii := 0 to |xs|
      invariant forall i, j :: 0 <= i < ii && 0 <= j <= mA + mB ==> m[i, j] == Entry(xs[i], fs[i], mA, mB, j)
    {
      for jj := 0 to mA
        invariant forall i, j :: 0 <= i < ii && 0 <= j <= mA + mB ==> m[i, j] == Entry(xs[i], fs[i], mA, mB, j)
        invariant forall j :: 0 <= j < jj ==> m[ii, j] == Entry(xs[ii], fs[ii], mA, mB, j)
      {
        m[ii, jj] := Power(xs[ii], mA - jj - 1);
      }
      for jj := 0 to mB
        invariant forall i, j :: 0 <= i < ii && 0 <= j <= mA + mB ==> m[i, j] == Entry(xs[i], fs[i], mA, mB, j)
        invariant forall j :: 0 <= j < mA + jj ==> m[ii, j] == Entry(xs[ii], fs[ii], mA, mB, j)
      {
        m[ii, jj + mA] := -fs[ii] * Power(xs[ii], mB - jj - 1);
      }
      m[ii, mA + mB] := fs[ii] * Power(xs[ii], mB) - Power(xs[ii], mA);
    }
    SameRows(m, xs, fs, mA, mB);
  }

  // Rebuilds the system with both bounds lowered by mDiff, taking as many samples
  // as unknowns: the columns are copied from the larger system, skipping the first
  // mDiff of each half, and the right-hand sides are made anew.
  method RebuildMatrix(xs: seq<int>, fs: seq<int>, mA: nat, mB: nat, mDiff: nat, copy: Matrix) returns (m: array2<int>)
    requires |xs| == |fs| && mDiff <= mA && mDiff <= mB && mA + mB <= |xs| && copy == SystemRows(xs, fs, mA, mB)
    ensures fresh(m)
    ensures var w := mA + mB - 2 * mDiff; Rows(m) == SystemRows(xs[..w], fs[..w], mA - mDiff, mB - mDiff)
  {
    hide Power, Rows;
    var mA', mB' := mA - mDiff, mB - mDiff;
    var w := mA' + mB';
    m := new int[w, w + 1];
    for ii := 0 to w
      invariant forall i, j :: 0 <= i < ii && 0 <= j <= w ==> m[i, j] == Entry(xs[i], fs[i], mA', mB', j)
    {
      for jj := 0 to mA'
        invariant forall i, j :: 0 <= i < ii && 0 <= j <= w ==> m[i, j] == Entry(xs[i], fs[i], mA', mB', j)
        invariant forall j :: 0 <= j < jj ==> m[ii, j] == Entry(xs[ii], fs[ii], mA', mB', j)
      {
        m[ii, jj] := copy[ii][jj + mDiff];
      }
      for jj := 0 to mB'
        invariant forall i, j :: 0 <= i < ii && 0 <= j <= w ==> m[i, j] == Entry(xs[i], fs[i], mA', mB', j)
        invariant forall j :: 0 <= j < mA' + jj ==> m[ii, j] == Entry(xs[ii], fs[ii], mA', mB', j)
      {
        m[ii, jj + mA'] := copy[ii][jj + mA' + mDiff + mDiff];
      }
      m[ii, w] := fs[ii] * Power(xs[ii], mB') - Power(xs[ii], mA');
    }
    SameRows(m, xs[..w], fs[..w], mA', mB');
  }

  // The left-hand side of one equation: entries from column j on times unknowns.
  function Dot(x: int, f: int, mA: nat, mB: nat, c: seq<int>, j: nat): int
    requires |c| == mA + mB && j <= mA + mB
    decreases mA + mB - j
  {
    if j == mA + mB then 0 else Entry(x, f, mA, mB, j) * c[j] + Dot(x, f, mA, mB, c, j + 1)
  }

  // The left-hand side of a row of the system.
  lemma {:induction false} RowDotIsDot(x: int, f: int, mA: nat, mB: nat, c: seq<int>, j: nat)
    requires |c| == mA + mB && j <= mA + mB
    ensures RowDot(SystemRow(x, f, mA, mB), c, j) == Dot(x, f, mA, mB, c, j)
    decreases mA + mB - j
  {
    hide Entry;
    if j < mA + mB {
      RowDotIsDot(x, f, mA, mB, c, j + 1);
    }
  }

  function Reverse(c: seq<int>): (r: seq<int>)
    ensures |r| == |c| && forall i :: 0 <= i < |c| ==> r[i] == c[|c| - 1 - i]
  {
    if c == [] then [] else Reverse(c[1..]) + [c[0]]
  }

  // A monic polynomial from its other coefficients, highest degree first.
  function MonicOf(c: seq<int>): Poly {
    Reverse(c) + [1]
  }

  lemma {:induction false} EvalAppend(f: Poly, a: int, x: int)
    ensures Eval(f + [a], x) == Eval(f, x) + a * Power(x, |f|)
  {
    if f == [] {
      assert [a][1..] == [];
    } else {
      assert (f + [a])[1..] == f[1..] + [a];
      EvalAppend(f[1..], a, x);
      AppendStep(f[0], a, x, Eval(f[1..], x), Power(x, |f| - 1));
    }
  }

  lemma AppendStep(c: int, a: int, x: int, e: int, w: int)
    ensures c + x * (e + a * w) == (c + x * e) + a * (x * w)
  {
  }

  // The denominator's part of an equation.
  lemma {:induction false} DotTail(x: int, f: int, mA: nat, mB: nat, c: seq<int>, j: nat)
    requires |c| == mA + mB && mA <= j <= mA + mB
    ensures Dot(x, f, mA, mB, c, j) == -f * Eval(Reverse(c[j..]), x)
    decreases mA + mB - j
  {
    if j < mA + mB {
      DotTail(x, f, mA, mB, c, j + 1);
      var rest := Reverse(c[j + 1..]);
      assert c[j..][1..] == c[j + 1..];
      EvalAppend(rest, c[j], x);
      var w := Power(x, mB - (j - mA) - 1);
      TailStep(f, w, c[j], Eval(rest, x));
    } else {
      assert c[j..] == [];
    }
  }

  lemma TailStep(f: int, w: int, a: int, e: int)
    ensures -f * w * a + -f * e == -f * (e + a * w)
  {
  }

  lemma {:induction false} DotHead(x: int, f: int, mA: nat, mB: nat, c: seq<int>, j: nat)
    requires |c| == mA + mB && j <= mA
    ensures Dot(x, f, mA, mB, c, j) == Eval(Reverse(c[j..mA]), x) + Dot(x, f, mA, mB, c, mA)
    decreases mA - j
  {
    if j < mA {
      DotHead(x, f, mA, mB, c, j + 1);
      var rest := Reverse(c[j + 1..mA]);
      assert c[j..mA][1..] == c[j + 1..mA];
      EvalAppend(rest, c[j], x);
    } else {
      assert c[j..mA] == [];
    }
  }

  // A vector of unknowns solves the equation of a sample exactly when the two
  // monic polynomials it encodes match the ratio there.
  lemma SolutionInterpolates(p: nat, x: int, f: int, mA: nat, mB: nat, c: seq<int>)
    requires 0 < p && |c| == mA + mB
    ensures Equal(p, Dot(x, f, mA, mB, c, 0), Entry(x, f, mA, mB, mA + mB))
       <==> Equal(p, Eval(MonicOf(c[..mA]), x), f * Eval(MonicOf(c[mA..]), x))
  {
    hide Zero, Power, Dot, Eval;
    DotHead(x, f, mA, mB, c, 0);
    DotTail(x, f, mA, mB, c, mA);
    EvalAppend(Reverse(c[..mA]), 1, x);
    EvalAppend(Reverse(c[mA..]), 1, x);
    assert c[0..mA] == c[..mA] && c[mA..mA + mB] == c[mA..];
    var a, b, u, v := Eval(Reverse(c[..mA]), x), Eval(Reverse(c[mA..]), x), Power(x, mA), Power(x, mB);
    SystemStep(f, a, b, u, v);
  }

  lemma SystemStep(f: int, a: int, b: int, u: int, v: int)
    ensures (a + -f * b) - (f * v - u) == (a + 1 * u) - f * (b + 1 * v)
  {
  }

  // The degree bounds of the source fit the interpolation whenever the
  // differences are no larger than the number of samples.
  lemma DegreeBounds(n: nat, self: set<nat>, other: set<nat>)
    requires |self - other| + |other - self| <= n
    ensures var delta := |other| - |self|;
      var mA, mB := Half(n + delta), Half(n - delta);
      && 0 <= mA && 0 <= mB && mA - mB == delta && mA + mB <= n
      && |other - self| <= mA && |self - other| <= mB
  {
  }

  lemma EncodedDegrees(n: nat, delta: int, c: seq<int>)
    requires |c| == Half(n + delta) + Half(n - delta) && 0 <= Half(n + delta) <= |c|
    requires Half(n + delta) - Half(n - delta) == delta && |c| <= n
    ensures var (P, Q) := (MonicOf(c[..Half(n + delta)]), MonicOf(c[Half(n + delta)..]));
      && Monic(P) && Monic(Q) && |P| - |Q| == delta
      && 2 * (|P| - 1) <= n + delta && 2 * (|Q| - 1) <= n - delta
  {
  }

  // Solving the system of the source gives an interpolating pair.
  lemma SolvedSystem(p: nat, self: set<nat>, other: set<nat>, xs: seq<int>, fs: seq<int>, c: seq<int>)
    requires 0 < p && |xs| == |fs| && |self - other| + |other - self| <= |xs|
    requires |c| == Half(|xs| + (|other| - |self|)) + Half(|xs| - (|other| - |self|))
    requires 0 <= Half(|xs| + (|other| - |self|)) <= |c|
    requires forall i :: 0 <= i < |xs| ==>
      var mA := Half(|xs| + (|other| - |self|));
      Equal(p, Dot(xs[i], fs[i], mA, |c| - mA, c, 0), Entry(xs[i], fs[i], mA, |c| - mA, |c|))
    ensures var mA := Half(|xs| + (|other| - |self|));
      Interpolates(p, xs, fs, |other| - |self|, MonicOf(c[..mA]), MonicOf(c[mA..]))
  {
    hide *;
    var delta := |other| - |self|;
    var mA := Half(|xs| + delta);
    DegreeBounds(|xs|, self, other);
    EncodedDegrees(|xs|, delta, c);
    forall i | 0 <= i < |xs|
      ensures Equal(p, Eval(MonicOf(c[..mA]), xs[i]), fs[i] * Eval(MonicOf(c[mA..]), xs[i]))
    {
      SolutionInterpolates(p, xs[i], fs[i], mA, |c| - mA, c);
    }
    MakesInterpolant(p, xs, fs, delta, MonicOf(c[..mA]), MonicOf(c[mA..]));
  }

  lemma MakesInterpolant(p: nat, xs: seq<int>, fs: seq<int>, delta: int, P: Poly, Q: Poly)
    requires 0 < p && |xs| == |fs| && Monic(P) && Monic(Q) && |P| - |Q| == delta
    requires 2 * (|P| - 1) <= |xs| + delta && 2 * (|Q| - 1) <= |xs| - delta
    requires forall i | 0 <= i < |xs| :: Equal(p, Eval(P, xs[i]), fs[i] * Eval(Q, xs[i]))
    ensures Interpolates(p, xs, fs, delta, P, Q)
  {
  }
}
