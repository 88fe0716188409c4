// A library that keeps its promises exists: systems with independent columns can
// be made triangular, and divisors and factorizations can be found.
module Eliminations {
  import opened Modular
  import opened PrimeField
  import opened Polynomials
  import opened LinearSystem

  // Only the zero combination of the columns vanishes.
  ghost predicate Independent(p: nat, M: Matrix, w: nat)
    requires 0 < p && Wide(M, w)
  {
    forall c: seq<int> :: |c| == w && Vanishing(p, M, c) ==> AllZero(p, c)
  }

  lemma FullRankIndependent(p: nat, M: Matrix, w: nat)
    requires 0 < p && Wide(M, w) && Rank(p, M, w) == w
    ensures Independent(p, M, w)
  {
    forall c: seq<int> | |c| == w && Vanishing(p, M, c) ensures AllZero(p, c) {
      if !AllZero(p, c) {
        var j := LastNonzero(p, c);
        FewerPivots(p, M, w, j);
        assert false;
      }
    }
  }

  lemma {:induction false} LastNonzero(p: nat, c: seq<int>) returns (j: nat)
    requires 0 < p && !AllZero(p, c)
    ensures EndsAt(p, c, j)
  {
    j := |c| - 1;
    if Zero(p, c[j]) {
      j := LastNonzero(p, c[..j]);
      assert forall l :: j < l < |c| - 1 ==> c[l] == c[..|c| - 1][l];
    }
  }

  lemma FewerPivots(p: nat, M: Matrix, w: nat, j: nat)
    requires 0 < p && Wide(M, w) && j < w && DependentColumn(p, M, w, j)
    ensures Rank(p, M, w) < w
  {
    hide DependentColumn;
    var pivots := set j: nat | j < w && !DependentColumn(p, M, w, j);
    PivotsBound(pivots, w, j);
  }

  lemma {:induction false} PivotsBound(pivots: set<nat>, w: nat, j: nat)
    requires j < w && j !in pivots && forall k :: k in pivots ==> k < w
    ensures |pivots| < w
  {
    Bounded(pivots + {j}, w);
  }

  lemma {:induction false} Bounded(a: set<nat>, w: nat)
    requires forall k :: k in a ==> k < w
    ensures |a| <= w
    decreases w
  {
    if w == 0 {
      assert a == {};
    } else {
      Bounded(a - {w - 1}, w - 1);
      assert a <= a - {w - 1} + {w - 1};
    }
  }

  // A row less a multiple of another.
  function Combine(row: seq<int>, pivot: seq<int>, f: int): (r: seq<int>)
    requires |row| == |pivot|
    ensures |r| == |row| && forall j :: 0 <= j < |r| ==> r[j] == row[j] - f * pivot[j]
  {
    seq(|row|, j requires 0 <= j < |row| => row[j] - f * pivot[j])
  }

  lemma {:induction false} CombineDot(row: seq<int>, pivot: seq<int>, f: int, c: seq<int>, j: nat)
    requires |row| == |pivot| == |c| + 1 && j <= |c|
    ensures RowDot(Combine(row, pivot, f), c, j) == RowDot(row, c, j) - f * RowDot(pivot, c, j)
    decreases |c| - j
  {
    if j < |c| {
      CombineDot(row, pivot, f, c, j + 1);
      CombineStep(row[j], pivot[j], f, c[j], RowDot(row, c, j + 1), RowDot(pivot, c, j + 1));
    }
  }

  lemma CombineStep(a: int, b: int, f: int, c: int, u: int, v: int)
    ensures (a - f * b) * c + (u - f * v) == (a * c + u) - f * (b * c + v)
  {
  }

  // Without its first column.
  lemma {:induction false} TailDot(row: seq<int>, c: seq<int>, j: nat)
    requires |row| == |c| + 1 && 1 <= j <= |c|
    ensures RowDot(row[1..], c[1..], j - 1) == RowDot(row, c, j)
    decreases |c| - j
  {
    if j < |c| {
      TailDot(row, c, j + 1);
    }
  }

  // Every row with the first unknown eliminated, and without its column.
  function Smaller(p: nat, M: Matrix, w: nat, pivot: seq<int>): (S: Matrix)
    requires IsPrime(p) && 1 <= w && Wide(M, w) && |pivot| == w + 1 && !Zero(p, pivot[0])
    ensures |S| == |M| && Wide(S, w - 1)
  {
    seq(|M|, k requires 0 <= k < |M| => Combine(M[k], pivot, Divide(p, M[k][0], pivot[0]))[1..])
  }

  // The smaller row's value in terms of the larger rows.
  lemma SmallerDot(p: nat, row: seq<int>, pivot: seq<int>, c: seq<int>)
    requires IsPrime(p) && 0 < p && 1 <= |c| && |row| == |pivot| == |c| + 1 && !Zero(p, pivot[0])
    ensures var f := Divide(p, row[0], pivot[0]);
      Equal(p, RowDot(Combine(row, pivot, f)[1..], c[1..], 0), RowDot(row, c, 0) - f * RowDot(pivot, c, 0))
  {
    var f := Divide(p, row[0], pivot[0]);
    var r := Combine(row, pivot, f);
    hide *;
    CombineDot(row, pivot, f, c, 0);
    TailDot(r, c, 1);
    RowDotStep(r, c, 0);
    HeadGone(p, row[0], r[0], f, pivot[0], c[0]);
    DropZero(p, r[0] * c[0], RowDot(r, c, 1));
  }

  lemma HeadGone(p: nat, a: int, r: int, f: int, b: int, c: int)
    requires 0 < p && Equal(p, f * b, a) && r == a - f * b
    ensures Zero(p, r * c)
  {
    Negative(p, r);
    ZeroProduct(p, r, c);
  }

  lemma DropZero(p: nat, z: int, u: int)
    requires 0 < p && Zero(p, z)
    ensures Equal(p, u, z + u)
  {
    Negative(p, z);
  }

  // Independent columns have a pivot in the first one.
  lemma PivotRow(p: nat, M: Matrix, w: nat) returns (i: nat)
    requires IsPrime(p) && 0 < p && 1 <= w && Wide(M, w) && Independent(p, M, w)
    ensures i < |M| && !Zero(p, M[i][0])
  {
    if forall i :: 0 <= i < |M| ==> Zero(p, M[i][0]) {
      var c := FirstAlone(p, M, w);
      assert false;
    }
    i :| 0 <= i < |M| && !Zero(p, M[i][0]);
  }

  lemma FirstAlone(p: nat, M: Matrix, w: nat) returns (c: seq<int>)
    requires IsPrime(p) && 0 < p && 1 <= w && Wide(M, w) && forall i :: 0 <= i < |M| ==> Zero(p, M[i][0])
    ensures |c| == w && Vanishing(p, M, c) && !AllZero(p, c)
  {
    c := seq(w, j => if j == 0 then 1 else 0);
    forall i | 0 <= i < |M| ensures Zero(p, RowDot(M[i], c, 0)) {
      RowDotStep(M[i], c, 0);
      ZeroTail(M[i], c, 1);
    }
    assert 1 % p == 1;
    assert !Zero(p, c[0]);
  }

  lemma {:induction false} ZeroTail(row: seq<int>, c: seq<int>, j: nat)
    requires |row| == |c| + 1 && j <= |c| && forall k :: j <= k < |c| ==> c[k] == 0
    ensures RowDot(row, c, j) == 0
    decreases |c| - j
  {
    if j < |c| {
      ZeroTail(row, c, j + 1);
    }
  }

  // The smaller system has independent columns too.
  lemma SmallerIndependent(p: nat, M: Matrix, w: nat, i: nat)
    requires IsPrime(p) && 0 < p && 1 <= w && Wide(M, w) && Independent(p, M, w) && i < |M| && !Zero(p, M[i][0])
    ensures Independent(p, Smaller(p, M, w, M[i]), w - 1)
  {
    var S := Smaller(p, M, w, M[i]);
    hide IsPrime, Zero, Divide, RowDot, AllZero;
    forall c: seq<int> | |c| == w - 1 && Vanishing(p, S, c) ensures AllZero(p, c) {
      var c' := Extended(p, M, w, i, c);
      assert Vanishing(p, M, c');
      TailZero(p, c');
    }
  }

  lemma TailZero(p: nat, c: seq<int>)
    requires 0 < p && AllZero(p, c) && c != []
    ensures AllZero(p, c[1..])
  {
  }

  lemma Extended(p: nat, M: Matrix, w: nat, i: nat, c: seq<int>) returns (c': seq<int>)
    requires IsPrime(p) && 0 < p && 1 <= w && Wide(M, w) && i < |M| && !Zero(p, M[i][0])
    requires |c| == w - 1 && Vanishing(p, Smaller(p, M, w, M[i]), c)
    ensures |c'| == w && c'[1..] == c && Vanishing(p, M, c')
  {
    var pivot := M[i];
    var rest := RowDot(pivot, [0] + c, 1);
    c' := [Divide(p, -rest, pivot[0]) as int] + c;
    RowDotFrame(pivot, c', [0] + c, 1);
    RowDotStep(pivot, c', 0);
    Commute(pivot[0], c'[0]);
    assert Zero(p, RowDot(pivot, c', 0));
    hide IsPrime, Zero, Divide, RowDot;
    forall k | 0 <= k < |M| ensures Zero(p, RowDot(M[k], c', 0)) {
      SmallerDot(p, M[k], pivot, c');
      var f := Divide(p, M[k][0], pivot[0]);
      assert Smaller(p, M, w, pivot)[k] == Combine(M[k], pivot, f)[1..];
      SumVanishes(p, RowDot(Combine(M[k], pivot, f)[1..], c'[1..], 0), RowDot(M[k], c', 0), f, RowDot(pivot, c', 0));
    }
  }

  lemma SumVanishes(p: nat, s: int, u: int, f: int, v: int)
    requires 0 < p && Zero(p, s) && Zero(p, v) && Equal(p, s, u - f * v)
    ensures Zero(p, u)
  {
    ZeroProduct(p, v, f);
    hide Zero;
    ZeroSum(p, f * v, s - u);
    ZeroSum(p, s, u);
  }

  // A solution without its first unknown solves the smaller system.
  lemma SmallerSolution(p: nat, M: Matrix, w: nat, i: nat, c: seq<int>)
    requires IsPrime(p) && 0 < p && 1 <= w && Wide(M, w) && i < |M| && !Zero(p, M[i][0])
    requires |c| == w && Solution(p, M, c)
    ensures Solution(p, Smaller(p, M, w, M[i]), c[1..])
  {
    var pivot := M[i];
    var S := Smaller(p, M, w, pivot);
    hide IsPrime, Zero, Divide, RowDot;
    forall k | 0 <= k < |S| ensures Equal(p, RowDot(S[k], c[1..], 0), S[k][w - 1]) {
      SmallerDot(p, M[k], pivot, c);
      var f := Divide(p, M[k][0], pivot[0]);
      assert S[k] == Combine(M[k], pivot, f)[1..];
      SolvesSmaller(p, RowDot(S[k], c[1..], 0), RowDot(M[k], c, 0), f, RowDot(pivot, c, 0), M[k][w], pivot[w]);
    }
  }

  lemma SolvesSmaller(p: nat, s: int, u: int, f: int, v: int, a: int, b: int)
    requires 0 < p && Equal(p, s, u - f * v) && Equal(p, u, a) && Equal(p, v, b)
    ensures Equal(p, s, a - f * b)
  {
    ZeroProduct(p, v - b, f);
    Factor(f, v, b);
    hide Zero;
    var (fv, fb) := (f * v, f * b);
    SolvesChain(p, s, u, fv, fb, a);
  }

  lemma SolvesChain(p: nat, s: int, u: int, fv: int, fb: int, a: int)
    requires 0 < p && Equal(p, s, u - fv) && Equal(p, u, a) && Zero(p, fv - fb)
    ensures Equal(p, s, a - fb)
  {
    hide Zero;
    ZeroSum(p, fv - fb, s - (u - fv) + (u - a));
    ZeroSum(p, s - (u - fv), u - a);
    ZeroSum(p, fv - fb, s - (a - fb));
  }

  // A first row on top of a smaller system.
  function Stacked(first: seq<int>, S: Matrix): (R: Matrix)
    ensures |R| == |S| + 1
  {
    [first] + seq(|S|, k requires 0 <= k < |S| => [0] + S[k])
  }

  lemma StackedKeeps(p: nat, first: seq<int>, S: Matrix, w: nat, c: seq<int>)
    requires 0 < p && 1 <= w && |first| == w + 1 && Wide(S, w - 1) && |c| == w
    requires Equal(p, RowDot(first, c, 0), first[w]) && Solution(p, S, c[1..])
    ensures Wide(Stacked(first, S), w) && Solution(p, Stacked(first, S), c)
  {
    var R := Stacked(first, S);
    hide Zero;
    forall k | 0 <= k < |R| ensures Equal(p, RowDot(R[k], c, 0), R[k][w]) {
      if k > 0 {
        assert R[k] == [0] + S[k - 1] && R[k][1..] == S[k - 1];
        TailDot(R[k], c, 1);
        RowDotStep(R[k], c, 0);
        assert R[k][w] == S[k - 1][w - 1];
      }
    }
  }

  lemma StackedTriangular(p: nat, first: seq<int>, S: Matrix, w: nat)
    requires 0 < p && 1 <= w && |first| == w + 1 && !Zero(p, first[0]) && Wide(S, w - 1) && Triangular(p, S, w - 1)
    ensures Wide(Stacked(first, S), w) && Triangular(p, Stacked(first, S), w)
  {
    var R := Stacked(first, S);
    ZeroMultiple(p, 0);
    hide Zero;
    forall i | 0 <= i < w ensures !Zero(p, R[i][i]) && forall j :: 0 <= j < i ==> Zero(p, R[i][j]) {
      if i > 0 {
        assert R[i] == [0] + S[i - 1];
        assert R[i][i] == S[i - 1][i - 1];
        forall j | 0 <= j < i ensures Zero(p, R[i][j]) {
          assert j > 0 ==> R[i][j] == S[i - 1][j - 1];
        }
      }
    }
  }

  // Elimination succeeds on independent columns.
  lemma {:induction false} CanReduce(p: nat, M: Matrix, w: nat) returns (R: Matrix)
    requires IsPrime(p) && 0 < p && Wide(M, w) && Independent(p, M, w)
    ensures Reduced(p, M, R, w)
    decreases w
  {
    if w == 0 {
      R := M;
    } else {
      var i := PivotRow(p, M, w);
      var S := Smaller(p, M, w, M[i]);
      SmallerIndependent(p, M, w, i);
      hide *;
      var R' := CanReduce(p, S, w - 1);
      R := Stacked(M[i], R');
      ReducedParts(p, S, R', w - 1);
      WideRow(M, w, i);
      StackedTriangular(p, M[i], R', w);
      forall c: seq<int> | |c| == w && Solution(p, M, c) ensures Solution(p, R, c) {
        SmallerSolution(p, M, w, i, c);
        Keeps(p, S, R', c[1..]);
        SolvedRow(p, M, c, i);
        StackedKeeps(p, M[i], R', w, c);
      }
      MakesReduced(p, M, R, w);
    }
  }

  lemma WideRow(M: Matrix, w: nat, i: nat)
    requires Wide(M, w) && i < |M|
    ensures |M[i]| == w + 1
  {
  }

  lemma SolvedRow(p: nat, M: Matrix, c: seq<int>, i: nat)
    requires 0 < p && Wide(M, |c|) && Solution(p, M, c) && i < |M|
    ensures |M[i]| == |c| + 1 && Equal(p, RowDot(M[i], c, 0), M[i][|c|])
  {
  }

  lemma ReducedParts(p: nat, M: Matrix, R: Matrix, w: nat)
    requires 0 < p && Wide(M, w) && Reduced(p, M, R, w)
    ensures Wide(R, w) && Triangular(p, R, w)
  {
  }

  lemma Keeps(p: nat, M: Matrix, R: Matrix, c: seq<int>)
    requires 0 < p && Wide(M, |c|) && Reduced(p, M, R, |c|) && Solution(p, M, c)
    ensures Wide(R, |c|) && Solution(p, R, c)
  {
  }

  lemma MakesReduced(p: nat, M: Matrix, R: Matrix, w: nat)
    requires 0 < p && Wide(M, w) && Wide(R, w) && Triangular(p, R, w)
    requires forall c: seq<int> :: |c| == w && Solution(p, M, c) ==> Solution(p, R, c)
    ensures Reduced(p, M, R, w)
  {
  }
}
