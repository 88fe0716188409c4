// Linear systems over a prime field: rank by dependent columns, and solving a
// triangular system from the bottom up.
module LinearSystem {
  import opened Modular
  import opened PrimeField

  // A row holds the coefficients of an equation and its right-hand side.
  type Matrix = seq<seq<int>>

  ghost predicate Wide(M: Matrix, w: nat) {
    forall i :: 0 <= i < |M| ==> |M[i]| == w + 1
  }

  // The left-hand side of an equation from column j on.
  function RowDot(row: seq<int>, c: seq<int>, j: nat): int
    requires |row| == |c| + 1 && j <= |c|
    decreases |c| - j
  {
    if j == |c| then 0 else row[j] * c[j] + RowDot(row, c, j + 1)
  }

  ghost predicate Solution(p: nat, M: Matrix, c: seq<int>)
    requires 0 < p && Wide(M, |c|)
  {
    forall i :: 0 <= i < |M| ==> Equal(p, RowDot(M[i], c, 0), M[i][|c|])
  }

  // A combination of the columns that vanishes in every row.
  ghost predicate Vanishing(p: nat, M: Matrix, c: seq<int>)
    requires 0 < p && Wide(M, |c|)
  {
    forall i :: 0 <= i < |M| ==> Zero(p, RowDot(M[i], c, 0))
  }

  // The last nonzero entry is number j.
  ghost predicate EndsAt(p: nat, c: seq<int>, j: nat)
    requires 0 < p
  {
    j < |c| && !Zero(p, c[j]) && forall l :: j < l < |c| ==> Zero(p, c[l])
  }

  // Column j depends on the columns before it: a vanishing combination ends there.
  ghost predicate DependentColumn(p: nat, M: Matrix, w: nat, j: nat)
    requires 0 < p && Wide(M, w)
  {
    exists c: seq<int> :: |c| == w && Vanishing(p, M, c) && EndsAt(p, c, j)
  }

  // The number of columns in which Gaussian elimination finds a pivot.
  ghost function Rank(p: nat, M: Matrix, w: nat): nat
    requires 0 < p && Wide(M, w)
  {
    |set j: nat | j < w && !DependentColumn(p, M, w, j)|
  }

  // The first w rows are triangular.
  ghost predicate Triangular(p: nat, R: Matrix, w: nat)
    requires 0 < p && Wide(R, w)
  {
    w <= |R| && forall i :: 0 <= i < w ==> !Zero(p, R[i][i]) && forall j :: 0 <= j < i ==> Zero(p, R[i][j])
  }

  // What elimination does when every column has a pivot: the rows become
  // triangular, and every solution is kept.
  ghost predicate Reduced(p: nat, M: Matrix, R: Matrix, w: nat)
    requires 0 < p && Wide(M, w)
  {
    Wide(R, w) && Triangular(p, R, w) && forall c: seq<int> :: |c| == w && Solution(p, M, c) ==> Solution(p, R, c)
  }

  // The unknowns from number ii on satisfy the rows from ii to w.
  ghost predicate SolvedFrom(p: nat, R: Matrix, w: nat, c: seq<int>, ii: nat)
    requires 0 < p && Wide(R, w) && |c| == w <= |R|
  {
    forall i :: ii <= i < w ==> Equal(p, RowDot(R[i], c, i), R[i][w])
  }

  // Changing an entry before column j does not change the row from there on.
  lemma {:induction false} RowDotFrame(row: seq<int>, c: seq<int>, c': seq<int>, j: nat)
    requires |row| == |c| + 1 && |c'| == |c| && j <= |c| && c[j..] == c'[j..]
    ensures RowDot(row, c, j) == RowDot(row, c', j)
    decreases |c| - j
  {
    if j < |c| {
      assert c[j] == c[j..][0] == c'[j..][0] == c'[j];
      assert c[j + 1..] == c[j..][1..] == c'[j + 1..];
      RowDotFrame(row, c, c', j + 1);
    }
  }

  // Solves a triangular system from the last unknown to the first, taking each
  // from the right-hand sides of the rows above.
  method BackSubstitute(p: nat, R: Matrix, w: nat) returns (c: seq<int>)
    requires IsPrime(p) && 0 < p && Wide(R, w) && Triangular(p, R, w)
    ensures |c| == w && SolvedFrom(p, R, w, c, 0)
  {
    c := seq(w, i => 0);
    var last := new int[w](i requires 0 <= i < w => R[i][w]);
    var ii := w;
    while ii > 0
      invariant ii <= w && |c| == w && last.Length == w && fresh(last)
      invariant SolvedFrom(p, R, w, c, ii)
      invariant forall i :: 0 <= i < ii ==> Equal(p, last[i] + RowDot(R[i], c, ii), R[i][w])
    {
      ii := ii - 1;
      ghost var was := c;
      c := c[ii := Divide(p, last[ii], R[ii][ii])];
      forall i | 0 <= i < w ensures RowDot(R[i], c, ii + 1) == RowDot(R[i], was, ii + 1) {
        RowDotFrame(R[i], c, was, ii + 1);
      }
      SolvedMore(p, R, w, was, c, ii, last[ii]);
      ghost var before := last[..];
      for jj := 0 to ii
        invariant forall i :: 0 <= i < jj ==> last[i] == before[i] - c[ii] * R[i][ii]
        invariant forall i :: jj <= i < w ==> last[i] == before[i]
      {
        last[jj] := last[jj] - c[ii] * R[jj][ii];
      }
      forall i | 0 <= i < ii ensures Equal(p, last[i] + RowDot(R[i], c, ii), R[i][w]) {
        Moved(R[i][ii], c[ii], before[i], RowDot(R[i], c, ii + 1));
      }
    }
  }

  lemma Moved(r: int, c: int, last: int, rest: int)
    ensures (last - c * r) + (r * c + rest) == last + rest
  {
    Commute(r, c);
  }

  lemma SolvedMore(p: nat, R: Matrix, w: nat, was: seq<int>, c: seq<int>, ii: nat, last: int)
    requires IsPrime(p) && 0 < p && Wide(R, w) && Triangular(p, R, w) && |was| == w && ii < w
    requires c == was[ii := Divide(p, last, R[ii][ii])]
    requires SolvedFrom(p, R, w, was, ii + 1) && Equal(p, last + RowDot(R[ii], was, ii + 1), R[ii][w])
    ensures |c| == w && SolvedFrom(p, R, w, c, ii)
  {
    hide IsPrime, Zero, Equal, RowDot;
    forall i | ii <= i < w ensures Equal(p, RowDot(R[i], c, i), R[i][w]) {
      RowDotFrame(R[i], c, was, if i == ii then ii + 1 else i);
      if i == ii {
        RowDotStep(R[ii], c, ii);
        EntrySolves(p, c[ii], R[ii][ii], last, RowDot(R[ii], was, ii + 1), R[ii][w]);
      }
    }
  }

  lemma RowDotStep(row: seq<int>, c: seq<int>, j: nat)
    requires |row| == |c| + 1 && j < |c|
    ensures RowDot(row, c, j) == row[j] * c[j] + RowDot(row, c, j + 1)
  {
  }

  lemma EntrySolves(p: nat, c: int, r: int, last: int, rest: int, rhs: int)
    requires 0 < p && Equal(p, c * r, last) && Equal(p, last + rest, rhs)
    ensures Equal(p, r * c + rest, rhs)
  {
    Commute(r, c);
    hide Zero;
    ZeroSum(p, c * r - last, last + rest - rhs);
  }

  // The entries before the diagonal contribute nothing.
  lemma {:induction false} BelowDiagonal(p: nat, row: seq<int>, c: seq<int>, j: nat, i: nat)
    requires 0 < p && |row| == |c| + 1 && j <= i <= |c| && forall l :: 0 <= l < i ==> Zero(p, row[l])
    ensures Equal(p, RowDot(row, c, j), RowDot(row, c, i))
    decreases i - j
  {
    if j < i {
      BelowDiagonal(p, row, c, j + 1, i);
      ZeroProduct(p, row[j], c[j]);
      hide Zero;
      ZeroSum(p, row[j] * c[j], RowDot(row, c, j + 1) - RowDot(row, c, i));
    } else {
      ZeroMultiple(p, 0);
    }
  }

  // Any solution of the whole system agrees with the one computed.
  lemma {:induction false} TriangularUnique(p: nat, R: Matrix, w: nat, c: seq<int>, c': seq<int>, ii: nat)
    requires IsPrime(p) && 0 < p && Wide(R, w) && Triangular(p, R, w) && |c| == |c'| == w && ii <= w
    requires SolvedFrom(p, R, w, c, 0) && Solution(p, R, c')
    ensures forall i :: ii <= i < w ==> Equal(p, c[i], c'[i])
    decreases w - ii
  {
    if ii < w {
      TriangularUnique(p, R, w, c, c', ii + 1);
      hide IsPrime, Zero;
      BelowDiagonal(p, R[ii], c', 0, ii);
      SameTail(p, R[ii], c, c', ii + 1);
      SameEntry(p, R[ii][ii], c[ii], c'[ii], RowDot(R[ii], c, ii + 1), RowDot(R[ii], c', ii + 1),
                RowDot(R[ii], c', 0), R[ii][w]);
    }
  }

  lemma {:induction false} SameTail(p: nat, row: seq<int>, c: seq<int>, c': seq<int>, j: nat)
    requires 0 < p && |row| == |c| + 1 && |c'| == |c| && j <= |c| && forall i :: j <= i < |c| ==> Equal(p, c[i], c'[i])
    ensures Equal(p, RowDot(row, c, j), RowDot(row, c', j))
    decreases |c| - j
  {
    if j < |c| {
      SameTail(p, row, c, c', j + 1);
      ZeroProduct(p, c[j] - c'[j], row[j]);
      Factor(row[j], c[j], c'[j]);
      hide Zero;
      ZeroSum(p, row[j] * c[j] - row[j] * c'[j], RowDot(row, c, j + 1) - RowDot(row, c', j + 1));
    } else {
      ZeroMultiple(p, 0);
    }
  }

  lemma SameEntry(p: nat, r: int, c: int, c': int, rest: int, rest': int, whole': int, rhs: int)
    requires IsPrime(p) && 0 < p && !Zero(p, r) && Equal(p, rest, rest')
    requires Equal(p, r * c + rest, rhs) && Equal(p, whole', r * c' + rest') && Equal(p, whole', rhs)
    ensures Equal(p, c, c')
  {
    var (u, v) := (r * c, r * c');
    hide Zero, IsPrime;
    ZeroSum(p, whole' - (v + rest'), whole' - rhs);
    ZeroSum(p, u + rest - rhs, v + rest' - rhs);
    ZeroSum(p, rest - rest', u - v);
    assert Equal(p, u, v);
    CancelFactor(p, r, c, c');
  }
}
