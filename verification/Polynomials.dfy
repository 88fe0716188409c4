// Polynomials over a prime field as coefficient lists, lowest degree first.
module Polynomials {
  import opened Modular
  import opened PrimeField

  type Poly = seq<int>

  function Eval(f: Poly, x: int): int {
    if f == [] then 0 else f[0] + x * Eval(f[1..], x)
  }

  ghost predicate AllZero(p: nat, f: Poly)
    requires 0 < p
  {
    forall i :: 0 <= i < |f| ==> Zero(p, f[i])
  }

  lemma {:induction false} AllZeroEval(p: nat, f: Poly, x: int)
    requires 0 < p && AllZero(p, f)
    ensures Zero(p, Eval(f, x))
  {
    if f == [] {
      ZeroMultiple(p, 0);
    } else {
      AllZeroEval(p, f[1..], x);
      ZeroProduct(p, Eval(f[1..], x), x);
      ZeroSum(p, f[0], x * Eval(f[1..], x));
    }
  }

  // The quotient by x - r.
  function Quotient(f: Poly, r: int): (q: Poly)
    ensures |q| == if f == [] then 0 else |f| - 1
  {
    if |f| <= 1 then [] else [Eval(f[1..], r)] + Quotient(f[1..], r)
  }

  lemma {:induction false} QuotientEval(f: Poly, r: int, y: int)
    ensures Eval(f, y) == Eval(f, r) + (y - r) * Eval(Quotient(f, r), y)
  {
    if |f| <= 1 {
      assert f == [] || f[1..] == [];
    } else {
      var t, q := f[1..], Quotient(f, r);
      QuotientEval(t, r, y);
      assert q[1..] == Quotient(t, r);
      QuotientStep(r, y, Eval(t, r), Eval(t, y), Eval(q[1..], y));
    }
  }

  lemma QuotientStep(r: int, y: int, tr: int, ty: int, e: int)
    requires ty == tr + (y - r) * e
    ensures y * ty == r * tr + (y - r) * (tr + y * e)
  {
  }

  // A polynomial with more distinct roots than its degree is zero.
  lemma {:induction false} ManyRoots(p: nat, f: Poly, xs: seq<int>)
    requires IsPrime(p) && |f| <= |xs|
    requires forall i, j :: 0 <= i < j < |xs| ==> !Equal(p, xs[j], xs[i])
    requires forall i :: 0 <= i < |xs| ==> Zero(p, Eval(f, xs[i]))
    ensures AllZero(p, f)
    decreases |f|
  {
    assert 2 <= p;
    hide IsPrime, Eval, Quotient;
    if f != [] {
      var r, q := xs[0], Quotient(f, xs[0]);
      forall i | 0 <= i < |xs[1..]| ensures Zero(p, Eval(q, xs[1..][i])) {
        var y := xs[i + 1];
        QuotientEval(f, r, y);
        ZeroSum(p, Eval(f, r), (y - r) * Eval(q, y));
        NoZeroDivisors(p, y - r, Eval(q, y));
      }
      ManyRoots(p, q, xs[1..]);
      QuotientZero(p, f, r);
    }
  }

  lemma {:induction false} QuotientZero(p: nat, f: Poly, r: int)
    requires 0 < p && AllZero(p, Quotient(f, r)) && Zero(p, Eval(f, r))
    ensures AllZero(p, f)
  {
    if f != [] {
      var t, q := f[1..], Quotient(f, r);
      if t == [] {
        assert Eval(f, r) == f[0];
      } else {
        assert q[1..] == Quotient(t, r) && q[0] == Eval(t, r);
        QuotientZero(p, t, r);
        ZeroProduct(p, q[0], r);
        ZeroSum(p, r * q[0], f[0]);
        assert f == [f[0]] + t;
      }
    }
  }

  function AddPoly(f: Poly, g: Poly): (s: Poly)
    ensures |s| == if |f| < |g| then |g| else |f|
  {
    if f == [] then g
    else if g == [] then f
    else [f[0] + g[0]] + AddPoly(f[1..], g[1..])
  }

  function Scale(c: int, f: Poly): (s: Poly)
    ensures |s| == |f|
  {
    if f == [] then [] else [c * f[0]] + Scale(c, f[1..])
  }

  function Mul(f: Poly, g: Poly): (m: Poly)
    requires g != []
    ensures |m| == if f == [] then 0 else |f| + |g| - 1
  {
    if f == [] then [] else AddPoly(Scale(f[0], g), if |f| == 1 then [] else [0] + Mul(f[1..], g))
  }

  lemma {:induction false} AddEval(f: Poly, g: Poly, x: int)
    ensures Eval(AddPoly(f, g), x) == Eval(f, x) + Eval(g, x)
  {
    if f != [] && g != [] {
      AddEval(f[1..], g[1..], x);
      HornerSum(f[0], g[0], x, Eval(f[1..], x), Eval(g[1..], x));
    }
  }

  lemma HornerSum(a: int, b: int, x: int, u: int, v: int)
    ensures a + b + x * (u + v) == (a + x * u) + (b + x * v)
  {
  }

  lemma {:induction false} ScaleEval(c: int, f: Poly, x: int)
    ensures Eval(Scale(c, f), x) == c * Eval(f, x)
  {
    if f != [] {
      ScaleEval(c, f[1..], x);
      Distribute(f[0], x * Eval(f[1..], x), c);
      Regroup(c, x, Eval(f[1..], x));
    }
  }

  lemma {:induction false} MulEval(f: Poly, g: Poly, x: int)
    requires g != []
    ensures Eval(Mul(f, g), x) == Eval(f, x) * Eval(g, x)
  {
    if f == [] {
    } else {
      ScaleEval(f[0], g, x);
      MulEval(f[1..], g, x);
      var m := Mul(f[1..], g);
      var shifted := if |f| == 1 then [] else [0] + m;
      AddEval(Scale(f[0], g), shifted, x);
      assert Eval(shifted, x) == x * Eval(m, x);
      Distribute(f[0], x * Eval(f[1..], x), Eval(g, x));
      Regroup(x, Eval(f[1..], x), Eval(g, x));
    }
  }

  // The leading coefficient of a product.
  lemma {:induction false} MulTop(f: Poly, g: Poly)
    requires f != [] && g != []
    ensures Mul(f, g)[|f| + |g| - 2] == f[|f| - 1] * g[|g| - 1]
  {
    hide Scale, AddPoly;
    if |f| == 1 {
      ScaleAt(f[0], g, |g| - 1);
      AddNothing(Scale(f[0], g));
    } else {
      var m := Mul(f[1..], g);
      MulTop(f[1..], g);
      AddTop(Scale(f[0], g), [0] + m);
      assert ([0] + m)[|m|] == m[|m| - 1];
    }
  }

  lemma AddNothing(f: Poly)
    ensures AddPoly(f, []) == f
  {
  }

  lemma {:induction false} ScaleAt(c: int, f: Poly, i: nat)
    requires i < |f|
    ensures Scale(c, f)[i] == c * f[i]
  {
    if i > 0 {
      ScaleAt(c, f[1..], i - 1);
    }
  }

  lemma {:induction false} AddTop(f: Poly, g: Poly)
    requires |f| < |g|
    ensures AddPoly(f, g)[|g| - 1] == g[|g| - 1]
  {
    if f != [] {
      AddTop(f[1..], g[1..]);
    }
  }
}
