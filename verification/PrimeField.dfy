// Arithmetic modulo a prime. Elements are integers; a number is zero in the
// field when the prime divides it.
module PrimeField {
  import opened Modular

  ghost predicate IsPrime(p: nat) {
    2 <= p && forall d: nat :: 2 <= d < p ==> p % d != 0
  }

  lemma PrimePositive(p: nat)
    requires IsPrime(p)
    ensures 0 < p
  {
  }

  predicate Zero(p: nat, a: int)
    requires 0 < p
  {
    a % p == 0
  }

  predicate Equal(p: nat, a: int, b: int)
    requires 0 < p
  {
    Zero(p, a - b)
  }

  lemma ZeroMultiple(p: nat, k: int)
    requires 0 < p
    ensures Zero(p, p * k)
  {
    ModUnique(p * k, k, 0, p);
  }

  lemma ZeroSum(p: nat, a: int, b: int)
    requires 0 < p && Zero(p, a)
    ensures Zero(p, a + b) <==> Zero(p, b)
    ensures Zero(p, a - b) <==> Zero(p, b)
    ensures Zero(p, b - a) <==> Zero(p, b)
  {
    Split(a, p);
    ModShift(b, a / p, p);
    ModShift(b, -(a / p), p);
    Negative(p, b - a);
    Negative(p, b);
    assert p * (-(a / p)) == -(p * (a / p));
  }

  lemma Negative(p: nat, a: int)
    requires 0 < p
    ensures Zero(p, -a) <==> Zero(p, a)
  {
    if Zero(p, a) {
      Split(a, p);
      assert -a == p * (-(a / p));
      ZeroMultiple(p, -(a / p));
    }
    if Zero(p, -a) {
      Split(-a, p);
      assert a == p * (-(-a / p));
      ZeroMultiple(p, -(-a / p));
    }
  }

  lemma ZeroProduct(p: nat, a: int, b: int)
    requires 0 < p && Zero(p, a)
    ensures Zero(p, a * b) && Zero(p, b * a)
  {
    Split(a, p);
    Regroup(p, a / p, b);
    ZeroMultiple(p, (a / p) * b);
  }

  lemma EqualRemainders(p: nat, a: int, b: int)
    requires 0 < p
    ensures Equal(p, a, b) <==> a % p == b % p
  {
    if Equal(p, a, b) {
      Split(a - b, p);
      ModShift(b, (a - b) / p, p);
    }
    if a % p == b % p {
      Split(a, p);
      Split(b, p);
      assert a - b == p * (a / p - b / p);
      ZeroMultiple(p, a / p - b / p);
    }
  }

  // Euclid's lemma: the field has no divisors of zero.
  lemma NoZeroDivisors(p: nat, a: int, b: int)
    requires IsPrime(p)
    ensures Zero(p, a * b) <==> Zero(p, a) || Zero(p, b)
  {
    if Zero(p, a) {
      ZeroProduct(p, a, b);
    } else if Zero(p, b) {
      ZeroProduct(p, b, a);
    } else if Zero(p, a * b) {
      ModMul(a, b, p);
      Euclid(p, a % p, b);
    }
  }

  lemma {:induction false} Euclid(p: nat, a: nat, b: int)
    requires IsPrime(p) && 0 < a < p && Zero(p, a * b)
    ensures Zero(p, b)
    decreases a
  {
    if a > 1 {
      var q, r := p / a, p % a;
      Split(p, a);
      Distribute(a * q, r, b);
      Regroup(a, q, b);
      ZeroProduct(p, a * b, q);
      ZeroMultiple(p, b);
      assert p * b == (a * b) * q + r * b;
      ZeroSum(p, (a * b) * q, r * b);
      Euclid(p, r, b);
    }
  }

  // The multiplicative inverse.
  function Inv(p: nat, a: nat): (i: int)
    requires IsPrime(p) && 0 < a < p
    ensures Equal(p, a * i, 1)
    decreases a
  {
    if a == 1 then 1
    else
      var i := Inv(p, p % a);
      InvStep(p, a, i);
      -(p / a) * i
  }

  lemma InvStep(p: nat, a: nat, i: int)
    requires 0 < a < p && Equal(p, (p % a) * i, 1)
    ensures Equal(p, a * (-(p / a) * i), 1)
  {
    var q, r := p / a, p % a;
    Split(p, a);
    Distribute(a * q, r, i);
    Regroup(a, q, i);
    assert a * (-q * i) == -(a * (q * i)) by { Regroup(a, -q, i); assert a * -q == -(a * q); }
    assert p * i == a * (q * i) + r * i;
    ZeroMultiple(p, -i);
    assert a * (-q * i) - 1 == p * (-i) + (r * i - 1);
    ZeroSum(p, p * (-i), r * i - 1);
  }

  // Field division, with a reduced result.
  function Divide(p: nat, a: int, b: int): (c: nat)
    requires IsPrime(p) && !Zero(p, b)
    ensures c < p && Equal(p, c * b, a)
  {
    var i := Inv(p, b % p);
    DivideStep(p, a, b, i);
    (a * i) % p
  }

  lemma DivideStep(p: nat, a: int, b: int, i: int)
    requires 0 < p && Equal(p, (b % p) * i, 1)
    ensures Equal(p, ((a * i) % p) * b, a)
  {
    ModMul(b, i, p);
    EqualRemainders(p, (b % p) * i, 1);
    EqualRemainders(p, b * i, 1);
    ZeroProduct(p, b * i - 1, a);
    Distribute(b * i, 1, a);
    ModMul(a * i, b, p);
    Regroup(a, i, b);
    Regroup(b, i, a);
    EqualRemainders(p, ((a * i) % p) * b, a * i * b);
    assert ((a * i) % p) * b - a == (((a * i) % p) * b - a * i * b) + (b * i * a - a);
    ZeroSum(p, ((a * i) % p) * b - a * i * b, b * i * a - a);
  }

  // Cancelling a nonzero factor.
  lemma CancelFactor(p: nat, c: int, a: int, b: int)
    requires IsPrime(p) && !Zero(p, c) && Equal(p, c * a, c * b)
    ensures Equal(p, a, b)
  {
    hide Zero, IsPrime;
    Factor(c, a, b);
    NoZeroDivisors(p, c, a - b);
  }

  lemma Factor(c: int, a: int, b: int)
    ensures c * (a - b) == c * a - c * b
  {
  }
}
