// Remainders of sums, differences and products.
module Modular {
  lemma ModShift(r: int, q: int, b: int)
    requires 0 < b
    ensures (b * q + r) % b == r % b
  {
    var s, t := r / b, r % b;
    assert b * q + r == b * (q + s) + t;
    ModUnique(b * q + r, q + s, t, b);
  }

  lemma ModUnique(x: int, q: int, t: int, b: int)
    requires 0 < b && x == b * q + t && 0 <= t < b
    ensures x % b == t
  {
    var d := x / b - q;
    assert b * d == t - x % b;
    MulAway(b, d);
  }

  lemma MulAway(b: int, d: int)
    requires 0 < b
    ensures 1 <= d ==> b <= b * d
    ensures d <= -1 ==> b * d <= -b
  {
  }

  lemma ModAdd(x: int, y: int, b: int)
    requires 0 < b
    ensures (x % b + y % b) % b == (x + y) % b
  {
    var q, s, r := x / b, y / b, x % b + y % b;
    assert b * q + b * s == b * (q + s);
    assert x + y == b * (q + s) + r;
    ModShift(r, q + s, b);
  }

  lemma ModSub(x: int, y: int, b: int)
    requires 0 < b
    ensures (x % b - y % b) % b == (x - y) % b
  {
    var q, s, r := x / b, y / b, x % b - y % b;
    assert b * q - b * s == b * (q - s);
    assert x - y == b * (q - s) + r;
    ModShift(r, q - s, b);
  }

  lemma ModMul(x: int, y: int, b: int)
    requires 0 < b
    ensures ((x % b) * y) % b == (x * y) % b
    ensures (x * (y % b)) % b == (x * y) % b
  {
    ModMulLeft(x, y, b);
    ModMulLeft(y, x, b);
    Commute(x, y);
    Commute(x, y % b);
  }

  lemma ModMulLeft(x: int, y: int, b: int)
    requires 0 < b
    ensures ((x % b) * y) % b == (x * y) % b
  {
    var q, r := x / b, x % b;
    Split(x, b);
    LinkMul(x, b, q, r, y);
    ModShift(r * y, q * y, b);
  }

  lemma LinkMul(x: int, b: int, q: int, r: int, y: int)
    requires x == b * q + r
    ensures x * y == b * (q * y) + r * y
  {
  }

  lemma Commute(x: int, y: int)
    ensures x * y == y * x
  {
  }

  lemma Split(x: int, b: int)
    requires 0 < b
    ensures x == b * (x / b) + x % b
  {
  }

  lemma Distribute(a: int, c: int, y: int)
    ensures (a + c) * y == a * y + c * y == y * a + y * c
    ensures (a - c) * y == a * y - c * y == y * a - y * c
  {
  }

  lemma Regroup(a: int, b: int, c: int)
    ensures (a * b) * c == a * (b * c) == b * (a * c) == (a * c) * b
  {
  }
}
