// What the cells of the multiset table add up to: a linear image, over the
// integers and modulo a prime, of signed multiplicities of positive keys.
module MultisetSketch {
  import opened Modular
  import opened SignedSketch

  const LARGE_PRIME := 982451653

  // The remainder of the source's language, which takes the dividend's sign.
  function Rem(a: int, b: int): (r: int)
    requires 0 < b
    ensures -b < r < b && (0 <= a ==> r == a % b) && (a < 0 ==> r <= 0)
    ensures r % b == a % b
  {
    if 0 <= a then a % b
    else
      NegativeRem(a, b);
      -((-a) % b)
  }

  lemma NegativeRem(a: int, b: int)
    requires 0 < b
    ensures (-((-a) % b)) % b == a % b
  {
    var q, r := (-a) / b, (-a) % b;
    assert a == b * (-q) - r;
    ModShift(-r, -q, b);
  }

  // Modular subtraction and addition of checksums.
  function SubModHash(x: nat, y: nat): (r: nat)
    ensures r == (x - y) % LARGE_PRIME
  {
    ModSub(x, y, LARGE_PRIME);
    var res := Rem(x % LARGE_PRIME - y % LARGE_PRIME, LARGE_PRIME);
    if res < 0 then res + LARGE_PRIME else res
  }

  function AddModHash(x: nat, y: nat): (r: nat)
    ensures r == (x + y) % LARGE_PRIME
  {
    ModAdd(x, y, LARGE_PRIME);
    // a sum of two remainders is not negative, so its remainder needs no correction
    Rem(x % LARGE_PRIME + y % LARGE_PRIME, LARGE_PRIME)
  }

  // Signed multiplicities; a key that is absent has multiplicity zero.
  type Counts = map<nat, int>

  function Mult(m: Counts, k: nat): int {
    if k in m then m[k] else 0
  }

  datatype Vec = Vec(count: int, keys: int, checks: int)

  function Plus(a: Vec, b: Vec): Vec {
    Vec(a.count + b.count, a.keys + b.keys, a.checks + b.checks)
  }

  function Minus(a: Vec, b: Vec): Vec {
    Vec(a.count - b.count, a.keys - b.keys, a.checks - b.checks)
  }

  const NOTHING := Vec(0, 0, 0)

  lemma PlusLaws(a: Vec, b: Vec, c: Vec, d: Vec)
    ensures Plus(a, Plus(b, c)) == Plus(b, Plus(a, c)) == Plus(Plus(b, a), c)
    ensures Plus(a, NOTHING) == a == Plus(NOTHING, a)
    ensures Minus(Plus(a, b), Plus(c, d)) == Plus(Minus(a, c), Minus(b, d))
  {
  }

  // n copies of one key.
  function Times(h: Hasher, n: int, k: nat): Vec {
    Vec(n, n * k, n * h.Check(k))
  }

  lemma TimesAdds(h: Hasher, n: int, n': int, k: nat)
    ensures Times(h, n + n', k) == Plus(Times(h, n, k), Times(h, n', k))
    ensures Times(h, n - n', k) == Minus(Times(h, n, k), Times(h, n', k))
    ensures Times(h, 0, k) == NOTHING
  {
  }

  ghost function Sum(h: Hasher, m: Counts, ks: set<nat>): Vec
    decreases ks
  {
    if ks == {} then NOTHING
    else var k :| k in ks; Plus(Times(h, Mult(m, k), k), Sum(h, m, ks - {k}))
  }

  lemma {:induction false} SumTake(h: Hasher, m: Counts, ks: set<nat>, k: nat)
    requires k in ks
    ensures Sum(h, m, ks) == Plus(Times(h, Mult(m, k), k), Sum(h, m, ks - {k}))
    decreases ks
  {
    hide Times, Plus;
    var k' :| k' in ks && Sum(h, m, ks) == Plus(Times(h, Mult(m, k'), k'), Sum(h, m, ks - {k'}));
    if k' != k {
      SumTake(h, m, ks - {k'}, k);
      SumTake(h, m, ks - {k}, k');
      assert ks - {k'} - {k} == ks - {k} - {k'};
      PlusLaws(Times(h, Mult(m, k), k), Times(h, Mult(m, k'), k'), Sum(h, m, ks - {k} - {k'}), NOTHING);
    }
  }

  lemma {:induction false} SumSame(h: Hasher, m: Counts, m': Counts, ks: set<nat>)
    requires forall k :: k in ks ==> Mult(m, k) == Mult(m', k)
    ensures Sum(h, m, ks) == Sum(h, m', ks)
    decreases ks
  {
    hide Times;
    if ks != {} {
      var k :| k in ks;
      SumTake(h, m, ks, k);
      SumTake(h, m', ks, k);
      SumSame(h, m, m', ks - {k});
    }
  }

  lemma {:induction false} SumZeros(h: Hasher, m: Counts, ks: set<nat>, more: set<nat>)
    requires forall k :: k in more && k !in ks ==> Mult(m, k) == 0
    ensures Sum(h, m, ks + more) == Sum(h, m, ks)
    decreases more
  {
    hide Times, Plus;
    if more <= ks {
      assert ks + more == ks;
    } else {
      var k :| k in more && k !in ks;
      SumTake(h, m, ks + more, k);
      TimesAdds(h, 0, 0, k);
      assert ks + more - {k} == ks + (more - {k});
      SumZeros(h, m, ks, more - {k});
      PlusLaws(Sum(h, m, ks), NOTHING, NOTHING, NOTHING);
    }
  }

  lemma SumBump(h: Hasher, m: Counts, ks: set<nat>, k: nat, n: int)
    requires k in ks
    ensures Sum(h, m[k := Mult(m, k) + n], ks) == Plus(Sum(h, m, ks), Times(h, n, k))
  {
    hide Times, Plus;
    var m' := m[k := Mult(m, k) + n];
    SumTake(h, m, ks, k);
    SumTake(h, m', ks, k);
    SumSame(h, m, m', ks - {k});
    TimesAdds(h, Mult(m, k), n, k);
    PlusLaws(Times(h, n, k), Times(h, Mult(m, k), k), Sum(h, m, ks - {k}), NOTHING);
    PlusCommutes(Times(h, n, k), Sum(h, m, ks));
  }

  lemma PlusCommutes(a: Vec, b: Vec)
    ensures Plus(a, b) == Plus(b, a)
  {
  }

  function Less(m1: Counts, m2: Counts): Counts {
    map k | k in m1.Keys + m2.Keys :: Mult(m1, k) - Mult(m2, k)
  }

  lemma {:induction false} SumLess(h: Hasher, m1: Counts, m2: Counts, ks: set<nat>)
    ensures Sum(h, Less(m1, m2), ks) == Minus(Sum(h, m1, ks), Sum(h, m2, ks))
    decreases ks
  {
    hide Times, Plus, Less;
    if ks != {} {
      var k :| k in ks;
      SumTake(h, m1, ks, k);
      SumTake(h, m2, ks, k);
      SumTake(h, Less(m1, m2), ks, k);
      SumLess(h, m1, m2, ks - {k});
      MultLess(m1, m2, k);
      TimesAdds(h, Mult(m1, k), Mult(m2, k), k);
      PlusLaws(Times(h, Mult(m1, k), k), Sum(h, m1, ks - {k}), Times(h, Mult(m2, k), k), Sum(h, m2, ks - {k}));
    }
  }

  lemma MultLess(m1: Counts, m2: Counts, k: nat)
    ensures Mult(Less(m1, m2), k) == Mult(m1, k) - Mult(m2, k)
  {
  }

  // The keys of a set that fall into cell j.
  ghost function HitKeys(h: Hasher, ks: set<nat>, j: nat): set<nat>
    requires h.Valid()
  {
    set k | k in ks && h.Hits(k, j)
  }

  // The number of copies, whatever their sign.
  ghost function Size(m: Counts, ks: set<nat>): nat
    decreases ks
  {
    if ks == {} then 0
    else var k :| k in ks; Abs(Mult(m, k)) + Size(m, ks - {k})
  }

  function Abs(x: int): nat {
    if x < 0 then -x else x
  }

  lemma {:induction false} SizeTake(m: Counts, ks: set<nat>, k: nat)
    requires k in ks
    ensures Size(m, ks) == Abs(Mult(m, k)) + Size(m, ks - {k})
    decreases ks
  {
    var k' :| k' in ks && Size(m, ks) == Abs(Mult(m, k')) + Size(m, ks - {k'});
    if k' != k {
      SizeTake(m, ks - {k'}, k);
      SizeTake(m, ks - {k}, k');
      assert ks - {k'} - {k} == ks - {k} - {k'};
    }
  }

  lemma {:induction false} SizeSame(m: Counts, m': Counts, ks: set<nat>)
    requires forall k :: k in ks ==> Mult(m, k) == Mult(m', k)
    ensures Size(m, ks) == Size(m', ks)
    decreases ks
  {
    if ks != {} {
      var k :| k in ks;
      SizeTake(m, ks, k);
      SizeTake(m', ks, k);
      SizeSame(m, m', ks - {k});
    }
  }

  lemma SizeDrops(m: Counts, k: nat, v: int)
    requires k in m && Abs(v) < Abs(m[k])
    ensures Size(m[k := v], m.Keys) < Size(m, m.Keys)
  {
    SizeTake(m, m.Keys, k);
    SizeTake(m[k := v], m.Keys, k);
    SizeSame(m, m[k := v], m.Keys - {k});
  }
}
