// The invertible Bloom lookup table for multisets: counts, sums of keys and
// modular sums of checksums, peeled one copy at a time.
module IBLTMultisets {
  import opened Modular
  import opened SignedSketch
  import opened MultisetSketch

  datatype Cell = Cell(count: int, keySum: int, keyCheck: nat, valueSum: int) {
    predicate Empty() {
      count == 0 && keySum == 0 && keyCheck == 0
    }

    predicate Pure(h: Hasher) {
      (count == 1 || count == -1) && keySum != 0
      && var check := h.Check(Abs(keySum));
         keyCheck == if 0 < keySum then AddModHash(0, check) else SubModHash(0, check)
    }

    // What the accumulating loop of the multi-pure test decides.
    ghost predicate MultiPure(h: Hasher) {
      count != 0 && keySum != 0
      && var check := h.Check(FloorDiv(keySum, count));
         keyCheck == (if 0 < keySum then Abs(count) * check else -(Abs(count) * check)) % LARGE_PRIME
    }

    ghost predicate Is(v: Vec) {
      count == v.count && keySum == v.keys && keyCheck == v.checks % LARGE_PRIME
    }
  }

  type Table = seq<Cell>

  const EMPTY := Cell(0, 0, 0, 0)

  // Division of the source's big integers rounds down.
  function FloorDiv(a: int, b: int): int
    requires b != 0
  {
    if 0 < b then a / b else (-a) / (-b)
  }

  lemma FloorDivExact(n: int, k: int)
    requires n != 0
    ensures FloorDiv(n * k, n) == k
  {
    if 0 < n {
      DivUnique(n, k);
    } else {
      DivUnique(-n, k);
      assert -(n * k) == (-n) * k;
    }
  }

  lemma DivUnique(n: int, k: int)
    requires 0 < n
    ensures (n * k) / n == k
  {
    var d := (n * k) / n - k;
    assert n * d == -((n * k) % n);
    MulAway(n, d);
  }

  lemma RepeatStep(ii: nat, check: nat)
    ensures ((ii * check) % LARGE_PRIME + check % LARGE_PRIME) % LARGE_PRIME == ((ii + 1) * check) % LARGE_PRIME
    ensures (-(ii * check) % LARGE_PRIME - check % LARGE_PRIME) % LARGE_PRIME == (-((ii + 1) * check)) % LARGE_PRIME
  {
    var x := ii * check;
    assert (ii + 1) * check == x + check;
    ModAdd(x, check, LARGE_PRIME);
    ModSub(-x, check, LARGE_PRIME);
  }

  // The loop that repeats a checksum count times.
  method IsMultiPure(h: Hasher, c: Cell) returns (b: bool)
    ensures b <==> c.MultiPure(h)
  {
    if c.count == 0 || c.keySum == 0 {
      return false;
    }
    var absCount := Abs(c.count);
    var check := h.Check(FloorDiv(c.keySum, c.count));
    var singleCountHash := check % LARGE_PRIME;
    var sum := 0;
    var ii := 0;
    while ii < absCount
      invariant 0 <= ii <= absCount
      invariant sum == (if 0 < c.keySum then ii * check else -(ii * check)) % LARGE_PRIME
    {
      RepeatStep(ii, check);
      if 0 < c.keySum {
        sum := AddModHash(sum, singleCountHash);
      } else {
        sum := SubModHash(sum, singleCountHash);
      }
      ii := ii + 1;
    }
    return sum == c.keyCheck;
  }

  function Bump(c: Cell, h: Hasher, plusOrMinus: int, key: nat, value: int): Cell {
    var modHashCheck := h.Check(key) % LARGE_PRIME;
    var check :=
      if plusOrMinus == 1 then AddModHash(c.keyCheck, modHashCheck)
      else if plusOrMinus == -1 then SubModHash(c.keyCheck, modHashCheck)
      else c.keyCheck;
    var e := Cell(c.count + plusOrMinus, c.keySum + plusOrMinus * key, check, c.valueSum);
    if e.Empty() then e.(valueSum := 0) else e.(valueSum := e.valueSum + plusOrMinus * value)
  }

  lemma BumpIs(c: Cell, h: Hasher, plusOrMinus: int, key: nat, value: int, v: Vec)
    requires c.Is(v) && (plusOrMinus == 1 || plusOrMinus == -1)
    ensures Bump(c, h, plusOrMinus, key, value).Is(Plus(v, Times(h, plusOrMinus, key)))
  {
    if plusOrMinus == 1 {
      ModAdd(v.checks, h.Check(key), LARGE_PRIME);
    } else {
      ModSub(v.checks, h.Check(key), LARGE_PRIME);
    }
  }

  // The table is the image of the signed multiplicities m.
  ghost predicate Sketches(h: Hasher, t: Table, m: Counts)
    requires h.Valid()
  {
    |t| == h.size && forall j: nat :: j < |t| ==> t[j].Is(Sum(h, m, HitKeys(h, m.Keys, j)))
  }

  ghost predicate ValuesMatch(t: Table) {
    forall j :: 0 <= j < |t| ==> t[j].valueSum == t[j].keySum
  }

  // Exactly the cells reached by the first n hash functions are bumped.
  ghost predicate Bumped(h: Hasher, was: Table, now: Table, plusOrMinus: int, key: nat, value: int, n: nat)
    requires h.Valid() && n <= h.numHashes(key)
  {
    |was| == |now| == h.size && forall j: nat :: j < |was| ==>
      now[j] == if h.Reaches(key, n, j) then Bump(was[j], h, plusOrMinus, key, value) else was[j]
  }

  lemma BumpStep(h: Hasher, was: Table, mid: Table, now: Table, plusOrMinus: int, key: nat, value: int, ii: nat)
    requires h.Valid() && ii < h.numHashes(key) && Bumped(h, was, mid, plusOrMinus, key, value, ii)
    requires var j := h.Slot(key, ii);
      now == mid[j := Bump(mid[j], h, plusOrMinus, key, value)]
    ensures Bumped(h, was, now, plusOrMinus, key, value, ii + 1)
  {
    hide Bump, Hasher.Slot, Hasher.Valid;
    h.ReachesMore(key, ii);
  }

  lemma BumpedSketches(h: Hasher, was: Table, now: Table, plusOrMinus: int, key: nat, value: int, m: Counts)
    requires h.Valid() && Sketches(h, was, m) && (plusOrMinus == 1 || plusOrMinus == -1)
    requires Bumped(h, was, now, plusOrMinus, key, value, h.numHashes(key))
    ensures Sketches(h, now, m[key := Mult(m, key) + plusOrMinus])
  {
    hide Sum, Times, Plus, Bump, Hasher.Reaches, Hasher.Valid, Cell.Is;
    var m' := m[key := Mult(m, key) + plusOrMinus];
    forall j: nat | j < |now| ensures now[j].Is(Sum(h, m', HitKeys(h, m'.Keys, j))) {
      var ks, ks' := HitKeys(h, m.Keys, j), HitKeys(h, m'.Keys, j);
      if h.Hits(key, j) {
        assert ks' == ks + {key};
        SumZeros(h, m, ks, {key});
        SumBump(h, m, ks', key, plusOrMinus);
        BumpIs(was[j], h, plusOrMinus, key, value, Sum(h, m, ks));
      } else {
        assert ks' == ks;
        SumSame(h, m, m', ks);
      }
    }
  }

  function MinusCell(e1: Cell, e2: Cell): Cell {
    var e := Cell(e1.count - e2.count, e1.keySum - e2.keySum, SubModHash(e1.keyCheck, e2.keyCheck), e1.valueSum);
    if e.Empty() then e.(valueSum := 0) else e.(valueSum := e.valueSum - e2.valueSum)
  }

  lemma MinusIs(e1: Cell, e2: Cell, v1: Vec, v2: Vec)
    requires e1.Is(v1) && e2.Is(v2)
    ensures MinusCell(e1, e2).Is(Minus(v1, v2))
  {
    ModSub(v1.checks, v2.checks, LARGE_PRIME);
  }

  // Subtraction of tables is subtraction of multiplicities.
  lemma MinusSketches(h: Hasher, t1: Table, t2: Table, t: Table, m1: Counts, m2: Counts)
    requires h.Valid() && Sketches(h, t1, m1) && Sketches(h, t2, m2)
    requires |t| == |t1| && forall j: nat :: j < |t| ==> t[j] == MinusCell(t1[j], t2[j])
    ensures Sketches(h, t, Less(m1, m2))
  {
    assert Less(m1, m2).Keys == m1.Keys + m2.Keys;
    hide Sum, Less, Minus, MinusCell, Cell.Is, Hasher.Hits, Hasher.Valid;
    var all := m1.Keys + m2.Keys;
    forall j: nat | j < |t| ensures t[j].Is(Sum(h, Less(m1, m2), HitKeys(h, all, j))) {
      var ks := HitKeys(h, all, j);
      assert ks == HitKeys(h, m1.Keys, j) + HitKeys(h, m2.Keys, j) == HitKeys(h, m2.Keys, j) + HitKeys(h, m1.Keys, j);
      SumZeros(h, m1, HitKeys(h, m1.Keys, j), HitKeys(h, m2.Keys, j));
      SumZeros(h, m2, HitKeys(h, m2.Keys, j), HitKeys(h, m1.Keys, j));
      SumLess(h, m1, m2, ks);
      MinusIs(t1[j], t2[j], Sum(h, m1, ks), Sum(h, m2, ks));
    }
  }

  // Hashing every key to its value makes sums of checksums sums of values.
  function Valued(val: nat -> nat): Hasher {
    Hasher((k, i) => if k < 0 then 0 else val(k), 0, k => 1, 1)
  }

  // The values of the copies that fall into cell j.
  ghost function ValuesAt(h: Hasher, m: Counts, j: nat, val: nat -> nat): int
    requires h.Valid()
  {
    Sum(Valued(val), m, HitKeys(h, m.Keys, j)).checks
  }

  // Every cell's value sum is that of the copies that fall into it.
  ghost predicate Carries(h: Hasher, t: Table, m: Counts, val: nat -> nat)
    requires h.Valid()
  {
    forall j: nat :: j < |t| ==> t[j].valueSum == ValuesAt(h, m, j, val)
  }

  // No cell looks empty that holds something.
  ghost predicate Honest(h: Hasher, t: Table, m: Counts)
    requires h.Valid()
  {
    forall j: nat :: j < |t| && t[j].Empty() ==> forall k :: k in HitKeys(h, m.Keys, j) ==> m[k] == 0
  }

  lemma NoValues(h: Hasher, m: Counts, j: nat, val: nat -> nat)
    requires h.Valid() && forall k :: k in HitKeys(h, m.Keys, j) ==> m[k] == 0
    ensures ValuesAt(h, m, j, val) == 0
  {
    hide Hasher.Hits, Sum;
    var ks := HitKeys(h, m.Keys, j);
    SumZeros(Valued(val), m, {}, ks);
    assert {} + ks == ks;
    SumNone(Valued(val), m);
  }

  lemma BumpValue(c: Cell, h: Hasher, plusOrMinus: int, key: nat, value: int)
    ensures var r := Bump(c, h, plusOrMinus, key, value);
      r.valueSum == if r.Empty() then 0 else c.valueSum + plusOrMinus * value
  {
  }

  // Adding or taking away a copy with its value.
  lemma BumpedCarries(h: Hasher, was: Table, now: Table, plusOrMinus: int, key: nat, m: Counts, val: nat -> nat)
    requires h.Valid() && Carries(h, was, m, val) && Honest(h, now, m[key := Mult(m, key) + plusOrMinus])
    requires Bumped(h, was, now, plusOrMinus, key, val(key), h.numHashes(key))
    ensures Carries(h, now, m[key := Mult(m, key) + plusOrMinus], val)
  {
    hide Sum, Plus, Bump, Cell.Empty, Hasher.Reaches, Hasher.Valid;
    var m' := m[key := Mult(m, key) + plusOrMinus];
    var v := Valued(val);
    forall j: nat | j < |now| ensures now[j].valueSum == ValuesAt(h, m', j, val) {
      var ks, ks' := HitKeys(h, m.Keys, j), HitKeys(h, m'.Keys, j);
      if h.Hits(key, j) {
        assert ks' == ks + {key};
        SumZeros(v, m, ks, {key});
        SumBump(v, m, ks', key, plusOrMinus);
        PlusChecks(Sum(v, m, ks), Times(v, plusOrMinus, key));
        BumpValue(was[j], h, plusOrMinus, key, val(key));
        if now[j].Empty() {
          NoValues(h, m', j, val);
        }
      } else {
        assert ks' == ks;
        SumSame(v, m, m', ks);
      }
    }
  }

  lemma PlusChecks(a: Vec, b: Vec)
    ensures Plus(a, b).checks == a.checks + b.checks
  {
  }

  // The difference of two tables carries the values of the difference.
  lemma MinusCarries(h: Hasher, t1: Table, t2: Table, t: Table, m1: Counts, m2: Counts, val: nat -> nat)
    requires h.Valid() && Carries(h, t1, m1, val) && Carries(h, t2, m2, val) && Honest(h, t, Less(m1, m2))
    requires |t| == |t1| == |t2| && forall j: nat :: j < |t| ==> t[j] == MinusCell(t1[j], t2[j])
    ensures Carries(h, t, Less(m1, m2), val)
  {
    assert Less(m1, m2).Keys == m1.Keys + m2.Keys;
    hide Sum, Less, MinusCell, Cell.Empty, Hasher.Hits, Hasher.Valid;
    var (v, all) := (Valued(val), m1.Keys + m2.Keys);
    forall j: nat | j < |t| ensures t[j].valueSum == ValuesAt(h, Less(m1, m2), j, val) {
      var ks := HitKeys(h, all, j);
      assert ks == HitKeys(h, m1.Keys, j) + HitKeys(h, m2.Keys, j) == HitKeys(h, m2.Keys, j) + HitKeys(h, m1.Keys, j);
      SumZeros(v, m1, HitKeys(h, m1.Keys, j), HitKeys(h, m2.Keys, j));
      SumZeros(v, m2, HitKeys(h, m2.Keys, j), HitKeys(h, m1.Keys, j));
      SumLess(v, m1, m2, ks);
      MinusValue(t1[j], t2[j]);
      if t[j].Empty() {
        NoValues(h, Less(m1, m2), j, val);
      }
    }
  }

  lemma MinusValue(e1: Cell, e2: Cell)
    ensures var r := MinusCell(e1, e2);
      r.valueSum == if r.Empty() then 0 else e1.valueSum - e2.valueSum
  {
  }

  // Values equal to the keys are one case.
  lemma MatchCarries(h: Hasher, t: Table, m: Counts)
    requires h.Valid() && Sketches(h, t, m)
    ensures ValuesMatch(t) <==> Carries(h, t, m, k => k)
  {
    hide Sum, Hasher.Hits;
    forall j: nat | j < |t| ensures t[j].keySum == ValuesAt(h, m, j, k => k) {
      SameTotals(h, m, HitKeys(h, m.Keys, j));
    }
  }

  lemma {:induction false} SameTotals(h: Hasher, m: Counts, ks: set<nat>)
    ensures Sum(h, m, ks).keys == Sum(Valued(k => k), m, ks).checks
    decreases ks
  {
    if ks != {} {
      var k :| k in ks;
      SumTake(h, m, ks, k);
      SumTake(Valued(k => k), m, ks, k);
      SameTotals(h, m, ks - {k});
    }
  }

  // Part of a signed multiset: fewer copies, never of the other sign.
  ghost predicate Within(s: Counts, m: Counts) {
    s.Keys <= m.Keys && forall k :: k in s ==> 0 <= s[k] <= m[k] || m[k] <= s[k] <= 0
  }

  ghost predicate Only(s: Counts, k: nat) {
    k in s && s[k] != 0 && forall k' :: k' in s && k' != k ==> s[k'] == 0
  }

  ghost predicate Nothing(s: Counts) {
    forall k :: k in s ==> s[k] == 0
  }

  // The quotient rounded down.
  ghost predicate IsFloor(a: int, b: int, q: int) {
    if 0 < b then b * q <= a < b * q + b else b * q + b < a <= b * q
  }

  // A sum whose count is one or minus one and whose checks are those of its keys.
  ghost predicate LooksLikeOne(h: Hasher, v: Vec) {
    && (v.count == 1 || v.count == -1) && v.keys != 0
    && var check: int := h.hash(Abs(v.keys), h.checkIndex);
       v.checks % LARGE_PRIME == (if 0 < v.keys then check else -check) % LARGE_PRIME
  }

  // A sum whose checks are those of as many copies of the mean key, rounded down.
  ghost predicate LooksLikeCopies(h: Hasher, v: Vec) {
    && v.count != 0 && v.keys != 0
    && exists q :: IsFloor(v.keys, v.count, q) && ChecksOfCopies(h, v, q)
  }

  ghost predicate ChecksOfCopies(h: Hasher, v: Vec, q: int) {
    var checks := Abs(v.count) * h.hash(q, h.checkIndex);
    v.checks % LARGE_PRIME == (if 0 < v.keys then checks else -checks) % LARGE_PRIME
  }

  // The checksums distinguish what a cell may hold: a sum that looks like copies of
  // one key is one, and only nothing sums to zero.
  ghost predicate Recognised(h: Hasher, s: Counts) {
    var v := Sum(h, s, s.Keys);
    && (LooksLikeOne(h, v) || LooksLikeCopies(h, v) ==> exists k :: Only(s, k))
    && (v.count == 0 && v.keys == 0 && v.checks % LARGE_PRIME == 0 ==> Nothing(s))
  }

  lemma FloorDivMeans(a: int, b: int, q: int)
    requires b != 0
    ensures IsFloor(a, b, q) <==> q == FloorDiv(a, b)
  {
    var d := FloorDiv(a, b);
    if 0 < b {
      Split(a, b);
      if IsFloor(a, b, q) {
        ModUnique(a, q, a - b * q, b);
        MulAway(b, q - d);
        assert b * (q - d) == b * q - b * d;
      }
    } else {
      Split(-a, -b);
      assert (-b) * d == -(b * d);
      if IsFloor(a, b, q) {
        assert (-b) * q == -(b * q);
        MulAway(-b, q - d);
        assert (-b) * (q - d) == (-b) * q - (-b) * d;
      }
    }
  }

  // The tests of a cell in terms of what it adds up to.
  lemma TestsMean(h: Hasher, c: Cell, v: Vec)
    requires c.Is(v)
    ensures c.Pure(h) <==> LooksLikeOne(h, v)
    ensures c.MultiPure(h) <==> LooksLikeCopies(h, v)
    ensures c.Empty() <==> v.count == 0 && v.keys == 0 && v.checks % LARGE_PRIME == 0
  {
    if v.count != 0 {
      hide FloorDiv, IsFloor;
      forall q ensures IsFloor(v.keys, v.count, q) <==> q == FloorDiv(v.keys, v.count) {
        FloorDivMeans(v.keys, v.count, q);
      }
      var q := FloorDiv(v.keys, v.count);
      assert IsFloor(v.keys, v.count, q);
      assert v.keys != 0 ==> (c.MultiPure(h) <==> ChecksOfCopies(h, v, q));
    }
  }

  // What falls into cell j.
  ghost function At(h: Hasher, m: Counts, j: nat): Counts
    requires h.Valid()
  {
    map k | k in HitKeys(h, m.Keys, j) :: m[k]
  }

  // The keys that have copies.
  ghost function Support(m: Counts): set<nat> {
    set k | k in m && m[k] != 0
  }

  // Keys of which no cell holds exactly one: peeling cannot touch them.
  ghost predicate Stuck(h: Hasher, ks: set<nat>)
    requires h.Valid()
  {
    forall j: nat :: j < h.size ==> |HitKeys(h, ks, j)| != 1
  }

  // What peeling can leave of d: it has copies of all keys peeling cannot touch.
  ghost predicate Remains(h: Hasher, left: Counts, d: Counts)
    requires h.Valid()
  {
    Within(left, d) && forall ks: set<nat> :: ks <= Support(d) && Stuck(h, ks) ==> ks <= Support(left)
  }

  // The largest set of keys of d that peeling cannot touch.
  ghost predicate IsCore(h: Hasher, ks: set<nat>, d: Counts)
    requires h.Valid()
  {
    && ks <= Support(d) && Stuck(h, ks)
    && forall ks': set<nat> :: ks' <= Support(d) && Stuck(h, ks') ==> ks' <= ks
  }

  // The checksums tell what each cell holds while d is peeled. Nothing is asked
  // of parts of d that are spread over several cells.
  ghost predicate Faithful(h: Hasher, d: Counts)
    requires h.Valid()
  {
    forall left: Counts, j: nat :: Remains(h, left, d) && j < h.size ==> Recognised(h, At(h, left, j))
  }

  // A key that is listed in part is alone in some cell.
  ghost predicate PartlyAlone(h: Hasher, d: Counts, left: Counts)
    requires h.Valid() && left.Keys == d.Keys
  {
    forall k :: k in d && left[k] != d[k] && left[k] != 0 ==> Alone(h, left, k)
  }

  ghost predicate Alone(h: Hasher, left: Counts, k: nat)
    requires h.Valid()
  {
    exists j: nat :: j < h.size && Only(At(h, left, j), k)
  }

  lemma AloneInCell(h: Hasher, left: Counts, j: nat, ks: set<nat>, k: nat)
    requires h.Valid() && ks <= Support(left) && k in ks && Only(At(h, left, j), k)
    ensures HitKeys(h, ks, j) == {k}
  {
    hide Hasher.Hits;
    forall k' | k' in HitKeys(h, ks, j) ensures k' == k {
      assert k' in Support(left) && k' in At(h, left, j);
    }
    assert k in At(h, left, j);
  }

  lemma SingleAlone(h: Hasher, left: Counts, j: nat) returns (k: nat)
    requires h.Valid() && |HitKeys(h, Support(left), j)| == 1
    ensures Only(At(h, left, j), k)
  {
    hide Hasher.Hits;
    var ks := HitKeys(h, Support(left), j);
    k :| k in ks;
    assert ks == {k} by {
      assert |ks - {k}| == 0;
    }
    forall k' | k' in At(h, left, j) && left[k'] != 0 ensures k' == k {
      assert k' in ks;
    }
  }

  // Listing one copy of a key that is alone in a cell loses no key that peeling
  // cannot touch, and leaves the key alone or gone.
  lemma PeelKeeps(h: Hasher, d: Counts, left: Counts, i: nat, k: nat, n: int)
    requires h.Valid() && Remains(h, left, d) && left.Keys == d.Keys && PartlyAlone(h, d, left)
    requires i < h.size && k in left && Only(At(h, left, i), k) && (0 <= n < left[k] || left[k] < n <= 0)
    ensures Remains(h, left[k := n], d) && PartlyAlone(h, d, left[k := n])
  {
    hide Hasher.Hits, Only, At, Alone, Stuck, HitKeys;
    var rest := left[k := n];
    AloneHits(h, left, i, k);
    forall ks: set<nat> | ks <= Support(d) && Stuck(h, ks) ensures ks <= Support(rest) {
      StuckKept(h, left, i, ks, k);
    }
    forall k' | k' in d && rest[k'] != d[k'] && rest[k'] != 0 ensures Alone(h, rest, k') {
      StaysAlone(h, left, i, k, n, k');
    }
  }

  lemma AloneHits(h: Hasher, left: Counts, i: nat, k: nat)
    requires h.Valid() && k in left && Only(At(h, left, i), k)
    ensures left[k] != 0
  {
  }

  lemma StuckKept(h: Hasher, left: Counts, i: nat, ks: set<nat>, k: nat)
    requires h.Valid() && i < h.size && Only(At(h, left, i), k) && ks <= Support(left) && Stuck(h, ks)
    ensures k !in ks
  {
    hide Hasher.Hits;
    if k in ks {
      AloneInCell(h, left, i, ks, k);
    }
  }

  lemma StaysAlone(h: Hasher, left: Counts, i: nat, k: nat, n: int, k': nat)
    requires h.Valid() && i < h.size && k in left && Only(At(h, left, i), k)
    requires if k' == k then n != 0 else Alone(h, left, k')
    ensures Alone(h, left[k := n], k')
  {
    hide Hasher.Hits;
    var rest := left[k := n];
    if k' == k {
      assert At(h, rest, i) == At(h, left, i)[k := n];
      assert Only(At(h, rest, i), k);
    } else {
      var j: nat :| j < h.size && Only(At(h, left, j), k');
      assert k in At(h, left, i) && left[k] != 0;
      assert k !in At(h, left, j);
      assert At(h, rest, j) == At(h, left, j);
    }
  }

  // Where no cell holds copies of a single key, what is left is the core, and no
  // key is listed in part.
  lemma CoreLeft(h: Hasher, d: Counts, left: Counts)
    requires h.Valid() && Remains(h, left, d) && left.Keys == d.Keys && PartlyAlone(h, d, left)
    requires forall j: nat, k: nat :: j < h.size ==> !Only(At(h, left, j), k)
    ensures IsCore(h, Support(left), d) && forall k :: k in d ==> left[k] == 0 || left[k] == d[k]
  {
    hide Hasher.Hits;
    forall j: nat | j < h.size ensures |HitKeys(h, Support(left), j)| != 1 {
      if |HitKeys(h, Support(left), j)| == 1 {
        var k := SingleAlone(h, left, j);
      }
    }
    forall k | k in d ensures left[k] == 0 || left[k] == d[k] {
      assert !Alone(h, left, k);
    }
  }

  // A cell of the table adds up what falls into it.
  lemma CellAt(h: Hasher, t: Table, m: Counts, j: nat)
    requires h.Valid() && Sketches(h, t, m) && j < |t|
    ensures var v := Sum(h, At(h, m, j), At(h, m, j).Keys);
      && t[j].Is(v) && (t[j].Pure(h) <==> LooksLikeOne(h, v)) && (t[j].MultiPure(h) <==> LooksLikeCopies(h, v))
      && (t[j].Empty() <==> v.count == 0 && v.keys == 0 && v.checks % LARGE_PRIME == 0)
  {
    hide Hasher.Hits, Sum, Cell.Pure, Cell.MultiPure, LooksLikeOne, LooksLikeCopies;
    SumSame(h, m, At(h, m, j), HitKeys(h, m.Keys, j));
    assert At(h, m, j).Keys == HitKeys(h, m.Keys, j);
    TestsMean(h, t[j], Sum(h, At(h, m, j), At(h, m, j).Keys));
  }

  // A cell that holds copies of one key holds as many times its value.
  lemma OnlyValue(h: Hasher, t: Table, m: Counts, j: nat, k: nat, val: nat -> nat)
    requires h.Valid() && Carries(h, t, m, val) && j < |t| && Only(At(h, m, j), k)
    ensures k in m && t[j].valueSum == m[k] * val(k)
  {
    hide Hasher.Hits, Sum;
    var v := Valued(val);
    SumSame(v, m, At(h, m, j), HitKeys(h, m.Keys, j));
    assert At(h, m, j).Keys == HitKeys(h, m.Keys, j);
    OnlySum(v, At(h, m, j), k);
  }

  // The tables that peeling meets are honest, if checksums are faithful.
  lemma PeelingHonest(h: Hasher, t: Table, d: Counts, left: Counts)
    requires h.Valid() && Sketches(h, t, left) && Remains(h, left, d) && Faithful(h, d)
    ensures Honest(h, t, left)
  {
    hide Hasher.Hits, Sum, LooksLikeOne, LooksLikeCopies, Cell.Pure, Cell.MultiPure, Cell.Empty;
    forall j: nat | j < |t| && t[j].Empty() ensures forall k :: k in HitKeys(h, left.Keys, j) ==> left[k] == 0 {
      CellAt(h, t, left, j);
      assert Recognised(h, At(h, left, j));
      forall k | k in HitKeys(h, left.Keys, j) ensures left[k] == 0 {
        assert k in At(h, left, j);
      }
    }
  }

  lemma OnlySum(h: Hasher, s: Counts, k: nat)
    requires Only(s, k)
    ensures Sum(h, s, s.Keys) == Times(h, s[k], k)
  {
    hide Times, Plus;
    SumZeros(h, s, {k}, s.Keys);
    assert {k} + s.Keys == s.Keys;
    SumTake(h, s, {k}, k);
    assert {k} - {k} == {};
    PlusLaws(Times(h, s[k], k), NOTHING, NOTHING, NOTHING);
  }

  // m copies of one key, m != 0, are always recognised and divide out to the key.
  lemma CopiesRecognised(h: Hasher, c: Cell, n: int, k: nat)
    requires n != 0 && 1 <= k && c.Is(Times(h, n, k))
    ensures c.MultiPure(h) && FloorDiv(c.keySum, c.count) == k
    ensures n == 1 || n == -1 ==> c.Pure(h) && Abs(c.keySum) == k
  {
    FloorDivExact(n, k);
    SignOf(n, k);
    var check := h.Check(k);
    if n < 0 {
      assert Abs(n) == -n && n * check == -(-n * check);
    }
  }

  // Which checksum makes a cell with the count and the keys of n copies pass.
  lemma CopiesIff(h: Hasher, c: Cell, n: int, k: nat)
    requires n != 0 && 1 <= k && c.count == n && c.keySum == n * k
    ensures c.MultiPure(h) <==> c.keyCheck == (n * h.hash(k, h.checkIndex)) % LARGE_PRIME
    ensures n == 1 || n == -1 ==> (c.Pure(h) <==> c.keyCheck == (n * h.hash(k, h.checkIndex)) % LARGE_PRIME)
  {
    FloorDivExact(n, k);
    SignOf(n, k);
    var check := h.Check(k);
    if n < 0 {
      assert Abs(n) == -n && n * check == -(-n * check);
    }
  }

  lemma SignOf(n: int, k: nat)
    requires 1 <= k
    ensures 0 < n ==> 0 < n * k
    ensures n < 0 ==> n * k < 0
  {
  }

  // The checksum of a key with a sign, modulo the prime.
  function SignedCheck(h: Hasher, positive: bool, key: int): nat {
    var check: int := h.Check(key);
    (if positive then check else -check) % LARGE_PRIME
  }

  // The branch logged as unreachable takes a multi-pure cell that is not pure and
  // has count one. It is reached exactly when count and key sum have opposite
  // signs and the checksum is that of the negated absolute key sum, but not that
  // of the absolute key sum.
  lemma UnreachableBranch(h: Hasher, c: Cell)
    ensures c.MultiPure(h) && !c.Pure(h) && -1 <= c.count <= 1 <==>
      && ((c.count == 1 && c.keySum < 0) || (c.count == -1 && 0 < c.keySum))
      && c.keyCheck == SignedCheck(h, 0 < c.keySum, 0 - Abs(c.keySum))
      && c.keyCheck != SignedCheck(h, 0 < c.keySum, Abs(c.keySum))
  {
  }

  // One key alone can be told from nothing, whatever the checksum.
  lemma SingleKeyFaithful(h: Hasher, k: nat, n: int)
    requires h.Valid() && 1 <= k
    ensures Faithful(h, map[k := n])
  {
    hide Sum, Times, LooksLikeOne, LooksLikeCopies, Hasher.Hits;
    forall left: Counts, j: nat | Remains(h, left, map[k := n]) && j < h.size ensures Recognised(h, At(h, left, j)) {
      var s := At(h, left, j);
      if k in s && s[k] != 0 {
        assert Only(s, k);
        OnlySum(h, s, k);
        TimesParts(h, s[k], k);
      } else {
        assert s.Keys == {} || s.Keys == {k};
        SumZeros(h, s, {}, s.Keys);
        assert {} + s.Keys == s.Keys;
        SumNone(h, s);
        CountsSomething(h, NOTHING);
      }
    }
  }

  lemma CountsSomething(h: Hasher, v: Vec)
    ensures LooksLikeOne(h, v) || LooksLikeCopies(h, v) ==> v.count != 0
  {
  }

  // A cell that passes a purity test holds copies of one key of what is left.
  lemma PureCell(h: Hasher, t: Table, d: Counts, left: Counts, j: nat) returns (k: nat)
    requires h.Valid() && Sketches(h, t, left) && Remains(h, left, d) && Faithful(h, d) && 0 !in d && j < |t|
    requires t[j].Pure(h) || t[j].MultiPure(h)
    ensures k in left && left[k] != 0 && 1 <= k && Only(At(h, left, j), k)
    ensures t[j].count == left[k] && t[j].keySum == left[k] * k
    ensures t[j].MultiPure(h) && FloorDiv(t[j].keySum, t[j].count) == k
    ensures t[j].Pure(h) <==> left[k] == 1 || left[k] == -1
  {
    hide Hasher.Hits, Sum, Cell.Pure, Cell.MultiPure, Times, FloorDiv, LooksLikeOne, LooksLikeCopies;
    var s := At(h, left, j);
    CellAt(h, t, left, j);
    assert Recognised(h, s);
    k :| Only(s, k);
    OnlySum(h, s, k);
    CopiesRecognised(h, t[j], left[k], k);
    TimesParts(h, left[k], k);
    PureCount(h, t[j]);
  }

  lemma TimesParts(h: Hasher, n: int, k: nat)
    ensures Times(h, n, k).count == n && Times(h, n, k).keys == n * k
  {
  }

  lemma PureCount(h: Hasher, c: Cell)
    ensures c.Pure(h) ==> c.count == 1 || c.count == -1
  {
  }

  function Positive(x: int): nat {
    if 0 < x then x else 0
  }

  // The number of times a list names a key.
  function Copies(list: seq<(int, int)>, k: int): nat {
    if list == [] then 0
    else Copies(list[..|list| - 1], k) + (if list[|list| - 1].0 == k then 1 else 0)
  }

  lemma CopiesMore(list: seq<(int, int)>, entry: (int, int), k: int)
    ensures Copies(list + [entry], k) == Copies(list, k) + (if entry.0 == k then 1 else 0)
  {
  }

  // Listed copies and copies left make up the original multiset, positive
  // multiplicities in one list and negative ones in the other.
  ghost predicate Accounted(d: Counts, left: Counts, positive: seq<(int, int)>, negative: seq<(int, int)>) {
    && left.Keys == d.Keys && Within(left, d)
    && (forall k: nat :: Copies(positive, k) == Positive(Mult(d, k)) - Positive(Mult(left, k)))
    && (forall k: nat :: Copies(negative, k) == Positive(-Mult(d, k)) - Positive(-Mult(left, k)))
  }

  lemma AccountedMore(d: Counts, left: Counts, pos: seq<(int, int)>, neg: seq<(int, int)>, k: nat, value: int)
    requires Accounted(d, left, pos, neg) && k in left
    ensures 0 < left[k] ==> Accounted(d, left[k := left[k] - 1], pos + [(k, value)], neg)
    ensures left[k] < 0 ==> Accounted(d, left[k := left[k] + 1], pos, neg + [(k, value)])
  {
    hide Copies;
    forall k': nat
      ensures Copies(pos + [(k, value)], k') == Copies(pos, k') + (if k == k' then 1 else 0)
      ensures Copies(neg + [(k, value)], k') == Copies(neg, k') + (if k == k' then 1 else 0)
    {
      CopiesMore(pos, (k, value), k');
      CopiesMore(neg, (k, value), k');
    }
  }

  // Every copy is listed with its key's value.
  ghost predicate PairsMatch(list: seq<(int, int)>, val: nat -> nat) {
    forall i :: 0 <= i < |list| ==> 0 <= list[i].0 && list[i].1 == val(list[i].0)
  }

  const N_HASH := 4
  const N_HASHCHECK := 11

  class IBLTMultiset {
    const h: Hasher
    const hashTable: array<Cell>

    ghost predicate Valid() {
      h.Valid() && hashTable.Length == h.size
    }

    // Twice the expected number of entries, rounded up to a multiple of N_HASH.
    constructor (hash: (int, nat) -> nat, expectedNumEntries: nat)
      requires 1 <= expectedNumEntries
      ensures Valid() && fresh(hashTable) && h == Hasher(hash, N_HASHCHECK, k => N_HASH, h.size)
      ensures h.checkIndex == 11 && forall k :: h.numHashes(k) == 4
      ensures h.size % N_HASH == 0 && 2 * expectedNumEntries <= h.size < 2 * expectedNumEntries + N_HASH
      ensures Sketches(h, hashTable[..], map[]) && ValuesMatch(hashTable[..])
    {
      var nEntries := 2 * expectedNumEntries;
      ghost var multiple := N_HASH * ((nEntries + 3) / N_HASH);
      while N_HASH * (nEntries / N_HASH) != nEntries
        invariant 2 * expectedNumEntries <= nEntries <= multiple
        decreases multiple - nEntries
      {
        nEntries := nEntries + 1;
      }
      h := Hasher(hash, N_HASHCHECK, k => N_HASH, nEntries);
      hashTable := new Cell[nEntries](i => EMPTY);
      new;
      var none: Counts := map[];
      assert forall j: nat :: HitKeys(h, none.Keys, j) == {};
    }

    method InsertModular(plusOrMinus: int, key: nat, value: int)
      requires Valid()
      modifies hashTable
      ensures Bumped(h, old(hashTable[..]), hashTable[..], plusOrMinus, key, value, h.numHashes(key))
      ensures old(ValuesMatch(hashTable[..])) && value == key ==> ValuesMatch(hashTable[..])
    {
      hide Bump, Hasher.Slot, Hasher.Valid;
      var numHashes := h.numHashes(key);
      for ii := 0 to numHashes
        invariant Bumped(h, old(hashTable[..]), hashTable[..], plusOrMinus, key, value, ii)
        invariant old(ValuesMatch(hashTable[..])) && value == key ==> ValuesMatch(hashTable[..])
      {
        var j := h.Slot(key, ii);
        ghost var before := hashTable[..];
        BumpMatches(hashTable[j], h, plusOrMinus, key, value);
        hashTable[j] := Bump(hashTable[j], h, plusOrMinus, key, value);
        BumpStep(h, old(hashTable[..]), before, hashTable[..], plusOrMinus, key, value, ii);
      }
    }

    method Subtract(other: IBLTMultiset, ghost m1: Counts, ghost m2: Counts)
      requires Valid() && other.Valid() && other.h == h
      requires Sketches(h, hashTable[..], m1) && Sketches(h, other.hashTable[..], m2)
      modifies hashTable
      ensures Sketches(h, hashTable[..], Less(m1, m2))
      ensures old(ValuesMatch(hashTable[..]) && ValuesMatch(other.hashTable[..])) ==> ValuesMatch(hashTable[..])
    {
      hide MinusCell, Sketches, Less;
      ghost var t1, t2 := hashTable[..], other.hashTable[..];
      for ii := 0 to hashTable.Length
        invariant forall j :: 0 <= j < ii ==> hashTable[j] == MinusCell(t1[j], t2[j])
        invariant forall j :: ii <= j < hashTable.Length ==> hashTable[j] == t1[j]
        invariant forall j :: ii <= j < hashTable.Length ==> other.hashTable[j] == t2[j]
      {
        hashTable[ii] := MinusCell(hashTable[ii], other.hashTable[ii]);
      }
      MinusSketches(h, t1, t2, hashTable[..], m1, m2);
      forall j | 0 <= j < |t1| && t1[j].valueSum == t1[j].keySum && t2[j].valueSum == t2[j].keySum
        ensures hashTable[j].valueSum == hashTable[j].keySum
      {
        MinusMatches(t1[j], t2[j]);
      }
    }

    // The state of peeling the image of d.
    ghost predicate Peeling(d: Counts, left: Counts, positive: seq<(int, int)>, negative: seq<(int, int)>)
      requires Valid()
      reads hashTable
    {
      && Sketches(h, hashTable[..], left) && Accounted(d, left, positive, negative)
      && Remains(h, left, d) && PartlyAlone(h, d, left)
    }

    ghost predicate ValuesListed(left: Counts, positive: seq<(int, int)>, negative: seq<(int, int)>, val: nat -> nat)
      requires Valid()
      reads hashTable
    {
      Carries(h, hashTable[..], left, val) && PairsMatch(positive, val) && PairsMatch(negative, val)
    }

    // Lists one copy of the key of a recognised cell and takes it out.
    method Peel(i: nat, pure: bool, ghost d: Counts, ghost left: Counts, pos: seq<(int, int)>, neg: seq<(int, int)>,
                ghost val: nat -> nat)
      returns (positive: seq<(int, int)>, negative: seq<(int, int)>, ghost rest: Counts)
      requires Valid() && i < hashTable.Length && Faithful(h, d) && 0 !in d && Peeling(d, left, pos, neg)
      requires pure == hashTable[i].Pure(h) && (pure || hashTable[i].MultiPure(h))
      modifies hashTable
      ensures Size(rest, d.Keys) < Size(left, d.Keys) && Peeling(d, rest, positive, negative)
      ensures old(ValuesListed(left, pos, neg, val)) ==> ValuesListed(rest, positive, negative, val)
    {
      hide Carries, Honest, ValuesAt;
      hide Sketches, Bumped, Faithful, Remains, PartlyAlone, Only, At, Accounted, Size, Cell.Pure, Cell.MultiPure, Sum,
        FloorDiv;
      ghost var t := hashTable[..];
      var entry := hashTable[i];
      AccountedKeys(d, left, pos, neg);
      ghost var k := PureCell(h, t, d, left, i);
      ghost var n := left[k];
      MultiplesOf(n, k);
      if Carries(h, t, left, val) {
        OnlyValue(h, t, left, i, k, val);
        FloorDivExact(n, val(k));
        MultiplesOf(n, val(k));
      }
      positive, negative := pos, neg;
      if pure {
        if entry.count == 1 {
          positive := pos + [(entry.keySum, entry.valueSum)];
          InsertModular(-entry.count, entry.keySum, entry.valueSum);
        } else {
          negative := neg + [(-entry.keySum, -entry.valueSum)];
          InsertModular(-entry.count, -entry.keySum, -entry.valueSum);
        }
        AccountedMore(d, left, pos, neg, k, if entry.count == 1 then entry.valueSum else -entry.valueSum);
        BumpedSketches(h, t, hashTable[..], -entry.count, k,
                       if entry.count == 1 then entry.valueSum else -entry.valueSum, left);
      } else {
        var key, value := FloorDiv(entry.keySum, entry.count), FloorDiv(entry.valueSum, entry.count);
        if entry.count > 1 {
          positive := pos + [(key, value)];
        } else if entry.count < -1 {
          negative := neg + [(key, value)];
        } else {
          assert false;
        }
        InsertModular(if entry.count > 0 then -1 else 1, key, value);
        AccountedMore(d, left, pos, neg, k, value);
        BumpedSketches(h, t, hashTable[..], if entry.count > 0 then -1 else 1, k, value, left);
      }
      rest := left[k := n + (if n > 0 then -1 else 1)];
      SizeDrops(left, k, rest[k]);
      PeelKeeps(h, d, left, i, k, rest[k]);
      PeelingHonest(h, hashTable[..], d, rest);
      if Carries(h, t, left, val) {
        BumpedCarries(h, t, hashTable[..], if n > 0 then -1 else 1, k, left, val);
      }
    }

    // One pass over the cells.
    method PeelPass(ghost d: Counts, ghost left: Counts, pos: seq<(int, int)>, neg: seq<(int, int)>,
                    ghost val: nat -> nat)
      returns (nErased: nat, positive: seq<(int, int)>, negative: seq<(int, int)>, ghost rest: Counts)
      requires Valid() && Faithful(h, d) && 0 !in d && Peeling(d, left, pos, neg)
      modifies hashTable
      ensures Peeling(d, rest, positive, negative) && (0 < nErased ==> Size(rest, d.Keys) < Size(left, d.Keys))
      ensures nErased == 0 ==> rest == left
      ensures nErased == 0 ==>
        forall j :: 0 <= j < hashTable.Length ==> !hashTable[j].Pure(h) && !hashTable[j].MultiPure(h)
      ensures old(ValuesListed(left, pos, neg, val)) ==> ValuesListed(rest, positive, negative, val)
    {
      hide Peeling, ValuesListed, Faithful, Cell.Pure, Cell.MultiPure, Size;
      nErased, positive, negative, rest := 0, pos, neg, left;
      for i := 0 to hashTable.Length
        invariant Peeling(d, rest, positive, negative)
        invariant if nErased == 0 then rest == left else Size(rest, d.Keys) < Size(left, d.Keys)
        invariant nErased == 0 ==> forall j :: 0 <= j < i ==> !hashTable[j].Pure(h) && !hashTable[j].MultiPure(h)
        invariant old(ValuesListed(left, pos, neg, val)) ==> ValuesListed(rest, positive, negative, val)
      {
        var pure := hashTable[i].Pure(h);
        var multiPure := IsMultiPure(h, hashTable[i]);
        if pure || multiPure {
          positive, negative, rest := Peel(i, pure, d, rest, positive, negative, val);
          nErased := nErased + 1;
        }
      }
    }

    method IsEmpty() returns (empty: bool)
      ensures empty <==> forall j :: 0 <= j < |hashTable[..]| ==> hashTable[..][j].Empty()
    {
      for i := 0 to hashTable.Length
        invariant forall j :: 0 <= j < i ==> hashTable[..][j].Empty()
      {
        if !hashTable[i].Empty() {
          assert !hashTable[..][i].Empty();
          return false;
        }
      }
      return true;
    }

    // Peels one copy at a time until a whole pass finds no recognised cell.
    method ListEntries(ghost d: Counts, ghost val: nat -> nat)
      returns (complete: bool, positive: seq<(int, int)>, negative: seq<(int, int)>, ghost left: Counts)
      requires Valid() && Sketches(h, hashTable[..], d) && 0 !in d && Faithful(h, d)
      modifies hashTable
      ensures Sketches(h, hashTable[..], left) && Accounted(d, left, positive, negative)
      ensures complete <==> Nothing(left)
      ensures IsCore(h, Support(left), d) && forall k :: k in d ==> left[k] == 0 || left[k] == d[k]
      ensures forall j: nat, k: nat :: j < h.size ==> !Only(At(h, left, j), k)
      ensures old(Carries(h, hashTable[..], d, val)) ==>
        Carries(h, hashTable[..], left, val) && PairsMatch(positive, val) && PairsMatch(negative, val)
    {
      left, positive, negative := d, [], [];
      assert Accounted(d, left, positive, negative);
      hide Accounted, Sketches, Faithful, IsCore, Support, Stuck, Only, At, Cell.Pure, Cell.MultiPure, Size;
      hide Carries;
      while true
        invariant Peeling(d, left, positive, negative)
        invariant old(ValuesListed(d, [], [], val)) ==> ValuesListed(left, positive, negative, val)
        decreases Size(left, d.Keys)
      {
        var nErased;
        nErased, positive, negative, left := PeelPass(d, left, positive, negative, val);
        if nErased == 0 {
          break;
        }
      }
      AccountedKeys(d, left, positive, negative);
      NothingPure(h, hashTable[..], d, left);
      CoreLeft(h, d, left);
      AllEmpty(h, hashTable[..], d, left);
      complete := IsEmpty();
    }
  }

  lemma MultiplesOf(n: int, k: nat)
    ensures n == 1 ==> n * k == k
    ensures n == -1 ==> n * k + k == 0
  {
  }

  lemma AccountedKeys(d: Counts, left: Counts, positive: seq<(int, int)>, negative: seq<(int, int)>)
    requires Accounted(d, left, positive, negative)
    ensures left.Keys == d.Keys && Within(left, d)
  {
  }

  // Where no cell passes a purity test, no cell holds copies of a single key.
  lemma NothingPure(h: Hasher, t: Table, d: Counts, left: Counts)
    requires h.Valid() && Sketches(h, t, left) && Within(left, d) && 0 !in d
    requires forall j :: 0 <= j < |t| ==> !t[j].Pure(h) && !t[j].MultiPure(h)
    ensures forall j: nat, k: nat :: j < h.size ==> !Only(At(h, left, j), k)
  {
    hide Hasher.Hits, Sum, Cell.Pure, Cell.MultiPure, Cell.Is, FloorDiv, Times, LooksLikeOne, LooksLikeCopies;
    forall j: nat, k: nat | j < h.size && Only(At(h, left, j), k) ensures false {
      CellAt(h, t, left, j);
      OnlySum(h, At(h, left, j), k);
      CopiesRecognised(h, t[j], left[k], k);
    }
  }

  // All cells are empty exactly when nothing is left.
  lemma AllEmpty(h: Hasher, t: Table, d: Counts, left: Counts)
    requires h.Valid() && Sketches(h, t, left) && Remains(h, left, d) && Faithful(h, d)
    ensures (forall j :: 0 <= j < |t| ==> t[j].Empty()) <==> Nothing(left)
  {
    hide Sum, Hasher.Slot, LooksLikeOne, LooksLikeCopies;
    if Nothing(left) {
      forall j | 0 <= j < |t| ensures t[j].Empty() {
        var ks := HitKeys(h, left.Keys, j);
        SumZeros(h, left, {}, ks);
        assert {} + ks == ks;
        SumNone(h, left);
      }
    } else {
      var k :| k in left && left[k] != 0;
      assert 1 <= h.numHashes(k);
      var j := h.Slot(k, 0);
      assert h.Reaches(k, h.numHashes(k), j);
      CellAt(h, t, left, j);
      assert Recognised(h, At(h, left, j));
      assert k in At(h, left, j);
      assert !t[j].Empty();
    }
  }

  lemma SumNone(h: Hasher, m: Counts)
    ensures Sum(h, m, {}) == NOTHING
  {
  }

  lemma BumpMatches(c: Cell, h: Hasher, plusOrMinus: int, key: nat, value: int)
    ensures var r := Bump(c, h, plusOrMinus, key, value);
      c.valueSum == c.keySum && value == key ==> r.valueSum == r.keySum
  {
  }

  lemma MinusMatches(e1: Cell, e2: Cell)
    requires e1.valueSum == e1.keySum && e2.valueSum == e2.keySum
    ensures var r := MinusCell(e1, e2);
      r.valueSum == r.keySum
  {
  }

  // Without faithful checksums the branch can be reached: a table with two copies
  // of key 1 inserted and one of key 10 erased, under a checksum that confuses
  // them. Every cell of the table takes the branch.
  method UnreachableBranchReached() returns (table: IBLTMultiset)
    ensures fresh(table) && table.Valid() && Sketches(table.h, table.hashTable[..], map[1 := 2, 10 := -1])
    ensures 0 < table.hashTable.Length && forall j :: 0 <= j < table.hashTable.Length ==>
      var c := table.hashTable[j];
      c.MultiPure(table.h) && !c.Pure(table.h) && -1 <= c.count <= 1
  {
    table := new IBLTMultiset((x, i) => if x == 8 then 1 else 0, 2);
    hide Sketches, Bumped, ValuesMatch, Cell.Pure, Cell.MultiPure, Hasher.Valid;
    InsertSigned(table, 1, 1, map[]);
    assert map[][1 := Mult(map[], 1) + 1] == map[1 := 1];
    InsertSigned(table, 1, 1, map[1 := 1]);
    assert map[1 := 1][1 := Mult(map[1 := 1], 1) + 1] == map[1 := 2];
    InsertSigned(table, -1, 10, map[1 := 2]);
    assert map[1 := 2][10 := Mult(map[1 := 2], 10) - 1] == map[1 := 2, 10 := -1];
    ConfusedCells(table.h, table.hashTable[..]);
  }

  // Inserting or erasing a key equal to its value.
  method InsertSigned(table: IBLTMultiset, plusOrMinus: int, key: nat, ghost m: Counts)
    requires table.Valid() && Sketches(table.h, table.hashTable[..], m) && (plusOrMinus == 1 || plusOrMinus == -1)
    modifies table.hashTable
    ensures Sketches(table.h, table.hashTable[..], m[key := Mult(m, key) + plusOrMinus])
  {
    hide Sketches, Bumped;
    ghost var t := table.hashTable[..];
    table.InsertModular(plusOrMinus, key, key);
    BumpedSketches(table.h, t, table.hashTable[..], plusOrMinus, key, key, m);
  }

  lemma ConfusedCells(h: Hasher, t: Table)
    requires h.Valid() && h.size == 4 && h.numHashes(1) == 4 == h.numHashes(10)
    requires h.Check(1) == h.Check(10) == h.Check(-8) == 0 && h.Check(8) == 1
    requires Sketches(h, t, map[1 := 2, 10 := -1])
    ensures forall j :: 0 <= j < |t| ==> t[j].MultiPure(h) && !t[j].Pure(h) && t[j].count == 1
  {
    var s: Counts := map[1 := 2, 10 := -1];
    forall j: nat | j < |t| ensures t[j].MultiPure(h) && !t[j].Pure(h) && t[j].count == 1 {
      assert t[j].Is(Sum(h, s, HitKeys(h, s.Keys, j)));
      FourCells(h, 1, j);
      FourCells(h, 10, j);
      hide Hasher.Hits, Sum, Cell.Pure, Cell.MultiPure;
      assert HitKeys(h, s.Keys, j) == {1, 10};
      ConfusedSum(h);
      ConfusedCell(h, t[j]);
    }
  }

  lemma ConfusedSum(h: Hasher)
    requires h.Check(1) == h.Check(10) == 0
    ensures Sum(h, map[1 := 2, 10 := -1], {1, 10}) == Vec(1, -8, 0)
  {
    var s: Counts := map[1 := 2, 10 := -1];
    hide Sum;
    SumTake(h, s, {1, 10}, 1);
    assert {1, 10} - {1} == {10};
    SumTake(h, s, {10}, 10);
    assert {10} - {10} == {};
    SumNone(h, s);
  }

  lemma ConfusedCell(h: Hasher, c: Cell)
    requires c.Is(Vec(1, -8, 0)) && h.Check(-8) == 0 && h.Check(8) == 1
    ensures c.MultiPure(h) && !c.Pure(h) && c.count == 1
  {
  }

  // With four cells and four hash functions every key is in every cell.
  lemma FourCells(h: Hasher, key: nat, j: nat)
    requires h.Valid() && h.size == 4 == h.numHashes(key) && j < 4
    ensures h.Hits(key, j)
  {
    assert h.Slot(key, j) == j;
    assert h.Reaches(key, 4, j);
  }
}
