// Bucket pairs of a cuckoo filter: where a fingerprint may live, how many
// copies of it its pair holds, and when the alternative bucket is an involution.
module CuckooPairs {
  import opened Bits
  import opened BitArray

  type Grid = seq<seq<nat>>

  lemma RowUpdate(row: seq<nat>, i: nat, v: nat, f: nat)
    requires i < |row|
    ensures multiset(row[i := v])[f] ==
      multiset(row)[f] - (if row[i] == f then 1 else 0) + (if v == f then 1 else 0)
  {
  }

  datatype Hashing = Hashing(fingerprint: nat -> nat, hash: nat -> nat, filterSize: nat) {
    // Hashes are reduced modulo the number of buckets.
    ghost predicate Reduced() {
      1 <= filterSize && forall x: nat :: hash(x) < filterSize
    }

    function Alternative(b: nat, f: nat): (a: nat)
      requires 1 <= filterSize
      ensures a < filterSize
    {
      Xor(b, hash(f)) % filterSize
    }

    // Every bucket is the alternative of its alternative.
    ghost predicate Involutive() {
      Reduced() && forall b: nat, f: nat :: b < filterSize ==> Alternative(Alternative(b, f), f) == b
    }

    // Bucket c is one of the two buckets of fingerprint f at home in b.
    predicate InPair(c: nat, b: nat, f: nat)
      requires 1 <= filterSize
    {
      c == b || c == Alternative(b, f)
    }

    function PairCount(g: Grid, b: nat, f: nat): nat
      requires 1 <= filterSize == |g| && b < filterSize
    {
      var a := Alternative(b, f);
      multiset(g[b])[f] + (if a == b then 0 else multiset(g[a])[f])
    }

    // The contribution of a fingerprint v kept in bucket c to the pair of (b, f).
    function Share(v: nat, c: nat, b: nat, f: nat): nat
      requires 1 <= filterSize
    {
      if v == f && InPair(c, b, f) then 1 else 0
    }

    lemma UpdatePair(g: Grid, c: nat, i: nat, v: nat, b: nat, f: nat)
      requires Reduced() && |g| == filterSize && c < |g| && i < |g[c]| && b < |g|
      ensures PairCount(Update(g, c, i, v), b, f) == PairCount(g, b, f) - Share(g[c][i], c, b, f) + Share(v, c, b, f)
    {
      hide Alternative;
      RowUpdate(g[c], i, v, f);
    }

    // Fingerprint f can be stored in bucket b: its alternative bucket leads back.
    predicate Home(b: nat, f: nat)
      requires 1 <= filterSize
    {
      Alternative(Alternative(b, f), f) == b
    }

    // Every fingerprint of the table is stored in such a bucket.
    ghost predicate Settled(g: Grid)
      requires 1 <= filterSize
    {
      forall c, i | 0 <= c < |g| && 0 <= i < |g[c]| :: g[c][i] != 0 ==> Home(c, g[c][i])
    }

    lemma HomeMoves(b: nat, f: nat)
      requires 1 <= filterSize && Home(b, f)
      ensures Home(Alternative(b, f), f)
    {
    }

    // A fingerprint counts for the same pairs in either of its buckets.
    lemma ShareMoves(v: nat, c: nat, b: nat, f: nat)
      requires 1 <= filterSize && Home(c, v) && Home(b, f)
      ensures Share(v, Alternative(c, v), b, f) == Share(v, c, b, f)
    {
      hide Alternative;
    }

    // The item's alternative bucket leads back to its first one.
    predicate Returns(datum: nat)
      requires 1 <= filterSize
    {
      Home(hash(datum), fingerprint(datum))
    }

    lemma InvolutiveReturns(datum: nat)
      requires Involutive()
      ensures Returns(datum)
    {
    }

    // Table g together with fingerprint v in hand, bound for bucket c, holds in
    // every pair what g0 holds together with f0 bound for c0.
    ghost predicate Balanced(g: Grid, v: nat, c: nat, g0: Grid, f0: nat, c0: nat)
      requires 1 <= filterSize == |g| == |g0|
    {
      forall b: nat, f: nat :: b < filterSize && f != 0 && Home(b, f) ==>
        PairCount(g, b, f) + Share(v, c, b, f) == PairCount(g0, b, f) + Share(f0, c0, b, f)
    }

    // Every pair of g holds what it holds in g0 and the copy of f0.
    ghost predicate Gains(g: Grid, g0: Grid, f0: nat, c0: nat)
      requires 1 <= filterSize == |g| == |g0|
    {
      forall b: nat, f: nat :: b < filterSize && f != 0 && Home(b, f) ==>
        PairCount(g, b, f) == PairCount(g0, b, f) + Share(f0, c0, b, f)
    }

    // Overwriting a victim with the fingerprint in hand, and taking the victim
    // to its other bucket, keeps the balance.
    lemma BalancedKick(g: Grid, v: nat, c: nat, i: nat, g0: Grid, f0: nat, c0: nat)
      requires Reduced() && |g| == |g0| == filterSize && c < |g| && i < |g[c]| && Home(c, g[c][i])
      requires Balanced(g, v, c, g0, f0, c0)
      ensures Balanced(Update(g, c, i, v), g[c][i], Alternative(c, g[c][i]), g0, f0, c0)
    {
      hide PairCount, Share, Alternative, Home;
      forall b: nat, f: nat | b < filterSize && f != 0 && Home(b, f)
        ensures PairCount(Update(g, c, i, v), b, f) + Share(g[c][i], Alternative(c, g[c][i]), b, f)
             == PairCount(g0, b, f) + Share(f0, c0, b, f)
      {
        UpdatePair(g, c, i, v, b, f);
        ShareMoves(g[c][i], c, b, f);
      }
    }

    lemma BalancedAdd(g: Grid, v: nat, c: nat, i: nat, g0: Grid, f0: nat, c0: nat)
      requires Reduced() && |g| == |g0| == filterSize && c < |g| && i < |g[c]| && g[c][i] == 0
      requires Balanced(g, v, c, g0, f0, c0)
      ensures Gains(Update(g, c, i, v), g0, f0, c0)
    {
      hide PairCount, Alternative, Home;
      forall b: nat, f: nat | b < filterSize && f != 0 && Home(b, f)
        ensures PairCount(Update(g, c, i, v), b, f) == PairCount(g0, b, f) + Share(f0, c0, b, f)
      {
        UpdatePair(g, c, i, v, b, f);
      }
    }

    // A new item is balanced in either of its buckets.
    lemma BalancedStart(g: Grid, f0: nat, c0: nat)
      requires Reduced() && |g| == filterSize && c0 < filterSize && Home(c0, f0)
      ensures Balanced(g, f0, c0, g, f0, c0)
      ensures Balanced(g, f0, Alternative(c0, f0), g, f0, c0)
    {
      hide PairCount, Share, Alternative, Home;
      forall b: nat, f: nat | b < filterSize && f != 0 && Home(b, f)
        ensures Share(f0, Alternative(c0, f0), b, f) == Share(f0, c0, b, f)
      {
        ShareMoves(f0, c0, b, f);
      }
    }

    // Clearing a cell that holds f in either of its buckets.
    lemma ErasedLoses(g: Grid, f0: nat, c: nat, i: nat, c0: nat)
      requires Reduced() && |g| == filterSize && c0 < filterSize && c < |g| && i < |g[c]|
      requires f0 != 0 && g[c][i] == f0 && InPair(c, c0, f0) && Home(c0, f0)
      ensures Gains(g, Update(g, c, i, 0), f0, c0)
    {
      hide PairCount, Alternative, Home;
      forall b: nat, f: nat | b < filterSize && f != 0 && Home(b, f)
        ensures PairCount(g, b, f) == PairCount(Update(g, c, i, 0), b, f) + Share(f0, c0, b, f)
      {
        UpdatePair(g, c, i, 0, b, f);
        ShareMoves(f0, c0, b, f);
      }
    }

    // Storing a fingerprint where it can be stored, or clearing a cell.
    lemma SettledUpdate(g: Grid, c: nat, i: nat, v: nat)
      requires 1 <= filterSize && Settled(g) && c < |g| && i < |g[c]| && (v != 0 ==> Home(c, v))
      ensures Settled(Update(g, c, i, v))
    {
      hide Home;
    }

    // An eviction chain of n links that gets nowhere: f takes the place of an entry
    // of bucket b, whose alternative bucket is full then, and so on from there.
    ghost predicate Blocked(g: Grid, b: nat, f: nat, n: nat)
      requires 1 <= filterSize == |g| && b < filterSize
      decreases n
    {
      n == 0 || exists i :: 0 <= i < |g[b]| && BlockedAt(g, b, f, n, i)
    }

    ghost predicate BlockedAt(g: Grid, b: nat, f: nat, n: nat, i: nat)
      requires 1 <= filterSize == |g| && b < filterSize && i < |g[b]| && 0 < n
      decreases n, 0
    {
      var (h, a) := (Update(g, b, i, f), Alternative(b, g[b][i]));
      0 !in h[a] && Blocked(h, a, g[b][i], n - 1)
    }

    // An eviction chain of at most n links that ends in a bucket with an empty cell,
    // the first of which takes the last entry evicted, and leaves the table end.
    ghost predicate Settles(g: Grid, b: nat, f: nat, n: nat, end: Grid)
      requires 1 <= filterSize == |g| && b < filterSize
      decreases n
    {
      0 < n && exists i :: 0 <= i < |g[b]| && SettlesAt(g, b, f, n, i, end)
    }

    ghost predicate SettlesAt(g: Grid, b: nat, f: nat, n: nat, i: nat, end: Grid)
      requires 1 <= filterSize == |g| && b < filterSize && i < |g[b]| && 0 < n
      decreases n, 0
    {
      var (h, a) := (Update(g, b, i, f), Alternative(b, g[b][i]));
      Placed(h, a, g[b][i], end) || (0 !in h[a] && Settles(h, a, g[b][i], n - 1, end))
    }

    // The first empty cell of the bucket takes f.
    ghost predicate Placed(g: Grid, b: nat, f: nat, end: Grid)
      requires b < |g|
    {
      exists i :: 0 <= i < |g[b]| && g[b][i] == 0 && 0 !in g[b][..i] && end == Update(g, b, i, f)
    }

    // No chain is blocked when every entry of its first bucket could move at once.
    lemma FreeVictims(g: Grid, b: nat, f: nat, n: nat)
      requires Reduced() && |g| == filterSize && b < filterSize && 0 < n && f != 0
      requires forall v :: v in g[b] ==> Alternative(b, v) != b && 0 in g[Alternative(b, v)]
      ensures !Blocked(g, b, f, n)
    {
      hide Alternative;
      forall i | 0 <= i < |g[b]| ensures !BlockedAt(g, b, f, n, i) {
        assert g[b][i] in g[b];
      }
    }

    // The stored items that own a copy of f in the pair of b.
    function Owners(items: seq<nat>, b: nat, f: nat): nat
      requires 1 <= filterSize
    {
      if items == [] then 0
      else Owners(items[..|items| - 1], b, f) + Share(fingerprint(items[|items| - 1]), hash(items[|items| - 1]), b, f)
    }

    lemma {:induction false} OwnersRemove(items: seq<nat>, i: nat, b: nat, f: nat)
      requires 1 <= filterSize && i < |items|
      ensures Owners(items, b, f) ==
        Owners(items[..i] + items[i + 1..], b, f) + Share(fingerprint(items[i]), hash(items[i]), b, f)
    {
      var n := |items| - 1;
      if i == n {
        assert items[..i] + items[i + 1..] == items[..n];
      } else {
        OwnersRemove(items[..n], i, b, f);
        var rest := items[..i] + items[i + 1..];
        assert rest[..n - 1] == items[..n][..i] + items[..n][i + 1..];
      }
    }

    // The table holds, pair by pair, exactly the fingerprints of the items.
    ghost predicate Accurate(g: Grid, items: seq<nat>)
      requires 1 <= filterSize == |g|
    {
      forall b: nat, f: nat :: b < filterSize && f != 0 && Home(b, f) ==> PairCount(g, b, f) == Owners(items, b, f)
    }

    lemma AccurateEmpty(g: Grid)
      requires Reduced() && |g| == filterSize
      requires forall b :: 0 <= b < |g| ==> forall v :: v in g[b] ==> v == 0
      ensures Accurate(g, [])
    {
      hide Alternative;
      forall b: nat, f: nat | b < filterSize && f != 0 ensures PairCount(g, b, f) == 0 {
        assert f !in g[b] && f !in g[Alternative(b, f)];
      }
    }

    lemma AccurateInsert(g: Grid, g': Grid, items: seq<nat>, x: nat)
      requires Reduced() && |g| == |g'| == filterSize
      requires Accurate(g, items) && Gains(g', g, fingerprint(x), hash(x))
      ensures Accurate(g', items + [x])
    {
    }

    lemma AccurateErase(g: Grid, g': Grid, items: seq<nat>, i: nat)
      requires Reduced() && |g| == |g'| == filterSize && i < |items|
      requires Accurate(g, items) && Gains(g, g', fingerprint(items[i]), hash(items[i]))
      ensures Accurate(g', items[..i] + items[i + 1..])
    {
      hide PairCount, Alternative, Owners, Home;
      forall b: nat, f: nat | b < filterSize && f != 0 && Home(b, f)
        ensures PairCount(g', b, f) == Owners(items[..i] + items[i + 1..], b, f)
      {
        OwnersRemove(items, i, b, f);
      }
    }

    // Items that a lookup cannot tell apart.
    predicate Confused(x: nat, y: nat)
      requires 1 <= filterSize
    {
      Share(fingerprint(y), hash(y), hash(x), fingerprint(x)) == 1
    }

    lemma {:induction false} OwnersPositive(items: seq<nat>, x: nat)
      requires 1 <= filterSize
      ensures 0 < Owners(items, hash(x), fingerprint(x)) <==> exists y :: y in items && Confused(x, y)
    {
      if items != [] {
        var n := |items| - 1;
        OwnersPositive(items[..n], x);
        if Confused(x, items[n]) {
          assert items[n] in items;
        } else if y :| y in items && Confused(x, y) {
          assert y in items[..n];
        }
      }
    }

    // What an operation that went through did to the table.
    ghost predicate Follows(g: Grid, g': Grid, e: Event)
      requires 1 <= filterSize == |g| == |g'|
    {
      match e
      case Inserted(x) => Gains(g', g, fingerprint(x), hash(x))
      case Erased(x) => Gains(g, g', fingerprint(x), hash(x))
      case Unchanged => g' == g
    }

    // The tables of a run that starts empty.
    ghost predicate IsRun(tables: seq<Grid>, events: seq<Event>)
      requires 1 <= filterSize
    {
      && |tables| == |events| + 1
      && (forall k | 0 <= k < |tables| :: |tables[k]| == filterSize)
      && (forall b | 0 <= b < filterSize :: forall v | v in tables[0][b] :: v == 0)
      && (forall k | 0 <= k < |events| :: Follows(tables[k], tables[k + 1], events[k]))
    }

    lemma {:induction false} RunAccurate(tables: seq<Grid>, events: seq<Event>, k: nat)
      requires Reduced() && IsRun(tables, events) && OnlyLiveErased(events) && k <= |events|
      ensures Accurate(tables[k], Live(events[..k]))
    {
      hide Accurate, Gains;
      if k == 0 {
        AccurateEmpty(tables[0]);
      } else {
        RunAccurate(tables, events, k - 1);
        assert events[..k][..k - 1] == events[..k - 1];
        var live := Live(events[..k - 1]);
        assert Follows(tables[k - 1], tables[k], events[k - 1]);
        if events[k - 1].Inserted? {
          AccurateInsert(tables[k - 1], tables[k], live, events[k - 1].datum);
        } else if events[k - 1].Erased? {
          assert events[k - 1].datum in live;
          AccurateErase(tables[k - 1], tables[k], live, IndexOf(live, events[k - 1].datum));
        }
      }
    }

    // After any run that erases only live items, a lookup finds exactly the
    // items it cannot tell from a live one: every live item, and no others but
    // collisions. This is so for every filter size: an item whose alternative
    // bucket does not lead back is refused by every operation.
    lemma LookupsExact(tables: seq<Grid>, events: seq<Event>, x: nat)
      requires Reduced() && IsRun(tables, events) && OnlyLiveErased(events) && fingerprint(x) != 0 && Returns(x)
      ensures 0 < PairCount(tables[|events|], hash(x), fingerprint(x)) <==>
        exists y :: y in Live(events) && Confused(x, y)
      ensures x in Live(events) ==> 0 < PairCount(tables[|events|], hash(x), fingerprint(x))
    {
      RunAccurate(tables, events, |events|);
      assert events[..|events|] == events;
      OwnersPositive(Live(events), x);
      assert Confused(x, x);
    }
  }

  // An insertion or an erasure that went through, or an operation without
  // effect.
  datatype Event = Inserted(datum: nat) | Erased(datum: nat) | Unchanged

  ghost function IndexOf(items: seq<nat>, x: nat): (i: nat)
    requires x in items
    ensures i < |items| && items[i] == x
  {
    var i :| 0 <= i < |items| && items[i] == x;
    i
  }

  // The items inserted and not erased since.
  ghost function Live(events: seq<Event>): seq<nat> {
    if events == [] then []
    else
      var n := |events| - 1;
      var before := Live(events[..n]);
      if events[n].Inserted? then before + [events[n].datum]
      else if events[n].Erased? && events[n].datum in before then
        var i := IndexOf(before, events[n].datum);
        before[..i] + before[i + 1..]
      else before
  }

  ghost predicate OnlyLiveErased(events: seq<Event>) {
    forall k | 0 <= k < |events| :: events[k].Erased? ==> events[k].datum in Live(events[..k])
  }

  ghost predicate PowerOfTwo(n: nat) {
    exists k: nat :: n == Pow2(k)
  }

  lemma {:induction false} XorTopBit(x: nat, k: nat)
    requires x < Pow2(k)
    ensures Xor(x, Pow2(k)) == x + Pow2(k)
  {
    if k == 0 {
      assert Xor(0, 1) == 1;
    } else {
      var h := Pow2(k - 1);
      assert (2 * h) / 2 == h && (2 * h) % 2 == 0;
      XorTopBit(x / 2, k - 1);
      if x != 0 {
        assert Xor(x, 2 * h) == x % 2 + 2 * Xor(x / 2, h);
      }
    }
  }

  lemma {:induction false} Between(n: nat) returns (k: nat)
    requires 1 <= n
    ensures Pow2(k) <= n < Pow2(k + 1)
  {
    if n == 1 {
      k := 0;
    } else {
      k := Between(n / 2);
      k := k + 1;
    }
  }

  // With hashes below n, taking the alternative bucket twice comes back for
  // every bucket and every hash exactly when n is a power of two.
  lemma InvolutionIffPowerOfTwo(n: nat)
    requires 1 <= n
    ensures (forall b: nat, h: nat :: b < n && h < n ==> Xor(Xor(b, h) % n, h) % n == b) <==> PowerOfTwo(n)
  {
    hide Xor, Bit;
    var k := Between(n);
    if n == Pow2(k) {
      forall b: nat, h: nat | b < n && h < n ensures Xor(Xor(b, h) % n, h) % n == b {
        XorBack(b, h, k);
      }
    } else {
      var b, h := Pow2(k) - 1, Pow2(k);
      XorTopBit(b, k);
      Wrap(b + h, n);
      var a := b + h - n;
      assert Xor(b, h) % n == a;
      XorTopBit(a, k);
      if a + h < n { Small(a + h, n); } else { Wrap(a + h, n); }
      assert (a + h) % n != b;
      forall j: nat ensures n != Pow2(j) {
        if j <= k { Pow2Mono(j, k); } else { Pow2Mono(k + 1, j); }
      }
    }
  }

  lemma Small(x: nat, n: nat)
    requires x < n
    ensures x % n == x
  {
  }

  lemma Wrap(x: nat, n: nat)
    requires n <= x < 2 * n
    ensures x % n == x - n
  {
  }

  lemma XorBack(b: nat, h: nat, k: nat)
    requires b < Pow2(k) && h < Pow2(k)
    ensures Xor(b, h) < Pow2(k) && Xor(Xor(b, h) % Pow2(k), h) % Pow2(k) == b
  {
    hide Xor, Bit, Pow2;
    XorFits(b, h, k);
    Small(Xor(b, h), Pow2(k));
    Small(b, Pow2(k));
    XorAssociates(b, h, h);
    XorSelf(h);
    XorZero(b);
  }

  lemma Pow2Mono(j: nat, k: nat)
    requires j <= k
    ensures Pow2(j) <= Pow2(k)
  {
  }

  lemma XorZero(x: nat)
    ensures Xor(x, 0) == x && Xor(0, x) == x
  {
  }

  // A filter whose size is a power of two is suitable for cuckoo hashing.
  lemma PowerOfTwoInvolutive(hashing: Hashing)
    requires hashing.Reduced() && PowerOfTwo(hashing.filterSize)
    ensures hashing.Involutive()
  {
    var k: nat :| hashing.filterSize == Pow2(k);
    forall b: nat, f: nat | b < hashing.filterSize
      ensures hashing.Alternative(hashing.Alternative(b, f), f) == b
    {
      XorBack(b, hashing.hash(f), k);
    }
  }

  // The alternative bucket: the bits of the bucket and of the fingerprint's hash that
  // differ, reduced to the filter's size.
  lemma AlternativeBits(hashing: Hashing, b: nat, f: nat, x: nat)
    requires 1 <= hashing.filterSize
    requires forall j: nat :: Bit(x, j) <==> Bit(b, j) != Bit(hashing.hash(f), j)
    ensures hashing.Alternative(b, f) == x % hashing.filterSize
  {
    SameBits(x, Xor(b, hashing.hash(f)));
  }

  // At a power of two, no reduction is needed: exactly the hash's bits are flipped.
  lemma AlternativeFlips(hashing: Hashing, b: nat, f: nat, k: nat)
    requires hashing.Reduced() && hashing.filterSize == Pow2(k) && b < Pow2(k)
    ensures forall j: nat :: Bit(hashing.Alternative(b, f), j) <==> Bit(b, j) != Bit(hashing.hash(f), j)
    ensures hashing.Alternative(b, f) == b <==> hashing.hash(f) == 0
  {
    var h := hashing.hash(f);
    XorFits(b, h, k);
    Small(Xor(b, h), Pow2(k));
    AllZero();
    if Xor(b, h) == b {
      SameBits(h, 0);
    }
  }

  // The number of occupied cells.
  function Occupied(g: Grid): nat {
    if g == [] then 0 else Occupied(g[..|g| - 1]) + |g[|g| - 1]| - multiset(g[|g| - 1])[0]
  }

  lemma {:induction false} OccupiedUpdate(g: Grid, b: nat, c: nat, f: nat)
    requires b < |g| && c < |g[b]|
    ensures Occupied(Update(g, b, c, f)) == Occupied(g) - (if g[b][c] == 0 then 0 else 1) + (if f == 0 then 0 else 1)
  {
    var n := |g| - 1;
    var u := Update(g, b, c, f);
    if b == n {
      RowUpdate(g[b], c, f, 0);
      assert u[..n] == g[..n];
    } else {
      OccupiedUpdate(g[..n], b, c, f);
      assert u[..n] == Update(g[..n], b, c, f);
    }
  }

  lemma FoundOccupied(hashing: Hashing, g: Grid, b: nat, f: nat)
    requires 1 <= hashing.filterSize == |g| && b < |g| && f != 0 && 0 < hashing.PairCount(g, b, f)
    ensures 0 < Occupied(g)
  {
    hide Occupied, Hashing.Alternative;
    var a := if f in g[b] then b else hashing.Alternative(b, f);
    assert f in g[a];
    var i :| 0 <= i < |g[a]| && g[a][i] == f;
    OccupiedUpdate(g, a, i, 0);
  }

  // A slot recorded before it was overwritten, and the table with a stack of
  // such slots put back, last recorded first.
  datatype Slot = Slot(b: nat, c: nat, f: nat)

  ghost predicate SlotsFit(g: Grid, slots: seq<Slot>) {
    forall s :: s in slots ==> s.b < |g| && s.c < |g[s.b]|
  }

  ghost function Undo(g: Grid, slots: seq<Slot>): Grid
    requires SlotsFit(g, slots)
    decreases |slots|
  {
    if slots == [] then g
    else
      var s := slots[|slots| - 1];
      Undo(Update(g, s.b, s.c, s.f), slots[..|slots| - 1])
  }
}
