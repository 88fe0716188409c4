// The cuckoo filter: fingerprints kept in one of two buckets of a packed
// table, insertion by eviction chains with rollback.
module CuckooFilter {
  import opened Bits
  import opened BitArray
  import opened CuckooPairs
  import opened Wrappers

  class Cuckoo {
    const filter: Compact2DBitArray
    const hashing: Hashing
    const maxKicks: nat
    var itemsCount: int

    ghost predicate Shaped()
      reads filter
    {
      filter.Valid() && hashing.Reduced() && hashing.filterSize == filter.shape.nBuckets
    }

    ghost function Table(): Grid
      requires Shaped()
      reads filter, filter.store
    {
      filter.Grid()
    }

    ghost predicate Valid()
      reads this, filter, filter.store
    {
      Shaped() && itemsCount == Occupied(Table()) && hashing.Settled(Table())
    }

    ghost predicate Full(b: nat)
      requires Shaped()
      reads filter, filter.store
    {
      b < hashing.filterSize && 0 !in Table()[b]
    }

    // Fingerprints are nonzero and fit a cell; zero marks an empty cell.
    predicate Storable(f: nat)
      reads filter
    {
      0 < f < Pow2(filter.shape.fSize)
    }

    constructor (shape: Shape, hashing: Hashing, maxKicks: nat)
      requires shape.Buildable() && hashing.Reduced() && hashing.filterSize == shape.nBuckets
      ensures Valid() && fresh(filter) && fresh(filter.store) && itemsCount == 0
      ensures this.hashing == hashing && this.maxKicks == maxKicks && filter.shape == shape
      ensures Table() == seq(shape.nBuckets, b => seq(shape.bSize, c => 0))
      ensures hashing.Accurate(Table(), [])
    {
      filter := new Compact2DBitArray(shape);
      this.hashing, this.maxKicks, itemsCount := hashing, maxKicks, 0;
      new;
      EmptyTable(Table(), shape.bSize);
      hashing.AccurateEmpty(Table());
    }

    method Get(b: nat, c: nat) returns (v: nat)
      requires Shaped() && b < hashing.filterSize && c < filter.shape.bSize
      ensures v == Table()[b][c] && v < Pow2(filter.shape.fSize)
    {
      var r := filter.GetEntry(b, c);
      v := r.value;
    }

    method Set(b: nat, c: nat, f: nat)
      requires Shaped() && b < hashing.filterSize && c < filter.shape.bSize && f < Pow2(filter.shape.fSize)
      modifies filter.store
      ensures Shaped() && Table() == Update(old(Table()), b, c, f)
    {
      var _ := filter.SetEntry(b, c, f);
    }

    // Puts f in the first empty cell of the bucket, if there is one.
    method AddToBucket(b: nat, f: nat) returns (slot: Option<nat>)
      requires Shaped() && b < hashing.filterSize && f < Pow2(filter.shape.fSize)
      modifies filter.store
      ensures Shaped()
      ensures slot.None? ==> 0 !in old(Table())[b] && Table() == old(Table())
      ensures slot.Some? ==>
        var i := slot.value;
        && i < filter.shape.bSize && old(Table())[b][i] == 0 && 0 !in old(Table())[b][..i]
        && Table() == Update(old(Table()), b, i, f)
    {
      var ii := 0;
      while ii < filter.shape.bSize
        invariant 0 <= ii <= filter.shape.bSize
        invariant Shaped() && Table() == old(Table()) && 0 !in Table()[b][..ii]
      {
        var v := Get(b, ii);
        if v == 0 {
          Set(b, ii, f);
          return Some(ii);
        }
        ii := ii + 1;
      }
      return None;
    }

    method FindFingerprint(f: nat, b: nat) returns (slot: Option<nat>)
      requires Shaped() && b < hashing.filterSize
      ensures slot.None? ==> f !in Table()[b]
      ensures slot.Some? ==>
        slot.value < filter.shape.bSize && Table()[b][slot.value] == f && f !in Table()[b][..slot.value]
    {
      hide Shape.Rows, Pow2;
      var ii := 0;
      while ii < filter.shape.bSize
        invariant 0 <= ii <= filter.shape.bSize && f !in Table()[b][..ii]
      {
        var v := Get(b, ii);
        if v == f {
          return Some(ii);
        }
        ii := ii + 1;
      }
      return None;
    }

    // Puts back the recorded slots, last recorded first.
    method RestoreFilter(slots: seq<Slot>)
      requires Shaped() && SlotsFit(Table(), slots)
      requires forall s :: s in slots ==> s.f < Pow2(filter.shape.fSize)
      modifies filter.store
      ensures Shaped() && Table() == Undo(old(Table()), slots)
    {
      var rest := slots;
      while rest != []
        invariant rest <= slots
        invariant Shaped() && SlotsFit(Table(), rest)
        invariant Undo(Table(), rest) == Undo(old(Table()), slots)
      {
        var s := rest[|rest| - 1];
        rest := rest[..|rest| - 1];
        Set(s.b, s.c, s.f);
      }
    }

    method Insert(datum: nat) returns (r: Result<bool>)
      requires Valid() && Storable(hashing.fingerprint(datum))
      modifies this`itemsCount, filter.store
      ensures Valid()
      ensures r.Failure? <==> !hashing.Returns(datum)
      ensures r != Success(true) ==> Table() == old(Table()) && itemsCount == old(itemsCount)
      ensures r == Success(true) ==> itemsCount == old(itemsCount) + 1
      ensures r == Success(false) ==>
        && old(Full(hashing.hash(datum)))
        && old(Full(hashing.Alternative(hashing.hash(datum), hashing.fingerprint(datum))))
      ensures r.Success? ==>
        hashing.Follows(old(Table()), Table(), if r.value then Inserted(datum) else Unchanged)
      ensures r == Success(false) ==> old(Refuses(datum))
      ensures r == Success(true) ==> Takes(old(Table()), datum, Table())
    {
      hide Occupied, Pow2, Hashing.Balanced, Hashing.Gains, Hashing.Settled, Hashing.Alternative, Shape.Rows;
      hide Hashing.Placed, Hashing.Blocked, Hashing.Settles;
      var f, i1 := hashing.fingerprint(datum), hashing.hash(datum);
      var i2 := hashing.Alternative(i1, f);
      if i1 != hashing.Alternative(i2, f) {
        return Failure("This hash algorithm is not suitable for cuckoo hashing.");
      }
      hashing.BalancedStart(Table(), f, i1);
      hashing.HomeMoves(i1, f);
      var ok := TryBucket(i1, f, Table(), f, i1);
      if ok {
        return Success(true);
      }
      ok := TryBucket(i2, f, Table(), f, i1);
      if ok {
        return Success(true);
      }
      var coin: bool := *;
      ok := Kick(if coin then i2 else i1, f, i1);
      return Success(ok);
    }

    // Both buckets of the item are full, and some eviction chain of maxKicks links
    // from one of them finds no empty cell.
    ghost predicate Refuses(datum: nat)
      requires Shaped()
      reads filter, filter.store
    {
      var (f, b) := (hashing.fingerprint(datum), hashing.hash(datum));
      var a := hashing.Alternative(b, f);
      && Full(b) && Full(a)
      && (hashing.Blocked(Table(), b, f, maxKicks) || hashing.Blocked(Table(), a, f, maxKicks))
    }

    // The item's first bucket takes the fingerprint; if that is full, its other one
    // does; if both are, an eviction chain from one of them.
    ghost predicate Takes(g: Grid, datum: nat, end: Grid)
      requires Shaped() && |g| == hashing.filterSize
      reads filter
    {
      var (f, b) := (hashing.fingerprint(datum), hashing.hash(datum));
      var a := hashing.Alternative(b, f);
      if 0 in g[b] then hashing.Placed(g, b, f, end)
      else if 0 in g[a] then hashing.Placed(g, a, f, end)
      else hashing.Settles(g, b, f, maxKicks, end) || hashing.Settles(g, a, f, maxKicks, end)
    }

    // Adds v to bucket c if there is room. The ghost arguments name the table
    // and the new item the insertion started from.
    method TryBucket(c: nat, v: nat, ghost g0: Grid, ghost f0: nat, ghost c0: nat) returns (ok: bool)
      requires Shaped() && c < hashing.filterSize && Storable(v)
      requires |g0| == hashing.filterSize
      requires hashing.Settled(Table()) && hashing.Home(c, v) && hashing.Balanced(Table(), v, c, g0, f0, c0)
      modifies this`itemsCount, filter.store
      ensures Shaped() && hashing.Settled(Table())
      ensures !ok ==> 0 !in Table()[c] && Table() == old(Table()) && itemsCount == old(itemsCount)
      ensures ok ==> itemsCount == old(itemsCount) + 1 && Occupied(Table()) == old(Occupied(Table())) + 1
      ensures ok ==> 0 in old(Table())[c] && hashing.Placed(old(Table()), c, v, Table())
      ensures ok ==> hashing.Gains(Table(), g0, f0, c0)
    {
      var slot := AddToBucket(c, v);
      ok := slot.Some?;
      if ok {
        itemsCount := itemsCount + 1;
        OccupiedUpdate(old(Table()), c, slot.value, v);
        hashing.BalancedAdd(old(Table()), v, c, slot.value, g0, f0, c0);
        hashing.SettledUpdate(old(Table()), c, slot.value, v);
      }
    }

    // Swaps a randomly chosen entry of a full bucket for f.
    method Evict(b: nat, f: nat) returns (victimIdx: nat, victim: nat)
      requires Valid() && b < hashing.filterSize && Storable(f) && hashing.Home(b, f) && 0 !in Table()[b]
      modifies filter.store
      ensures Valid() && victimIdx < filter.shape.bSize && victim == old(Table())[b][victimIdx]
      ensures Storable(victim) && hashing.Home(b, victim)
      ensures Table() == Update(old(Table()), b, victimIdx, f)
    {
      victimIdx :| 0 <= victimIdx < filter.shape.bSize;
      victim := Get(b, victimIdx);
      assert victim in Table()[b];
      Set(b, victimIdx, f);
      OccupiedUpdate(old(Table()), b, victimIdx, f);
      hashing.SettledUpdate(old(Table()), b, victimIdx, f);
    }

    // One link of the chain: f takes a victim's place in bucket b, and the victim
    // goes to its alternative bucket if there is room.
    method Relocate(b: nat, f: nat, ghost g0: Grid, ghost f0: nat, ghost c0: nat)
      returns (ok: bool, victimIdx: nat, victim: nat, altBucket: nat)
      requires Valid() && b < hashing.filterSize && Storable(f) && hashing.Home(b, f) && 0 !in Table()[b]
      requires |g0| == hashing.filterSize && hashing.Balanced(Table(), f, b, g0, f0, c0)
      modifies this`itemsCount, filter.store
      ensures Valid() && victimIdx < filter.shape.bSize && victim == old(Table())[b][victimIdx]
      ensures altBucket == hashing.Alternative(b, victim) && Storable(victim) && hashing.Home(altBucket, victim)
      ensures !ok ==> Table() == Update(old(Table()), b, victimIdx, f) && itemsCount == old(itemsCount)
      ensures !ok ==> 0 !in Table()[altBucket] && hashing.Balanced(Table(), victim, altBucket, g0, f0, c0)
      ensures ok ==> itemsCount == old(itemsCount) + 1 && hashing.Gains(Table(), g0, f0, c0)
      ensures ok ==> hashing.Placed(Update(old(Table()), b, victimIdx, f), altBucket, victim, Table())
    {
      hide Hashing.Placed;
      hide Occupied, Pow2, Hashing.Balanced, Hashing.Gains, Hashing.Home, Hashing.Settled, Hashing.Alternative,
           Shape.Rows;
      ghost var g := Table();
      victimIdx, victim := Evict(b, f);
      altBucket := hashing.Alternative(b, victim);
      hashing.BalancedKick(g, f, b, victimIdx, g0, f0, c0);
      hashing.HomeMoves(b, victim);
      ok := TryBucket(altBucket, victim, g0, f0, c0);
    }

    // The state of an eviction chain that started from table g0 with the item's
    // fingerprint v bound for bucket c: fingerprint f is bound for bucket b, which is
    // full, the slots record how to undo the chain, and m links are left.
    ghost predicate Kicking(g0: Grid, c: nat, v: nat, c0: nat, b: nat, f: nat, slots: seq<Slot>, m: nat)
      requires Shaped()
      reads this, filter, filter.store
    {
      && Valid() && |g0| == hashing.filterSize && c < |g0| && b < |g0|
      && Storable(f) && 0 !in Table()[b] && hashing.Home(b, f) && hashing.Balanced(Table(), f, b, g0, v, c0)
      && SlotsFit(Table(), slots) && Undo(Table(), slots) == g0
      && (forall s :: s in slots ==> s.f < Pow2(filter.shape.fSize))
      && Leads(hashing, g0, c, v, maxKicks, Table(), b, f, m)
    }

    // One link of a chain, recorded.
    method Link(b: nat, f: nat, slots: seq<Slot>,
                ghost g0: Grid, ghost c: nat, ghost v: nat, ghost c0: nat, ghost m: nat)
      returns (ok: bool, b': nat, f': nat, slots': seq<Slot>)
      requires Shaped() && Kicking(g0, c, v, c0, b, f, slots, m) && 0 < m
      modifies this`itemsCount, filter.store
      ensures Valid()
      ensures !ok ==> itemsCount == old(itemsCount) && Kicking(g0, c, v, c0, b', f', slots', m - 1)
      ensures ok ==> itemsCount == old(itemsCount) + 1 && hashing.Gains(Table(), g0, v, c0)
      ensures ok ==> hashing.Settles(g0, c, v, maxKicks, Table())
    {
      hide Leads, Undo, Occupied, Pow2, Shape.Rows;
      hide Hashing.Placed, Hashing.Blocked, Hashing.Settles;
      hide Hashing.Balanced, Hashing.Gains, Hashing.Home, Hashing.Settled, Hashing.Alternative;
      ghost var g := Table();
      var victimIdx;
      ok, victimIdx, f', b' := Relocate(b, f, g0, v, c0);
      slots' := slots;
      if ok {
        LeadsSettled(hashing, g0, c, v, maxKicks, g, b, f, m, victimIdx, Table());
      } else {
        LeadsOn(hashing, g0, c, v, maxKicks, g, b, f, m, victimIdx);
        UndoPush(g, slots, b, victimIdx, f);
        slots' := slots + [Slot(b, victimIdx, f')];
      }
    }

    // The eviction chain: fingerprint v of a new item goes to bucket c, which
    // is full, by moving victims to their alternative buckets.
    method Kick(c: nat, v: nat, ghost c0: nat) returns (ok: bool)
      requires Valid() && c < hashing.filterSize && Storable(v) && hashing.Home(c, v) && 0 !in Table()[c]
      requires hashing.Balanced(Table(), v, c, Table(), v, c0)
      modifies this`itemsCount, filter.store
      ensures Valid()
      ensures !ok ==> Table() == old(Table()) && itemsCount == old(itemsCount)
      ensures ok ==> itemsCount == old(itemsCount) + 1
      ensures ok ==> hashing.Gains(Table(), old(Table()), v, c0)
      ensures !ok ==> hashing.Blocked(old(Table()), c, v, maxKicks)
      ensures ok ==> hashing.Settles(old(Table()), c, v, maxKicks, Table())
    {
      ghost var g0 := Table();
      LeadsStart(hashing, g0, c, v, maxKicks);
      var chosenBucket: nat, f: nat := c, v;
      var originalSlots: seq<Slot> := [];
      assert Kicking(g0, c, v, c0, chosenBucket, f, originalSlots, maxKicks);
      hide *;
      var kick := 0;
      while kick < maxKicks
        invariant kick <= maxKicks && Valid() && itemsCount == old(itemsCount)
        invariant Shaped() && Kicking(g0, c, v, c0, chosenBucket, f, originalSlots, maxKicks - kick)
      {
        ok, chosenBucket, f, originalSlots := Link(chosenBucket, f, originalSlots, g0, c, v, c0, maxKicks - kick);
        if ok {
          return;
        }
        kick := kick + 1;
      }
      UndoChain(c, v, c0, g0, chosenBucket, f, originalSlots);
      ok := false;
    }

    // A chain out of links is undone.
    method UndoChain(ghost c: nat, ghost v: nat, ghost c0: nat, ghost g0: Grid, ghost b: nat, ghost f: nat,
                     slots: seq<Slot>)
      requires Shaped() && Kicking(g0, c, v, c0, b, f, slots, 0) && itemsCount == Occupied(g0) && hashing.Settled(g0)
      modifies filter.store
      ensures Valid() && Table() == g0 && hashing.Blocked(g0, c, v, maxKicks)
    {
      hide Undo, Occupied, Pow2, Shape.Rows;
      hide Hashing.Blocked, Hashing.Settles, Hashing.Balanced, Hashing.Home, Hashing.Settled, Hashing.Alternative;
      LeadsNowhere(hashing, g0, c, v, maxKicks, Table(), b, f);
      RestoreFilter(slots);
    }

    method Lookup(datum: nat) returns (r: Result<bool>)
      requires Valid()
      ensures r.Failure? <==> !hashing.Returns(datum)
      ensures r.Success? ==> (r.value <==> 0 < Contained(datum))
    {
      var f, i1 := hashing.fingerprint(datum), hashing.hash(datum);
      var i2 := hashing.Alternative(i1, f);
      if i1 != hashing.Alternative(i2, f) {
        return Failure("This hash algorithm is not suitable for cuckoo hashing.");
      }
      var slot := FindFingerprint(f, i1);
      if slot.Some? {
        return Success(true);
      }
      slot := FindFingerprint(f, i2);
      return Success(slot.Some?);
    }

    // The copies of an item's fingerprint in its bucket pair.
    ghost function Contained(datum: nat): nat
      requires Shaped()
      reads filter, filter.store
    {
      hashing.PairCount(Table(), hashing.hash(datum), hashing.fingerprint(datum))
    }

    method Erase(datum: nat) returns (r: Result<bool>)
      requires Valid() && Storable(hashing.fingerprint(datum))
      modifies this`itemsCount, filter.store
      ensures Valid()
      ensures r.Failure? <==> old(itemsCount) == 0 || !hashing.Returns(datum)
      ensures r != Success(true) ==> Table() == old(Table()) && itemsCount == old(itemsCount)
      ensures r == Success(true) ==> itemsCount == old(itemsCount) - 1
      ensures r.Success? ==> (r.value <==> 0 < old(Contained(datum)))
      ensures r.Success? ==>
        hashing.Follows(old(Table()), Table(), if r.value then Erased(datum) else Unchanged)
    {
      hide Occupied, Pow2, Hashing.Gains, Hashing.Settled, Hashing.Alternative, Shape.Rows;
      if itemsCount == 0 {
        return Failure("You cannot erase from an empty filter!");
      }
      var f, i1 := hashing.fingerprint(datum), hashing.hash(datum);
      var i2 := hashing.Alternative(i1, f);
      if i1 != hashing.Alternative(i2, f) {
        return Failure("This hash algorithm is not suitable for cuckoo hashing.");
      }
      var b := i1;
      var slot := FindFingerprint(f, b);
      if slot.None? {
        b := i2;
        slot := FindFingerprint(f, b);
      }
      if slot.None? {
        return Success(false);
      }
      Set(b, slot.value, 0);
      itemsCount := itemsCount - 1;
      OccupiedUpdate(old(Table()), b, slot.value, 0);
      hashing.ErasedLoses(old(Table()), f, b, slot.value, i1);
      hashing.SettledUpdate(old(Table()), b, slot.value, 0);
      return Success(true);
    }
  }

  // However the chain goes on from g with m links left, so does the one from g0.
  ghost predicate Leads(hashing: Hashing, g0: Grid, c: nat, v: nat, n: nat, g: Grid, b: nat, f: nat, m: nat)
    requires 1 <= hashing.filterSize == |g0| == |g| && c < |g0| && b < |g|
  {
    && (hashing.Blocked(g, b, f, m) ==> hashing.Blocked(g0, c, v, n))
    && (forall end :: hashing.Settles(g, b, f, m, end) ==> hashing.Settles(g0, c, v, n, end))
  }

  lemma LeadsStart(hashing: Hashing, g: Grid, c: nat, v: nat, n: nat)
    requires 1 <= hashing.filterSize == |g| && c < |g|
    ensures Leads(hashing, g, c, v, n, g, c, v, n)
  {
  }

  lemma LeadsOn(hashing: Hashing, g0: Grid, c: nat, v: nat, n: nat, g: Grid, b: nat, f: nat, m: nat, i: nat)
    requires 1 <= hashing.filterSize == |g0| == |g| && c < |g0| && b < |g| && i < |g[b]| && 0 < m
    requires Leads(hashing, g0, c, v, n, g, b, f, m) && 0 !in Update(g, b, i, f)[hashing.Alternative(b, g[b][i])]
    ensures Leads(hashing, g0, c, v, n, Update(g, b, i, f), hashing.Alternative(b, g[b][i]), g[b][i], m - 1)
  {
    var (h, a, w) := (Update(g, b, i, f), hashing.Alternative(b, g[b][i]), g[b][i]);
    hide Hashing.Alternative, Hashing.Placed;
    if hashing.Blocked(h, a, w, m - 1) {
      assert hashing.BlockedAt(g, b, f, m, i);
    }
    forall end | hashing.Settles(h, a, w, m - 1, end) ensures hashing.Settles(g0, c, v, n, end) {
      assert hashing.SettlesAt(g, b, f, m, i, end);
    }
  }

  lemma LeadsSettled(hashing: Hashing, g0: Grid, c: nat, v: nat, n: nat, g: Grid, b: nat, f: nat, m: nat, i: nat,
                     end: Grid)
    requires 1 <= hashing.filterSize == |g0| == |g| && c < |g0| && b < |g| && i < |g[b]| && 0 < m
    requires Leads(hashing, g0, c, v, n, g, b, f, m)
    requires hashing.Placed(Update(g, b, i, f), hashing.Alternative(b, g[b][i]), g[b][i], end)
    ensures hashing.Settles(g0, c, v, n, end)
  {
    hide Hashing.Alternative, Hashing.Placed;
    assert hashing.SettlesAt(g, b, f, m, i, end);
  }

  lemma LeadsNowhere(hashing: Hashing, g0: Grid, c: nat, v: nat, n: nat, g: Grid, b: nat, f: nat)
    requires 1 <= hashing.filterSize == |g0| == |g| && c < |g0| && b < |g|
    requires Leads(hashing, g0, c, v, n, g, b, f, 0)
    ensures hashing.Blocked(g0, c, v, n)
  {
  }

  // Erasing an item that a lookup finds does not fail, and it erases.
  lemma FoundErasable(cuckoo: Cuckoo, datum: nat)
    requires cuckoo.Valid() && cuckoo.hashing.fingerprint(datum) != 0 && 0 < cuckoo.Contained(datum)
    ensures cuckoo.itemsCount != 0
  {
    FoundOccupied(cuckoo.hashing, cuckoo.Table(), cuckoo.hashing.hash(datum), cuckoo.hashing.fingerprint(datum));
  }

  // Recording the overwritten slot makes the undo of the longer chain the undo
  // of the shorter one.
  lemma UndoPush(g: Grid, slots: seq<Slot>, b: nat, c: nat, f: nat)
    requires SlotsFit(g, slots) && b < |g| && c < |g[b]|
    ensures SlotsFit(Update(g, b, c, f), slots + [Slot(b, c, g[b][c])])
    ensures Undo(Update(g, b, c, f), slots + [Slot(b, c, g[b][c])]) == Undo(g, slots)
  {
    var more := slots + [Slot(b, c, g[b][c])];
    assert more[..|more| - 1] == slots;
    assert g[b][c := f][c := g[b][c]] == g[b];
    assert Update(Update(g, b, c, f), b, c, g[b][c]) == g;
  }

  lemma {:induction false} EmptyTable(g: Grid, n: nat)
    requires forall b :: 0 <= b < |g| ==> g[b] == seq(n, c => 0)
    ensures Occupied(g) == 0
  {
    if g != [] {
      var row := g[|g| - 1];
      EmptyTable(g[..|g| - 1], n);
      AllZeros(row);
    }
  }

  lemma {:induction false} AllZeros(row: seq<nat>)
    requires forall c :: 0 <= c < |row| ==> row[c] == 0
    ensures multiset(row)[0] == |row|
  {
    if row != [] {
      var n := |row| - 1;
      assert row == row[..n] + [row[n]];
      AllZeros(row[..n]);
    }
  }
}
