// What the cells of an invertible Bloom lookup table add up to: a linear image
// of a set of signed keys.
module SignedSketch {
  import opened Bits

  // A key of the difference, with sign 1 when inserted and -1 when erased.
  datatype Signed = Signed(key: nat, sign: int)

  ghost predicate Proper(s: set<Signed>) {
    && (forall x :: x in s ==> x.sign == 1 || x.sign == -1)
    && (forall x, y :: x in s && y in s && x.key == y.key ==> x == y)
  }

  // Net count, XOR of keys and XOR of key checksums.
  datatype Sketch = Sketch(count: int, keySum: nat, keyCheck: nat)

  const ZERO := Sketch(0, 0, 0)

  function Add(a: Sketch, b: Sketch): Sketch {
    Sketch(a.count + b.count, Xor(a.keySum, b.keySum), Xor(a.keyCheck, b.keyCheck))
  }

  function Negate(a: Sketch): Sketch {
    a.(count := -a.count)
  }

  lemma AddLaws(a: Sketch, b: Sketch, c: Sketch)
    ensures Add(a, b) == Add(b, a)
    ensures Add(Add(a, b), c) == Add(a, Add(b, c))
    ensures Add(a, ZERO) == a == Add(ZERO, a)
    ensures Add(a, Negate(a)) == ZERO
  {
    XorLaws(a.keySum, b.keySum, c.keySum);
    XorLaws(a.keyCheck, b.keyCheck, c.keyCheck);
  }

  lemma XorLaws(x: nat, y: nat, z: nat)
    ensures Xor(x, y) == Xor(y, x) && Xor(Xor(x, y), z) == Xor(x, Xor(y, z))
    ensures Xor(x, 0) == x == Xor(0, x) && Xor(x, x) == 0
  {
    hide Bit;
    XorCommutes(x, y);
    XorAssociates(x, y, z);
    XorSelf(x);
  }

  // The hash family of one table. Hash function number i of a key selects a
  // cell in the i-th of numHashes(key) equal blocks of the table.
  datatype Hasher = Hasher(hash: (int, nat) -> nat, checkIndex: nat, numHashes: nat -> nat, size: nat) {
    ghost predicate Valid() {
      forall key: nat :: 1 <= numHashes(key) <= size
    }

    function Check(key: int): nat {
      hash(key, checkIndex)
    }

    function BucketsPerHash(key: nat): nat
      requires Valid()
    {
      size / numHashes(key)
    }

    // The cell that hash function i selects for a key.
    function Slot(key: nat, i: nat): (j: nat)
      requires Valid() && i < numHashes(key)
      ensures j < size
    {
      var b := BucketsPerHash(key);
      BlockFits(size, numHashes(key), i, hash(key, i));
      i * b + hash(key, i) % b
    }

    // Hash function i selects a cell of the i-th block, by its hash modulo the
    // block's length.
    lemma SlotInBlock(key: nat, i: nat)
      requires Valid() && i < numHashes(key)
      ensures var b := size / numHashes(key);
        && 0 < b && i * b <= Slot(key, i) < i * b + b && Slot(key, i) - i * b == hash(key, i) % b
    {
      BlockFits(size, numHashes(key), i, hash(key, i));
    }

    // Two keys with equally many hash functions share all cells or, if they differ
    // modulo the length of a block in some function, are each alone in a cell.
    ghost predicate Apart(k: nat, k': nat)
      requires Valid() && numHashes(k) == numHashes(k')
    {
      exists i: nat :: i < numHashes(k) && DifferAt(k, k', i)
    }

    ghost predicate DifferAt(k: nat, k': nat, i: nat)
      requires Valid()
    {
      hash(k, i) % (size / numHashes(k)) != hash(k', i) % (size / numHashes(k))
    }

    lemma SameBlock(k: nat, k': nat, i: nat, i': nat)
      requires Valid() && numHashes(k) == numHashes(k') && i < numHashes(k) && i' < numHashes(k)
      requires Slot(k, i) == Slot(k', i')
      ensures i == i' && !DifferAt(k, k', i)
    {
      var b := size / numHashes(k);
      SlotInBlock(k, i);
      SlotInBlock(k', i');
      assert (i + 1) * b == i * b + b && (i' + 1) * b == i' * b + b;
      if i < i' {
        BlockOrder(b, i + 1, i');
      } else if i' < i {
        BlockOrder(b, i' + 1, i);
      }
    }

    lemma CellsApart(k: nat, k': nat)
      requires Valid() && numHashes(k) == numHashes(k')
      ensures Apart(k, k') <==> exists j: nat :: j < size && Hits(k, j) && !Hits(k', j)
    {
      hide Slot, Valid, DifferAt;
      if i: nat :| i < numHashes(k) && DifferAt(k, k', i) {
        var j := Slot(k, i);
        assert Reaches(k, numHashes(k), j);
        if Hits(k', j) {
          var i': nat :| i' < numHashes(k') && Slot(k', i') == j;
          SameBlock(k, k', i, i');
        }
      }
      if j: nat :| j < size && Hits(k, j) && !Hits(k', j) {
        var i: nat :| i < numHashes(k) && Slot(k, i) == j;
        assert Slot(k', i) != j;
        EqualSlots(k, k', i);
      }
    }

    lemma EqualSlots(k: nat, k': nat, i: nat)
      requires Valid() && numHashes(k) == numHashes(k') && i < numHashes(k)
      ensures !DifferAt(k, k', i) ==> Slot(k, i) == Slot(k', i)
    {
      SlotInBlock(k, i);
      SlotInBlock(k', i);
    }

    // Some hash function below n selects cell j.
    ghost predicate Reaches(key: nat, n: nat, j: nat)
      requires Valid() && n <= numHashes(key)
    {
      exists i: nat :: i < n && Slot(key, i) == j
    }

    ghost predicate Hits(key: nat, j: nat)
      requires Valid()
    {
      Reaches(key, numHashes(key), j)
    }

    lemma SlotsDistinct(key: nat, i: nat, i': nat)
      requires Valid() && i < i' < numHashes(key)
      ensures Slot(key, i) != Slot(key, i')
    {
      var b := BucketsPerHash(key);
      BlockFits(size, numHashes(key), i, hash(key, i));
      BlockOrder(b, i + 1, i');
      assert (i + 1) * b == i * b + b;
    }

    // One more hash function reaches one more cell, not reached before.
    lemma ReachesMore(key: nat, ii: nat)
      requires Valid() && ii < numHashes(key)
      ensures !Reaches(key, ii, Slot(key, ii))
      ensures forall k: nat :: Reaches(key, ii + 1, k) <==> Reaches(key, ii, k) || k == Slot(key, ii)
    {
      hide Slot, Valid;
      var j := Slot(key, ii);
      if Reaches(key, ii, j) {
        var i: nat :| i < ii && Slot(key, i) == j;
        SlotsDistinct(key, i, ii);
        assert false;
      }
      forall k: nat ensures Reaches(key, ii + 1, k) <==> Reaches(key, ii, k) || k == j {
        if Reaches(key, ii, k) {
          var i: nat :| i < ii && Slot(key, i) == k;
          assert i < ii + 1;
        }
      }
    }

    // The part of a set that falls into cell j.
    ghost function At(s: set<Signed>, j: nat): set<Signed>
      requires Valid()
    {
      set x | x in s && Hits(x.key, j)
    }

    function One(x: Signed): Sketch {
      Sketch(x.sign, x.key, Check(x.key))
    }

    ghost function Sum(s: set<Signed>): Sketch
      decreases s
    {
      if s == {} then ZERO
      else var x :| x in s; Add(One(x), Sum(s - {x}))
    }

    lemma SumEmpty()
      ensures Sum({}) == ZERO
    {
    }

    // The sum does not depend on the order in which elements are taken.
    lemma {:induction false} SumRemove(s: set<Signed>, x: Signed)
      requires x in s
      ensures Sum(s) == Add(One(x), Sum(s - {x}))
      decreases s
    {
      hide Add, Negate;
      var y :| y in s && Sum(s) == Add(One(y), Sum(s - {y}));
      if y != x {
        SumRemove(s - {y}, x);
        SumRemove(s - {x}, y);
        assert s - {y} - {x} == s - {x} - {y};
        var rest := Sum(s - {x} - {y});
        AddLaws(One(y), One(x), rest);
        AddLaws(One(x), One(y), rest);
      }
    }

    lemma {:induction false} SumUnion(s: set<Signed>, t: set<Signed>)
      requires s !! t
      ensures Sum(s + t) == Add(Sum(s), Sum(t))
      decreases s
    {
      hide Add, Negate;
      if s == {} {
        assert s + t == t;
        AddLaws(Sum(t), ZERO, ZERO);
      } else {
        var x :| x in s;
        SumRemove(s, x);
        SumRemove(s + t, x);
        assert s + t - {x} == (s - {x}) + t;
        SumUnion(s - {x}, t);
        AddLaws(One(x), Sum(s - {x}), Sum(t));
      }
    }

    lemma SumSingle(x: Signed)
      ensures Sum({x}) == One(x)
    {
    }

    // What a cell holds is told by its sum: if it looks like a single key it is
    // one, and only nothing sums to zero.
    ghost predicate Recognised(s: set<Signed>) {
      var c := Sum(s);
      && ((c.count == 1 || c.count == -1) && c.keyCheck == Check(c.keySum) ==> |s| == 1)
      && (c == ZERO ==> s == {})
    }

    // A set in which no cell holds exactly one key: peeling cannot touch it.
    ghost predicate Stuck(s: set<Signed>)
      requires Valid()
    {
      forall j: nat :: j < size ==> |At(s, j)| != 1
    }

    // What peeling can leave of d: it contains every part of d that peeling
    // cannot touch.
    ghost predicate Remains(left: set<Signed>, d: set<Signed>)
      requires Valid()
    {
      left <= d && forall s: set<Signed> :: s <= d && Stuck(s) ==> s <= left
    }

    // The largest part of d that peeling cannot touch.
    ghost predicate IsCore(r: set<Signed>, d: set<Signed>)
      requires Valid()
    {
      Stuck(r) && Remains(r, d)
    }

    // The checksums tell what each cell holds while d is peeled. Nothing is asked
    // of parts of d that are spread over several cells.
    ghost predicate Faithful(d: set<Signed>)
      requires Valid()
    {
      forall left: set<Signed>, j: nat :: Remains(left, d) && j < size ==> Recognised(At(left, j))
    }
  }

  // The XOR of a value over the keys of a set, and its inserted less its erased keys.
  ghost function XorOver(s: set<Signed>, f: nat -> nat): nat
    decreases s
  {
    if s == {} then 0 else var x :| x in s; Xor(f(x.key), XorOver(s - {x}, f))
  }

  lemma {:induction false} XorTake(s: set<Signed>, f: nat -> nat, x: Signed)
    requires x in s
    ensures XorOver(s, f) == Xor(f(x.key), XorOver(s - {x}, f))
    decreases s
  {
    hide Xor;
    var y :| y in s && XorOver(s, f) == Xor(f(y.key), XorOver(s - {y}, f));
    if y != x {
      XorTake(s - {y}, f, x);
      XorTake(s - {x}, f, y);
      assert s - {y} - {x} == s - {x} - {y};
      var rest := XorOver(s - {x} - {y}, f);
      XorLaws(f(y.key), f(x.key), rest);
      XorLaws(f(x.key), f(y.key), rest);
    }
  }

  lemma {:induction false} XorUnion(s: set<Signed>, t: set<Signed>, f: nat -> nat)
    requires s !! t
    ensures XorOver(s + t, f) == Xor(XorOver(s, f), XorOver(t, f))
    decreases s
  {
    hide Xor;
    if s == {} {
      assert s + t == t;
      XorLaws(XorOver(t, f), 0, 0);
    } else {
      var x :| x in s;
      XorTake(s, f, x);
      XorTake(s + t, f, x);
      assert s + t - {x} == (s - {x}) + t;
      XorUnion(s - {x}, t, f);
      XorLaws(f(x.key), XorOver(s - {x}, f), XorOver(t, f));
    }
  }

  lemma XorSingle(x: Signed, f: nat -> nat)
    ensures XorOver({x}, f) == f(x.key)
  {
    XorTake({x}, f, x);
    assert {x} - {x} == {};
    XorLaws(f(x.key), 0, 0);
  }

  ghost function WithSign(s: set<Signed>, sign: int): set<Signed> {
    set x | x in s && x.sign == sign
  }

  // What the sum of a set is: net count, XOR of the keys, and XOR of their hashes
  // under the checksum's function.
  lemma {:induction false} SumMeans(h: Hasher, s: set<Signed>)
    requires forall x :: x in s ==> x.sign == 1 || x.sign == -1
    ensures h.Sum(s) == Sketch(|WithSign(s, 1)| - |WithSign(s, -1)|, XorOver(s, k => k),
                               XorOver(s, k => h.hash(k, h.checkIndex)))
    decreases s
  {
    hide Xor;
    if s == {} {
      assert WithSign(s, 1) == {} == WithSign(s, -1);
    } else {
      var x :| x in s;
      h.SumRemove(s, x);
      SumMeans(h, s - {x});
      XorTake(s, k => k, x);
      XorTake(s, k => h.hash(k, h.checkIndex), x);
      SignTake(s, x, 1);
      SignTake(s, x, -1);
    }
  }

  lemma SignTake(s: set<Signed>, x: Signed, sign: int)
    requires x in s
    ensures |WithSign(s, sign)| == |WithSign(s - {x}, sign)| + if x.sign == sign then 1 else 0
  {
    assert WithSign(s - {x}, sign) == WithSign(s, sign) - {x};
  }

  // The core is unique, so the leftover does not depend on the order of peeling.
  lemma CoreUnique(h: Hasher, d: set<Signed>, r: set<Signed>, r': set<Signed>)
    requires h.Valid() && h.IsCore(r, d) && h.IsCore(r', d)
    ensures r == r'
  {
  }

  // Two keys with equally many hash functions are both listed exactly when some
  // function tells them apart.
  lemma PairPeels(h: Hasher, x: Signed, y: Signed)
    requires h.Valid() && x.key != y.key && h.numHashes(x.key) == h.numHashes(y.key)
    ensures h.IsCore({}, {x, y}) <==> h.Apart(x.key, y.key)
  {
    hide Hasher.Hits, Hasher.Apart, Hasher.Valid;
    h.CellsApart(x.key, y.key);
    var d := {x, y};
    EmptyStuck(h);
    if j: nat :| j < h.size && h.Hits(x.key, j) && !h.Hits(y.key, j) {
      PairUnstuck(h, x, y, j);
    } else {
      ApartSymmetric(h, x.key, y.key);
      h.CellsApart(y.key, x.key);
      forall j: nat | j < h.size ensures |h.At(d, j)| != 1 {
        assert h.At(d, j) == if h.Hits(x.key, j) then d else {};
        assert x != y;
      }
      assert h.Stuck(d);
    }
  }

  lemma ApartSymmetric(h: Hasher, k: nat, k': nat)
    requires h.Valid() && h.numHashes(k) == h.numHashes(k')
    ensures h.Apart(k, k') <==> h.Apart(k', k)
  {
    hide Hasher.Valid;
    assert forall i: nat :: h.DifferAt(k, k', i) <==> h.DifferAt(k', k, i);
  }

  lemma EmptyStuck(h: Hasher)
    requires h.Valid()
    ensures h.Stuck({})
  {
    forall j: nat ensures h.At({}, j) == {} {
    }
  }

  // Every part of the two keys has one that is alone in a cell.
  lemma PairUnstuck(h: Hasher, x: Signed, y: Signed, j: nat)
    requires h.Valid() && j < h.size && h.Hits(x.key, j) && !h.Hits(y.key, j)
    ensures forall s: set<Signed> :: s <= {x, y} && h.Stuck(s) ==> s == {}
  {
    var j' := h.Slot(y.key, 0);
    assert h.Reaches(y.key, h.numHashes(y.key), j');
    hide Hasher.Hits, Hasher.Valid;
    forall s: set<Signed> | s <= {x, y} && s != {} ensures !h.Stuck(s) {
      if x in s {
        assert h.At(s, j) == {x};
        assert |h.At(s, j)| == 1;
      } else {
        assert s == {y};
        assert h.At(s, j') == {y};
        assert |h.At(s, j')| == 1;
      }
    }
  }

  lemma BlockFits(size: nat, n: nat, i: nat, x: nat)
    requires 1 <= n <= size && i < n
    ensures 1 <= size / n && 0 <= x % (size / n) < size / n
    ensures i * (size / n) + x % (size / n) < size
  {
    var b := size / n;
    assert n * b <= size;
    assert 1 <= b;
    BlockOrder(b, i + 1, n);
    assert (i + 1) * b == i * b + b;
  }

  lemma BlockOrder(b: nat, i: nat, i': nat)
    requires i <= i'
    ensures i * b <= i' * b
  {
  }

  // With positive signs only, the count of a part is its size, so no hypothesis
  // on the checksums is needed.
  lemma PositiveFaithful(h: Hasher, d: set<Signed>)
    requires h.Valid() && forall x :: x in d ==> x.sign == 1
    ensures h.Faithful(d)
  {
    hide Hasher.Hits, Hasher.Sum;
    forall left: set<Signed>, j: nat | h.Remains(left, d) && j < h.size ensures h.Recognised(h.At(left, j)) {
      PositiveCount(h, h.At(left, j));
    }
  }

  lemma {:induction false} PositiveCount(h: Hasher, s: set<Signed>)
    requires forall x :: x in s ==> x.sign == 1
    ensures h.Sum(s).count == |s|
    decreases s
  {
    if s != {} {
      var x :| x in s;
      h.SumRemove(s, x);
      PositiveCount(h, s - {x});
    }
  }
}
