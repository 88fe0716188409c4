// The generalized invertible Bloom lookup table: cells updated in place by
// insertion, erasure and subtraction, and listed by peeling pure cells.
module GenIBLTs {
  import opened Bits
  import opened SignedSketch

  datatype Cell = Cell(count: int, keySum: nat, keyCheck: nat, valueSum: nat) {
    predicate Empty() {
      count == 0 && keySum == 0 && keyCheck == 0
    }

    predicate Pure(h: Hasher) {
      (count == 1 || count == -1) && keyCheck == h.Check(keySum)
    }

    function Part(): Sketch {
      Sketch(count, keySum, keyCheck)
    }
  }

  type Table = seq<Cell>

  const EMPTY := Cell(0, 0, 0, 0)

  // A cell after a key is added (sign 1) or taken away (sign -1).
  function Bump(c: Cell, h: Hasher, plusOrMinus: int, key: nat, value: nat): (r: Cell)
    ensures r.Part() == Add(Sketch(plusOrMinus, key, h.Check(key)), c.Part())
    ensures r.valueSum == if r.Empty() then 0 else Xor(c.valueSum, value)
    ensures c.valueSum == c.keySum && value == key ==> r.valueSum == r.keySum
  {
    XorLaws(c.keySum, key, 0);
    XorLaws(c.keyCheck, h.Check(key), 0);
    var e := Cell(c.count + plusOrMinus, Xor(c.keySum, key), Xor(c.keyCheck, h.Check(key)), c.valueSum);
    if e.Empty() then e.(valueSum := 0) else e.(valueSum := Xor(e.valueSum, value))
  }

  // Exactly the cells reached by the first n hash functions are bumped.
  ghost predicate Bumped(h: Hasher, was: Table, now: Table, plusOrMinus: int, key: nat, value: nat, n: nat)
    requires h.Valid() && n <= h.numHashes(key)
  {
    |was| == |now| == h.size && forall j: nat :: j < |was| ==>
      now[j] == if h.Reaches(key, n, j) then Bump(was[j], h, plusOrMinus, key, value) else was[j]
  }

  // The table is the sketch of s.
  ghost predicate Sketches(h: Hasher, t: Table, s: set<Signed>)
    requires h.Valid()
  {
    |t| == h.size && forall j: nat :: j < |t| ==> t[j].Part() == h.Sum(h.At(s, j))
  }

  ghost predicate ValuesMatch(t: Table) {
    forall j :: 0 <= j < |t| ==> t[j].valueSum == t[j].keySum
  }

  // Adding a new signed key.
  lemma BumpedAdds(h: Hasher, was: Table, now: Table, x: Signed, value: nat, s: set<Signed>)
    requires h.Valid() && Sketches(h, was, s) && x !in s
    requires Bumped(h, was, now, x.sign, x.key, value, h.numHashes(x.key))
    ensures Sketches(h, now, s + {x})
  {
    hide Add, Negate, Xor, Hasher.Reaches, Hasher.Sum, Bump;
    forall j: nat | j < |now| ensures now[j].Part() == h.Sum(h.At(s + {x}, j)) {
      if h.Hits(x.key, j) {
        h.SumRemove(h.At(s + {x}, j), x);
        assert h.At(s + {x}, j) - {x} == h.At(s, j);
      } else {
        assert h.At(s + {x}, j) == h.At(s, j);
      }
    }
  }

  // Taking away a signed key that is there.
  lemma BumpedRemoves(h: Hasher, was: Table, now: Table, x: Signed, value: nat, s: set<Signed>)
    requires h.Valid() && Sketches(h, was, s) && x in s
    requires Bumped(h, was, now, -x.sign, x.key, value, h.numHashes(x.key))
    ensures Sketches(h, now, s - {x})
  {
    hide Add, Xor, Hasher.Reaches, Hasher.Sum, Bump;
    forall j: nat | j < |now| ensures now[j].Part() == h.Sum(h.At(s - {x}, j)) {
      if h.Hits(x.key, j) {
        h.SumRemove(h.At(s, j), x);
        assert h.At(s, j) - {x} == h.At(s - {x}, j);
        var rest := h.Sum(h.At(s - {x}, j));
        AddLaws(Negate(h.One(x)), h.One(x), rest);
        AddLaws(h.One(x), Negate(h.One(x)), rest);
        AddLaws(rest, ZERO, ZERO);
        assert Negate(h.One(x)) == Sketch(-x.sign, x.key, h.Check(x.key));
      } else {
        assert h.At(s - {x}, j) == h.At(s, j);
      }
    }
  }

  // Every cell's value sum is the XOR of the values of the keys that fall into it.
  ghost predicate Carries(h: Hasher, t: Table, s: set<Signed>, val: nat -> nat)
    requires h.Valid()
  {
    forall j: nat :: j < |t| ==> t[j].valueSum == XorOver(h.At(s, j), val)
  }

  // No cell looks empty that holds something.
  ghost predicate Honest(h: Hasher, t: Table, s: set<Signed>)
    requires h.Valid()
  {
    forall j: nat :: j < |t| && t[j].Empty() ==> h.At(s, j) == {}
  }

  // Adding a key with its value, and taking it away again.
  lemma BumpedCarries(h: Hasher, was: Table, now: Table, x: Signed, s: set<Signed>, val: nat -> nat)
    requires h.Valid() && Carries(h, was, s, val) && x !in s && Honest(h, now, s + {x})
    requires Bumped(h, was, now, x.sign, x.key, val(x.key), h.numHashes(x.key))
    ensures Carries(h, now, s + {x}, val)
  {
    hide Xor, Hasher.Reaches, Bump, Cell.Empty;
    forall j: nat | j < |now| ensures now[j].valueSum == XorOver(h.At(s + {x}, j), val) {
      if h.Hits(x.key, j) {
        XorTake(h.At(s + {x}, j), val, x);
        assert h.At(s + {x}, j) - {x} == h.At(s, j);
        XorLaws(val(x.key), was[j].valueSum, 0);
      } else {
        assert h.At(s + {x}, j) == h.At(s, j);
      }
    }
  }

  lemma BumpedCarriesRest(h: Hasher, was: Table, now: Table, x: Signed, s: set<Signed>, val: nat -> nat)
    requires h.Valid() && Carries(h, was, s, val) && x in s && Honest(h, now, s - {x})
    requires Bumped(h, was, now, -x.sign, x.key, val(x.key), h.numHashes(x.key))
    ensures Carries(h, now, s - {x}, val)
  {
    hide Xor, Hasher.Reaches, Bump, Cell.Empty;
    forall j: nat | j < |now| ensures now[j].valueSum == XorOver(h.At(s - {x}, j), val) {
      if h.Hits(x.key, j) {
        XorTake(h.At(s, j), val, x);
        assert h.At(s, j) - {x} == h.At(s - {x}, j);
        var rest := XorOver(h.At(s - {x}, j), val);
        XorLaws(val(x.key), rest, val(x.key));
        XorLaws(rest, val(x.key), val(x.key));
      } else {
        assert h.At(s - {x}, j) == h.At(s, j);
      }
    }
  }

  // Tables into which keys are only inserted are honest.
  lemma InsertedHonest(h: Hasher, t: Table, s: set<Signed>)
    requires h.Valid() && Sketches(h, t, s) && forall x :: x in s ==> x.sign == 1
    ensures Honest(h, t, s)
  {
    hide Hasher.Hits, Hasher.Sum;
    forall j: nat | j < |t| && t[j].Empty() ensures h.At(s, j) == {} {
      PositiveCount(h, h.At(s, j));
    }
  }

  // So are the tables of a difference that peeling meets, if checksums are faithful.
  lemma PeelingHonest(h: Hasher, t: Table, d: set<Signed>, left: set<Signed>)
    requires h.Valid() && Sketches(h, t, left) && h.Remains(left, d) && h.Faithful(d)
    ensures Honest(h, t, left)
  {
    hide Hasher.Hits, Hasher.Sum;
    forall j: nat | j < |t| && t[j].Empty() ensures h.At(left, j) == {} {
      assert h.Recognised(h.At(left, j));
    }
  }

  // Values equal to the keys are one case.
  lemma MatchCarries(h: Hasher, t: Table, s: set<Signed>)
    requires h.Valid() && Sketches(h, t, s) && Proper(s)
    ensures ValuesMatch(t) <==> Carries(h, t, s, k => k)
  {
    hide Hasher.Hits, Hasher.Sum;
    forall j: nat | j < |t| ensures t[j].keySum == XorOver(h.At(s, j), k => k) {
      SumMeans(h, h.At(s, j));
    }
  }

  // The keys of one sign.
  ghost function KeysOf(s: set<Signed>, sign: int): set<nat> {
    set x | x in s && x.sign == sign :: x.key
  }

  // The list names every key of p once and nothing else.
  ghost predicate Enumerates(list: seq<(nat, nat)>, p: set<nat>) {
    && (forall i, j :: 0 <= i < j < |list| ==> list[i].0 != list[j].0)
    && (forall i :: 0 <= i < |list| ==> list[i].0 in p)
    && (forall k :: k in p ==> exists i :: 0 <= i < |list| && list[i].0 == k)
  }

  // The two lists are the signed keys of s.
  ghost predicate Lists(positive: seq<(nat, nat)>, negative: seq<(nat, nat)>, s: set<Signed>) {
    Enumerates(positive, KeysOf(s, 1)) && Enumerates(negative, KeysOf(s, -1))
  }

  // Every key is listed with its value.
  ghost predicate PairsMatch(list: seq<(nat, nat)>, val: nat -> nat) {
    forall i :: 0 <= i < |list| ==> list[i].1 == val(list[i].0)
  }

  lemma EnumeratesMore(list: seq<(nat, nat)>, p: set<nat>, entry: (nat, nat))
    requires Enumerates(list, p) && entry.0 !in p
    ensures Enumerates(list + [entry], p + {entry.0})
  {
    var more := list + [entry];
    forall k | k in p + {entry.0} ensures exists i :: 0 <= i < |more| && more[i].0 == k {
      if k == entry.0 {
        assert more[|list|].0 == k;
      } else {
        var i :| 0 <= i < |list| && list[i].0 == k;
        assert more[i].0 == k;
      }
    }
  }

  lemma ListsMore(positive: seq<(nat, nat)>, negative: seq<(nat, nat)>, s: set<Signed>, x: Signed, value: nat)
    requires Lists(positive, negative, s) && Proper(s + {x}) && x !in s
    ensures x.sign == 1 ==> Lists(positive + [(x.key, value)], negative, s + {x})
    ensures x.sign == -1 ==> Lists(positive, negative + [(x.key, value)], s + {x})
  {
    hide Enumerates;
    assert x.key !in KeysOf(s, x.sign);
    assert KeysOf(s + {x}, x.sign) == KeysOf(s, x.sign) + {x.key};
    assert KeysOf(s + {x}, -x.sign) == KeysOf(s, -x.sign);
    EnumeratesMore(if x.sign == 1 then positive else negative, KeysOf(s, x.sign), (x.key, value));
  }

  // A pure cell holds exactly one of the remaining keys.
  lemma PureCell(h: Hasher, t: Table, d: set<Signed>, left: set<Signed>, j: nat) returns (x: Signed)
    requires h.Valid() && Sketches(h, t, left) && h.Remains(left, d) && h.Faithful(d) && j < |t| && t[j].Pure(h)
    ensures h.At(left, j) == {x} && x in left && x.sign == t[j].count && x.key == t[j].keySum
  {
    hide Hasher.Hits, Hasher.Sum;
    var s := h.At(left, j);
    assert h.Recognised(s);
    assert |s| == 1;
    x :| x in s;
    assert s == {x} by {
      assert |s - {x}| == 0;
    }
    h.SumSingle(x);
  }

  // Which cells pass the test: those whose net count is one or minus one, and whose
  // keys' checksums add up to the checksum of what the keys add up to.
  lemma PureMeans(h: Hasher, t: Table, left: set<Signed>, j: nat)
    requires h.Valid() && Sketches(h, t, left) && Proper(left) && j < |t|
    ensures var s := h.At(left, j);
      var net := |WithSign(s, 1)| - |WithSign(s, -1)|;
      t[j].Pure(h) <==>
        (net == 1 || net == -1) && XorOver(s, k => h.hash(k, h.checkIndex)) == h.hash(XorOver(s, k => k), h.checkIndex)
  {
    hide Hasher.Hits, Hasher.Sum;
    SumMeans(h, h.At(left, j));
  }

  lemma SingleCellIsPure(h: Hasher, t: Table, left: set<Signed>, j: nat)
    requires h.Valid() && Sketches(h, t, left) && Proper(left) && j < |t| && |h.At(left, j)| == 1
    ensures t[j].Pure(h)
  {
    hide Hasher.Hits, Hasher.Sum;
    var s := h.At(left, j);
    var x :| x in s;
    assert s == {x} by {
      assert |s - {x}| == 0;
    }
    h.SumSingle(x);
  }

  // Peeling a key that is alone in a cell keeps every stuck part.
  lemma PeelKeepsStuck(h: Hasher, left: set<Signed>, x: Signed, j: nat, s: set<Signed>)
    requires h.Valid() && j < h.size && h.At(left, j) == {x} && s <= left
    ensures h.Stuck(s) ==> s <= left - {x}
  {
    hide Hasher.Hits;
    if x in s {
      assert x in h.At(left, j);
      assert h.At(s, j) == {x};
    }
  }

  // The table of what is left has a nonempty cell unless nothing is left.
  lemma AllEmpty(h: Hasher, t: Table, d: set<Signed>, s: set<Signed>)
    requires h.Valid() && Sketches(h, t, s) && h.Remains(s, d) && h.Faithful(d)
    ensures (forall j :: 0 <= j < |t| ==> t[j].Empty()) <==> s == {}
  {
    hide Hasher.Sum, Hasher.Slot;
    if s == {} {
      forall j | 0 <= j < |t| ensures t[j].Empty() {
        assert h.At(s, j) == {};
        h.SumEmpty();
      }
    } else {
      var x :| x in s;
      assert 1 <= h.numHashes(x.key);
      var j := h.Slot(x.key, 0);
      assert h.Reaches(x.key, h.numHashes(x.key), j);
      assert x in h.At(s, j) && h.Recognised(h.At(s, j));
      assert !t[j].Empty();
    }
  }

  function MinusCell(e1: Cell, e2: Cell): (r: Cell)
    ensures r.Part() == Add(e1.Part(), Negate(e2.Part()))
    ensures r.valueSum == if r.Empty() then 0 else Xor(e1.valueSum, e2.valueSum)
    ensures e1.valueSum == e1.keySum && e2.valueSum == e2.keySum ==> r.valueSum == r.keySum
  {
    var e := Cell(e1.count - e2.count, Xor(e1.keySum, e2.keySum), Xor(e1.keyCheck, e2.keyCheck), e1.valueSum);
    if e.Empty() then e.(valueSum := 0) else e.(valueSum := Xor(e.valueSum, e2.valueSum))
  }

  function Minus(t1: Table, t2: Table): (t: Table)
    requires |t1| == |t2|
    ensures |t| == |t1| && forall j :: 0 <= j < |t1| ==> t[j] == MinusCell(t1[j], t2[j])
  {
    seq(|t1|, j requires 0 <= j < |t1| => MinusCell(t1[j], t2[j]))
  }

  // A set of keys, all inserted, and all erased.
  ghost function Inserted(a: set<nat>): set<Signed> {
    set k | k in a :: Signed(k, 1)
  }

  ghost function Erased(a: set<nat>): set<Signed> {
    set k | k in a :: Signed(k, -1)
  }

  // The signed difference of two sets.
  ghost function Difference(a: set<nat>, b: set<nat>): (d: set<Signed>)
    ensures Proper(d)
  {
    Inserted(a - b) + Erased(b - a)
  }

  lemma SumNegated(h: Hasher, a: set<nat>, j: nat)
    requires h.Valid()
    ensures h.Sum(h.At(Erased(a), j)) == Negate(h.Sum(h.At(Inserted(a), j)))
    decreases a
  {
    hide Add, Hasher.Hits, Hasher.Sum;
    h.SumEmpty();
    if a == {} {
      assert h.At(Erased(a), j) == {} == h.At(Inserted(a), j);
    } else {
      var k :| k in a;
      var x, y := Signed(k, 1), Signed(k, -1);
      SumNegated(h, a - {k}, j);
      assert Inserted(a) - {x} == Inserted(a - {k}) && Erased(a) - {y} == Erased(a - {k});
      if h.Hits(k, j) {
        h.SumRemove(h.At(Inserted(a), j), x);
        h.SumRemove(h.At(Erased(a), j), y);
        assert h.At(Inserted(a), j) - {x} == h.At(Inserted(a - {k}), j);
        assert h.At(Erased(a), j) - {y} == h.At(Erased(a - {k}), j);
        NegateAdd(h.One(x), h.Sum(h.At(Inserted(a - {k}), j)));
      } else {
        assert h.At(Inserted(a), j) == h.At(Inserted(a - {k}), j);
        assert h.At(Erased(a), j) == h.At(Erased(a - {k}), j);
      }
    }
  }

  lemma NegateAdd(x: Sketch, y: Sketch)
    ensures Negate(Add(x, y)) == Add(Negate(x), Negate(y))
  {
  }

  lemma SumSplit(h: Hasher, s: set<Signed>, t: set<Signed>, j: nat)
    requires h.Valid() && s !! t
    ensures h.Sum(h.At(s + t, j)) == Add(h.Sum(h.At(s, j)), h.Sum(h.At(t, j)))
  {
    hide Add, Hasher.Hits, Hasher.Sum;
    assert h.At(s + t, j) == h.At(s, j) + h.At(t, j);
    h.SumUnion(h.At(s, j), h.At(t, j));
  }

  // Subtracting the sketch of one set from that of another gives the sketch of
  // their signed difference: common keys cancel in every cell.
  lemma MinusSketches(h: Hasher, t1: Table, t2: Table, a: set<nat>, b: set<nat>)
    requires h.Valid() && Sketches(h, t1, Inserted(a)) && Sketches(h, t2, Inserted(b))
    ensures Sketches(h, Minus(t1, t2), Difference(a, b))
  {
    hide Add, Hasher.At, Hasher.Sum, MinusCell;
    var both := a * b;
    forall j: nat | j < h.size
      ensures Minus(t1, t2)[j].Part() == h.Sum(h.At(Difference(a, b), j))
    {
      assert Inserted(a) == Inserted(both) + Inserted(a - b);
      assert Inserted(b) == Inserted(both) + Inserted(b - a);
      SumSplit(h, Inserted(both), Inserted(a - b), j);
      SumSplit(h, Inserted(both), Inserted(b - a), j);
      SumSplit(h, Inserted(a - b), Erased(b - a), j);
      SumNegated(h, b - a, j);
      Cancel(h.Sum(h.At(Inserted(both), j)), h.Sum(h.At(Inserted(a - b), j)), h.Sum(h.At(Inserted(b - a), j)));
    }
  }

  lemma Cancel(c: Sketch, x: Sketch, y: Sketch)
    ensures Add(Add(c, x), Negate(Add(c, y))) == Add(x, Negate(y))
  {
    hide Add;
    NegateAdd(c, y);
    AddLaws(c, x, Add(Negate(c), Negate(y)));
    AddLaws(x, c, Add(Negate(c), Negate(y)));
    AddLaws(c, Negate(c), Negate(y));
    AddLaws(Negate(y), ZERO, ZERO);
  }

  lemma XorErased(h: Hasher, a: set<nat>, j: nat, val: nat -> nat)
    requires h.Valid()
    ensures XorOver(h.At(Erased(a), j), val) == XorOver(h.At(Inserted(a), j), val)
    decreases a
  {
    hide Xor, Hasher.Hits;
    if a == {} {
      assert h.At(Erased(a), j) == {} == h.At(Inserted(a), j);
    } else {
      var k :| k in a;
      var x, y := Signed(k, 1), Signed(k, -1);
      XorErased(h, a - {k}, j, val);
      assert Inserted(a) - {x} == Inserted(a - {k}) && Erased(a) - {y} == Erased(a - {k});
      if h.Hits(k, j) {
        XorTake(h.At(Inserted(a), j), val, x);
        XorTake(h.At(Erased(a), j), val, y);
        assert h.At(Inserted(a), j) - {x} == h.At(Inserted(a - {k}), j);
        assert h.At(Erased(a), j) - {y} == h.At(Erased(a - {k}), j);
      } else {
        assert h.At(Inserted(a), j) == h.At(Inserted(a - {k}), j);
        assert h.At(Erased(a), j) == h.At(Erased(a - {k}), j);
      }
    }
  }

  lemma XorSplit(h: Hasher, s: set<Signed>, t: set<Signed>, j: nat, val: nat -> nat)
    requires h.Valid() && s !! t
    ensures XorOver(h.At(s + t, j), val) == Xor(XorOver(h.At(s, j), val), XorOver(h.At(t, j), val))
  {
    hide Xor, Hasher.Hits;
    assert h.At(s + t, j) == h.At(s, j) + h.At(t, j);
    XorUnion(h.At(s, j), h.At(t, j), val);
  }

  // The difference of two tables carries the values of the keys in the difference.
  lemma MinusCarries(h: Hasher, t1: Table, t2: Table, a: set<nat>, b: set<nat>, val: nat -> nat)
    requires h.Valid() && |t1| == |t2| == h.size
    requires Carries(h, t1, Inserted(a), val) && Carries(h, t2, Inserted(b), val)
    requires Honest(h, Minus(t1, t2), Difference(a, b))
    ensures Carries(h, Minus(t1, t2), Difference(a, b), val)
  {
    hide Xor, Hasher.At, XorOver, MinusCell, Cell.Empty;
    assert XorOver({}, val) == 0 by { EmptyXor(val); }
    var both := a * b;
    forall j: nat | j < h.size ensures Minus(t1, t2)[j].valueSum == XorOver(h.At(Difference(a, b), j), val) {
      assert Inserted(a) == Inserted(both) + Inserted(a - b);
      assert Inserted(b) == Inserted(both) + Inserted(b - a);
      XorSplit(h, Inserted(both), Inserted(a - b), j, val);
      XorSplit(h, Inserted(both), Inserted(b - a), j, val);
      XorSplit(h, Inserted(a - b), Erased(b - a), j, val);
      XorErased(h, b - a, j, val);
      XorCancel(XorOver(h.At(Inserted(both), j), val), XorOver(h.At(Inserted(a - b), j), val),
                XorOver(h.At(Inserted(b - a), j), val));
    }
  }

  lemma EmptyXor(val: nat -> nat)
    ensures XorOver({}, val) == 0
  {
  }

  lemma XorCancel(c: nat, x: nat, y: nat)
    ensures Xor(Xor(c, x), Xor(c, y)) == Xor(x, y)
  {
    hide Xor;
    XorLaws(c, x, Xor(c, y));
    XorLaws(x, c, Xor(c, y));
    XorLaws(c, c, y);
    XorLaws(Xor(c, x), Xor(c, y), 0);
    XorLaws(x, c, y);
    XorLaws(y, 0, 0);
  }

  class GenIBLT {
    const h: Hasher
    const hashTable: array<Cell>

    ghost predicate Valid() {
      h.Valid() && hashTable.Length == h.size
    }

    constructor (h: Hasher)
      requires h.Valid()
      ensures Valid() && fresh(hashTable) && this.h == h
      ensures Sketches(h, hashTable[..], {}) && ValuesMatch(hashTable[..])
    {
      this.h := h;
      hashTable := new Cell[h.size](i => EMPTY);
      new;
      assert forall j: nat :: h.At({}, j) == {};
      h.SumEmpty();
    }

    // Fills the cells from a received table.
    method Load(t: Table)
      requires Valid() && |t| == h.size
      modifies hashTable
      ensures hashTable[..] == t
    {
      for i := 0 to |t|
        invariant hashTable[..i] == t[..i]
      {
        hashTable[i] := t[i];
      }
    }

    method InsertSigned(plusOrMinus: int, key: nat, value: nat)
      requires Valid()
      modifies hashTable
      ensures Bumped(h, old(hashTable[..]), hashTable[..], plusOrMinus, key, value, h.numHashes(key))
      ensures old(ValuesMatch(hashTable[..])) && value == key ==> ValuesMatch(hashTable[..])
    {
      hide Bump, Hasher.Slot, Hasher.Valid;
      var numHashes := h.numHashes(key);
      for ii := 0 to numHashes
        invariant Bumped(h, old(hashTable[..]), hashTable[..], plusOrMinus, key, value, ii)
      {
        var j := h.Slot(key, ii);
        ghost var before := hashTable[..];
        hashTable[j] := Bump(hashTable[j], h, plusOrMinus, key, value);
        BumpStep(h, old(hashTable[..]), before, hashTable[..], plusOrMinus, key, value, ii);
      }
    }

    // The state of peeling the sketch of d: the table is the sketch of what is
    // left, the rest of d is listed, and no part that peeling cannot touch is lost.
    ghost predicate Peeling(d: set<Signed>, left: set<Signed>, positive: seq<(nat, nat)>, negative: seq<(nat, nat)>)
      requires Valid()
      reads hashTable
    {
      && h.Remains(left, d) && Sketches(h, hashTable[..], left)
      && Lists(positive, negative, d - left)
    }

    ghost predicate ValuesListed(left: set<Signed>, positive: seq<(nat, nat)>, negative: seq<(nat, nat)>,
                                 val: nat -> nat)
      requires Valid()
      reads hashTable
    {
      Carries(h, hashTable[..], left, val) && PairsMatch(positive, val) && PairsMatch(negative, val)
    }

    // Subtracts another table, cell by cell.
    method Subtract(other: GenIBLT)
      requires Valid() && other.Valid() && other.h.size == h.size
      modifies hashTable
      ensures hashTable[..] == Minus(old(hashTable[..]), old(other.hashTable[..]))
    {
      hide MinusCell, Minus;
      ghost var t1, t2 := hashTable[..], other.hashTable[..];
      ghost var difference := Minus(t1, t2);
      for ii := 0 to hashTable.Length
        invariant forall j :: 0 <= j < ii ==> hashTable[j] == difference[j]
        invariant forall j :: ii <= j < hashTable.Length ==> hashTable[j] == t1[j]
        invariant forall j :: ii <= j < hashTable.Length ==> other.hashTable[j] == t2[j]
      {
        hashTable[ii] := MinusCell(hashTable[ii], other.hashTable[ii]);
      }
      assert hashTable[..] == difference;
    }

    // Lists the key of a pure cell and takes it out of the table.
    method Peel(i: nat, ghost d: set<Signed>, ghost left: set<Signed>, pos: seq<(nat, nat)>, neg: seq<(nat, nat)>,
                ghost val: nat -> nat)
      returns (positive: seq<(nat, nat)>, negative: seq<(nat, nat)>, ghost rest: set<Signed>)
      requires Valid() && i < hashTable.Length && hashTable[i].Pure(h)
      requires Proper(d) && h.Faithful(d) && Peeling(d, left, pos, neg)
      modifies hashTable
      ensures rest < left && Peeling(d, rest, positive, negative)
      ensures old(ValuesListed(left, pos, neg, val)) ==> ValuesListed(rest, positive, negative, val)
    {
      hide Lists, Hasher.At, Hasher.Faithful, Sketches, Hasher.Stuck, Bumped, Carries, Honest, XorOver;
      ghost var t := hashTable[..];
      var entry := hashTable[i];
      ghost var x := PureCell(h, t, d, left, i);
      positive, negative := pos, neg;
      if entry.count == 1 {
        positive := pos + [(entry.keySum, entry.valueSum)];
      } else {
        negative := neg + [(entry.keySum, entry.valueSum)];
      }
      rest := left - {x};
      InsertSigned(-entry.count, entry.keySum, entry.valueSum);
      BumpedRemoves(h, t, hashTable[..], x, entry.valueSum, left);
      assert d - rest == (d - left) + {x};
      ListsMore(pos, neg, d - left, x, entry.valueSum);
      forall s: set<Signed> | s <= left && h.Stuck(s) ensures s <= rest {
        PeelKeepsStuck(h, left, x, i, s);
      }
      PeelingHonest(h, hashTable[..], d, rest);
      if Carries(h, t, left, val) {
        SingleValue(h, t, left, x, i, val);
        BumpedCarriesRest(h, t, hashTable[..], x, left, val);
      }
    }

    // One pass over the cells, listing those found pure.
    method PeelPass(ghost d: set<Signed>, ghost left: set<Signed>, pos: seq<(nat, nat)>, neg: seq<(nat, nat)>,
                    ghost val: nat -> nat)
      returns (nErased: nat, positive: seq<(nat, nat)>, negative: seq<(nat, nat)>, ghost rest: set<Signed>)
      requires Valid() && Proper(d) && h.Faithful(d) && Peeling(d, left, pos, neg)
      modifies hashTable
      ensures rest <= left && (nErased == 0 <==> rest == left) && Peeling(d, rest, positive, negative)
      ensures nErased == 0 ==> forall j :: 0 <= j < hashTable.Length ==> !hashTable[j].Pure(h)
      ensures old(ValuesListed(left, pos, neg, val)) ==> ValuesListed(rest, positive, negative, val)
    {
      hide Peeling, ValuesListed, Hasher.Faithful, Cell.Pure;
      nErased, positive, negative, rest := 0, pos, neg, left;
      for i := 0 to hashTable.Length
        invariant rest <= left && (nErased == 0 <==> rest == left) && Peeling(d, rest, positive, negative)
        invariant nErased == 0 ==> forall j :: 0 <= j < i ==> !hashTable[j].Pure(h)
        invariant old(ValuesListed(left, pos, neg, val)) ==> ValuesListed(rest, positive, negative, val)
      {
        if hashTable[i].Pure(h) {
          positive, negative, rest := Peel(i, d, rest, positive, negative, val);
          nErased := nErased + 1;
        }
      }
    }

    method IsEmpty() returns (empty: bool)
      ensures empty <==> forall j :: 0 <= j < |hashTable[..]| ==> hashTable[..][j].Empty()
    {
      for i := 0 to hashTable.Length
        invariant forall j :: 0 <= j < i ==> hashTable[..][j].Empty()
      {
        if !hashTable[i].Empty() {
          assert !hashTable[..][i].Empty();
          return false;
        }
      }
      return true;
    }

    // Peels pure cells until a whole pass finds none. The table holds the sketch of
    // d, given as a ghost like the values of its keys; left is what could not be
    // peeled.
    method ListEntries(ghost d: set<Signed>, ghost val: nat -> nat)
      returns (complete: bool, positive: seq<(nat, nat)>, negative: seq<(nat, nat)>, ghost left: set<Signed>)
      requires Valid() && Sketches(h, hashTable[..], d) && Proper(d) && h.Faithful(d)
      modifies hashTable
      ensures h.IsCore(left, d) && Sketches(h, hashTable[..], left)
      ensures Lists(positive, negative, d - left)
      ensures complete <==> left == {}
      ensures old(Carries(h, hashTable[..], d, val)) ==>
        Carries(h, hashTable[..], left, val) && PairsMatch(positive, val) && PairsMatch(negative, val)
    {
      left, positive, negative := d, [], [];
      assert Lists(positive, negative, d - left);
      hide Lists, Sketches, Hasher.Stuck, Hasher.Faithful, Cell.Pure, Carries;
      while true
        invariant Peeling(d, left, positive, negative)
        invariant old(ValuesListed(d, [], [], val)) ==> ValuesListed(left, positive, negative, val)
        decreases left
      {
        var nErased;
        nErased, positive, negative, left := PeelPass(d, left, positive, negative, val);
        if nErased == 0 {
          break;
        }
      }
      StuckWithoutPure(h, hashTable[..], left);
      AllEmpty(h, hashTable[..], d, left);
      complete := IsEmpty();
    }
  }

  // A cell with one key holds that key's value.
  lemma SingleValue(h: Hasher, t: Table, left: set<Signed>, x: Signed, j: nat, val: nat -> nat)
    requires h.Valid() && j < |t| && Carries(h, t, left, val) && h.At(left, j) == {x}
    ensures t[j].valueSum == val(x.key)
  {
    XorSingle(x, val);
  }

  lemma StuckWithoutPure(h: Hasher, t: Table, left: set<Signed>)
    requires h.Valid() && Sketches(h, t, left) && Proper(left)
    requires forall j :: 0 <= j < |t| ==> !t[j].Pure(h)
    ensures h.Stuck(left)
  {
    hide Hasher.At, Cell.Pure;
    forall j: nat | j < h.size ensures |h.At(left, j)| != 1 {
      if |h.At(left, j)| == 1 {
        SingleCellIsPure(h, t, left, j);
      }
    }
  }

  lemma BumpStep(h: Hasher, was: Table, mid: Table, now: Table, plusOrMinus: int, key: nat, value: nat, ii: nat)
    requires h.Valid() && ii < h.numHashes(key) && Bumped(h, was, mid, plusOrMinus, key, value, ii)
    requires var j := h.Slot(key, ii);
      now == mid[j := Bump(mid[j], h, plusOrMinus, key, value)]
    ensures Bumped(h, was, now, plusOrMinus, key, value, ii + 1)
  {
    hide Bump, Hasher.Slot, Hasher.Valid;
    h.ReachesMore(key, ii);
  }
}
