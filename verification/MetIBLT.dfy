// The multi-edge-type table: several lookup tables over the same keys, peeled
// together. Keys listed by one table are erased from the others.
module MetIBLTs {
  import opened SignedSketch
  import opened GenIBLTs
  import opened Lists

  // Peeling with all keys inserted: s is the sketch's set of keys.
  ghost predicate Holds(table: GenIBLT, s: set<nat>)
    requires table.Valid()
    reads table.hashTable
  {
    Sketches(table.h, table.hashTable[..], Inserted(s))
  }

  // No cell of the table holds exactly one key of s.
  ghost predicate Untouchable(table: GenIBLT, s: set<nat>)
    requires table.Valid()
  {
    table.h.Stuck(Inserted(s))
  }

  ghost function Keys(s: set<Signed>): set<nat> {
    set x | x in s :: x.key
  }

  // When no key is negative, what is left and what was listed are given by keys.
  lemma PositivesLeft(s: set<nat>, rest: set<Signed>)
    requires rest <= Inserted(s)
    ensures Inserted(Keys(rest)) == rest && Keys(rest) <= s && (rest == {} <==> Keys(rest) == {})
    ensures KeysOf(Inserted(s) - rest, 1) == s - Keys(rest) && KeysOf(Inserted(s) - rest, -1) == {}
  {
    assert forall x | x in rest :: x.key in Keys(rest);
    forall k | k in s - Keys(rest) ensures k in KeysOf(Inserted(s) - rest, 1) {
      assert Signed(k, 1) in Inserted(s) - rest;
    }
  }

  // Lists what one table can peel; no hypothesis on checksums is needed.
  method ListTable(table: GenIBLT, ghost s: set<nat>)
    returns (complete: bool, positive: set<nat>, negative: set<nat>, ghost left: set<nat>)
    requires table.Valid() && Holds(table, s)
    modifies table.hashTable
    ensures Holds(table, left) && left <= s && positive == s - left && negative == {}
    ensures complete <==> left == {}
    ensures Untouchable(table, left)
    ensures forall u: set<nat> :: u <= s && Untouchable(table, u) ==> u <= left
  {
    hide Sketches, Hasher.Stuck, Hasher.Faithful;
    PositiveFaithful(table.h, Inserted(s));
    ghost var rest;
    var pos, neg;
    complete, pos, neg, rest := table.ListEntries(Inserted(s), k => k);
    left := Keys(rest);
    positive := set i | 0 <= i < |pos| :: pos[i].0;
    negative := set i | 0 <= i < |neg| :: neg[i].0;
    PositivesLeft(s, rest);
    forall u: set<nat> | u <= s && Untouchable(table, u) ensures u <= left {
      assert Inserted(u) <= Inserted(s);
      forall k | k in u ensures k in left {
        assert Signed(k, 1) in Inserted(u);
      }
    }
  }

  method EraseAll(table: GenIBLT, xs: set<nat>, ghost s: set<nat>)
    requires table.Valid() && Holds(table, s) && xs <= s
    modifies table.hashTable
    ensures Holds(table, s - xs)
  {
    hide Sketches, Bumped;
    var todo := xs;
    ghost var now := s;
    while todo != {}
      invariant todo <= xs && now == s - (xs - todo) && Holds(table, now)
      decreases todo
    {
      var x :| x in todo;
      ghost var t := table.hashTable[..];
      table.InsertSigned(-1, x, x);
      BumpedRemoves(table.h, t, table.hashTable[..], Signed(x, 1), x, Inserted(now));
      assert Inserted(now - {x}) == Inserted(now) - {Signed(x, 1)};
      todo := todo - {x};
      now := now - {x};
    }
    assert now == s - xs;
  }

  class MetIBLT {
    const tables: seq<GenIBLT>

    constructor (tables: seq<GenIBLT>)
      ensures this.tables == tables
    {
      this.tables := tables;
    }

    ghost predicate Valid() {
      && (forall i :: 0 <= i < |tables| ==> tables[i].Valid())
      && (forall i, j :: 0 <= i < j < |tables| ==> tables[i].hashTable != tables[j].hashTable)
    }

    ghost function Repr(): set<object> {
      set i | 0 <= i < |tables| :: tables[i].hashTable
    }

    // Every table is the sketch of the same keys.
    ghost predicate AllHold(s: set<nat>)
      requires Valid()
      reads Repr()
    {
      forall i :: 0 <= i < |tables| ==> Holds(tables[i], s)
    }

    // No table can peel a key of s.
    ghost predicate AllUntouchable(s: set<nat>)
      requires Valid()
    {
      forall i :: 0 <= i < |tables| ==> Untouchable(tables[i], s)
    }

    method Insert(value: nat, ghost s: set<nat>)
      requires Valid() && AllHold(s) && value !in s
      modifies Repr()
      ensures AllHold(s + {value})
    {
      hide Sketches, Bumped;
      for i := 0 to |tables|
        invariant forall k :: 0 <= k < i ==> Holds(tables[k], s + {value})
        invariant forall k :: i <= k < |tables| ==> Holds(tables[k], s)
      {
        ghost var t := tables[i].hashTable[..];
        tables[i].InsertSigned(1, value, value);
        BumpedAdds(tables[i].h, t, tables[i].hashTable[..], Signed(value, 1), value, Inserted(s));
        assert Inserted(s + {value}) == Inserted(s) + {Signed(value, 1)};
      }
    }

    // Lets every table list what it can.
    method ListAll(ghost s: set<nat>)
      returns (success: bool, positive: set<nat>, negative: set<nat>, removedPerTable: seq<set<nat>>)
      requires Valid() && AllHold(s)
      modifies Repr()
      ensures |removedPerTable| == |tables| && positive <= s && negative == {}
      ensures forall k :: 0 <= k < |tables| ==>
        removedPerTable[k] <= positive && Holds(tables[k], s - removedPerTable[k])
      ensures success ==> positive == s
      ensures s == {} && tables != [] ==> success
      ensures positive == {} ==> AllUntouchable(s)
      ensures forall u: set<nat> :: u <= s && AllUntouchable(u) ==> u <= s - positive
    {
      hide Holds, Untouchable;
      success, positive, negative, removedPerTable := false, {}, {}, [];
      for i := 0 to |tables|
        invariant |removedPerTable| == i && negative == {} && positive <= s
        invariant forall k :: 0 <= k < i ==> removedPerTable[k] <= positive
        invariant forall k :: 0 <= k < i ==> Holds(tables[k], s - removedPerTable[k])
        invariant forall k :: i <= k < |tables| ==> Holds(tables[k], s)
        invariant success ==> positive == s
        invariant s == {} && 0 < i ==> success
        invariant positive == {} ==> forall k :: 0 <= k < i ==> Untouchable(tables[k], s)
        invariant forall u: set<nat> :: u <= s && AllUntouchable(u) ==> u <= s - positive
      {
        ghost var left;
        var complete, pos, neg;
        complete, pos, neg, left := ListTable(tables[i], s);
        assert left == s - pos == s - (neg + pos);
        assert pos == {} ==> left == s;
        success := success || complete;
        negative := negative + neg;
        positive := positive + pos;
        removedPerTable := removedPerTable + [neg + pos];
      }
    }

    // One round: every table lists what it can, then each table erases what
    // the others listed.
    method PeelOnce(ghost s: set<nat>) returns (success: bool, positive: set<nat>, negative: set<nat>)
      requires Valid() && AllHold(s)
      modifies Repr()
      ensures positive <= s && negative == {} && AllHold(s - positive)
      ensures success ==> positive == s
      ensures s == {} && tables != [] ==> success
      ensures positive == {} ==> AllUntouchable(s)
      ensures forall u: set<nat> :: u <= s && AllUntouchable(u) ==> u <= s - positive
    {
      hide Holds, AllUntouchable;
      var removedPerTable;
      success, positive, negative, removedPerTable := ListAll(s);
      for i := 0 to |tables|
        invariant forall k :: 0 <= k < i ==> Holds(tables[k], s - positive)
        invariant forall k :: i <= k < |tables| ==> Holds(tables[k], s - removedPerTable[k])
      {
        EraseAll(tables[i], positive - removedPerTable[i], s - removedPerTable[i]);
        assert s - removedPerTable[i] - (positive - removedPerTable[i]) == s - positive;
      }
    }

    // Peels until a round finds nothing.
    method PeelAll(ghost s: set<nat>)
      returns (success: bool, positive: seq<nat>, negative: seq<nat>, ghost left: set<nat>)
      requires Valid() && AllHold(s)
      modifies Repr()
      ensures left <= s && AllHold(left) && AllUntouchable(left)
      ensures forall u: set<nat> :: u <= s && AllUntouchable(u) ==> u <= left
      ensures NoRepeats(positive) && ToSet(positive) == s - left && negative == []
      ensures tables != [] ==> (success <==> left == {})
    {
      hide AllHold, AllUntouchable;
      positive, negative := [], [];
      ghost var before := s;
      var pos, neg;
      success, pos, neg := PeelOnce(s);
      left := s - pos;
      while pos != {} || neg != {}
        invariant left == before - pos && before <= s && pos <= before && neg == {} && AllHold(left) && negative == []
        invariant forall u: set<nat> :: u <= s && AllUntouchable(u) ==> u <= left
        invariant NoRepeats(positive) && ToSet(positive) == s - before
        invariant success ==> pos == before
        invariant before == {} && tables != [] ==> success
        invariant pos == {} ==> AllUntouchable(before)
        decreases before
      {
        positive := AppendAll(positive, pos);
        negative := AppendAll(negative, neg);
        assert ToSet(positive) == s - left;
        before := left;
        success, pos, neg := PeelOnce(left);
        left := left - pos;
      }
      assert left == before;
    }
  }

  // Appends the members of a set in some order.
  method AppendAll(list: seq<nat>, xs: set<nat>) returns (r: seq<nat>)
    requires NoRepeats(list) && ToSet(list) !! xs
    ensures NoRepeats(r) && ToSet(r) == ToSet(list) + xs
    ensures xs == {} ==> r == list
  {
    r := list;
    var todo := xs;
    while todo != {}
      invariant todo <= xs && NoRepeats(r) && ToSet(r) == ToSet(list) + (xs - todo)
      invariant xs == {} ==> r == list
      decreases todo
    {
      var x :| x in todo;
      assert x !in ToSet(r);
      var more := r + [x];
      assert ToSet(more) == ToSet(r) + {x};
      r := more;
      todo := todo - {x};
    }
    assert xs - todo == xs;
  }
}
