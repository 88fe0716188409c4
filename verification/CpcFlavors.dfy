// How the sketch flavors turn windows and tables into sorted pair lists and
// back: the hybrid merge and split, the pinned shift and the sliding rotation.
module CpcFlavors {
  import opened Bits
  import opened CpcByteCodec
  import opened CpcPairCodec
  import opened PairSorts
  import opened Wrappers

  lemma BitOf(c: nat)
    ensures forall k: nat :: Bit(Shl(1, c), k) <==> k == c
  {
    OneBit();
  }

  // The pairs of one window row from column c on, and of the rows from r on.
  function RowPairs(row: nat, byte: nat, c: nat): seq<nat>
    requires c <= 8
    decreases 8 - c
  {
    if c == 8 then []
    else (if Bit(byte, c) then [64 * row + c] else []) + RowPairs(row, byte, c + 1)
  }

  function WindowPairs(window: seq<Byte>, r: nat): seq<nat>
    requires r <= |window|
    decreases |window| - r
  {
    if r == |window| then [] else RowPairs(r, window[r], 0) + WindowPairs(window, r + 1)
  }

  // A pair is listed exactly when its bit is set in the window.
  lemma {:induction false} RowPairsMembers(row: nat, byte: nat, c: nat, rc: nat)
    requires c <= 8
    ensures rc in RowPairs(row, byte, c) <==> Row(rc) == row && c <= Col(rc) < 8 && Bit(byte, Col(rc))
    decreases 8 - c
  {
    hide Bit;
    if c < 8 {
      RowPairsMembers(row, byte, c + 1, rc);
    }
  }

  lemma {:induction false} WindowPairsMembers(window: seq<Byte>, r: nat, rc: nat)
    requires r <= |window|
    ensures rc in WindowPairs(window, r) <==> r <= Row(rc) < |window| && Col(rc) < 8 && Bit(window[Row(rc)], Col(rc))
    decreases |window| - r
  {
    hide Bit, Row, Col;
    if r < |window| {
      RowPairsMembers(r, window[r], 0, rc);
      WindowPairsMembers(window, r + 1, rc);
    }
  }

  // Sorted without repeats, all members in [lo, hi).
  ghost predicate Within(s: seq<nat>, lo: nat, hi: nat) {
    Increasing(s) && forall x :: x in s ==> lo <= x < hi
  }

  lemma WithinConcat(s: seq<nat>, t: seq<nat>, lo: nat, mid: nat, hi: nat)
    requires Within(s, lo, mid) && Within(t, mid, hi) && lo <= mid <= hi
    ensures Within(s + t, lo, hi)
  {
    var u := s + t;
    forall i | 0 < i < |u| ensures u[i - 1] < u[i] {
      if i < |s| {
        assert s[i - 1] < s[i];
      } else if i == |s| {
        assert u[i - 1] in s && u[i] in t;
      } else {
        assert t[i - |s| - 1] < t[i - |s|];
      }
    }
  }

  lemma {:induction false} RowPairsSorted(row: nat, byte: nat, c: nat)
    requires c <= 8
    ensures Within(RowPairs(row, byte, c), 64 * row + c, 64 * row + 8)
    decreases 8 - c
  {
    hide Bit;
    if c < 8 {
      RowPairsSorted(row, byte, c + 1);
      var head := if Bit(byte, c) then [64 * row + c] else [];
      assert Within(head, 64 * row + c, 64 * row + c + 1);
      WithinConcat(head, RowPairs(row, byte, c + 1), 64 * row + c, 64 * row + c + 1, 64 * row + 8);
    }
  }

  lemma {:induction false} WindowPairsSorted(window: seq<Byte>, r: nat)
    requires r <= |window|
    ensures Within(WindowPairs(window, r), 64 * r, 64 * |window|)
    decreases |window| - r
  {
    if r < |window| {
      RowPairsSorted(r, window[r], 0);
      WindowPairsSorted(window, r + 1);
      assert Within(RowPairs(r, window[r], 0), 64 * r, 64 * (r + 1));
      WithinConcat(RowPairs(r, window[r], 0), WindowPairs(window, r + 1), 64 * r, 64 * (r + 1), 64 * |window|);
    }
  }

  // The columns below the lowest set bit contribute nothing.
  lemma {:induction false} RowPairsSkip(row: nat, byte: nat, c: nat, d: nat)
    requires c <= d <= 8 && forall k: nat :: c <= k < d ==> !Bit(byte, k)
    ensures RowPairs(row, byte, c) == RowPairs(row, byte, d)
    decreases d - c
  {
    if c < d {
      RowPairsSkip(row, byte, c + 1, d);
    }
  }

  // Lists the window's pairs at the end of a fresh array, leaving room in front.
  method GetPairsFromWindow(window: seq<Byte>, numPairs: nat, emptySpace: nat) returns (pairs: array<nat>)
    requires numPairs == |WindowPairs(window, 0)|
    ensures fresh(pairs) && pairs.Length == emptySpace + numPairs
    ensures pairs[emptySpace..] == WindowPairs(window, 0)
  {
    hide RowPairs, Bit;
    pairs := new nat[emptySpace + numPairs];
    var pairIndex := emptySpace;
    ghost var all := WindowPairs(window, 0);
    assert pairs[emptySpace..pairIndex] == [];
    for r := 0 to |window|
      invariant emptySpace <= pairIndex <= pairs.Length
      invariant pairs[emptySpace..pairIndex] + WindowPairs(window, r) == all
    {
      ghost var later := WindowPairs(window, r + 1);
      assert pairs[emptySpace..pairIndex] + RowPairs(r, window[r], 0) + later == all;
      pairIndex := GetPairsFromRow(pairs, emptySpace, pairIndex, r, window[r], all, later);
    }
    assert pairs[emptySpace..pairIndex] == all;
  }

  // Takes the set bits of one row's byte, lowest first, erasing each.
  method GetPairsFromRow(pairs: array<nat>, start: nat, from: nat, row: nat, byte0: Byte,
                         ghost all: seq<nat>, ghost later: seq<nat>)
    returns (pairIndex: nat)
    requires start <= from <= pairs.Length && |all| == pairs.Length - start
    requires pairs[start..from] + RowPairs(row, byte0, 0) + later == all
    modifies pairs
    ensures start <= pairIndex <= pairs.Length && pairs[start..pairIndex] + later == all
  {
    hide Bit, Xor, Shl, RowPairs, TrailingZeros, Row, Col;
    var byte: nat := byte0;
    pairIndex := from;
    ghost var c := 0;
    while byte != 0
      invariant c <= 8 && start <= pairIndex <= pairs.Length
      invariant forall k: nat :: Bit(byte, k) <==> c <= k && Bit(byte0, k)
      invariant pairs[start..pairIndex] + RowPairs(row, byte0, c) + later == all
      decreases 8 - c
    {
      ByteBits(byte0);
      LowestBit(byte, byte0, c);
      var col := TrailingZeros(byte, 8);
      RowPairsSkip(row, byte0, c, col);
      RowPairsHead(row, byte0, col);
      BitOf(col);
      byte := Xor(byte, Shl(1, col));
      ghost var before := pairs[start..pairIndex];
      pairs[pairIndex] := 64 * row + col;
      pairIndex := pairIndex + 1;
      c := col + 1;
      assert pairs[start..pairIndex] == before + [64 * row + col];
    }
    NoRowPairs(row, byte0, c, byte);
  }

  lemma LowestBit(byte: nat, byte0: nat, c: nat)
    requires byte != 0 && c <= 8 && forall k: nat :: Bit(byte, k) <==> c <= k && Bit(byte0, k)
    requires forall k: nat :: 8 <= k ==> !Bit(byte0, k)
    ensures var t := TrailingZeros(byte, 8);
      c <= t < 8 && Bit(byte0, t) && forall k: nat :: c <= k < t ==> !Bit(byte0, k)
  {
    hide Bit, TrailingZeros;
    var t := TrailingZeros(byte, 8);
    if t == 8 {
      AllZero();
      SameBits(byte, 0);
      assert false;
    }
    forall k: nat | c <= k < t ensures !Bit(byte0, k) {
      assert !Bit(byte, k);
    }
  }

  lemma RowPairsHead(row: nat, byte: nat, c: nat)
    requires c < 8 && Bit(byte, c)
    ensures RowPairs(row, byte, c) == [64 * row + c] + RowPairs(row, byte, c + 1)
  {
  }

  lemma NoRowPairs(row: nat, byte0: nat, c: nat, byte: nat)
    requires c <= 8 && byte == 0 && forall k: nat :: Bit(byte, k) <==> c <= k && Bit(byte0, k)
    ensures RowPairs(row, byte0, c) == []
  {
    AllZero();
    RowPairsSkip(row, byte0, c, 8);
  }

  function Merge(a: seq<nat>, b: seq<nat>): (m: seq<nat>)
    ensures |m| == |a| + |b|
  {
    if b == [] then a
    else if a == [] then b
    else if a[0] < b[0] then [a[0]] + Merge(a[1..], b)
    else [b[0]] + Merge(a, b[1..])
  }

  lemma {:induction false} MergeMembers(a: seq<nat>, b: seq<nat>, x: nat)
    ensures x in Merge(a, b) <==> x in a || x in b
  {
    if a != [] && b != [] {
      if a[0] < b[0] {
        MergeMembers(a[1..], b, x);
      } else {
        MergeMembers(a, b[1..], x);
      }
    }
  }

  lemma {:induction false} IncreasingFrom(s: seq<nat>, i: nat, j: nat)
    requires Increasing(s) && i < j < |s|
    ensures s[i] < s[j]
  {
    if i + 1 < j {
      IncreasingFrom(s, i, j - 1);
    }
  }

  lemma PrependSmaller(x: nat, s: seq<nat>)
    requires Increasing(s) && forall y :: y in s ==> x < y
    ensures Increasing([x] + s)
  {
    var t := [x] + s;
    forall i | 0 < i < |t| ensures t[i - 1] < t[i] {
      if i == 1 {
        assert s[0] in s;
      } else {
        assert s[i - 2] < s[i - 1];
      }
    }
  }

  // Everything after the head of a sorted list is greater than the head.
  lemma HeadSmallest(s: seq<nat>)
    requires Increasing(s) && s != []
    ensures Increasing(s[1..]) && forall y :: y in s[1..] ==> s[0] < y
  {
    forall y | y in s[1..] ensures s[0] < y {
      var j :| 0 <= j < |s[1..]| && s[1..][j] == y;
      IncreasingFrom(s, 0, j + 1);
    }
  }

  lemma {:induction false} MergeSorted(a: seq<nat>, b: seq<nat>)
    requires Increasing(a) && Increasing(b) && forall x :: x in a ==> x !in b
    ensures Increasing(Merge(a, b))
  {
    if a != [] && b != [] {
      HeadSmallest(a);
      HeadSmallest(b);
      assert a == [a[0]] + a[1..] && b == [b[0]] + b[1..];
      assert a[0] in a && b[0] in b;
      if a[0] < b[0] {
        MergeSorted(a[1..], b);
        forall y | y in Merge(a[1..], b) ensures a[0] < y {
          MergeMembers(a[1..], b, y);
        }
        PrependSmaller(a[0], Merge(a[1..], b));
      } else {
        MergeSorted(a, b[1..]);
        forall y | y in Merge(a, b[1..]) ensures b[0] < y {
          MergeMembers(a, b[1..], y);
        }
        PrependSmaller(b[0], Merge(a, b[1..]));
      }
    }
  }

  // A sorted list without repeats is determined by its members.
  lemma {:induction false} SortedDetermined(s: seq<nat>, t: seq<nat>)
    requires Increasing(s) && Increasing(t) && forall x :: x in s <==> x in t
    ensures s == t
  {
    assert t == [] || t[0] in t;
    if s != [] {
      assert s[0] in t && t != [];
      assert t[0] in s;
      HeadSmallest(s);
      HeadSmallest(t);
      assert s == [s[0]] + s[1..] && t == [t[0]] + t[1..];
      assert s[0] == t[0];
      forall x ensures x in s[1..] <==> x in t[1..] {
        assert x in s <==> x == s[0] || x in s[1..];
        assert x in t <==> x == t[0] || x in t[1..];
      }
      SortedDetermined(s[1..], t[1..]);
    }
  }

  // Merges a into an array whose tail already holds b; the overlap is safe
  // because the write position never passes the read position in the tail.
  method MergeInto(a: seq<nat>, c: array<nat>)
    requires |a| <= c.Length
    modifies c
    ensures c[..] == Merge(a, old(c[|a|..]))
  {
    ghost var m := Merge(a, c[|a|..]);
    StartUnmerged(a, c[..], m);
    hide *;
    MergeLoop(a, c, m);
  }

  lemma StartUnmerged(a: seq<nat>, c: seq<nat>, m: seq<nat>)
    requires |a| <= |c| && m == Merge(a, c[|a|..])
    ensures |m| == |c| && Unmerged(a, c, 0, |a|, m, 0)
  {
    assert a[0..] == a && m[0..] == m;
  }

  method MergeLoop(a: seq<nat>, c: array<nat>, ghost m: seq<nat>)
    requires |a| <= c.Length == |m| && Unmerged(a, c[..], 0, |a|, m, 0)
    modifies c
    ensures c[..] == m
  {
    hide *;
    ghost var was := c[..];
    var ai, bi := 0, |a|;
    for i := 0 to c.Length
      invariant 0 <= ai <= |a| <= bi <= c.Length && i == ai + bi - |a|
      invariant forall j :: bi <= j < c.Length ==> c[j] == was[j]
      invariant forall j :: 0 <= j < i ==> c[j] == m[j]
      invariant Unmerged(a, was, ai, bi, m, i)
    {
      var fromA := bi >= c.Length || (ai < |a| && a[ai] < c[bi]);
      MergeNext(a, was, ai, bi, m, i, fromA);
      if fromA {
        c[i] := a[ai];
        ai := ai + 1;
      } else {
        c[i] := c[bi];
        bi := bi + 1;
      }
    }
  }

  // What is left of the two lists merges into what is left of m.
  predicate Unmerged(a: seq<nat>, b: seq<nat>, i: nat, k: nat, m: seq<nat>, n: nat) {
    i <= |a| && k <= |b| && n <= |m| && Merge(a[i..], b[k..]) == m[n..]
  }

  lemma MergeNext(a: seq<nat>, b: seq<nat>, i: nat, k: nat, m: seq<nat>, n: nat, fromA: bool)
    requires i <= |a| && k <= |b| && i + k < |a| + |b| && n < |m| && Unmerged(a, b, i, k, m, n)
    requires fromA <==> k >= |b| || (i < |a| && a[i] < b[k])
    ensures fromA ==> i < |a| && m[n] == a[i] && Unmerged(a, b, i + 1, k, m, n + 1)
    ensures !fromA ==> k < |b| && m[n] == b[k] && Unmerged(a, b, i, k + 1, m, n + 1)
  {
    hide Merge;
    MergeHead(a, b, i, k);
    assert m[n..][0] == m[n] && m[n..][1..] == m[n + 1..];
  }

  lemma MergeHead(a: seq<nat>, b: seq<nat>, i: nat, k: nat)
    requires i <= |a| && k <= |b| && i + k < |a| + |b|
    ensures k >= |b| || (i < |a| && a[i] < b[k]) ==>
      i < |a| && Merge(a[i..], b[k..]) == [a[i]] + Merge(a[i + 1..], b[k..])
    ensures k < |b| && !(i < |a| && a[i] < b[k]) ==> Merge(a[i..], b[k..]) == [b[k]] + Merge(a[i..], b[k + 1..])
  {
  }

  function TruePairs(s: seq<nat>): seq<nat> {
    if s == [] then []
    else TruePairs(s[..|s| - 1]) + (if Col(s[|s| - 1]) < 8 then [] else [s[|s| - 1]])
  }

  lemma {:induction false} TruePairsMembers(s: seq<nat>, x: nat)
    ensures x in TruePairs(s) <==> x in s && 8 <= Col(x)
    ensures |TruePairs(s)| <= |s|
  {
    hide Col;
    if s != [] {
      TruePairsMembers(s[..|s| - 1], x);
      assert s == s[..|s| - 1] + [s[|s| - 1]];
    }
  }

  lemma {:induction false} TruePairsSorted(s: seq<nat>)
    requires Increasing(s)
    ensures Increasing(TruePairs(s))
  {
    hide Col;
    if s != [] {
      var n := |s| - 1;
      TruePairsSorted(s[..n]);
      var t := TruePairs(s[..n]);
      if t != [] {
        var y := t[|t| - 1];
        TruePairsMembers(s[..n], y);
        var j :| 0 <= j < n && s[j] == y;
        IncreasingFrom(s, j, n);
      }
    }
  }

  // A window whose bits are the pairs of s with columns below 8.
  ghost predicate WindowOf(window: seq<Byte>, s: seq<nat>) {
    forall r: nat, c: nat :: r < |window| ==> (Bit(window[r], c) <==> c < 8 && 64 * r + c in s)
  }

  // Separates a merged list in place: pairs with a column below 8 set window
  // bits, the others move to the bottom of the array. The marker of a free slot
  // is refused.
  method SplitPairs(pairs: array<nat>, window: array<Byte>) returns (r: Result<nat>)
    requires forall i :: 0 <= i < pairs.Length ==> Row(pairs[i]) < window.Length || pairs[i] == EMPTY_MARKER
    requires forall r :: 0 <= r < window.Length ==> window[r] == 0
    modifies pairs, window
    ensures r.Success? <==> EMPTY_MARKER !in old(pairs[..])
    ensures r.Success? ==> r.value <= pairs.Length && pairs[..r.value] == TruePairs(old(pairs[..]))
    ensures r.Success? ==> WindowOf(window[..], old(pairs[..]))
  {
    hide TruePairs, Bit, Or, Shl, ToByte, Row, Col;
    ghost var s := pairs[..];
    var nextTruePair := 0;
    StartSplit(window[..], s);
    for i := 0 to pairs.Length
      invariant nextTruePair <= i && pairs[..nextTruePair] == TruePairs(s[..i]) && pairs[i..] == s[i..]
      invariant WindowOf(window[..], s[..i]) && EMPTY_MARKER !in s[..i]
    {
      assert pairs[i] == pairs[i..][0] == s[i];
      var rowCol := pairs[i];
      if rowCol == EMPTY_MARKER {
        return Failure("empty marker is not expected");
      }
      ghost var was := window[..];
      assert s[..i + 1] == s[..i] + [rowCol];
      SplitStep(s, i);
      if Col(rowCol) < 8 {
        BitOf(Col(rowCol));
        SetBit(was, s[..i], rowCol);
        window[Row(rowCol)] := ToByte(Or(window[Row(rowCol)], Shl(1, Col(rowCol))));
      } else {
        NoBit(was, s[..i], rowCol);
        ghost var bottom := pairs[..nextTruePair];
        pairs[nextTruePair] := rowCol;
        assert pairs[..nextTruePair + 1] == bottom + [rowCol];
        nextTruePair := nextTruePair + 1;
      }
      assert pairs[i + 1..] == s[i + 1..];
    }
    assert s[..pairs.Length] == s;
    return Success(nextTruePair);
  }

  lemma StartSplit(window: seq<Byte>, s: seq<nat>)
    requires forall r :: 0 <= r < |window| ==> window[r] == 0
    ensures WindowOf(window, s[..0]) && TruePairs(s[..0]) == []
  {
    AllZero();
  }

  lemma SplitStep(s: seq<nat>, i: nat)
    requires i < |s|
    ensures TruePairs(s[..i + 1]) == TruePairs(s[..i]) + (if Col(s[i]) < 8 then [] else [s[i]])
  {
    hide Col;
    assert s[..i + 1][..i] == s[..i];
  }

  lemma SetBit(window: seq<Byte>, s: seq<nat>, rc: nat)
    requires WindowOf(window, s) && Row(rc) < |window| && Col(rc) < 8
    ensures WindowOf(window[Row(rc) := ToByte(Or(window[Row(rc)], Shl(1, Col(rc))))], s + [rc])
  {
    hide Bit, Or, Shl, ToByte;
    BitOf(Col(rc));
  }

  lemma NoBit(window: seq<Byte>, s: seq<nat>, rc: nat)
    requires WindowOf(window, s) && 8 <= Col(rc)
    ensures WindowOf(window, s + [rc])
  {
  }

  // Marks a free slot of the table of pairs, so it is never a pair.
  const EMPTY_MARKER := 0xFFFF_FFFF

  // The pairs of a table beside a window are outside the window's columns.
  predicate BesideWindow(table: seq<nat>, k: nat) {
    forall i :: 0 <= i < |table| ==> 8 <= Col(table[i]) && Row(table[i]) < k && table[i] != EMPTY_MARKER
  }

  // The list merged from a sorted table is sorted, names only rows of the window,
  // and splits into the same table and the same window bits.
  lemma MergedSplits(window: seq<Byte>, table: seq<nat>)
    requires Increasing(table) && BesideWindow(table, |window|)
    ensures var all := Merge(table, WindowPairs(window, 0));
      && Increasing(all) && (forall i :: 0 <= i < |all| ==> Row(all[i]) < |window| && all[i] != EMPTY_MARKER)
      && TruePairs(all) == table && WindowOf(window, all)
  {
    hide Merge, WindowPairs, TruePairs, Bit, Row, Col;
    var pairs := WindowPairs(window, 0);
    var all := Merge(table, pairs);
    forall x
      ensures x in all <==> x in table || x in pairs
      ensures x in pairs <==> Row(x) < |window| && Col(x) < 8 && Bit(window[Row(x)], Col(x))
      ensures x in TruePairs(all) <==> x in all && 8 <= Col(x)
    {
      MergeMembers(table, pairs, x);
      WindowPairsMembers(window, 0, x);
      TruePairsMembers(all, x);
    }
    WindowPairsSorted(window, 0);
    MergeSorted(table, pairs);
    TruePairsSorted(all);
    SortedDetermined(TruePairs(all), table);
    MarkerColumn();
    forall i | 0 <= i < |all| ensures Row(all[i]) < |window| && all[i] != EMPTY_MARKER {
      assert all[i] in all;
    }
    WindowBits(window, table, all);
  }

  lemma MarkerColumn()
    ensures Col(EMPTY_MARKER) == 63
  {
  }

  lemma WindowBits(window: seq<Byte>, table: seq<nat>, all: seq<nat>)
    requires forall i :: 0 <= i < |table| ==> 8 <= Col(table[i])
    requires forall x :: x in all <==> x in table || (Row(x) < |window| && Col(x) < 8 && Bit(window[Row(x)], Col(x)))
    ensures WindowOf(window, all)
  {
    hide Bit;
    forall r: nat, c: nat | r < |window| ensures Bit(window[r], c) <==> c < 8 && 64 * r + c in all {
      ByteBits(window[r]);
      if c < 8 {
        var x := 64 * r + c;
        assert Row(x) == r && Col(x) == c;
      }
    }
  }

  // The list determines the window.
  lemma WindowDetermined(w1: seq<Byte>, w2: seq<Byte>, s: seq<nat>)
    requires |w1| == |w2| && WindowOf(w1, s) && WindowOf(w2, s)
    ensures w1 == w2
  {
    hide Bit;
    forall r | 0 <= r < |w1| ensures w1[r] == w2[r] {
      SameBits(w1[r], w2[r]);
    }
  }

  // The hybrid flavor end to end: sort the table, merge window and table into one
  // list, compress, uncompress and split. The window and the table come back.
  method HybridRoundTrip(window: seq<Byte>, table: seq<nat>, enc: seq<nat>)
    returns (window': array<Byte>, pairs: array<nat>, nextTruePair: nat)
    requires GoodCode(enc) && |enc| == 65 && 1 <= |window| <= Pow2(26)
    requires Distinct(table) && BesideWindow(table, |window|)
    ensures window'[..] == window && nextTruePair <= pairs.Length
    ensures Increasing(pairs[..nextTruePair]) && SameMembers(pairs[..nextTruePair], table)
  {
    hide *;
    var fromTable := new nat[|table|](i requires 0 <= i < |table| => table[i]);
    assert fromTable[..] == table;
    SortPairs(fromTable);
    SameBeside(fromTable[..], table, |window|);
    window', pairs, nextTruePair := HybridSorted(window, fromTable[..], enc);
  }

  lemma SameBeside(s: seq<nat>, t: seq<nat>, k: nat)
    requires SameMembers(s, t) && BesideWindow(t, k)
    ensures BesideWindow(s, k)
  {
    hide Row, Col;
    forall i | 0 <= i < |s| ensures s[i] in t {
      assert s[i] in s;
    }
  }

  method HybridSorted(window: seq<Byte>, table: seq<nat>, enc: seq<nat>)
    returns (window': array<Byte>, pairs: array<nat>, nextTruePair: nat)
    requires GoodCode(enc) && |enc| == 65 && 1 <= |window| <= Pow2(26)
    requires Increasing(table) && BesideWindow(table, |window|)
    ensures window'[..] == window
    ensures nextTruePair <= pairs.Length && pairs[..nextTruePair] == table
  {
    hide Merge, WindowPairs, TruePairs, Bit, Row, Col, GoodCode, Pow2, WindowOf;
    var numPairsFromWindow := CountPairs(window);
    var allPairs := GetPairsFromWindow(window, numPairsFromWindow, |table|);
    MergeInto(table, allPairs);
    MergedSplits(window, table);
    var all := allPairs[..];
    assert all == Merge(table, WindowPairs(window, 0));
    RowsFit(all, |window|);
    var B := 0;
    if all != [] {
      BaseBitsFit(|window|, |all|);
      B := GolombBaseBits(|window| + |all|, |all|);
    }
    pairs := RoundTripPairs(all, enc, B, |window|);
    window' := new Byte[|window|](i => 0);
    var r := SplitPairs(pairs, window');
    nextTruePair := r.value;
    WindowDetermined(window'[..], window, all);
  }

  lemma RowsFit(s: seq<nat>, k: nat)
    requires k <= Pow2(26) && forall i :: 0 <= i < |s| ==> Row(s[i]) < k
    ensures forall i :: 0 <= i < |s| ==> s[i] < 0x1_0000_0000
  {
    assert Pow2(8) == 256;
    assert Pow2(16) == 65536;
    assert Pow2(26) == 0x400_0000;
  }

  // The number of window bits, which a sketch knows as its coupon count less
  // its table size.
  method CountPairs(window: seq<Byte>) returns (n: nat)
    ensures n == |WindowPairs(window, 0)|
  {
    var pairs := WindowPairs(window, 0);
    n := |pairs|;
  }

  // The pinned flavor moves all columns down by the window's eight.
  lemma PinnedShift(rc: nat)
    requires 8 <= Col(rc)
    ensures Row(rc - 8) == Row(rc) && Col(rc - 8) == Col(rc) - 8 < 56 && rc - 8 + 8 == rc
  {
  }

  // Moves all columns down in place, unless one is inside the window.
  method ShiftColumns(pairs: array<nat>) returns (ok: bool)
    modifies pairs
    ensures ok <==> forall i :: 0 <= i < pairs.Length ==> 8 <= Col(old(pairs[i]))
    ensures ok ==> forall i :: 0 <= i < pairs.Length ==> pairs[i] == old(pairs[i]) - 8
  {
    for i := 0 to pairs.Length
      invariant forall j :: 0 <= j < i ==> 8 <= Col(old(pairs[j])) && pairs[j] == old(pairs[j]) - 8
      invariant forall j :: i <= j < pairs.Length ==> pairs[j] == old(pairs[j])
    {
      if Col(pairs[i]) < 8 {
        return false;
      }
      pairs[i] := pairs[i] - 8;
    }
    return true;
  }

  // Moves them back up, unless one would leave its row.
  method UnshiftColumns(pairs: array<nat>) returns (ok: bool)
    modifies pairs
    ensures ok <==> forall i :: 0 <= i < pairs.Length ==> Col(old(pairs[i])) < 56
    ensures ok ==> forall i :: 0 <= i < pairs.Length ==> pairs[i] == old(pairs[i]) + 8
  {
    for i := 0 to pairs.Length
      invariant forall j :: 0 <= j < i ==> Col(old(pairs[j])) < 56 && pairs[j] == old(pairs[j]) + 8
      invariant forall j :: i <= j < pairs.Length ==> pairs[j] == old(pairs[j])
    {
      if 56 <= Col(pairs[i]) {
        return false;
      }
      pairs[i] := pairs[i] + 8;
    }
    return true;
  }

  // The pinned flavor end to end: it fails exactly when a pair is inside the
  // window; otherwise the shifted pairs are sorted, compressed and uncompressed, and
  // shifted back they are the original pairs, in ascending order.
  method PinnedRoundTrip(pairs: seq<nat>, enc: seq<nat>, k: nat) returns (out: Result<array<nat>>)
    requires GoodCode(enc) && |enc| == 65 && 1 <= k <= Pow2(26)
    requires Distinct(pairs) && forall i :: 0 <= i < |pairs| ==> Row(pairs[i]) < k
    ensures out.Success? <==> forall i :: 0 <= i < |pairs| ==> 8 <= Col(pairs[i])
    ensures out.Success? ==> Increasing(out.value[..]) && SameMembers(out.value[..], pairs)
  {
    hide GoodCode, Pow2, Row, Col, GolombBaseBits, SameMembers, Increasing, Distinct;
    var shifted := new nat[|pairs|](i requires 0 <= i < |pairs| => pairs[i]);
    assert forall i :: 0 <= i < |pairs| ==> shifted[i] == pairs[i];
    var ok := ShiftColumns(shifted);
    if !ok {
      return Failure("(pairs[i] & 63) < 8");
    }
    ghost var moved := shifted[..];
    ShiftedPairs(pairs, moved, k);
    SortPairs(shifted);
    SameRows(shifted[..], moved, k);
    var back := PinnedSorted(shifted[..], enc, k);
    ShiftedBack(pairs, moved, shifted[..], back[..]);
    return Success(back);
  }

  lemma ShiftedPairs(pairs: seq<nat>, moved: seq<nat>, k: nat)
    requires Distinct(pairs) && |moved| == |pairs|
    requires forall i :: 0 <= i < |pairs| ==> Row(pairs[i]) < k && 8 <= Col(pairs[i]) && moved[i] == pairs[i] - 8
    ensures Distinct(moved) && forall i :: 0 <= i < |moved| ==> Row(moved[i]) < k && Col(moved[i]) < 56
  {
    hide Row, Col;
    forall i | 0 <= i < |moved| ensures Row(moved[i]) < k && Col(moved[i]) < 56 {
      PinnedShift(pairs[i]);
    }
  }

  lemma SameRows(s: seq<nat>, t: seq<nat>, k: nat)
    requires SameMembers(s, t) && forall i :: 0 <= i < |t| ==> Row(t[i]) < k && Col(t[i]) < 56
    ensures forall i :: 0 <= i < |s| ==> Row(s[i]) < k && Col(s[i]) < 56
  {
    hide Row, Col;
    forall i | 0 <= i < |s| ensures s[i] in t {
      assert s[i] in s;
    }
  }

  lemma ShiftedBack(pairs: seq<nat>, moved: seq<nat>, sorted: seq<nat>, back: seq<nat>)
    requires |moved| == |pairs| && (forall i :: 0 <= i < |pairs| ==> 8 <= pairs[i] && moved[i] == pairs[i] - 8)
    requires Increasing(sorted) && SameMembers(sorted, moved)
    requires |back| == |sorted| && forall i :: 0 <= i < |sorted| ==> back[i] == sorted[i] + 8
    ensures Increasing(back) && SameMembers(back, pairs)
  {
    forall i | 0 <= i < |back| ensures back[i] in pairs {
      assert sorted[i] in moved;
      var j :| 0 <= j < |moved| && moved[j] == sorted[i];
      assert back[i] == pairs[j];
    }
    forall j | 0 <= j < |pairs| ensures pairs[j] in back {
      assert moved[j] in sorted;
      var i :| 0 <= i < |sorted| && sorted[i] == moved[j];
      assert pairs[j] == back[i];
    }
  }

  method PinnedSorted(sorted: seq<nat>, enc: seq<nat>, k: nat) returns (back: array<nat>)
    requires GoodCode(enc) && |enc| == 65 && 1 <= k <= Pow2(26)
    requires Increasing(sorted) && forall i :: 0 <= i < |sorted| ==> Row(sorted[i]) < k && Col(sorted[i]) < 56
    ensures back.Length == |sorted| && forall i :: 0 <= i < |sorted| ==> back[i] == sorted[i] + 8
  {
    hide GoodCode, Pow2, Row, Col, GolombBaseBits, Increasing;
    RowsFit(sorted, k);
    var B := 0;
    if sorted != [] {
      BaseBitsFit(k, |sorted|);
      B := GolombBaseBits(k + |sorted|, |sorted|);
    }
    back := RoundTripPairs(sorted, enc, B, k);
    var _ := UnshiftColumns(back);
  }

  ghost predicate IsPermutation(p: seq<nat>) {
    && (forall i :: 0 <= i < |p| ==> p[i] < |p|)
    && (forall i, j :: 0 <= i < j < |p| ==> p[i] != p[j])
    && (forall v :: 0 <= v < |p| ==> v in p)
  }

  // The inverse of a permutation, with the source's self-check, which passes.
  method MakeInversePermutation(permu: seq<nat>) returns (inverse: array<nat>, ok: bool)
    requires IsPermutation(permu)
    ensures ok && inverse.Length == |permu|
    ensures forall i :: 0 <= i < |permu| ==> inverse[permu[i]] == i
    ensures forall v :: 0 <= v < |permu| ==> inverse[v] < |permu| && permu[inverse[v]] == v
  {
    inverse := new nat[|permu|];
    for i := 0 to |permu|
      invariant forall j :: 0 <= j < i ==> inverse[permu[j]] == j
    {
      inverse[permu[i]] := i;
    }
    forall v | 0 <= v < |permu| ensures inverse[v] < |permu| && permu[inverse[v]] == v {
      assert v in permu;
      var j :| 0 <= j < |permu| && permu[j] == v;
      assert inverse[permu[j]] == j;
    }
    ok := true;
    for v := 0 to |permu|
      invariant ok
    {
      if permu[inverse[v]] != v {
        ok := false;
      }
    }
  }

  // The sliding flavor: rotate the columns after the window to the front, then
  // permute them; and back.
  function Rotated(col: nat, offset: nat): nat
    requires col < 64 && offset <= 56
  {
    (col + 56 - offset) % 64
  }

  function Slide(rc: nat, offset: nat, permu: seq<nat>): nat
    requires offset <= 56 && |permu| == 56 && Rotated(Col(rc), offset) < 56
  {
    64 * Row(rc) + permu[Rotated(Col(rc), offset)]
  }

  function SlideBack(rc: nat, offset: nat, inverse: seq<nat>): nat
    requires offset <= 56 && |inverse| == 56 && Col(rc) < 56
  {
    64 * Row(rc) + (inverse[Col(rc)] + offset + 8) % 64
  }

  // The rotation keeps a column below 56 exactly when it is outside the window.
  lemma RotatedOutside(col: nat, offset: nat)
    requires col < 64 && offset <= 56
    ensures Rotated(col, offset) < 56 <==> !(offset <= col < offset + 8)
    ensures (Rotated(col, offset) + offset + 8) % 64 == col
  {
  }

  // Rotation and permutation are undone, pair by pair.
  lemma SlideRoundTrip(rc: nat, offset: nat, permu: seq<nat>, inverse: seq<nat>)
    requires offset <= 56 && |permu| == |inverse| == 56 && IsPermutation(permu)
    requires Inverse(permu, inverse)
    requires !(offset <= Col(rc) < offset + 8)
    ensures Rotated(Col(rc), offset) < 56
    ensures Col(Slide(rc, offset, permu)) < 56 && Row(Slide(rc, offset, permu)) == Row(rc)
    ensures SlideBack(Slide(rc, offset, permu), offset, inverse) == rc
  {
  }

  function SlideAll(pairs: seq<nat>, offset: nat, permu: seq<nat>): seq<nat>
    requires offset <= 56 && |permu| == 56
    requires forall i :: 0 <= i < |pairs| ==> Rotated(Col(pairs[i]), offset) < 56
  {
    seq(|pairs|, i requires 0 <= i < |pairs| => Slide(pairs[i], offset, permu))
  }

  // Transforms the columns in place, unless the offset is out of range or a
  // column lies inside the window.
  method SlideInPlace(pairs: array<nat>, offset: nat, permu: seq<nat>) returns (ok: bool)
    requires |permu| == 56
    modifies pairs
    ensures ok <==> offset <= 56 && forall i :: 0 <= i < pairs.Length ==> Rotated(Col(old(pairs[i])), offset) < 56
    ensures ok ==> pairs[..] == SlideAll(old(pairs[..]), offset, permu)
  {
    hide Rotated, Slide;
    if 56 < offset {
      return false;
    }
    for i := 0 to pairs.Length
      invariant forall j :: 0 <= j < i ==>
        Rotated(Col(old(pairs[j])), offset) < 56 && pairs[j] == Slide(old(pairs[j]), offset, permu)
      invariant forall j :: i <= j < pairs.Length ==> pairs[j] == old(pairs[j])
    {
      if 56 <= Rotated(Col(pairs[i]), offset) {
        return false;
      }
      pairs[i] := Slide(pairs[i], offset, permu);
    }
    return true;
  }

  // Undoes the column transformation in place.
  method SlideBackAll(pairs: array<nat>, offset: nat, inverse: array<nat>)
    requires offset <= 56 && inverse.Length == 56 && pairs != inverse
    requires forall i :: 0 <= i < pairs.Length ==> Col(pairs[i]) < 56
    modifies pairs
    ensures forall i :: 0 <= i < pairs.Length ==> pairs[i] == SlideBack(old(pairs[i]), offset, inverse[..])
  {
    hide SlideBack, Col;
    for i := 0 to pairs.Length
      invariant forall j :: 0 <= j < i ==> pairs[j] == SlideBack(old(pairs[j]), offset, inverse[..])
      invariant forall j :: i <= j < pairs.Length ==> pairs[j] == old(pairs[j])
    {
      pairs[i] := SlideBack(pairs[i], offset, inverse[..]);
    }
  }

  // Every column lies outside the window.
  predicate Slidable(pairs: seq<nat>, offset: nat) {
    offset <= 56 && forall i :: 0 <= i < |pairs| ==> Rotated(Col(pairs[i]), offset) < 56
  }

  // The sliding flavor end to end: it fails exactly when a column lies inside the
  // window; otherwise the transformed pairs, sorted, compressed, uncompressed and
  // transformed back, are the original pairs.
  method SlidingRoundTrip(pairs: seq<nat>, offset: nat, permu: seq<nat>, enc: seq<nat>, k: nat)
    returns (out: Result<array<nat>>)
    requires GoodCode(enc) && |enc| == 65 && 1 <= k <= Pow2(26)
    requires |permu| == 56 && IsPermutation(permu)
    requires Distinct(pairs) && forall i :: 0 <= i < |pairs| ==> Row(pairs[i]) < k
    ensures out.Success? <==> Slidable(pairs, offset)
    ensures out.Success? ==> SameMembers(out.value[..], pairs) && Distinct(out.value[..])
  {
    hide GoodCode, Pow2, Row, Slide, SlideBack, Rotated, GolombBaseBits, SameMembers, Distinct, Increasing;
    var slid := new nat[|pairs|](i requires 0 <= i < |pairs| => pairs[i]);
    assert slid[..] == pairs;
    var ok := SlideInPlace(slid, offset, permu);
    if !ok {
      return Failure("col out of range");
    }
    SlidDistinct(pairs, offset, permu);
    SortPairs(slid);
    var back := SlidSorted(pairs, offset, permu, slid[..], enc, k);
    return Success(back);
  }

  lemma SlidDistinct(pairs: seq<nat>, offset: nat, permu: seq<nat>)
    requires |permu| == 56 && IsPermutation(permu) && Slidable(pairs, offset) && Distinct(pairs)
    ensures Distinct(SlideAll(pairs, offset, permu))
  {
    hide Row, Slide, SlideBack, Rotated, IsPermutation;
    var inverse := InverseOf(permu);
    forall i, j | 0 <= i < j < |pairs| ensures Slide(pairs[i], offset, permu) != Slide(pairs[j], offset, permu) {
      RotatedOutside(Col(pairs[i]), offset);
      RotatedOutside(Col(pairs[j]), offset);
      SlideRoundTrip(pairs[i], offset, permu, inverse);
      SlideRoundTrip(pairs[j], offset, permu, inverse);
    }
  }

  lemma InverseOf(permu: seq<nat>) returns (inverse: seq<nat>)
    requires IsPermutation(permu)
    ensures Inverse(permu, inverse)
  {
    inverse := seq(|permu|, v requires 0 <= v < |permu| => IndexOf(permu, v));
  }

  ghost function IndexOf(permu: seq<nat>, v: nat): (i: nat)
    requires v in permu
    ensures i < |permu| && permu[i] == v
  {
    var i :| 0 <= i < |permu| && permu[i] == v;
    i
  }

  method SlidSorted(pairs: seq<nat>, offset: nat, permu: seq<nat>, sorted: seq<nat>, enc: seq<nat>, k: nat)
    returns (out: array<nat>)
    requires GoodCode(enc) && |enc| == 65 && 1 <= k <= Pow2(26)
    requires |permu| == 56 && IsPermutation(permu) && Slidable(pairs, offset)
    requires forall i :: 0 <= i < |pairs| ==> Row(pairs[i]) < k
    requires Increasing(sorted) && SameMembers(sorted, SlideAll(pairs, offset, permu))
    ensures SameMembers(out[..], pairs) && Distinct(out[..])
  {
    hide GoodCode, Pow2, Row, Col, Slide, SlideBack, Rotated, GolombBaseBits;
    var inverse, _ := MakeInversePermutation(permu);
    ghost var inv := inverse[..];
    forall i | 0 <= i < |sorted| ensures Row(sorted[i]) < k && Col(sorted[i]) < 56 {
      var _ := Preimage(pairs, offset, permu, inv, sorted, i);
    }
    RowsFit(sorted, k);
    var B := 0;
    if sorted != [] {
      BaseBitsFit(k, |sorted|);
      B := GolombBaseBits(k + |sorted|, |sorted|);
    }
    out := RoundTripPairs(sorted, enc, B, k);
    SlideBackAll(out, offset, inverse);
    SlidBack(pairs, offset, permu, inv, sorted, out[..]);
  }

  ghost predicate Inverse(permu: seq<nat>, inverse: seq<nat>) {
    |permu| == |inverse| && forall i :: 0 <= i < |permu| ==> permu[i] < |permu| && inverse[permu[i]] == i
  }

  // The original pair behind a transformed one.
  lemma Preimage(pairs: seq<nat>, offset: nat, permu: seq<nat>, inverse: seq<nat>, sorted: seq<nat>, i: nat)
    returns (j: nat)
    requires offset <= 56 && |permu| == 56 && IsPermutation(permu) && Inverse(permu, inverse)
    requires forall j :: 0 <= j < |pairs| ==> Rotated(Col(pairs[j]), offset) < 56
    requires SameMembers(sorted, SlideAll(pairs, offset, permu)) && i < |sorted|
    ensures j < |pairs| && sorted[i] == Slide(pairs[j], offset, permu)
    ensures Row(sorted[i]) == Row(pairs[j]) && Col(sorted[i]) < 56
    ensures SlideBack(sorted[i], offset, inverse) == pairs[j]
  {
    hide Row, Slide, SlideBack, Rotated;
    var all := SlideAll(pairs, offset, permu);
    assert sorted[i] in all;
    j :| 0 <= j < |all| && all[j] == sorted[i];
    RotatedOutside(Col(pairs[j]), offset);
    SlideRoundTrip(pairs[j], offset, permu, inverse);
  }

  lemma SlidBack(pairs: seq<nat>, offset: nat, permu: seq<nat>, inverse: seq<nat>, sorted: seq<nat>, back: seq<nat>)
    requires offset <= 56 && |permu| == 56 && IsPermutation(permu) && Inverse(permu, inverse)
    requires forall j :: 0 <= j < |pairs| ==> Rotated(Col(pairs[j]), offset) < 56
    requires Increasing(sorted) && SameMembers(sorted, SlideAll(pairs, offset, permu))
    requires |back| == |sorted| && forall i :: 0 <= i < |sorted| ==>
      Col(sorted[i]) < 56 && back[i] == SlideBack(sorted[i], offset, inverse)
    ensures SameMembers(back, pairs) && Distinct(back)
  {
    hide Row, Slide, SlideBack, Rotated, IsPermutation;
    forall i | 0 <= i < |back| ensures back[i] in pairs {
      var j := Preimage(pairs, offset, permu, inverse, sorted, i);
    }
    forall j | 0 <= j < |pairs| ensures pairs[j] in back {
      RotatedOutside(Col(pairs[j]), offset);
      SlideRoundTrip(pairs[j], offset, permu, inverse);
      assert SlideAll(pairs, offset, permu)[j] in sorted;
      var i :| 0 <= i < |sorted| && sorted[i] == Slide(pairs[j], offset, permu);
      assert back[i] == pairs[j];
    }
    forall i, j | 0 <= i < j < |back| ensures back[i] != back[j] {
      var u := Preimage(pairs, offset, permu, inverse, sorted, i);
      var v := Preimage(pairs, offset, permu, inverse, sorted, j);
      IncreasingFrom(sorted, i, j);
    }
  }
}
