// Sorting the pairs of a table in place: insertion sort that turns to a shell
// sort when it has moved elements too far.
module PairSorts {
  import opened CpcPairCodec

  ghost predicate Permuted(s: seq<nat>, t: seq<nat>) {
    multiset(s) == multiset(t)
  }

  ghost predicate Ascending(s: seq<nat>, n: nat)
    requires n <= |s|
  {
    forall i, j :: 0 <= i < j < n ==> s[i] <= s[j]
  }

  ghost predicate SameMembers(s: seq<nat>, t: seq<nat>) {
    forall x :: x in s <==> x in t
  }

  ghost predicate Distinct(s: seq<nat>) {
    forall i, j :: 0 <= i < j < |s| ==> s[i] != s[j]
  }

  // Moving an element up and the one in hand down permutes the list.
  lemma MovedUp(s: seq<nat>, t: seq<nat>, u: seq<nat>, j: nat, k: nat, v: nat)
    requires k < j < |t| && u == t[j := t[k]] && Permuted(t[j := v], s)
    ensures Permuted(u[k := v], s)
  {
    var w := t[j := v];
    assert u[k := v] == w[j := w[k]][k := w[j]];
  }

  // All but position j ascend, and those after it exceed the element in hand.
  ghost predicate Sinking(s: seq<nat>, i: nat, j: nat, v: nat)
    requires j <= i < |s|
  {
    && (forall x, y :: 0 <= x < y <= i && x != j && y != j ==> s[x] <= s[y])
    && (forall y :: j < y <= i ==> v < s[y])
  }

  lemma SinkStart(s: seq<nat>, i: nat)
    requires i < |s| && Ascending(s, i)
    ensures Sinking(s, i, i, s[i])
  {
  }

  lemma SinkStep(s: seq<nat>, i: nat, j: nat, v: nat)
    requires 1 <= j <= i < |s| && Sinking(s, i, j, v) && v < s[j - 1]
    ensures Sinking(s[j := s[j - 1]], i, j - 1, v)
  {
  }

  lemma SinkDone(s: seq<nat>, i: nat, j: nat, v: nat)
    requires j <= i < |s| && Sinking(s, i, j, v) && (j == 0 || s[j - 1] <= v)
    ensures Ascending(s[j := v], i + 1)
  {
  }

  // Sinks element i in steps of h. With steps of one it joins the ascending
  // elements before it.
  method Sink(a: array<nat>, h: nat, i: nat) returns (j: nat)
    requires 1 <= h && i < a.Length
    modifies a
    ensures j <= i && Permuted(a[..], old(a[..]))
    ensures h == 1 && Ascending(old(a[..]), i) ==> Ascending(a[..], i + 1)
  {
    var v := a[i];
    j := i;
    ghost var s := a[..];
    ghost var ascending := h == 1 && Ascending(s, i);
    assert s[i := v] == s;
    if ascending {
      SinkStart(s, i);
    }
    assert Permuted(s, s);
    hide Permuted, Ascending, Sinking;
    while h <= j && v < a[j - h]
      invariant j <= i && Permuted(a[..][j := v], s)
      invariant ascending ==> Sinking(a[..], i, j, v)
      decreases j
    {
      ghost var t := a[..];
      if ascending {
        SinkStep(t, i, j, v);
      }
      a[j] := a[j - h];
      j := j - h;
      MovedUp(s, t, a[..], j + h, j, v);
    }
    ghost var t := a[..];
    if ascending {
      SinkDone(t, i, j, v);
    }
    a[j] := v;
    assert a[..] == t[j := v];
  }

  // Sinks every element in turn.
  method GapPass(a: array<nat>, h: nat)
    requires 1 <= h
    modifies a
    ensures Permuted(a[..], old(a[..]))
    ensures h == 1 ==> Ascending(a[..], a.Length)
  {
    var i := h;
    while i < a.Length
      invariant Permuted(a[..], old(a[..]))
      invariant h == 1 ==> 1 <= i && Ascending(a[..], if i < a.Length then i else a.Length)
    {
      hide Permuted, Ascending;
      var _ := Sink(a, h, i);
      i := i + 1;
    }
  }

  // The gaps 1, 4, 13, ..., each three times the one before and one more.
  predicate IsGap(h: nat) {
    h == 1 || (h > 1 && h % 3 == 1 && IsGap(h / 3))
  }

  // Whatever the passes before it do, the last one has gap one.
  method KnuthShellSort(a: array<nat>)
    modifies a
    ensures Permuted(a[..], old(a[..])) && Ascending(a[..], a.Length)
  {
    var h: nat := 1;
    while h < a.Length / 9
      invariant IsGap(h)
      decreases a.Length - h
    {
      h := 3 * h + 1;
    }
    while h > 0
      invariant h == 0 || IsGap(h)
      invariant Permuted(a[..], old(a[..]))
      invariant h == 0 ==> Ascending(a[..], a.Length)
    {
      hide Permuted, Ascending;
      GapPass(a, h);
      h := h / 3;
    }
  }

  // Insertion sort, up to a cost of eight moves an element.
  method IntrospectiveInsertionSort(a: array<nat>)
    modifies a
    ensures Permuted(a[..], old(a[..])) && Ascending(a[..], a.Length)
  {
    var costLimit := 8 * a.Length;
    var cost := 0;
    var i := 1;
    while i < a.Length
      invariant 1 <= i && Permuted(a[..], old(a[..]))
      invariant Ascending(a[..], if i < a.Length then i else a.Length)
    {
      hide Permuted, Ascending;
      var j := Sink(a, 1, i);
      cost := cost + (i - j);
      if costLimit < cost {
        KnuthShellSort(a);
        return;
      }
      i := i + 1;
    }
  }

  lemma {:induction false} DistinctOnce(s: seq<nat>, x: nat)
    requires Distinct(s)
    ensures multiset(s)[x] <= 1
  {
    if s != [] {
      var n := |s| - 1;
      DistinctOnce(s[..n], x);
      assert s == s[..n] + [s[n]];
      assert s[n] !in s[..n];
    }
  }

  lemma TwiceCounts(s: seq<nat>, i: nat)
    requires 0 < i < |s| && s[i - 1] == s[i]
    ensures 2 <= multiset(s)[s[i]]
  {
    assert s == s[..i] + s[i..];
    assert s[i] in s[i..] && s[..i][i - 1] in s[..i];
  }

  // Sorting different elements gives the same elements, strictly increasing.
  lemma SortedDistinct(s: seq<nat>, t: seq<nat>)
    requires Permuted(s, t) && Ascending(s, |s|) && Distinct(t)
    ensures Increasing(s) && SameMembers(s, t) && |s| == |t|
  {
    assert |multiset(s)| == |multiset(t)|;
    forall x ensures x in s <==> x in t {
      assert x in multiset(s) <==> x in multiset(t);
    }
    forall i | 0 < i < |s| ensures s[i - 1] < s[i] {
      if s[i - 1] == s[i] {
        TwiceCounts(s, i);
        DistinctOnce(t, s[i]);
        assert false;
      }
    }
  }

  // Sorts different elements.
  method SortPairs(a: array<nat>)
    requires Distinct(a[..])
    modifies a
    ensures Increasing(a[..]) && SameMembers(a[..], old(a[..]))
  {
    IntrospectiveInsertionSort(a);
    SortedDistinct(a[..], old(a[..]));
  }
}
