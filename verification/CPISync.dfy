// Characteristic-polynomial interpolation: incrementally kept evaluations, the
// redundancy check, and where evaluations can vanish.
module CPISyncs {
  import opened Modular
  import opened PrimeField
  import opened Polynomials
  import opened Interpolation
  import opened Lists
  import opened Wrappers

  // A set element: its identity and its number.
  datatype Datum = Datum(id: nat, number: nat)

  // Sample number i lies just outside the range of data.
  function Sample(p: nat, dataMax: nat, i: nat): nat
    requires 0 < p
  {
    (dataMax + i + 1) % p
  }

  class CPISync {
    const p: nat
    const dataMax: nat
    const hashQ: bool
    const sampleLoc: seq<nat>
    const evals: array<nat>
    var elements: seq<Datum>
    var hashed: map<nat, Datum>

    ghost predicate Shaped() {
      && IsPrime(p) && 1 <= dataMax && dataMax + |sampleLoc| <= p
      && evals.Length == |sampleLoc|
      && forall i :: 0 <= i < |sampleLoc| ==> sampleLoc[i] == Sample(p, dataMax, i)
    }

    // Every hash is in range and its element is in the list of elements.
    ghost predicate Kept()
      reads this
    {
      Shaped() && forall h :: h in hashed ==> h < dataMax && hashed[h] in elements
    }

    // Every evaluation is the characteristic polynomial of the stored hashes.
    ghost predicate Accurate()
      requires Shaped()
      reads this, evals
    {
      forall i :: 0 <= i < |sampleLoc| ==> evals[i] == Chi(hashed.Keys, sampleLoc[i]) % p
    }

    ghost predicate Valid()
      reads this, evals
    {
      Kept() && Accurate()
    }

    // The field is large enough to keep the last sample away from zero.
    ghost predicate Roomy()
      requires Shaped()
    {
      dataMax + |sampleLoc| < p
    }

    constructor (p: nat, dataMax: nat, hashQ: bool, num: nat)
      requires IsPrime(p) && 1 <= dataMax && dataMax + num <= p
      ensures Valid() && hashed == map[] && elements == [] && fresh(evals)
      ensures this.p == p && this.dataMax == dataMax && this.hashQ == hashQ && |sampleLoc| == num
    {
      this.p, this.dataMax, this.hashQ := p, dataMax, hashQ;
      sampleLoc := seq(num, i requires 0 <= i => Sample(p, dataMax, i));
      evals := new nat[num](i => 1);
      elements, hashed := [], map[];
      new;
      var none: map<nat, Datum> := map[];
      assert none.Keys == {} && 1 % p == 1;
    }

    // The slot tried for a number in attempt number count.
    function Probe(number: nat, count: nat): (h: nat)
      requires 1 <= dataMax && 0 < p
      ensures h < dataMax
    {
      ((number % dataMax + (101 * count) % dataMax) % p) % dataMax
    }

    // The first attempt is the number's own residue, and attempt count is 101 * count
    // places further on, unless the sum of the residues wraps around the field.
    lemma ProbeIs(number: nat, count: nat)
      requires 1 <= dataMax <= p
      ensures Probe(number, 0) == number % dataMax
      ensures number % dataMax + (101 * count) % dataMax < p ==>
        Probe(number, count) == (number + 101 * count) % dataMax
    {
      var (a, b) := (number % dataMax, (101 * count) % dataMax);
      ModTwice(number, dataMax);
      ModSmall(a, p);
      assert 0 % dataMax == 0;
      if a + b < p {
        ModSmall(a + b, p);
        ModAdd(number, 101 * count, dataMax);
      }
    }

    lemma OwnResidue(number: nat, taken: set<nat>, h: nat)
      requires 1 <= dataMax <= p && FirstFree(number, taken, h) && number % dataMax !in taken
      ensures h == number % dataMax
    {
      ProbeIs(number, 0);
      hide Probe;
      var c: nat :| Probe(number, c) == h && h !in taken && forall k: nat :: k < c ==> Probe(number, k) in taken;
      assert c == 0;
    }

    // The slot of the first attempt that finds one free.
    ghost predicate FirstFree(number: nat, taken: set<nat>, h: nat)
      requires 1 <= dataMax && 0 < p
    {
      exists c: nat :: Probe(number, c) == h && h !in taken && forall k: nat :: k < c ==> Probe(number, k) in taken
    }

    // The datum was stored in its slot h, and nothing else changed.
    ghost predicate StoredAt(datum: Datum, h: nat, was: map<nat, Datum>, now: map<nat, Datum>)
      requires 1 <= dataMax && 0 < p
    {
      now == was[h := datum] && if hashQ then FirstFree(datum.number, was.Keys, h) else h == datum.number
    }

    // An element can be added when there is room and, without hashing, its number
    // is in range and not taken.
    predicate Addable(number: nat)
      reads this
    {
      |hashed| < dataMax && (hashQ || (number < dataMax && number !in hashed))
    }

    // Finds the slot of a new element: the reduced number itself without hashing,
    // a free slot by double hashing otherwise. The ghost argument is an attempt
    // that would find a free slot.
    method FindSlot(number: nat, ghost free: nat) returns (slot: Option<nat>)
      requires Valid() && (hashQ && |hashed| < dataMax ==> Probe(number, free) !in hashed)
      ensures !hashQ ==> slot == if number < dataMax && number !in hashed then Some(number) else None
      ensures hashQ ==> slot.Some?
      ensures hashQ && |hashed| < dataMax ==> FirstFree(number, hashed.Keys, slot.value)
    {
      hide *;
      ValidParts();
      if hashQ {
        var h := FindFree(number, free);
        return Some(h);
      }
      if dataMax <= number {
        return None;
      }
      ModSmall(number, dataMax);
      if number % dataMax in hashed {
        return None;
      }
      return Some(number % dataMax);
    }

    lemma ValidParts()
      requires Valid()
      ensures 1 <= dataMax && 0 < p && forall h :: h in hashed ==> h < dataMax
    {
    }

    // Double hashing: tries slots until one is free or the map is full.
    method FindFree(number: nat, ghost free: nat) returns (h: nat)
      requires 1 <= dataMax && 0 < p && (|hashed| < dataMax ==> Probe(number, free) !in hashed)
      ensures |hashed| < dataMax ==> FirstFree(number, hashed.Keys, h)
    {
      var count := 0;
      h := Probe(number, count);
      hide Probe;
      while h in hashed && |hashed| < dataMax
        invariant h == Probe(number, count) && forall k: nat :: k < count ==> Probe(number, k) in hashed
        decreases free - count
      {
        count := count + 1;
        h := Probe(number, count);
      }
    }

    // The element joins the list before it can be refused; without hashing the
    // program ends on a number out of range.
    method AddElem(datum: Datum, ghost free: nat) returns (r: Result<bool>)
      requires Valid() && (hashQ && |hashed| < dataMax ==> Probe(datum.number, free) !in hashed)
      modifies this, evals
      ensures Valid() && elements == old(elements) + [datum]
      ensures r.Failure? <==> !hashQ && dataMax <= datum.number
      ensures r == Success(true) <==> old(Addable(datum.number))
      ensures r != Success(true) ==> hashed == old(hashed) && evals[..] == old(evals[..])
      ensures r == Success(true) ==> exists h: nat :: StoredAt(datum, h, old(hashed), hashed)
      ensures r == Success(true) && datum.number % dataMax !in old(hashed) ==>
        hashed == old(hashed)[datum.number % dataMax := datum]
    {
      elements := elements + [datum];
      if !hashQ && dataMax <= datum.number {
        return Failure("Cannot add an element outside the range.");
      }
      var slot := FindSlot(datum.number, free);
      if slot.None? || dataMax <= |hashed| {
        return Success(false);
      }
      var h := slot.value;
      ghost var before := hashed.Keys;
      if hashQ {
        FirstFreeSlot(datum.number, before, h);
        if datum.number % dataMax !in before {
          OwnResidue(datum.number, before, h);
        }
      } else {
        ModSmall(datum.number, dataMax);
      }
      hashed := hashed[h := datum];
      assert hashed.Keys - {h} == before;
      MultiplyAll(h, before);
      assert StoredAt(datum, h, old(hashed), hashed);
      return Success(true);
    }

    lemma FirstFreeSlot(number: nat, taken: set<nat>, h: nat)
      requires 1 <= dataMax && 0 < p && FirstFree(number, taken, h)
      ensures h < dataMax && h !in taken
    {
    }

    // Multiplies every evaluation by the new element's factor.
    method MultiplyAll(h: nat, ghost before: set<nat>)
      requires Shaped() && h in hashed && hashed.Keys - {h} == before
      requires forall i :: 0 <= i < |sampleLoc| ==> evals[i] == Chi(before, sampleLoc[i]) % p
      modifies evals
      ensures forall i :: 0 <= i < |sampleLoc| ==> evals[i] == Chi(hashed.Keys, sampleLoc[i]) % p
    {
      hide Chi, Sample, IsPrime;
      for ii := 0 to |sampleLoc|
        invariant forall i :: 0 <= i < ii ==> evals[i] == Chi(hashed.Keys, sampleLoc[i]) % p
        invariant forall i :: ii <= i < |sampleLoc| ==> evals[i] == Chi(before, sampleLoc[i]) % p
      {
        ChiTake(hashed.Keys, h, sampleLoc[ii]);
        ModMul(Chi(before, sampleLoc[ii]), sampleLoc[ii] - h, p);
        Commute(Chi(before, sampleLoc[ii]), sampleLoc[ii] - h);
        evals[ii] := (evals[ii] * (sampleLoc[ii] - h)) % p;
      }
    }

    // No evaluation would be divided by zero.
    ghost predicate Divisible(h: nat)
      requires Shaped()
    {
      forall i :: 0 <= i < |sampleLoc| ==> !Zero(p, sampleLoc[i] - h)
    }

    lemma RoomyDivides(h: nat)
      requires Shaped() && h < dataMax && (Roomy() || h != 0)
      ensures Divisible(h)
    {
      hide Sample, Zero;
      forall i | 0 <= i < |sampleLoc| ensures !Zero(p, sampleLoc[i] - h) {
        OtherFactor(p, dataMax, i, h);
      }
    }

    // At every sample the one factor divided out stands for those of all slots.
    ghost predicate FactorsMatch(rest: set<nat>, slots: set<nat>, h: nat)
      requires Shaped()
    {
      forall i :: 0 <= i < |sampleLoc| ==>
        Zero(p, Chi(rest, sampleLoc[i])) || Equal(p, Chi(slots, sampleLoc[i]), sampleLoc[i] - h)
    }

    // Removes a datum from the list and from all slots that hold it, and divides the
    // evaluations by the factor of the last of these slots, or of 0 if there is none.
    method DelElem(datum: Datum) returns (r: Result<bool>)
      requires Valid()
      modifies this, evals
      ensures Kept()
      ensures datum !in old(elements) ==>
        r == Success(false) && elements == old(elements) && hashed == old(hashed) && evals[..] == old(evals[..])
      ensures datum in old(elements) ==>
        && elements == Without(old(elements), datum) && hashed == old(hashed) - Slots(old(hashed), datum)
        && (r == Success(true) <==> Divisible(Last(Slots(old(hashed), datum))))
        && (r.Success? ==> r.value)
      ensures r == Success(true) ==>
        (Accurate() <==> FactorsMatch(hashed.Keys, Slots(old(hashed), datum), Last(Slots(old(hashed), datum))))
      ensures var copies := |Slots(old(hashed), datum)|;
        r == Success(true) && 2 <= |sampleLoc| && (copies <= 2 || copies < |sampleLoc|) ==>
          (Valid() <==> copies == 1)
    {
      if datum !in elements {
        return Success(false);
      }
      elements := RemoveAll(elements, datum);
      ghost var slots, before := Slots(hashed, datum), hashed.Keys;
      var h := EraseSlots(datum);
      var ok := DivideAll(h);
      if !ok {
        return Failure("Division by zero.");
      }
      DividedAccurate(before, slots, h, old(evals[..]));
      if 2 <= |sampleLoc| && (|slots| <= 2 || |slots| < |sampleLoc|) {
        OneSlotExact(hashed.Keys, slots);
      }
      return Success(true);
    }

    // Erases every slot that holds the datum, in ascending order.
    method EraseSlots(datum: Datum) returns (h: nat)
      modifies this`hashed
      ensures hashed == old(hashed) - Slots(old(hashed), datum)
      ensures h == Last(Slots(old(hashed), datum))
    {
      h := 0;
      var todo := hashed.Keys;
      ghost var was, slots, done := hashed, Slots(hashed, datum), {};
      while todo != {}
        invariant todo <= was.Keys && done == slots - todo && hashed == was - done
        invariant forall j, k :: j in done && k in todo ==> j < k
        invariant h == Last(done)
        decreases todo
      {
        ghost var smallest := Smallest(todo);
        var key :| key in todo && forall k :: k in todo ==> key <= k;
        todo := todo - {key};
        if hashed[key] == datum {
          h, hashed, done := key, hashed - {key}, done + {key};
          LastIs(done, key);
        }
      }
      assert done == slots;
    }

    method DivideAll(h: nat) returns (ok: bool)
      requires Shaped()
      modifies evals
      ensures ok <==> Divisible(h)
      ensures ok ==> forall i :: 0 <= i < |sampleLoc| ==> evals[i] == Divide(p, old(evals[i]), sampleLoc[i] - h)
    {
      hide IsPrime, Sample, Zero, Divide;
      for ii := 0 to |sampleLoc|
        invariant forall i :: 0 <= i < ii ==> !Zero(p, sampleLoc[i] - h)
        invariant forall i :: 0 <= i < ii ==> evals[i] == Divide(p, old(evals[i]), sampleLoc[i] - h)
        invariant forall i :: ii <= i < |sampleLoc| ==> evals[i] == old(evals[i])
      {
        if Zero(p, sampleLoc[ii] - h) {
          return false;
        }
        evals[ii] := Divide(p, evals[ii], sampleLoc[ii] - h);
      }
      return true;
    }

    // The divided evaluations are those of the remaining slots exactly when the
    // factors match.
    lemma DividedAccurate(before: set<nat>, slots: set<nat>, h: nat, was: seq<nat>)
      requires Shaped() && Divisible(h) && slots <= before && hashed.Keys == before - slots && |was| == |sampleLoc|
      requires forall i :: 0 <= i < |sampleLoc| ==> was[i] == Chi(before, sampleLoc[i]) % p
      requires forall i :: 0 <= i < |sampleLoc| ==> evals[i] == Divide(p, was[i], sampleLoc[i] - h)
      ensures Accurate() <==> FactorsMatch(hashed.Keys, slots, h)
    {
      hide Chi, IsPrime, Sample, Zero, Equal, Divide;
      forall i | 0 <= i < |sampleLoc|
        ensures evals[i] == Chi(hashed.Keys, sampleLoc[i]) % p <==>
          Zero(p, Chi(hashed.Keys, sampleLoc[i])) || Equal(p, Chi(slots, sampleLoc[i]), sampleLoc[i] - h)
      {
        var x := sampleLoc[i];
        assert before == hashed.Keys + slots;
        ChiUnion(hashed.Keys, slots, x);
        DivideIs(p, Chi(before, x), x - h, Chi(hashed.Keys, x), Chi(slots, x));
      }
    }

    // With more samples than copies, one factor stands for all slots exactly when
    // there is one slot: none leaves the factor of 0 too many, and several leave the
    // factors of the others.
    lemma OneSlotExact(rest: set<nat>, slots: set<nat>)
      requires Shaped() && 2 <= |sampleLoc| && (|slots| <= 2 || |slots| < |sampleLoc|)
      requires rest !! slots && (forall h :: h in rest + slots ==> h < dataMax) && Divisible(Last(slots))
      ensures FactorsMatch(rest, slots, Last(slots)) <==> |slots| == 1
    {
      hide *;
      if |slots| == 0 {
        assert slots == {};
        assert forall h :: h in rest ==> h in rest + slots;
        LastNone();
        NoSlot(rest);
      } else if |slots| == 1 {
        OneSlot(rest, slots);
      } else {
        LastAmong(slots);
        OthersVanish(rest, slots, Last(slots));
      }
    }

    lemma OneSlot(rest: set<nat>, slots: set<nat>)
      requires Shaped() && |slots| == 1
      ensures FactorsMatch(rest, slots, Last(slots))
    {
      var h: nat := Last(slots);
      assert slots == {h} by { assert |slots - {h}| == 0; }
      hide IsPrime, Sample, Zero, Equal, Chi;
      forall i | 0 <= i < |sampleLoc|
        ensures Zero(p, Chi(rest, sampleLoc[i])) || Equal(p, Chi(slots, sampleLoc[i]), sampleLoc[i] - h)
      {
        SingleChi(p, h, sampleLoc[i]);
      }
    }

    lemma NoSlot(rest: set<nat>)
      requires Shaped() && 2 <= |sampleLoc| && forall h :: h in rest ==> h < dataMax
      ensures !FactorsMatch(rest, {}, 0)
    {
      hide Chi, IsPrime;
      NeverZero(p, dataMax, 0, rest);
      EmptyChi(sampleLoc[0]);
      ModSmall(dataMax, p);
      SampleOutside(p, dataMax, 0);
      Negative(p, dataMax);
    }

    // The factors of the other slots would be one at more samples than their degree.
    lemma OthersVanish(rest: set<nat>, slots: set<nat>, h: nat)
      requires Shaped() && 2 <= |slots| && (|slots| == 2 || |slots| < |sampleLoc|) && 2 <= |sampleLoc| && h in slots
      requires (forall k :: k in rest + slots ==> k < dataMax) && Divisible(h)
      ensures !FactorsMatch(rest, slots, h)
    {
      var others := slots - {h};
      hide IsPrime, Sample, Zero, Equal, Chi;
      if FactorsMatch(rest, slots, h) {
        forall i | 0 <= i < |sampleLoc| - 1 ensures Equal(p, Chi(others, Sample(p, dataMax, i)), 1) {
          assert forall k :: k in rest ==> k in rest + slots;
          NeverZero(p, dataMax, i, rest);
          ChiTake(slots, h, sampleLoc[i]);
          FactorOne(p, sampleLoc[i] - h, Chi(others, sampleLoc[i]));
        }
        assert forall k :: k in others ==> k in rest + slots;
        assert |others| == |slots| - 1;
        NotAlwaysOne(p, dataMax, others, |sampleLoc| - 1);
        assert false;
      }
    }

    // The product check over the redundant samples: own evaluations times the
    // factors of what the other has, against received evaluations times the
    // factors of what only this side has.
    method RedundancyCheck(recvMeta: seq<nat>, currDiff: nat, redundantK: nat,
                           deltaSelf: seq<nat>, deltaOther: seq<nat>)
      returns (ok: bool)
      requires Shaped() && currDiff + redundantK <= |sampleLoc| && currDiff + redundantK <= |recvMeta|
      ensures ok <==> forall j :: currDiff <= j < currDiff + redundantK ==>
        Passes(p, sampleLoc[j], evals[j], recvMeta[j], deltaSelf, deltaOther)
    {
      hide IsPrime, Sample, Passes;
      for j := currDiff to currDiff + redundantK
        invariant forall i :: currDiff <= i < j ==>
          Passes(p, sampleLoc[i], evals[i], recvMeta[i], deltaSelf, deltaOther)
      {
        var passes := CheckSample(p, sampleLoc[j], evals[j], recvMeta[j], deltaSelf, deltaOther);
        if !passes {
          return false;
        }
      }
      return true;
    }

    // The ratios handed to the interpolation, whose samples leave out at least one
    // redundant sample.
    method Ratios(otherEvals: seq<nat>, n: nat, ghost other: set<nat>) returns (fs: seq<nat>)
      requires Valid() && n < |sampleLoc| && n <= |otherEvals|
      requires forall i :: 0 <= i < n ==> otherEvals[i] == Chi(other, sampleLoc[i]) % p
      ensures |fs| == n && Sampled(p, hashed.Keys, other, Prefix(sampleLoc, n), Prefix(fs, n))
    {
      hide Chi, IsPrime, Sample, Divide;
      fs := [];
      forall i | 0 <= i < n ensures !Zero(p, Chi(hashed.Keys, sampleLoc[i])) && !Zero(p, evals[i]) {
        NeverZero(p, dataMax, i, hashed.Keys);
        ModTwice(Chi(hashed.Keys, sampleLoc[i]), p);
      }
      for ii := 0 to n
        invariant |fs| == ii
        invariant forall i :: 0 <= i < ii ==> Equal(p, fs[i] * Chi(hashed.Keys, sampleLoc[i]), Chi(other, sampleLoc[i]))
      {
        RatioMeans(p, otherEvals[ii], evals[ii], Chi(other, sampleLoc[ii]), Chi(hashed.Keys, sampleLoc[ii]));
        fs := fs + [Divide(p, otherEvals[ii], evals[ii])];
      }
      forall i, j | 0 <= i < j < n ensures !Equal(p, sampleLoc[j], sampleLoc[i]) {
        SamplesDistinct(p, dataMax, i, j);
      }
    }
  }

  // The slots that hold a datum.
  function Slots(m: map<nat, Datum>, datum: Datum): set<nat> {
    set h | h in m && m[h] == datum
  }

  // The largest of some numbers, or 0.
  ghost function Last(a: set<nat>): (m: nat)
    ensures a == {} ==> m == 0
    ensures a != {} ==> m in a && forall k :: k in a ==> k <= m
  {
    if a == {} then 0
    else
      var h :| h in a;
      var m := Last(a - {h});
      assert a == a - {h} + {h};
      if m < h then h else m
  }

  lemma {:induction false} Smallest(a: set<nat>) returns (m: nat)
    requires a != {}
    ensures m in a && forall k :: k in a ==> m <= k
    decreases a
  {
    var h :| h in a;
    assert a == a - {h} + {h};
    m := h;
    if a != {h} {
      var l := Smallest(a - {h});
      m := if l < h then l else h;
    }
  }

  lemma LastNone()
    ensures Last({}) == 0
  {
  }

  lemma LastAmong(a: set<nat>)
    requires a != {}
    ensures Last(a) in a
  {
  }

  lemma LastIs(a: set<nat>, m: nat)
    requires m in a && forall k :: k in a ==> k <= m
    ensures Last(a) == m
  {
  }

  function Without(list: seq<Datum>, datum: Datum): (rest: seq<Datum>)
    ensures forall d :: d in rest <==> d in list && d != datum
  {
    if list == [] then []
    else Without(list[..|list| - 1], datum) + (if list[|list| - 1] == datum then [] else [list[|list| - 1]])
  }

  // Removes all occurrences.
  method RemoveAll(list: seq<Datum>, datum: Datum) returns (rest: seq<Datum>)
    ensures rest == Without(list, datum)
  {
    rest := [];
    for i := 0 to |list|
      invariant rest == Without(list[..i], datum)
    {
      assert list[..i + 1][..i] == list[..i];
      if list[i] != datum {
        rest := rest + [list[i]];
      }
    }
    assert list[..|list|] == list;
  }

  function Prefix(s: seq<nat>, n: nat): (t: seq<int>)
    requires n <= |s|
    ensures |t| == n && forall i :: 0 <= i < n ==> t[i] == s[i]
  {
    seq(n, i requires 0 <= i < n => s[i] as int)
  }

  lemma RatioMeans(p: nat, a: int, b: int, whole: int, own: int)
    requires IsPrime(p) && !Zero(p, b) && a == whole % p && b == own % p
    ensures Equal(p, Divide(p, a, b) * own, whole)
  {
    var c := Divide(p, a, b);
    hide Divide, IsPrime;
    EqualRemainders(p, c * b, a);
    ModMul(c, own, p);
    ModTwice(whole, p);
    EqualRemainders(p, c * own, whole);
  }

  lemma SamplesDistinct(p: nat, dataMax: nat, i: nat, j: nat)
    requires i < j && dataMax + j + 1 < p
    ensures !Equal(p, Sample(p, dataMax, j), Sample(p, dataMax, i))
  {
    ModSmall(dataMax + j + 1, p);
    ModSmall(dataMax + i + 1, p);
    hide Zero;
    ReducedEqual(p, dataMax + j + 1, dataMax + i + 1);
  }

  // Both sides of the check agree at one sample.
  predicate Passes(p: nat, x: nat, own: nat, received: nat, deltaSelf: seq<nat>, deltaOther: seq<nat>)
    requires 0 < p
  {
    Equal(p, own * ListProduct(deltaOther, x), received * ListProduct(deltaSelf, x))
  }

  method CheckSample(p: nat, x: nat, own: nat, received: nat, deltaSelf: seq<nat>, deltaOther: seq<nat>)
    returns (ok: bool)
    requires 0 < p
    ensures ok <==> Passes(p, x, own, received, deltaSelf, deltaOther)
  {
    hide ListProduct, Zero;
    var valueSelf := MultiplyFactors(p, own, x, deltaOther);
    var valueOther := MultiplyFactors(p, received, x, deltaSelf);
    EqualRemainders(p, own * ListProduct(deltaOther, x), received * ListProduct(deltaSelf, x));
    ok := valueSelf == valueOther;
  }

  // Multiplies a value by x - r for every r of a list, reducing as it goes.
  method MultiplyFactors(p: nat, start: nat, x: nat, rs: seq<nat>) returns (v: nat)
    requires 0 < p
    ensures v == (start * ListProduct(rs, x)) % p
  {
    v := start % p;
    ModMul(start, ListProduct(rs, x), p);
    assert rs[0..] == rs;
    for k := 0 to |rs|
      invariant (v * ListProduct(rs[k..], x)) % p == (start * ListProduct(rs, x)) % p && v < p
    {
      assert rs[k..][1..] == rs[k + 1..];
      FactorStep(p, v, x - rs[k], ListProduct(rs[k + 1..], x));
      v := (v * (x - rs[k])) % p;
    }
    assert v * 1 == v;
    ModSmall(v, p);
  }

  lemma FactorStep(p: nat, v: nat, factor: int, rest: int)
    requires 0 < p
    ensures (((v * factor) % p) * rest) % p == (v * (factor * rest)) % p
  {
    ModMul(v * factor, rest, p);
    Regroup(v, factor, rest);
  }

  // The check always accepts the true differences: common elements contribute
  // the same factors to both sides.
  lemma TrueDifferencesPass(p: nat, self: set<nat>, other: set<nat>, x: nat, deltaSelf: seq<nat>, deltaOther: seq<nat>)
    requires 0 < p
    requires NoRepeats(deltaSelf) && ToSet(deltaSelf) == self - other
    requires NoRepeats(deltaOther) && ToSet(deltaOther) == other - self
    ensures Passes(p, x, Chi(self, x) % p, Chi(other, x) % p, deltaSelf, deltaOther)
  {
    ListProductChi(deltaSelf, self - other, x);
    ListProductChi(deltaOther, other - self, x);
    ChiUnion(self, other - self, x);
    ChiUnion(other, self - other, x);
    assert self + (other - self) == other + (self - other);
    ModMul(Chi(self, x), ListProduct(deltaOther, x), p);
    ModMul(Chi(other, x), ListProduct(deltaSelf, x), p);
    EqualRemainders(p, (Chi(self, x) % p) * ListProduct(deltaOther, x),
                    (Chi(other, x) % p) * ListProduct(deltaSelf, x));
  }

  // A list of the members of a set without repeats has the set's product.
  lemma {:induction false} ListProductChi(rs: seq<nat>, a: set<nat>, x: int)
    requires NoRepeats(rs) && a == ToSet(rs)
    ensures ListProduct(rs, x) == Chi(a, x)
  {
    if rs != [] {
      assert rs == [rs[0]] + rs[1..];
      assert rs[0] in a;
      ChiTake(a, rs[0], x);
      assert a - {rs[0]} == ToSet(rs[1..]);
      ListProductChi(rs[1..], a - {rs[0]}, x);
    }
  }

  // Over data below dataMax no evaluation vanishes at a sample below the field size.
  lemma NeverZero(p: nat, dataMax: nat, i: nat, a: set<nat>)
    requires IsPrime(p) && dataMax + i + 1 < p && forall h :: h in a ==> h < dataMax
    ensures !Zero(p, Chi(a, Sample(p, dataMax, i)))
  {
    hide Zero, Chi, Sample, IsPrime;
    assert 0 < p by { PrimePositive(p); }
    ChiZero(p, a, Sample(p, dataMax, i));
    forall h | h in a ensures !Equal(p, Sample(p, dataMax, i), h) {
      OutsideData(p, dataMax, i, h);
    }
  }

  // With num samples in a field of at least dataMax + num elements, evaluations
  // of all data sets are nonzero exactly when the inequality is strict: a field
  // of exactly that size puts the last sample at zero, where the element 0 is a root.
  lemma NonzeroIffRoomy(p: nat, dataMax: nat, num: nat)
    requires IsPrime(p) && 1 <= dataMax && 1 <= num && dataMax + num <= p
    ensures (forall a: set<nat>, i: nat :: i < num && (forall h :: h in a ==> h < dataMax) ==>
               !Zero(p, Chi(a, Sample(p, dataMax, i))))
       <==> dataMax + num < p
  {
    if dataMax + num < p {
      forall a: set<nat>, i: nat | i < num && forall h :: h in a ==> h < dataMax
        ensures !Zero(p, Chi(a, Sample(p, dataMax, i)))
      {
        NeverZero(p, dataMax, i, a);
      }
    } else {
      assert Sample(p, dataMax, num - 1) == 0;
      ChiRoots(p, {0}, 0);
      var zero: set<nat> := {0};
      assert Zero(p, Chi(zero, Sample(p, dataMax, num - 1)));
    }
  }

  // Below the field size a sample is not any stored hash.
  lemma OutsideData(p: nat, dataMax: nat, i: nat, h: nat)
    requires dataMax + i + 1 < p && h < dataMax
    ensures Sample(p, dataMax, i) == dataMax + i + 1 && !Zero(p, Sample(p, dataMax, i) - h)
  {
    SampleOutside(p, dataMax, i);
    hide *;
    ReducedEqual(p, dataMax + i + 1, h);
    EqualDifference(p, dataMax + i + 1, h);
  }

  lemma OtherFactor(p: nat, dataMax: nat, i: nat, h: nat)
    requires dataMax + i + 1 <= p && h < dataMax && (dataMax + i + 1 < p || h != 0)
    ensures !Zero(p, Sample(p, dataMax, i) - h)
  {
    if dataMax + i + 1 < p {
      OutsideData(p, dataMax, i, h);
    } else {
      assert Sample(p, dataMax, i) == 0 by {
        ModUnique(p, 1, 0, p);
      }
      hide Sample;
      ReducedEqual(p, 0, h);
      EqualDifference(p, 0, h);
    }
  }

  lemma SampleOutside(p: nat, dataMax: nat, i: nat)
    requires dataMax + i + 1 < p
    ensures Sample(p, dataMax, i) == dataMax + i + 1
  {
  }

  lemma EqualDifference(p: nat, a: int, b: int)
    requires 0 < p
    ensures Equal(p, a, b) <==> Zero(p, a - b)
  {
  }

  // Dividing a product r * s by d leaves r exactly when d was s, or r is zero.
  lemma DivideIs(p: nat, whole: int, d: int, r: int, s: int)
    requires IsPrime(p) && 0 < p && !Zero(p, d) && whole == r * s
    ensures Divide(p, whole % p, d) == r % p <==> Zero(p, r) || Equal(p, s, d)
  {
    var c: int := Divide(p, whole % p, d);
    hide Divide, IsPrime;
    ModTwice(whole, p);
    EqualRemainders(p, c * d, whole % p);
    EqualRemainders(p, c * d, r * s);
    ModSmall(c, p);
    EqualRemainders(p, c, r);
    hide *;
    DivisorsAgree(p, c, d, r, s);
  }

  lemma DivisorsAgree(p: nat, c: int, d: int, r: int, s: int)
    requires IsPrime(p) && 0 < p && !Zero(p, d) && Equal(p, c * d, r * s)
    ensures Equal(p, c, r) <==> Zero(p, r) || Equal(p, s, d)
  {
    var (cd, rd, rs) := (c * d, r * d, r * s);
    Distribute(c, r, d);
    Factor(r, s, d);
    hide Zero, IsPrime;
    NoZeroDivisors(p, c - r, d);
    NoZeroDivisors(p, r, s - d);
    assert (c - r) * d == cd - rd && r * (s - d) == rs - rd;
    ZeroSum(p, cd - rs, rs - rd);
  }

  lemma FactorOne(p: nat, d: int, o: int)
    requires IsPrime(p) && 0 < p && !Zero(p, d) && Equal(p, d * o, d)
    ensures Equal(p, o, 1)
  {
    hide Zero, IsPrime;
    CancelFactor(p, d, o, 1);
  }

  lemma EmptyChi(x: int)
    ensures Chi({}, x) == 1
  {
  }

  lemma SingleChi(p: nat, h: nat, x: int)
    requires 0 < p
    ensures Equal(p, Chi({h}, x), x - h)
  {
    var a: set<nat> := {h};
    ChiTake(a, h, x);
    assert a - {h} == {};
    EmptyChi(x);
    ZeroMultiple(p, 0);
  }

  // The product over some data is not one at as many samples outside the data.
  lemma NotAlwaysOne(p: nat, dataMax: nat, a: set<nat>, num: nat)
    requires IsPrime(p) && 0 < p && a != {} && 1 <= num && (|a| == 1 || |a| < num)
    requires dataMax + num < p && forall h :: h in a ==> h < dataMax
    ensures exists i: nat :: i < num && !Equal(p, Chi(a, Sample(p, dataMax, i)), 1)
  {
    if |a| == 1 {
      var h :| h in a;
      assert a == {h} by { assert |a - {h}| == 0; }
      ChiTake(a, h, Sample(p, dataMax, 0));
      EmptyChi(Sample(p, dataMax, 0));
      SampleOutside(p, dataMax, 0);
      ModSmall(dataMax - h, p);
      assert !Equal(p, Chi(a, Sample(p, dataMax, 0)), 1);
    } else if forall i: nat :: i < num ==> Equal(p, Chi(a, Sample(p, dataMax, i)), 1) {
      OneTooOften(p, dataMax, a, num);
      assert false;
    }
  }

  lemma OneTooOften(p: nat, dataMax: nat, a: set<nat>, num: nat)
    requires IsPrime(p) && 0 < p && 1 < |a| < num && dataMax + num < p
    ensures exists i: nat :: i < num && !Equal(p, Chi(a, Sample(p, dataMax, i)), 1)
  {
    hide *;
    var f := Sub(ChiPoly(a), [1]);
    MonicLess(a);
    var xs := seq(num, i requires 0 <= i < num => Sample(p, dataMax, i) as int);
    if forall i: nat :: i < num ==> Equal(p, Chi(a, Sample(p, dataMax, i)), 1) {
      forall i | 0 <= i < num ensures Zero(p, Eval(f, xs[i])) {
        SubEval(ChiPoly(a), [1], xs[i]);
        ChiPolyEval(a, xs[i]);
        ConstantOne(xs[i]);
        EqualDifference(p, Chi(a, xs[i]), 1);
      }
      forall i, j | 0 <= i < j < num ensures !Equal(p, xs[j], xs[i]) {
        SamplesDistinct(p, dataMax, i, j);
      }
      ManyRoots(p, f, xs);
      TopNotZero(p, f);
      assert false;
    }
  }

  lemma MonicLess(a: set<nat>)
    requires 1 < |a|
    ensures Monic(Sub(ChiPoly(a), [1])) && |Sub(ChiPoly(a), [1])| == |a| + 1
  {
    ChiPolyEval(a, 0);
    var f := ChiPoly(a);
    assert Scale(-1, [1]) == [-1];
    assert AddPoly(f[1..], []) == f[1..];
    assert Sub(f, [1]) == [f[0] - 1] + f[1..];
  }

  lemma TopNotZero(p: nat, f: Poly)
    requires IsPrime(p) && 0 < p && Monic(f)
    ensures !AllZero(p, f)
  {
    assert 1 % p == 1;
    assert !Zero(p, f[|f| - 1]);
  }

  lemma ModTwice(x: int, p: nat)
    requires 0 < p
    ensures (x % p) % p == x % p
  {
  }

  lemma ModSmall(x: nat, p: nat)
    requires x < p
    ensures x % p == x
  {
  }

  // Without hashing, a second element with the same number is refused, but it can
  // be deleted, which divides the factor of 0 out of every evaluation.
  method DeleteRefused(peer: CPISync, first: Datum, second: Datum)
    requires peer.Valid() && !peer.hashQ && peer.Roomy() && 2 <= |peer.sampleLoc|
    requires peer.Addable(first.number) && first.number == second.number
    requires second != first && second !in peer.elements
    modifies peer, peer.evals
    ensures peer.Kept() && !peer.Accurate() && peer.hashed == old(peer.hashed)[first.number := first]
  {
    hide IsPrime, Chi, Sample, Zero, Last, CPISync.Accurate, CPISync.Probe;
    var added := peer.AddElem(first, 0);
    assert peer.hashed == old(peer.hashed)[first.number := first];
    assert !peer.Addable(second.number);
    var again := peer.AddElem(second, 0);
    assert again.Success? && !again.value;
    NotStored(peer, second);
    LastNone();
    peer.RoomyDivides(0);
    var deleted := peer.DelElem(second);
    assert deleted == Success(true);
  }

  // Two peers store elements with equal numbers at the same hash, when that is free
  // at both: on this rests that equal elements cancel.
  method AddToBoth(a: CPISync, b: CPISync, x: Datum, y: Datum)
    requires a.Valid() && b.Valid() && a != b && a.evals != b.evals && a.dataMax == b.dataMax
    requires x.number == y.number && a.Addable(x.number) && b.Addable(y.number)
    requires x.number % a.dataMax !in a.hashed && y.number % b.dataMax !in b.hashed
    modifies a, b, a.evals, b.evals
    ensures a.Valid() && b.Valid()
    ensures var h := x.number % a.dataMax;
      a.hashed == old(a.hashed)[h := x] && b.hashed == old(b.hashed)[h := y]
  {
    a.ProbeIs(x.number, 0);
    b.ProbeIs(y.number, 0);
    hide CPISync.Valid, CPISync.Probe, CPISync.StoredAt;
    var first := a.AddElem(x, 0);
    var second := b.AddElem(y, 0);
  }

  lemma NotStored(peer: CPISync, datum: Datum)
    requires forall h :: h in peer.hashed ==> peer.hashed[h] != datum
    ensures Slots(peer.hashed, datum) == {}
  {
  }

  method RefusedThenDeleted() returns (peer: CPISync)
    ensures fresh(peer) && peer.Kept() && !peer.Accurate() && peer.hashed == map[3 := Datum(1, 3)]
  {
    SevenIsPrime();
    hide IsPrime, Chi, Sample, CPISync.Accurate;
    peer := new CPISync(7, 4, false, 2);
    DeleteRefused(peer, Datum(1, 3), Datum(2, 3));
  }

  lemma SevenIsPrime()
    ensures IsPrime(7)
  {
  }
}
