// The whole synchronization: the two peers' loops, with every test of the server
// doing what a reconciliation attempt is proved to do.
module CPIEndToEnd {
  import opened Modular
  import opened PrimeField
  import opened Interpolation
  import opened CPISyncs
  import opened CPIDoubling
  import opened SetReconciles
  import opened Fractions
  import opened NumberLibrary
  import opened Lists

  // The field, the data range, and the elements' numbers on both sides.
  datatype Peers = Peers(p: nat, dataMax: nat, server: set<nat>, client: set<nat>) {
    ghost predicate Valid() {
      && IsPrime(p) && 1 <= dataMax <= p
      && (forall h :: h in server ==> h < dataMax) && (forall h :: h in client ==> h < dataMax)
    }

    // The number of differences that have to be interpolated: none if all that the
    // server has is missing on the other side.
    function Needed(): nat {
      if client == {} then 0 else |server - client| + |client - server|
    }
  }

  // The client sends its size and its evaluations at samples outside the data.
  ghost predicate Describes(c: Config, peers: Peers)
    requires peers.Valid()
  {
    && c.Valid() && c.size == |peers.client| && peers.dataMax + |c.evals| <= peers.p
    && AreEvaluations(peers.p, peers.dataMax, peers.client, c.evals)
  }

  // A test on the client's evaluations has the result proved of the server's code.
  ghost predicate Tested(c: Config, peers: Peers, s: State, step: Step)
    requires peers.Valid()
  {
    step.ServerTests? && AreEvaluations(peers.p, peers.dataMax, peers.client, s.server.recvMeta) ==>
      TestResult(peers.p, peers.dataMax, c.redundantK, peers.server, peers.client, s.server.currDiff,
                 step.success, step.deltaSelf, step.deltaOther)
  }

  // The server's test as a step of the two loops.
  method TestStep(server: CPISync, lib: Library, c: Config, s: State, ghost peers: Peers) returns (step: Step)
    requires peers.Valid() && Describes(c, peers) && lib.Correct(peers.p)
    requires server.Valid() && server.p == peers.p && server.dataMax == peers.dataMax
    requires server.hashed.Keys == peers.server && |server.sampleLoc| == c.maxDiff + c.redundantK
    requires s.server.pc.Testing? && s.server.currDiff <= c.maxDiff
    requires |s.server.recvMeta| == s.server.currDiff + c.redundantK
    requires AreEvaluations(peers.p, peers.dataMax, peers.client, s.server.recvMeta)
    ensures step.ServerTests? && Enabled(c, s, step) && Tested(c, peers, s, step)
  {
    hide AreEvaluations, TestResult, IsPrime;
    var ok, deltaSelf, deltaOther :=
      ServerTest(server, lib, c.size, s.server.recvMeta, s.server.currDiff, c.redundantK, peers.client);
    return ServerTests(ok, deltaSelf, deltaOther);
  }

  ghost predicate Moves(c: Config, peers: Peers, s: State, s': State)
    requires peers.Valid()
  {
    exists step :: Enabled(c, s, step) && s' == Do(c, s, step) && Tested(c, peers, s, step)
  }

  // A run of the two programs.
  ghost predicate IsSync(c: Config, peers: Peers, run: seq<State>)
    requires peers.Valid()
  {
    && run != [] && run[0] == Start(c)
    && forall i :: 0 < i < |run| ==> Moves(c, peers, run[i - 1], run[i])
  }

  // The server never tests anything but the client's evaluations.
  lemma ReceivedEvaluations(c: Config, peers: Peers, run: seq<State>, i: nat)
    requires peers.Valid() && Describes(c, peers) && IsSync(c, peers, run) && i < |run| && run[i].server.pc.Testing?
    ensures AreEvaluations(peers.p, peers.dataMax, peers.client, run[i].server.recvMeta)
  {
    SyncIsRun(c, peers, run);
    if c.oneWay {
      OneWayRun(c, run, i);
    } else {
      RunLockstep(c, run, i);
    }
    assert Synced(c, run[i]);
  }

  lemma SyncIsRun(c: Config, peers: Peers, run: seq<State>)
    requires peers.Valid() && IsSync(c, peers, run)
    ensures IsRun(c, run)
  {
    forall i | 0 < i < |run| ensures Follows(c, run[i - 1], run[i]) {
      assert Moves(c, peers, run[i - 1], run[i]);
    }
  }

  // Every test has some result.
  lemma SomeResult(p: nat, dataMax: nat, redundantK: nat, self: set<nat>, other: set<nat>, currDiff: nat)
    returns (ok: bool, deltaSelf: seq<nat>, deltaOther: seq<nat>)
    requires 0 < p
    ensures TestResult(p, dataMax, redundantK, self, other, currDiff, ok, deltaSelf, deltaOther)
  {
    if self == {} && other != {} {
      OnesConsistent(p, dataMax, redundantK, other, currDiff);
      ok, deltaSelf, deltaOther := AllOnes(p, dataMax, redundantK, other, currDiff), [], [];
    } else if Answerable(self, other, currDiff) {
      ok := true;
      deltaSelf := ListingOf(self - other);
      deltaOther := ListingOf(other - self);
      TrueListsConsistent(p, dataMax, redundantK, self, other, currDiff, deltaSelf, deltaOther);
      TrueListsSeparate(self, other, deltaSelf, deltaOther);
      if self == {} {
        EmptyAllOnes(p, dataMax, redundantK, currDiff);
        ListsSomething(deltaSelf);
        ListsSomething(deltaOther);
      }
    } else {
      ok, deltaSelf, deltaOther := false, [], [];
    }
  }

  lemma OnesConsistent(p: nat, dataMax: nat, redundantK: nat, other: set<nat>, currDiff: nat)
    requires 0 < p
    ensures AllOnes(p, dataMax, redundantK, other, currDiff) ==>
      Consistent(p, dataMax, redundantK, {}, other, currDiff, [], [])
  {
    hide Sample, Zero;
    forall x: int ensures Chi({}, x) * ListProduct([], x) == 1 && Chi(other, x) * ListProduct([], x) == Chi(other, x) {
      EmptyChi(x);
    }
  }

  lemma TrueListsSeparate(self: set<nat>, other: set<nat>, deltaSelf: seq<nat>, deltaOther: seq<nat>)
    requires Finds(self, other, deltaSelf, deltaOther)
    ensures Separate(deltaSelf, deltaOther)
  {
    ListParts(deltaSelf, self - other);
    ListParts(deltaOther, other - self);
  }

  lemma TrueListsConsistent(p: nat, dataMax: nat, redundantK: nat, self: set<nat>, other: set<nat>, currDiff: nat,
                            deltaSelf: seq<nat>, deltaOther: seq<nat>)
    requires 0 < p && Finds(self, other, deltaSelf, deltaOther)
    ensures Consistent(p, dataMax, redundantK, self, other, currDiff, deltaSelf, deltaOther)
  {
    ListParts(deltaSelf, self - other);
    ListParts(deltaOther, other - self);
    hide Finds, Passes, Chi, ListProduct, Sample, Equal, NoRepeats;
    forall j: nat
      ensures var x := Sample(p, dataMax, j);
        Equal(p, Chi(self, x) * ListProduct(deltaOther, x), Chi(other, x) * ListProduct(deltaSelf, x))
    {
      var x := Sample(p, dataMax, j);
      TrueDifferencesPass(p, self, other, x, deltaSelf, deltaOther);
      PassesMeans(p, x, Chi(self, x), Chi(other, x), deltaSelf, deltaOther);
    }
  }

  lemma ListsSomething(list: seq<nat>)
    ensures list != [] ==> ToSet(list) != {}
  {
    if list != [] {
      assert list[0] in ToSet(list);
    }
  }

  lemma EmptyAllOnes(p: nat, dataMax: nat, redundantK: nat, currDiff: nat)
    requires 0 < p
    ensures AllOnes(p, dataMax, redundantK, {}, currDiff)
  {
    ZeroMultiple(p, 0);
    forall j: nat ensures Chi({}, Sample(p, dataMax, j)) == 1 {
      EmptyChi(Sample(p, dataMax, j));
    }
  }

  ghost predicate GoesOn(c: Config, peers: Peers, s: State)
    requires peers.Valid()
  {
    exists s' :: Moves(c, peers, s, s')
  }

  // Unless both peers have stopped, one of them can go on, and otherwise none can.
  lemma SyncGoesOn(c: Config, peers: Peers, run: seq<State>)
    requires peers.Valid() && Describes(c, peers) && IsSync(c, peers, run)
    ensures GoesOn(c, peers, run[|run| - 1]) <==> !Over(run[|run| - 1])
    ensures Halted(c, run[|run| - 1]) <==> Over(run[|run| - 1])
  {
    var last := run[|run| - 1];
    SyncIsRun(c, peers, run);
    if c.oneWay {
      OneWayRunsEnd(c, run);
    } else {
      RunLockstep(c, run, |run| - 1);
      if !Over(last) {
        NeverStuck(c, last);
      }
    }
    if !Over(last) {
      var step :| Enabled(c, last, step);
      if step.ServerTests? {
        var ok, deltaSelf, deltaOther := SomeResult(peers.p, peers.dataMax, c.redundantK, peers.server, peers.client,
                                                    last.server.currDiff);
        step := ServerTests(ok, deltaSelf, deltaOther);
      }
      assert Moves(c, peers, last, Do(c, last, step));
    }
  }

  // Unless only the server is empty, every test at a bound that covers the
  // differences tells the truth about them.
  lemma TestsTellTruth(c: Config, peers: Peers, run: seq<State>)
    requires peers.Valid() && Describes(c, peers) && IsSync(c, peers, run)
    requires peers.server != {} || peers.client == {}
    ensures IsTrueRun(c, run, peers.Needed(), peers.server - peers.client, peers.client - peers.server)
  {
    var (n, x, y) := (peers.Needed(), peers.server - peers.client, peers.client - peers.server);
    forall i | 0 < i < |run| ensures FollowsTruly(c, run[i - 1], run[i], n, x, y) {
      assert Moves(c, peers, run[i - 1], run[i]);
      var step :| Enabled(c, run[i - 1], step) && run[i] == Do(c, run[i - 1], step)
        && Tested(c, peers, run[i - 1], step);
      if step.ServerTests? {
        ReceivedEvaluations(c, peers, run, i - 1);
      }
      assert TellsTruth(run[i - 1], step, n, x, y);
    }
  }

  // The server accepts only lists that are consistent at its last bound.
  ghost predicate AcceptedLists(c: Config, peers: Peers, s: State)
    requires peers.Valid()
  {
    s.server.pc == Finished(true) ==>
      && Separate(s.server.deltaSelf, s.server.deltaOther)
      && Consistent(peers.p, peers.dataMax, c.redundantK, peers.server, peers.client, s.server.currDiff,
                    s.server.deltaSelf, s.server.deltaOther)
  }

  lemma {:induction false} AcceptedKept(c: Config, peers: Peers, run: seq<State>, i: nat)
    requires peers.Valid() && Describes(c, peers) && IsSync(c, peers, run) && i < |run|
    ensures AcceptedLists(c, peers, run[i])
  {
    if i > 0 {
      AcceptedKept(c, peers, run, i - 1);
      assert Moves(c, peers, run[i - 1], run[i]);
      var step :| Enabled(c, run[i - 1], step) && run[i] == Do(c, run[i - 1], step)
        && Tested(c, peers, run[i - 1], step);
      if step.ServerTests? {
        ReceivedEvaluations(c, peers, run, i - 1);
      }
    }
  }

  // However large the differences and in either mode, success means lists without
  // repeats or common elements that are consistent at all redundant samples of the
  // last round, the same at both peers.
  lemma SuccessIsConsistent(c: Config, peers: Peers, run: seq<State>)
    requires peers.Valid() && Describes(c, peers) && IsSync(c, peers, run)
    requires var last := run[|run| - 1];
      last.server.pc == Finished(true) || (!c.oneWay && last.client.pc == Stopped(true))
    ensures var s := run[|run| - 1].server;
      && Separate(s.deltaSelf, s.deltaOther)
      && Consistent(peers.p, peers.dataMax, c.redundantK, peers.server, peers.client, s.currDiff,
                    s.deltaSelf, s.deltaOther)
    ensures var last := run[|run| - 1];
      !c.oneWay && last.client.pc == Stopped(true) ==>
        last.client.currDiff == last.server.currDiff
        && last.client.deltaOther == last.server.deltaSelf && last.client.deltaSelf == last.server.deltaOther
  {
    hide Consistent;
    SyncIsRun(c, peers, run);
    AcceptedKept(c, peers, run, |run| - 1);
    if !c.oneWay {
      RunLockstep(c, run, |run| - 1);
    }
  }

  // Both peers hold the true differences.
  ghost predicate BothKnow(peers: Peers, last: State) {
    && ToSet(last.server.deltaSelf) == ToSet(last.client.deltaOther) == peers.server - peers.client
    && ToSet(last.server.deltaOther) == ToSet(last.client.deltaSelf) == peers.client - peers.server
  }

  // A synchronization of at most maxDiff differences ends with both peers in
  // agreement on success; with the differences, if its last bound covers them,
  // which it always does without doubling; and with doubling that bound is below
  // twice what was needed.
  lemma SyncSucceeds(c: Config, peers: Peers, run: seq<State>)
    requires peers.Valid() && Describes(c, peers) && IsSync(c, peers, run) && !c.oneWay
    requires (peers.server != {} || peers.client == {}) && peers.Needed() <= c.maxDiff
    requires Halted(c, run[|run| - 1])
    ensures Agreed(c, run[|run| - 1], true)
    ensures !c.probabilistic || peers.Needed() <= run[|run| - 1].client.currDiff ==> BothKnow(peers, run[|run| - 1])
    ensures BoundHolds(c, run[|run| - 1].client.currDiff, peers.Needed())
  {
    TestsTellTruth(c, peers, run);
    BoundsKept(c, run, peers.Needed(), peers.server - peers.client, peers.client - peers.server, |run| - 1);
    CoveredDifferencesSucceed(c, run, peers.Needed(), peers.server - peers.client, peers.client - peers.server);
    VerdictKept(c, run, peers.Needed(), peers.server - peers.client, peers.client - peers.server, |run| - 1);
  }

  // The server has finished with the true differences.
  ghost predicate ServerKnows(peers: Peers, server: Server) {
    && server.pc == Finished(true) && ToSet(server.deltaSelf) == peers.server - peers.client
    && ToSet(server.deltaOther) == peers.client - peers.server
  }

  // A one-way synchronization ends with the differences at the server.
  lemma OneWaySyncSucceeds(c: Config, peers: Peers, run: seq<State>)
    requires peers.Valid() && Describes(c, peers) && IsSync(c, peers, run) && c.oneWay
    requires (peers.server != {} || peers.client == {}) && peers.Needed() <= c.maxDiff
    requires Halted(c, run[|run| - 1])
    ensures ServerKnows(peers, run[|run| - 1].server)
  {
    TestsTellTruth(c, peers, run);
    OneWayCovered(c, run, peers.Needed(), peers.server - peers.client, peers.client - peers.server);
  }

  // The verdict of a server without elements.
  ghost predicate EmptyVerdict(c: Config, peers: Peers, s: State)
    requires peers.Valid()
  {
    s.server.pc.Finished? ==>
      && s.server.deltaSelf == s.server.deltaOther == []
      && (s.server.pc.verdict <==> AllOnes(peers.p, peers.dataMax, c.redundantK, peers.client, s.server.currDiff))
  }

  // A server without elements never finds anything, and reports success exactly
  // when the client's redundant evaluations happen to be one.
  lemma {:induction false} EmptyServer(c: Config, peers: Peers, run: seq<State>, i: nat)
    requires peers.Valid() && Describes(c, peers) && IsSync(c, peers, run) && peers.server == {} && i < |run|
    ensures EmptyVerdict(c, peers, run[i])
  {
    if i > 0 {
      EmptyServer(c, peers, run, i - 1);
      assert Moves(c, peers, run[i - 1], run[i]);
      var step :| Enabled(c, run[i - 1], step) && run[i] == Do(c, run[i - 1], step)
        && Tested(c, peers, run[i - 1], step);
      if step.ServerTests? {
        ReceivedEvaluations(c, peers, run, i - 1);
      }
    }
  }

  lemma EmptyListsMiss(peers: Peers, list: seq<nat>)
    requires peers.server == {} && peers.client != {} && list == []
    ensures ToSet(list) != peers.client - peers.server
  {
    assert peers.client - peers.server == peers.client;
  }

  // A synchronization whose last bound covers the differences ends with both peers
  // knowing them if and only if the server is not the only empty side. Without
  // doubling the last bound is maxDiff.
  lemma SyncSucceedsIff(c: Config, peers: Peers, run: seq<State>)
    requires peers.Valid() && Describes(c, peers) && IsSync(c, peers, run) && !c.oneWay
    requires Halted(c, run[|run| - 1]) && peers.Needed() <= c.maxDiff
    requires !c.probabilistic || peers.Needed() <= run[|run| - 1].client.currDiff
    ensures Agreed(c, run[|run| - 1], true) && BothKnow(peers, run[|run| - 1])
       <==> peers.server != {} || peers.client == {}
  {
    var last := run[|run| - 1];
    if peers.server != {} || peers.client == {} {
      SyncSucceeds(c, peers, run);
    } else {
      EmptyServer(c, peers, run, |run| - 1);
      if last.server.deltaOther == [] {
        EmptyListsMiss(peers, last.server.deltaOther);
      }
    }
  }

  // Likewise for one-way mode, at the server.
  lemma OneWaySyncSucceedsIff(c: Config, peers: Peers, run: seq<State>)
    requires peers.Valid() && Describes(c, peers) && IsSync(c, peers, run) && c.oneWay
    requires Halted(c, run[|run| - 1]) && peers.Needed() <= c.maxDiff
    ensures ServerKnows(peers, run[|run| - 1].server) <==> peers.server != {} || peers.client == {}
  {
    var server := run[|run| - 1].server;
    if peers.server != {} || peers.client == {} {
      OneWaySyncSucceeds(c, peers, run);
    } else {
      EmptyServer(c, peers, run, |run| - 1);
      if server.deltaOther == [] {
        EmptyListsMiss(peers, server.deltaOther);
      }
    }
  }

  lemma OneElementNotOne(p: nat, dataMax: nat, h: nat, j: nat)
    requires IsPrime(p) && 0 < p && h < dataMax && dataMax + j + 1 <= p
    ensures !Equal(p, 1, Chi({h}, Sample(p, dataMax, j)))
  {
    var a: set<nat> := {h};
    var x := Sample(p, dataMax, j);
    ChiTake(a, h, x);
    assert a - {h} == {};
    ConstantOne(x);
    assert Chi(a, x) == x - h;
    if dataMax + j + 1 < p {
      SampleOutside(p, dataMax, j);
      Negative(p, dataMax + j - h);
      ModSmall(dataMax + j - h, p);
    } else {
      ModUnique(p, 1, 0, p);
      ModSmall(1 + h, p);
    }
  }

  // For instance, a server without elements never syncs with a client that has one:
  // both peers end in agreement on failure.
  lemma OneElementRefused(c: Config, peers: Peers, run: seq<State>, h: nat)
    requires peers.Valid() && Describes(c, peers) && IsSync(c, peers, run) && !c.oneWay
    requires peers.server == {} && peers.client == {h}
    requires Halted(c, run[|run| - 1])
    ensures Agreed(c, run[|run| - 1], false)
  {
    var last := run[|run| - 1];
    assert h in peers.client;
    SyncIsRun(c, peers, run);
    RunsEndInAgreement(c, run);
    EmptyServer(c, peers, run, |run| - 1);
    RunLockstep(c, run, |run| - 1);
    OneElementNotOne(peers.p, peers.dataMax, h, last.server.currDiff);
  }
}
