// The doubling loops of the two peers as a state machine over their sends and
// receives, joined by two first-in first-out queues.
module CPIDoubling {
  import opened Bits
  import opened Lists

  datatype Message = Size(n: nat) | Evals(v: seq<nat>) | Fail | Ok

  // What both peers agreed on: bounds, mode, and the client's evaluations. The
  // one-way and the probabilistic mode exclude each other.
  datatype Config = Config(
    maxDiff: nat, redundantK: nat, probabilistic: bool, oneWay: bool, size: nat, evals: seq<nat>)
  {
    predicate Valid() {
      1 <= maxDiff && 1 <= redundantK && |evals| == maxDiff + redundantK && !(oneWay && probabilistic)
    }

    function StartDiff(): nat {
      if probabilistic then 1 else maxDiff
    }
  }

  datatype ClientPC = Begin | SendingEvals | AwaitVerdict | AwaitOther | AwaitSelf | Stopped(result: bool)

  datatype Client = Client(pc: ClientPC, currDiff: nat, deltaSelf: seq<nat>, deltaOther: seq<nat>)

  datatype ServerPC = AwaitSize | AwaitEvals | Testing | AwaitMore | Finished(verdict: bool)

  datatype Server = Server(pc: ServerPC, currDiff: nat, recvMeta: seq<nat>, deltaSelf: seq<nat>, deltaOther: seq<nat>)

  datatype State = State(client: Client, server: Server, toServer: seq<Message>, toClient: seq<Message>)

  // One action of one peer. The outcome of the server's test, and the
  // differences it found, are arbitrary.
  datatype Step =
    | ClientSends
    | ClientReceives
    | ServerReceives
    | ServerTests(success: bool, deltaSelf: seq<nat>, deltaOther: seq<nat>)

  function Start(c: Config): State {
    State(Client(Begin, c.StartDiff(), [], []), Server(AwaitSize, c.StartDiff(), [], [], []), [], [])
  }

  function Min(a: int, b: int): int {
    if a < b then a else b
  }

  predicate LastRound(c: Config, currDiff: nat) {
    !c.probabilistic || currDiff == c.maxDiff
  }

  // A step can be taken when its peer is at that point of its program, the
  // message it expects has arrived, and every index it uses is in range.
  predicate Enabled(c: Config, s: State, step: Step) {
    match step
    case ClientSends =>
      s.client.pc.Begin? || (s.client.pc.SendingEvals? && s.client.currDiff + c.redundantK <= |c.evals|)
    case ClientReceives =>
      && s.toClient != []
      && (match s.client.pc
          case AwaitVerdict =>
            s.toClient[0].Ok? || (s.toClient[0].Fail? &&
              (LastRound(c, s.client.currDiff)
               || (s.client.currDiff <= c.maxDiff
                   && s.client.currDiff + c.redundantK + Min(s.client.currDiff, c.maxDiff - s.client.currDiff)
                      <= |c.evals|)))
          case AwaitOther => s.toClient[0].Evals?
          case AwaitSelf => s.toClient[0].Evals?
          case _ => false)
    case ServerReceives =>
      && s.toServer != []
      && (match s.server.pc
          case AwaitSize => s.toServer[0].Size?
          case AwaitEvals => s.toServer[0].Evals?
          case AwaitMore => s.toServer[0].Evals?
          case _ => false)
    case ServerTests(_, _, _) =>
      s.server.pc.Testing? && s.server.currDiff + c.redundantK <= |s.server.recvMeta|
  }

  function Do(c: Config, s: State, step: Step): State
    requires Enabled(c, s, step)
  {
    match step
    case ClientSends => ClientSend(c, s)
    case ClientReceives => ClientReceive(c, s)
    case ServerReceives => ServerReceive(c, s)
    case ServerTests(success, ds, do) =>
      var replies :=
        if c.oneWay then []
        else if success then [Ok, Evals(ds), Evals(do)]
        else [Fail];
      var pc :=
        if success then Finished(true)
        else if LastRound(c, s.server.currDiff) then Finished(false)
        else AwaitMore;
      s.(server := s.server.(pc := pc, deltaSelf := ds, deltaOther := do), toClient := s.toClient + replies)
  }

  function ClientSend(c: Config, s: State): State
    requires Enabled(c, s, ClientSends)
  {
    if s.client.pc.Begin? then
      s.(client := s.client.(pc := SendingEvals), toServer := s.toServer + [Size(c.size)])
    else
      var pc := if c.oneWay then Stopped(true) else AwaitVerdict;
      s.(client := s.client.(pc := pc), toServer := s.toServer + [Evals(c.evals[..s.client.currDiff + c.redundantK])])
  }

  function ClientReceive(c: Config, s: State): State
    requires Enabled(c, s, ClientReceives)
  {
    var s' := s.(toClient := s.toClient[1..]);
    if s.client.pc.AwaitOther? then
      s'.(client := s.client.(pc := AwaitSelf, deltaOther := s.toClient[0].v))
    else if s.client.pc.AwaitSelf? then
      s'.(client := s.client.(pc := Stopped(true), deltaSelf := s.toClient[0].v))
    else if s.toClient[0].Ok? then
      s'.(client := s.client.(pc := AwaitOther))
    else if LastRound(c, s.client.currDiff) then
      s'.(client := s.client.(pc := Stopped(false)))
    else
      var from := s.client.currDiff + c.redundantK;
      var more := c.evals[from..from + Min(s.client.currDiff, c.maxDiff - s.client.currDiff)];
      s'.(client := s.client.(currDiff := Min(s.client.currDiff * 2, c.maxDiff)),
          toServer := s.toServer + [Evals(more)])
  }

  function ServerReceive(c: Config, s: State): State
    requires Enabled(c, s, ServerReceives)
  {
    var s' := s.(toServer := s.toServer[1..]);
    if s.server.pc.AwaitSize? then
      s'.(server := s.server.(pc := AwaitEvals))
    else if s.server.pc.AwaitEvals? then
      s'.(server := s.server.(pc := Testing, recvMeta := s.toServer[0].v))
    else
      s'.(server := s.server.(pc := Testing, recvMeta := s.server.recvMeta + s.toServer[0].v,
                              currDiff := Min(s.server.currDiff * 2, c.maxDiff)))
  }

  // The server holds exactly the evaluations for its current bound.
  predicate Synced(c: Config, s: State) {
    s.server.currDiff + c.redundantK <= |c.evals| && s.server.recvMeta == c.evals[..s.server.currDiff + c.redundantK]
  }

  // How far apart the peers can be when the client is at a given point.
  predicate Lockstep(c: Config, s: State) {
    && 1 <= s.client.currDiff <= c.maxDiff && 1 <= s.server.currDiff <= c.maxDiff
    && (s.server.pc != AwaitMore || s.toServer == [] ==> s.client.currDiff == s.server.currDiff)
    && (s.server.pc.AwaitSize? || s.server.pc.AwaitEvals? || Synced(c, s))
    && match s.client.pc
       case Begin => s.server.pc == AwaitSize && s.toServer == [] && s.toClient == []
       case SendingEvals =>
         && s.toClient == []
         && ((s.server.pc == AwaitSize && s.toServer == [Size(c.size)])
             || (s.server.pc == AwaitEvals && s.toServer == []))
       case AwaitVerdict =>
         (match s.server.pc
          case AwaitSize => s.toClient == [] && s.toServer == [Size(c.size), First(c, s)]
          case AwaitEvals => s.toClient == [] && s.toServer == [First(c, s)]
          case Testing => s.toClient == [] && s.toServer == []
          case AwaitMore =>
            && !LastRound(c, s.server.currDiff)
            && ((s.toClient == [Fail] && s.toServer == [])
                || (s.toClient == [] && s.toServer == [Next(c, s)]
                    && s.client.currDiff == Min(s.server.currDiff * 2, c.maxDiff)))
          case Finished(verdict) =>
            && s.toServer == []
            && s.toClient == (if verdict then [Ok, Evals(s.server.deltaSelf), Evals(s.server.deltaOther)] else [Fail])
            && (!verdict ==> LastRound(c, s.server.currDiff)))
       case AwaitOther =>
         && s.server.pc == Finished(true) && s.toServer == []
         && s.toClient == [Evals(s.server.deltaSelf), Evals(s.server.deltaOther)]
       case AwaitSelf =>
         && s.server.pc == Finished(true) && s.toServer == []
         && s.toClient == [Evals(s.server.deltaOther)] && s.client.deltaOther == s.server.deltaSelf
       case Stopped(result) => s.toServer == [] && s.toClient == [] && Agreed(c, s, result)
  }

  // Both peers have stopped with the same verdict, in the same round.
  predicate Agreed(c: Config, s: State, result: bool) {
    && s.client.pc == Stopped(result) && s.server.pc == Finished(result)
    && s.client.currDiff == s.server.currDiff
    && (result ==> s.client.deltaOther == s.server.deltaSelf && s.client.deltaSelf == s.server.deltaOther)
    && (!result ==> LastRound(c, s.server.currDiff))
  }

  function First(c: Config, s: State): Message {
    if s.server.currDiff + c.redundantK <= |c.evals| then Evals(c.evals[..s.server.currDiff + c.redundantK]) else Fail
  }

  // The evaluations between the server's bound and the next one.
  function Next(c: Config, s: State): Message {
    var from, to := s.server.currDiff + c.redundantK, Min(s.server.currDiff * 2, c.maxDiff) + c.redundantK;
    if from <= to <= |c.evals| then Evals(c.evals[from..to]) else Fail
  }

  lemma StartLockstep(c: Config)
    requires c.Valid()
    ensures Lockstep(c, Start(c))
  {
  }

  // Every step of either peer keeps the peers in lockstep.
  lemma LockstepKept(c: Config, s: State, step: Step)
    requires c.Valid() && !c.oneWay && Lockstep(c, s) && Enabled(c, s, step)
    ensures Lockstep(c, Do(c, s, step))
  {
    match step {
      case ClientSends =>
      case ClientReceives => ClientReceiveKept(c, s);
      case ServerReceives => ServerReceiveKept(c, s);
      case ServerTests(_, _, _) =>
    }
  }

  lemma ClientReceiveKept(c: Config, s: State)
    requires c.Valid() && !c.oneWay && Lockstep(c, s) && Enabled(c, s, ClientReceives)
    ensures Lockstep(c, ClientReceive(c, s))
  {
  }

  lemma ServerReceiveKept(c: Config, s: State)
    requires c.Valid() && !c.oneWay && Lockstep(c, s) && Enabled(c, s, ServerReceives)
    ensures Lockstep(c, ServerReceive(c, s))
  {
    if s.server.pc == AwaitMore {
      var from, to := s.server.currDiff + c.redundantK, Min(s.server.currDiff * 2, c.maxDiff) + c.redundantK;
      assert c.evals[..from] + c.evals[from..to] == c.evals[..to];
    }
  }

  // A run: every state follows from the one before by some step.
  ghost predicate IsRun(c: Config, run: seq<State>) {
    && run != [] && run[0] == Start(c)
    && forall i :: 0 < i < |run| ==> Follows(c, run[i - 1], run[i])
  }

  ghost predicate Follows(c: Config, s: State, s': State) {
    exists step :: Enabled(c, s, step) && s' == Do(c, s, step)
  }

  // In every run the peers stay in lockstep.
  lemma {:induction false} RunLockstep(c: Config, run: seq<State>, i: nat)
    requires c.Valid() && !c.oneWay && IsRun(c, run) && i < |run|
    ensures Lockstep(c, run[i])
  {
    if i == 0 {
      StartLockstep(c);
    } else {
      RunLockstep(c, run, i - 1);
      assert Follows(c, run[i - 1], run[i]);
      var step :| Enabled(c, run[i - 1], step) && run[i] == Do(c, run[i - 1], step);
      LockstepKept(c, run[i - 1], step);
    }
  }

  predicate Over(s: State) {
    s.client.pc.Stopped? && s.server.pc.Finished?
  }

  // No peer can act.
  ghost predicate Halted(c: Config, s: State) {
    forall step :: !Enabled(c, s, step)
  }

  // Unless both peers have stopped, one of them can act; in particular no peer
  // ever waits for a message that does not come, or indexes out of range.
  lemma NeverStuck(c: Config, s: State)
    requires c.Valid() && !c.oneWay && Lockstep(c, s) && !Over(s)
    ensures exists step :: Enabled(c, s, step)
  {
    if s.client.pc.Begin? || s.client.pc.SendingEvals? {
      assert Enabled(c, s, ClientSends);
    } else if s.toClient != [] {
      assert Enabled(c, s, ClientReceives);
    } else if s.toServer != [] {
      assert Enabled(c, s, ServerReceives);
    } else {
      assert Enabled(c, s, ServerTests(true, [], []));
    }
  }

  // An upper bound on the number of steps still to come.
  function Remaining(c: Config, s: State): int {
    10 * (c.maxDiff - s.client.currDiff) + 10 * (c.maxDiff - s.server.currDiff) + 2 * |s.toServer| + 2 * |s.toClient|
    + (match s.client.pc
       case Begin => 20
       case SendingEvals => 15
       case AwaitVerdict => 5
       case AwaitOther => 2
       case AwaitSelf => 1
       case Stopped(_) => 0)
    + (match s.server.pc
       case AwaitSize => 30
       case AwaitEvals => 25
       case Testing => 15
       case AwaitMore => 5
       case Finished(_) => 0)
  }

  // Every step brings the end closer, because the bound doubles up to maxDiff.
  lemma StepsRunOut(c: Config, s: State, step: Step)
    requires c.Valid() && !c.oneWay && Lockstep(c, s) && Enabled(c, s, step)
    ensures 0 <= Remaining(c, Do(c, s, step)) < Remaining(c, s)
  {
    LockstepKept(c, s, step);
  }

  lemma {:induction false} RunsAreShort(c: Config, run: seq<State>, i: nat)
    requires c.Valid() && !c.oneWay && IsRun(c, run) && i < |run|
    ensures Remaining(c, run[i]) + i <= Remaining(c, Start(c))
  {
    hide Remaining, Lockstep, Enabled, Do;
    if i > 0 {
      RunsAreShort(c, run, i - 1);
      RunLockstep(c, run, i - 1);
      assert Follows(c, run[i - 1], run[i]);
      var step :| Enabled(c, run[i - 1], step) && run[i] == Do(c, run[i - 1], step);
      StepsRunOut(c, run[i - 1], step);
    }
  }

  // Every run is finite and, when it can go no further, ends in agreement.
  lemma RunsEndInAgreement(c: Config, run: seq<State>)
    requires c.Valid() && !c.oneWay && IsRun(c, run)
    ensures |run| <= 70 + 20 * c.maxDiff
    ensures var last := run[|run| - 1];
      Halted(c, last) <==> exists result :: Agreed(c, last, result) && last.toServer == last.toClient == []
  {
    var last := run[|run| - 1];
    RunLockstep(c, run, |run| - 1);
    RunsAreShort(c, run, |run| - 1);
    if Over(last) {
      assert Agreed(c, last, last.client.pc.result);
    } else {
      NeverStuck(c, last);
    }
  }

  // A test at a bound that covers the n true differences succeeds and finds
  // them; what a test at a smaller bound does is left open.
  ghost predicate TellsTruth(s: State, step: Step, n: nat, selfMinusOther: set<nat>, otherMinusSelf: set<nat>) {
    step.ServerTests? && n <= s.server.currDiff ==>
      step.success && ToSet(step.deltaSelf) == selfMinusOther && ToSet(step.deltaOther) == otherMinusSelf
  }

  ghost predicate FollowsTruly(c: Config, s: State, s': State, n: nat, x: set<nat>, y: set<nat>) {
    exists step :: Enabled(c, s, step) && s' == Do(c, s, step) && TellsTruth(s, step, n, x, y)
  }

  ghost predicate IsTrueRun(c: Config, run: seq<State>, n: nat, x: set<nat>, y: set<nat>) {
    && run != [] && run[0] == Start(c)
    && forall i :: 0 < i < |run| ==> FollowsTruly(c, run[i - 1], run[i], n, x, y)
  }

  // What the server's verdict says about its bound.
  ghost predicate VerdictHolds(c: Config, s: State, n: nat, x: set<nat>, y: set<nat>) {
    && (!c.probabilistic ==> s.server.currDiff == c.maxDiff)
    && (s.server.pc.Finished? && n <= s.server.currDiff ==>
          s.server.pc.verdict && ToSet(s.server.deltaSelf) == x && ToSet(s.server.deltaOther) == y)
  }

  lemma {:induction false} VerdictKept(c: Config, run: seq<State>, n: nat, x: set<nat>, y: set<nat>, i: nat)
    requires c.Valid() && IsTrueRun(c, run, n, x, y) && i < |run|
    ensures VerdictHolds(c, run[i], n, x, y)
  {
    if i > 0 {
      VerdictKept(c, run, n, x, y, i - 1);
      assert FollowsTruly(c, run[i - 1], run[i], n, x, y);
    }
  }

  // The bounds that the doubling goes through, and never past twice the difference.
  ghost predicate BoundHolds(c: Config, currDiff: nat, n: nat) {
    if c.probabilistic then
      (exists k: nat :: currDiff == Min(Pow2(k), c.maxDiff)) && currDiff < 2 * (if n < 1 then 1 else n)
    else currDiff == c.maxDiff
  }

  // In runs whose tests tell the truth about n differences, every bound is a power of
  // two below twice the larger of 1 and n, or maxDiff; after a failed test the bound
  // was too small.
  lemma {:induction false} BoundsKept(c: Config, run: seq<State>, n: nat, x: set<nat>, y: set<nat>, i: nat)
    requires c.Valid() && IsTrueRun(c, run, n, x, y) && i < |run|
    ensures BoundHolds(c, run[i].server.currDiff, n)
    ensures run[i].server.pc.AwaitMore? ==> run[i].server.currDiff < n
  {
    if i == 0 {
      assert Pow2(0) == 1;
      assert c.probabilistic ==> c.StartDiff() == Min(Pow2(0), c.maxDiff);
    } else {
      BoundsKept(c, run, n, x, y, i - 1);
      assert FollowsTruly(c, run[i - 1], run[i], n, x, y);
      if c.probabilistic {
        var k: nat :| run[i - 1].server.currDiff == Min(Pow2(k), c.maxDiff);
        assert Pow2(k + 1) == 2 * Pow2(k);
        assert Min(run[i - 1].server.currDiff * 2, c.maxDiff) == Min(Pow2(k + 1), c.maxDiff);
      }
    }
  }

  // A difference of at most maxDiff elements is always found: a run that has
  // ended has succeeded, and if its last bound covers the difference, both peers
  // hold the true differences.
  lemma CoveredDifferencesSucceed(c: Config, run: seq<State>, n: nat, x: set<nat>, y: set<nat>)
    requires c.Valid() && !c.oneWay && IsTrueRun(c, run, n, x, y) && n <= c.maxDiff
    requires Halted(c, run[|run| - 1])
    ensures var last := run[|run| - 1];
      && Agreed(c, last, true)
      && (n <= last.client.currDiff ==>
            ToSet(last.server.deltaSelf) == ToSet(last.client.deltaOther) == x
            && ToSet(last.server.deltaOther) == ToSet(last.client.deltaSelf) == y)
  {
    forall i | 0 < i < |run| ensures Follows(c, run[i - 1], run[i]) {
      assert FollowsTruly(c, run[i - 1], run[i], n, x, y);
    }
    RunsEndInAgreement(c, run);
    VerdictKept(c, run, n, x, y, |run| - 1);
  }

  // In one-way mode the client stops after its first message of evaluations, and
  // the server after its only test.
  predicate OneWayState(c: Config, s: State) {
    && s.client.currDiff == s.server.currDiff == c.maxDiff && s.toClient == []
    && match s.client.pc
       case Begin => s.server.pc == AwaitSize && s.toServer == []
       case SendingEvals =>
         || (s.server.pc == AwaitSize && s.toServer == [Size(c.size)])
         || (s.server.pc == AwaitEvals && s.toServer == [])
       case Stopped(result) =>
         result && (match s.server.pc
         case AwaitSize => s.toServer == [Size(c.size), First(c, s)]
         case AwaitEvals => s.toServer == [First(c, s)]
         case Testing => s.toServer == [] && Synced(c, s)
         case AwaitMore => false
         case Finished(verdict) => s.toServer == [])
       case AwaitVerdict => false
       case AwaitOther => false
       case AwaitSelf => false
  }

  // The number of steps taken.
  function OneWayProgress(s: State): nat {
    (match s.client.pc
     case Begin => 0
     case SendingEvals => 1
     case AwaitVerdict => 1
     case AwaitOther => 1
     case AwaitSelf => 1
     case Stopped(_) => 2)
    + (match s.server.pc
       case AwaitSize => 0
       case AwaitEvals => 1
       case Testing => 2
       case AwaitMore => 2
       case Finished(_) => 3)
  }

  lemma {:induction false} OneWayRun(c: Config, run: seq<State>, i: nat)
    requires c.Valid() && c.oneWay && IsRun(c, run) && i < |run|
    ensures OneWayState(c, run[i]) && OneWayProgress(run[i]) == i
  {
    if i > 0 {
      OneWayRun(c, run, i - 1);
      assert Follows(c, run[i - 1], run[i]);
      var step :| Enabled(c, run[i - 1], step) && run[i] == Do(c, run[i - 1], step);
      OneWayKept(c, run[i - 1], step);
    }
  }

  lemma OneWayKept(c: Config, s: State, step: Step)
    requires c.Valid() && c.oneWay && OneWayState(c, s) && Enabled(c, s, step)
    ensures OneWayState(c, Do(c, s, step)) && OneWayProgress(Do(c, s, step)) == OneWayProgress(s) + 1
  {
  }

  // Every one-way run has at most five steps and stops exactly when both peers
  // have; the client always reports success.
  lemma OneWayRunsEnd(c: Config, run: seq<State>)
    requires c.Valid() && c.oneWay && IsRun(c, run)
    ensures |run| <= 6
    ensures Halted(c, run[|run| - 1]) <==> Over(run[|run| - 1])
    ensures Over(run[|run| - 1]) ==> run[|run| - 1].client.pc.result
  {
    var last := run[|run| - 1];
    OneWayRun(c, run, |run| - 1);
    if !Over(last) {
      if !last.client.pc.Stopped? {
        assert Enabled(c, last, ClientSends);
      } else if last.toServer != [] {
        assert Enabled(c, last, ServerReceives);
      } else {
        assert Enabled(c, last, ServerTests(true, [], []));
      }
    }
  }

  // If its test tells the truth about a covered difference, the server ends with
  // the true differences.
  lemma OneWayCovered(c: Config, run: seq<State>, n: nat, x: set<nat>, y: set<nat>)
    requires c.Valid() && c.oneWay && IsTrueRun(c, run, n, x, y) && n <= c.maxDiff
    requires Halted(c, run[|run| - 1])
    ensures var server := run[|run| - 1].server;
      server.pc == Finished(true) && ToSet(server.deltaSelf) == x && ToSet(server.deltaOther) == y
  {
    forall i | 0 < i < |run| ensures Follows(c, run[i - 1], run[i]) {
      assert FollowsTruly(c, run[i - 1], run[i], n, x, y);
    }
    OneWayRunsEnd(c, run);
    VerdictKept(c, run, n, x, y, |run| - 1);
  }
}
