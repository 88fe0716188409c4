// Every interleaving of the two recursive peers ends in the same state, with
// the two set differences listed exactly.
module InterCPIRuns {
  import opened Wrappers
  import opened InterCPISync

  function Contents(v: Visit): set<nat> {
    if v.node.Some? then v.node.value else {}
  }

  // Between visits: both peers are about to declare, and no message is waiting.
  predicate Idle(s: State) {
    s.client.phase == Declaring && s.server.phase == Declaring && s.toServer == [] && s.toClient == []
  }

  // The idle state with the given stacks, once the differences between a and b
  // have been added to the lists of both peers.
  function Listed(s: State, cs: seq<Visit>, ss: seq<Visit>, a: set<nat>, b: set<nat>): State {
    var (p, q) := (s.client, s.server);
    State(Peer(cs, Declaring, p.selfMinusOther + multiset(a - b), p.otherMinusSelf + multiset(b - a)),
          Peer(ss, Declaring, q.selfMinusOther + multiset(b - a), q.otherMinusSelf + multiset(a - b)), [], [])
  }

  // The state when the current visits have ended.
  function AfterFirst(s: State): (t: State)
    requires s.client.stack != [] && s.server.stack != []
    ensures Idle(t) && t.client.stack == s.client.stack[1..] && t.server.stack == s.server.stack[1..]
  {
    Listed(s, s.client.stack[1..], s.server.stack[1..], Contents(s.client.stack[0]), Contents(s.server.stack[0]))
  }

  lemma {:induction false} ReachesTransitive(c: Config, s: State, t: State, u: State, n: nat, m: nat)
    requires 2 <= c.pFactor && Reaches(c, s, t, n) && Reaches(c, t, u, m)
    ensures Reaches(c, s, u, n + m)
    decreases n
  {
    hide Step;
    if n > 0 {
      var byClient :| Step(c, s, byClient).Some? && Reaches(c, Step(c, s, byClient).value, t, n - 1);
      ReachesTransitive(c, Step(c, s, byClient).value, t, u, n - 1, m);
    }
  }

  // One more step.
  lemma Next(c: Config, s: State, t: State, n: nat, byClient: bool) returns (u: State)
    requires 2 <= c.pFactor && Reaches(c, s, t, n) && Step(c, t, byClient).Some?
    ensures Step(c, t, byClient) == Some(u) && Reaches(c, s, u, n + 1)
  {
    hide Step;
    u := Step(c, t, byClient).value;
    assert Reaches(c, u, u, 0);
    assert Reaches(c, t, u, 1);
    ReachesTransitive(c, s, t, u, n, 1);
  }

  // Both peers declare; each has read nothing yet.
  lemma Declare(c: Config, s: State) returns (t: State)
    requires 2 <= c.pFactor && Idle(s) && s.client.stack != [] && s.server.stack != []
    ensures Reaches(c, s, t, 2)
    ensures t == State(s.client.(phase := Declared), s.server.(phase := Declared),
                       [if s.client.stack[0].node.None? then NoInfo else SomeInfo],
                       [if Contents(s.server.stack[0]) == {} then NoInfo else SomeInfo])
  {
    assert Reaches(c, s, s, 0);
    hide Reaches;
    t := Next(c, s, s, 0, true);
    t := Next(c, s, t, 1, false);
  }

  // The client has no node and the server nothing either.
  lemma NothingToSend(c: Config, s: State)
    requires 2 <= c.pFactor && Idle(s) && s.client.stack != [] && s.server.stack != []
    requires s.client.stack[0].node.None? && Contents(s.server.stack[0]) == {}
    ensures Reaches(c, s, AfterFirst(s), 4)
  {
    hide Reaches;
    var t := Declare(c, s);
    t := Next(c, s, t, 2, true);
    t := Next(c, s, t, 3, false);
    var end := AfterFirst(s);
    assert t.client == end.client;
    assert t.server == end.server;
    assert t.toServer == [] == t.toClient;
  }

  // The client has no node: it receives what the server has.
  lemma ClientHasNothing(c: Config, s: State)
    requires 2 <= c.pFactor && Idle(s) && s.client.stack != [] && s.server.stack != []
    requires s.client.stack[0].node.None? && Contents(s.server.stack[0]) != {}
    ensures Reaches(c, s, AfterFirst(s), 5)
  {
    hide Reaches;
    var b := Contents(s.server.stack[0]);
    var t := Declare(c, s);
    t := Next(c, s, t, 2, true);
    t := Next(c, s, t, 3, false);
    t := Next(c, s, t, 4, true);
    assert {} - b == {} && b - {} == b;
    var end := AfterFirst(s);
    assert t.client == end.client;
    assert t.server == end.server;
    assert t.toServer == [] == t.toClient;
  }

  // The server has nothing: it receives what the client's node holds, which may
  // be nothing as well.
  lemma ServerHasNothing(c: Config, s: State)
    requires 2 <= c.pFactor && Idle(s) && s.client.stack != [] && s.server.stack != []
    requires s.client.stack[0].node.Some? && Contents(s.server.stack[0]) == {}
    ensures Reaches(c, s, AfterFirst(s), 5)
  {
    hide Reaches;
    var a := Contents(s.client.stack[0]);
    var t := Declare(c, s);
    t := Next(c, s, t, 2, true);
    t := Next(c, s, t, 3, false);
    t := Next(c, s, t, 4, false);
    assert {} - a == {} && a - {} == a;
    var end := AfterFirst(s);
    assert t.client == end.client;
    assert t.server == end.server;
    assert t.toServer == [] == t.toClient;
  }

  // Both sides have something: the client's sketch is on its way to the server.
  lemma BothSync(c: Config, s: State) returns (t: State)
    requires 2 <= c.pFactor && Idle(s) && s.client.stack != [] && s.server.stack != []
    requires s.client.stack[0].node.Some? && Contents(s.server.stack[0]) != {}
    ensures Reaches(c, s, t, 4)
    ensures t == State(s.client.(phase := Syncing), s.server.(phase := Syncing),
                       [Sketch(Contents(s.client.stack[0]))], [])
  {
    hide Reaches;
    t := Declare(c, s);
    t := Next(c, s, t, 2, true);
    t := Next(c, s, t, 3, false);
  }

  // The node synchronization succeeds.
  lemma SyncedVisit(c: Config, s: State)
    requires 2 <= c.pFactor && Idle(s) && s.client.stack != [] && s.server.stack != []
    requires s.client.stack[0].node.Some? && Contents(s.server.stack[0]) != {}
    requires c.succeeds(Contents(s.client.stack[0]), Contents(s.server.stack[0]))
    ensures Reaches(c, s, AfterFirst(s), 7)
  {
    hide Reaches;
    var t := BothSync(c, s);
    t := Next(c, s, t, 4, false);
    t := Next(c, s, t, 5, true);
    t := Next(c, s, t, 6, true);
    var end := AfterFirst(s);
    assert t.client == end.client;
    assert t.server == end.server;
    assert t.toServer == [] == t.toClient;
  }

  // It fails: both go down to the children, and no difference is listed.
  lemma FailedVisit(c: Config, s: State)
    requires 2 <= c.pFactor && Idle(s) && s.client.stack != [] && s.server.stack != []
    requires s.client.stack[0].node.Some? && Contents(s.server.stack[0]) != {}
    requires !c.succeeds(Contents(s.client.stack[0]), Contents(s.server.stack[0]))
    ensures var cs, ss := s.client.stack, s.server.stack;
      Reaches(c, s, s.(client := s.client.(stack := c.Children(cs[0], 0) + cs[1..]),
                       server := s.server.(stack := c.Children(ss[0], 0) + ss[1..])), 7)
  {
    hide Reaches, Config.Children;
    var t := BothSync(c, s);
    t := Next(c, s, t, 4, false);
    t := Next(c, s, t, 5, true);
    t := Next(c, s, t, 6, true);
  }

  // The child an element falls into: the bin that holds it, the last child when
  // it lies beyond the other bins.
  lemma {:induction false} PositionBin(c: Config, x: int, beg: int, step: int, jj: nat)
    requires 2 <= c.pFactor && 1 <= step && jj < c.pFactor && beg + jj * step <= x
    ensures var i := c.Position(x, beg, step, jj);
      && jj <= i < c.pFactor && beg + i * step <= x && (i < c.pFactor - 1 ==> x < beg + (i + 1) * step)
    decreases c.pFactor - jj
  {
    if jj + 1 < c.pFactor && !(x < beg + (jj + 1) * step) {
      PositionBin(c, x, beg, step, jj + 1);
    }
  }

  // What a pair of visits must satisfy: their elements lie in the range, or
  // there is at most one element between them.
  predicate Small(a: set<nat>, b: set<nat>) {
    |a + b| <= 1
  }

  predicate InRange(a: set<nat>, beg: int, end: int) {
    forall x | x in a :: beg <= x < end
  }

  ghost predicate Matching(v: Visit, w: Visit) {
    && v.beg == w.beg && v.end == w.end
    && (Small(Contents(v), Contents(w)) || (InRange(Contents(v), v.beg, v.end) && InRange(Contents(w), v.beg, v.end)))
  }

  // How much work a pair of visits can still cause.
  function Measure(v: Visit, w: Visit): nat {
    if Small(Contents(v), Contents(w)) || v.end <= v.beg then 0 else v.end - v.beg
  }

  lemma SingletonCardinality(a: set<nat>, x: nat)
    requires a <= {x}
    ensures |a| <= 1
  {
    if a != {} {
      assert a == {x};
    }
  }

  lemma ChildBin(c: Config, a: set<nat>, beg: int, end: int, i: nat, x: nat)
    requires 2 <= c.pFactor && InRange(a, beg, end) && x in c.Child(a, beg, end, i)
    ensures var step := c.FillStep(beg, end);
      i < c.pFactor && beg + i * step <= x < end && (i < c.pFactor - 1 ==> x < beg + (i + 1) * step)
  {
    assert beg <= x < end;
    assert 1 <= c.FillStep(beg, end);
    PositionBin(c, x, beg, c.FillStep(beg, end), 0);
  }

  lemma WideStep(w: int, p: nat)
    requires 2 <= p <= w
    ensures 1 <= w / p < w && (p - 1) * (w / p) < w
  {
  }

  // A range narrower than the partition factor: each child holds at most the one
  // element its bin stands for, the last one nothing.
  lemma NarrowChild(c: Config, v: Visit, w: Visit, i: nat)
    requires 2 <= c.pFactor && i < c.pFactor && v.beg == w.beg && v.end == w.end
    requires v.beg < v.end && v.end - v.beg < c.pFactor
    requires InRange(Contents(v), v.beg, v.end) && InRange(Contents(w), v.beg, v.end)
    ensures Small(c.Child(Contents(v), v.beg, v.end, i), c.Child(Contents(w), v.beg, v.end, i))
  {
    hide Config.Position;
    var a, b := c.Child(Contents(v), v.beg, v.end, i), c.Child(Contents(w), v.beg, v.end, i);
    assert c.FillStep(v.beg, v.end) == 1;
    forall x: nat | x in a + b ensures x == v.beg + i {
      ChildBin(c, if x in a then Contents(v) else Contents(w), v.beg, v.end, i, x);
    }
    if a + b != {} {
      var x :| x in a + b;
      SingletonCardinality(a + b, x);
    }
  }

  // A wide range: the child's range holds its elements and is narrower.
  lemma WideChild(c: Config, a: set<nat>, beg: int, end: int, i: nat)
    requires 2 <= c.pFactor <= end - beg && i < c.pFactor && InRange(a, beg, end)
    ensures var step := (end - beg) / c.pFactor;
      var childEnd := if i == c.pFactor - 1 then end else beg + (i + 1) * step;
      InRange(c.Child(a, beg, end, i), beg + i * step, childEnd) && 0 < childEnd - (beg + i * step) < end - beg
  {
    hide Config.Position, Config.Child;
    var step := (end - beg) / c.pFactor;
    WideStep(end - beg, c.pFactor);
    assert c.FillStep(beg, end) == step;
    assert (i + 1) * step == i * step + step;
    forall x | x in c.Child(a, beg, end, i)
      ensures beg + i * step <= x < end && (i < c.pFactor - 1 ==> x < beg + (i + 1) * step)
    {
      ChildBin(c, a, beg, end, i, x);
    }
  }

  // The range and the contents of a child.
  lemma ChildVisit(c: Config, v: Visit, i: nat)
    requires 2 <= c.pFactor && i < c.pFactor && v.node.Some? && v.beg != v.end
    ensures var (s, step) := (c.Children(v, i), (v.end - v.beg) / c.pFactor);
      && s != [] && s[1..] == c.Children(v, i + 1)
      && s[0].beg == v.beg + i * step && s[0].end == (if i == c.pFactor - 1 then v.end else v.beg + (i + 1) * step)
      && Contents(s[0]) == c.Child(Contents(v), v.beg, v.end, i)
  {
  }

  // The children of matching visits match, and each pair causes less work than
  // its parents.
  lemma ChildrenMatch(c: Config, v: Visit, w: Visit, i: nat)
    requires 2 <= c.pFactor && i < c.pFactor && v.node.Some? && w.node.Some?
    requires Matching(v, w) && !Small(Contents(v), Contents(w))
    ensures v.beg == w.beg && v.end == w.end && v.beg < v.end && c.Children(v, i) != [] && c.Children(w, i) != []
    ensures Matching(c.Children(v, i)[0], c.Children(w, i)[0])
    ensures Measure(c.Children(v, i)[0], c.Children(w, i)[0]) < Measure(v, w)
  {
    hide Config.Position, Config.Child, Small, InRange, Config.Children;
    Wide(Contents(v), Contents(w), v.beg, v.end);
    ChildVisit(c, v, i);
    ChildVisit(c, w, i);
    if v.end - v.beg < c.pFactor {
      NarrowChild(c, v, w, i);
    } else {
      WideChild(c, Contents(v), v.beg, v.end, i);
      WideChild(c, Contents(w), v.beg, v.end, i);
    }
  }

  lemma Wide(a: set<nat>, b: set<nat>, beg: int, end: int)
    requires !Small(a, b) && InRange(a, beg, end) && InRange(b, beg, end)
    ensures beg < end
  {
  }

  // The elements that fall into child i or a later one.
  function Later(c: Config, v: Visit, i: nat): set<nat>
    requires 2 <= c.pFactor
  {
    set x | x in Contents(v) && i <= c.Position(x, v.beg, c.FillStep(v.beg, v.end), 0)
  }

  lemma LaterAll(c: Config, v: Visit)
    requires 2 <= c.pFactor
    ensures Later(c, v, 0) == Contents(v) && Later(c, v, c.pFactor) == {}
  {
  }

  lemma LaterSplits(c: Config, v: Visit, w: Visit, i: nat)
    requires 2 <= c.pFactor && v.beg == w.beg && v.end == w.end
    ensures var (a, b) := (c.Child(Contents(v), v.beg, v.end, i), c.Child(Contents(w), w.beg, w.end, i));
      multiset(Later(c, v, i) - Later(c, w, i)) == multiset(a - b) + multiset(Later(c, v, i + 1) - Later(c, w, i + 1))
  {
  }

  // Listing the difference at a child, then those at the later children, lists
  // them all.
  lemma ListedInTurn(c: Config, s: State, v: Visit, w: Visit, i: nat, cs: seq<Visit>, ss: seq<Visit>)
    requires 2 <= c.pFactor && v.beg == w.beg && v.end == w.end && s.client.stack != [] && s.server.stack != []
    ensures var (a, b) := (c.Child(Contents(v), v.beg, v.end, i), c.Child(Contents(w), w.beg, w.end, i));
      var t := Listed(s, s.client.stack[1..], s.server.stack[1..], a, b);
      Listed(t, cs, ss, Later(c, v, i + 1), Later(c, w, i + 1)) == Listed(s, cs, ss, Later(c, v, i), Later(c, w, i))
  {
    hide Config.Child, Later;
    LaterSplits(c, v, w, i);
    LaterSplits(c, w, v, i);
  }

  lemma NoChildren(c: Config, s: State, v: Visit, w: Visit, cs: seq<Visit>, ss: seq<Visit>)
    requires 2 <= c.pFactor && Idle(s) && v.node.Some? && w.node.Some?
    requires s.client.stack == c.Children(v, c.pFactor) + cs && s.server.stack == c.Children(w, c.pFactor) + ss
    ensures Reaches(c, s, Listed(s, cs, ss, Later(c, v, c.pFactor), Later(c, w, c.pFactor)), 0)
  {
    LaterAll(c, v);
    LaterAll(c, w);
    hide Step, Later;
    assert Listed(s, cs, ss, {}, {}) == s;
  }

  // The first of the remaining children: a visit that matches and causes less
  // work than its parent.
  lemma FirstChild(c: Config, s: State, v: Visit, w: Visit, i: nat, cs: seq<Visit>, ss: seq<Visit>)
    requires 2 <= c.pFactor && i < c.pFactor && v.node.Some? && w.node.Some?
    requires Matching(v, w) && !Small(Contents(v), Contents(w))
    requires s.client.stack == c.Children(v, i) + cs && s.server.stack == c.Children(w, i) + ss
    ensures s.client.stack != [] && s.server.stack != []
    ensures Matching(s.client.stack[0], s.server.stack[0])
    ensures Measure(s.client.stack[0], s.server.stack[0]) < Measure(v, w)
    ensures s.client.stack[1..] == c.Children(v, i + 1) + cs && s.server.stack[1..] == c.Children(w, i + 1) + ss
    ensures Contents(s.client.stack[0]) == c.Child(Contents(v), v.beg, v.end, i)
    ensures Contents(s.server.stack[0]) == c.Child(Contents(w), w.beg, w.end, i)
  {
    hide *;
    ChildrenMatch(c, v, w, i);
    ChildVisit(c, v, i);
    ChildVisit(c, w, i);
    StackHead(c.Children(v, i), cs);
    StackHead(c.Children(w, i), ss);
  }

  lemma StackHead(a: seq<Visit>, rest: seq<Visit>)
    requires a != []
    ensures a + rest != [] && (a + rest)[0] == a[0] && (a + rest)[1..] == a[1..] + rest
  {
  }

  // Whatever the ranges and the outcomes of the node synchronizations, a visit
  // ends and lists exactly the difference of the two nodes.
  lemma {:induction false} VisitEnds(c: Config, s: State) returns (n: nat)
    requires c.Valid() && Idle(s) && s.client.stack != [] && s.server.stack != []
    requires Matching(s.client.stack[0], s.server.stack[0])
    ensures Reaches(c, s, AfterFirst(s), n)
    decreases Measure(s.client.stack[0], s.server.stack[0]), c.pFactor + 1
  {
    hide Reaches, Matching, Config.Children, Config.Child, Later;
    var (cs, ss) := (s.client.stack, s.server.stack);
    var (v, w) := (cs[0], ss[0]);
    if v.node.None? && Contents(w) == {} {
      NothingToSend(c, s);
      n := 4;
    } else if v.node.None? {
      ClientHasNothing(c, s);
      n := 5;
    } else if Contents(w) == {} {
      ServerHasNothing(c, s);
      n := 5;
    } else if c.succeeds(Contents(v), Contents(w)) {
      SyncedVisit(c, s);
      n := 7;
    } else {
      var s' := s.(client := s.client.(stack := c.Children(v, 0) + cs[1..]),
                   server := s.server.(stack := c.Children(w, 0) + ss[1..]));
      FailedVisit(c, s);
      var m := ChildrenEnd(c, s', v, w, 0, cs[1..], ss[1..]);
      LaterAll(c, v);
      LaterAll(c, w);
      var t := Listed(s, cs[1..], ss[1..], Contents(v), Contents(w));
      ReachesTransitive(c, s, s', t, 7, m);
      n := 7 + m;
    }
  }

  lemma SameRange(c: Config, v: Visit, w: Visit)
    requires c.Valid() && Matching(v, w)
    ensures 2 <= c.pFactor && v.beg == w.beg && v.end == w.end
  {
  }

  lemma {:induction false} ChildrenEnd(c: Config, s: State, v: Visit, w: Visit, i: nat,
                                       cs: seq<Visit>, ss: seq<Visit>)
    returns (n: nat)
    requires c.Valid() && Idle(s) && i <= c.pFactor && v.node.Some? && w.node.Some?
    requires Matching(v, w) && !Small(Contents(v), Contents(w))
    requires s.client.stack == c.Children(v, i) + cs && s.server.stack == c.Children(w, i) + ss
    ensures Reaches(c, s, Listed(s, cs, ss, Later(c, v, i), Later(c, w, i)), n)
    decreases Measure(v, w), c.pFactor - i
  {
    hide *;
    SameRange(c, v, w);
    if i == c.pFactor {
      NoChildren(c, s, v, w, cs, ss);
      n := 0;
    } else {
      FirstChild(c, s, v, w, i, cs, ss);
      var m := VisitEnds(c, s);
      var t := AfterFirst(s);
      var k := ChildrenEnd(c, t, v, w, i + 1, cs, ss);
      ThenTheRest(c, s, v, w, i, cs, ss, m, k);
      n := m + k;
    }
  }

  lemma ThenTheRest(c: Config, s: State, v: Visit, w: Visit, i: nat, cs: seq<Visit>, ss: seq<Visit>, m: nat, k: nat)
    requires 2 <= c.pFactor && v.beg == w.beg && v.end == w.end && s.client.stack != [] && s.server.stack != []
    requires Contents(s.client.stack[0]) == c.Child(Contents(v), v.beg, v.end, i)
    requires Contents(s.server.stack[0]) == c.Child(Contents(w), w.beg, w.end, i)
    requires Reaches(c, s, AfterFirst(s), m)
    requires Reaches(c, AfterFirst(s), Listed(AfterFirst(s), cs, ss, Later(c, v, i + 1), Later(c, w, i + 1)), k)
    ensures Reaches(c, s, Listed(s, cs, ss, Later(c, v, i), Later(c, w, i)), m + k)
  {
    ListedInTurn(c, s, v, w, i, cs, ss);
    assert AfterFirst(s) == Listed(s, s.client.stack[1..], s.server.stack[1..],
                                   Contents(s.client.stack[0]), Contents(s.server.stack[0]));
    hide *;
    ReachesTransitive(c, s, AfterFirst(s), Listed(s, cs, ss, Later(c, v, i), Later(c, w, i)), m, k);
  }

  // The initial state: each root holds all elements and is missing when there
  // are none; the range is that of the hashes.
  function Start(a: set<nat>, b: set<nat>, dataMax: nat): State {
    State(Peer([Visit(Root(a), 0, dataMax)], Declaring, multiset{}, multiset{}),
          Peer([Visit(Root(b), 0, dataMax)], Declaring, multiset{}, multiset{}), [], [])
  }

  function Root(a: set<nat>): Option<set<nat>> {
    if a == {} then None else Some(a)
  }

  // Both peers are done, no message is left over, and each has listed the two
  // differences with no element twice.
  function Agreed(a: set<nat>, b: set<nat>): State {
    State(Peer([], Declaring, multiset(a - b), multiset(b - a)),
          Peer([], Declaring, multiset(b - a), multiset(a - b)), [], [])
  }

  // A peer declares that it has nothing exactly when it has no elements.
  lemma FirstMessages(c: Config, a: set<nat>, b: set<nat>, dataMax: nat)
    requires 2 <= c.pFactor
    ensures var s := Start(a, b, dataMax);
      && Step(c, s, true).Some? && Step(c, s, true).value.toServer == [if a == {} then NoInfo else SomeInfo]
      && Step(c, s, false).Some? && Step(c, s, false).value.toClient == [if b == {} then NoInfo else SomeInfo]
  {
  }

  // Every run from s has at most n steps, and stops exactly when it is at t.
  ghost predicate AllRunsEndAt(c: Config, s: State, t: State, n: nat)
    requires 2 <= c.pFactor
  {
    forall run | IsRun(c, run) && run[0] == s ::
      |run| <= n + 1 && (Stopped(c, run[|run| - 1]) <==> run[|run| - 1] == t)
  }

  lemma RootEnds(c: Config, a: set<nat>, b: set<nat>, dataMax: nat) returns (n: nat)
    requires c.Valid() && InRange(a, 0, dataMax) && InRange(b, 0, dataMax)
    ensures Reaches(c, Start(a, b, dataMax), Agreed(a, b), n)
  {
    hide Reaches, Small;
    var s := Start(a, b, dataMax);
    n := VisitEnds(c, s);
    assert AfterFirst(s) == Agreed(a, b);
  }

  lemma AgreedStops(c: Config, a: set<nat>, b: set<nat>)
    requires 2 <= c.pFactor
    ensures Stopped(c, Agreed(a, b))
  {
  }

  // Exactness and termination, for every pair of sets, every partition factor
  // and every interleaving of the peers' steps.
  lemma SyncIsExact(c: Config, a: set<nat>, b: set<nat>, dataMax: nat)
    requires c.Valid() && InRange(a, 0, dataMax) && InRange(b, 0, dataMax)
    ensures exists n: nat :: AllRunsEndAt(c, Start(a, b, dataMax), Agreed(a, b), n)
  {
    var (s, t) := (Start(a, b, dataMax), Agreed(a, b));
    var n := RootEnds(c, a, b, dataMax);
    AgreedStops(c, a, b);
    hide Reaches, Step, Stopped, Start, Agreed, IsRun, Config.Valid, InRange;
    forall run | IsRun(c, run) && run[0] == s
      ensures |run| <= n + 1 && (Stopped(c, run[|run| - 1]) <==> run[|run| - 1] == t)
    {
      RunEndsAt(c, run, t, n);
    }
    assert AllRunsEndAt(c, s, t, n);
  }

  lemma RunEndsAt(c: Config, run: seq<State>, t: State, n: nat)
    requires 2 <= c.pFactor && IsRun(c, run) && Reaches(c, run[0], t, n) && Stopped(c, t)
    ensures |run| <= n + 1 && (Stopped(c, run[|run| - 1]) <==> run[|run| - 1] == t)
  {
    hide Reaches, Step, Stopped;
    AllRunsConverge(c, run, t, n, |run| - 1);
    if Stopped(c, run[|run| - 1]) {
      StoppedThere(c, run[|run| - 1], t, n - (|run| - 1));
    }
  }

  lemma StoppedThere(c: Config, s: State, t: State, n: nat)
    requires 2 <= c.pFactor && Reaches(c, s, t, n) && Stopped(c, s)
    ensures s == t
  {
  }
}
