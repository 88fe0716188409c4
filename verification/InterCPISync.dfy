// The interactive, recursive synchronization: two peers walk the same tree of
// hash ranges, each with its own stack of pending visits, exchanging messages
// through two first-in first-out queues.
module InterCPISync {
  import opened Wrappers

  datatype Message =
    | NoInfo
    | SomeInfo
    | All(elements: set<nat>)
    | Sketch(elements: set<nat>)
    | NodeOk(deltaSelf: set<nat>, deltaOther: set<nat>)
    | NodeFail
    | OkFlag
    | FailFlag

  // A tree node to synchronize, over the range [beg, end) of hashes.
  datatype Visit = Visit(node: Option<set<nat>>, beg: int, end: int)

  // Where a peer is in its current visit.
  datatype Phase = Declaring | Declared | AwaitingAll | Syncing | AwaitingFlag

  // A peer: pending visits, the current one first, and what it has found, as
  // multisets since the order of the lists does not matter.
  datatype Peer = Peer(stack: seq<Visit>, phase: Phase, selfMinusOther: multiset<nat>, otherMinusSelf: multiset<nat>)

  datatype State = State(client: Peer, server: Peer, toServer: seq<Message>, toClient: seq<Message>)

  // What one action of a peer does: its new state, whether it took the message
  // at the head of its queue, and what it sends.
  datatype Action = Action(peer: Peer, consumed: bool, sent: seq<Message>)

  // The parameters both peers share. A node synchronization either fails or
  // finds the exact difference; it succeeds on differences up to maxDiff.
  datatype Config = Config(pFactor: nat, maxDiff: nat, succeeds: (set<nat>, set<nat>) -> bool) {
    ghost predicate Valid() {
      2 <= pFactor && 1 <= maxDiff && SucceedsOnFew()
    }

    ghost predicate SucceedsOnFew() {
      forall a: set<nat>, b: set<nat> :: |a - b| + |b - a| <= maxDiff ==> succeeds(a, b)
    }

    // The child that receives an element: the first bin from jj on that holds
    // it, the last child otherwise.
    function Position(x: int, beg: int, step: int, jj: nat): (i: nat)
      requires 2 <= pFactor
      ensures i < pFactor
      decreases pFactor - jj
    {
      if jj + 1 >= pFactor then pFactor - 1
      else if beg + jj * step <= x < beg + (jj + 1) * step then jj
      else Position(x, beg, step, jj + 1)
    }

    // The step that fills the children is at least one, also where the step that
    // bounds their ranges is zero.
    function FillStep(beg: int, end: int): (step: int)
      requires 2 <= pFactor
    {
      if (end - beg) / pFactor == 0 then 1 else (end - beg) / pFactor
    }

    function Child(a: set<nat>, beg: int, end: int, i: nat): set<nat>
      requires 2 <= pFactor
    {
      set x | x in a && Position(x, beg, FillStep(beg, end), 0) == i
    }

    // The visits of the children from number i on.
    function Children(v: Visit, i: nat): seq<Visit>
      requires 2 <= pFactor && v.node.Some?
      decreases pFactor - i
    {
      if i >= pFactor then []
      else
        var step := (v.end - v.beg) / pFactor;
        var node := if v.end == v.beg then None else Some(Child(v.node.value, v.beg, v.end, i));
        var end := if i == pFactor - 1 then v.end else v.beg + (i + 1) * step;
        [Visit(node, v.beg + i * step, end)] + Children(v, i + 1)
    }
  }

  lemma {:induction false} ChildRange(c: Config, v: Visit, i: nat, j: nat)
    requires 2 <= c.pFactor && v.node.Some? && i <= j < c.pFactor
    ensures var (cs, step) := (c.Children(v, i), (v.end - v.beg) / c.pFactor);
      && |cs| == c.pFactor - i && cs[j - i].beg == v.beg + j * step
      && cs[j - i].end == if j == c.pFactor - 1 then v.end else v.beg + (j + 1) * step
    decreases c.pFactor - i
  {
    if i < j {
      ChildRange(c, v, i + 1, j);
    } else if i + 1 < c.pFactor {
      ChildRange(c, v, i + 1, i + 1);
    }
  }

  // The children's ranges follow each other through the whole range; all but the last
  // have the same width, an even share rounded down, and the last is wider by less
  // than the number of children.
  lemma ChildShare(c: Config, v: Visit, j: nat)
    requires 2 <= c.pFactor && v.node.Some? && v.beg <= v.end && j < c.pFactor
    ensures var (cs, share) := (c.Children(v, 0), (v.end - v.beg) / c.pFactor);
      && |cs| == c.pFactor && cs[j].beg == (if j == 0 then v.beg else cs[j - 1].end)
      && (j < c.pFactor - 1 ==> cs[j].end - cs[j].beg == share)
      && (j == c.pFactor - 1 ==> cs[j].end == v.end && share <= cs[j].end - cs[j].beg < share + c.pFactor)
  {
    hide Config.Children;
    ChildRange(c, v, 0, j);
    Successor(j, (v.end - v.beg) / c.pFactor);
    if 0 < j {
      ChildRange(c, v, 0, j - 1);
    }
    Shares(c.pFactor, v.end - v.beg);
  }

  lemma Successor(j: nat, step: int)
    ensures (j + 1) * step == j * step + step
  {
  }

  lemma Shares(n: nat, w: nat)
    requires 2 <= n
    ensures var step := w / n;
      n * step <= w < n * (step + 1) && step <= w - (n - 1) * step < step + n
  {
    var (q, r) := (w / n, w % n);
    assert w == n * q + r && 0 <= r < n;
    assert n * (q + 1) == n * q + n && (n - 1) * q == n * q - q;
  }

  function Elements(s: seq<nat>): set<nat> {
    set x | x in s
  }

  // Fill the children of a node: each element is tried against the bins in turn
  // and goes to the last child when none holds it. An empty range leaves the
  // children missing.
  method CreateChildren(c: Config, elements: seq<nat>, beg: int, end: int) returns (nodes: array<Option<set<nat>>>)
    requires 2 <= c.pFactor
    ensures fresh(nodes) && nodes.Length == c.pFactor
    ensures forall i | 0 <= i < c.pFactor ::
      nodes[i] == c.Children(Visit(Some(Elements(elements)), beg, end), i)[0].node
  {
    var step := (end - beg) / c.pFactor;
    if step == 0 {
      step := 1;
    }
    nodes := new Option<set<nat>>[c.pFactor](_ => None);
    if end != beg {
      for ii := 0 to c.pFactor
        invariant forall i | 0 <= i < ii :: nodes[i] == Some(c.Child({}, beg, end, i))
      {
        nodes[ii] := Some({});
        assert c.Child({}, beg, end, ii) == {};
      }
      assert Elements(elements[..0]) == {};
      for e := 0 to |elements|
        invariant forall i | 0 <= i < c.pFactor ::
          nodes[i] == Some(c.Child(Elements(elements[..e]), beg, end, i))
      {
        var pos := FindBin(c, elements[e], beg, step);
        nodes[pos] := Some(nodes[pos].value + {elements[e]});
        assert Elements(elements[..e + 1]) == Elements(elements[..e]) + {elements[e]};
        forall i | 0 <= i < c.pFactor
          ensures nodes[i] == Some(c.Child(Elements(elements[..e + 1]), beg, end, i))
        {
          ChildGrows(c, Elements(elements[..e]), elements[e], beg, end, i);
        }
      }
      assert elements[..|elements|] == elements;
    }
  }

  lemma ChildGrows(c: Config, a: set<nat>, x: nat, beg: int, end: int, i: nat)
    requires 2 <= c.pFactor
    ensures var into := i == c.Position(x, beg, c.FillStep(beg, end), 0);
      c.Child(a + {x}, beg, end, i) == if into then c.Child(a, beg, end, i) + {x} else c.Child(a, beg, end, i)
  {
  }

  method FindBin(c: Config, x: int, beg: int, step: int) returns (pos: nat)
    requires 2 <= c.pFactor
    ensures pos == c.Position(x, beg, step, 0)
  {
    pos := c.pFactor - 1;
    var jj := 0;
    while jj < c.pFactor - 1
      invariant 0 <= jj <= c.pFactor - 1
      invariant c.Position(x, beg, step, 0) == c.Position(x, beg, step, jj)
    {
      if beg + jj * step <= x < beg + (jj + 1) * step {
        return jj;
      }
      jj := jj + 1;
    }
  }

  function Pop(p: Peer): Peer
    requires p.stack != []
  {
    p.(stack := p.stack[1..], phase := Declaring)
  }

  function Descend(c: Config, p: Peer): Peer
    requires 2 <= c.pFactor && p.stack != [] && p.stack[0].node.Some?
  {
    p.(stack := c.Children(p.stack[0], 0) + p.stack[1..], phase := Declaring)
  }

  // The client's next action, if it can act. Only a missing node counts as
  // having nothing.
  function ClientAct(c: Config, p: Peer, head: Option<Message>): Option<Action>
    requires 2 <= c.pFactor
  {
    if p.stack == [] then None
    else
      var node := p.stack[0].node;
      if p.phase == Declaring then
        Some(Action(p.(phase := Declared), false, [if node.None? then NoInfo else SomeInfo]))
      else if head.None? then None
      else
        var m := head.value;
        if p.phase == Declared then
          if m != NoInfo && m != SomeInfo then None
          else if node.None? then
            Some(Action(if m == NoInfo then Pop(p) else p.(phase := AwaitingAll), true, []))
          else if m == NoInfo then
            Some(Action(Pop(p).(selfMinusOther := p.selfMinusOther + multiset(node.value)), true, [All(node.value)]))
          else
            Some(Action(p.(phase := Syncing), true, [Sketch(node.value)]))
        else if p.phase == AwaitingAll then
          if m.All? then
            Some(Action(Pop(p).(otherMinusSelf := p.otherMinusSelf + multiset(m.elements)), true, []))
          else None
        else if p.phase == Syncing then
          if m.NodeOk? then
            Some(Action(p.(phase := AwaitingFlag,
                           otherMinusSelf := p.otherMinusSelf + multiset(m.deltaSelf),
                           selfMinusOther := p.selfMinusOther + multiset(m.deltaOther)), true, []))
          else if m.NodeFail? then Some(Action(p.(phase := AwaitingFlag), true, []))
          else None
        else if m.OkFlag? then Some(Action(Pop(p), true, []))
        else if m.FailFlag? && node.Some? then Some(Action(Descend(c, p), true, []))
        else None
  }

  // The server's next action. A missing node and an empty one both count as
  // having nothing.
  function ServerAct(c: Config, p: Peer, head: Option<Message>): Option<Action>
    requires 2 <= c.pFactor
  {
    if p.stack == [] then None
    else
      var node := p.stack[0].node;
      var empty := node.None? || node.value == {};
      if p.phase == Declaring then
        Some(Action(p.(phase := Declared), false, [if empty then NoInfo else SomeInfo]))
      else if head.None? then None
      else
        var m := head.value;
        if p.phase == Declared then
          if m != NoInfo && m != SomeInfo then None
          else if empty then
            Some(Action(if m == NoInfo then Pop(p) else p.(phase := AwaitingAll), true, []))
          else if m == NoInfo then
            Some(Action(Pop(p).(selfMinusOther := p.selfMinusOther + multiset(node.value)), true, [All(node.value)]))
          else
            Some(Action(p.(phase := Syncing), true, []))
        else if p.phase == AwaitingAll then
          if m.All? then
            Some(Action(Pop(p).(otherMinusSelf := p.otherMinusSelf + multiset(m.elements)), true, []))
          else None
        else if p.phase == Syncing && m.Sketch? && node.Some? then
          var a, b := m.elements, node.value;
          if c.succeeds(a, b) then
            Some(Action(Pop(p).(selfMinusOther := p.selfMinusOther + multiset(b - a),
                                otherMinusSelf := p.otherMinusSelf + multiset(a - b)),
                        true, [NodeOk(b - a, a - b), OkFlag]))
          else
            Some(Action(Descend(c, p), true, [NodeFail, FailFlag]))
        else None
  }

  function Head(q: seq<Message>): Option<Message> {
    if q == [] then None else Some(q[0])
  }

  function Rest(q: seq<Message>, consumed: bool): seq<Message> {
    if consumed && q != [] then q[1..] else q
  }

  // One step of the whole system, by the client or by the server.
  function Step(c: Config, s: State, byClient: bool): Option<State>
    requires 2 <= c.pFactor
  {
    if byClient then
      var act := ClientAct(c, s.client, Head(s.toClient));
      if act.None? then None
      else Some(State(act.value.peer, s.server, s.toServer + act.value.sent, Rest(s.toClient, act.value.consumed)))
    else
      var act := ServerAct(c, s.server, Head(s.toServer));
      if act.None? then None
      else Some(State(s.client, act.value.peer, Rest(s.toServer, act.value.consumed), s.toClient + act.value.sent))
  }

  // Steps of the two peers commute: neither can disable or change the other's.
  lemma StepsCommute(c: Config, s: State)
    requires 2 <= c.pFactor && Step(c, s, true).Some? && Step(c, s, false).Some?
    ensures var a, b := Step(c, s, true).value, Step(c, s, false).value;
      Step(c, a, false).Some? && Step(c, a, false) == Step(c, b, true)
  {
    var ca, sa := ClientAct(c, s.client, Head(s.toClient)), ServerAct(c, s.server, Head(s.toServer));
    ClientNeeds(c, s.client, Head(s.toClient), Head(s.toClient + sa.value.sent));
    ServerNeeds(c, s.server, Head(s.toServer), Head(s.toServer + ca.value.sent));
    hide ClientAct, ServerAct;
    RestAppend(s.toClient, ca.value.consumed, sa.value.sent);
    RestAppend(s.toServer, sa.value.consumed, ca.value.sent);
  }

  // An action that can be taken does not depend on later messages, and only
  // takes a message that is there.
  lemma ClientNeeds(c: Config, p: Peer, h: Option<Message>, h': Option<Message>)
    requires 2 <= c.pFactor && ClientAct(c, p, h).Some? && (h.Some? ==> h' == h)
    ensures ClientAct(c, p, h') == ClientAct(c, p, h)
    ensures ClientAct(c, p, h).value.consumed ==> h.Some?
  {
  }

  lemma ServerNeeds(c: Config, p: Peer, h: Option<Message>, h': Option<Message>)
    requires 2 <= c.pFactor && ServerAct(c, p, h).Some? && (h.Some? ==> h' == h)
    ensures ServerAct(c, p, h') == ServerAct(c, p, h)
    ensures ServerAct(c, p, h).value.consumed ==> h.Some?
  {
  }

  lemma RestAppend(q: seq<Message>, consumed: bool, sent: seq<Message>)
    requires consumed ==> q != []
    ensures Rest(q + sent, consumed) == Rest(q, consumed) + sent
  {
  }

  // t is reached from s in n steps, in some order of the peers.
  ghost predicate Reaches(c: Config, s: State, t: State, n: nat)
    requires 2 <= c.pFactor
    decreases n
  {
    if n == 0 then s == t
    else exists byClient :: Step(c, s, byClient).Some? && Reaches(c, Step(c, s, byClient).value, t, n - 1)
  }

  predicate Stopped(c: Config, s: State)
    requires 2 <= c.pFactor
  {
    Step(c, s, true).None? && Step(c, s, false).None?
  }

  // Whatever step is taken, a stopping state that can be reached is still
  // reached, in one step less.
  lemma {:induction false} OrderIrrelevant(c: Config, s: State, t: State, n: nat, byClient: bool)
    requires 2 <= c.pFactor && Reaches(c, s, t, n) && Stopped(c, t) && Step(c, s, byClient).Some?
    ensures 0 < n && Reaches(c, Step(c, s, byClient).value, t, n - 1)
    decreases n
  {
    hide Step;
    assert n != 0;
    var other :| Step(c, s, other).Some? && Reaches(c, Step(c, s, other).value, t, n - 1);
    if other != byClient {
      StepsCommute(c, s);
      var a, b := Step(c, s, other).value, Step(c, s, byClient).value;
      OrderIrrelevant(c, a, t, n - 1, byClient);
      assert Step(c, b, other) == Step(c, a, byClient);
      assert Reaches(c, b, t, n - 1);
    }
  }

  ghost predicate IsRun(c: Config, run: seq<State>)
    requires 2 <= c.pFactor
  {
    run != [] && forall i :: 0 < i < |run| ==> Follows(c, run[i - 1], run[i])
  }

  ghost predicate Follows(c: Config, s: State, s': State)
    requires 2 <= c.pFactor
  {
    exists byClient :: Step(c, s, byClient) == Some(s')
  }

  // If one order of steps leads to a stopping state, every run is a prefix of a
  // run to that state: none is longer, and none stops anywhere else.
  lemma {:induction false} AllRunsConverge(c: Config, run: seq<State>, t: State, n: nat, i: nat)
    requires 2 <= c.pFactor && IsRun(c, run) && Reaches(c, run[0], t, n) && Stopped(c, t) && i < |run|
    ensures i <= n && Reaches(c, run[i], t, n - i)
  {
    hide Step, Stopped, Reaches;
    if i > 0 {
      AllRunsConverge(c, run, t, n, i - 1);
      assert Follows(c, run[i - 1], run[i]);
      var byClient :| Step(c, run[i - 1], byClient) == Some(run[i]);
      OrderIrrelevant(c, run[i - 1], t, n - (i - 1), byClient);
    }
  }
}
