// Set reconciliation with one exchange of tables: the client sends its table,
// the server subtracts its own, lists the difference and sends both parts back.
module IBLTSyncs {
  import opened SignedSketch
  import opened GenIBLTs
  import opened Lists

  // A connection as two first-in first-out queues.
  datatype Message = Cells(table: Table) | Elements(list: seq<nat>)

  class Connection {
    var toServer: seq<Message>
    var toClient: seq<Message>

    constructor ()
      ensures toServer == toClient == []
    {
      toServer, toClient := [], [];
    }
  }

  class IBLTSync {
    const myIBLT: GenIBLT
    var elements: set<nat>

    // The table is the sketch of the elements.
    ghost predicate Valid()
      reads this, myIBLT.hashTable
    {
      && myIBLT.Valid()
      && Sketches(myIBLT.h, myIBLT.hashTable[..], Inserted(elements))
      && ValuesMatch(myIBLT.hashTable[..])
    }

    constructor (h: Hasher)
      requires h.Valid()
      ensures Valid() && elements == {} && myIBLT.h == h && fresh(myIBLT.hashTable)
    {
      myIBLT := new GenIBLT(h);
      elements := {};
      new;
      assert Inserted({}) == {};
    }

    method AddElem(datum: nat)
      requires Valid() && datum !in elements
      modifies this, myIBLT.hashTable
      ensures Valid() && elements == old(elements) + {datum}
    {
      hide Sketches, Bumped;
      ghost var t := myIBLT.hashTable[..];
      myIBLT.InsertSigned(1, datum, datum);
      BumpedAdds(myIBLT.h, t, myIBLT.hashTable[..], Signed(datum, 1), datum, Inserted(elements));
      assert Inserted(elements + {datum}) == Inserted(elements) + {Signed(datum, 1)};
      elements := elements + {datum};
    }

    method DelElem(datum: nat)
      requires Valid() && datum in elements
      modifies this, myIBLT.hashTable
      ensures Valid() && elements == old(elements) - {datum}
    {
      hide Sketches, Bumped;
      ghost var t := myIBLT.hashTable[..];
      myIBLT.InsertSigned(-1, datum, datum);
      BumpedRemoves(myIBLT.h, t, myIBLT.hashTable[..], Signed(datum, 1), datum, Inserted(elements));
      assert Inserted(elements - {datum}) == Inserted(elements) - {Signed(datum, 1)};
      elements := elements - {datum};
    }

    method SendTable(conn: Connection)
      modifies conn
      ensures conn.toServer == old(conn.toServer) + [Cells(myIBLT.hashTable[..])]
      ensures conn.toClient == old(conn.toClient)
    {
      conn.toServer := conn.toServer + [Cells(myIBLT.hashTable[..])];
    }

    // The server's side, on the table of a client holding a.
    method SyncServer(conn: Connection, ghost a: set<nat>)
      returns (success: bool, selfMinusOther: seq<nat>, otherMinusSelf: seq<nat>, ghost left: set<Signed>)
      requires Valid() && myIBLT.h.Faithful(Difference(a, elements))
      requires conn.toServer != [] && conn.toServer[0].Cells?
      requires Sketches(myIBLT.h, conn.toServer[0].table, Inserted(a)) && ValuesMatch(conn.toServer[0].table)
      modifies conn
      ensures conn.toServer == old(conn.toServer)[1..]
      ensures conn.toClient == old(conn.toClient) + [Elements(selfMinusOther), Elements(otherMinusSelf)]
      ensures myIBLT.h.IsCore(left, Difference(a, elements))
      ensures NoRepeats(selfMinusOther) && ToSet(selfMinusOther) == elements - a - KeysOf(left, -1)
      ensures NoRepeats(otherMinusSelf) && ToSet(otherMinusSelf) == a - elements - KeysOf(left, 1)
      ensures success <==> ToSet(selfMinusOther) == elements - a && ToSet(otherMinusSelf) == a - elements
      ensures success <==> myIBLT.h.IsCore({}, Difference(a, elements))
    {
      var theirs := new GenIBLT(myIBLT.h);
      theirs.Load(conn.toServer[0].table);
      conn.toServer := conn.toServer[1..];
      ghost var t1, t2 := theirs.hashTable[..], myIBLT.hashTable[..];
      theirs.Subtract(myIBLT);
      MinusSketches(myIBLT.h, t1, t2, a, elements);
      MinusMatch(t1, t2);
      MatchCarries(myIBLT.h, theirs.hashTable[..], Difference(a, elements));
      var positive, negative;
      success, positive, negative, left := theirs.ListEntries(Difference(a, elements), k => k);
      ListedParts(a, elements, left);
      if myIBLT.h.IsCore({}, Difference(a, elements)) {
        CoreUnique(myIBLT.h, Difference(a, elements), left, {});
      }
      otherMinusSelf := seq(|positive|, i requires 0 <= i < |positive| => positive[i].1);
      selfMinusOther := seq(|negative|, i requires 0 <= i < |negative| => negative[i].0);
      EnumeratedSet(positive, otherMinusSelf, KeysOf(Difference(a, elements) - left, 1));
      EnumeratedSet(negative, selfMinusOther, KeysOf(Difference(a, elements) - left, -1));
      conn.toClient := conn.toClient + [Elements(selfMinusOther)];
      conn.toClient := conn.toClient + [Elements(otherMinusSelf)];
    }

    // The client's side after its table was answered: the server's differences
    // arrive with the roles swapped.
    method ReceiveDifferences(conn: Connection) returns (selfMinusOther: seq<nat>, otherMinusSelf: seq<nat>)
      requires |conn.toClient| >= 2 && conn.toClient[0].Elements? && conn.toClient[1].Elements?
      modifies conn
      ensures conn.toClient == old(conn.toClient)[2..] && conn.toServer == old(conn.toServer)
      ensures otherMinusSelf == old(conn.toClient)[0].list && selfMinusOther == old(conn.toClient)[1].list
    {
      otherMinusSelf := conn.toClient[0].list;
      selfMinusOther := conn.toClient[1].list;
      conn.toClient := conn.toClient[2..];
    }

    method AddAll(list: seq<nat>)
      requires Valid() && NoRepeats(list) && ToSet(list) !! elements
      modifies this, myIBLT.hashTable
      ensures Valid() && elements == old(elements) + ToSet(list)
    {
      for i := 0 to |list|
        invariant Valid() && elements == old(elements) + ToSet(list[..i])
      {
        assert list[..i + 1] == list[..i] + [list[i]];
        assert list[i] in ToSet(list);
        AddElem(list[i]);
      }
      assert list[..|list|] == list;
    }
  }

  lemma MinusMatch(t1: Table, t2: Table)
    requires |t1| == |t2| && ValuesMatch(t1) && ValuesMatch(t2)
    ensures ValuesMatch(Minus(t1, t2))
  {
  }

  lemma ListedParts(a: set<nat>, b: set<nat>, left: set<Signed>)
    requires left <= Difference(a, b)
    ensures var d := Difference(a, b) - left;
      && KeysOf(d, 1) == a - b - KeysOf(left, 1) && KeysOf(d, -1) == b - a - KeysOf(left, -1)
      && (left == {} <==> KeysOf(d, 1) == a - b && KeysOf(d, -1) == b - a)
  {
    hide Inserted, Erased;
    forall k ensures k in KeysOf(Difference(a, b) - left, 1) <==> k in a - b - KeysOf(left, 1) {
      DifferenceKey(a, b, k);
      SignedKey(left, k, 1);
      SignedKey(Difference(a, b) - left, k, 1);
    }
    forall k ensures k in KeysOf(Difference(a, b) - left, -1) <==> k in b - a - KeysOf(left, -1) {
      DifferenceKey(a, b, k);
      SignedKey(left, k, -1);
      SignedKey(Difference(a, b) - left, k, -1);
    }
    if left != {} {
      var x :| x in left;
      DifferenceSign(a, b, x);
      DifferenceKey(a, b, x.key);
      SignedKey(left, x.key, x.sign);
    }
  }

  lemma SignedKey(s: set<Signed>, k: nat, sign: int)
    ensures k in KeysOf(s, sign) <==> Signed(k, sign) in s
  {
  }

  lemma DifferenceKey(a: set<nat>, b: set<nat>, k: nat)
    ensures Signed(k, 1) in Difference(a, b) <==> k in a - b
    ensures Signed(k, -1) in Difference(a, b) <==> k in b - a
  {
  }

  // After each side adds what it was sent, the sets differ by what was left.
  lemma RestDiffers(a: set<nat>, b: set<nat>, left: set<Signed>)
    requires left <= Difference(a, b)
    ensures Difference(a + (b - a - KeysOf(left, -1)), b + (a - b - KeysOf(left, 1))) == left
  {
    var (a', b') := (a + (b - a - KeysOf(left, -1)), b + (a - b - KeysOf(left, 1)));
    forall x: Signed ensures x in Difference(a', b') <==> x in left {
      DifferenceSign(a', b', x);
      DifferenceSign(a, b, x);
      DifferenceKey(a', b', x.key);
      DifferenceKey(a, b, x.key);
      SignedKey(left, x.key, 1);
      SignedKey(left, x.key, -1);
    }
  }

  lemma DifferenceSign(a: set<nat>, b: set<nat>, x: Signed)
    ensures x in Difference(a, b) ==> x.sign == 1 || x.sign == -1
  {
  }

  lemma EnumeratedSet(pairs: seq<(nat, nat)>, list: seq<nat>, p: set<nat>)
    requires Enumerates(pairs, p)
    requires |list| == |pairs| && forall i :: 0 <= i < |list| ==> list[i] == pairs[i].0
    ensures NoRepeats(list) && ToSet(list) == p
  {
  }

  lemma CoreWithin(h: Hasher, left: set<Signed>, d: set<Signed>)
    requires h.Valid() && h.IsCore(left, d)
    ensures left <= d
  {
  }

  // A whole synchronization of two peers, each then adding what it was missing.
  method Synchronize(client: IBLTSync, server: IBLTSync) returns (clientOk: bool, serverOk: bool)
    requires client.Valid() && server.Valid() && client != server && client.myIBLT.hashTable != server.myIBLT.hashTable
    requires client.myIBLT.h.size == server.myIBLT.h.size ==> client.myIBLT.h == server.myIBLT.h
    requires client.myIBLT.h.Faithful(Difference(client.elements, server.elements))
    modifies client, server, client.myIBLT.hashTable, server.myIBLT.hashTable
    ensures client.Valid() && server.Valid()
    ensures serverOk ==> client.elements == server.elements == old(client.elements) + old(server.elements)
    ensures old(client.elements) <= client.elements <= old(client.elements) + old(server.elements)
    ensures old(server.elements) <= server.elements <= old(client.elements) + old(server.elements)
    ensures clientOk <==> client.myIBLT.h.size == server.myIBLT.h.size
    ensures clientOk ==>
      client.myIBLT.h.IsCore(Difference(client.elements, server.elements),
                             old(Difference(client.elements, server.elements)))
    ensures !clientOk ==> client.elements == old(client.elements) && server.elements == old(server.elements)
    ensures serverOk <==>
      clientOk && client.myIBLT.h.IsCore({}, old(Difference(client.elements, server.elements)))
  {
    // the parameter handshake
    if client.myIBLT.h.size != server.myIBLT.h.size {
      return false, false;
    }
    hide Sketches, ValuesMatch, Hasher.Faithful, Hasher.IsCore, NoRepeats, Difference, GenIBLT.Valid;
    var conn := new Connection();
    client.SendTable(conn);
    var smo, oms;
    ghost var left;
    ghost var (a, b) := (client.elements, server.elements);
    serverOk, smo, oms, left := server.SyncServer(conn, client.elements);
    clientOk := true;
    var _, clientOms := client.ReceiveDifferences(conn);
    client.AddAll(clientOms);
    server.AddAll(oms);
    CoreWithin(server.myIBLT.h, left, Difference(a, b));
    RestDiffers(a, b, left);
  }
}
