/**
 The operations of mp5/src/port_register.c in place: the reserve array, the records on the
 heap, and the sweep that deletes nodes of the hash table while it walks their chain.
 */
module PortRegister {
  import opened Chains
  import opened Options
  import opened HashTable
  import opened NameHash
  import opened PortRegistry

  class Record {
    const name: seq<Byte>
    ghost const code: int
    var port: int

    constructor (name: seq<Byte>, port: int)
      ensures this.name == name && this.code == HashCode(name) && this.port == port
    {
      this.name, this.code, this.port := name, HashCode(name), port;
    }
  }

  ghost function RecordsIn(t: Table<Record>): set<Record> {
    set b, k | 0 <= b < |t| && 0 <= k < |t[b]| :: t[b][k].value
  }

  /** The record of a code is the one made for it, and holds the port of the entry. */
  ghost predicate Holds(r: Entry<Record>, e: Entry<int>)
    reads r.value
  {
    r.code == e.code == r.value.code && r.value.port == e.value
  }

  ghost predicate Matches(t: Table<Record>, ports: Table<int>)
    reads RecordsIn(t)
  {
    && |t| == |ports|
    && (forall b :: 0 <= b < |t| ==> |t[b]| == |ports[b]|)
    && (forall b, k :: 0 <= b < |t| && 0 <= k < |t[b]| ==> Holds(t[b][k], ports[b][k]))
  }

  /** The records and their ports answer the same codes. */
  lemma {:induction false} SameLookup(t: Table<Record>, ports: Table<int>, code: int)
    requires 0 < |ports| && Matches(t, ports)
    ensures 0 < |t|
    ensures var r := Get(t, code);
            Get(ports, code) == if r.Some? then Some(r.value.port) else None
    ensures Place(t, code) == Place(ports, code)
  {
    IndexIs(t[Position(code, |t|)], code, Place(ports, code));
  }

  lemma {:induction false} SameCodes(chains: seq<seq<HashNode<Record>>>, ports: Table<int>)
    requires Matches(TableOf(chains), ports)
    ensures |chains| == |ports|
    ensures forall b :: 0 <= b < |chains| ==> |chains[b]| == |ports[b]|
    ensures forall b, k :: 0 <= b < |chains| && 0 <= k < |chains[b]| ==> chains[b][k].hashCode == ports[b][k].code
  {
    var t := TableOf(chains);
    forall b, k | 0 <= b < |chains| && 0 <= k < |chains[b]|
      ensures |chains[b]| == |ports[b]| && chains[b][k].hashCode == ports[b][k].code
    {
      assert |t[b]| == |ports[b]| && Holds(t[b][k], ports[b][k]);
    }
    assert forall b :: 0 <= b < |chains| ==> |t[b]| == |chains[b]|;
  }

  lemma {:induction false} MatchesPut(t: Table<Record>, ports: Table<int>, code: int, r: Record)
    requires 0 < |ports| && Matches(t, ports) && r.code == code && Get(ports, code) == None
    ensures 0 < |t|
    ensures Matches(Put(t, code, r).0, Put(ports, code, r.port).0)
  {
    SameLookup(t, ports, code);
  }

  lemma {:induction false} RecordsOfPut(t: Table<Record>, code: int, r: Record)
    requires 0 < |t|
    ensures RecordsIn(Put(t, code, r).0) <= RecordsIn(t) + {r}
  {
  }

  lemma {:induction false} MatchesDelete(t: Table<Record>, ports: Table<int>, code: int)
    requires 0 < |ports| && Matches(t, ports)
    ensures 0 < |t| == |ports| == |Delete(ports, code).0| && Matches(Delete(t, code).0, Delete(ports, code).0)
  {
    SameLookup(t, ports, code);
  }

  lemma {:induction false} RecordsOfDelete(t: Table<Record>, code: int)
    requires 0 < |t|
    ensures RecordsIn(Delete(t, code).0) <= RecordsIn(t)
  {
  }

  ghost predicate OtherChainsKept<V>(before: seq<seq<HashNode<V>>>, after: seq<seq<HashNode<V>>>, pos: nat) {
    |after| == |before| && forall b :: 0 <= b < |before| && b != pos ==> after[b] == before[b]
  }

  /** The global `record_hash` with the records it holds; `ports` is what it stands for. */
  class Bookings {
    const records: Hash<Record>
    ghost var ports: Table<int>
    ghost var Repr: set<object>

    ghost predicate Valid()
      reads this, Repr
      ensures Valid() ==> this in Repr
    {
      && {this, records} <= Repr && records.node in Repr && records.nodes <= Repr
      && RecordsIn(records.View()) <= Repr
      && records.Valid() && records.n == TABLE_SIZE
      && Matches(records.View(), ports)
    }

    constructor ()
      ensures Valid() && fresh(Repr)
      ensures ports == seq(TABLE_SIZE, _ => [])
    {
      records := new Hash();
      new;
      var done := records.Init(TABLE_SIZE);
      ports := seq(TABLE_SIZE, _ => []);
      Repr := {this, records, records.node};
    }

    ghost predicate IsRecordOf(r: Record, code: int)
      reads this, Repr
    {
      Valid() && Get(records.View(), code) == Some(r)
    }

    method Find(code: int) returns (r: Option<Record>)
      requires Valid()
      ensures 0 < |ports| && Get(ports, code) == if r.Some? then Some(r.value.port) else None
      ensures r.Some? ==> r.value in Repr && r.value.code == code && IsRecordOf(r.value, code)
    {
      SameLookup(records.View(), ports, code);
      r := records.Get(code);
    }

    method Add(name: seq<Byte>, port: int)
      requires Valid() && 0 < |ports| && Get(ports, HashCode(name)) == None
      modifies Repr
      ensures Valid() && fresh(Repr - old(Repr))
      ensures ports == Put(old(ports), HashCode(name), port).0
    {
      var code := HashCode(name);
      var added := new Record(name, port);
      Link(added, code);
    }

    /** `put_into_hash` of a new record. */
    method Link(added: Record, code: int)
      requires Valid() && added !in Repr && added.code == code && 0 < |ports| && Get(ports, code) == None
      modifies Repr
      ensures Valid() && fresh(Repr - old(Repr) - {added})
      ensures ports == Put(old(ports), code, added.port).0
    {
      hide Put, Get, Position, WellPlaced, IndexOf;
      ghost var t := records.View();
      SameLookup(t, ports, code);
      var done := records.Put(added, code);
      assert Matches(t, ports);
      MatchesPut(t, ports, code, added);
      RecordsOfPut(t, code, added);
      ports := Put(ports, code, added.port).0;
      Repr := Repr + {added} + records.nodes;
    }

    method Move(r: Record, port: int)
      requires IsRecordOf(r, r.code)
      modifies Repr
      ensures Valid() && fresh(Repr - old(Repr))
      ensures 0 < |ports| && Get(old(ports), r.code).Some? && ports == Replace(old(ports), r.code, port)
    {
      SameLookup(records.View(), ports, r.code);
      ghost var t := records.View();
      ports := Replace(ports, r.code, port);
      r.port := port;
      forall b, k | 0 <= b < |t| && 0 <= k < |t[b]| ensures Holds(t[b][k], ports[b][k]) {
        if t[b][k].value == r {
          assert b == Position(r.code, |t|) && k == Place(t, r.code);
        }
      }
    }

    /** `del_from_hash` on the records: no record changes, and one `next` pointer at most. */
    method Remove(code: int) returns (r: Option<Record>)
      requires Valid()
      modifies Repr
      ensures Valid() && Repr == old(Repr) && records.nodes == old(records.nodes) && records.node == old(records.node)
      ensures 0 < |ports| && ports == Delete(old(ports), code).0
      ensures forall o: Record :: o in Repr ==> o.port == old(o.port)
      ensures OtherChainsKept(old(records.chains), records.chains, Position(code, |ports|))
      ensures var chain := old(ports)[Position(code, |ports|)];
              var k := Place(old(ports), code);
              forall m :: m in records.nodes && m.next != old(m.next) ==>
                0 < k < |chain| && m.hashCode == chain[k - 1].code
    {
      hide Delete, Get, Place, Position, WellPlaced, Unlink, Matches, RecordsIn, TableOf;
      ghost var t := records.View();
      SameCodes(records.chains, ports);
      SameLookup(t, ports, code);
      MatchesDelete(t, ports, code);
      RecordsOfDelete(t, code);
      ports := Delete(ports, code).0;
      r := records.Del(code);
    }

    lemma {:induction false} NodesOnce()
      requires Valid()
      ensures |records.chains| == TABLE_SIZE
      ensures var nodes := AllNodes(records.chains); forall i, j :: 0 <= i < j < |nodes| ==> nodes[i] != nodes[j]
    {
      AllNodesDistinct(records.chains, TABLE_SIZE);
      assert records.chains[..TABLE_SIZE] == records.chains;
    }

    /** What a walk along bucket `b` finds, before anything is removed. */
    lemma {:induction false} BucketFacts(b: nat)
      requires Valid() && b < TABLE_SIZE
      ensures |ports| == TABLE_SIZE == |records.chains| && records.node != null && records.node.Length == TABLE_SIZE
      ensures var chain := records.chains[b];
              && |chain| == |ports[b]| && records.node[b] == NodeAt(chain, 0)
              && forall k :: 0 <= k < |chain| ==>
                   && chain[k] in records.nodes && chain[k].next == NodeAt(chain, k + 1)
                   && chain[k].hashCode == ports[b][k].code
                   && chain[k].contain in Repr && chain[k].contain.port == ports[b][k].value
    {
      var t := records.View();
      forall k | 0 <= k < |t[b]|
        ensures Holds(t[b][k], ports[b][k]) && t[b][k].value in Repr
      {
        assert t[b][k].value in RecordsIn(t);
      }
    }
  }

  class PortRegister {
    const bookings: Bookings
    const reserve: array<int>

    ghost function View(): Registry
      reads this, bookings, reserve
    {
      Registry(bookings.ports, reserve[..])
    }

    ghost predicate Valid()
      reads this, reserve, bookings, bookings.Repr
    {
      bookings.Valid() && reserve !in bookings.Repr && RegInv(View())
    }

    /** The tables as `main` sets them up: all zero, then one check of the reserve words. */
    constructor (bound: set<int>)
      ensures Valid() && View() == InitialRegistry(bound)
      ensures fresh(bookings.Repr) && fresh(reserve)
    {
      bookings := new Bookings();
      reserve := new int[PORT_RESERVE_SIZE](_ => 0);
      new;
      CheckPortReserve(bound);
    }

    /** `check_port_reserve`: each word becomes 1 if its port cannot be bound, else 0. */
    method CheckPortReserve(bound: set<int>)
      requires reserve.Length == PORT_RESERVE_SIZE
      modifies reserve
      ensures reserve[..] == ReserveOf(bound)
      ensures reserve.Length == 512 && forall i :: 0 <= i < 512 ==> reserve[i] == if 2501 + i in bound then 1 else 0
    {
      for i := 0 to PORT_RESERVE_SIZE
        invariant forall j :: 0 <= j < i ==> reserve[j] == if PortOf(j) in bound then 1 else 0
      {
        var state := if i + DEFAULT_REGISTER_PORT + 1 in bound then 1 else 0;
        if state != reserve[i] {
          reserve[i] := state;
        }
      }
    }

    /** `get_next_port`. */
    method GetNextPort() returns (port: int)
      requires reserve.Length == PORT_RESERVE_SIZE
      modifies reserve
      ensures var i := FirstFree(old(reserve[..]));
              if i == PORT_RESERVE_SIZE then port == -1 && reserve[..] == old(reserve[..])
              else port == PortOf(i) && reserve[..] == old(reserve[..])[i := 1]
    {
      for i := 0 to PORT_RESERVE_SIZE
        invariant reserve[..] == old(reserve[..])
        invariant forall j :: 0 <= j < i ==> reserve[j] != 0
      {
        if reserve[i] == 0 {
          assert FirstFree(reserve[..]) == i;
          reserve[i] := 1;
          return i + DEFAULT_REGISTER_PORT + 1;
        }
      }
      return -1;
    }

    /** `get_port`. */
    method GetPort(name: seq<Byte>) returns (port: int)
      requires Valid()
      ensures port == PortRegistry.GetPort(View(), HashCode(name))
    {
      var code := GetHashCode(name);
      var r := bookings.Find(code);
      port := if r.Some? then r.value.port else -1;
    }

    /** `book_port`: a new port for the name, in a new record or in the one its code has. */
    method BookPort(name: seq<Byte>) returns (port: int)
      requires Valid()
      modifies reserve, bookings.Repr
      ensures Valid() && fresh(bookings.Repr - old(bookings.Repr))
      ensures (View(), port) == Book(old(View()), HashCode(name))
      ensures reserve.Length == 512
      ensures port == -1 <==> forall i :: 0 <= i < 512 ==> old(reserve[..])[i] != 0
      ensures port != -1 ==>
                && 2501 <= port <= 3012 && reserve[..] == old(reserve[..])[port - 2501 := 1]
                && old(reserve[..])[port - 2501] == 0
                && forall i :: 0 <= i < port - 2501 ==> old(reserve[..])[i] != 0
    {
      hide Bookings.Valid, RegInv, HashCode, Put, Replace, Get, WellPlaced;
      ReserveLength(View());
      BookTakesLowest(View(), HashCode(name));
      var code := GetHashCode(name);
      BookKeepsInv(View(), code);
      var r := bookings.Find(code);
      port := GetNextPort();
      if port == -1 {
        return -1;
      }
      if r.None? {
        bookings.Add(name, port);
      } else {
        bookings.Move(r.value, port);
      }
    }

    /** The walk along a bucket: its nodes keep their records, and those from `k` on their links. */
    ghost predicate Walking(chain: seq<HashNode<Record>>, ports: seq<Entry<int>>, k: nat)
      reads bookings, bookings.Repr, bookings.records, bookings.records.nodes, chain
      reads set j | 0 <= j < |chain| :: chain[j].contain
    {
      && k <= |chain| == |ports|
      && (forall j :: 0 <= j < |chain| ==>
            && chain[j] in bookings.records.nodes && chain[j].hashCode == ports[j].code
            && chain[j].contain in bookings.Repr && chain[j].contain.port == ports[j].value)
      && (forall j :: k <= j < |chain| ==> chain[j].next == NodeAt(chain, j + 1))
    }

    lemma {:induction false} WalkOn(chain: seq<HashNode<Record>>, ports: seq<Entry<int>>, k: nat)
      requires Walking(chain, ports, k) && k < |chain|
      ensures |ports| == |chain| && Walking(chain, ports, k + 1)
      ensures chain[k].next == NodeAt(chain, k + 1) && chain[k].contain.port == ports[k].value
    {
    }

    /** Before the `k`-th node of bucket `b`: the walk can go on, and only this bucket has changed, as far as swept. */
    ghost predicate AtNode(b: nat, chains: seq<seq<HashNode<Record>>>, ports: Table<int>, k: nat, bound: set<int>)
      requires b < |chains| && b < |ports|
      reads bookings, bookings.Repr, bookings.records, bookings.records.nodes, chains[b]
      reads set j | 0 <= j < |chains[b]| :: chains[b][j].contain
    {
      && k <= |ports[b]| && Walking(chains[b], ports[b], k)
      && bookings.ports == ports[b := PartlySwept(ports[b], k, bound)]
      && OtherChainsKept(chains, bookings.records.chains, b)
    }

    lemma {:induction false} AtFirstNode(b: nat, bound: set<int>)
      requires bookings.Valid() && b < TABLE_SIZE
      ensures |bookings.ports| == TABLE_SIZE == |bookings.records.chains|
      ensures var chain := bookings.records.chains[b];
              && |chain| == |bookings.ports[b]|
              && bookings.records.node != null && b < bookings.records.node.Length
              && bookings.records.node[b] == NodeAt(chain, 0)
      ensures AtNode(b, bookings.records.chains, bookings.ports, 0, bound)
    {
      hide Bookings.Valid;
      bookings.BucketFacts(b);
      SweptNone(bookings.ports[b], bound);
    }

    /** The deletion inside the sweep leaves the links the walk has still to follow. */
    method RemoveNode(b: nat, n: HashNode<Record>,
                      ghost chain: seq<HashNode<Record>>, ghost ports: seq<Entry<int>>, ghost k: nat,
                      ghost bound: set<int>)
      requires bookings.Valid() && b < TABLE_SIZE == |bookings.ports|
      requires Walking(chain, ports, k) && k < |chain| && n == chain[k] && n.contain.port !in bound
      requires CodesDistinct(ports) && Position(ports[k].code, TABLE_SIZE) == b
      requires bookings.ports[b] == PartlySwept(ports, k, bound)
      modifies bookings.Repr
      ensures bookings.Valid() && bookings.Repr == old(bookings.Repr)
      ensures Walking(chain, ports, k + 1)
      ensures bookings.ports == old(bookings.ports)[b := PartlySwept(ports, k + 1, bound)]
      ensures OtherChainsKept(old(bookings.records.chains), bookings.records.chains, b)
    {
      hide Bookings.Valid, Delete, PartlySwept;
      ghost var t, code := bookings.ports, ports[k].code;
      SweepDeletes(t, b, ports, k, bound);
      BehindAllThatFollow(t, b, ports, k);
      assert forall j :: k < j < |chain| && 0 < Place(t, code) < |t[b]| ==>
               chain[j].hashCode != t[b][Place(t, code) - 1].code;
      var r := bookings.Remove(n.hashCode);
      assert forall j :: k < j < |chain| ==> chain[j].next == old(chain[j].next);
    }

    /** One round of the walk: the node's port is tried, and the node removed if the port can be bound. */
    method SweepNode(b: nat, n: HashNode<Record>, bound: set<int>,
                     ghost chains: seq<seq<HashNode<Record>>>, ghost ports: Table<int>, ghost k: nat)
      returns (next: HashNode?<Record>)
      requires bookings.Valid() && reserve !in bookings.Repr && reserve.Length == PORT_RESERVE_SIZE
      requires b < TABLE_SIZE == |ports| && b < |chains| && AtNode(b, chains, ports, k, bound)
      requires k < |chains[b]| == |ports[b]| && n == chains[b][k] && Sweepable(ports[b], b)
      modifies reserve, bookings.Repr
      ensures bookings.Valid() && bookings.Repr == old(bookings.Repr)
      ensures AtNode(b, chains, ports, k + 1, bound) && next == NodeAt(chains[b], k + 1)
    {
      hide Bookings.Valid, PartlySwept, CodesDistinct, Walking, Position;
      WalkOn(chains[b], ports[b], k);
      var port := n.contain.port;
      if port !in bound {
        reserve[port - 1 - DEFAULT_REGISTER_PORT] := 0;
        next := n.next;
        RemoveNode(b, n, chains[b], ports[b], k, bound);
      } else {
        SweepSkips(ports[b], k, bound);
        next := n.next;
      }
    }

    /** One bucket of the sweep: every node is visited once, though the one just visited may be removed. */
    method SweepBucket(b: nat, bound: set<int>) returns (ghost visited: seq<HashNode<Record>>)
      requires bookings.Valid() && reserve !in bookings.Repr && reserve.Length == PORT_RESERVE_SIZE
      requires b < TABLE_SIZE == |bookings.ports| && Sweepable(bookings.ports[b], b)
      modifies reserve, bookings.Repr
      ensures bookings.Valid() && bookings.Repr == old(bookings.Repr)
      ensures bookings.ports == old(bookings.ports)[b := SweepChain(old(bookings.ports)[b], bound)]
      ensures b < |old(bookings.records.chains)| && visited == old(bookings.records.chains)[b]
      ensures OtherChainsKept(old(bookings.records.chains), bookings.records.chains, b)
    {
      hide Bookings.Valid, SweepChain, PartlySwept, Sweepable, Walking;
      AtFirstNode(b, bound);
      ghost var chains, ports, k := bookings.records.chains, bookings.ports, 0;
      var n := bookings.records.node[b];
      visited := [];
      while n != null
        invariant bookings.Valid() && bookings.Repr == old(bookings.Repr)
        invariant k <= |chains[b]| && AtNode(b, chains, ports, k, bound) && n == NodeAt(chains[b], k)
        invariant visited == chains[b][..k]
        decreases |chains[b]| - k
      {
        visited := visited + [n];
        n := SweepNode(b, n, bound, chains, ports, k);
        k := k + 1;
      }
      SweptWhole(ports[b], bound);
    }

    /** The loop over the buckets. */
    method SweepBuckets(bound: set<int>) returns (ghost visited: seq<HashNode<Record>>)
      requires bookings.Valid() && reserve !in bookings.Repr && reserve.Length == PORT_RESERVE_SIZE
      requires |bookings.ports| == TABLE_SIZE
      requires forall b :: 0 <= b < TABLE_SIZE ==> Sweepable(bookings.ports[b], b)
      modifies reserve, bookings.Repr
      ensures bookings.Valid() && bookings.Repr == old(bookings.Repr)
      ensures |bookings.ports| == TABLE_SIZE
      ensures forall b :: 0 <= b < TABLE_SIZE ==> bookings.ports[b] == SweepChain(old(bookings.ports)[b], bound)
      ensures visited == AllNodes(old(bookings.records.chains))
    {
      hide Bookings.Valid, SweepChain, Sweepable;
      bookings.NodesOnce();
      ghost var chains, ports := bookings.records.chains, bookings.ports;
      visited := [];
      for b := 0 to TABLE_SIZE
        invariant bookings.Valid() && bookings.Repr == old(bookings.Repr)
        invariant |bookings.records.chains| == |bookings.ports| == TABLE_SIZE
        invariant forall c :: 0 <= c < b ==> bookings.ports[c] == SweepChain(ports[c], bound)
        invariant forall c :: b <= c < TABLE_SIZE ==>
                    bookings.ports[c] == ports[c] && bookings.records.chains[c] == chains[c]
        invariant visited == AllNodes(chains[..b])
      {
        ghost var met := SweepBucket(b, bound);
        visited := visited + met;
        AllNodesMore(chains, b);
      }
      assert chains[..TABLE_SIZE] == chains;
    }

    /** `clean_port_reserve`, for the ports that cannot be bound meanwhile. Every node is visited, none twice. */
    method CleanPortReserve(bound: set<int>) returns (ghost visited: seq<HashNode<Record>>)
      requires Valid()
      modifies reserve, bookings.Repr
      ensures Valid() && bookings.Repr == old(bookings.Repr)
      ensures View() == Sweep(old(View()), bound)
      ensures visited == AllNodes(old(bookings.records.chains))
      ensures forall i, j :: 0 <= i < j < |visited| ==> visited[i] != visited[j]
    {
      hide Bookings.Valid, RegInv, Sweepable, AllNodes;
      SweepKeepsInv(View(), bound);
      SweepReady(View());
      bookings.NodesOnce();
      visited := SweepBuckets(bound);
      assert bookings.ports == Sweep(old(View()), bound).records;
      CheckPortReserve(bound);
    }
  }
}
