/**
 The port registry of mp5/src/port_register.c as a value: records (code and port) in the
 hash table, and one reserve word per port. The ports a `bind` would fail on are the
 parameter `bound`, the same throughout one sweep.
 */
module PortRegistry {
  import opened Chains
  import opened Options
  import opened NameHash
  import opened Runs

  const DEFAULT_REGISTER_PORT := 2500
  const PORT_RESERVE_SIZE := 512
  const TABLE_SIZE := 100

  datatype Registry = Registry(records: Table<int>, reserve: seq<int>)

  function PortOf(i: int): int { i + DEFAULT_REGISTER_PORT + 1 }

  function SlotOf(port: int): int { port - 1 - DEFAULT_REGISTER_PORT }

  /** The first reserve word that is 0, or the number of words. */
  function FirstFree(reserve: seq<int>): (i: nat)
    ensures i <= |reserve|
    ensures i < |reserve| ==> reserve[i] == 0
    ensures forall j :: 0 <= j < i ==> reserve[j] != 0
  {
    if |reserve| == 0 || reserve[0] == 0 then 0 else 1 + FirstFree(reserve[1..])
  }

  /** The chain with the value of a present code replaced. */
  function Replace<V>(t: Table<V>, code: int, value: V): Table<V>
    requires 0 < |t| && Get(t, code).Some?
  {
    var pos := Position(code, |t|);
    t[pos := t[pos][IndexOf(t[pos], code) := Entry(code, value)]]
  }

  function Store<V>(t: Table<V>, code: int, value: V): Table<V>
    requires 0 < |t|
  {
    if Get(t, code).Some? then Replace(t, code, value) else Put(t, code, value).0
  }

  /** `book_port`: a new port even for a name that has one; -1 when no word is free. */
  function Book(st: Registry, code: int): (Registry, int)
    requires 0 < |st.records|
  {
    var i := FirstFree(st.reserve);
    if i == |st.reserve| then (st, -1)
    else (Registry(Store(st.records, code, PortOf(i)), st.reserve[i := 1]), PortOf(i))
  }

  function GetPort(st: Registry, code: int): int
    requires 0 < |st.records|
  {
    var port := Get(st.records, code);
    if port.Some? then port.value else -1
  }

  function Keep(chain: seq<Entry<int>>, bound: set<int>): seq<Entry<int>> {
    if |chain| == 0 then []
    else
      var last := chain[|chain| - 1];
      Keep(chain[..|chain| - 1], bound) + if last.value in bound then [last] else []
  }

  /** What a sweep makes of a chain: deleting its first node loses the others too. */
  function SweepChain(chain: seq<Entry<int>>, bound: set<int>): seq<Entry<int>> {
    if 0 < |chain| && chain[0].value !in bound then [] else Keep(chain, bound)
  }

  function ReserveOf(bound: set<int>): seq<int> {
    seq(PORT_RESERVE_SIZE, i => if PortOf(i) in bound then 1 else 0)
  }

  /** `clean_port_reserve`, which ends with `check_port_reserve`. */
  function Sweep(st: Registry, bound: set<int>): Registry {
    Registry(seq(|st.records|, b requires 0 <= b < |st.records| => SweepChain(st.records[b], bound)), ReserveOf(bound))
  }

  // What the operations do to the records --------------------------------------------

  lemma {:induction false} StoreIsUpdate<V>(t: Table<V>, code: int, value: V)
    requires WellPlaced(t)
    ensures var after := Store(t, code, value);
            && WellPlaced(after) && |after| == |t|
            && forall c :: Get(after, c) == if c == code then Some(value) else Get(t, c)
  {
    var after := Store(t, code, value);
    if Get(t, code).Some? {
      var pos := Position(code, |t|);
      forall c ensures Get(after, c) == if c == code then Some(value) else Get(t, c) {
        if Position(c, |t|) == pos {
          IndexIs(after[pos], c, IndexOf(t[pos], c));
        } else {
          OtherBuckets(t, pos, after[pos], c);
        }
      }
    } else {
      PutIsInsert(t, code, value);
      forall c ensures Get(after, c) == if c == code then Some(value) else Get(t, c) {
        GetIsLookup(t, c);
        GetIsLookup(after, c);
        InCodes(t, code);
      }
    }
  }

  ghost predicate CodesDistinct(chain: seq<Entry<int>>) {
    forall j, k :: 0 <= j < k < |chain| ==> chain[j].code != chain[k].code
  }

  /** The filter keeps an entry, under its code, exactly if its port is bound. */
  lemma {:induction false} KeepFinds(chain: seq<Entry<int>>, bound: set<int>, code: int)
    requires CodesDistinct(chain)
    ensures var kept := Keep(chain, bound);
            var k, q := IndexOf(chain, code), IndexOf(kept, code);
            && (q < |kept| <==> k < |chain| && chain[k].value in bound)
            && (q < |kept| ==> kept[q] == chain[k])
  {
    if |chain| != 0 {
      var init, last := chain[..|chain| - 1], chain[|chain| - 1];
      KeepFinds(init, bound, code);
      var k, before, kept := IndexOf(init, code), Keep(init, bound), Keep(chain, bound);
      IndexIs(chain, code, if k < |init| || last.code == code then k else k + 1);
      var q := IndexOf(before, code);
      if q < |before| || last.value !in bound || last.code == code {
        IndexIs(kept, code, q);
      } else {
        IndexIs(kept, code, q + 1);
      }
    }
  }

  /** Entries that come earlier in `kept` come earlier in the chain. */
  ghost predicate InOrder(kept: seq<Entry<int>>, chain: seq<Entry<int>>) {
    forall q, r :: 0 <= q < r < |kept| ==> IndexOf(chain, kept[q].code) < IndexOf(chain, kept[r].code) < |chain|
  }

  /** The kept entries come from the chain, in its order. */
  lemma {:induction false} KeepPlaces(chain: seq<Entry<int>>, bound: set<int>)
    requires CodesDistinct(chain)
    ensures CodesDistinct(Keep(chain, bound)) && |Keep(chain, bound)| <= |chain|
    ensures forall q :: 0 <= q < |Keep(chain, bound)| ==> Keep(chain, bound)[q] in chain
    ensures InOrder(Keep(chain, bound), chain)
  {
    if |chain| != 0 {
      KeepPlaces(chain[..|chain| - 1], bound);
    }
    KeepInOrder(chain, bound);
  }

  lemma {:induction false} KeepInOrder(chain: seq<Entry<int>>, bound: set<int>)
    requires CodesDistinct(chain)
    ensures forall q :: 0 <= q < |Keep(chain, bound)| ==> IndexOf(chain, Keep(chain, bound)[q].code) < |chain|
    ensures InOrder(Keep(chain, bound), chain)
  {
    if |chain| != 0 {
      var init, last := chain[..|chain| - 1], chain[|chain| - 1];
      KeepInOrder(init, bound);
      IndexIs(chain, last.code, |init|);
      forall q | 0 <= q < |Keep(init, bound)|
        ensures IndexOf(chain, Keep(init, bound)[q].code) == IndexOf(init, Keep(init, bound)[q].code)
      {
        IndexIs(chain, Keep(init, bound)[q].code, IndexOf(init, Keep(init, bound)[q].code));
      }
    }
  }

  ghost predicate HeadBound(chain: seq<Entry<int>>, bound: set<int>) {
    0 < |chain| ==> chain[0].value in bound
  }

  /** A record survives a sweep if and only if its port is bound and so is that of the first record of its bucket. */
  lemma {:induction false} SurvivesSweepIff(st: Registry, bound: set<int>, code: int)
    requires WellPlaced(st.records)
    ensures |Sweep(st, bound).records| == |st.records|
    ensures var port := Get(st.records, code);
            var head := HeadBound(st.records[Position(code, |st.records|)], bound);
            Get(Sweep(st, bound).records, code) == if port.Some? && port.value in bound && head then port else None
  {
    var chain := st.records[Position(code, |st.records|)];
    assert CodesDistinct(chain);
    KeepFinds(chain, bound, code);
  }

  lemma {:induction false} SweepKeepsPlaces(st: Registry, bound: set<int>)
    requires WellPlaced(st.records)
    ensures WellPlaced(Sweep(st, bound).records)
  {
    var t, after := st.records, Sweep(st, bound).records;
    forall b | 0 <= b < |t|
      ensures CodesDistinct(after[b])
      ensures forall k :: 0 <= k < |after[b]| ==> after[b][k] in t[b]
    {
      assert CodesDistinct(t[b]);
      KeepPlaces(t[b], bound);
    }
  }

  /** The chain after a sweep has gone over its first `k` records. */
  function PartlySwept(chain: seq<Entry<int>>, k: nat, bound: set<int>): seq<Entry<int>>
    requires k <= |chain|
  {
    if 0 < k && chain[0].value !in bound then [] else Keep(chain[..k], bound) + chain[k..]
  }

  lemma {:induction false} KeepsTheHead(chain: seq<Entry<int>>, bound: set<int>)
    requires 0 < |chain| && chain[0].value in bound
    ensures 0 < |Keep(chain, bound)|
  {
    if 1 < |chain| {
      KeepsTheHead(chain[..|chain| - 1], bound);
    }
  }

  lemma {:induction false} KeepOneMore(chain: seq<Entry<int>>, k: nat, bound: set<int>)
    requires k < |chain|
    ensures Keep(chain[..k + 1], bound) == Keep(chain[..k], bound) + if chain[k].value in bound then [chain[k]] else []
  {
    assert chain[..k + 1][..k] == chain[..k];
  }

  lemma {:induction false} UnlinkBehind(kept: seq<Entry<int>>, rest: seq<Entry<int>>)
    requires 0 < |kept| && 0 < |rest|
    requires forall q :: 0 <= q < |kept| ==> kept[q].code != rest[0].code
    ensures IndexOf(kept + rest, rest[0].code) == |kept|
    ensures Unlink(kept + rest, |kept|) == kept + rest[1..]
  {
    IndexIs(kept + rest, rest[0].code, |kept|);
  }

  /** Past a bound head, the record the walk stands on sits behind the kept ones. */
  lemma {:induction false} StandsBehindKept(chain: seq<Entry<int>>, k: nat, bound: set<int>)
    requires 0 < k < |chain| && CodesDistinct(chain) && chain[0].value in bound
    ensures var kept, rest := Keep(chain[..k], bound), chain[k..];
            && 0 < |kept|
            && IndexOf(kept + rest, chain[k].code) == |kept|
            && Unlink(kept + rest, |kept|) == kept + chain[k + 1..]
            && kept[|kept| - 1] in chain[..k]
  {
    var kept, rest := Keep(chain[..k], bound), chain[k..];
    KeepPlaces(chain[..k], bound);
    KeepsTheHead(chain[..k], bound);
    forall q | 0 <= q < |kept| ensures kept[q].code != rest[0].code {
      assert kept[q] in chain[..k];
    }
    UnlinkBehind(kept, rest);
    assert rest[1..] == chain[k + 1..];
  }

  lemma {:induction false} SweepSkips(chain: seq<Entry<int>>, k: nat, bound: set<int>)
    requires k < |chain| && chain[k].value in bound
    ensures PartlySwept(chain, k + 1, bound) == PartlySwept(chain, k, bound)
  {
    KeepOneMore(chain, k, bound);
    var kept := Keep(chain[..k], bound);
    assert kept + [chain[k]] + chain[k + 1..] == kept + chain[k..];
  }

  lemma {:induction false} DeleteAt(t: Table<int>, pos: nat, code: int, k: nat)
    requires pos < |t| && Position(code, |t|) == pos && IndexOf(t[pos], code) == k < |t[pos]|
    ensures Delete(t, code).0 == t[pos := Unlink(t[pos], k)] && Place(t, code) == k
  {
  }

  /** Past a bound head, the chain is the kept records and those still to be visited. */
  lemma {:induction false} SweptBehindHead(chain: seq<Entry<int>>, k: nat, bound: set<int>)
    requires 0 < k <= |chain| && chain[0].value in bound
    ensures PartlySwept(chain, k, bound) == Keep(chain[..k], bound) + chain[k..]
  {
  }

  lemma {:induction false} SweepDeletesBehind(
      t: Table<int>, pos: nat, chain: seq<Entry<int>>, k: nat, bound: set<int>)
    requires pos < |t| && 0 < k < |chain| && CodesDistinct(chain)
    requires chain[k].value !in bound && chain[0].value in bound
    requires t[pos] == PartlySwept(chain, k, bound) && Position(chain[k].code, |t|) == pos
    ensures Delete(t, chain[k].code).0 == t[pos := PartlySwept(chain, k + 1, bound)]
    ensures 0 < Place(t, chain[k].code) < |t[pos]| ==> t[pos][Place(t, chain[k].code) - 1] in chain[..k]
  {
    hide Position, IndexOf, Keep, CodesDistinct, Delete, Place, Unlink, PartlySwept;
    var kept := Keep(chain[..k], bound);
    KeepOneMore(chain, k, bound);
    StandsBehindKept(chain, k, bound);
    SweptBehindHead(chain, k, bound);
    SweptBehindHead(chain, k + 1, bound);
    DeleteAt(t, pos, chain[k].code, |kept|);
    assert Keep(chain[..k + 1], bound) == kept + [] == kept;
    assert t[pos][|kept| - 1] == kept[|kept| - 1];
  }

  /** Deleting the record the walk stands on takes the sweep one record further, whatever the chain has become. */
  lemma {:induction false} SweepDeletes(t: Table<int>, pos: nat, chain: seq<Entry<int>>, k: nat, bound: set<int>)
    requires pos < |t| && k < |chain| && CodesDistinct(chain) && chain[k].value !in bound
    requires t[pos] == PartlySwept(chain, k, bound) && Position(chain[k].code, |t|) == pos
    ensures Delete(t, chain[k].code).0 == t[pos := PartlySwept(chain, k + 1, bound)]
    ensures 0 < Place(t, chain[k].code) < |t[pos]| ==> t[pos][Place(t, chain[k].code) - 1] in chain[..k]
  {
    KeepOneMore(chain, k, bound);
    if k == 0 {
      assert t[pos] == chain;
    } else if chain[0].value in bound {
      SweepDeletesBehind(t, pos, chain, k, bound);
    } else {
      assert t == t[pos := []];
    }
  }

  /** The predecessor of the record deleted, if any, is none of those the walk has still to visit. */
  lemma {:induction false} BehindAllThatFollow(t: Table<int>, pos: nat, chain: seq<Entry<int>>, k: nat)
    requires pos < |t| && k < |chain| && CodesDistinct(chain) && Position(chain[k].code, |t|) == pos
    requires 0 < Place(t, chain[k].code) < |t[pos]| ==> t[pos][Place(t, chain[k].code) - 1] in chain[..k]
    ensures 0 < Place(t, chain[k].code) < |t[pos]| ==>
              forall j :: k < j < |chain| ==> chain[j].code != t[pos][Place(t, chain[k].code) - 1].code
  {
  }

  lemma {:induction false} SweptNone(chain: seq<Entry<int>>, bound: set<int>)
    ensures PartlySwept(chain, 0, bound) == chain
  {
  }

  lemma {:induction false} SweptWhole(chain: seq<Entry<int>>, bound: set<int>)
    ensures PartlySwept(chain, |chain|, bound) == SweepChain(chain, bound)
  {
    assert chain[..|chain|] == chain;
  }

  /** The records a sweep is meant to leave: those whose port is bound, in their order. */
  ghost function IntendedSweep(t: Table<int>, bound: set<int>): Table<int> {
    seq(|t|, b requires 0 <= b < |t| => Keep(t[b], bound))
  }

  lemma {:induction false} KeepsNothing(chain: seq<Entry<int>>, bound: set<int>)
    ensures Keep(chain, bound) == [] <==> forall k :: 0 <= k < |chain| ==> chain[k].value !in bound
  {
    if |chain| != 0 {
      KeepsNothing(chain[..|chain| - 1], bound);
    }
  }

  /** A sweep removes exactly the records whose port can be bound if and only if in every bucket the first
      record's port is bound, or none is. */
  lemma {:induction false} SweepMeetsIntentIff(st: Registry, bound: set<int>)
    ensures Sweep(st, bound).records == IntendedSweep(st.records, bound)
       <==> forall b :: 0 <= b < |st.records| ==>
              HeadBound(st.records[b], bound)
              || forall k :: 0 <= k < |st.records[b]| ==> st.records[b][k].value !in bound
  {
    var after, intended := Sweep(st, bound).records, IntendedSweep(st.records, bound);
    forall b | 0 <= b < |st.records|
      ensures after[b] == intended[b]
         <==> HeadBound(st.records[b], bound)
              || forall k :: 0 <= k < |st.records[b]| ==> st.records[b][k].value !in bound
    {
      KeepsNothing(st.records[b], bound);
    }
    if after == intended {
      forall b | 0 <= b < |st.records| ensures after[b] == intended[b] {}
    }
  }

  // The allocator invariant ------------------------------------------------------------

  /** Every recorded port is in range and reserved, and no two codes have the same one. */
  ghost predicate RegInv(st: Registry) {
    && |st.records| == TABLE_SIZE && WellPlaced(st.records)
    && |st.reserve| == PORT_RESERVE_SIZE
    && (forall code :: Get(st.records, code).Some? ==> Reserved(st.reserve, Get(st.records, code).value))
    && (forall c, d :: Get(st.records, c).Some? && Get(st.records, c) == Get(st.records, d) ==> c == d)
  }

  ghost predicate Reserved(reserve: seq<int>, port: int)
    requires |reserve| == PORT_RESERVE_SIZE
  {
    && DEFAULT_REGISTER_PORT < port <= DEFAULT_REGISTER_PORT + PORT_RESERVE_SIZE
    && reserve[SlotOf(port)] != 0
  }

  /** In bucket `b` the sweep finds each record under its code, and clears a word that is there. */
  ghost predicate Sweepable(chain: seq<Entry<int>>, b: nat) {
    && CodesDistinct(chain)
    && forall k :: 0 <= k < |chain| ==>
         Position(chain[k].code, TABLE_SIZE) == b && 0 <= SlotOf(chain[k].value) < PORT_RESERVE_SIZE
  }

  lemma {:induction false} SweepReady(st: Registry)
    requires RegInv(st)
    ensures |st.records| == TABLE_SIZE && |st.reserve| == PORT_RESERVE_SIZE
    ensures forall b :: 0 <= b < TABLE_SIZE ==> Sweepable(st.records[b], b)
  {
    forall b, k | 0 <= b < |st.records| && 0 <= k < |st.records[b]|
      ensures 0 <= SlotOf(st.records[b][k].value) < PORT_RESERVE_SIZE
    {
      IndexIs(st.records[b], st.records[b][k].code, k);
      assert Get(st.records, st.records[b][k].code) == Some(st.records[b][k].value);
    }
  }

  lemma {:induction false} BookKeepsInv(st: Registry, code: int)
    requires RegInv(st)
    ensures RegInv(Book(st, code).0)
    ensures var (after, port) := Book(st, code);
            port != -1 ==> Get(after.records, code) == Some(port)
                           && forall c :: c != code ==> Get(after.records, c) == Get(st.records, c)
  {
    var i := FirstFree(st.reserve);
    if i < |st.reserve| {
      StoreIsUpdate(st.records, code, PortOf(i));
    }
  }

  /** The invariant outlasts the loss of records, and a check of the reserve words that finds the rest in use. */
  lemma {:induction false} FewerRecords(st: Registry, after: Registry, bound: set<int>)
    requires RegInv(st) && |after.records| == |st.records| && WellPlaced(after.records)
    requires after.reserve == ReserveOf(bound)
    requires forall code :: var port := Get(after.records, code);
               port.Some? ==> port == Get(st.records, code) && port.value in bound
    ensures RegInv(after)
  {
    hide WellPlaced, Get;
    forall code | Get(after.records, code).Some? ensures Reserved(after.reserve, Get(after.records, code).value) {
      assert Reserved(st.reserve, Get(st.records, code).value);
    }
  }

  /** A booking takes the lowest port of 2501..3012 whose word is 0, for a known name too; if there is none it
      answers -1 and leaves everything as it is. */
  lemma {:induction false} BookTakesLowest(st: Registry, code: int)
    requires RegInv(st)
    ensures |st.reserve| == 512
    ensures var (after, port) := Book(st, code);
            if forall i :: 0 <= i < 512 ==> st.reserve[i] != 0 then port == -1 && after == st
            else && 2501 <= port <= 3012 && st.reserve[port - 2501] == 0
                 && (forall i :: 0 <= i < port - 2501 ==> st.reserve[i] != 0)
                 && after.reserve == st.reserve[port - 2501 := 1]
  {
    hide RegInv, Store;
    ReserveLength(st);
  }

  lemma {:induction false} ReserveLength(st: Registry)
    requires RegInv(st)
    ensures |st.reserve| == PORT_RESERVE_SIZE && 0 < |st.records|
  {
  }

  /** After a check, and so after a sweep and at the start, a word is 1 if its port cannot be bound, else 0. */
  lemma {:induction false} WordsTellBound(bound: set<int>)
    ensures |ReserveOf(bound)| == 512
    ensures forall i :: 0 <= i < 512 ==> ReserveOf(bound)[i] == if 2501 + i in bound then 1 else 0
  {
  }

  /** The first booking after a sweep, or at the start, takes the lowest port of 2501..3012 that can be bound. */
  lemma {:induction false} BookAfterCheck(st: Registry, bound: set<int>, code: int)
    requires RegInv(st) && st.reserve == ReserveOf(bound)
    ensures var port := Book(st, code).1;
            if forall p :: 2501 <= p <= 3012 ==> p in bound then port == -1
            else 2501 <= port <= 3012 && port !in bound && forall p :: 2501 <= p < port ==> p in bound
  {
    hide RegInv, Book, ReserveOf;
    WordsTellBound(bound);
    BookTakesLowest(st, code);
    assert forall p :: 2501 <= p <= 3012 ==> (st.reserve[p - 2501] != 0 <==> p in bound);
    assert forall i :: 0 <= i < 512 ==> (st.reserve[i] != 0 <==> 2501 + i in bound);
  }

  lemma {:induction false} BookAfterSweep(st: Registry, bound: set<int>, code: int)
    requires RegInv(st)
    ensures RegInv(Sweep(st, bound))
    ensures var port := Book(Sweep(st, bound), code).1;
            if forall p :: 2501 <= p <= 3012 ==> p in bound then port == -1
            else 2501 <= port <= 3012 && port !in bound && forall p :: 2501 <= p < port ==> p in bound
  {
    hide RegInv, Book;
    SweepKeepsInv(st, bound);
    BookAfterCheck(Sweep(st, bound), bound, code);
  }

  /** A request is answered with the port the map has for its code, and with -1 exactly if it has none. */
  lemma {:induction false} GetPortIsLookup(st: Registry, code: int)
    requires RegInv(st)
    ensures GetPort(st, code) == if code in AsMap(st.records) then AsMap(st.records)[code] else -1
    ensures GetPort(st, code) == -1 <==> code !in AsMap(st.records)
  {
    GetIsLookup(st.records, code);
  }

  lemma {:induction false} SweepKeepsInv(st: Registry, bound: set<int>)
    requires RegInv(st)
    ensures RegInv(Sweep(st, bound))
  {
    var after := Sweep(st, bound);
    SweepKeepsPlaces(st, bound);
    SurvivesSweepIff(st, bound, 0);
    hide Get, SweepChain;
    forall code ensures var port := Get(after.records, code);
                        port.Some? ==> port == Get(st.records, code) && port.value in bound
    {
      SurvivesSweepIff(st, bound, code);
    }
    hide WellPlaced, RegInv;
    FewerRecords(st, after, bound);
  }

  // Runs ------------------------------------------------------------------------------

  datatype Op = BookOp(name: seq<Byte>) | GetOp(name: seq<Byte>) | SweepOp(bound: set<int>)

  ghost function Exec(st: Registry, op: Op): Registry
    requires 0 < |st.records|
  {
    match op
    case BookOp(name) => Book(st, HashCode(name)).0
    case GetOp(_) => st
    case SweepOp(bound) => Sweep(st, bound)
  }

  ghost predicate RegStep(s: Registry, op: Op, t: Registry) {
    0 < |s.records| && t == Exec(s, op)
  }

  /** The state after `main` has zeroed its tables and checked the reserve words once. */
  function InitialRegistry(bound: set<int>): Registry {
    Registry(seq(TABLE_SIZE, _ => []), ReserveOf(bound))
  }

  /** A new registry has a hundred empty buckets, and its words tell what was bound when it started. */
  lemma {:induction false} StartsEmpty(bound: set<int>, code: int)
    ensures |InitialRegistry(bound).records| == 100 && RegInv(InitialRegistry(bound))
    ensures GetPort(InitialRegistry(bound), code) == -1
    ensures var words := InitialRegistry(bound).reserve;
            |words| == 512 && forall i :: 0 <= i < 512 ==> words[i] == if 2501 + i in bound then 1 else 0
  {
  }

  lemma {:induction false} RegStepKeepsInv(s: Registry, op: Op, t: Registry)
    requires RegInv(s) && RegStep(s, op, t)
    ensures RegInv(t)
  {
    match op
    case BookOp(name) => BookKeepsInv(s, HashCode(name));
    case GetOp(_) =>
    case SweepOp(bound) => SweepKeepsInv(s, bound);
  }

  /** Through any sequence of bookings, requests and sweeps, recorded ports are in range, reserved and distinct. */
  lemma {:induction false} AllocatorSound(bound: set<int>, run: seq<Registry>, ops: seq<Op>, i: nat)
    requires IsRun(RegStep, run, ops) && run[0] == InitialRegistry(bound) && i < |run|
    ensures RegInv(run[i])
  {
    forall s, op, t | RegInv(s) && RegStep(s, op, t) ensures RegInv(t) {
      RegStepKeepsInv(s, op, t);
    }
    Kept(RegStep, RegInv, run, ops, 0, i);
  }

  /** Two bookings in a new registry whose codes share bucket 1. */
  lemma {:induction false} TwoBookings() returns (once: Registry, twice: Registry)
    ensures (once, 2501) == Book(InitialRegistry({}), 1) && (twice, 2502) == Book(once, 101)
    ensures RegInv(twice) && twice.records[1] == [Entry(1, 2501), Entry(101, 2502)]
  {
    var start := InitialRegistry({});
    FirstFreeIs(start.reserve, 0);
    once := Book(start, 1).0;
    BookKeepsInv(start, 1);
    FirstFreeIs(once.reserve, 1);
    twice := Book(once, 101).0;
    BookKeepsInv(once, 101);
  }

  lemma {:induction false} FirstFreeIs(reserve: seq<int>, i: nat)
    requires i < |reserve| && reserve[i] == 0 && forall j :: 0 <= j < i ==> reserve[j] != 0
    ensures FirstFree(reserve) == i
  {
  }

  lemma {:induction false} OneByteHash(c: Byte)
    ensures HashCode([c]) == c
  {
    assert [c][..0] == [];
  }

  /** The names [1] and [101] are booked in a new registry, on ports 2501 and 2502. When only 2502 is in use,
      a sweep removes both. */
  lemma {:induction false} SweepLosesABooking()
    ensures var (once, p) := Book(InitialRegistry({}), HashCode([1]));
            var (twice, q) := Book(once, HashCode([101]));
            && RegInv(twice) && p == 2501 && q == 2502
            && GetPort(twice, HashCode([101])) == 2502
            && GetPort(Sweep(twice, {2502}), HashCode([101])) == -1
  {
    OneByteHash(1);
    OneByteHash(101);
    var once, twice := TwoBookings();
    IndexIs(twice.records[1], 101, 1);
    SurvivesSweepIff(twice, {2502}, 101);
  }

  /** A step that may move or lose the booking of `name`: a sweep, or a successful booking with its last four bytes. */
  ghost predicate Disturbs(s: Registry, op: Op, name: seq<Byte>)
    requires 0 < |s.records|
  {
    match op
    case BookOp(other) => Suffix(other) == Suffix(name) && Book(s, HashCode(other)).1 != -1
    case GetOp(_) => false
    case SweepOp(_) => true
  }

  /** After a successful booking, `get_port` answers every name with the same last four bytes with that port,
      until a step that disturbs it. */
  lemma {:induction false} BookingStands(
      s: Registry, name: seq<Byte>, run: seq<Registry>, ops: seq<Op>, other: seq<Byte>)
    requires RegInv(s) && Book(s, HashCode(name)).1 != -1
    requires IsRun(RegStep, run, ops) && run[0] == Book(s, HashCode(name)).0
    requires forall i :: 0 <= i < |ops| ==> 0 < |run[i].records| && !Disturbs(run[i], ops[i], name)
    requires Suffix(other) == Suffix(name)
    ensures var last := run[|ops|];
            0 < |last.records| && GetPort(last, HashCode(other)) == Book(s, HashCode(name)).1
  {
    var code, port := HashCode(name), Book(s, HashCode(name)).1;
    BookKeepsInv(s, code);
    SameHashIffSameSuffix(name, other);
    var quiet := (s: Registry, op: Op, t: Registry) => RegStep(s, op, t) && !Disturbs(s, op, name);
    var booked := (s: Registry) => RegInv(s) && GetPort(s, code) == port;
    forall s, op, t | booked(s) && quiet(s, op, t) ensures booked(t) {
      RegStepKeepsInv(s, op, t);
      if op.BookOp? {
        SameHashIffSameSuffix(op.name, name);
        BookKeepsInv(s, HashCode(op.name));
      }
    }
    Kept(quiet, booked, run, ops, 0, |ops|);
  }

  // What a run has booked ---------------------------------------------------------------

  /** The port a booking would take: the lowest whose word is 0. */
  ghost function LowestFree(reserve: seq<int>): (port: Option<int>)
    ensures port == None <==> forall i :: 0 <= i < |reserve| ==> reserve[i] != 0
    ensures port.Some? ==> 2501 <= port.value < 2501 + |reserve| && reserve[port.value - 2501] == 0
                           && forall i :: 0 <= i < port.value - 2501 ==> reserve[i] != 0
  {
    var i := FirstFree(reserve);
    if i == |reserve| then None else Some(2501 + i)
  }

  /** What a name is booked on after a run: the last booking with its last four bytes that was granted, unless a
      sweep since then took it, or took the first record of its bucket. */
  ghost function Booked(run: seq<Registry>, ops: seq<Op>, name: seq<Byte>): Option<int>
    requires |run| == |ops| + 1
    decreases |ops|
  {
    if |ops| == 0 then None
    else
      var n := |ops| - 1;
      var before := Booked(run[..n + 1], ops[..n], name);
      match ops[n]
      case BookOp(other) =>
        var port := LowestFree(run[n].reserve);
        if Suffix(other) == Suffix(name) && port.Some? then port else before
      case GetOp(_) => before
      case SweepOp(bound) =>
        if before.Some? && before.value in bound && |run[n].records| == 100
           && HeadBound(run[n].records[HashCode(name) % 100], bound)
        then before else None
  }

  lemma {:induction false} BookAnswers(s: Registry, other: seq<Byte>, name: seq<Byte>)
    requires RegInv(s)
    ensures RegInv(Book(s, HashCode(other)).0)
    ensures Get(Book(s, HashCode(other)).0.records, HashCode(name))
         == if Suffix(other) == Suffix(name) && LowestFree(s.reserve).Some? then LowestFree(s.reserve)
            else Get(s.records, HashCode(name))
  {
    SameHashIffSameSuffix(other, name);
    BookKeepsInv(s, HashCode(other));
    BookTakesLowest(s, HashCode(other));
  }

  /** In every run a request is answered by what the run has booked. */
  lemma {:induction false} RequestsFollowRun(bound: set<int>, run: seq<Registry>, ops: seq<Op>, name: seq<Byte>)
    requires IsRun(RegStep, run, ops) && run[0] == InitialRegistry(bound)
    ensures RegInv(run[|ops|]) && Get(run[|ops|].records, HashCode(name)) == Booked(run, ops, name)
    ensures GetPort(run[|ops|], HashCode(name))
         == var port := Booked(run, ops, name); if port.Some? then port.value else -1
    decreases |ops|
  {
    hide RegInv, Book, Sweep, Get, HashCode, Suffix, LowestFree, HeadBound;
    var n := |ops| - 1;
    if n < 0 {
      StartsEmpty(bound, HashCode(name));
      NothingAtStart(bound, HashCode(name));
    } else {
      Prefix(RegStep, run, ops);
      RequestsFollowRun(bound, run[..n + 1], ops[..n], name);
      match ops[n]
      case BookOp(other) => BookAnswers(run[n], other, name);
      case GetOp(_) =>
      case SweepOp(freed) => SweepAnswers(run[n], freed, name);
    }
  }

  lemma {:induction false} NothingAtStart(bound: set<int>, code: int)
    ensures Get(InitialRegistry(bound).records, code) == None
  {
  }

  lemma {:induction false} SweepAnswers(s: Registry, bound: set<int>, name: seq<Byte>)
    requires RegInv(s)
    ensures |s.records| == 100 && RegInv(Sweep(s, bound))
    ensures var port := Get(s.records, HashCode(name));
            Get(Sweep(s, bound).records, HashCode(name))
            == if port.Some? && port.value in bound && HeadBound(s.records[HashCode(name) % 100], bound)
               then port else None
  {
    SweepKeepsInv(s, bound);
    SurvivesSweepIff(s, bound, HashCode(name));
    PositionIsModulo(HashCode(name), 100);
  }
}
