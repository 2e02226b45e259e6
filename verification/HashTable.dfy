/**
 The hash table of mp5/src/hash.c on linked nodes, bucket array and `next` pointers, each
 operation proved to do to the chains what the function of the same name in Chains.dfy does.

 Nothing is freed here: a node that leaves the table just stays in `nodes`, as does one that
 the table has lost.
 */
module HashTable {
  import opened Chains
  import opened Options

  class HashNode<V> {
    const contain: V
    const hashCode: int
    var next: HashNode?<V>

    constructor (contain: V, hashCode: int)
      ensures this.contain == contain && this.hashCode == hashCode && next == null
    {
      this.contain, this.hashCode, next := contain, hashCode, null;
    }
  }

  /** From `head`, the `next` pointers run through exactly the nodes of `chain` and end. */
  ghost predicate Linked<V>(head: HashNode?<V>, chain: seq<HashNode<V>>)
    reads chain
  {
    && head == NodeAt(chain, 0)
    && forall k :: 0 <= k < |chain| ==> chain[k].next == NodeAt(chain, k + 1)
  }

  ghost function NodeAt<V>(chain: seq<HashNode<V>>, k: nat): HashNode?<V> {
    if k < |chain| then chain[k] else null
  }

  ghost function EntriesOf<V>(chain: seq<HashNode<V>>): seq<Entry<V>> {
    seq(|chain|, k requires 0 <= k < |chain| => Entry(chain[k].hashCode, chain[k].contain))
  }

  ghost function TableOf<V>(chains: seq<seq<HashNode<V>>>): Table<V> {
    seq(|chains|, b requires 0 <= b < |chains| => EntriesOf(chains[b]))
  }

  /** The codes tell the nodes apart: a node is in one bucket, at one index. */
  lemma {:induction false} NodesArePlaced<V>(chains: seq<seq<HashNode<V>>>)
    requires WellPlaced(TableOf(chains))
    ensures forall b, k :: 0 <= b < |chains| && 0 <= k < |chains[b]| ==>
              Position(chains[b][k].hashCode, |chains|) == b
    ensures forall b, j, k :: 0 <= b < |chains| && 0 <= j < k < |chains[b]| ==> chains[b][j] != chains[b][k]
  {
    forall b, k | 0 <= b < |chains| && 0 <= k < |chains[b]|
      ensures Position(chains[b][k].hashCode, |chains|) == b
    {
      assert TableOf(chains)[b][k].code == chains[b][k].hashCode;
    }
    forall b, j, k | 0 <= b < |chains| && 0 <= j < k < |chains[b]| ensures chains[b][j] != chains[b][k] {
      assert TableOf(chains)[b][j].code != TableOf(chains)[b][k].code;
    }
  }

  /** `x`, if it is a node of the chains at all, is the one at index `k` of bucket `pos`. */
  ghost predicate OnlyAt<V>(chains: seq<seq<HashNode<V>>>, x: HashNode?<V>, pos: int, k: int) {
    forall b, j :: 0 <= b < |chains| && 0 <= j < |chains[b]| && chains[b][j] == x ==> b == pos && j == k
  }

  lemma {:induction false} ViewOfUpdate<V>(chains: seq<seq<HashNode<V>>>, pos: nat, chain: seq<HashNode<V>>)
    requires pos < |chains|
    ensures TableOf(chains[pos := chain]) == TableOf(chains)[pos := EntriesOf(chain)]
  {
  }

  lemma {:induction false} PutIsAppend<V>(chains: seq<seq<HashNode<V>>>, pos: nat, added: HashNode<V>)
    requires WellPlaced(TableOf(chains)) && pos == Position(added.hashCode, |chains|)
    requires IndexOf(EntriesOf(chains[pos]), added.hashCode) == |chains[pos]|
    ensures var after := TableOf(chains[pos := chains[pos] + [added]]);
            (after, true) == Chains.Put(TableOf(chains), added.hashCode, added.contain) && WellPlaced(after)
  {
    var t := TableOf(chains);
    ViewOfUpdate(chains, pos, chains[pos] + [added]);
    assert EntriesOf(chains[pos] + [added]) == EntriesOf(chains[pos]) + [Entry(added.hashCode, added.contain)];
    assert t[pos] == EntriesOf(chains[pos]);
    assert Chains.Put(t, added.hashCode, added.contain).0 == t[pos := EntriesOf(chains[pos] + [added])];
    PutIsInsert(t, added.hashCode, added.contain);
  }

  lemma {:induction false} DeleteIsUnlink<V>(chains: seq<seq<HashNode<V>>>, pos: nat, k: nat, cur: HashNode<V>)
    requires WellPlaced(TableOf(chains)) && pos == Position(cur.hashCode, |chains|)
    requires k < |chains[pos]| && cur == chains[pos][k] && IndexOf(EntriesOf(chains[pos]), cur.hashCode) == k
    ensures var after := TableOf(chains[pos := Unlink(chains[pos], k)]);
            (after, Some(cur.contain)) == Chains.Delete(TableOf(chains), cur.hashCode) && WellPlaced(after)
  {
    var t := TableOf(chains);
    ViewOfUpdate(chains, pos, Unlink(chains[pos], k));
    assert EntriesOf(Unlink(chains[pos], k)) == Unlink(EntriesOf(chains[pos]), k);
    assert t[pos] == EntriesOf(chains[pos]);
    assert Chains.Delete(t, cur.hashCode).0 == t[pos := EntriesOf(Unlink(chains[pos], k))];
    DeleteEffect(t, cur.hashCode);
  }

  lemma {:induction false} NotElsewhere<V>(chains: seq<seq<HashNode<V>>>, x: HashNode?<V>, pos: int, k: int)
    requires OnlyAt(chains, x, pos, k) && 0 <= pos < |chains|
    ensures forall b :: 0 <= b < |chains| && b != pos ==> x !in chains[b]
    ensures forall j :: 0 <= j < |chains[pos]| && j != k ==> chains[pos][j] != x
  {
  }

  lemma {:induction false} UnlinkIsSubset<T>(chain: seq<T>, k: nat)
    requires k < |chain|
    ensures forall j :: 0 <= j < |Unlink(chain, k)| ==> Unlink(chain, k)[j] in chain
  {
  }

  /** With the predecessor relinked, or the bucket empty, the pointers run through the unlinked chain. */
  lemma {:induction false} UnlinkedChain<V>(head: HashNode?<V>, chain: seq<HashNode<V>>, k: nat)
    requires k < |chain| && head == (if k == 0 then null else chain[0])
    requires 0 < k ==> chain[k - 1].next == NodeAt(chain, k + 1)
    requires 0 < k ==> forall j :: 0 <= j < |chain| && j != k - 1 ==> chain[j].next == NodeAt(chain, j + 1)
    ensures Linked(head, Unlink(chain, k))
  {
    var rest := Unlink(chain, k);
    if 0 < k {
      assert forall j :: 0 <= j < k ==> rest[j] == chain[j];
      assert forall j :: k <= j < |rest| ==> rest[j] == chain[j + 1];
    }
  }

  lemma {:induction false} PutNew<V>(chains: seq<seq<HashNode<V>>>, pos: nat, added: HashNode<V>)
    requires WellPlaced(TableOf(chains)) && pos == Position(added.hashCode, |chains|)
    requires forall j :: 0 <= j < |chains[pos]| ==> chains[pos][j].hashCode != added.hashCode
    ensures var after := TableOf(chains[pos := chains[pos] + [added]]);
            (after, true) == Chains.Put(TableOf(chains), added.hashCode, added.contain) && WellPlaced(after)
    ensures OnlyAt(chains, if |chains[pos]| == 0 then null else chains[pos][|chains[pos]| - 1], pos, |chains[pos]| - 1)
  {
    IndexIs(TableOf(chains)[pos], added.hashCode, |chains[pos]|);
    NodesArePlaced(chains);
    PutIsAppend(chains, pos, added);
  }

  lemma {:induction false} PutPresent<V>(chains: seq<seq<HashNode<V>>>, pos: nat, k: nat, contain: V)
    requires WellPlaced(TableOf(chains)) && pos < |chains| && k < |chains[pos]|
    requires pos == Position(chains[pos][k].hashCode, |chains|)
    requires forall j :: 0 <= j < k ==> chains[pos][j].hashCode != chains[pos][k].hashCode
    ensures Chains.Put(TableOf(chains), chains[pos][k].hashCode, contain) == (TableOf(chains), false)
  {
    IndexIs(TableOf(chains)[pos], chains[pos][k].hashCode, k);
  }

  /** What a deletion finds: the node at index `k`, and no earlier one with its code. */
  lemma {:induction false} FoundAt<V>(chains: seq<seq<HashNode<V>>>, pos: nat, k: nat, code: int)
    requires WellPlaced(TableOf(chains)) && pos == Position(code, |chains|) && k < |chains[pos]|
    requires chains[pos][k].hashCode == code && forall j :: 0 <= j < k ==> chains[pos][j].hashCode != code
    ensures Place(TableOf(chains), code) == k
    ensures OnlyAt(chains, if k == 0 then null else chains[pos][k - 1], pos, k - 1)
    ensures var after := TableOf(chains[pos := Unlink(chains[pos], k)]);
            (after, Some(chains[pos][k].contain)) == Chains.Delete(TableOf(chains), code) && WellPlaced(after)
  {
    IndexIs(TableOf(chains)[pos], code, k);
    NodesArePlaced(chains);
    DeleteIsUnlink(chains, pos, k, chains[pos][k]);
  }

  lemma {:induction false} NotFound<V>(chains: seq<seq<HashNode<V>>>, pos: nat, code: int)
    requires WellPlaced(TableOf(chains)) && pos == Position(code, |chains|)
    requires forall j :: 0 <= j < |chains[pos]| ==> chains[pos][j].hashCode != code
    ensures Chains.Delete(TableOf(chains), code) == (TableOf(chains), None)
  {
    IndexIs(TableOf(chains)[pos], code, |chains[pos]|);
  }

  /** The nodes of all buckets, bucket by bucket in link order. */
  ghost function AllNodes<V>(chains: seq<seq<HashNode<V>>>): seq<HashNode<V>> {
    if |chains| == 0 then [] else AllNodes(chains[..|chains| - 1]) + chains[|chains| - 1]
  }

  lemma {:induction false} InAllNodes<V>(chains: seq<seq<HashNode<V>>>, x: HashNode<V>)
    ensures x in AllNodes(chains) <==> exists b :: 0 <= b < |chains| && x in chains[b]
  {
    if |chains| != 0 {
      var last := |chains| - 1;
      InAllNodes(chains[..last], x);
      if b :| 0 <= b < |chains| && x in chains[b] {
        assert b < last ==> x in chains[..last][b];
      }
    }
  }

  lemma {:induction false} AllNodesMore<V>(chains: seq<seq<HashNode<V>>>, m: nat)
    requires m < |chains|
    ensures AllNodes(chains[..m + 1]) == AllNodes(chains[..m]) + chains[m]
  {
    assert chains[..m + 1][..m] == chains[..m];
  }

  /** No node is met twice on a walk over all buckets. */
  lemma {:induction false} AllNodesDistinct<V>(chains: seq<seq<HashNode<V>>>, m: nat)
    requires WellPlaced(TableOf(chains)) && m <= |chains|
    ensures forall i, j :: 0 <= i < j < |AllNodes(chains[..m])| ==> AllNodes(chains[..m])[i] != AllNodes(chains[..m])[j]
  {
    if m != 0 {
      var front, last := AllNodes(chains[..m - 1]), chains[m - 1];
      AllNodesDistinct(chains, m - 1);
      NodesArePlaced(chains);
      assert chains[..m][..m - 1] == chains[..m - 1];
      forall x | x in front ensures x !in last {
        InAllNodes(chains[..m - 1], x);
      }
      assert forall i :: 0 <= i < |front| ==> front[i] in front;
    }
  }

  class Hash<V> {
    var node: array?<HashNode?<V>>
    var n: int
    ghost var chains: seq<seq<HashNode<V>>>
    ghost var nodes: set<HashNode<V>>

    ghost function View(): Table<V>
      reads this
    {
      TableOf(chains)
    }

    /** The buckets and pointers hold the chains. */
    ghost predicate Shaped()
      reads this, node, nodes
    {
      && node != null && 0 < n == node.Length == |chains|
      && (forall b, k :: 0 <= b < n && 0 <= k < |chains[b]| ==> chains[b][k] in nodes)
      && (forall b :: 0 <= b < n ==> Linked(node[b], chains[b]))
    }

    ghost predicate Valid()
      reads this, node, nodes
    {
      Shaped() && WellPlaced(View())
    }

    /** The zeroed struct. */
    constructor ()
      ensures node == null && n == 0 && nodes == {}
    {
      node, n, chains, nodes := null, 0, [], {};
    }

    method Init(size: int) returns (done: bool)
      modifies this
      ensures done <==> 0 < size && old(node) == null
      ensures done ==> Valid() && fresh(node) && n == size && nodes == {}
      ensures done ==> |chains| == size && forall b :: 0 <= b < size ==> |chains[b]| == 0
      ensures !done ==> unchanged(this)
    {
      if size <= 0 || node != null {
        return false;
      }
      node := new HashNode?<V>[size](_ => null);
      n, chains, nodes := size, seq(size, _ => []), {};
      done := true;
    }

    method Get(hashCode: int) returns (contain: Option<V>)
      requires Valid()
      ensures contain == Chains.Get(View(), hashCode)
    {
      var pos := Position(hashCode, n);
      ghost var chain, k := chains[pos], 0;
      var cur := node[pos];
      while cur != null
        invariant k <= |chain| && cur == NodeAt(chain, k)
        invariant forall j :: 0 <= j < k ==> chain[j].hashCode != hashCode
        decreases |chain| - k
      {
        if cur.hashCode == hashCode {
          IndexIs(View()[pos], hashCode, k);
          return Some(cur.contain);
        }
        cur := cur.next;
        k := k + 1;
      }
      IndexIs(View()[pos], hashCode, k);
      return None;
    }

    method Put(contain: V, hashCode: int) returns (done: bool)
      requires Valid()
      modifies this`chains, this`nodes, node, nodes
      ensures Valid() && fresh(nodes - old(nodes))
      ensures (View(), done) == Chains.Put(old(View()), hashCode, contain)
    {
      hide WellPlaced, Chains.Put, EntriesOf, OnlyAt, Position;
      var pos := Position(hashCode, n);
      if node[pos] == null {
        var newNode := new HashNode(contain, hashCode);
        PutNew(chains, pos, newNode);
        Attach(pos, null, newNode);
        return true;
      }
      var cur := node[pos];
      ghost var k := 0;
      while cur.next != null
        invariant k < |chains[pos]| && cur == chains[pos][k]
        invariant forall j :: 0 <= j < k ==> chains[pos][j].hashCode != hashCode
        decreases |chains[pos]| - k
      {
        if cur.hashCode == hashCode {
          PutPresent(chains, pos, k, contain);
          return false;
        }
        cur := cur.next;
        k := k + 1;
      }
      if cur.hashCode == hashCode {
        PutPresent(chains, pos, k, contain);
        return false;
      }
      var newNode := new HashNode(contain, hashCode);
      PutNew(chains, pos, newNode);
      Attach(pos, cur, newNode);
      return true;
    }

    /** Links a new node behind the last one of its bucket, or into the empty bucket. */
    method Attach(pos: int, last: HashNode?<V>, added: HashNode<V>)
      requires Shaped() && 0 <= pos < n && added !in nodes && added.next == null
      requires last == (if |chains[pos]| == 0 then null else chains[pos][|chains[pos]| - 1])
      requires OnlyAt(chains, last, pos, |chains[pos]| - 1)
      modifies this`chains, this`nodes, node, nodes
      ensures Shaped() && nodes == old(nodes) + {added}
      ensures chains == old(chains)[pos := old(chains)[pos] + [added]]
    {
      hide WellPlaced, TableOf, Position, OnlyAt;
      ghost var before := chains;
      NotElsewhere(chains, last, pos, |chains[pos]| - 1);
      if last == null {
        node[pos] := added;
      } else {
        last.next := added;
      }
      chains, nodes := chains[pos := chains[pos] + [added]], nodes + {added};
      forall b | 0 <= b < n ensures Linked(node[b], chains[b]) {
        if b != pos {
          assert Linked(node[b], before[b]);
        }
      }
    }

    /**
     Removes the node of `hashCode` as the source does: from behind its predecessor, or, when it
     is the first, by setting the bucket to NULL. No other `next` pointer changes.
     */
    method Del(hashCode: int) returns (contain: Option<V>)
      requires Valid()
      modifies this`chains, node, nodes
      ensures Valid() && nodes == old(nodes)
      ensures (View(), contain) == Chains.Delete(old(View()), hashCode)
      ensures var pos := Position(hashCode, n);
              var k := Place(old(View()), hashCode);
              && chains == (if contain == None then old(chains) else old(chains)[pos := Unlink(old(chains)[pos], k)])
              && forall m :: m in nodes && m.next != old(m.next) ==>
                   0 < k < |old(chains)[pos]| && m == old(chains)[pos][k - 1]
    {
      hide WellPlaced, Chains.Delete, Place, Unlink, OnlyAt, EntriesOf;
      var pos := Position(hashCode, n);
      ghost var k := 0;
      var cur := node[pos];
      var pre: HashNode?<V> := null;
      while cur != null
        invariant k <= |chains[pos]| && cur == NodeAt(chains[pos], k)
        invariant pre == if k == 0 then null else chains[pos][k - 1]
        invariant forall j :: 0 <= j < k ==> chains[pos][j].hashCode != hashCode
        decreases |chains[pos]| - k
      {
        if cur.hashCode == hashCode {
          FoundAt(chains, pos, k, hashCode);
          Detach(pos, k, pre, cur);
          return Some(cur.contain);
        }
        pre := cur;
        cur := cur.next;
        k := k + 1;
      }
      NotFound(chains, pos, hashCode);
      return None;
    }

    /** The two assignments of the source. */
    method Bypass(pos: int, ghost k: nat, pre: HashNode?<V>, cur: HashNode<V>)
      requires Shaped() && 0 <= pos < n && k < |chains[pos]|
      requires cur == chains[pos][k] && pre == if k == 0 then null else chains[pos][k - 1]
      requires OnlyAt(chains, pre, pos, k - 1)
      modifies node, pre
      ensures Linked(node[pos], Unlink(chains[pos], k))
      ensures forall b :: 0 <= b < n && b != pos ==> Linked(node[b], chains[b])
    {
      hide Unlink, WellPlaced, TableOf, Position, OnlyAt;
      NotElsewhere(chains, pre, pos, k - 1);
      if pre != null {
        pre.next := cur.next;
      } else {
        node[pos] := null;
      }
      UnlinkedChain(node[pos], chains[pos], k);
    }

    /** Takes a node out, and what that does to the chains. */
    method Detach(pos: int, ghost k: nat, pre: HashNode?<V>, cur: HashNode<V>)
      requires Shaped() && 0 <= pos < n && k < |chains[pos]|
      requires cur == chains[pos][k] && pre == if k == 0 then null else chains[pos][k - 1]
      requires OnlyAt(chains, pre, pos, k - 1)
      modifies this`chains, node, nodes
      ensures Shaped() && chains == old(chains)[pos := Unlink(old(chains)[pos], k)]
      ensures forall m :: m in nodes && m != pre ==> m.next == old(m.next)
    {
      hide Unlink, WellPlaced, TableOf, Position, OnlyAt, Linked;
      ghost var chain := Unlink(chains[pos], k);
      UnlinkIsSubset(chains[pos], k);
      Bypass(pos, k, pre, cur);
      Rebuilt(chains, pos, chain);
      chains := chains[pos := chain];
    }

    /** One bucket has a new chain, the others have theirs still. */
    lemma {:induction false} Rebuilt(before: seq<seq<HashNode<V>>>, pos: int, chain: seq<HashNode<V>>)
      requires node != null && 0 < n == node.Length == |before| && 0 <= pos < n
      requires forall b, k :: 0 <= b < n && 0 <= k < |before[b]| ==> before[b][k] in nodes
      requires forall k :: 0 <= k < |chain| ==> chain[k] in nodes
      requires forall b :: 0 <= b < n && b != pos ==> Linked(node[b], before[b])
      requires Linked(node[pos], chain)
      ensures var after := before[pos := chain];
              && (forall b, k :: 0 <= b < n && 0 <= k < |after[b]| ==> after[b][k] in nodes)
              && (forall b :: 0 <= b < n ==> Linked(node[b], after[b]))
    {
      hide Linked;
    }

    /** The inner loop of `clean_hash`. */
    method FreeBucket(i: int) returns (freed: seq<HashNode<V>>)
      requires Shaped() && 0 <= i < n
      ensures freed == chains[i]
    {
      freed := [];
      var cur := node[i];
      ghost var k := 0;
      while cur != null
        invariant k <= |chains[i]| && cur == NodeAt(chains[i], k)
        invariant freed == chains[i][..k]
        decreases |chains[i]| - k
      {
        var next := cur.next;
        freed := freed + [cur];
        cur := next;
        k := k + 1;
      }
    }

    /** `clean_hash`: every node of every bucket is freed, once, and the table is as before `Init`. */
    method Clean() returns (freed: seq<HashNode<V>>)
      requires Valid()
      modifies this
      ensures node == null && n == 0
      ensures freed == AllNodes(old(chains))
      ensures forall i, j :: 0 <= i < j < |freed| ==> freed[i] != freed[j]
    {
      freed := [];
      for i := 0 to n
        invariant Shaped() && unchanged(this)
        invariant freed == AllNodes(chains[..i])
      {
        var bucket := FreeBucket(i);
        freed := freed + bucket;
        assert chains[..i + 1][..i] == chains[..i];
      }
      assert chains[..n] == chains;
      AllNodesDistinct(chains, n);
      node, n, chains, nodes := null, 0, [], {};
    }
  }
}
