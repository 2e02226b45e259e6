/**
 The contents of the chained hash table of mp5/src/hash.c as a value: one chain of
 entries per bucket, in link order. The operations are those of the source, and their
 effect on the finite map the table stands for is proved here. The class `Hash` in
 HashTable.dfy carries them out on linked nodes.
 */
module Chains {
  import opened Modulo
  import opened Options

  datatype Entry<V> = Entry(code: int, value: V)

  type Table<V> = seq<seq<Entry<V>>>

  /** The remainder of C, which takes the sign of the dividend. */
  function CRemainder(a: int, b: int): int
    requires 0 < b
  {
    if 0 <= a then a % b else -((-a) % b)
  }

  /** The bucket of a code, which may be negative. */
  function Position(code: int, n: int): (pos: int)
    requires 0 < n
    ensures 0 <= pos < n
  {
    var pos := CRemainder(code, n);
    if pos < 0 then n + pos else pos
  }

  /** The first index of the chain that holds `code`, or the length of the chain. */
  function IndexOf<V>(chain: seq<Entry<V>>, code: int): (k: nat)
    ensures k <= |chain|
    ensures k < |chain| ==> chain[k].code == code
    ensures forall j :: 0 <= j < k ==> chain[j].code != code
  {
    if |chain| == 0 || chain[0].code == code then 0 else 1 + IndexOf(chain[1..], code)
  }

  function Get<V>(t: Table<V>, code: int): Option<V>
    requires 0 < |t|
  {
    var chain := t[Position(code, |t|)];
    var k := IndexOf(chain, code);
    if k < |chain| then Some(chain[k].value) else None
  }

  function Put<V>(t: Table<V>, code: int, value: V): (Table<V>, bool)
    requires 0 < |t|
  {
    var pos := Position(code, |t|);
    if IndexOf(t[pos], code) < |t[pos]| then (t, false)
    else (t[pos := t[pos] + [Entry(code, value)]], true)
  }

  /** Unlinking index `k`: the first node takes the rest of the chain with it. */
  function Unlink<T>(chain: seq<T>, k: nat): seq<T>
    requires k < |chain|
  {
    if k == 0 then [] else chain[..k] + chain[k + 1..]
  }

  function Delete<V>(t: Table<V>, code: int): (Table<V>, Option<V>)
    requires 0 < |t|
  {
    var pos := Position(code, |t|);
    var k := IndexOf(t[pos], code);
    if k == |t[pos]| then (t, None)
    else (t[pos := Unlink(t[pos], k)], Some(t[pos][k].value))
  }

  /** Every entry sits in the bucket of its code, and no code occurs twice. */
  ghost predicate WellPlaced<V>(t: Table<V>) {
    && 0 < |t|
    && (forall b, k :: 0 <= b < |t| && 0 <= k < |t[b]| ==> Position(t[b][k].code, |t|) == b)
    && (forall b, j, k :: 0 <= b < |t| && 0 <= j < k < |t[b]| ==> t[b][j].code != t[b][k].code)
  }

  ghost function Codes<V>(t: Table<V>): set<int> {
    set b, k | 0 <= b < |t| && 0 <= k < |t[b]| :: t[b][k].code
  }

  /** The value of some stored entry with this code, wherever it is. */
  ghost function StoredValue<V>(t: Table<V>, code: int): V
    requires code in Codes(t)
  {
    var b, k :| 0 <= b < |t| && 0 <= k < |t[b]| && t[b][k].code == code;
    t[b][k].value
  }

  /** The finite map the table stands for: its stored entries, without regard to how they are searched. */
  ghost function AsMap<V>(t: Table<V>): (m: map<int, V>)
    requires WellPlaced(t)
  {
    map code | code in Codes(t) :: StoredValue(t, code)
  }

  lemma {:induction false} PositionIsModulo(code: int, n: int)
    requires 0 < n
    ensures Position(code, n) == code % n
  {
    if code < 0 {
      var rest := (-code) % n;
      assert -code == n * ((-code) / n) + rest;
      if rest == 0 {
        QuotientIs(code, n, -((-code) / n), 0);
      } else {
        assert n * (-((-code) / n) - 1) == -(n * ((-code) / n)) - n;
        QuotientIs(code, n, -((-code) / n) - 1, n - rest);
      }
    }
  }

  /** No two entries of a table have one code. */
  lemma {:induction false} EntriesDiffer<V>(t: Table<V>, a: int, j: int, b: int, k: int)
    requires WellPlaced(t) && 0 <= a < |t| && 0 <= j < |t[a]| && 0 <= b < |t| && 0 <= k < |t[b]|
    requires t[a][j].code == t[b][k].code
    ensures a == b && j == k
  {
    assert Position(t[a][j].code, |t|) == a && Position(t[b][k].code, |t|) == b;
  }

  /** Every stored entry is in the map, with its value, and `get` returns it. */
  lemma {:induction false} EntryIsInMap<V>(t: Table<V>, b: nat, k: nat)
    requires WellPlaced(t) && b < |t| && k < |t[b]|
    ensures t[b][k].code in AsMap(t) && AsMap(t)[t[b][k].code] == t[b][k].value
    ensures Get(t, t[b][k].code) == Some(t[b][k].value)
  {
    var code := t[b][k].code;
    assert code in Codes(t);
    var a, j :| 0 <= a < |t| && 0 <= j < |t[a]| && t[a][j].code == code && StoredValue(t, code) == t[a][j].value;
    EntriesDiffer(t, a, j, b, k);
    IndexIs(t[b], code, k);
  }

  /** A code is in the map exactly if its chain holds it, at one index only. */
  lemma {:induction false} InCodes<V>(t: Table<V>, code: int)
    requires WellPlaced(t)
    ensures code in Codes(t) <==> Get(t, code).Some?
    ensures code in AsMap(t) <==> Get(t, code).Some?
  {
    var pos := Position(code, |t|);
    var k := IndexOf(t[pos], code);
    if k < |t[pos]| {
      assert t[pos][k].code in Codes(t);
    }
  }

  /** `get` gives the map's answer for every code. */
  lemma {:induction false} GetIsLookup<V>(t: Table<V>, code: int)
    requires WellPlaced(t)
    ensures Get(t, code) == if code in AsMap(t) then Some(AsMap(t)[code]) else None
  {
    InCodes(t, code);
    var pos := Position(code, |t|);
    var k := IndexOf(t[pos], code);
    if k < |t[pos]| {
      EntryIsInMap(t, pos, k);
    }
  }

  /** Two tables stand for the same map when `get` cannot tell them apart. */
  lemma {:induction false} SameMap<V>(t: Table<V>, m: map<int, V>)
    requires WellPlaced(t)
    requires forall code :: Get(t, code) == if code in m then Some(m[code]) else None
    ensures AsMap(t) == m
  {
    hide Get, WellPlaced, Codes;
    var stored := AsMap(t);
    forall code ensures code in stored <==> code in m
                ensures code in stored ==> stored[code] == m[code]
    {
      GetIsLookup(t, code);
    }
    assert stored == m;
  }

  /** A bucket changes; `get` is unchanged for codes of the others. */
  lemma {:induction false} OtherBuckets<V>(t: Table<V>, pos: nat, chain: seq<Entry<V>>, code: int)
    requires WellPlaced(t) && pos < |t| && Position(code, |t|) != pos
    ensures Get(t[pos := chain], code) == Get(t, code)
  {
  }

  lemma {:induction false} IndexIs<V>(chain: seq<Entry<V>>, code: int, k: nat)
    requires k <= |chain|
    requires k < |chain| ==> chain[k].code == code
    requires forall j :: 0 <= j < k ==> chain[j].code != code
    ensures IndexOf(chain, code) == k
  {
  }

  /** `put` adds the code if and only if the map does not have it, and changes nothing else. */
  lemma {:induction false} PutIsInsert<V>(t: Table<V>, code: int, value: V)
    requires WellPlaced(t)
    ensures var (after, done) := Put(t, code, value);
            && WellPlaced(after) && |after| == |t|
            && (done <==> code !in AsMap(t))
            && AsMap(after) == if done then AsMap(t)[code := value] else AsMap(t)
  {
    InCodes(t, code);
    var (after, done) := Put(t, code, value);
    if done {
      var pos := Position(code, |t|);
      var m := AsMap(t)[code := value];
      forall c ensures Get(after, c) == if c in m then Some(m[c]) else None {
        GetIsLookup(t, c);
        if c == code {
          IndexIs(after[pos], c, |t[pos]|);
        } else if Position(c, |t|) == pos {
          var k := IndexOf(t[pos], c);
          IndexIs(after[pos], c, if k < |t[pos]| then k else k + 1);
        } else {
          OtherBuckets(t, pos, after[pos], c);
        }
      }
      SameMap(after, m);
    }
  }

  /** The codes that share the bucket of `code`. */
  ghost function BucketCodes<V>(t: Table<V>, code: int): set<int>
    requires 0 < |t|
  {
    set c | c in Codes(t) && Position(c, |t|) == Position(code, |t|)
  }

  /** The place of a present code in its chain. */
  function Place<V>(t: Table<V>, code: int): nat
    requires 0 < |t|
  {
    IndexOf(t[Position(code, |t|)], code)
  }

  lemma {:induction false} DeleteKeepsPlaces<V>(t: Table<V>, code: int)
    requires WellPlaced(t)
    ensures var (after, found) := Delete(t, code);
            WellPlaced(after) && |after| == |t| && found == Get(t, code) && (found.None? ==> after == t)
  {
  }

  /**
   `del` on a node with a predecessor removes that code only; on the first node it removes
   every code of the bucket.
   */
  lemma {:induction false} DeleteEffect<V>(t: Table<V>, code: int)
    requires WellPlaced(t)
    ensures var (after, found) := Delete(t, code);
            && WellPlaced(after) && |after| == |t|
            && found == Get(t, code)
            && AsMap(after) == if found.None? then AsMap(t)
                               else if 0 < Place(t, code) then AsMap(t) - {code}
                               else AsMap(t) - BucketCodes(t, code)
  {
    var (after, found) := Delete(t, code);
    DeleteKeepsPlaces(t, code);
    hide Get, Delete, WellPlaced, Codes, AsMap;
    if found.Some? {
      var gone := if 0 < Place(t, code) then {code} else BucketCodes(t, code);
      var m := AsMap(t) - gone;
      forall c ensures Get(after, c) == if c in m then Some(m[c]) else None {
        GetIsLookup(t, c);
        InCodes(t, c);
        GetAfterDelete(t, code, c);
      }
      SameMap(after, m);
    }
  }

  lemma {:induction false} GetAfterDelete<V>(t: Table<V>, code: int, c: int)
    requires WellPlaced(t) && Get(t, code).Some?
    ensures Get(Delete(t, code).0, c)
         == if c == code || (Place(t, code) == 0 && Position(c, |t|) == Position(code, |t|)) then None
            else Get(t, c)
  {
    var pos, place := Position(code, |t|), Place(t, code);
    var chain, rest := t[pos], Delete(t, code).0[pos];
    if Position(c, |t|) != pos {
      OtherBuckets(t, pos, rest, c);
    } else if 0 < place {
      var k := IndexOf(chain, c);
      IndexIs(rest, c, if c == code then |rest| else if k < place then k else k - 1);
    }
  }

  /** Deleting removes exactly the code asked for if and only if the code is absent, has a predecessor in
      its chain, or is alone there. */
  lemma {:induction false} DeleteIsRemoveIff<V>(t: Table<V>, code: int)
    requires WellPlaced(t)
    ensures AsMap(Delete(t, code).0) == AsMap(t) - {code}
       <==> Get(t, code).None? || 0 < Place(t, code) || |t[Position(code, |t|)]| == 1
  {
    DeleteEffect(t, code);
    InCodes(t, code);
    var chain := t[Position(code, |t|)];
    if Get(t, code).Some? && Place(t, code) == 0 {
      if |chain| == 1 {
        forall c | c in BucketCodes(t, code) ensures c == code {
          InCodes(t, c);
        }
        assert BucketCodes(t, code) == {code} by {
          assert chain[0].code in Codes(t);
        }
      } else {
        var other := chain[1].code;
        assert other in Codes(t) && other in BucketCodes(t, code);
        InCodes(t, other);
        assert other in AsMap(t) - {code} && other !in AsMap(t) - BucketCodes(t, code);
      }
    }
  }

  /** Two codes in one bucket of two: deleting the first loses the second. */
  lemma {:induction false} DeleteLosesTheRest()
    ensures var t: Table<int> := [[Entry(0, 7), Entry(2, 8)], []];
            && WellPlaced(t)
            && Get(t, 2) == Some(8)
            && Get(Delete(t, 0).0, 2) == None
  {
  }
}
