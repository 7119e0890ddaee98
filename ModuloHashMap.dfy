/** The sequential chained hash map indexed by the hash modulo the number
    of buckets. Every bucket is an embedded head slot that never holds a
    key, followed by the nodes appended to it in insertion order; removal
    leaves a tombstone, and an insertion that finds the chain already at
    its limit doubles the table, re-adds the live nodes and retries. */
module ModuloHashMap {
  import opened MathUtil
  import opened Chains

  /** The bucket of a key in a table of n buckets */
  function BucketOf(hash: int -> Hash, n: nat): int -> int
  {
    k => if n == 0 then 0 else hash(k) % n
  }

  /** The table invariant: every appended node sits in the bucket of its
      key's hash, no chain holds a key twice, and while the table can still
      double no chain has more appended nodes than the limit. */
  ghost predicate Shaped(t: seq<seq<Entry>>, hash: int -> Hash, limit: nat)
  {
    && Placed(t, BucketOf(hash, |t|))
    && AllDistinct(t)
    && (2 * |t| <= LongMax ==> forall b :: 0 <= b < |t| ==> |t[b]| <= limit)
  }

  lemma ShapedEmpty(t: seq<seq<Entry>>, hash: int -> Hash, limit: nat)
    requires forall b :: 0 <= b < |t| ==> t[b] == []
    ensures Shaped(t, hash, limit) && TableMap(t) == map[]
  {
    EmptyTable(t, BucketOf(hash, |t|));
  }

  /** Replacing a chain by one of the same bucket with distinct keys, short
      enough while the table can double, keeps the table invariant. */
  lemma ShapedReplace(t: seq<seq<Entry>>, hash: int -> Hash, limit: nat, b: int, c: seq<Entry>)
    requires Shaped(t, hash, limit) && 0 <= b < |t|
    requires ChainIn(c, BucketOf(hash, |t|), b) && DistinctKeys(c)
    requires 2 * |t| <= LongMax ==> |c| <= limit
    ensures Shaped(t[b := c], hash, limit)
  {
    PlacedReplace(t, BucketOf(hash, |t|), b, c);
  }

  /** The walk shared by insertion, removal and lookup: from the head slot,
      which never holds a key, move on while the node does not hold the key
      sought, counting the nodes passed, the head slot included. It stops on
      the node holding the key, or past the last node. */
  method Find(c: seq<Entry>, key: int) returns (j: nat, counter: nat)
    ensures j <= |c| && counter == j + 1
    ensures j < |c| ==> c[j].key == key
    ensures forall i :: 0 <= i < j ==> c[i].key != key
  {
    j, counter := 0, 1;
    while j < |c| && c[j].key != key
      invariant j <= |c| && counter == j + 1
      invariant forall i :: 0 <= i < j ==> c[i].key != key
    {
      j := j + 1;
      counter := counter + 1;
    }
  }

  class HashMap {
    var table: array<seq<Entry>>
    var numBuckets: nat
    const chainLengthMax: nat
    const hash0: int -> Hash
    ghost var Contents: map<int, int>

    ghost predicate Valid()
      reads this, table
    {
      && table.Length == numBuckets
      && 1 <= numBuckets <= LongMax
      && Shaped(table[..], hash0, chainLengthMax)
      && Contents == TableMap(table[..])
    }

    /** Every bucket starts as a head slot with nothing appended. */
    constructor (initBuckets: nat, initChainLength: nat, hash: int -> Hash)
      requires 1 <= initBuckets <= LongMax
      ensures Valid() && Contents == map[]
      ensures numBuckets == initBuckets && chainLengthMax == initChainLength && hash0 == hash
    {
      chainLengthMax := initChainLength;
      hash0 := hash;
      table := new seq<Entry>[0];
      new;
      ClearTable(initBuckets);
    }

    /** Replaces the table by a fresh one of n empty buckets. */
    method ClearTable(n: nat)
      requires 1 <= n <= LongMax
      modifies this
      ensures Valid() && Contents == map[] && fresh(table) && numBuckets == n
      ensures NoTombstones(table[..])
    {
      table := new seq<Entry>[n](_ => []);
      numBuckets := n;
      Contents := map[];
      ShapedEmpty(table[..], hash0, chainLengthMax);
    }

    /** Bucket b's chain becomes c, which stores what the old chain stored
        plus key |-> value. */
    method PutChain(b: nat, c: seq<Entry>, ghost key: int, ghost value: int)
      requires Valid() && b < table.Length && BucketOf(hash0, numBuckets)(key) == b
      requires ChainIn(c, BucketOf(hash0, numBuckets), b) && DistinctKeys(c)
      requires 2 * numBuckets <= LongMax ==> |c| <= chainLengthMax
      requires ChainMap(c) == ChainMap(table[b])[key := value]
      modifies table, this`Contents
      ensures Valid() && Contents == old(Contents)[key := value]
      ensures table[..] == old(table[..])[b := c]
    {
      ghost var t := table[..];
      table[b] := c;
      Contents := Contents[key := value];
      assert table[..] == t[b := c];
      ShapedReplace(t, hash0, chainLengthMax, b, c);
      TableMapPut(t, BucketOf(hash0, numBuckets), b, c, key, value);
    }

    /** Bucket b's chain becomes c, which stores what the old chain stored
        except key. */
    method DropChain(b: nat, c: seq<Entry>, ghost key: int)
      requires Valid() && b < table.Length && BucketOf(hash0, numBuckets)(key) == b
      requires ChainIn(c, BucketOf(hash0, numBuckets), b) && DistinctKeys(c) && |c| == |table[b]|
      requires ChainMap(c) == ChainMap(table[b]) - {key}
      modifies table, this`Contents
      ensures Valid() && Contents == old(Contents) - {key}
    {
      ghost var t := table[..];
      table[b] := c;
      Contents := Contents - {key};
      assert table[..] == t[b := c];
      ShapedReplace(t, hash0, chainLengthMax, b, c);
      TableMapDrop(t, BucketOf(hash0, numBuckets), b, c, key);
    }

    /** Overwrites the value of the node at position j of bucket b's chain,
        which holds the key, and makes it live; reports whether it was a
        tombstone. */
    method Overwrite(b: nat, j: nat, key: int, value: int) returns (revived: bool)
      requires Valid() && b < table.Length && BucketOf(hash0, numBuckets)(key) == b
      requires j < |table[b]| && table[b][j].key == key
      modifies table, this`Contents
      ensures Valid() && Contents == old(Contents)[key := value]
      ensures revived == (key !in old(Contents))
      ensures NoTombstones(old(table[..])) ==> NoTombstones(table[..])
    {
      var c := table[b];
      revived := !c[j].inUse;
      var e := Entry(key, value, true);
      TableMapAt(table[..], BucketOf(hash0, numBuckets), key);
      ChainMapAt(c, j);
      ChainMapUpdate(c, j, e);
      ChainSameKeys(c, j, e, BucketOf(hash0, numBuckets), b);
      PutChain(b, c[j := e], key, value);
    }

    /** Turns the live node at position j of bucket b's chain, which holds
        the key, into a tombstone. */
    method MarkRemoved(b: nat, j: nat, key: int)
      requires Valid() && b < table.Length && BucketOf(hash0, numBuckets)(key) == b
      requires j < |table[b]| && table[b][j].key == key
      modifies table, this`Contents
      ensures Valid() && Contents == old(Contents) - {key}
    {
      var c := table[b];
      var e := c[j].(inUse := false);
      ChainMapUpdate(c, j, e);
      ChainSameKeys(c, j, e, BucketOf(hash0, numBuckets), b);
      DropChain(b, c[j := e], key);
    }

    /** Appends a new live node key |-> value after the last node of
        bucket b, whose chain does not hold the key. */
    method Append(b: nat, key: int, value: int)
      requires Valid() && b < table.Length && BucketOf(hash0, numBuckets)(key) == b
      requires forall i :: 0 <= i < |table[b]| ==> table[b][i].key != key
      requires 2 * numBuckets <= LongMax ==> |table[b]| < chainLengthMax
      modifies table, this`Contents
      ensures Valid() && Contents == old(Contents)[key := value]
      ensures NoTombstones(old(table[..])) ==> NoTombstones(table[..])
    {
      var c := table[b];
      var e := Entry(key, value, true);
      ChainAppend(c, e, BucketOf(hash0, numBuckets), b);
      PutChain(b, c + [e], key, value);
    }

    /** Inserts or overwrites key |-> value. The second result reports
        whether the key was absent (or only a tombstone) before. */
    method Add(key: int, value: int) returns (success: bool, grew: bool)
      requires Valid()
      modifies this, table
      ensures Valid()
      ensures success && grew == (key !in old(Contents))
      ensures Contents == old(Contents)[key := value]
      ensures old(numBuckets) <= numBuckets
      ensures table == old(table) || fresh(table)
      ensures NoTombstones(old(table[..])) ==> NoTombstones(table[..])
      decreases LongMax - numBuckets, 3
    {
      var index := hash0(key) % numBuckets;
      var c := table[index];
      var j, counter := Find(c, key);
      if j < |c| {
        grew := Overwrite(index, j, key, value);
        return true, grew;
      }
      TableMapAt(table[..], BucketOf(hash0, numBuckets), key);
      ChainMapMissing(c, key);
      if counter > chainLengthMax && 2 * numBuckets <= LongMax {
        Resize();
        success, grew := Add(key, value);
        return;
      }
      Append(index, key, value);
      return true, true;
    }

    /** Doubles the number of buckets and re-adds every live node;
        tombstones are dropped, so the new table holds none. */
    method Resize()
      requires Valid() && 2 * numBuckets <= LongMax
      modifies this
      ensures Valid() && Contents == old(Contents)
      ensures numBuckets >= 2 * old(numBuckets) && fresh(table)
      ensures NoTombstones(table[..])
      decreases LongMax - numBuckets, 2
    {
      var oldChains := table[..];
      ghost var n := numBuckets;
      ClearTable(numBuckets * 2);
      ReAddTable(oldChains, n);
    }

    /** Re-adds every chain of the table a resize is replacing, bucket by
        bucket, into the (empty) new table. */
    method ReAddTable(chains: seq<seq<Entry>>, ghost n: nat)
      requires Valid() && numBuckets > n && Contents == map[]
      modifies this, table
      ensures Valid() && Contents == TableMap(chains)
      ensures numBuckets >= old(numBuckets) && (table == old(table) || fresh(table))
      ensures NoTombstones(old(table[..])) ==> NoTombstones(table[..])
      decreases LongMax - n, 1
    {
      var i := 0;
      while i < |chains|
        invariant 0 <= i <= |chains|
        invariant Valid() && numBuckets > n
        invariant numBuckets >= old(numBuckets) && (table == old(table) || fresh(table))
        invariant Contents == TableMap(chains[..i])
        invariant NoTombstones(old(table[..])) ==> NoTombstones(table[..])
      {
        ReAddChain(chains[i], n);
        assert chains[..i + 1][..i] == chains[..i];
        i := i + 1;
      }
      assert chains[..i] == chains;
    }

    /** Re-adds, front to back, the live nodes of one chain of the table
        a resize is replacing. */
    method ReAddChain(c: seq<Entry>, ghost n: nat)
      requires Valid() && numBuckets > n
      modifies this, table
      ensures Valid() && Contents == old(Contents) + ChainMap(c)
      ensures numBuckets >= old(numBuckets) && (table == old(table) || fresh(table))
      ensures NoTombstones(old(table[..])) ==> NoTombstones(table[..])
      decreases LongMax - n, 0
    {
      var j := 0;
      while j < |c|
        invariant 0 <= j <= |c|
        invariant Valid() && numBuckets >= old(numBuckets) && (table == old(table) || fresh(table))
        invariant Contents == old(Contents) + ChainMap(c[..j])
        invariant NoTombstones(old(table[..])) ==> NoTombstones(table[..])
      {
        if c[j].inUse {
          var ok, grew := Add(c[j].key, c[j].value);
          MapUnionUpdate(old(Contents), ChainMap(c[..j]), c[j].key, c[j].value);
        }
        ChainMapSnoc(c, j);
        j := j + 1;
      }
      assert c[..j] == c;
    }

    /** Marks the key's node as a tombstone; reports whether the key was
        stored. */
    method Remove(key: int) returns (removed: bool)
      requires Valid()
      modifies table, this`Contents
      ensures Valid()
      ensures removed == (key in old(Contents))
      ensures Contents == old(Contents) - {key}
    {
      var index := hash0(key) % numBuckets;
      var c := table[index];
      TableMapAt(table[..], BucketOf(hash0, numBuckets), key);
      var j, _ := Find(c, key);
      if j < |c| {
        ChainMapAt(c, j);
        if !c[j].inUse {
          return false;
        }
        MarkRemoved(index, j, key);
        return true;
      }
      ChainMapMissing(c, key);
      return false;
    }

    method Contains(key: int) returns (found: bool)
      requires Valid()
      ensures found == (key in Contents)
    {
      var index := hash0(key) % numBuckets;
      var c := table[index];
      TableMapAt(table[..], BucketOf(hash0, numBuckets), key);
      var j, _ := Find(c, key);
      if j < |c| {
        ChainMapAt(c, j);
        return c[j].inUse;
      }
      ChainMapMissing(c, key);
      return false;
    }

    /** This map answers no range queries: the result is always null. */
    method RangeQuery(start: int, end: int) returns (values: Option<seq<int>>)
      ensures values == None
    {
      return None;
    }

    /** Counts the live nodes of every chain (head slots are never live):
        the number of stored keys. */
    method Size() returns (total: nat)
      requires Valid()
      ensures total == |Contents|
    {
      total := 0;
      var i := 0;
      while i < numBuckets
        invariant 0 <= i <= numBuckets
        invariant total == TotalLive(table[..i])
      {
        var c := table[i];
        var j := 0;
        while j < |c|
          invariant 0 <= j <= |c|
          invariant total == TotalLive(table[..i]) + LiveCount(c[..j])
        {
          assert c[..j + 1][..j] == c[..j];
          if c[j].inUse {
            total := total + 1;
          }
          j := j + 1;
        }
        assert c[..j] == c;
        assert table[..i + 1][..i] == table[..i];
        i := i + 1;
      }
      assert table[..numBuckets] == table[..];
      TotalLiveSize(table[..], BucketOf(hash0, numBuckets));
    }
  }
}
