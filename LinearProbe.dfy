/** The first linear-hashing map: a vector of buckets, each a vector of
    key/value nodes in insertion order. An insertion refuses a key already
    present; otherwise it appends the node and, when the number of records
    exceeds p times the number of buckets, grows the table by a split or,
    at 2^i buckets, by a rebuild with one more hash bit. */
module LinearProbe {
  import opened MathUtil
  import opened LinearBuckets

  class LinearHashMap {
    var hashMap: seq<seq<Node<int>>>
    /** the number of hash bits */
    var i: nat
    var numBuckets: nat
    var numRecords: nat
    /** the load bound: the table grows once numRecords > p * numBuckets */
    const p: int
    /** the key/value pairs stored */
    ghost var Contents: map<nat, int>

    ghost predicate Valid()
      reads this
    {
      && p == 1
      && numBuckets == |hashMap|
      && Shaped(i, numBuckets)
      && Holds(hashMap, i, numBuckets, Contents)
      && numRecords == |Contents|
    }

    /** A new map has one empty bucket, no hash bits and no records. */
    constructor ()
      ensures Valid() && Contents == map[]
      ensures hashMap == [[]] && i == 0 && numBuckets == 1 && numRecords == 0
    {
      p := 1;
      hashMap := [[]];
      i := 0;
      numBuckets := 1;
      numRecords := 0;
      Contents := map[];
      HoldsEmpty<int>(0, 1);
      assert Empties<int>(1) == [[]];
    }

    /** Inserting an absent key appends it to its bucket, counts it and
        grows the table when the load bound is exceeded; a key already
        present is refused and nothing changes. */
    method Insert(key: nat, value: int) returns (inserted: bool)
      requires Valid()
      modifies this
      ensures Valid()
      ensures inserted <==> key !in old(Contents)
      ensures Contents == if inserted then old(Contents)[key := value] else old(Contents)
      ensures !inserted ==> hashMap == old(hashMap) && i == old(i) && numBuckets == old(numBuckets) && numRecords == old(numRecords)
      ensures inserted ==> numRecords == old(numRecords) + 1
      ensures inserted && numRecords <= p * old(numBuckets) ==>
        var b := BucketIndex(key, old(i), old(numBuckets));
        && i == old(i) && numBuckets == old(numBuckets)
        && hashMap == old(hashMap)[b := old(hashMap)[b] + [Node(key, value)]]
      ensures inserted && numRecords > p * old(numBuckets) ==>
        && numBuckets == old(numBuckets) + 1
        && i == if old(numBuckets) == Pow2(old(i)) then old(i) + 1 else old(i)
    {
      var h := HashCode(key, i);
      if h >= numBuckets {
        h := h / 2;
      }
      var j := Locate(hashMap[h], key);
      LookupHolds(hashMap, i, numBuckets, Contents, key);
      if j < |hashMap[h]| {
        inserted := false;
      } else {
        HoldsPush(hashMap, i, numBuckets, Contents, key, value);
        hashMap := hashMap[h := hashMap[h] + [Node(key, value)]];
        Contents := Contents[key := value];
        numRecords := numRecords + 1;
        inserted := true;
        if numRecords > p * numBuckets {
          if numBuckets == Pow2(i) {
            Rebuild();
          } else {
            Split();
          }
        }
      }
    }

    /** At 2^i buckets: one more hash bit and one more bucket, and every
        record rehashed into the new table, none lost. */
    method Rebuild()
      requires Shaped(i, numBuckets) && numBuckets == Pow2(i) && Holds(hashMap, i, numBuckets, Contents)
      modifies this
      ensures Shaped(i, numBuckets) && Holds(hashMap, i, numBuckets, Contents)
      ensures i == old(i) + 1 && numBuckets == old(numBuckets) + 1
      ensures Contents == old(Contents) && numRecords == old(numRecords)
    {
      var newHashMap := RehashAll(hashMap, i, numBuckets, Contents);
      i := i + 1;
      numBuckets := numBuckets + 1;
      hashMap := newHashMap;
    }

    /** Below 2^i buckets: one more bucket, number n for the old count n,
        which takes over the records of bucket n / 2 (the source's
        `(num_buckets - 1) / 2` after the increment) whose hash code is n. */
    method Split()
      requires Shaped(i, numBuckets) && numBuckets < Pow2(i) && Holds(hashMap, i, numBuckets, Contents)
      modifies this
      ensures Shaped(i, numBuckets) && Holds(hashMap, i, numBuckets, Contents)
      ensures i == old(i) && numBuckets == old(numBuckets) + 1
      ensures hashMap == SplitTable(old(hashMap), i, old(numBuckets))
      ensures Contents == old(Contents) && numRecords == old(numRecords)
    {
      var n := numBuckets;
      var moved, kept := SplitBucket(hashMap[n / 2], i, n);
      HoldsSplit(hashMap, i, n, Contents);
      hashMap := hashMap[n / 2 := kept] + [moved];
      numBuckets := n + 1;
    }

    /** The lookup as written: the hash code is not halved, so a key whose
        hash code names no bucket yet is reported absent (0) even when it
        is stored. */
    method Get(key: nat) returns (value: int)
      requires Valid()
      ensures value == if HashCode(key, i) < numBuckets && key in Contents then Contents[key] else 0
    {
      var h := HashCode(key, i);
      value := 0;
      if h < numBuckets {
        var j := Locate(hashMap[h], key);
        LookupHolds(hashMap, i, numBuckets, Contents, key);
        if j < |hashMap[h]| {
          value := hashMap[h][j].payload;
        }
      }
    }

    /** The lookup with the halving that insertion applies: every stored
        key is found. */
    method IntendedGet(key: nat) returns (value: int)
      requires Valid()
      ensures value == if key in Contents then Contents[key] else 0
    {
      var h := HashCode(key, i);
      if h >= numBuckets {
        h := h / 2;
      }
      var j := Locate(hashMap[h], key);
      LookupHolds(hashMap, i, numBuckets, Contents, key);
      value := if j < |hashMap[h]| then hashMap[h][j].payload else 0;
    }
  }

  /** The map's own driver: 10 inserted, 10 refused, then 15 and 20. The
      second distinct key rebuilds to 2 buckets for 1 bit, the third to 3
      buckets for 2 bits. */
  method Driver() returns (mine: LinearHashMap, stored: bool)
    ensures fresh(mine) && mine.Valid() && stored
    ensures mine.i == 2 && mine.numBuckets == 3 && mine.Contents == map[10 := 20, 15 := 20, 20 := 20]
  {
    mine := new LinearHashMap();
    var first := mine.Insert(10, 20);
    assert mine.Contents == map[10 := 20] && mine.i == 0 && mine.numBuckets == 1;
    var again := mine.Insert(10, 20);
    assert mine.Contents == map[10 := 20] && mine.numRecords == 1;
    stored := mine.Insert(15, 20);
    assert mine.Contents == map[10 := 20, 15 := 20] && mine.i == 1 && mine.numBuckets == 2;
    var third := mine.Insert(20, 20);
  }

  /** After the driver, 15 % 4 == 3 names no bucket of the 3, so the
      lookup as written misses the stored 15 while the halving lookup
      finds it. */
  method DriverScenario() returns (stored: bool, got: int, intended: int)
    ensures stored && got == 0 && intended == 20
  {
    var mine;
    mine, stored := Driver();
    assert Pow2(2) == 4;
    got := mine.Get(15);
    intended := mine.IntendedGet(15);
  }

  /** The split as written on a concrete bucket: with 3 bits, bucket 2
      holds keys 2 and 5 when bucket 5 is added. Key 5 is copied to the new
      bucket but stays in bucket 2 as well, and key 2, which should stay,
      is erased. */
  lemma SplitEraseScenario()
    ensures
      var c := [Node(2, 0), Node(5, 0)];
      && StayIndices(c, 3, 5) == [0]
      && Keep(c, 3, 5, true) == [Node(5, 0)]
      && EraseEach(c, StayIndices(c, 3, 5)) == Some([Node(5, 0)])
  {
    var c := [Node(2, 0), Node(5, 0)];
    assert Pow2(3) == 8;
    assert c[..1] == [Node(2, 0)];
    assert c[..1][..0] == [];
  }
}
