/** The second linear-hashing map, the one behind the common cache
    interface: the same bucket splitting, but an insertion of a present key
    overwrites its value, a removal only marks the node deleted, a lookup
    ignores that mark, and the size counts the unmarked nodes. */
module LinearHashing {
  import opened MathUtil
  import opened LinearBuckets

  /** What a node holds besides its key */
  datatype Record = Record(value: int, deleted: bool)

  /** The keys the size counts: those not marked deleted */
  function LiveKeys(m: map<nat, Record>): set<nat>
  {
    set k | k in m && !m[k].deleted
  }

  function LiveNodes(c: seq<Node<Record>>): nat
  {
    if c == [] then 0
    else LiveNodes(c[..|c| - 1]) + (if c[|c| - 1].payload.deleted then 0 else 1)
  }

  function TotalLive(t: seq<seq<Node<Record>>>): nat
  {
    if t == [] then 0 else TotalLive(t[..|t| - 1]) + LiveNodes(t[|t| - 1])
  }

  /** The keys of the live nodes of a bucket */
  function LiveKeySet(c: seq<Node<Record>>): set<nat>
  {
    if c == [] then {}
    else LiveKeySet(c[..|c| - 1]) + (if c[|c| - 1].payload.deleted then {} else {c[|c| - 1].key})
  }

  /** The live keys stored in buckets below b */
  ghost function LiveBelow(m: map<nat, Record>, i: nat, n: nat, b: nat): set<nat>
  {
    set k | k in m && !m[k].deleted && BucketIndex(k, i, n) < b
  }

  lemma {:induction false} LiveKeySetMember(c: seq<Node<Record>>, k: nat)
    ensures k in LiveKeySet(c) <==> exists j :: 0 <= j < |c| && c[j].key == k && !c[j].payload.deleted
  {
    if c != [] {
      var p := c[..|c| - 1];
      LiveKeySetMember(p, k);
      if exists j :: 0 <= j < |p| && p[j].key == k && !p[j].payload.deleted {
        var j :| 0 <= j < |p| && p[j].key == k && !p[j].payload.deleted;
        assert c[j] == p[j];
      }
      if exists j :: 0 <= j < |c| && c[j].key == k && !c[j].payload.deleted {
        var j :| 0 <= j < |c| && c[j].key == k && !c[j].payload.deleted;
        if j < |p| {
          assert p[j] == c[j];
        }
      }
    }
  }

  /** In a bucket with distinct keys, each live node counts one key. */
  lemma {:induction false} LiveNodesCount(c: seq<Node<Record>>)
    requires DistinctKeys(c)
    ensures LiveNodes(c) == |LiveKeySet(c)|
  {
    if c != [] {
      var p, x := c[..|c| - 1], c[|c| - 1];
      LiveNodesCount(p);
      LiveKeySetMember(p, x.key);
    }
  }

  /** The live keys of bucket b are the live keys of the map whose bucket
      is b. */
  /** The live keys whose bucket is b */
  ghost function LiveIn(m: map<nat, Record>, i: nat, n: nat, b: nat): set<nat>
  {
    set k | k in m && !m[k].deleted && BucketIndex(k, i, n) == b
  }

  /** The live keys below bucket b + 1 are those below b and those of b. */
  lemma LiveBelowStep(m: map<nat, Record>, i: nat, n: nat, b: nat)
    ensures |LiveBelow(m, i, n, b + 1)| == |LiveBelow(m, i, n, b)| + |LiveIn(m, i, n, b)|
  {
    assert LiveBelow(m, i, n, b + 1) == LiveBelow(m, i, n, b) + LiveIn(m, i, n, b);
    assert LiveBelow(m, i, n, b) * LiveIn(m, i, n, b) == {};
  }

  lemma BucketLiveKeys(t: seq<seq<Node<Record>>>, i: nat, n: nat, m: map<nat, Record>, b: nat)
    requires Shaped(i, n) && Holds(t, i, n, m) && b < |t|
    ensures LiveKeySet(t[b]) == LiveIn(m, i, n, b)
  {
    forall k | k in LiveKeySet(t[b])
      ensures k in m && !m[k].deleted && BucketIndex(k, i, n) == b
    {
      LiveKeySetMember(t[b], k);
      var j :| 0 <= j < |t[b]| && t[b][j].key == k && !t[b][j].payload.deleted;
      NodeStored(t, i, n, m, b, j);
    }
    forall k | k in LiveIn(m, i, n, b)
      ensures k in LiveKeySet(t[b])
    {
      var j := KeyNode(t, i, n, m, k);
      LiveKeySetMember(t[b], k);
    }
  }

  lemma {:induction false} TotalLivePrefix(t: seq<seq<Node<Record>>>, i: nat, n: nat, m: map<nat, Record>, b: nat)
    requires Shaped(i, n) && Holds(t, i, n, m) && b <= |t|
    ensures TotalLive(t[..b]) == |LiveBelow(m, i, n, b)|
  {
    if b > 0 {
      TotalLivePrefix(t, i, n, m, b - 1);
      assert t[..b][..b - 1] == t[..b - 1];
      BucketLiveKeys(t, i, n, m, b - 1);
      assert DistinctKeys(t[b - 1]);
      LiveNodesCount(t[b - 1]);
      LiveBelowStep(m, i, n, b - 1);
    }
  }

  /** Counting the live nodes of every bucket counts the live keys. */
  lemma TotalLiveKeys(t: seq<seq<Node<Record>>>, i: nat, n: nat, m: map<nat, Record>)
    requires Shaped(i, n) && Holds(t, i, n, m)
    ensures TotalLive(t) == |LiveKeys(m)|
  {
    TotalLivePrefix(t, i, n, m, |t|);
    assert t[..|t|] == t;
    assert LiveBelow(m, i, n, |t|) == LiveKeys(m);
  }

  /** Values, in bucket order, of the nodes of c whose key is at most end,
      whether marked deleted or not */
  function ValuesUpTo(c: seq<Node<Record>>, end: nat): seq<int>
  {
    if c == [] then []
    else ValuesUpTo(c[..|c| - 1], end) + (if c[|c| - 1].key <= end then [c[|c| - 1].payload.value] else [])
  }

  /** ValuesUpTo of the buckets lo..hi-1, one after the other */
  function Gather(t: seq<seq<Node<Record>>>, lo: nat, hi: nat, end: nat): seq<int>
    requires lo <= hi <= |t|
    decreases hi
  {
    if lo == hi then [] else Gather(t, lo, hi - 1, end) + ValuesUpTo(t[hi - 1], end)
  }

  /** The answer of the range query as written. For a single key it is the
      value of that key when its bucket holds it. Otherwise the end key's
      hash code is taken without halving: when it is the start key's bucket,
      every value of that bucket whose key is at most end, with no lower
      bound; below it, nothing; above it, the buckets from the start key's
      up to it, whose access past the last bucket throws (None). */
  function RangeAnswer(t: seq<seq<Node<Record>>>, i: nat, n: nat, start: nat, end: nat): Option<seq<int>>
    requires Shaped(i, n) && |t| == n
  {
    var s := BucketIndex(start, i, n);
    if start == end && Find(t[s], start).Some? then Some([Find(t[s], start).value.value])
    else
      var e := HashCode(end, i);
      if s == e then Some(ValuesUpTo(t[s], end))
      else if s > e then Some([])
      else if e >= n then None
      else Some(Gather(t, s, e + 1, end))
  }

  lemma {:induction false} ValuesUpToMember(c: seq<Node<Record>>, end: nat, x: int)
    ensures x in ValuesUpTo(c, end) <==> exists j :: 0 <= j < |c| && c[j].key <= end && c[j].payload.value == x
  {
    if c != [] {
      var p := c[..|c| - 1];
      ValuesUpToMember(p, end, x);
      if exists j :: 0 <= j < |p| && p[j].key <= end && p[j].payload.value == x {
        var j :| 0 <= j < |p| && p[j].key <= end && p[j].payload.value == x;
        assert c[j] == p[j];
      }
      if exists j :: 0 <= j < |c| && c[j].key <= end && c[j].payload.value == x {
        var j :| 0 <= j < |c| && c[j].key <= end && c[j].payload.value == x;
        if j < |p| {
          assert p[j] == c[j];
        }
      }
    }
  }

  /** The values a bucket yields up to end are those of the stored keys of
      that bucket at most end, deleted or not, however small. */
  lemma BucketValues(t: seq<seq<Node<Record>>>, i: nat, n: nat, m: map<nat, Record>, b: nat, end: nat, x: int)
    requires Shaped(i, n) && Holds(t, i, n, m) && b < |t|
    ensures x in ValuesUpTo(t[b], end) <==> StoredIn(m, i, n, b, b + 1, end, x)
  {
    var c := t[b];
    ValuesUpToMember(c, end, x);
    if x in ValuesUpTo(c, end) {
      var j :| 0 <= j < |c| && c[j].key <= end && c[j].payload.value == x;
      NodeStored(t, i, n, m, b, j);
      var k := c[j].key;
      assert k in m && b <= BucketIndex(k, i, n) < b + 1 && k <= end && m[k].value == x;
    }
    if StoredIn(m, i, n, b, b + 1, end, x) {
      var k :| k in m && b <= BucketIndex(k, i, n) < b + 1 && k <= end && m[k].value == x;
      var j := KeyNode(t, i, n, m, k);
      assert c[j].key <= end && c[j].payload.value == x;
    }
  }

  /** Every node of the table is a stored key of its bucket. */
  lemma NodeStored(t: seq<seq<Node<Record>>>, i: nat, n: nat, m: map<nat, Record>, b: nat, j: nat)
    requires Holds(t, i, n, m) && b < |t| && j < |t[b]|
    ensures t[b][j].key in m && m[t[b][j].key] == t[b][j].payload && BucketIndex(t[b][j].key, i, n) == b
  {
    assert Placed(t[b][j], i, n, b, m);
  }

  /** Every stored key has a node in its bucket. */
  lemma KeyNode(t: seq<seq<Node<Record>>>, i: nat, n: nat, m: map<nat, Record>, k: nat) returns (j: nat)
    requires Shaped(i, n) && Holds(t, i, n, m) && k in m
    ensures BucketIndex(k, i, n) < |t| && j < |t[BucketIndex(k, i, n)]|
    ensures t[BucketIndex(k, i, n)][j] == Node(k, m[k])
  {
    j := FindWitness(t[BucketIndex(k, i, n)], k);
  }

  /** Some stored key at most end, placed in a bucket lo..hi-1, has value x
      (deleted or not) */
  ghost predicate StoredIn(m: map<nat, Record>, i: nat, n: nat, lo: nat, hi: nat, end: nat, x: int)
  {
    exists k :: k in m && lo <= BucketIndex(k, i, n) < hi && k <= end && m[k].value == x
  }

  /** The values gathered from buckets lo..hi-1 are those of the stored
      keys of those buckets at most end. */
  lemma {:induction false} GatherValues(t: seq<seq<Node<Record>>>, i: nat, n: nat, m: map<nat, Record>,
                                        lo: nat, hi: nat, end: nat, x: int)
    requires Shaped(i, n) && Holds(t, i, n, m) && lo <= hi <= |t|
    ensures x in Gather(t, lo, hi, end) <==> StoredIn(m, i, n, lo, hi, end, x)
    decreases hi
  {
    if hi > lo {
      GatherValues(t, i, n, m, lo, hi - 1, end, x);
      BucketValues(t, i, n, m, hi - 1, end, x);
      GatherStep(t, i, n, m, lo, hi, end, x);
    }
  }

  /** One more bucket gathered: the step of GatherValues, apart from the
      table invariant */
  lemma GatherStep(t: seq<seq<Node<Record>>>, i: nat, n: nat, m: map<nat, Record>,
                   lo: nat, hi: nat, end: nat, x: int)
    requires lo < hi <= |t|
    requires x in Gather(t, lo, hi - 1, end) <==> StoredIn(m, i, n, lo, hi - 1, end, x)
    requires x in ValuesUpTo(t[hi - 1], end) <==> StoredIn(m, i, n, hi - 1, hi, end, x)
    ensures x in Gather(t, lo, hi, end) <==> StoredIn(m, i, n, lo, hi, end, x)
  {
    if StoredIn(m, i, n, lo, hi, end, x) {
      var k :| k in m && lo <= BucketIndex(k, i, n) < hi && k <= end && m[k].value == x;
      if BucketIndex(k, i, n) < hi - 1 {
        assert x in Gather(t, lo, hi - 1, end);
      } else {
        assert x in ValuesUpTo(t[hi - 1], end);
      }
    }
  }

  /** A range query from a stored key to itself answers its value. */
  lemma RangeSingleHit(t: seq<seq<Node<Record>>>, i: nat, n: nat, m: map<nat, Record>, key: nat)
    requires Shaped(i, n) && Holds(t, i, n, m) && key in m
    ensures RangeAnswer(t, i, n, key, key) == Some([m[key].value])
  {
    LookupHolds(t, i, n, m, key);
  }

  /** A range query whose end key's hash code is past the last bucket and
      past the start key's bucket throws. */
  lemma RangeThrows(t: seq<seq<Node<Record>>>, i: nat, n: nat, start: nat, end: nat)
    requires Shaped(i, n) && |t| == n && start != end
    requires HashCode(end, i) >= n
    ensures RangeAnswer(t, i, n, start, end) == None
  {
  }

  /** The bucket with every node marked not deleted */
  function Revived(c: seq<Node<Record>>): (r: seq<Node<Record>>)
    ensures |r| == |c|
  {
    seq(|c|, x requires 0 <= x < |c| => Node(c[x].key, Record(c[x].payload.value, false)))
  }

  /** The rebuild as written: n + 1 buckets, but every node rehashed with
      the old i and n, and rebuilt unmarked. At n == 2^i no hash code needs
      halving, so every node goes back to the bucket it came from, marked
      live again, and the new bucket n stays empty. */
  method RehashAsWritten(t: seq<seq<Node<Record>>>, i: nat, n: nat, ghost m: map<nat, Record>)
    returns (nt: seq<seq<Node<Record>>>)
    requires Shaped(i, n) && n == Pow2(i) && Holds(t, i, n, m)
    ensures |nt| == n + 1 && nt[n] == []
    ensures forall b :: 0 <= b < n ==> nt[b] == Revived(t[b])
  {
    nt := [];
    var j := 0;
    while j < n + 1
      invariant j <= n + 1 && nt == Empties(j)
    {
      nt := nt + [[]];
      j := j + 1;
    }
    var b := 0;
    while b < |t|
      invariant b <= |t| && |nt| == n + 1
      invariant forall b' :: 0 <= b' < n + 1 ==> nt[b'] == if b' < b then Revived(t[b']) else []
    {
      nt := RehashBucketAsWritten(t, i, n, m, nt, b);
      b := b + 1;
    }
  }

  method RehashBucketAsWritten(t: seq<seq<Node<Record>>>, i: nat, n: nat, ghost m: map<nat, Record>,
                               nt0: seq<seq<Node<Record>>>, b: nat)
    returns (nt: seq<seq<Node<Record>>>)
    requires Shaped(i, n) && n == Pow2(i) && Holds(t, i, n, m) && b < |t| && |nt0| == n + 1
    requires forall b' :: 0 <= b' < n + 1 ==> nt0[b'] == if b' < b then Revived(t[b']) else []
    ensures |nt| == n + 1
    ensures forall b' :: 0 <= b' < n + 1 ==> nt[b'] == if b' <= b then Revived(t[b']) else []
  {
    nt := nt0;
    assert BucketPlaced(t[b], i, n, b, m);
    var j := 0;
    while j < |t[b]|
      invariant j <= |t[b]| && |nt| == n + 1
      invariant forall b' :: 0 <= b' < n + 1 && b' != b ==> nt[b'] == nt0[b']
      invariant nt[b] == Revived(t[b][..j])
    {
      var nd := t[b][j];
      // with the old i at n == 2^i the hash code is always below n, so the
      // halving the source applies here never happens
      var h := HashCode(nd.key, i);
      assert Placed(nd, i, n, b, m);
      assert Revived(t[b][..j + 1]) == Revived(t[b][..j]) + [Node(nd.key, Record(nd.payload.value, false))];
      nt := nt[h := nt[h] + [Node(nd.key, Record(nd.payload.value, false))]];
      j := j + 1;
    }
    assert t[b][..|t[b]|] == t[b];
  }

  /** The defect of the rebuild as written: a stored key whose hash code
      for the new i + 1 bits is n is then looked up in the new bucket n,
      which the rebuild left empty. */
  lemma RebuildLosesKey(t: seq<seq<Node<Record>>>, i: nat, n: nat, m: map<nat, Record>,
                        nt: seq<seq<Node<Record>>>, k: nat)
    requires n == Pow2(i) && |nt| == n + 1 && nt[n] == []
    requires HashCode(k, i + 1) == n
    ensures BucketIndex(k, i + 1, n + 1) == n && Find(nt[BucketIndex(k, i + 1, n + 1)], k) == None
  {
  }

  /** A concrete table the rebuild as written loses a key of: 2 buckets
      for 1 bit holding key 2 in bucket 0. With 2 bits key 2 belongs to the
      new bucket 2, which the rebuild as written leaves empty. */
  lemma RebuildScenario()
    ensures
      var t := [[Node(2, Record(7, false))], []];
      var m := map[2 := Record(7, false)];
      && Shaped(1, 2) && 2 == Pow2(1) && Holds(t, 1, 2, m)
      && HashCode(2, 2) == 2
  {
    var t := [[Node(2, Record(7, false))], []];
    var m := map[2 := Record(7, false)];
    assert Pow2(1) == 2 && Pow2(2) == 4;
    assert BucketIndex(2, 1, 2) == 0;
    assert Placed(t[0][0], 1, 2, 0, m);
  }

  /** A bucket never has more live nodes than nodes. */
  lemma {:induction false} LiveNodesAtMost(c: seq<Node<Record>>)
    ensures LiveNodes(c) <= |c|
  {
    if c != [] {
      LiveNodesAtMost(c[..|c| - 1]);
    }
  }

  /** A bucket holding a node marked deleted has fewer live nodes than
      nodes. */
  lemma {:induction false} MarkedBelow(c: seq<Node<Record>>, j: nat)
    requires j < |c| && c[j].payload.deleted
    ensures LiveNodes(c) < |c|
  {
    var p := c[..|c| - 1];
    if j == |c| - 1 {
      LiveNodesAtMost(p);
    } else {
      assert p[j] == c[j];
      MarkedBelow(p, j);
    }
  }

  /** Every node of a revived bucket is live. */
  lemma {:induction false} RevivedLive(c: seq<Node<Record>>)
    ensures LiveNodes(Revived(c)) == |c|
  {
    if c != [] {
      var p := c[..|c| - 1];
      assert Revived(c)[..|c| - 1] == Revived(p);
      RevivedLive(p);
    }
  }

  /** Reviving the first b buckets never lowers their live count. */
  lemma {:induction false} RevivedAtLeast(t: seq<seq<Node<Record>>>, nt: seq<seq<Node<Record>>>, b: nat)
    requires b <= |t| && b <= |nt| && forall y :: 0 <= y < b ==> nt[y] == Revived(t[y])
    ensures TotalLive(nt[..b]) >= TotalLive(t[..b])
  {
    if b > 0 {
      RevivedAtLeast(t, nt, b - 1);
      assert nt[..b][..b - 1] == nt[..b - 1] && t[..b][..b - 1] == t[..b - 1];
      LiveNodesAtMost(t[b - 1]);
      RevivedLive(t[b - 1]);
    }
  }

  /** Reviving the first b buckets raises their live count when one of
      them held a node marked deleted. */
  lemma {:induction false} RevivedAbove(t: seq<seq<Node<Record>>>, nt: seq<seq<Node<Record>>>, b: nat, x: nat, j: nat)
    requires b <= |t| && b <= |nt| && forall y :: 0 <= y < b ==> nt[y] == Revived(t[y])
    requires x < b && j < |t[x]| && t[x][j].payload.deleted
    ensures TotalLive(nt[..b]) > TotalLive(t[..b])
  {
    assert nt[..b][..b - 1] == nt[..b - 1] && t[..b][..b - 1] == t[..b - 1];
    RevivedLive(t[b - 1]);
    if x == b - 1 {
      RevivedAtLeast(t, nt, b - 1);
      MarkedBelow(t[b - 1], j);
    } else {
      RevivedAbove(t, nt, b - 1, x, j);
      LiveNodesAtMost(t[b - 1]);
    }
  }

  /** The second defect of the rebuild as written: every node is rebuilt
      unmarked, so a key removed before the rebuild is live after it, and
      the size, which counts the unmarked nodes, grows. */
  lemma RebuildRevives(t: seq<seq<Node<Record>>>, i: nat, n: nat, m: map<nat, Record>,
                       nt: seq<seq<Node<Record>>>, k: nat)
    requires Shaped(i, n) && Holds(t, i, n, m) && k in m && m[k].deleted
    requires |nt| == n + 1 && nt[n] == [] && forall b :: 0 <= b < n ==> nt[b] == Revived(t[b])
    ensures k !in LiveKeys(m)
    ensures BucketIndex(k, i, n) < n && k in LiveKeySet(nt[BucketIndex(k, i, n)])
    ensures TotalLive(nt) > TotalLive(t) == |LiveKeys(m)|
  {
    var b := BucketIndex(k, i, n);
    var j := KeyNode(t, i, n, m, k);
    LiveKeySetMember(nt[b], k);
    assert nt[b][j].key == k && !nt[b][j].payload.deleted;
    RevivedAbove(t, nt, n, b, j);
    assert nt[..n] == nt[..|nt| - 1] && t[..n] == t;
    TotalLiveKeys(t, i, n, m);
  }

  /** Replacing the payload of a stored node keeps the table holding the
      map updated at that key, which keeps its number of keys. */
  lemma ReplaceHolds(t: seq<seq<Node<Record>>>, i: nat, n: nat, m: map<nat, Record>, b: nat, j: nat, p: Record)
    requires Holds(t, i, n, m) && b < |t| && j < |t[b]|
    ensures t[b][j].key in m && |m[t[b][j].key := p]| == |m|
    ensures Holds(t[b := t[b][j := Node(t[b][j].key, p)]], i, n, m[t[b][j].key := p])
  {
    NodeStored(t, i, n, m, b, j);
    HoldsReplace(t, i, n, m, b, j, p);
  }

  class LinearHashMap {
    var buckets: seq<seq<Node<Record>>>
    /** the number of hash bits */
    var i: nat
    var numBuckets: nat
    var numRecords: nat
    /** the load bound: the table grows once numRecords > p * numBuckets */
    const p: int
    /** every key in the table, with its value and deletion mark */
    ghost var Contents: map<nat, Record>

    ghost predicate Valid()
      reads this
    {
      && p == 1
      && numBuckets == |buckets|
      && Shaped(i, numBuckets)
      && Holds(buckets, i, numBuckets, Contents)
      && numRecords == |Contents|
    }

    /** A new map has one empty bucket, no hash bits and no records. */
    constructor ()
      ensures Valid() && Contents == map[]
      ensures buckets == [[]] && i == 0 && numBuckets == 1 && numRecords == 0
    {
      p := 1;
      buckets := [[]];
      i := 0;
      numBuckets := 1;
      numRecords := 0;
      Contents := map[];
      HoldsEmpty<Record>(0, 1);
      assert Empties<Record>(1) == [[]];
    }

    /** Adding a present key overwrites its value in place, keeping its
        deletion mark, and reports no growth; adding an absent key appends
        it unmarked, counts it, grows the table when the load bound is
        exceeded, and reports growth. */
    method Add(key: nat, value: int) returns (success: bool, grew: bool)
      requires Valid()
      modifies this
      ensures Valid() && success
      ensures grew <==> key !in old(Contents)
      ensures Contents == if grew then old(Contents)[key := Record(value, false)]
                          else old(Contents)[key := Record(value, old(Contents)[key].deleted)]
      ensures numRecords == old(numRecords) + (if grew then 1 else 0)
      ensures !grew || numRecords <= p * old(numBuckets) ==> i == old(i) && numBuckets == old(numBuckets)
      ensures grew && numRecords > p * old(numBuckets) ==>
        && numBuckets == old(numBuckets) + 1
        && i == if old(numBuckets) == Pow2(old(i)) then old(i) + 1 else old(i)
    {
      var h := HashCode(key, i);
      if h >= numBuckets {
        h := h / 2;
      }
      var j := Locate(buckets[h], key);
      LookupHolds(buckets, i, numBuckets, Contents, key);
      success := true;
      if j < |buckets[h]| {
        var payload := Record(value, buckets[h][j].payload.deleted);
        ReplaceHolds(buckets, i, numBuckets, Contents, h, j, payload);
        buckets := buckets[h := buckets[h][j := Node(key, payload)]];
        Contents := Contents[key := payload];
        grew := false;
      } else {
        HoldsPush(buckets, i, numBuckets, Contents, key, Record(value, false));
        buckets := buckets[h := buckets[h] + [Node(key, Record(value, false))]];
        Contents := Contents[key := Record(value, false)];
        numRecords := numRecords + 1;
        grew := true;
        if numRecords > p * numBuckets {
          if numBuckets == Pow2(i) {
            Rebuild();
          } else {
            Split();
          }
        }
      }
    }

    /** The corrected rebuild at 2^i buckets: one more hash bit and one
        more bucket, every record rehashed for the new bit count with its
        value and its deletion mark. The rebuild as written rehashes with
        the old bit count and clears the marks (RehashAsWritten,
        RebuildLosesKey, RebuildRevives). */
    method Rebuild()
      requires Shaped(i, numBuckets) && numBuckets == Pow2(i) && Holds(buckets, i, numBuckets, Contents)
      modifies this
      ensures Shaped(i, numBuckets) && Holds(buckets, i, numBuckets, Contents)
      ensures i == old(i) + 1 && numBuckets == old(numBuckets) + 1
      ensures Contents == old(Contents) && numRecords == old(numRecords)
    {
      var newMap := RehashAll(buckets, i, numBuckets, Contents);
      i := i + 1;
      numBuckets := numBuckets + 1;
      buckets := newMap;
    }

    /** Below 2^i buckets: bucket n is added for the old count n and takes
        over the records of bucket n / 2 whose hash code is n. */
    method Split()
      requires Shaped(i, numBuckets) && numBuckets < Pow2(i) && Holds(buckets, i, numBuckets, Contents)
      modifies this
      ensures Shaped(i, numBuckets) && Holds(buckets, i, numBuckets, Contents)
      ensures i == old(i) && numBuckets == old(numBuckets) + 1
      ensures buckets == SplitTable(old(buckets), i, old(numBuckets))
      ensures Contents == old(Contents) && numRecords == old(numRecords)
    {
      var n := numBuckets;
      var moved, kept := SplitBucket(buckets[n / 2], i, n);
      HoldsSplit(buckets, i, n, Contents);
      buckets := buckets[n / 2 := kept] + [moved];
      numBuckets := n + 1;
    }

    /** Removal marks the key's node deleted and reports whether the key
        was in the table, marked already or not. */
    method Remove(key: nat) returns (removed: bool)
      requires Valid()
      modifies this
      ensures Valid()
      ensures removed <==> key in old(Contents)
      ensures Contents == if removed then old(Contents)[key := Record(old(Contents)[key].value, true)] else old(Contents)
      ensures i == old(i) && numBuckets == old(numBuckets) && numRecords == old(numRecords)
    {
      var h := HashCode(key, i);
      if h >= numBuckets {
        h := h / 2;
      }
      var j := Locate(buckets[h], key);
      LookupHolds(buckets, i, numBuckets, Contents, key);
      if j < |buckets[h]| {
        var payload := Record(buckets[h][j].payload.value, true);
        ReplaceHolds(buckets, i, numBuckets, Contents, h, j, payload);
        buckets := buckets[h := buckets[h][j := Node(key, payload)]];
        Contents := Contents[key := payload];
        removed := true;
      } else {
        removed := false;
      }
    }

    /** A key is reported present whenever its bucket holds it, marked
        deleted or not. */
    method Contains(key: nat) returns (found: bool)
      requires Valid()
      ensures found <==> key in Contents
    {
      var h := HashCode(key, i);
      if h >= numBuckets {
        h := h / 2;
      }
      var j := Locate(buckets[h], key);
      LookupHolds(buckets, i, numBuckets, Contents, key);
      found := j < |buckets[h]|;
    }

    method RangeQuery(start: nat, end: nat) returns (result: Option<seq<int>>)
      requires Valid()
      ensures result == RangeAnswer(buckets, i, numBuckets, start, end)
    {
      var s := HashCode(start, i);
      if s >= numBuckets {
        s := s / 2;
      }
      var single := false;
      result := None;
      if start == end {
        var j := Locate(buckets[s], start);
        if j < |buckets[s]| {
          result := Some([buckets[s][j].payload.value]);
          single := true;
        }
      }
      if !single {
        var e := HashCode(end, i);
        if s == e {
          var values := CollectUpTo(buckets[s], end);
          result := Some(values);
        } else if s > e {
          result := Some([]);
        } else {
          result := GatherRange(buckets, s, e, end);
        }
      }
    }

    /** Counts the nodes not marked deleted: the live keys. */
    method Size() returns (total: nat)
      requires Valid()
      ensures total == |LiveKeys(Contents)|
    {
      total := 0;
      var b := 0;
      while b < numBuckets
        invariant b <= numBuckets && total == TotalLive(buckets[..b])
      {
        var count := CountLive(buckets[b]);
        assert buckets[..b + 1][..b] == buckets[..b];
        total := total + count;
        b := b + 1;
      }
      assert buckets[..numBuckets] == buckets;
      TotalLiveKeys(buckets, i, numBuckets, Contents);
    }
  }

  /** The scan of one bucket collecting the values of the nodes whose key
      is at most end */
  method CollectUpTo(c: seq<Node<Record>>, end: nat) returns (values: seq<int>)
    ensures values == ValuesUpTo(c, end)
  {
    values := [];
    var j := 0;
    while j < |c|
      invariant j <= |c| && values == ValuesUpTo(c[..j], end)
    {
      assert c[..j + 1][..j] == c[..j];
      if c[j].key <= end {
        values := values + [c[j].payload.value];
      }
      j := j + 1;
    }
    assert c[..|c|] == c;
  }

  /** The scan of buckets s..e, which throws (None) on reaching a bucket
      past the last one */
  method GatherRange(t: seq<seq<Node<Record>>>, s: nat, e: nat, end: nat) returns (result: Option<seq<int>>)
    requires s <= e && s <= |t|
    ensures result == if e >= |t| then None else Some(Gather(t, s, e + 1, end))
  {
    var values: seq<int> := [];
    var b := s;
    var thrown := false;
    while b <= e && !thrown
      invariant s <= b <= |t| && b <= e + 1
      invariant !thrown ==> values == Gather(t, s, b, end)
      invariant thrown ==> e >= |t|
      invariant b == e + 1 ==> !thrown
      decreases e + 1 - b, if thrown then 0 else 1
    {
      if b >= |t| {
        thrown := true;
      } else {
        var more := CollectUpTo(t[b], end);
        values := values + more;
        b := b + 1;
      }
    }
    result := if thrown then None else Some(values);
  }

  method CountLive(c: seq<Node<Record>>) returns (count: nat)
    ensures count == LiveNodes(c)
  {
    count := 0;
    var j := 0;
    while j < |c|
      invariant j <= |c| && count == LiveNodes(c[..j])
    {
      assert c[..j + 1][..j] == c[..j];
      if !c[j].payload.deleted {
        count := count + 1;
      }
      j := j + 1;
    }
    assert c[..|c|] == c;
  }
}
