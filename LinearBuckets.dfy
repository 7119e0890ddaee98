/** Linear hashing (Litwin-style bucket splitting) as both linear-hashing
    maps do it. With i hash bits and n buckets, where 2^(i-1) < n <= 2^i,
    a key's hash code is `key % 2^i`, and a code that names a bucket not
    created yet is halved once. The table grows either by one bucket, split
    off an older one, or, once n == 2^i, by a rebuild with one more bit.
    The payload `P` is what a node stores besides its key. */
module LinearBuckets {
  import opened MathUtil

  datatype Node<P> = Node(key: nat, payload: P)

  /** `key % 2^i`: the low i bits of a non-negative key */
  function HashCode(key: nat, i: nat): (r: nat)
    ensures r < Pow2(i)
  {
    key % Pow2(i)
  }

  /** n buckets suit i hash bits: at most 2^i of them, and more than
      2^(i-1) once i >= 1 */
  predicate Shaped(i: nat, n: nat)
  {
    1 <= n <= Pow2(i) && (i >= 1 ==> Pow2(i - 1) < n)
  }

  /** The bucket of a key: its hash code, halved once when no bucket has
      that number yet. On a shaped table it always names a bucket. */
  function BucketIndex(key: nat, i: nat, n: nat): (r: nat)
    ensures Shaped(i, n) ==> r < n
  {
    var h := HashCode(key, i);
    if h < n then h
    else
      HalvedInRange(h, i, n);
      h / 2
  }

  lemma HalvedInRange(h: nat, i: nat, n: nat)
    requires h < Pow2(i)
    ensures Shaped(i, n) ==> h / 2 < n
  {
    if i >= 1 {
      assert Pow2(i) == 2 * Pow2(i - 1);
    }
  }

  /** Adding bucket n moves exactly the keys whose hash code is n, out of
      bucket n / 2 and into bucket n; every other key keeps its bucket. */
  lemma IndexAfterSplit(k: nat, i: nat, n: nat)
    ensures HashCode(k, i) == n ==> BucketIndex(k, i, n) == n / 2 && BucketIndex(k, i, n + 1) == n
    ensures HashCode(k, i) != n ==> BucketIndex(k, i, n + 1) == BucketIndex(k, i, n)
  {
  }

  /** A rebuild with one more bit at n == 2^i leaves a shaped table. */
  lemma ShapedRebuilt(i: nat, n: nat)
    requires n == Pow2(i)
    ensures Shaped(i + 1, n + 1)
  {
    assert Pow2(i + 1) == 2 * Pow2(i);
  }

  /** The payload of the first node of c holding key k: the answer of the
      linear scan of one bucket */
  function Find<P>(c: seq<Node<P>>, k: nat): Option<P>
  {
    if c == [] then None
    else if c[0].key == k then Some(c[0].payload)
    else Find(c[1..], k)
  }

  predicate DistinctKeys<P>(c: seq<Node<P>>)
  {
    forall a, b :: 0 <= a < b < |c| ==> c[a].key != c[b].key
  }

  function Empties<P>(n: nat): (t: seq<seq<Node<P>>>)
    ensures |t| == n && forall b :: 0 <= b < n ==> t[b] == []
  {
    seq(n, _ => [])
  }

  lemma {:induction false} FindSnoc<P>(c: seq<Node<P>>, x: Node<P>, k: nat)
    ensures Find(c + [x], k) ==
      if Find(c, k).Some? then Find(c, k)
      else if x.key == k then Some(x.payload)
      else None
  {
    if c == [] {
      assert [] + [x] == [x];
    } else {
      assert (c + [x])[1..] == c[1..] + [x];
      FindSnoc(c[1..], x, k);
    }
  }

  lemma {:induction false} FindMissing<P>(c: seq<Node<P>>, k: nat)
    requires forall j :: 0 <= j < |c| ==> c[j].key != k
    ensures Find(c, k) == None
  {
    if c != [] {
      FindMissing(c[1..], k);
    }
  }

  lemma {:induction false} FindWitness<P>(c: seq<Node<P>>, k: nat) returns (j: nat)
    requires Find(c, k).Some?
    ensures j < |c| && c[j] == Node(k, Find(c, k).value)
  {
    if c[0].key == k {
      j := 0;
    } else {
      var j' := FindWitness(c[1..], k);
      j := j' + 1;
    }
  }

  /** Replacing the payload of a node, in a bucket with distinct keys, is
      what a lookup of that key then answers; other keys are unaffected. */
  lemma {:induction false} FindReplace<P>(c: seq<Node<P>>, j: nat, p: P, k: nat)
    requires j < |c| && DistinctKeys(c)
    ensures Find(c[j := Node(c[j].key, p)], k) == if k == c[j].key then Some(p) else Find(c, k)
  {
    var c' := c[j := Node(c[j].key, p)];
    if j == 0 {
      if k != c[0].key {
        assert c'[1..] == c[1..];
      }
    } else {
      assert c'[1..] == c[1..][j - 1 := Node(c[j].key, p)];
      FindReplace(c[1..], j - 1, p, k);
    }
  }

  /** Node nd may sit in bucket b of a table for i bits and n buckets that
      stores the map m. */
  ghost predicate Placed<P>(nd: Node<P>, i: nat, n: nat, b: nat, m: map<nat, P>)
  {
    BucketIndex(nd.key, i, n) == b && nd.key in m && m[nd.key] == nd.payload
  }

  ghost predicate BucketPlaced<P>(c: seq<Node<P>>, i: nat, n: nat, b: nat, m: map<nat, P>)
  {
    forall j :: 0 <= j < |c| ==> Placed(c[j], i, n, b, m)
  }

  /** The table t, of n buckets for i bits, stores exactly the map m: every
      node sits in its key's bucket and carries that key's payload, no
      bucket holds a key twice, and every key of m is found in its bucket. */
  ghost predicate Holds<P>(t: seq<seq<Node<P>>>, i: nat, n: nat, m: map<nat, P>)
  {
    && |t| == n
    && (forall b :: 0 <= b < |t| ==> BucketPlaced(t[b], i, n, b, m) && DistinctKeys(t[b]))
    && (forall k :: k in m ==> BucketIndex(k, i, n) < |t| && Find(t[BucketIndex(k, i, n)], k) == Some(m[k]))
  }

  /** Scanning a key's bucket answers exactly what the stored map says. */
  lemma LookupHolds<P>(t: seq<seq<Node<P>>>, i: nat, n: nat, m: map<nat, P>, k: nat)
    requires Shaped(i, n) && Holds(t, i, n, m)
    ensures Find(t[BucketIndex(k, i, n)], k) == if k in m then Some(m[k]) else None
  {
    var b := BucketIndex(k, i, n);
    if Find(t[b], k).Some? {
      var j := FindWitness(t[b], k);
      assert Placed(t[b][j], i, n, b, m);
    }
  }

  lemma HoldsEmpty<P>(i: nat, n: nat)
    ensures Holds(Empties<P>(n), i, n, map[])
  {
  }

  /** Appending a node for an absent key to the back of its bucket stores
      that key as well. */
  lemma HoldsPush<P>(t: seq<seq<Node<P>>>, i: nat, n: nat, m: map<nat, P>, k: nat, p: P)
    requires Shaped(i, n) && Holds(t, i, n, m) && k !in m
    ensures Holds(t[BucketIndex(k, i, n) := t[BucketIndex(k, i, n)] + [Node(k, p)]], i, n, m[k := p])
  {
    var b := BucketIndex(k, i, n);
    var t' := t[b := t[b] + [Node(k, p)]];
    var m' := m[k := p];
    forall b' | 0 <= b' < |t'|
      ensures BucketPlaced(t'[b'], i, n, b', m') && DistinctKeys(t'[b'])
    {
      assert BucketPlaced(t[b'], i, n, b', m);
    }
    LookupHolds(t, i, n, m, k);
    FindSnoc(t[b], Node(k, p), k);
    forall k' | k' in m'
      ensures BucketIndex(k', i, n) < |t'| && Find(t'[BucketIndex(k', i, n)], k') == Some(m'[k'])
    {
      if k' != k && BucketIndex(k', i, n) == b {
        FindSnoc(t[b], Node(k, p), k');
      }
    }
  }

  /** Overwriting the payload of a stored node stores the new payload for
      its key and changes nothing else. */
  lemma HoldsReplace<P>(t: seq<seq<Node<P>>>, i: nat, n: nat, m: map<nat, P>, b: nat, j: nat, p: P)
    requires Holds(t, i, n, m) && b < |t| && j < |t[b]|
    ensures Holds(t[b := t[b][j := Node(t[b][j].key, p)]], i, n, m[t[b][j].key := p])
  {
    var k := t[b][j].key;
    var t' := t[b := t[b][j := Node(k, p)]];
    var m' := m[k := p];
    assert Placed(t[b][j], i, n, b, m);
    forall b' | 0 <= b' < |t'|
      ensures BucketPlaced(t'[b'], i, n, b', m') && DistinctKeys(t'[b'])
    {
      assert BucketPlaced(t[b'], i, n, b', m);
    }
    forall k' | k' in m'
      ensures BucketIndex(k', i, n) < |t'| && Find(t'[BucketIndex(k', i, n)], k') == Some(m'[k'])
    {
      if BucketIndex(k', i, n) == b {
        FindReplace(t[b], j, p, k');
      }
    }
  }

  /** The nodes of c, in order, whose hash code is target (when moved
      holds) or is not (otherwise) */
  function Keep<P>(c: seq<Node<P>>, i: nat, target: nat, moved: bool): seq<Node<P>>
  {
    if c == [] then []
    else
      var x := c[|c| - 1];
      Keep(c[..|c| - 1], i, target, moved) + (if (HashCode(x.key, i) == target) == moved then [x] else [])
  }

  /** Whatever holds of every node of c holds of every node kept, and a
      kept node passed the filter. */
  lemma {:induction false} KeepAll<P>(c: seq<Node<P>>, i: nat, target: nat, moved: bool, f: Node<P> -> bool)
    requires forall j :: 0 <= j < |c| ==> f(c[j])
    ensures forall j :: 0 <= j < |Keep(c, i, target, moved)| ==>
      f(Keep(c, i, target, moved)[j]) && (HashCode(Keep(c, i, target, moved)[j].key, i) == target) == moved
  {
    if c != [] {
      KeepAll(c[..|c| - 1], i, target, moved, f);
    }
  }

  lemma {:induction false} KeepDistinct<P>(c: seq<Node<P>>, i: nat, target: nat, moved: bool)
    requires DistinctKeys(c)
    ensures DistinctKeys(Keep(c, i, target, moved))
  {
    if c != [] {
      var p, x := c[..|c| - 1], c[|c| - 1];
      KeepDistinct(p, i, target, moved);
      KeepAll(p, i, target, moved, (nd: Node<P>) => nd.key != x.key);
    }
  }

  /** Filtering a bucket answers the lookups of the keys that pass the
      filter as before, and finds nothing for the others. */
  lemma {:induction false} KeepFind<P>(c: seq<Node<P>>, i: nat, target: nat, moved: bool, k: nat)
    ensures Find(Keep(c, i, target, moved), k) ==
      if (HashCode(k, i) == target) == moved then Find(c, k) else None
  {
    if c != [] {
      var p, x := c[..|c| - 1], c[|c| - 1];
      assert c == p + [x];
      KeepFind(p, i, target, moved, k);
      FindSnoc(p, x, k);
      FindSnoc(Keep(p, i, target, moved), x, k);
      assert Keep(p, i, target, moved) + [] == Keep(p, i, target, moved);
    }
  }

  /** The table after bucket n is added: the nodes of bucket n / 2 whose
      hash code is n move to the new bucket, the others stay. */
  function SplitTable<P>(t: seq<seq<Node<P>>>, i: nat, n: nat): seq<seq<Node<P>>>
    requires n / 2 < |t|
  {
    t[n / 2 := Keep(t[n / 2], i, n, false)] + [Keep(t[n / 2], i, n, true)]
  }

  /** The nodes moved by a split belong to the new bucket n. */
  lemma PlacedMoved<P>(c: seq<Node<P>>, i: nat, n: nat, m: map<nat, P>)
    requires BucketPlaced(c, i, n, n / 2, m)
    ensures BucketPlaced(Keep(c, i, n, true), i, n + 1, n, m)
  {
    KeepAll(c, i, n, true, (nd: Node<P>) => Placed(nd, i, n, n / 2, m));
    forall nd: Node<P> ensures HashCode(nd.key, i) == n ==> BucketIndex(nd.key, i, n + 1) == n {
      IndexAfterSplit(nd.key, i, n);
    }
  }

  /** The nodes a split leaves behind still belong to bucket n / 2. */
  lemma PlacedKept<P>(c: seq<Node<P>>, i: nat, n: nat, m: map<nat, P>)
    requires BucketPlaced(c, i, n, n / 2, m)
    ensures BucketPlaced(Keep(c, i, n, false), i, n + 1, n / 2, m)
  {
    KeepAll(c, i, n, false, (nd: Node<P>) => Placed(nd, i, n, n / 2, m));
    forall nd: Node<P> ensures HashCode(nd.key, i) != n ==> BucketIndex(nd.key, i, n + 1) == BucketIndex(nd.key, i, n) {
      IndexAfterSplit(nd.key, i, n);
    }
  }

  /** A split does not concern the nodes of any other bucket. */
  lemma PlacedOther<P>(c: seq<Node<P>>, i: nat, n: nat, b: nat, m: map<nat, P>)
    requires b != n / 2 && BucketPlaced(c, i, n, b, m)
    ensures BucketPlaced(c, i, n + 1, b, m)
  {
    forall j | 0 <= j < |c|
      ensures Placed(c[j], i, n + 1, b, m)
    {
      assert Placed(c[j], i, n, b, m);
      IndexAfterSplit(c[j].key, i, n);
    }
  }

  /** Splitting while the table is below 2^i buckets stores the same map
      in a shaped table of one bucket more. */
  lemma HoldsSplit<P>(t: seq<seq<Node<P>>>, i: nat, n: nat, m: map<nat, P>)
    requires Shaped(i, n) && n < Pow2(i) && Holds(t, i, n, m)
    ensures Shaped(i, n + 1) && Holds(SplitTable(t, i, n), i, n + 1, m)
  {
    SplitPlaced(t, i, n, m);
    var t' := SplitTable(t, i, n);
    forall k | k in m
      ensures BucketIndex(k, i, n + 1) < |t'| && Find(t'[BucketIndex(k, i, n + 1)], k) == Some(m[k])
    {
      SplitFinds(t, i, n, k);
    }
  }

  /** After a split every bucket still holds distinct keys, each in its
      own bucket with its stored payload. */
  lemma SplitPlaced<P>(t: seq<seq<Node<P>>>, i: nat, n: nat, m: map<nat, P>)
    requires Shaped(i, n) && n < Pow2(i) && Holds(t, i, n, m)
    ensures forall b :: 0 <= b < n + 1 ==>
      BucketPlaced(SplitTable(t, i, n)[b], i, n + 1, b, m) && DistinctKeys(SplitTable(t, i, n)[b])
  {
    var s := n / 2;
    var t' := SplitTable(t, i, n);
    KeepDistinct(t[s], i, n, false);
    KeepDistinct(t[s], i, n, true);
    PlacedMoved(t[s], i, n, m);
    PlacedKept(t[s], i, n, m);
    forall b | 0 <= b < |t'| && b != s && b != n
      ensures BucketPlaced(t'[b], i, n + 1, b, m)
    {
      PlacedOther(t[b], i, n, b, m);
    }
  }

  /** After a split, a key is found in its new bucket as it was in its
      old one. */
  lemma SplitFinds<P>(t: seq<seq<Node<P>>>, i: nat, n: nat, k: nat)
    requires Shaped(i, n) && n < Pow2(i) && |t| == n
    ensures BucketIndex(k, i, n + 1) <= n
    ensures Find(SplitTable(t, i, n)[BucketIndex(k, i, n + 1)], k) == Find(t[BucketIndex(k, i, n)], k)
  {
    IndexAfterSplit(k, i, n);
    KeepFind(t[n / 2], i, n, false, k);
    KeepFind(t[n / 2], i, n, true, k);
  }

  /** Key k has been re-added once the rebuild has gone through buckets
      0..b-1 and the first j nodes of bucket b. */
  ghost predicate Visited<P>(t: seq<seq<Node<P>>>, i: nat, n: nat, k: nat, b: nat, j: nat)
  {
    var h := BucketIndex(k, i, n);
    h < b || (h == b && b < |t| && j <= |t[b]| && Find(t[b][..j], k).Some?)
  }

  /** Rebuild invariant: the new table nt, of n + 1 buckets for i + 1 bits,
      stores the part `done` of the old map m that has been visited. */
  ghost predicate Moved<P>(t: seq<seq<Node<P>>>, i: nat, n: nat, m: map<nat, P>,
                           nt: seq<seq<Node<P>>>, done: map<nat, P>, b: nat, j: nat)
  {
    && Holds(nt, i + 1, n + 1, done)
    && (forall k :: k in done ==> k in m && done[k] == m[k])
    && (forall k :: k in m ==> (k in done <==> Visited(t, i, n, k, b, j)))
  }

  lemma MoveStart<P>(t: seq<seq<Node<P>>>, i: nat, n: nat, m: map<nat, P>)
    ensures Moved(t, i, n, m, Empties(n + 1), map[], 0, 0)
  {
    HoldsEmpty<P>(i + 1, n + 1);
    forall k | k in m
      ensures !Visited(t, i, n, k, 0, 0)
    {
      if |t| > 0 {
        assert t[0][..0] == [];
      }
    }
  }

  /** Node j of bucket b is stored, and not visited before the rebuild
      reaches it. */
  lemma NotYetVisited<P>(t: seq<seq<Node<P>>>, i: nat, n: nat, m: map<nat, P>, b: nat, j: nat)
    requires Holds(t, i, n, m) && b < |t| && j < |t[b]|
    ensures Placed(t[b][j], i, n, b, m) && !Visited(t, i, n, t[b][j].key, b, j)
  {
    assert BucketPlaced(t[b], i, n, b, m);
    FindMissing(t[b][..j], t[b][j].key);
  }

  /** Visiting node j of bucket b visits its key and no other. */
  lemma VisitStep<P>(t: seq<seq<Node<P>>>, i: nat, n: nat, b: nat, j: nat, k: nat)
    requires b < |t| && j < |t[b]| && BucketIndex(t[b][j].key, i, n) == b
    ensures Visited(t, i, n, k, b, j + 1) <==> Visited(t, i, n, k, b, j) || k == t[b][j].key
  {
    assert t[b][..j + 1] == t[b][..j] + [t[b][j]];
    FindSnoc(t[b][..j], t[b][j], k);
  }

  /** Re-adding node j of bucket b to the back of its new bucket extends
      the rebuild invariant over that node. */
  lemma MoveStep<P>(t: seq<seq<Node<P>>>, i: nat, n: nat, m: map<nat, P>,
                    nt: seq<seq<Node<P>>>, done: map<nat, P>, b: nat, j: nat)
    requires Shaped(i + 1, n + 1) && b < |t| && j < |t[b]|
    requires Placed(t[b][j], i, n, b, m) && !Visited(t, i, n, t[b][j].key, b, j)
    requires Moved(t, i, n, m, nt, done, b, j)
    ensures
      var nd := t[b][j];
      var h := BucketIndex(nd.key, i + 1, n + 1);
      Moved(t, i, n, m, nt[h := nt[h] + [nd]], done[nd.key := nd.payload], b, j + 1)
  {
    var nd := t[b][j];
    HoldsPush(nt, i + 1, n + 1, done, nd.key, nd.payload);
    forall k | k in m
      ensures k in done[nd.key := nd.payload] <==> Visited(t, i, n, k, b, j + 1)
    {
      VisitStep(t, i, n, b, j, k);
    }
  }

  /** Past the last node of bucket b, every key of bucket b is visited. */
  lemma MoveNext<P>(t: seq<seq<Node<P>>>, i: nat, n: nat, m: map<nat, P>,
                    nt: seq<seq<Node<P>>>, done: map<nat, P>, b: nat)
    requires Shaped(i, n) && Holds(t, i, n, m)
    requires b < |t| && Moved(t, i, n, m, nt, done, b, |t[b]|)
    ensures Moved(t, i, n, m, nt, done, b + 1, 0)
  {
    assert t[b][..|t[b]|] == t[b];
    forall k | k in m
      ensures Visited(t, i, n, k, b, |t[b]|) <==> Visited(t, i, n, k, b + 1, 0)
    {
      if b + 1 < |t| {
        assert t[b + 1][..0] == [];
      }
    }
  }

  /** Past the last bucket, the new table stores the whole map. */
  lemma MoveDone<P>(t: seq<seq<Node<P>>>, i: nat, n: nat, m: map<nat, P>,
                    nt: seq<seq<Node<P>>>, done: map<nat, P>)
    requires Shaped(i, n) && |t| == n && Moved(t, i, n, m, nt, done, n, 0)
    ensures done == m
  {
    assert forall k :: k in m ==> k in done;
    assert done.Keys == m.Keys;
  }

  /** The linear scan of one bucket for a key: the position of the first
      node holding it, or the bucket's length when none does */
  method Locate<P>(c: seq<Node<P>>, key: nat) returns (j: nat)
    ensures j <= |c|
    ensures j < |c| ==> c[j].key == key && Find(c, key) == Some(c[j].payload)
    ensures j == |c| ==> Find(c, key) == None
  {
    j := 0;
    while j < |c| && c[j].key != key
      invariant j <= |c| && Find(c[j..], key) == Find(c, key)
    {
      assert c[j..][1..] == c[j + 1..];
      j := j + 1;
    }
  }

  /** The split loop: the nodes of bucket c whose hash code is the new
      bucket's number are copied to the new bucket, in order; the others are
      the ones that should stay. */
  method SplitBucket<P>(c: seq<Node<P>>, i: nat, target: nat) returns (moved: seq<Node<P>>, kept: seq<Node<P>>)
    ensures moved == Keep(c, i, target, true) && kept == Keep(c, i, target, false)
  {
    moved, kept := [], [];
    var index := 0;
    while index < |c|
      invariant index <= |c|
      invariant moved == Keep(c[..index], i, target, true)
      invariant kept == Keep(c[..index], i, target, false)
    {
      assert c[..index + 1][..index] == c[..index];
      if HashCode(c[index].key, i) == target {
        moved := moved + [c[index]];
      } else {
        kept := kept + [c[index]];
      }
      index := index + 1;
    }
    assert c[..|c|] == c;
  }

  /** The rebuild at n == 2^i: n + 1 empty buckets, then every node of every
      old bucket, in order, appended to its bucket for i + 1 bits. */
  method RehashAll<P>(t: seq<seq<Node<P>>>, i: nat, n: nat, ghost m: map<nat, P>) returns (nt: seq<seq<Node<P>>>)
    requires Shaped(i, n) && n == Pow2(i) && Holds(t, i, n, m)
    ensures Shaped(i + 1, n + 1) && Holds(nt, i + 1, n + 1, m)
  {
    ShapedRebuilt(i, n);
    nt := [];
    var j := 0;
    while j < n + 1
      invariant j <= n + 1 && nt == Empties(j)
    {
      nt := nt + [[]];
      j := j + 1;
    }
    ghost var done: map<nat, P> := map[];
    MoveStart(t, i, n, m);
    var b := 0;
    while b < |t|
      invariant b <= |t| && Moved(t, i, n, m, nt, done, b, 0)
    {
      nt, done := RehashBucket(t, i, n, m, nt, done, b);
      b := b + 1;
    }
    MoveDone(t, i, n, m, nt, done);
  }

  /** The inner rebuild loop over the nodes of old bucket b */
  method RehashBucket<P>(t: seq<seq<Node<P>>>, i: nat, n: nat, ghost m: map<nat, P>,
                         nt0: seq<seq<Node<P>>>, ghost done0: map<nat, P>, b: nat)
    returns (nt: seq<seq<Node<P>>>, ghost done: map<nat, P>)
    requires Shaped(i, n) && Shaped(i + 1, n + 1) && Holds(t, i, n, m)
    requires b < |t| && Moved(t, i, n, m, nt0, done0, b, 0)
    ensures Moved(t, i, n, m, nt, done, b + 1, 0)
  {
    nt, done := nt0, done0;
    var j := 0;
    while j < |t[b]|
      invariant j <= |t[b]| && Moved(t, i, n, m, nt, done, b, j)
    {
      var nd := t[b][j];
      var h := HashCode(nd.key, i + 1);
      if h >= n + 1 {
        h := h / 2;
      }
      NotYetVisited(t, i, n, m, b, j);
      MoveStep(t, i, n, m, nt, done, b, j);
      nt := nt[h := nt[h] + [nd]];
      done := done[nd.key := nd.payload];
      j := j + 1;
    }
    MoveNext(t, i, n, m, nt, done, b);
  }

  // The split as written: the loop records the positions of the nodes that
  // should stay, and the clean-up then erases those positions one after the
  // other from the live bucket, each erase shifting the later nodes down.

  /** Positions, in increasing order, of the nodes of c whose hash code is
      not target */
  function StayIndices<P>(c: seq<Node<P>>, i: nat, target: nat): seq<nat>
  {
    if c == [] then []
    else StayIndices(c[..|c| - 1], i, target) + (if HashCode(c[|c| - 1].key, i) != target then [|c| - 1] else [])
  }

  /** Erasing the given positions one after the other; None when a position
      is past the end of the shrunken bucket, an erase with undefined
      behaviour */
  function EraseEach<P>(c: seq<Node<P>>, indices: seq<nat>): Option<seq<Node<P>>>
  {
    if indices == [] then Some(c)
    else if indices[0] < |c| then EraseEach(c[..indices[0]] + c[indices[0] + 1..], indices[1..])
    else None
  }

  /** Both loops of the split as written: the new bucket receives the nodes
      whose hash code is target, and the old bucket is left with what the
      erasing of the stayers' positions leaves (undefined when an erase
      runs past the end). */
  method SplitAsWritten<P>(c: seq<Node<P>>, i: nat, target: nat)
    returns (moved: seq<Node<P>>, remaining: seq<Node<P>>, undefined: bool)
    ensures moved == Keep(c, i, target, true)
    ensures undefined <==> EraseEach(c, StayIndices(c, i, target)).None?
    ensures !undefined ==> remaining == EraseEach(c, StayIndices(c, i, target)).value
  {
    moved := [];
    var indices: seq<nat> := [];
    var index := 0;
    while index < |c|
      invariant index <= |c|
      invariant moved == Keep(c[..index], i, target, true)
      invariant indices == StayIndices(c[..index], i, target)
    {
      assert c[..index + 1][..index] == c[..index];
      if HashCode(c[index].key, i) == target {
        moved := moved + [c[index]];
      } else {
        indices := indices + [index];
      }
      index := index + 1;
    }
    assert c[..|c|] == c;
    remaining, undefined := c, false;
    var t := 0;
    while t < |indices| && !undefined
      invariant t <= |indices|
      invariant !undefined ==> EraseEach(c, indices) == EraseEach(remaining, indices[t..])
      invariant undefined ==> EraseEach(c, indices) == None
    {
      assert indices[t..][1..] == indices[t + 1..];
      if indices[t] < |remaining| {
        remaining := remaining[..indices[t]] + remaining[indices[t] + 1..];
      } else {
        undefined := true;
      }
      t := t + 1;
    }
  }

  lemma {:induction false} StayIndicesValid<P>(c: seq<Node<P>>, i: nat, target: nat)
    ensures forall t :: 0 <= t < |StayIndices(c, i, target)| ==>
      StayIndices(c, i, target)[t] < |c| && HashCode(c[StayIndices(c, i, target)[t]].key, i) != target
  {
    if c != [] {
      StayIndicesValid(c[..|c| - 1], i, target);
    }
  }

  lemma {:induction false} EraseKeepsAbsent<P>(c: seq<Node<P>>, indices: seq<nat>, k: nat)
    requires forall j :: 0 <= j < |c| ==> c[j].key != k
    ensures EraseEach(c, indices).Some? ==>
      forall j :: 0 <= j < |EraseEach(c, indices).value| ==> EraseEach(c, indices).value[j].key != k
  {
    if indices != [] && indices[0] < |c| {
      var e := indices[0];
      var c' := c[..e] + c[e + 1..];
      forall j | 0 <= j < |c'|
        ensures c'[j].key != k
      {
        if j < e {
          assert c'[j] == c[j];
        } else {
          assert c'[j] == c[j + 1];
        }
      }
      EraseKeepsAbsent(c', indices[1..], k);
    }
  }

  /** The defect of the split as written: whenever some node should stay,
      the first such node is erased, and since its hash code is not the new
      bucket's it is not copied there either. Its key is lost. */
  lemma EraseDropsStayer<P>(c: seq<Node<P>>, i: nat, target: nat)
    requires DistinctKeys(c) && StayIndices(c, i, target) != []
    ensures
      var j := StayIndices(c, i, target)[0];
      var left := EraseEach(c, StayIndices(c, i, target));
      && j < |c| && HashCode(c[j].key, i) != target
      && Find(Keep(c, i, target, true), c[j].key) == None
      && (left.Some? ==> Find(left.value, c[j].key) == None)
  {
    var indices := StayIndices(c, i, target);
    StayIndicesValid(c, i, target);
    var j := indices[0];
    var c' := c[..j] + c[j + 1..];
    forall x | 0 <= x < |c'|
      ensures c'[x].key != c[j].key
    {
      if x < j {
        assert c'[x] == c[x];
      } else {
        assert c'[x] == c[x + 1];
      }
    }
    EraseKeepsAbsent(c', indices[1..], c[j].key);
    var left := EraseEach(c, indices);
    if left.Some? {
      FindMissing(left.value, c[j].key);
    }
    KeepFind(c, i, target, true, c[j].key);
  }

  /** What the split should leave: the new bucket holds the nodes whose
      hash code is its number, the old bucket the others, and every lookup
      through either answers as the old bucket did. */
  lemma SplitKeepsLookups<P>(c: seq<Node<P>>, i: nat, target: nat, k: nat)
    ensures Find(if HashCode(k, i) == target then Keep(c, i, target, true) else Keep(c, i, target, false), k) == Find(c, k)
  {
    KeepFind(c, i, target, true, k);
    KeepFind(c, i, target, false, k);
  }
}
