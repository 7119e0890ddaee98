/** The sequential chained hash map with extendible sizing: 2^iBits buckets
    indexed by the top iBits bits of a 32-bit hash, each bucket a chain
    kept sorted by key; removal leaves a tombstone, and an insertion that
    would make a chain longer than the limit doubles the table instead. */
module SeqTradHashMap {
  import opened MathUtil
  import opened Chains

  /** A hash value as the map consumes it: 32 significant bits */
  type Hash32 = h: int | 0 <= h < 0x1_0000_0000

  /** Number of index bits; the index shift is 32 - iBits */
  type Bits = b: nat | b <= 32

  /** The bucket of hash h in a table of 2^bits buckets: the hash's top
      `bits` bits, i.e. h shifted right by 32 - bits. */
  function Index(h: Hash32, bits: Bits): (r: nat)
    ensures r < Pow2(bits)
  {
    ShiftRightDiv(h, 32 - bits);
    ShiftBelow(h, bits);
    ShiftRight(h, 32 - bits)
  }

  function BucketOf(hash: int -> Hash32, bits: Bits): int -> int
  {
    k => Index(hash(k), bits)
  }

  /** Shifting preserves the order of hash values. */
  lemma IndexMonotone(h1: Hash32, h2: Hash32, bits: Bits)
    requires h1 <= h2
    ensures Index(h1, bits) <= Index(h2, bits)
  {
    ShiftRightDiv(h1, 32 - bits);
    ShiftRightDiv(h2, 32 - bits);
    DivMonotone(h1, h2, Pow2(32 - bits));
  }

  /** Doubling the table splits bucket b into buckets 2b and 2b + 1. */
  lemma IndexSplit(h: Hash32, bits: Bits)
    requires bits < 32
    ensures Index(h, bits + 1) / 2 == Index(h, bits)
    ensures Index(h, bits + 1) == 2 * Index(h, bits) || Index(h, bits + 1) == 2 * Index(h, bits) + 1
  {
    ShiftRightDiv(h, 32 - bits);
    ShiftRightDiv(h, 32 - (bits + 1));
    DivDiv(h, Pow2(32 - (bits + 1)), 2);
  }

  ghost predicate Monotone(hash: int -> Hash32)
  {
    forall a, b :: a <= b ==> hash(a) <= hash(b)
  }

  /** With an order-preserving hash, smaller keys never land in later
      buckets. */
  lemma BucketOrder(hash: int -> Hash32, bits: Bits, a: int, b: int)
    requires Monotone(hash) && a <= b
    ensures BucketOf(hash, bits)(a) <= BucketOf(hash, bits)(b)
  {
    IndexMonotone(hash(a), hash(b), bits);
  }

  /** Where the insertion walk leaves a new key: in front when it is below
      the first key, at the back when the walk ended on a smaller last key,
      otherwise right after the last node passed; in every case the keys in
      front are smaller and the keys behind are larger. */
  lemma SplicePoint(c: seq<Entry>, key: int, stop: int, prev: int, firstNode: bool, lastNode: bool, pos: int)
    requires SortedKeys(c) && 0 <= stop < |c|
    requires forall i :: 0 <= i < stop ==> c[i].key < key
    requires stop + 1 == |c| || c[stop].key >= key
    requires c[stop].key != key
    requires stop > 0 ==> prev == stop - 1
    requires firstNode == (key < c[0].key)
    requires lastNode == (stop + 1 == |c| && key > c[stop].key)
    requires pos == if firstNode then 0 else if lastNode then |c| else prev + 1
    ensures 0 <= pos <= |c|
    ensures forall i :: 0 <= i < pos ==> c[i].key < key
    ensures forall i :: pos <= i < |c| ==> key < c[i].key
  {
  }

  /** The table invariant: every node sits in the bucket of its key's
      hash, every chain is sorted, and while the table can still grow no
      chain is longer than the limit plus the node that triggers growth. */
  ghost predicate Shaped(t: seq<seq<Entry>>, hash: int -> Hash32, bits: Bits, limit: nat)
  {
    && Placed(t, BucketOf(hash, bits))
    && (forall b :: 0 <= b < |t| ==> SortedKeys(t[b]))
    && (bits < 32 ==> forall b :: 0 <= b < |t| ==> |t[b]| <= limit + 1)
  }

  lemma ShapedEmpty(t: seq<seq<Entry>>, hash: int -> Hash32, bits: Bits, limit: nat)
    requires forall b :: 0 <= b < |t| ==> t[b] == []
    ensures Shaped(t, hash, bits, limit) && TableMap(t) == map[]
  {
    EmptyTable(t, BucketOf(hash, bits));
  }

  /** Replacing a chain by a sorted chain of the same bucket, short enough
      while the table can grow, keeps the table invariant. */
  lemma ShapedReplace(t: seq<seq<Entry>>, hash: int -> Hash32, bits: Bits, limit: nat, b: int, c: seq<Entry>)
    requires Shaped(t, hash, bits, limit) && 0 <= b < |t|
    requires ChainIn(c, BucketOf(hash, bits), b) && SortedKeys(c)
    requires bits < 32 ==> |c| <= limit + 1
    ensures Shaped(t[b := c], hash, bits, limit)
  {
    PlacedReplace(t, BucketOf(hash, bits), b, c);
  }

  /** The walk shared by insertion, removal and lookup: starting at the
      front, move on while there is a next node and the current key is below
      the one sought, remembering the node passed last and counting the
      steps. The walk stops on the only node that can hold the key. */
  method Walk(c: seq<Entry>, key: int) returns (prev: nat, cur: nat, counter: nat)
    requires c != [] && SortedKeys(c)
    ensures cur < |c| && counter == cur && (cur > 0 ==> prev == cur - 1)
    ensures forall i :: 0 <= i < cur ==> c[i].key < key
    ensures cur + 1 == |c| || c[cur].key >= key
    ensures key in ChainMap(c) <==> c[cur].key == key && c[cur].inUse
    ensures forall i :: 0 <= i < |c| && c[i].key == key ==> i == cur
  {
    prev, cur, counter := 0, 0, 0;
    while cur + 1 < |c| && c[cur].key < key
      invariant 0 <= cur < |c| && counter == cur
      invariant cur > 0 ==> prev == cur - 1
      invariant forall i :: 0 <= i < cur ==> c[i].key < key
    {
      prev, cur := cur, cur + 1;
      counter := counter + 1;
    }
    SearchStop(c, cur, key);
  }

  /** Sorted chains have distinct keys. */
  lemma ShapedDistinct(t: seq<seq<Entry>>, hash: int -> Hash32, bits: Bits, limit: nat)
    requires Shaped(t, hash, bits, limit)
    ensures AllDistinct(t)
  {
  }

  /** An order-preserving hash orders the buckets by key. */
  lemma MonotoneKeyOrdered(hash: int -> Hash32, bits: Bits)
    requires Monotone(hash)
    ensures KeyOrdered(BucketOf(hash, bits))
  {
    forall a, b | BucketOf(hash, bits)(a) < BucketOf(hash, bits)(b)
      ensures a < b
    {
      if b <= a {
        BucketOrder(hash, bits, b, a);
      }
    }
  }

  // ---------------------------------------------------------------------
  // Range query

  /** The nodes a range query for [start, end] reports, as written: the
      start bucket from the node its skip loop stops on (which includes the
      stray last node when no node of that bucket reaches start), every
      bucket strictly between, and the end bucket up to end. When both
      ends share a bucket, only that bucket, bounded on both sides. */
  function WrittenEntries(t: seq<seq<Entry>>, sb: nat, eb: nat, start: int, end: int): (r: seq<Entry>)
    requires sb < |t| && eb < |t|
  {
    if sb == eb then
      Select(t[sb], Some(start), Some(end)) + Stray(t[sb], start, Some(end))
    else
      Select(t[sb], Some(start), None) + Stray(t[sb], start, None)
      + Gather(t, sb + 1, eb) + Select(t[eb], None, Some(end))
  }

  /** The nodes the range query is meant to report: the same walk without
      the stray node. */
  function IntendedEntries(t: seq<seq<Entry>>, sb: nat, eb: nat, start: int, end: int): (r: seq<Entry>)
    requires sb < |t| && eb < |t|
  {
    if sb == eb then
      Select(t[sb], Some(start), Some(end))
    else
      Select(t[sb], Some(start), None) + Gather(t, sb + 1, eb) + Select(t[eb], None, Some(end))
  }

  /** What the intended query reports for key-ordered buckets is sorted,
      and consists of live nodes of their keys' buckets with keys within
      [start, end]. */
  lemma IntendedSound(t: seq<seq<Entry>>, f: int -> int, start: int, end: int)
    requires Placed(t, f) && KeyOrdered(f)
    requires forall b :: 0 <= b < |t| ==> SortedKeys(t[b])
    requires 0 <= f(start) <= f(end) < |t| && start <= end
    ensures var es := IntendedEntries(t, f(start), f(end), start, end);
      && SortedKeys(es)
      && (forall e :: e in es ==> e.inUse && start <= e.key <= end && e in t[f(e.key)])
  {
    var sb, eb := f(start), f(end);
    if sb == eb {
      SelectMembers(t[sb], Some(start), Some(end));
      InBucket(t, f, sb);
    } else {
      SpanSorted(t, f, start, end);
      SpanSound(t, f, start, end);
    }
  }

  /** Across several buckets, the three parts of the intended query follow
      each other in key order. */
  lemma SpanSorted(t: seq<seq<Entry>>, f: int -> int, start: int, end: int)
    requires Placed(t, f) && KeyOrdered(f)
    requires forall b :: 0 <= b < |t| ==> SortedKeys(t[b])
    requires 0 <= f(start) < f(end) < |t|
    ensures SortedKeys(IntendedEntries(t, f(start), f(end), start, end))
  {
    var sb, eb := f(start), f(end);
    var ag, z := Select(t[sb], Some(start), None) + Gather(t, sb + 1, eb), Select(t[eb], None, Some(end));
    assert IntendedEntries(t, sb, eb, start, end) == ag + z;
    HeadSpanSorted(t, f, sb, eb, start);
    SelectMembers(t[eb], None, Some(end));
    InBucket(t, f, eb);
    forall x: Entry, y: Entry | x in ag && y in z
      ensures x.key < y.key
    {
      assert f(x.key) < f(y.key);
    }
    SortedConcat(ag, z);
  }

  /** The start bucket's part and the middle buckets' part of a query over
      several buckets are in key order and lie before the end bucket. */
  lemma HeadSpanSorted(t: seq<seq<Entry>>, f: int -> int, sb: nat, eb: nat, start: int)
    requires Placed(t, f) && KeyOrdered(f)
    requires forall b :: 0 <= b < |t| ==> SortedKeys(t[b])
    requires sb < eb < |t|
    ensures var ag := Select(t[sb], Some(start), None) + Gather(t, sb + 1, eb);
      SortedKeys(ag) && forall x :: x in ag ==> f(x.key) < eb
  {
    var a, g := Select(t[sb], Some(start), None), Gather(t, sb + 1, eb);
    SelectMembers(t[sb], Some(start), None);
    InBucket(t, f, sb);
    GatherSound(t, f, sb + 1, eb);
    GatherSorted(t, f, sb + 1, eb);
    forall x: Entry, y: Entry | x in a && y in g
      ensures x.key < y.key
    {
      assert f(x.key) < f(y.key);
    }
    SortedConcat(a, g);
  }

  /** Across several buckets, every node of the intended query is a live
      node of its key's bucket and lies within [start, end]. */
  lemma SpanSound(t: seq<seq<Entry>>, f: int -> int, start: int, end: int)
    requires Placed(t, f) && KeyOrdered(f)
    requires 0 <= f(start) < f(end) < |t|
    ensures forall e :: e in IntendedEntries(t, f(start), f(end), start, end) ==>
      e.inUse && start <= e.key <= end && e in t[f(e.key)]
  {
    var sb, eb := f(start), f(end);
    var a, g, z := Select(t[sb], Some(start), None), Gather(t, sb + 1, eb), Select(t[eb], None, Some(end));
    assert IntendedEntries(t, sb, eb, start, end) == a + g + z;
    SelectMembers(t[sb], Some(start), None);
    SelectMembers(t[eb], None, Some(end));
    InBucket(t, f, sb);
    InBucket(t, f, eb);
    GatherSound(t, f, sb + 1, eb);
    forall e: Entry | e in a + g + z
      ensures start <= e.key <= end
    {
      if e in a {
        assert f(e.key) < f(end);
      } else if e in g {
        assert f(start) < f(e.key) < f(end);
      } else {
        assert f(start) < f(e.key);
      }
    }
  }

  /** The intended query reports every stored key within [start, end]
      when the buckets are key-ordered. */
  lemma IntendedComplete(t: seq<seq<Entry>>, f: int -> int, start: int, end: int)
    requires Placed(t, f) && KeyOrdered(f)
    requires 0 <= f(start) <= f(end) < |t|
    ensures var es := IntendedEntries(t, f(start), f(end), start, end);
      forall k :: k in TableMap(t) && start <= k <= end ==> exists e :: e in es && e.key == k
  {
    var es := IntendedEntries(t, f(start), f(end), start, end);
    forall k | k in TableMap(t) && start <= k <= end
      ensures exists e :: e in es && e.key == k
    {
      TableMapAt(t, f, k);
      var b := f(k);
      ChainMapKeys(t[b], k);
      var i :| 0 <= i < |t[b]| && t[b][i].key == k && t[b][i].inUse;
      IntendedCovers(t, f, start, end, b, i);
    }
  }

  /** A live node within [start, end] of a bucket from the bucket of
      start to the bucket of end is reported by the intended query. */
  lemma IntendedCovers(t: seq<seq<Entry>>, f: int -> int, start: int, end: int, b: int, i: int)
    requires 0 <= f(start) <= f(end) < |t| && KeyOrdered(f)
    requires 0 <= b < |t| && 0 <= i < |t[b]| && f(t[b][i].key) == b
    requires t[b][i].inUse && start <= t[b][i].key <= end
    ensures t[b][i] in IntendedEntries(t, f(start), f(end), start, end)
  {
    var sb, eb := f(start), f(end);
    assert sb <= b <= eb;
    if sb == eb {
      SelectMembers(t[b], Some(start), Some(end));
    } else {
      var a, g, z := Select(t[sb], Some(start), None), Gather(t, sb + 1, eb), Select(t[eb], None, Some(end));
      assert IntendedEntries(t, sb, eb, start, end) == a + g + z;
      if b == sb {
        SelectMembers(t[b], Some(start), None);
      } else if b == eb {
        SelectMembers(t[b], None, Some(end));
      } else {
        GatherComplete(t, sb + 1, eb);
      }
    }
  }

  /** With an order-preserving hash, the intended range query reports,
      in increasing key order, exactly the stored keys within
      [start, end], each with its stored value. */
  lemma IntendedRangeExact(t: seq<seq<Entry>>, hash: int -> Hash32, bits: Bits, limit: nat, start: int, end: int)
    requires Shaped(t, hash, bits, limit) && |t| == Pow2(bits) && Monotone(hash) && start <= end
    ensures var es := IntendedEntries(t, Index(hash(start), bits), Index(hash(end), bits), start, end);
      && SortedKeys(es)
      && (forall e :: e in es ==> start <= e.key <= end && e.key in TableMap(t) && TableMap(t)[e.key] == e.value)
      && (forall k :: k in TableMap(t) && start <= k <= end ==> exists e :: e in es && e.key == k)
  {
    var f := BucketOf(hash, bits);
    BucketOrder(hash, bits, start, end);
    ShapedDistinct(t, hash, bits, limit);
    MonotoneKeyOrdered(hash, bits);
    IntendedSound(t, f, start, end);
    IntendedComplete(t, f, start, end);
    var es := IntendedEntries(t, f(start), f(end), start, end);
    forall e | e in es
      ensures e.key in TableMap(t) && TableMap(t)[e.key] == e.value
    {
      LiveInTable(t, f, f(e.key), e);
    }
  }

  /** As written, the query reports the last node of the start bucket
      whenever it is live and below start, although its key is outside
      [start, end]. */
  lemma RangeStray(t: seq<seq<Entry>>, sb: nat, eb: nat, start: int, end: int)
    requires sb < |t| && eb < |t| && start <= end
    requires t[sb] != [] && t[sb][|t[sb]| - 1].inUse && t[sb][|t[sb]| - 1].key < start
    ensures exists e :: e in WrittenEntries(t, sb, eb, start, end) && e.key < start
  {
    var e := t[sb][|t[sb]| - 1];
    assert Stray(t[sb], start, if sb == eb then Some(end) else None) == [e];
    assert e in WrittenEntries(t, sb, eb, start, end);
  }

  /** Otherwise the query as written reports what is intended. */
  lemma WrittenWithoutStray(t: seq<seq<Entry>>, sb: nat, eb: nat, start: int, end: int)
    requires sb < |t| && eb < |t|
    requires t[sb] == [] || !t[sb][|t[sb]| - 1].inUse || t[sb][|t[sb]| - 1].key >= start
    ensures WrittenEntries(t, sb, eb, start, end) == IntendedEntries(t, sb, eb, start, end)
  {
    assert Stray(t[sb], start, None) == [] && Stray(t[sb], start, Some(end)) == [];
  }

  /** Scans a sorted chain for a range starting at lo: skips every node
      but the last while its key is below lo, then collects the live nodes
      within hi. */
  method ScanFrom(c: seq<Entry>, lo: int, hi: Option<int>) returns (values: seq<int>)
    requires SortedKeys(c)
    ensures values == Values(Select(c, Some(lo), hi) + Stray(c, lo, hi))
  {
    values := [];
    if c != [] {
      var _, cur, _ := Walk(c, lo);
      values := CollectFrom(c, cur, hi);
      SkipScan(c, cur, lo, hi);
    }
  }

  /** Collects, from node cur to the end of a sorted chain, the values of
      the live nodes within hi; stops at the first live node above hi. */
  method CollectFrom(c: seq<Entry>, cur: nat, hi: Option<int>) returns (values: seq<int>)
    requires SortedKeys(c) && cur < |c|
    ensures values == Values(Select(c[cur..], None, hi))
  {
    values := [];
    var j := cur;
    while j + 1 < |c|
      invariant cur <= j < |c|
      invariant values == Values(Select(c[cur..j], None, hi))
    {
      SelectStep(c, cur, j, None, hi);
      if c[j].inUse {
        if hi.Some? && c[j].key > hi.value {
          SelectStopAbove(c, cur, j, hi.value);
          return;
        }
        ValuesAppend(Select(c[cur..j], None, hi), [c[j]]);
        values := values + [c[j].value];
      }
      j := j + 1;
    }
    SelectStep(c, cur, j, None, hi);
    assert c[cur..] == c[cur..j + 1];
    if c[j].inUse && Within(c[j].key, None, hi) {
      ValuesAppend(Select(c[cur..j], None, hi), [c[j]]);
      values := values + [c[j].value];
    }
  }

  /** Collects, from the front of a sorted chain, the values of the live
      nodes up to end, stopping at the first node above end. */
  method CollectUpTo(c: seq<Entry>, end: int) returns (values: seq<int>)
    requires SortedKeys(c) && c != []
    ensures values == Values(Select(c, None, Some(end)))
  {
    values := [];
    var j := 0;
    while j + 1 < |c| && c[j].key <= end
      invariant 0 <= j < |c|
      invariant values == Values(Select(c[0..j], None, Some(end)))
    {
      SelectStep(c, 0, j, None, Some(end));
      if c[j].inUse {
        ValuesAppend(Select(c[0..j], None, Some(end)), [c[j]]);
        values := values + [c[j].value];
      }
      j := j + 1;
    }
    assert c[0..] == c;
    if c[j].key > end {
      SelectStopAbove(c, 0, j, end);
    } else {
      SelectStep(c, 0, j, None, Some(end));
      assert c[0..j + 1] == c;
      if c[j].inUse {
        ValuesAppend(Select(c[0..j], None, Some(end)), [c[j]]);
        values := values + [c[j].value];
      }
    }
  }


  /** The range query's walk over the buckets sb .. eb of a table of
      sorted chains. */
  method ScanBuckets(table: array<seq<Entry>>, sb: nat, eb: nat, start: int, end: int) returns (values: seq<int>)
    requires sb < table.Length && eb < table.Length
    requires forall b :: 0 <= b < table.Length ==> SortedKeys(table[b])
    ensures values == Values(WrittenEntries(table[..], sb, eb, start, end))
  {
    if sb == eb {
      values := ScanFrom(table[sb], start, Some(end));
      return;
    }
    values := ScanFrom(table[sb], start, None);
    var middle := CollectBuckets(table, sb + 1, eb);
    var tail := [];
    if table[eb] != [] {
      tail := CollectUpTo(table[eb], end);
    }
    ghost var t := table[..];
    ghost var first := Select(t[sb], Some(start), None) + Stray(t[sb], start, None);
    ValuesAppend(first, Gather(t, sb + 1, eb));
    ValuesAppend(first + Gather(t, sb + 1, eb), Select(t[eb], None, Some(end)));
    values := values + middle + tail;
  }

  /** The values of every live node of the buckets lo .. hi - 1 */
  method CollectBuckets(table: array<seq<Entry>>, lo: nat, hi: nat) returns (values: seq<int>)
    requires hi <= table.Length
    requires forall b :: 0 <= b < table.Length ==> SortedKeys(table[b])
    ensures values == Values(Gather(table[..], lo, hi))
  {
    ghost var t := table[..];
    values := [];
    var b := lo;
    while b < hi
      invariant lo <= b && (b <= hi || b == lo)
      invariant b <= hi ==> values == Values(Gather(t, lo, b))
      invariant b > hi ==> values == []
    {
      var c := table[b];
      if c != [] {
        var more := CollectFrom(c, 0, None);
        assert c[0..] == c;
        ValuesAppend(Gather(t, lo, b), Select(c, None, None));
        values := values + more;
      }
      b := b + 1;
    }
  }

  class HashMap {
    var table: array<seq<Entry>>
    var numBuckets: nat
    var iBits: Bits
    const chainLengthMax: nat
    const hash0: int -> Hash32
    ghost var Contents: map<int, int>

    ghost predicate Valid()
      reads this, table
    {
      && table.Length == numBuckets == Pow2(iBits)
      && Shaped(table[..], hash0, iBits, chainLengthMax)
      && Contents == TableMap(table[..])
    }

    /** The table starts with the requested power-of-two number of empty
        buckets; iBits is its base-2 logarithm. */
    constructor (initBuckets: nat, initChainLength: nat, hash: int -> Hash32)
      requires IsPow2(initBuckets) && initBuckets <= Pow2(32)
      ensures Valid() && Contents == map[]
      ensures numBuckets == initBuckets && chainLengthMax == initChainLength && hash0 == hash
    {
      var bits := Log2Floor(initBuckets);
      Pow2Ordered(bits, 32);
      chainLengthMax := initChainLength;
      hash0 := hash;
      table := new seq<Entry>[0];
      new;
      ClearTable(initBuckets, bits);
    }

    /** Bucket b's chain becomes c, which stores what the old chain stored
        plus key |-> value. */
    method PutChain(b: nat, c: seq<Entry>, ghost key: int, ghost value: int)
      requires Valid() && b < table.Length && BucketOf(hash0, iBits)(key) == b
      requires ChainIn(c, BucketOf(hash0, iBits), b) && SortedKeys(c)
      requires iBits < 32 ==> |c| <= chainLengthMax + 1
      requires ChainMap(c) == ChainMap(table[b])[key := value]
      modifies table, this`Contents
      ensures Valid() && Contents == old(Contents)[key := value]
      ensures table[..] == old(table[..])[b := c]
    {
      ghost var t := table[..];
      table[b] := c;
      Contents := Contents[key := value];
      assert table[..] == t[b := c];
      ShapedReplace(t, hash0, iBits, chainLengthMax, b, c);
      TableMapPut(t, BucketOf(hash0, iBits), b, c, key, value);
    }

    /** Bucket b's chain becomes c, which stores what the old chain stored
        except key. */
    method DropChain(b: nat, c: seq<Entry>, ghost key: int)
      requires Valid() && b < table.Length && BucketOf(hash0, iBits)(key) == b
      requires ChainIn(c, BucketOf(hash0, iBits), b) && SortedKeys(c) && |c| == |table[b]|
      requires ChainMap(c) == ChainMap(table[b]) - {key}
      modifies table, this`Contents
      ensures Valid() && Contents == old(Contents) - {key}
    {
      ghost var t := table[..];
      table[b] := c;
      Contents := Contents - {key};
      assert table[..] == t[b := c];
      ShapedReplace(t, hash0, iBits, chainLengthMax, b, c);
      TableMapDrop(t, BucketOf(hash0, iBits), b, c, key);
    }

    /** Splices a new live node key |-> value into bucket b's chain at
        position pos, where the key belongs in sorted order. */
    method Splice(b: nat, pos: nat, key: int, value: int)
      requires Valid() && b < table.Length && BucketOf(hash0, iBits)(key) == b
      requires pos <= |table[b]|
      requires forall i :: 0 <= i < pos ==> table[b][i].key < key
      requires forall i :: pos <= i < |table[b]| ==> key < table[b][i].key
      requires iBits < 32 ==> |table[b]| <= chainLengthMax
      modifies table, this`Contents
      ensures Valid() && Contents == old(Contents)[key := value]
      ensures NoTombstones(old(table[..])) ==> NoTombstones(table[..])
    {
      var c := table[b];
      var e := Entry(key, value, true);
      ChainSplice(c, pos, e, BucketOf(hash0, iBits), b);
      ChainMapInsert(c, pos, e);
      PutChain(b, c[..pos] + [e] + c[pos..], key, value);
    }

    /** Overwrites the node at position j of bucket b's chain, which holds
        the key, and makes it live; reports whether it was a tombstone. */
    method Overwrite(b: nat, j: nat, key: int, value: int) returns (revived: bool)
      requires Valid() && b < table.Length && BucketOf(hash0, iBits)(key) == b
      requires j < |table[b]| && table[b][j].key == key
      modifies table, this`Contents
      ensures Valid() && Contents == old(Contents)[key := value]
      ensures revived == (key !in old(Contents))
      ensures NoTombstones(old(table[..])) ==> NoTombstones(table[..])
    {
      var c := table[b];
      revived := !c[j].inUse;
      var e := Entry(key, value, true);
      TableMapAt(table[..], BucketOf(hash0, iBits), key);
      SearchStop(c, j, key);
      ChainMapUpdate(c, j, e);
      ChainSameKeys(c, j, e, BucketOf(hash0, iBits), b);
      PutChain(b, c[j := e], key, value);
    }

    /** Turns the live node at position j of bucket b's chain, which holds
        the key, into a tombstone. */
    method MarkRemoved(b: nat, j: nat, key: int)
      requires Valid() && b < table.Length && BucketOf(hash0, iBits)(key) == b
      requires j < |table[b]| && table[b][j].key == key
      modifies table, this`Contents
      ensures Valid() && Contents == old(Contents) - {key}
    {
      var c := table[b];
      var e := c[j].(inUse := false);
      ChainMapUpdate(c, j, e);
      ChainSameKeys(c, j, e, BucketOf(hash0, iBits), b);
      DropChain(b, c[j := e], key);
    }

    /** Inserts or overwrites key |-> value. The second result reports
        whether the key was absent (or only a tombstone) before. */
    method Add(key: int, value: int) returns (success: bool, grew: bool)
      requires Valid()
      modifies this, table
      ensures Valid()
      ensures success && grew == (key !in old(Contents))
      ensures Contents == old(Contents)[key := value]
      ensures old(iBits) <= iBits
      ensures table == old(table) || fresh(table)
      ensures NoTombstones(old(table[..])) ==> NoTombstones(table[..])
      decreases 32 - iBits, 3
    {
      ghost var f := BucketOf(hash0, iBits);
      var index := Index(hash0(key), iBits);
      var c := table[index];
      TableMapAt(table[..], f, key);
      if c == [] {
        PutChain(index, [Entry(key, value, true)], key, value);
        return true, true;
      }
      var firstNode := key < c[0].key;
      var prev, cur, counter := Walk(c, key);
      if key == c[cur].key {
        grew := Overwrite(index, cur, key, value);
        return true, grew;
      }
      ghost var stop := cur;
      var lastNode := false;
      if cur + 1 == |c| {
        if key > c[cur].key {
          lastNode := true;
        }
      }
      while cur + 1 < |c|
        invariant 0 <= cur < |c| && counter == cur
      {
        cur := cur + 1;
        counter := counter + 1;
      }
      counter := counter + 1;
      if counter > chainLengthMax && iBits < 32 {
        Resize();
        success, grew := Add(key, value);
        return;
      }
      var pos := if firstNode then 0 else if lastNode then |c| else prev + 1;
      SplicePoint(c, key, stop, prev, firstNode, lastNode, pos);
      Splice(index, pos, key, value);
      return true, true;
    }

    /** Doubles the table and re-adds every live node; tombstones are
        dropped, so the new table holds none. */
    method Resize()
      requires Valid() && iBits < 32
      modifies this
      ensures Valid() && Contents == old(Contents)
      ensures iBits > old(iBits) && fresh(table)
      ensures NoTombstones(table[..])
      decreases 32 - iBits, 2
    {
      var oldChains := table[..];
      ghost var bits := iBits;
      ClearTable(numBuckets * 2, iBits + 1);
      ReAddTable(oldChains, bits);
    }

    /** Re-adds every chain of the table a resize is replacing, bucket by
        bucket, into the (empty) new table. */
    method ReAddTable(chains: seq<seq<Entry>>, ghost bits: Bits)
      requires Valid() && iBits > bits && Contents == map[]
      modifies this, table
      ensures Valid() && Contents == TableMap(chains)
      ensures iBits >= old(iBits) && (table == old(table) || fresh(table))
      ensures NoTombstones(old(table[..])) ==> NoTombstones(table[..])
      decreases 32 - bits, 1
    {
      var i := 0;
      while i < |chains|
        invariant 0 <= i <= |chains|
        invariant Valid() && iBits > bits
        invariant iBits >= old(iBits) && (table == old(table) || fresh(table))
        invariant Contents == TableMap(chains[..i])
        invariant NoTombstones(old(table[..])) ==> NoTombstones(table[..])
      {
        ReAddChain(chains[i], bits);
        assert chains[..i + 1][..i] == chains[..i];
        i := i + 1;
      }
      assert chains[..i] == chains;
    }

    /** Replaces the table by a fresh one of n = 2^bits empty buckets. */
    method ClearTable(n: nat, bits: Bits)
      requires n == Pow2(bits)
      modifies this
      ensures Valid() && Contents == map[] && fresh(table)
      ensures numBuckets == n && iBits == bits
      ensures NoTombstones(table[..])
    {
      table := new seq<Entry>[n](_ => []);
      numBuckets := n;
      iBits := bits;
      Contents := map[];
      ShapedEmpty(table[..], hash0, iBits, chainLengthMax);
    }

    /** Re-adds, front to back, the live nodes of one chain of the table
        a resize is replacing. */
    method ReAddChain(c: seq<Entry>, ghost bits: Bits)
      requires Valid() && iBits > bits
      modifies this, table
      ensures Valid() && Contents == old(Contents) + ChainMap(c)
      ensures iBits >= old(iBits) && (table == old(table) || fresh(table))
      ensures NoTombstones(old(table[..])) ==> NoTombstones(table[..])
      decreases 32 - bits, 0
    {
      if c == [] {
        return;
      }
      var j := 0;
      while j + 1 < |c|
        invariant 0 <= j < |c|
        invariant Valid() && iBits >= old(iBits) && (table == old(table) || fresh(table))
        invariant Contents == old(Contents) + ChainMap(c[..j])
        invariant NoTombstones(old(table[..])) ==> NoTombstones(table[..])
      {
        if c[j].inUse {
          var ok, grew := Add(c[j].key, c[j].value);
          MapUnionUpdate(old(Contents), ChainMap(c[..j]), c[j].key, c[j].value);
        }
        ChainMapSnoc(c, j);
        j := j + 1;
      }
      if c[j].inUse {
        var ok, grew := Add(c[j].key, c[j].value);
        MapUnionUpdate(old(Contents), ChainMap(c[..j]), c[j].key, c[j].value);
      }
      ChainMapSnoc(c, j);
      assert c[..j + 1] == c;
    }

    /** Marks the key's node as a tombstone; reports whether the key was
        stored. */
    method Remove(key: int) returns (removed: bool)
      requires Valid()
      modifies table, this`Contents
      ensures Valid()
      ensures removed == (key in old(Contents))
      ensures Contents == old(Contents) - {key}
    {
      ghost var f := BucketOf(hash0, iBits);
      var index := Index(hash0(key), iBits);
      var c := table[index];
      TableMapAt(table[..], f, key);
      if c == [] {
        return false;
      }
      var _, cur, _ := Walk(c, key);
      if key == c[cur].key {
        if !c[cur].inUse {
          return false;
        }
        MarkRemoved(index, cur, key);
        return true;
      }
      return false;
    }

    method Contains(key: int) returns (found: bool)
      requires Valid()
      ensures found == (key in Contents)
    {
      var index := Index(hash0(key), iBits);
      var c := table[index];
      TableMapAt(table[..], BucketOf(hash0, iBits), key);
      if c == [] {
        return false;
      }
      var _, cur, _ := Walk(c, key);
      if key == c[cur].key {
        return c[cur].inUse;
      }
      return false;
    }

    /** The values of the keys in [start, end], as written: bucket of start
        from the node its skip loop stops on, the buckets in between whole,
        the bucket of end up to end. */
    method RangeQuery(start: int, end: int) returns (values: seq<int>)
      requires Valid()
      ensures values == Values(WrittenEntries(table[..], Index(hash0(start), iBits), Index(hash0(end), iBits), start, end))
    {
      var sb := Index(hash0(start), iBits);
      var eb := Index(hash0(end), iBits);
      values := ScanBuckets(table, sb, eb, start, end);
    }

    /** Counts the live nodes of every chain: the number of stored keys. */
    method Size() returns (total: nat)
      requires Valid()
      ensures total == |Contents|
    {
      total := 0;
      var i := 0;
      while i < numBuckets
        invariant 0 <= i <= numBuckets
        invariant total == TotalLive(table[..i])
      {
        var c := table[i];
        if c != [] {
          var j := 0;
          while j + 1 < |c|
            invariant 0 <= j < |c|
            invariant total == TotalLive(table[..i]) + LiveCount(c[..j])
          {
            assert c[..j + 1][..j] == c[..j];
            if c[j].inUse {
              total := total + 1;
            }
            j := j + 1;
          }
          assert c[..j + 1][..j] == c[..j];
          assert c[..j + 1] == c;
          if c[j].inUse {
            total := total + 1;
          }
        }
        assert table[..i + 1][..i] == table[..i];
        i := i + 1;
      }
      assert table[..numBuckets] == table[..];
      TotalLiveSize(table[..], BucketOf(hash0, iBits));
    }
  }
}
