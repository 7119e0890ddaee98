/** Bucket chains shared by the chained hash maps: a chain is the sequence
    of nodes hanging off one bucket, front to back; a node whose `inUse`
    flag is clear is a tombstone left behind by a removal. */
module Chains {
  import opened MathUtil

  datatype Entry = Entry(key: int, value: int, inUse: bool)

  /** The key/value pairs a chain stores: its live nodes, a later node
      overriding an earlier one with the same key. */
  function ChainMap(c: seq<Entry>): map<int, int>
  {
    if c == [] then map[]
    else
      var m := ChainMap(c[..|c| - 1]);
      var e := c[|c| - 1];
      if e.inUse then m[e.key := e.value] else m
  }

  /** Number of live nodes in a chain */
  function LiveCount(c: seq<Entry>): nat
  {
    if c == [] then 0
    else LiveCount(c[..|c| - 1]) + (if c[|c| - 1].inUse then 1 else 0)
  }

  predicate DistinctKeys(c: seq<Entry>)
  {
    forall i, j :: 0 <= i < j < |c| ==> c[i].key != c[j].key
  }

  /** Keys strictly increase from the front of the chain to its back. */
  predicate SortedKeys(c: seq<Entry>)
  {
    forall i, j :: 0 <= i < j < |c| ==> c[i].key < c[j].key
  }

  /** Every node of the chain is live: it holds no tombstone. */
  predicate AllLive(c: seq<Entry>)
  {
    forall j :: 0 <= j < |c| ==> c[j].inUse
  }

  /** No chain of the table holds a tombstone. */
  ghost predicate NoTombstones(t: seq<seq<Entry>>)
  {
    forall b :: 0 <= b < |t| ==> AllLive(t[b])
  }

  /** In a chain without tombstones every node is live, so the chain's
      length is its live count. */
  lemma {:induction false} AllLiveCount(c: seq<Entry>)
    requires AllLive(c)
    ensures LiveCount(c) == |c|
  {
    if c != [] {
      AllLiveCount(c[..|c| - 1]);
    }
  }

  predicate HasLive(c: seq<Entry>, k: int)
  {
    exists i :: 0 <= i < |c| && c[i].key == k && c[i].inUse
  }

  predicate HasKey(c: seq<Entry>, k: int)
  {
    exists i :: 0 <= i < |c| && c[i].key == k
  }

  lemma {:induction false} ChainMapKeys(c: seq<Entry>, k: int)
    ensures k in ChainMap(c) <==> HasLive(c, k)
  {
    if c != [] {
      var p := c[..|c| - 1];
      ChainMapKeys(p, k);
      if HasLive(p, k) {
        var i :| 0 <= i < |p| && p[i].key == k && p[i].inUse;
        assert c[i] == p[i];
      }
      if HasLive(c, k) && c[|c| - 1].key != k {
        var i :| 0 <= i < |c| && c[i].key == k && c[i].inUse;
        assert p[i] == c[i];
      }
    }
  }

  lemma {:induction false} ChainMapValue(c: seq<Entry>, i: int)
    requires DistinctKeys(c) && 0 <= i < |c| && c[i].inUse
    ensures c[i].key in ChainMap(c) && ChainMap(c)[c[i].key] == c[i].value
  {
    var p := c[..|c| - 1];
    if i < |c| - 1 {
      assert p[i] == c[i];
      ChainMapValue(p, i);
    }
  }

  /** In a chain with distinct keys, node j's key is stored exactly when
      node j is live, and then with node j's value. */
  lemma ChainMapAt(c: seq<Entry>, j: int)
    requires DistinctKeys(c) && 0 <= j < |c|
    ensures c[j].key in ChainMap(c) <==> c[j].inUse
    ensures c[j].inUse ==> ChainMap(c)[c[j].key] == c[j].value
  {
    ChainMapKeys(c, c[j].key);
    if c[j].inUse {
      ChainMapValue(c, j);
    }
  }

  /** Extending a chain prefix by one node */
  lemma ChainMapSnoc(c: seq<Entry>, j: int)
    requires 0 <= j < |c|
    ensures ChainMap(c[..j + 1]) ==
      if c[j].inUse then ChainMap(c[..j])[c[j].key := c[j].value] else ChainMap(c[..j])
  {
    assert c[..j + 1][..j] == c[..j];
  }

  lemma {:induction false} ChainMapAppend(a: seq<Entry>, b: seq<Entry>)
    ensures ChainMap(a + b) == ChainMap(a) + ChainMap(b)
    decreases |b|
  {
    if b == [] {
      assert a + b == a;
    } else {
      var b' := b[..|b| - 1];
      assert (a + b)[..|a + b| - 1] == a + b';
      ChainMapAppend(a, b');
    }
  }

  /** A chain without the key stores nothing under it. */
  lemma ChainMapMissing(c: seq<Entry>, k: int)
    requires !HasKey(c, k)
    ensures k !in ChainMap(c)
  {
    ChainMapKeys(c, k);
  }

  /** A chain is what lies before position i, the node at i, and what
      lies after it. */
  lemma ChainMapSplit(c: seq<Entry>, i: int)
    requires 0 <= i < |c|
    ensures ChainMap(c) == ChainMap(c[..i]) + ChainMap([c[i]]) + ChainMap(c[i + 1..])
  {
    assert c == (c[..i] + [c[i]]) + c[i + 1..];
    ChainMapAppend(c[..i] + [c[i]], c[i + 1..]);
    ChainMapAppend(c[..i], [c[i]]);
  }

  /** Overwriting the node that holds a key changes only that key. */
  lemma ChainMapUpdate(c: seq<Entry>, i: int, e: Entry)
    requires DistinctKeys(c) && 0 <= i < |c| && e.key == c[i].key
    ensures ChainMap(c[i := e]) ==
      if e.inUse then ChainMap(c)[e.key := e.value] else ChainMap(c) - {e.key}
  {
    var c' := c[i := e];
    ChainMapSplit(c, i);
    ChainMapSplit(c', i);
    assert c'[..i] == c[..i] && c'[i + 1..] == c[i + 1..];
    assert forall j :: 0 <= j < i ==> c[..i][j] == c[j];
    assert forall j :: i < j < |c| ==> c[i + 1..][j - i - 1] == c[j];
    ChainMapMissing(c[..i], e.key);
    ChainMapMissing(c[i + 1..], e.key);
    MapSplice(ChainMap(c[..i]), ChainMap(c[i + 1..]), e.key, ChainMap([c[i]]), ChainMap([e]));
  }

  lemma MapUnionUpdate(A: map<int, int>, B: map<int, int>, k: int, v: int)
    ensures (A + B)[k := v] == A + B[k := v]
  {
  }

  lemma MapSplice(A: map<int, int>, B: map<int, int>, k: int, M: map<int, int>, M': map<int, int>)
    requires k !in A && k !in B
    requires M.Keys <= {k} && M'.Keys <= {k}
    ensures A + M' + B ==
      if k in M' then (A + M + B)[k := M'[k]] else (A + M + B) - {k}
  {
  }

  /** Splicing in a live node with a fresh key adds exactly that pair. */
  lemma ChainMapInsert(c: seq<Entry>, p: int, e: Entry)
    requires 0 <= p <= |c| && e.inUse && !HasKey(c, e.key)
    ensures ChainMap(c[..p] + [e] + c[p..]) == ChainMap(c)[e.key := e.value]
  {
    var a, b := c[..p], c[p..];
    assert c == a + b;
    ChainMapAppend(a + [e], b);
    ChainMapAppend(a, [e]);
    ChainMapAppend(a, b);
    assert forall j :: p <= j < |c| ==> b[j - p] == c[j];
    ChainMapMissing(b, e.key);
    assert ChainMap([e]) == map[e.key := e.value];
    MapInsertMiddle(ChainMap(a), ChainMap(b), e.key, e.value);
  }

  lemma MapInsertMiddle(A: map<int, int>, B: map<int, int>, k: int, v: int)
    requires k !in B
    ensures A + map[k := v] + B == (A + B)[k := v]
  {
  }

  lemma {:induction false} LiveCountSize(c: seq<Entry>)
    requires DistinctKeys(c)
    ensures LiveCount(c) == |ChainMap(c)|
  {
    if c != [] {
      var p := c[..|c| - 1];
      var e := c[|c| - 1];
      LiveCountSize(p);
      if e.inUse {
        assert forall j :: 0 <= j < |p| ==> p[j] == c[j];
        ChainMapMissing(p, e.key);
      }
    }
  }

  /** Splicing a node into a sorted chain at the place its key belongs
      keeps the chain sorted and inside its bucket. */
  lemma ChainSplice(c: seq<Entry>, p: int, e: Entry, f: int -> int, b: int)
    requires SortedKeys(c) && 0 <= p <= |c|
    requires forall i :: 0 <= i < p ==> c[i].key < e.key
    requires forall i :: p <= i < |c| ==> e.key < c[i].key
    requires ChainIn(c, f, b) && f(e.key) == b
    ensures SortedKeys(c[..p] + [e] + c[p..])
    ensures ChainIn(c[..p] + [e] + c[p..], f, b)
    ensures !HasKey(c, e.key)
  {
    var c' := c[..p] + [e] + c[p..];
    assert forall i :: 0 <= i < p ==> c'[i] == c[i];
    assert c'[p] == e;
    assert forall i :: p < i < |c'| ==> c'[i] == c[i - 1];
  }

  /** Appending a live node with a key the chain does not hold keeps the
      keys distinct and the chain inside its bucket, and adds exactly that
      pair. */
  lemma ChainAppend(c: seq<Entry>, e: Entry, f: int -> int, b: int)
    requires DistinctKeys(c) && ChainIn(c, f, b) && f(e.key) == b
    requires e.inUse && !HasKey(c, e.key)
    ensures DistinctKeys(c + [e]) && ChainIn(c + [e], f, b)
    ensures ChainMap(c + [e]) == ChainMap(c)[e.key := e.value]
  {
    assert (c + [e])[..|c|] == c;
    assert forall i :: 0 <= i < |c| ==> (c + [e])[i] == c[i];
  }

  /** Rewriting a node without changing its key keeps the chain sorted and
      inside its bucket. */
  lemma ChainSameKeys(c: seq<Entry>, j: int, e: Entry, f: int -> int, b: int)
    requires 0 <= j < |c| && e.key == c[j].key
    ensures SortedKeys(c) ==> SortedKeys(c[j := e])
    ensures DistinctKeys(c) ==> DistinctKeys(c[j := e])
    ensures ChainIn(c, f, b) ==> ChainIn(c[j := e], f, b)
  {
    assert forall i :: 0 <= i < |c| ==> c[j := e][i].key == c[i].key;
  }

  /** Searching a sorted chain: the walk stops at the first node whose key is
      not below k (or at the last node); k is stored exactly when that node
      holds k and is live, and no other node holds k. */
  lemma SearchStop(c: seq<Entry>, j: int, k: int)
    requires SortedKeys(c) && 0 <= j < |c|
    requires forall i :: 0 <= i < j ==> c[i].key < k
    requires j + 1 == |c| || c[j].key >= k
    ensures k in ChainMap(c) <==> c[j].key == k && c[j].inUse
    ensures forall i :: 0 <= i < |c| && c[i].key == k ==> i == j
  {
    ChainMapKeys(c, k);
  }

  // ---------------------------------------------------------------------
  // Tables: one chain per bucket

  /** Everything a table of chains stores */
  function TableMap(t: seq<seq<Entry>>): map<int, int>
  {
    if t == [] then map[] else TableMap(t[..|t| - 1]) + ChainMap(t[|t| - 1])
  }

  function TotalLive(t: seq<seq<Entry>>): nat
  {
    if t == [] then 0 else TotalLive(t[..|t| - 1]) + LiveCount(t[|t| - 1])
  }

  /** Every node sits in the bucket its key maps to. */
  predicate Placed(t: seq<seq<Entry>>, f: int -> int)
  {
    forall b, i :: 0 <= b < |t| && 0 <= i < |t[b]| ==> f(t[b][i].key) == b
  }

  predicate AllDistinct(t: seq<seq<Entry>>)
  {
    forall b :: 0 <= b < |t| ==> DistinctKeys(t[b])
  }

  /** Every node of the chain belongs in bucket b. */
  predicate ChainIn(c: seq<Entry>, f: int -> int, b: int)
  {
    forall i :: 0 <= i < |c| ==> f(c[i].key) == b
  }

  lemma PlacedReplace(t: seq<seq<Entry>>, f: int -> int, b: int, c: seq<Entry>)
    requires Placed(t, f) && 0 <= b < |t| && ChainIn(c, f, b)
    ensures Placed(t[b := c], f)
  {
  }

  lemma PlacedPrefix(t: seq<seq<Entry>>, f: int -> int, n: int)
    requires Placed(t, f) && 0 <= n <= |t|
    ensures Placed(t[..n], f)
  {
    forall b, i | 0 <= b < n && 0 <= i < |t[..n][b]|
      ensures f(t[..n][b][i].key) == b
    {
      assert t[..n][b] == t[b];
    }
  }

  /** A key is stored by a table exactly when its own bucket's chain
      stores it, with the same value. */
  lemma {:induction false} TableMapAt(t: seq<seq<Entry>>, f: int -> int, k: int)
    requires Placed(t, f)
    ensures k in TableMap(t) <==> 0 <= f(k) < |t| && k in ChainMap(t[f(k)])
    ensures k in TableMap(t) ==> TableMap(t)[k] == ChainMap(t[f(k)])[k]
  {
    if t != [] {
      var p := t[..|t| - 1];
      var last := t[|t| - 1];
      PlacedPrefix(t, f, |t| - 1);
      TableMapAt(p, f, k);
      ChainMapKeys(last, k);
      if k in ChainMap(last) {
        var i :| 0 <= i < |last| && last[i].key == k && last[i].inUse;
        assert f(t[|t| - 1][i].key) == |t| - 1;
      }
      if 0 <= f(k) < |t| - 1 {
        assert p[f(k)] == t[f(k)];
      }
    }
  }

  /** Replacing one bucket's chain by a chain that also stores k |-> v
      stores k |-> v in the table. */
  lemma TableMapPut(t: seq<seq<Entry>>, f: int -> int, b: int, c: seq<Entry>, k: int, v: int)
    requires Placed(t, f) && 0 <= b < |t| && Placed(t[b := c], f) && f(k) == b
    requires ChainMap(c) == ChainMap(t[b])[k := v]
    ensures TableMap(t[b := c]) == TableMap(t)[k := v]
  {
    var t' := t[b := c];
    forall x
      ensures x in TableMap(t') <==> x in TableMap(t)[k := v]
      ensures x in TableMap(t') ==> TableMap(t')[x] == TableMap(t)[k := v][x]
    {
      TableMapAt(t, f, x);
      TableMapAt(t', f, x);
    }
  }

  /** Replacing one bucket's chain by a chain that no longer stores k
      removes k from the table. */
  lemma TableMapDrop(t: seq<seq<Entry>>, f: int -> int, b: int, c: seq<Entry>, k: int)
    requires Placed(t, f) && 0 <= b < |t| && Placed(t[b := c], f) && f(k) == b
    requires ChainMap(c) == ChainMap(t[b]) - {k}
    ensures TableMap(t[b := c]) == TableMap(t) - {k}
  {
    var t' := t[b := c];
    forall x
      ensures x in TableMap(t') <==> x in TableMap(t) - {k}
      ensures x in TableMap(t') ==> TableMap(t')[x] == (TableMap(t) - {k})[x]
    {
      TableMapAt(t, f, x);
      TableMapAt(t', f, x);
    }
  }

  /** A table of empty chains stores nothing and places every node. */
  lemma EmptyTable(t: seq<seq<Entry>>, f: int -> int)
    requires forall b :: 0 <= b < |t| ==> t[b] == []
    ensures TableMap(t) == map[] && Placed(t, f)
  {
    TableMapEmpty(t);
  }

  lemma {:induction false} TableMapEmpty(t: seq<seq<Entry>>)
    requires forall b :: 0 <= b < |t| ==> t[b] == []
    ensures TableMap(t) == map[]
  {
    if t != [] {
      TableMapEmpty(t[..|t| - 1]);
    }
  }

  /** Counting live nodes bucket by bucket counts the stored keys. */
  lemma {:induction false} TotalLiveSize(t: seq<seq<Entry>>, f: int -> int)
    requires Placed(t, f) && AllDistinct(t)
    ensures TotalLive(t) == |TableMap(t)|
  {
    if t != [] {
      var p := t[..|t| - 1];
      var last := t[|t| - 1];
      PlacedPrefix(t, f, |t| - 1);
      TotalLiveSize(p, f);
      LiveCountSize(last);
      var A, B := TableMap(p), ChainMap(last);
      forall x | x in A.Keys
        ensures x !in B.Keys
      {
        TableMapAt(p, f, x);
        ChainMapKeys(last, x);
        assert forall i :: 0 <= i < |last| ==> f(last[i].key) == |t| - 1;
      }
      assert (A + B).Keys == A.Keys + B.Keys;
      assert A.Keys * B.Keys == {};
    }
  }

  // ---------------------------------------------------------------------
  // Range selection

  predicate Within(k: int, lo: Option<int>, hi: Option<int>)
  {
    (lo.Some? ==> lo.value <= k) && (hi.Some? ==> k <= hi.value)
  }

  /** The live nodes of a chain whose keys lie within the optional bounds,
      in chain order */
  function Select(c: seq<Entry>, lo: Option<int>, hi: Option<int>): seq<Entry>
  {
    if c == [] then []
    else
      var e := c[|c| - 1];
      Select(c[..|c| - 1], lo, hi) + (if e.inUse && Within(e.key, lo, hi) then [e] else [])
  }

  /** The node itself when it is live and within the bounds */
  function Pick(e: Entry, lo: Option<int>, hi: Option<int>): seq<Entry>
  {
    if e.inUse && Within(e.key, lo, hi) then [e] else []
  }

  /** Selecting from the slice c[i..j + 1] extends the selection from
      c[i..j] by node j. */
  lemma SelectStep(c: seq<Entry>, i: int, j: int, lo: Option<int>, hi: Option<int>)
    requires 0 <= i <= j < |c|
    ensures Select(c[i..j + 1], lo, hi) == Select(c[i..j], lo, hi) + Pick(c[j], lo, hi)
  {
    assert c[i..j + 1][..j - i] == c[i..j];
  }

  /** In a sorted chain, nothing from a node above hi onwards is selected
      under the upper bound hi. */
  lemma SelectStopAbove(c: seq<Entry>, i: int, j: int, hi: int)
    requires SortedKeys(c) && 0 <= i <= j < |c| && c[j].key > hi
    ensures Select(c[i..], None, Some(hi)) == Select(c[i..j], None, Some(hi))
  {
    assert c[i..] == c[i..j] + c[j..];
    SelectAppend(c[i..j], c[j..], None, Some(hi));
    SelectAbove(c[j..], None, hi);
  }

  function Values(es: seq<Entry>): (vs: seq<int>)
    ensures |vs| == |es|
    ensures forall i :: 0 <= i < |es| ==> vs[i] == es[i].value
  {
    seq(|es|, i requires 0 <= i < |es| => es[i].value)
  }

  lemma {:induction false} SelectAppend(a: seq<Entry>, b: seq<Entry>, lo: Option<int>, hi: Option<int>)
    ensures Select(a + b, lo, hi) == Select(a, lo, hi) + Select(b, lo, hi)
    decreases |b|
  {
    if b == [] {
      assert a + b == a;
    } else {
      var b' := b[..|b| - 1];
      assert (a + b)[..|a + b| - 1] == a + b';
      SelectAppend(a, b', lo, hi);
    }
  }

  /** Select keeps exactly the live in-range nodes, and keeps their order. */
  lemma SelectMembers(c: seq<Entry>, lo: Option<int>, hi: Option<int>)
    ensures forall e :: e in Select(c, lo, hi) ==> e in c && e.inUse && Within(e.key, lo, hi)
    ensures forall i :: 0 <= i < |c| && c[i].inUse && Within(c[i].key, lo, hi) ==> c[i] in Select(c, lo, hi)
    ensures SortedKeys(c) ==> SortedKeys(Select(c, lo, hi))
  {
    SelectSound(c, lo, hi);
    SelectComplete(c, lo, hi);
    if SortedKeys(c) {
      SelectSorted(c, lo, hi);
    }
  }

  lemma {:induction false} SelectSound(c: seq<Entry>, lo: Option<int>, hi: Option<int>)
    ensures forall e :: e in Select(c, lo, hi) ==> e in c && e.inUse && Within(e.key, lo, hi)
  {
    if c != [] {
      var p := c[..|c| - 1];
      SelectSound(p, lo, hi);
      assert c == p + [c[|c| - 1]];
    }
  }

  lemma {:induction false} SelectComplete(c: seq<Entry>, lo: Option<int>, hi: Option<int>)
    ensures forall i :: 0 <= i < |c| && c[i].inUse && Within(c[i].key, lo, hi) ==> c[i] in Select(c, lo, hi)
  {
    if c != [] {
      var p := c[..|c| - 1];
      SelectComplete(p, lo, hi);
      forall i | 0 <= i < |c| - 1
        ensures c[i] == p[i]
      {
      }
    }
  }

  lemma {:induction false} SelectSorted(c: seq<Entry>, lo: Option<int>, hi: Option<int>)
    requires SortedKeys(c)
    ensures SortedKeys(Select(c, lo, hi))
  {
    if c != [] {
      var p, e := c[..|c| - 1], c[|c| - 1];
      assert SortedKeys(p);
      SelectSorted(p, lo, hi);
      SelectSound(p, lo, hi);
      var s := Select(p, lo, hi);
      forall x, y | x in s && y in Pick(e, lo, hi)
        ensures x.key < y.key
      {
        var j :| 0 <= j < |p| && p[j] == x;
      }
      assert Select(c, lo, hi) == s + Pick(e, lo, hi);
      SortedConcat(s, Pick(e, lo, hi));
    }
  }

  /** No node above hi survives an upper bound of hi. */
  lemma {:induction false} SelectAbove(c: seq<Entry>, lo: Option<int>, hi: int)
    requires forall i :: 0 <= i < |c| ==> c[i].key > hi
    ensures Select(c, lo, Some(hi)) == []
  {
    if c != [] {
      SelectAbove(c[..|c| - 1], lo, hi);
    }
  }

  /** No node below lo survives a lower bound of lo. */
  lemma {:induction false} SelectBelow(c: seq<Entry>, lo: int, hi: Option<int>)
    requires forall i :: 0 <= i < |c| ==> c[i].key < lo
    ensures Select(c, Some(lo), hi) == []
  {
    if c != [] {
      SelectBelow(c[..|c| - 1], lo, hi);
    }
  }

  /** Bounds every node already satisfies can be dropped. */
  lemma {:induction false} SelectLoosen(c: seq<Entry>, lo: Option<int>, hi: Option<int>, lo': Option<int>, hi': Option<int>)
    requires forall i :: 0 <= i < |c| ==> (Within(c[i].key, lo, hi) <==> Within(c[i].key, lo', hi'))
    ensures Select(c, lo, hi) == Select(c, lo', hi')
  {
    if c != [] {
      SelectLoosen(c[..|c| - 1], lo, hi, lo', hi');
    }
  }

  lemma ValuesAppend(a: seq<Entry>, b: seq<Entry>)
    ensures Values(a + b) == Values(a) + Values(b)
  {
    assert Values(a + b) == Values(a) + Values(b);
  }

  /** Keys that strictly increase within each of two chains, and from every
      key of the first to every key of the second, increase across both. */
  lemma SortedConcat(a: seq<Entry>, b: seq<Entry>)
    requires SortedKeys(a) && SortedKeys(b)
    requires forall x, y :: x in a && y in b ==> x.key < y.key
    ensures SortedKeys(a + b)
  {
    forall i, j | 0 <= i < j < |a + b|
      ensures (a + b)[i].key < (a + b)[j].key
    {
      if j < |a| {
        assert (a + b)[i] == a[i] && (a + b)[j] == a[j];
      } else if i < |a| {
        assert (a + b)[i] in a && (a + b)[j] in b;
      } else {
        assert (a + b)[i] == b[i - |a|] && (a + b)[j] == b[j - |a|];
      }
    }
  }

  /** The last node of a chain when it is live, lies within the upper bound
      and is still below lo: the node a forward scan for lo stops on when no
      node reaches lo. */
  function Stray(c: seq<Entry>, lo: int, hi: Option<int>): (r: seq<Entry>)
    ensures |r| <= 1
    ensures forall e :: e in r ==> e in c && e.inUse && e.key < lo && Within(e.key, None, hi)
  {
    if c == [] then []
    else
      var e := c[|c| - 1];
      if e.inUse && e.key < lo && Within(e.key, None, hi) then [e] else []
  }

  /** A scan that first skips, from the front of a sorted chain, every
      node but the last while its key is below lo, and then keeps the live
      nodes within hi, keeps the live nodes within [lo, hi] and, when no node
      reaches lo, the stray last node. */
  lemma SkipScan(c: seq<Entry>, cur: int, lo: int, hi: Option<int>)
    requires SortedKeys(c) && 0 <= cur < |c|
    requires forall i :: 0 <= i < cur ==> c[i].key < lo
    requires cur + 1 == |c| || c[cur].key >= lo
    ensures Select(c[cur..], None, hi) == Select(c, Some(lo), hi) + Stray(c, lo, hi)
  {
    if c[cur].key >= lo {
      SkipReached(c, cur, lo, hi);
    } else {
      SelectBelow(c, lo, hi);
      var e := c[cur];
      assert c[cur..] == [e] && [e][..0] == [];
    }
  }

  /** The skip stopped on a node at or above lo: from there on every node
      is at or above lo, and nothing stray is left. */
  lemma SkipReached(c: seq<Entry>, cur: int, lo: int, hi: Option<int>)
    requires SortedKeys(c) && 0 <= cur < |c|
    requires forall i :: 0 <= i < cur ==> c[i].key < lo
    requires c[cur].key >= lo
    ensures Select(c[cur..], None, hi) == Select(c, Some(lo), hi) && Stray(c, lo, hi) == []
  {
    assert c == c[..cur] + c[cur..];
    SelectAppend(c[..cur], c[cur..], Some(lo), hi);
    SelectBelow(c[..cur], lo, hi);
    SelectLoosen(c[cur..], Some(lo), hi, None, hi);
    assert c[|c| - 1].key >= lo;
  }


  /** Every live node of the buckets lo .. hi - 1, bucket by bucket */
  function Gather(t: seq<seq<Entry>>, lo: nat, hi: nat): seq<Entry>
    requires hi <= |t|
    decreases hi
  {
    if hi <= lo then [] else Gather(t, lo, hi - 1) + Select(t[hi - 1], None, None)
  }

  /** A live node of a chain with distinct keys is what the table stores
      under its key. */
  lemma LiveInTable(t: seq<seq<Entry>>, f: int -> int, b: int, e: Entry)
    requires Placed(t, f) && 0 <= b < |t| && DistinctKeys(t[b])
    requires e in t[b] && e.inUse
    ensures e.key in TableMap(t) && TableMap(t)[e.key] == e.value
  {
    var i :| 0 <= i < |t[b]| && t[b][i] == e;
    ChainMapValue(t[b], i);
    TableMapAt(t, f, e.key);
  }

  /** The nodes of a bucket are placed in it. */
  lemma InBucket(t: seq<seq<Entry>>, f: int -> int, b: int)
    requires Placed(t, f) && 0 <= b < |t|
    ensures forall e :: e in t[b] ==> f(e.key) == b
  {
    forall e | e in t[b]
      ensures f(e.key) == b
    {
      var i :| 0 <= i < |t[b]| && t[b][i] == e;
    }
  }

  /** Gathered nodes are live nodes of the gathered buckets. */
  lemma {:induction false} GatherSound(t: seq<seq<Entry>>, f: int -> int, lo: nat, hi: nat)
    requires hi <= |t| && Placed(t, f)
    ensures forall e :: e in Gather(t, lo, hi) ==> e.inUse && lo <= f(e.key) < hi && e in t[f(e.key)]
    decreases hi
  {
    if lo < hi {
      GatherSound(t, f, lo, hi - 1);
      SelectMembers(t[hi - 1], None, None);
      InBucket(t, f, hi - 1);
    }
  }

  /** Every live node of the gathered buckets is gathered. */
  lemma {:induction false} GatherComplete(t: seq<seq<Entry>>, lo: nat, hi: nat)
    requires hi <= |t|
    ensures forall b, i :: lo <= b < hi && 0 <= i < |t[b]| && t[b][i].inUse ==> t[b][i] in Gather(t, lo, hi)
    decreases hi
  {
    if lo < hi {
      GatherComplete(t, lo, hi - 1);
      SelectMembers(t[hi - 1], None, None);
    }
  }

  /** The bucket function orders keys: a key in an earlier bucket is smaller. */
  ghost predicate KeyOrdered(f: int -> int)
  {
    forall a, b :: f(a) < f(b) ==> a < b
  }

  /** With sorted chains and key-ordered buckets, gathering yields strictly
      increasing keys. */
  lemma {:induction false} GatherSorted(t: seq<seq<Entry>>, f: int -> int, lo: nat, hi: nat)
    requires hi <= |t| && Placed(t, f) && KeyOrdered(f)
    requires forall b :: 0 <= b < |t| ==> SortedKeys(t[b])
    ensures SortedKeys(Gather(t, lo, hi))
    decreases hi
  {
    if lo < hi {
      GatherSorted(t, f, lo, hi - 1);
      GatherSound(t, f, lo, hi - 1);
      SelectMembers(t[hi - 1], None, None);
      InBucket(t, f, hi - 1);
      var last := Select(t[hi - 1], None, None);
      forall x, y | x in Gather(t, lo, hi - 1) && y in last
        ensures x.key < y.key
      {
        assert f(x.key) < f(y.key);
      }
      SortedConcat(Gather(t, lo, hi - 1), last);
    }
  }
}
