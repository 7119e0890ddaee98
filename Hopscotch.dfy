/** The hopscotch hash map of `hopscotch_v3.cpp`: one flat bucket array,
    each home bucket heading a delta-linked list of the entries hashed to
    it. The static helpers, the list splices and `optimize_cacheline_use`
    are shared word for word with `hopscotch_v2.cpp`, whose `remove` (the
    one that returns) is the removal modelled here. Segments, locks and
    timestamps only matter to concurrent callers and are left out. */
module Hopscotch {
  import opened MathUtil
  import opened HopscotchLists

  /** 2^31, the top bit of a 32-bit unsigned value */
  const TopBit: nat := 0x8000_0000
  /** 2^32, the count of 32-bit unsigned values */
  const WordRange: nat := 0x1_0000_0000

  lemma Pow2Of31()
    ensures Pow2(31) == TopBit
  {
    Pow2Of32();
    assert Pow2(32) == 2 * Pow2(31);
  }

  // ---- static utilities ---------------------------------------------------

  /** The least n with v <= 2^n */
  function CeilLog2(v: nat): nat
    decreases v
  {
    if v <= 1 then 0 else 1 + CeilLog2((v + 1) / 2)
  }

  lemma {:induction false} CeilLog2Least(v: nat)
    ensures v <= Pow2(CeilLog2(v))
    ensures CeilLog2(v) > 0 ==> Pow2(CeilLog2(v) - 1) < v
    decreases v
  {
    if v > 1 {
      var w := (v + 1) / 2;
      CeilLog2Least(w);
      assert Pow2(CeilLog2(v)) == 2 * Pow2(CeilLog2(w));
    }
  }

  lemma Pow2Strict(a: nat, b: nat)
    requires Pow2(a) < Pow2(b)
    ensures a < b
  {
    Pow2Ordered(a, b);
  }

  /** An exponent that bounds v from above, and whose predecessor does not,
      is the least one. */
  lemma CeilLog2Unique(v: nat, n: nat)
    requires v <= Pow2(n) && (n > 0 ==> Pow2(n - 1) < v)
    ensures n == CeilLog2(v)
  {
    var c := CeilLog2(v);
    CeilLog2Least(v);
    if c > 0 {
      Pow2Strict(c - 1, n);
    }
    if n > 0 {
      Pow2Strict(n - 1, c);
    }
  }

  /** A value of at most 2^31 rounds up to at most 2^31. */
  lemma CeilLog2Bound(v: nat)
    requires v <= TopBit
    ensures Pow2(CeilLog2(v)) <= TopBit
  {
    Pow2Of31();
    CeilLog2Least(v);
    var c := CeilLog2(v);
    if c > 0 {
      Pow2Strict(c - 1, 31);
    }
    Pow2Monotone(c, 31);
  }

  /** `NearestPowerOfTwo` on a 32-bit value: doubles rc from 1 while it is
      below the value. Past 2^31 the shift wraps rc to 0, which stays below
      the value, so the source loop never ends; `hangs` reports that. */
  method NearestPowerOfTwo(value: nat) returns (rc: nat, hangs: bool)
    requires value < WordRange
    ensures hangs <==> value > TopBit
    ensures !hangs ==> rc == Pow2(CeilLog2(value))
  {
    Pow2Of31();
    rc := 1;
    hangs := false;
    ghost var n: nat := 0;
    while rc < value && !hangs
      invariant rc == Pow2(n) && n <= 31
      invariant n > 0 ==> Pow2(n - 1) < value
      invariant hangs ==> value > TopBit
      decreases 31 - n, if hangs then 0 else 1
    {
      if rc == TopBit {
        hangs := true;
      } else {
        rc := rc * 2;
        n := n + 1;
      }
    }
    if !hangs {
      CeilLog2Unique(value, n);
      Pow2Monotone(n, 31);
    }
  }

  /** `CalcDivideShift`: counts the doublings NearestPowerOfTwo makes, with
      the same endless loop past 2^31. */
  method CalcDivideShift(value: nat) returns (numShift: nat, hangs: bool)
    requires value < WordRange
    ensures hangs <==> value > TopBit
    ensures !hangs ==> numShift == CeilLog2(value)
  {
    Pow2Of31();
    numShift := 0;
    var curr: nat := 1;
    hangs := false;
    while curr < value && !hangs
      invariant curr == Pow2(numShift) && numShift <= 31
      invariant numShift > 0 ==> Pow2(numShift - 1) < value
      invariant hangs ==> value > TopBit
      decreases 31 - numShift, if hangs then 0 else 1
    {
      if curr == TopBit {
        hangs := true;
      } else {
        curr := curr * 2;
        numShift := numShift + 1;
      }
    }
    if !hangs {
      CeilLog2Unique(value, numShift);
      Pow2Monotone(numShift, 31);
    }
  }

  /** `first_msb_bit_indx`: -1 for 0, otherwise one less than the number of
      leading zero bits of the 32-bit value */
  function FirstMsbBitIndex(x: nat): (r: int)
    requires x < WordRange
    ensures x == 0 ==> r == -1
    ensures x > 0 ==> 0 <= r + 1 <= 31 && Pow2(31 - (r + 1)) <= x < Pow2(32 - (r + 1))
  {
    if x == 0 then -1
    else
      var b := Log2Floor(x);
      assert b < 32 by {
        Pow2Of32();
        Pow2Strict(b, 32);
      }
      30 - b
  }

  /** `get_start_cacheline_bucket`: the first bucket of b's cache line,
      `b - (b & cacheMask)` with cacheMask + 1 a power of two */
  function LineStart(b: nat, cacheMask: nat): (r: nat)
    ensures r <= b < r + cacheMask + 1 && r % (cacheMask + 1) == 0
  {
    var m := cacheMask + 1;
    DivModUnique(m * (b / m), m, b / m, 0);
    b - b % m
  }

  /** A cache line that starts at or before x ends at or before R, when R is
      a multiple of the line size and x lies below it. */
  lemma LineInside(x: nat, cacheMask: nat, R: nat)
    requires R % (cacheMask + 1) == 0 && x < R
    ensures LineStart(x, cacheMask) + cacheMask < R
  {
    var line := cacheMask + 1;
    var q, Q := x / line, R / line;
    assert x == q * line + x % line;
    assert R == Q * line;
    assert q * line < Q * line;
    assert q < Q by {
      if q >= Q {
        MulLeft(line, Q, q);
      }
    }
    MulLeft(line, q + 1, Q);
  }

  /** The larger of two powers of two is a multiple of the smaller. */
  lemma PowersAligned(a: nat, b: nat)
    ensures (if Pow2(a) >= Pow2(b) then Pow2(a) else Pow2(b)) % Pow2(b) == 0
  {
    if Pow2(a) >= Pow2(b) {
      Pow2Ordered(b, a);
      Pow2Add(b, a - b);
      DivModUnique(Pow2(a), Pow2(b), Pow2(a - b), 0);
    } else {
      DivModUnique(Pow2(b), Pow2(b), 1, 0);
    }
  }

  /** `_segmentShift`: the gap between the leading bits of the bucket mask
      and of the segment mask, as a 32-bit unsigned value */
  function SegmentShift(bucketMask: nat, segmentMask: nat): nat
    requires bucketMask < WordRange && segmentMask < WordRange
  {
    (FirstMsbBitIndex(bucketMask) - FirstMsbBitIndex(segmentMask)) % WordRange
  }

  /** The sizes the map's constructor derives from its arguments: the
      segment and bucket counts rounded up to powers of two, the segment
      shift, and the width of the hash codes (the log of the bucket array's
      length). With a power-of-two cache line, the larger of the bucket
      count and the line is a whole number of lines. */
  method Sizes(inCapacity: nat, concurrencyLevel: nat, line: nat) returns (segments: nat, adjInitCap: nat, shift: nat, bits: nat)
    requires inCapacity <= TopBit && concurrencyLevel <= TopBit && IsPow2(line)
    ensures segments == Pow2(CeilLog2(concurrencyLevel)) <= TopBit
    ensures adjInitCap == Pow2(CeilLog2(inCapacity)) <= TopBit
    ensures shift == SegmentShift(adjInitCap - 1, segments - 1)
    ensures bits == Log2Floor(adjInitCap + InsertRange + 1) <= 32
    ensures (if adjInitCap >= line then adjInitCap else line) % line == 0
  {
    var hangs;
    segments, hangs := NearestPowerOfTwo(concurrencyLevel);
    adjInitCap, hangs := NearestPowerOfTwo(inCapacity);
    CeilLog2Bound(inCapacity);
    CeilLog2Bound(concurrencyLevel);
    shift := SegmentShift(adjInitCap - 1, segments - 1);
    bits := Log2Floor(adjInitCap + InsertRange + 1);
    assert bits <= 32 by {
      Pow2Of32();
      Pow2Strict(bits, 32);
    }
    PowersAligned(CeilLog2(inCapacity), Log2Floor(line));
  }

  // ---- the free-slot search -------------------------------------------------

  /** The k-th slot visited by the cache-line search from h: h, h + 1, ...
      to the end of the line, then from its start back towards h */
  function CycleSlot(ls: nat, cacheMask: nat, h: nat, k: nat): nat
  {
    if h + k <= ls + cacheMask then h + k else h + k - (cacheMask + 1)
  }

  /** One step of the cache-line search: the next slot, wrapping from the
      line's end to its start, is back at h exactly after the last step. */
  lemma CycleNext(ls: nat, cacheMask: nat, h: nat, k: nat)
    requires ls <= h <= ls + cacheMask && k <= cacheMask
    ensures var s := CycleSlot(ls, cacheMask, h, k);
      var next := if s + 1 > ls + cacheMask then ls else s + 1;
      && ls <= s <= ls + cacheMask
      && (next == h <==> k == cacheMask)
      && (k < cacheMask ==> next == CycleSlot(ls, cacheMask, h, k + 1))
  {
  }

  /** The first free slot the cache-line search meets from its k-th step */
  function LineFree(t: seq<Bucket>, ls: nat, cacheMask: nat, h: nat, k: nat): (r: Option<nat>)
    requires ls <= h <= ls + cacheMask < |t| && k <= cacheMask + 1
    decreases cacheMask + 1 - k
    ensures r.Some? ==> ls <= r.value <= ls + cacheMask && t[r.value].hash == EmptyHash
    ensures r.None? ==> forall k' :: k <= k' <= cacheMask ==> t[CycleSlot(ls, cacheMask, h, k')].hash != EmptyHash
  {
    if k == cacheMask + 1 then None
    else
      var s := CycleSlot(ls, cacheMask, h, k);
      if t[s].hash == EmptyHash then Some(s) else LineFree(t, ls, cacheMask, h, k + 1)
  }

  /** The first free slot in [lo, hi], scanning upward */
  function FirstFreeUp(t: seq<Bucket>, lo: nat, hi: int): (r: Option<nat>)
    requires hi < |t|
    decreases if hi < lo then 0 else hi + 1 - lo
    ensures r.Some? ==> lo <= r.value <= hi && t[r.value].hash == EmptyHash
    ensures r.Some? ==> forall x :: lo <= x < r.value ==> t[x].hash != EmptyHash
    ensures r.None? ==> forall x :: lo <= x <= hi ==> t[x].hash != EmptyHash
  {
    if hi < lo then None
    else if t[lo].hash == EmptyHash then Some(lo)
    else FirstFreeUp(t, lo + 1, hi)
  }

  /** The first free slot in [lo, hi], scanning downward from hi */
  function FirstFreeDown(t: seq<Bucket>, hi: int, lo: nat): (r: Option<nat>)
    requires hi < |t|
    decreases if hi < lo then 0 else hi + 1 - lo
    ensures r.Some? ==> lo <= r.value <= hi && t[r.value].hash == EmptyHash
    ensures r.Some? ==> forall x :: r.value < x <= hi ==> t[x].hash != EmptyHash
    ensures r.None? ==> forall x :: lo <= x <= hi ==> t[x].hash != EmptyHash
  {
    if hi < lo then None
    else if t[hi].hash == EmptyHash then Some(hi)
    else FirstFreeDown(t, hi - 1, lo)
  }

  /** The last slot the forward search tries: `min(h + SHRT_MAX - 1, bucketMask)` */
  function ForwardLimit(h: nat, cap: nat): int
  {
    if h + (ShrtMax - 1) > cap - 1 then cap - 1 else h + (ShrtMax - 1)
  }

  /** The last slot the backward search tries: `max(h - (SHRT_MAX - 1), 0)` */
  function BackwardLimit(h: nat): nat
  {
    if h < ShrtMax - 1 then 0 else h - (ShrtMax - 1)
  }

  /** The slot `add` fills, with whether it is linked at the beginning of
      the list: the first free slot of h's cache line in cyclic order from h
      (only with cache-line alignment), else the first free slot above
      h + cacheMask up to the forward limit, else the first one below
      h - cacheMask down to the backward limit. */
  function FreeSlot(t: seq<Bucket>, h: nat, cap: nat, cacheMask: nat, aligned: bool): (r: Option<(nat, bool)>)
    requires h < cap <= |t| && LineStart(h, cacheMask) + cacheMask < |t|
    ensures r.Some? ==> r.value.0 < |t| && t[r.value.0].hash == EmptyHash
    ensures r.Some? && r.value.1 ==>
      aligned && LineStart(h, cacheMask) <= r.value.0 <= LineStart(h, cacheMask) + cacheMask
    ensures r.Some? && !r.value.1 ==>
      || (h + cacheMask < r.value.0 <= h + (ShrtMax - 1) && r.value.0 < cap)
      || (h - (ShrtMax - 1) <= r.value.0 < h - cacheMask)
    ensures r.None? ==>
      && (aligned ==> forall k :: 0 <= k <= cacheMask ==>
            t[CycleSlot(LineStart(h, cacheMask), cacheMask, h, k)].hash != EmptyHash)
      && (forall x :: h + cacheMask < x <= ForwardLimit(h, cap) ==> t[x].hash != EmptyHash)
      && (forall x :: BackwardLimit(h) <= x < h - cacheMask ==> t[x].hash != EmptyHash)
  {
    var ls := LineStart(h, cacheMask);
    var inLine := if aligned then LineFree(t, ls, cacheMask, h, 0) else None;
    if inLine.Some? then Some((inLine.value, true))
    else
      var up := FirstFreeUp(t, h + cacheMask + 1, ForwardLimit(h, cap));
      if up.Some? then Some((up.value, false))
      else
        var down := FirstFreeDown(t, h - cacheMask - 1, BackwardLimit(h));
        if down.Some? then Some((down.value, false)) else None
  }

  // ---- the cache-line optimisation after a removal --------------------------

  /** The first position of l, from i on, whose slot lies before its home o
      or more than cacheMask slots after it; |l| if there is none */
  function FirstOut(l: seq<nat>, o: nat, cacheMask: nat, i: nat): (r: nat)
    requires i <= |l|
    decreases |l| - i
    ensures i <= r <= |l|
    ensures r < |l| ==> l[r] < o || l[r] - o > cacheMask
    ensures forall k :: i <= k < r ==> o <= l[k] <= o + cacheMask
  {
    if i == |l| then |l|
    else if l[i] < o || l[i] - o > cacheMask then i
    else FirstOut(l, o, cacheMask, i + 1)
  }

  /** The entry `optimize_cacheline_use` moves: the first home bucket of the
      line [ls + k, ls + cacheMask] whose list has an entry out of range,
      with that entry's position */
  function FirstMove(L: seq<seq<nat>>, ls: nat, cacheMask: nat, k: nat): (r: Option<(nat, nat)>)
    requires ls + cacheMask < |L| && k <= cacheMask + 1
    decreases cacheMask + 1 - k
    ensures r.Some? ==>
      && ls + k <= r.value.0 <= ls + cacheMask && r.value.1 < |L[r.value.0]|
      && (L[r.value.0][r.value.1] < r.value.0 || L[r.value.0][r.value.1] - r.value.0 > cacheMask)
    ensures r.None? ==> forall o, i :: ls + k <= o <= ls + cacheMask && 0 <= i < |L[o]| ==>
      o <= L[o][i] <= o + cacheMask
  {
    if k > cacheMask then None
    else
      var o := ls + k;
      var i := FirstOut(L[o], o, cacheMask, 0);
      if i < |L[o]| then Some((o, i)) else FirstMove(L, ls, cacheMask, k + 1)
  }

  // ---- the range query ------------------------------------------------------

  /** The data of l's entries whose key is at most end, in list order (a
      slot past the table, which no list holds, contributes nothing) */
  function ListValues(t: seq<Bucket>, l: seq<nat>, end: int): seq<int>
  {
    if l == [] then []
    else
      var s := l[|l| - 1];
      ListValues(t, l[..|l| - 1], end) + (if s < |t| && t[s].key <= end then [t[s].data] else [])
  }

  /** ListValues of the lists of buckets lo .. hi - 1, one after the other */
  function Gather(t: seq<Bucket>, L: seq<seq<nat>>, lo: nat, hi: nat, end: int): seq<int>
    requires lo <= hi <= |L|
    decreases hi - lo
  {
    if lo == hi then [] else Gather(t, L, lo, hi - 1, end) + ListValues(t, L[hi - 1], end)
  }

  /** What `range_query` returns once start <= end: the lists of `count`
      consecutive buckets from j0; None when they would run past the table */
  function Range(t: seq<Bucket>, L: seq<seq<nat>>, j0: nat, count: int, end: int): Option<seq<int>>
    requires |L| == |t|
  {
    if count <= 0 then Some([])
    else if j0 + count > |t| then None
    else Some(Gather(t, L, j0, j0 + count, end))
  }

  /** x is among the values of l exactly when some position of l holds a
      key at most end with data x. */
  lemma InListValues(t: seq<Bucket>, l: seq<nat>, end: int, x: int)
    ensures x in ListValues(t, l, end) <==>
      exists i :: 0 <= i < |l| && l[i] < |t| && t[l[i]].key <= end && t[l[i]].data == x
  {
    if x in ListValues(t, l, end) {
      var i := ListValueAt(t, l, end, x);
    }
    forall i | 0 <= i < |l| && l[i] < |t| && t[l[i]].key <= end
      ensures t[l[i]].data in ListValues(t, l, end)
    {
      ListValueOf(t, l, end, i);
    }
  }

  /** A value of l comes from a position holding a key at most end. */
  lemma {:induction false} ListValueAt(t: seq<Bucket>, l: seq<nat>, end: int, x: int) returns (i: nat)
    requires x in ListValues(t, l, end)
    ensures i < |l| && l[i] < |t| && t[l[i]].key <= end && t[l[i]].data == x
  {
    var l', s := l[..|l| - 1], l[|l| - 1];
    if x in ListValues(t, l', end) {
      i := ListValueAt(t, l', end, x);
      assert l[i] == l'[i];
    } else {
      i := |l| - 1;
    }
  }

  /** Every position holding a key at most end contributes its data. */
  lemma {:induction false} ListValueOf(t: seq<Bucket>, l: seq<nat>, end: int, i: nat)
    requires i < |l| && l[i] < |t| && t[l[i]].key <= end
    ensures t[l[i]].data in ListValues(t, l, end)
  {
    var l' := l[..|l| - 1];
    if i < |l'| {
      assert l'[i] == l[i];
      ListValueOf(t, l', end, i);
    }
  }

  /** x is gathered from buckets lo .. hi - 1 exactly when it is among the
      values of one of their lists. */
  lemma {:induction false} InGather(t: seq<Bucket>, L: seq<seq<nat>>, lo: nat, hi: nat, end: int, x: int)
    requires lo <= hi <= |L|
    ensures x in Gather(t, L, lo, hi, end) <==> exists h :: lo <= h < hi && x in ListValues(t, L[h], end)
    decreases hi - lo
  {
    if lo < hi {
      InGather(t, L, lo, hi - 1, end, x);
      assert Gather(t, L, lo, hi, end) == Gather(t, L, lo, hi - 1, end) + ListValues(t, L[hi - 1], end);
      if x in ListValues(t, L[hi - 1], end) {
        assert lo <= hi - 1 < hi;
      }
    }
  }

  /** In a well-formed table, the values gathered from buckets lo .. hi - 1
      are exactly the data of the stored keys at most end whose home bucket
      lies among them. */
  lemma GatherIsStored(t: seq<Bucket>, cap: nat, reach: nat, L: seq<seq<nat>>, S: map<int, nat>, C: map<int, int>,
                       hash0: int -> int, iBits: nat, lo: nat, hi: nat, end: int, x: int)
    requires Structure(t, cap, reach, L) && Keyed(t, S, C, hash0, iBits) && lo <= hi <= |L|
    ensures x in Gather(t, L, lo, hi, end) <==>
      exists k :: k in C && k <= end && C[k] == x && lo <= HashIndex(hash0(k), iBits) % cap < hi
  {
    InGather(t, L, lo, hi, end, x);
    if x in Gather(t, L, lo, hi, end) {
      var h :| lo <= h < hi && x in ListValues(t, L[h], end);
      var k := GatheredIsStored(t, cap, reach, L, S, C, hash0, iBits, h, end, x);
    }
    if exists k :: k in C && k <= end && C[k] == x && lo <= HashIndex(hash0(k), iBits) % cap < hi {
      var k :| k in C && k <= end && C[k] == x && lo <= HashIndex(hash0(k), iBits) % cap < hi;
      StoredIsGathered(t, cap, reach, L, S, C, hash0, iBits, k, end);
    }
  }

  /** A value of bucket h's list is the data of a stored key at most end
      homed at h. */
  lemma GatheredIsStored(t: seq<Bucket>, cap: nat, reach: nat, L: seq<seq<nat>>, S: map<int, nat>, C: map<int, int>,
                         hash0: int -> int, iBits: nat, h: nat, end: int, x: int) returns (k: int)
    requires Structure(t, cap, reach, L) && Keyed(t, S, C, hash0, iBits) && h < |L|
    requires x in ListValues(t, L[h], end)
    ensures k in C && k <= end && C[k] == x && HashIndex(hash0(k), iBits) % cap == h
  {
    var i := ListValueAt(t, L[h], end, x);
    var s := L[h][i];
    assert ListOk(t, cap, reach, h, L[h]);
    assert Occupies(t, cap, reach, h, L[h][i]);
    assert SlotOf(t, S, s);
    k := t[s].key;
    assert KeyAt(t, k, S[k], C[k], HashIndex(hash0(k), iBits));
  }

  /** A stored key at most end contributes its data to its home list. */
  lemma StoredIsGathered(t: seq<Bucket>, cap: nat, reach: nat, L: seq<seq<nat>>, S: map<int, nat>, C: map<int, int>,
                         hash0: int -> int, iBits: nat, k: int, end: int)
    requires Structure(t, cap, reach, L) && Keyed(t, S, C, hash0, iBits) && k in C && k <= end
    ensures var h := HashIndex(hash0(k), iBits) % cap;
      h < |L| && C[k] in ListValues(t, L[h], end)
  {
    var s := S[k];
    assert KeyAt(t, k, s, C[k], HashIndex(hash0(k), iBits));
    assert OnItsList(t, cap, L, s);
    var h := HashIndex(hash0(k), iBits) % cap;
    var i :| 0 <= i < |L[h]| && L[h][i] == s;
    ListValueOf(t, L[h], end, i);
  }

  // ---- list walks -----------------------------------------------------------

  /** Bucket b holds the entry of key with hash code hash. */
  predicate Matches(b: Bucket, hash: nat, key: int)
  {
    b.hash == hash && b.key == key
  }

  /** The walk of a key's list stops exactly at the key's slot: a match at
      position j, after none before it, means the key is stored there, and
      running off the list means it is not stored. */
  lemma FoundIffStored(t: seq<Bucket>, cap: nat, reach: nat, L: seq<seq<nat>>, S: map<int, nat>, C: map<int, int>,
                       hash0: int -> int, iBits: nat, key: int, j: nat)
    requires Structure(t, cap, reach, L) && Keyed(t, S, C, hash0, iBits)
    requires var h := HashIndex(hash0(key), iBits) % cap;
      && j <= |L[h]| && ListOk(t, cap, reach, h, L[h])
      && (forall i :: 0 <= i < j ==> !Matches(t[L[h][i]], HashIndex(hash0(key), iBits), key))
      && (j < |L[h]| ==> Matches(t[L[h][j]], HashIndex(hash0(key), iBits), key))
    ensures var h := HashIndex(hash0(key), iBits) % cap;
      && (j < |L[h]| <==> key in S)
      && (j < |L[h]| ==> S[key] == L[h][j])
  {
    var hash := HashIndex(hash0(key), iBits);
    var h := hash % cap;
    var l := L[h];
    if j < |l| {
      assert Occupies(t, cap, reach, h, l[j]);
      assert SlotOf(t, S, l[j]);
    }
    if key in S {
      var s := S[key];
      assert KeyAt(t, key, s, C[key], hash);
      assert OnItsList(t, cap, L, s);
      var i :| 0 <= i < |l| && l[i] == s;
      assert Matches(t[l[i]], hash, key);
    }
  }

  /** The slot FreeSlot picks suits an added entry of home h. */
  lemma FreeSlotFits(t: seq<Bucket>, cap: nat, reach: nat, cacheMask: nat, aligned: bool, h: nat, hash: nat)
    requires cap <= reach <= |t| && h < cap && LineStart(h, cacheMask) + cacheMask < reach
    requires hash != EmptyHash && hash % cap == h
    requires FreeSlot(t, h, cap, cacheMask, aligned).Some?
    ensures Fits(t, cap, reach, h, FreeSlot(t, h, cap, cacheMask, aligned).value.0, hash)
  {
  }

  /** Adding an absent key at a slot that suits it keeps the table's shape
      and stores the key there. */
  lemma AddKeeps(t: seq<Bucket>, cap: nat, reach: nat, L: seq<seq<nat>>, S: map<int, nat>, C: map<int, int>,
                 hash0: int -> int, iBits: nat, key: int, data: int, f: nat, begin: bool)
    requires Structure(t, cap, reach, L) && Keyed(t, S, C, hash0, iBits) && key !in S
    requires Fits(t, cap, reach, HashIndex(hash0(key), iBits) % cap, f, HashIndex(hash0(key), iBits))
    ensures var hash := HashIndex(hash0(key), iBits);
      var h := hash % cap;
      var t' := if begin then PutFirst(t, h, f, hash, key, data) else PutLast(t, h, f, hash, key, data, LastOf(L[h]));
      var L' := if begin then L[h := BeginSplice(L[h], h, f)] else L[h := L[h] + [f]];
      Structure(t', cap, reach, L') && Keyed(t', S[key := f], C[key := data], hash0, iBits)
  {
    var hash := HashIndex(hash0(key), iBits);
    var h := hash % cap;
    assert ListOk(t, cap, reach, h, L[h]);
    FreeNotOn(t, cap, reach, h, L[h], f);
    if begin {
      BeginCells(t, h, L[h], f, hash, key, data);
      BeginStructure(t, cap, reach, L, h, f, hash, key, data);
      var t' := PutFirst(t, h, f, hash, key, data);
      KeyedAdd(t, t', S, C, hash0, iBits, f, key, data);
    } else {
      EndCells(t, h, L[h], f, hash, key, data);
      EndStructure(t, cap, reach, L, h, f, hash, key, data);
      var t' := PutLast(t, h, f, hash, key, data, LastOf(L[h]));
      KeyedAdd(t, t', S, C, hash0, iBits, f, key, data);
    }
  }

  /** Removing the stored key at position j of its list keeps the table's
      shape and forgets the key. */
  lemma RemoveKeeps(t: seq<Bucket>, cap: nat, reach: nat, L: seq<seq<nat>>, S: map<int, nat>, C: map<int, int>,
                    hash0: int -> int, iBits: nat, key: int, j: nat)
    requires Structure(t, cap, reach, L) && Keyed(t, S, C, hash0, iBits) && key in S
    requires var h := HashIndex(hash0(key), iBits) % cap; j < |L[h]| && L[h][j] == S[key]
    ensures var h := HashIndex(hash0(key), iBits) % cap;
      && (PrevOf(L[h], j).None? ==> t[h].firstDelta.Off?)
      && (PrevOf(L[h], j).Some? ==> PrevOf(L[h], j).value < |t| && t[PrevOf(L[h], j).value].nextDelta.Off?)
      && var t' := TakeOut(t, h, L[h][j], PrevOf(L[h], j));
         && Structure(t', cap, reach, L[h := Without(L[h], j)])
         && Keyed(t', S - {key}, C - {key}, hash0, iBits)
         && t'[L[h][j]].hash == EmptyHash && L[h][j] < reach
  {
    var h := HashIndex(hash0(key), iBits) % cap;
    var l := L[h];
    assert ListOk(t, cap, reach, h, l);
    assert Occupies(t, cap, reach, h, l[j]);
    RemoveCells(t, h, l, j);
    RemoveStructure(t, cap, reach, L, h, j);
    var t' := TakeOut(t, h, l[j], PrevOf(l, j));
    KeyedRemove(t, t', S, C, hash0, iBits, key);
  }

  /** Moving the entry FirstMove names into the free slot f keeps the
      table's shape, the stored keys and data, and every list's entries. */
  lemma MoveKeeps(t: seq<Bucket>, cap: nat, reach: nat, L: seq<seq<nat>>, S: map<int, nat>, C: map<int, int>,
                  hash0: int -> int, iBits: nat, o: nat, j: nat, f: nat)
    requires Structure(t, cap, reach, L) && Keyed(t, S, C, hash0, iBits)
    requires o < |L| && j < |L[o]| && f < reach && t[f].hash == EmptyHash
    ensures L[o][j] < |t| && L[o][j] != f && (j > 0 ==> L[o][j - 1] < |t|)
    ensures var t' := MoveInto(t, o, L[o][j], PrevOf(L[o], j), f);
      var L' := L[o := MovedTo(L[o], j, f)];
      && Structure(t', cap, reach, L')
      && Keyed(t', S[t[L[o][j]].key := f], C, hash0, iBits)
      && (forall h :: 0 <= h < |t| ==> Entries(t', L'[h]) == Entries(t, L[h]))
  {
    var l := L[o];
    assert ListOk(t, cap, reach, o, l);
    assert Occupies(t, cap, reach, o, l[j]);
    FreeNotOn(t, cap, reach, o, l, f);
    RelocateCells(t, o, l, j, f);
    RelocateStructure(t, cap, reach, L, o, j, f);
    var t' := MoveInto(t, o, l[j], PrevOf(l, j), f);
    KeyedRelocate(t, t', S, C, hash0, iBits, l[j], f);
    MoveKeepsEntries(t, t', cap, reach, L, o, j, f);
  }

  /** Every home bucket of a well-formed table has its list linked. */
  lemma LineLinked(t: seq<Bucket>, cap: nat, reach: nat, L: seq<seq<nat>>, lo: nat, hi: nat)
    requires Structure(t, cap, reach, L) && hi < |t|
    ensures forall o :: lo <= o <= hi ==> Linked(t, o, L[o])
  {
    forall o | lo <= o <= hi
      ensures Linked(t, o, L[o])
    {
      assert ListOk(t, cap, reach, o, L[o]);
    }
  }

  // ---- the map --------------------------------------------------------------

  /** A fresh array of n empty buckets */
  method NewTable(n: nat) returns (a: array<Bucket>)
    ensures fresh(a) && a.Length == n && forall i :: 0 <= i < n ==> a[i] == EmptyBucket
  {
    a := new Bucket[n](_ => EmptyBucket);
  }

  class HopscotchMap {
    /** The buckets: bucketMask + 1 home buckets, then `_INSERT_RANGE + 1` more */
    const table: array<Bucket>
    const bucketMask: nat
    /** One less than the buckets per cache line */
    const cacheMask: nat
    const cachelineAlignment: bool
    const segmentMask: nat
    /** The stored `_segmentShift`, a 32-bit unsigned value */
    const segmentShift: nat
    /** The number of top bits of the injected hash that Calc keeps */
    const iBits: nat
    /** The injected hash function `hash0` */
    const hash0: int -> int

    /** The slots of each home bucket's list, in list order */
    ghost var Lists: seq<seq<nat>>
    /** The slot of each stored key */
    ghost var Slots: map<int, nat>
    /** The stored keys and their data */
    ghost var Contents: map<int, int>

    /** The number of home buckets */
    function Cap(): nat
    {
      bucketMask + 1
    }

    /** The end of the slots an entry can occupy: the home buckets, or the
        first cache line when that is longer */
    function Reach(): nat
    {
      if bucketMask >= cacheMask then bucketMask + 1 else cacheMask + 1
    }

    /** The sizes the constructor fixes */
    predicate Sized()
      reads this
    {
      && table.Length == bucketMask + InsertRange + 2
      && cacheMask < InsertRange
      && Reach() % (cacheMask + 1) == 0
      && iBits <= 32
    }

    ghost predicate Valid()
      reads this, table
    {
      && Sized()
      && Structure(table[..], Cap(), Reach(), Lists)
      && Keyed(table[..], Slots, Contents, hash0, iBits)
    }

    /** `Calc`: the hash code of a key */
    function Calc(key: int): nat
      requires iBits <= 64
    {
      HashIndex(hash0(key), iBits)
    }

    /** The segment of a hash code, `(hash >> _segmentShift) & _segmentMask`
        with segmentMask + 1 a power of two */
    function Segment(hash: nat): nat
    {
      ShiftRight(hash, segmentShift) % (segmentMask + 1)
    }

    constructor (inCapacity: nat, concurrencyLevel: nat, cacheLineSize: nat, isOptimizeCacheline: bool, hash0: int -> int)
      requires inCapacity <= TopBit && concurrencyLevel <= TopBit
      requires 16 <= cacheLineSize && IsPow2(cacheLineSize / 16) && cacheLineSize / 16 <= InsertRange
      ensures Valid() && fresh(table) && Contents == map[]
      ensures bucketMask + 1 == Pow2(CeilLog2(inCapacity)) && segmentMask + 1 == Pow2(CeilLog2(concurrencyLevel))
      ensures cacheMask == cacheLineSize / 16 - 1 && cachelineAlignment == isOptimizeCacheline
      ensures bucketMask < TopBit && segmentMask < TopBit
      ensures segmentShift == SegmentShift(bucketMask, segmentMask)
      ensures table.Length == bucketMask + InsertRange + 2 && iBits == Log2Floor(table.Length)
      ensures forall i :: 0 <= i < table.Length ==> table[i] == EmptyBucket
    {
      var line := cacheLineSize / 16;
      var segments, adjInitCap, shift, bits := Sizes(inCapacity, concurrencyLevel, line);
      var numBuckets := adjInitCap + InsertRange + 1;
      cacheMask := line - 1;
      cachelineAlignment := isOptimizeCacheline;
      segmentMask := segments - 1;
      bucketMask := adjInitCap - 1;
      segmentShift := shift;
      iBits := bits;
      this.hash0 := hash0;
      var buckets := NewTable(numBuckets);
      table := buckets;
      Lists := NoLists(numBuckets);
      Slots := map[];
      Contents := map[];
      new;
      assert bucketMask == adjInitCap - 1 && segmentMask == segments - 1 && segmentShift == shift;
      assert table.Length == numBuckets && iBits == bits && cacheMask == line - 1;
      EmptyTable(table[..], Cap(), Reach(), hash0, iBits);
    }
  
    /** The walk of h's list that add, remove and contains share: stops at
        the first entry with this hash code and key, or at the list's end.
        `last` is the slot before the stopping point. */
    method Walk(h: nat, hash: nat, key: int) returns (found: bool, slot: nat, last: Option<nat>, ghost j: nat)
      requires h < table.Length == |Lists| && Linked(table[..], h, Lists[h])
      ensures j <= |Lists[h]| && (found <==> j < |Lists[h]|)
      ensures found ==> slot == Lists[h][j] && Matches(table[slot], hash, key)
      ensures forall i :: 0 <= i < j ==> !Matches(table[Lists[h][i]], hash, key)
      ensures last == PrevOf(Lists[h], j)
    {
      ghost var l := Lists[h];
      last := None;
      var compare: int := h;
      var nextDelta := table[h].firstDelta;
      found := false;
      slot := 0;
      j := 0;
      while nextDelta.Off? && !found
        invariant j <= |l| && (found ==> j < |l|) && last == PrevOf(l, j)
        invariant !found ==> nextDelta == Next(l, j, compare)
        invariant found ==> slot == l[j] && Matches(table[slot], hash, key)
        invariant forall i :: 0 <= i < j ==> !Matches(table[l[i]], hash, key)
        decreases |l| - j, if found then 0 else 1
      {
        compare := compare + nextDelta.d;
        if table[compare].hash == hash && table[compare].key == key {
          found := true;
          slot := compare;
        } else {
          last := Some(compare);
          nextDelta := table[compare].nextDelta;
          j := j + 1;
        }
      }
    }

    /** `contains` (and v2's `containsKey`) */
    method Contains(key: int) returns (found: bool)
      requires Valid()
      ensures found <==> key in Contents
    {
      var hash := Calc(key);
      var h := hash % Cap();
      var slot, last;
      ghost var j;
      assert ListOk(table[..], Cap(), Reach(), h, Lists[h]);
      found, slot, last, j := Walk(h, hash, key);
      FoundIffStored(table[..], Cap(), Reach(), Lists, Slots, Contents, hash0, iBits, key, j);
    }

    /** The walk of one bucket in `range_query`: the data of b's list
        entries whose key is at most end, in list order */
    method CollectList(b: nat, end: int) returns (vals: seq<int>)
      requires b < table.Length == |Lists| && Linked(table[..], b, Lists[b])
      ensures vals == ListValues(table[..], Lists[b], end)
    {
      ghost var l := Lists[b];
      ghost var j := 0;
      vals := [];
      var curr: int := b;
      var nextDelta := table[b].firstDelta;
      while nextDelta.Off?
        invariant j <= |l| && nextDelta == Next(l, j, curr)
        invariant vals == ListValues(table[..], l[..j], end)
        decreases |l| - j
      {
        curr := curr + nextDelta.d;
        assert table[curr] == table[..][l[j]];
        if table[curr].key <= end {
          vals := vals + [table[curr].data];
        }
        nextDelta := table[curr].nextDelta;
        assert l[..j + 1][..j] == l[..j];
        j := j + 1;
      }
      assert l[..j] == l;
    }

    /** `range_query`: for start <= end, the data of the keys at most end on
        the lists of consecutive buckets from start's home bucket, one
        bucket per segment from start's segment up to end's. None where
        those buckets would run past the table. */
    method RangeQuery(start: int, end: int) returns (values: Option<seq<int>>)
      requires Valid()
      ensures start > end ==> values == Some([])
      ensures start <= end ==>
        values == Range(table[..], Lists, Calc(start) % Cap(), Segment(Calc(end)) - Segment(Calc(start)), end)
    {
      if start > end {
        values := Some([]);
      } else {
        var hashStart := Calc(start);
        var segmentStartIdx := Segment(hashStart);
        var hashEnd := Calc(end);
        var segmentEndIdx := Segment(hashEnd);
        LineLinked(table[..], Cap(), Reach(), Lists, 0, table.Length - 1);
        values := CollectRange(hashStart % Cap(), segmentStartIdx, segmentEndIdx, end);
      }
    }

    /** The loop of `range_query` over the segments from segmentStartIdx up
        to segmentEndIdx, one bucket each from j0 on */
    method CollectRange(j0: nat, segmentStartIdx: nat, segmentEndIdx: nat, end: int) returns (values: Option<seq<int>>)
      requires j0 <= table.Length == |Lists|
      requires forall b :: 0 <= b <= table.Length - 1 ==> Linked(table[..], b, Lists[b])
      ensures values == Range(table[..], Lists, j0, segmentEndIdx - segmentStartIdx, end)
    {
      var j := j0;
      var vals: seq<int> := [];
      var i := segmentStartIdx;
      var outside := false;
      while i < segmentEndIdx && !outside
        invariant segmentStartIdx <= i && j == j0 + (i - segmentStartIdx) <= table.Length
        invariant i == segmentStartIdx || i <= segmentEndIdx
        invariant !outside ==> vals == Gather(table[..], Lists, j0, j, end)
        invariant outside ==> j0 + (segmentEndIdx - segmentStartIdx) > table.Length
        decreases segmentEndIdx - i, if outside then 0 else 1
      {
        if j == table.Length {
          outside := true;
        } else {
          var more := CollectList(j, end);
          vals := vals + more;
          j := j + 1;
          i := i + 1;
        }
      }
      values := if outside then None else Some(vals);
    }

    /** `size`: the occupied buckets among the first bucketMask + 4096,
        which is the number of stored keys */
    method Size() returns (counter: nat)
      requires Valid()
      ensures counter == |Contents|
    {
      counter := 0;
      var numElm := bucketMask + InsertRange;
      var i := 0;
      while i < numElm
        invariant i <= numElm && counter == CountOccupied(table[..], i)
      {
        if table[i].hash != EmptyHash {
          counter := counter + 1;
        }
        i := i + 1;
      }
      CountIsSize(table[..], Cap(), Reach(), Lists, Slots, Contents, hash0, iBits, numElm);
    }

    /** `add_key_to_begining_of_list` */
    method AddKeyToBeginningOfList(h: nat, f: nat, hash: nat, key: int, data: int)
      requires h < table.Length && f < table.Length
      modifies table
      ensures table[..] == PutFirst(old(table[..]), h, f, hash, key, data)
    {
      table[f] := table[f].(data := data, key := key, hash := hash);
      if table[h].firstDelta == Off(0) {
        if table[h].nextDelta.Null? {
          table[f] := table[f].(nextDelta := Null);
        } else {
          table[f] := table[f].(nextDelta := Off(h + table[h].nextDelta.d - f));
        }
        table[h] := table[h].(nextDelta := Off(f - h));
      } else {
        if table[h].firstDelta.Null? {
          table[f] := table[f].(nextDelta := Null);
        } else {
          table[f] := table[f].(nextDelta := Off(h + table[h].firstDelta.d - f));
        }
        table[h] := table[h].(firstDelta := Off(f - h));
      }
    }

    /** `add_key_to_end_of_list` */
    method AddKeyToEndOfList(h: nat, f: nat, hash: nat, key: int, data: int, last: Option<nat>)
      requires h < table.Length && f < table.Length && (last.Some? ==> last.value < table.Length)
      modifies table
      ensures table[..] == PutLast(old(table[..]), h, f, hash, key, data, last)
    {
      table[f] := table[f].(data := data, key := key, hash := hash, nextDelta := Null);
      if last.None? {
        table[h] := table[h].(firstDelta := Off(f - h));
      } else {
        table[last.value] := table[last.value].(nextDelta := Off(f - last.value));
      }
    }

    /** `remove_key` */
    method RemoveKey(from: nat, s: nat, prev: Option<nat>)
      requires from < table.Length && s < table.Length && (prev.Some? ==> prev.value < table.Length)
      requires prev.None? ==> table[from].firstDelta.Off?
      requires prev.Some? ==> table[prev.value].nextDelta.Off?
      modifies table
      ensures table[..] == TakeOut(old(table[..]), from, s, prev)
    {
      var nd := table[s].nextDelta;
      table[s] := table[s].(hash := EmptyHash, key := EmptyKey, data := EmptyData);
      if prev.None? {
        if nd.Null? {
          table[from] := table[from].(firstDelta := Null);
        } else {
          table[from] := table[from].(firstDelta := Off(table[from].firstDelta.d + nd.d));
        }
      } else {
        if nd.Null? {
          table[prev.value] := table[prev.value].(nextDelta := Null);
        } else {
          table[prev.value] := table[prev.value].(nextDelta := Off(table[prev.value].nextDelta.d + nd.d));
        }
      }
      table[s] := table[s].(nextDelta := Null);
    }

    /** The move of `optimize_cacheline_use`: r's entry into the free slot f,
        linked where r was (from o's first delta, or from last) */
    method MoveEntry(o: nat, r: nat, last: Option<nat>, f: nat)
      requires o < table.Length && r < table.Length && f < table.Length && f != r
      requires last.Some? ==> last.value < table.Length
      modifies table
      ensures table[..] == MoveInto(old(table[..]), o, r, last, f)
    {
      table[f] := table[f].(data := table[r].data, key := table[r].key, hash := table[r].hash);
      if table[r].nextDelta.Null? {
        table[f] := table[f].(nextDelta := Null);
      } else {
        table[f] := table[f].(nextDelta := Off(r + table[r].nextDelta.d - f));
      }
      if last.None? {
        table[o] := table[o].(firstDelta := Off(f - o));
      } else {
        table[last.value] := table[last.value].(nextDelta := Off(f - last.value));
      }
      table[r] := table[r].(hash := EmptyHash, key := EmptyKey, data := EmptyData, nextDelta := Null);
    }
  
    /** The cache-line search of `add`: from h through the end of its line,
        then from the line's start, until it is back at h */
    method LineSearch(h: nat) returns (f: Option<nat>)
      requires Sized() && h < Cap()
      ensures LineStart(h, cacheMask) + cacheMask < table.Length
      ensures f == LineFree(table[..], LineStart(h, cacheMask), cacheMask, h, 0)
    {
      var ls := LineStart(h, cacheMask);
      LineInside(h, cacheMask, Reach());
      ghost var t := table[..];
      ghost var r := LineFree(t, ls, cacheMask, h, 0);
      var free := h;
      ghost var k: nat := 0;
      f := None;
      var done := false;
      while !done
        invariant k <= cacheMask
        invariant !done ==> f.None? && free == CycleSlot(ls, cacheMask, h, k) && LineFree(t, ls, cacheMask, h, k) == r
        invariant done ==> f == r
        decreases cacheMask - k, if done then 0 else 1
      {
        CycleNext(ls, cacheMask, h, k);
        assert t[free] == table[free];
        if table[free].hash == EmptyHash {
          assert LineFree(t, ls, cacheMask, h, k) == Some(free);
          f := Some(free);
          done := true;
        } else {
          assert LineFree(t, ls, cacheMask, h, k) == LineFree(t, ls, cacheMask, h, k + 1);
          free := free + 1;
          if free > ls + cacheMask {
            free := ls;
          }
          if free == h {
            assert LineFree(t, ls, cacheMask, h, k + 1) == None;
            done := true;
          } else {
            k := k + 1;
          }
        }
      }
    }

    /** The forward search of `add`: upward from h + cacheMask + 1 to the
        forward limit */
    method ForwardSearch(h: nat) returns (f: Option<nat>)
      requires Sized() && h < Cap()
      ensures f == FirstFreeUp(table[..], h + cacheMask + 1, ForwardLimit(h, Cap()))
    {
      ghost var t := table[..];
      var maxBucket := h + (ShrtMax - 1);
      if maxBucket > bucketMask {
        maxBucket := bucketMask;
      }
      var free := h + (cacheMask + 1);
      f := None;
      while f.None? && free <= maxBucket
        invariant free >= h + cacheMask + 1
        invariant f.None? ==> FirstFreeUp(t, free, maxBucket) == FirstFreeUp(t, h + cacheMask + 1, maxBucket)
        invariant f.Some? ==> f == FirstFreeUp(t, h + cacheMask + 1, maxBucket)
        decreases maxBucket + 1 - free, if f.None? then 1 else 0
      {
        if table[free].hash == EmptyHash {
          f := Some(free);
        } else {
          free := free + 1;
        }
      }
    }

    /** The backward search of `add`: downward from h - cacheMask - 1 to the
        backward limit */
    method BackwardSearch(h: nat) returns (f: Option<nat>)
      requires Sized() && h < Cap()
      ensures f == FirstFreeDown(table[..], h - cacheMask - 1, BackwardLimit(h))
    {
      ghost var t := table[..];
      var minBucket: int := h - (ShrtMax - 1);
      if minBucket < 0 {
        minBucket := 0;
      }
      var free: int := h - (cacheMask + 1);
      f := None;
      while f.None? && free >= minBucket
        invariant free <= h - cacheMask - 1
        invariant f.None? ==> FirstFreeDown(t, free, minBucket) == FirstFreeDown(t, h - cacheMask - 1, minBucket)
        invariant f.Some? ==> f == FirstFreeDown(t, h - cacheMask - 1, minBucket)
        decreases free + 1, if f.None? then 1 else 0
      {
        if table[free].hash == EmptyHash {
          f := Some(free);
        } else {
          free := free - 1;
        }
      }
    }

    /** The three searches of `add` in turn; true marks the cache-line slot,
        which is linked at the beginning of the list */
    method FindFreeSlot(h: nat) returns (p: Option<(nat, bool)>)
      requires Sized() && h < Cap()
      ensures LineStart(h, cacheMask) + cacheMask < Reach()
      ensures p == FreeSlot(table[..], h, Cap(), cacheMask, cachelineAlignment)
    {
      LineInside(h, cacheMask, Reach());
      var inLine: Option<nat> := None;
      if cachelineAlignment {
        inLine := LineSearch(h);
      }
      if inLine.Some? {
        p := Some((inLine.value, true));
      } else {
        var up := ForwardSearch(h);
        if up.Some? {
          p := Some((up.value, false));
        } else {
          var down := BackwardSearch(h);
          if down.Some? {
            p := Some((down.value, false));
          } else {
            p := None;
          }
        }
      }
    }
  
    /** `add`: (false, false) when the key is present or no slot is free;
        otherwise the key goes into the slot FreeSlot picks, at the
        beginning of its list for a slot of its cache line and at the end
        otherwise, and the result is (true, false). The second flag is never
        true. */
    method Add(key: int, data: int) returns (added: bool, grew: bool)
      requires Valid() && Calc(key) != EmptyHash
      modifies this, table
      ensures Valid() && !grew
      ensures added <==>
        key !in old(Contents) && FreeSlot(old(table[..]), Calc(key) % Cap(), Cap(), cacheMask, cachelineAlignment).Some?
      ensures Contents == if added then old(Contents)[key := data] else old(Contents)
      ensures !added ==> table[..] == old(table[..])
      ensures added ==>
        var h := Calc(key) % Cap();
        var p := FreeSlot(old(table[..]), h, Cap(), cacheMask, cachelineAlignment).value;
        table[..] == if p.1 then PutFirst(old(table[..]), h, p.0, Calc(key), key, data)
                     else PutLast(old(table[..]), h, p.0, Calc(key), key, data, LastOf(old(Lists)[h]))
    {
      var hash := Calc(key);
      var h := hash % Cap();
      var found, slot, last;
      ghost var j;
      assert ListOk(table[..], Cap(), Reach(), h, Lists[h]);
      found, slot, last, j := Walk(h, hash, key);
      FoundIffStored(table[..], Cap(), Reach(), Lists, Slots, Contents, hash0, iBits, key, j);
      grew := false;
      if found {
        added := false;
      } else {
        var p := FindFreeSlot(h);
        if p.None? {
          added := false;
        } else {
          FreeSlotFits(table[..], Cap(), Reach(), cacheMask, cachelineAlignment, h, hash);
          PlaceKey(key, data, p.value.0, p.value.1, last);
          added := true;
        }
      }
    }

    /** The insertion step of `add`: the absent key goes into the free slot
        f that FreeSlot picked, at the beginning of its list when f lies in
        its cache line and at the end otherwise. */
    method PlaceKey(key: int, data: int, f: nat, begin: bool, last: Option<nat>)
      requires Valid() && Calc(key) != EmptyHash && key !in Contents
      requires Fits(table[..], Cap(), Reach(), Calc(key) % Cap(), f, Calc(key))
      requires last == LastOf(Lists[Calc(key) % Cap()])
      modifies this, table
      ensures Valid() && Contents == old(Contents)[key := data]
      ensures var h := Calc(key) % Cap();
        table[..] == if begin then PutFirst(old(table[..]), h, f, Calc(key), key, data)
                     else PutLast(old(table[..]), h, f, Calc(key), key, data, LastOf(old(Lists)[h]))
    {
      var hash := Calc(key);
      var h := hash % Cap();
      AddKeeps(table[..], Cap(), Reach(), Lists, Slots, Contents, hash0, iBits, key, data, f, begin);
      if begin {
        AddKeyToBeginningOfList(h, f, hash, key, data);
        Lists := Lists[h := BeginSplice(Lists[h], h, f)];
      } else {
        AddKeyToEndOfList(h, f, hash, key, data, last);
        Lists := Lists[h := Lists[h] + [f]];
      }
      Slots := Slots[key := f];
      Contents := Contents[key := data];
    }
  
    /** v2's `remove`: the key's data, or `_EMPTY_DATA` when it is absent
        (so a stored 0 reads like a missing key); with cache-line alignment,
        the freed slot is offered to `optimize_cacheline_use`. */
    method Remove(key: int) returns (data: int)
      requires Valid()
      modifies this, table
      ensures Valid()
      ensures data == if key in old(Contents) then old(Contents)[key] else EmptyData
      ensures Contents == old(Contents) - {key}
      ensures key !in old(Contents) ==> table[..] == old(table[..])
    {
      var hash := Calc(key);
      var h := hash % Cap();
      var found, slot, last;
      ghost var j;
      assert ListOk(table[..], Cap(), Reach(), h, Lists[h]);
      found, slot, last, j := Walk(h, hash, key);
      FoundIffStored(table[..], Cap(), Reach(), Lists, Slots, Contents, hash0, iBits, key, j);
      if !found {
        data := EmptyData;
      } else {
        data := table[slot].data;
        ghost var t := table[..];
        RemoveKeeps(t, Cap(), Reach(), Lists, Slots, Contents, hash0, iBits, key, j);
        RemoveKey(h, slot, last);
        Lists := Lists[h := Without(Lists[h], j)];
        Slots := Slots - {key};
        Contents := Contents - {key};
        if cachelineAlignment {
          OptimizeCachelineUse(slot);
        }
      }
    }

    /** The body of `optimize_cacheline_use`'s loop for home bucket o: when
        o's list is not empty, walks it to the first entry out of o's range */
    method ScanHome(o: nat) returns (found: bool, r: nat, last: Option<nat>, ghost j: nat)
      requires o < table.Length == |Lists| && Linked(table[..], o, Lists[o])
      ensures j == FirstOut(Lists[o], o, cacheMask, 0) && (found <==> j < |Lists[o]|)
      ensures found ==> r == Lists[o][j] && last == PrevOf(Lists[o], j)
    {
      ghost var l := Lists[o];
      found := false;
      r := 0;
      last := None;
      j := 0;
      if table[o].firstDelta.Off? {
        var currDelta: int := table[o].firstDelta.d;
        var key: int := o + currDelta;
        var done := false;
        while !found && !done
          invariant j < |l| && key == l[j] && currDelta == l[j] - o && last == PrevOf(l, j)
          invariant FirstOut(l, o, cacheMask, j) == FirstOut(l, o, cacheMask, 0)
          invariant found ==> l[j] < o || l[j] - o > cacheMask
          invariant done ==> j == |l| - 1 && o <= l[j] <= o + cacheMask
          decreases |l| - j, if found || done then 0 else 1
        {
          assert table[key] == table[..][l[j]];
          if currDelta < 0 || currDelta > cacheMask {
            found := true;
          } else if table[key].nextDelta.Null? {
            done := true;
          } else {
            last := Some(key);
            currDelta := currDelta + table[key].nextDelta.d;
            key := key + table[key].nextDelta.d;
            j := j + 1;
          }
        }
        r := key;
        if done {
          j := j + 1;
        }
      }
    }

    /** The outer loop of `optimize_cacheline_use`: the home buckets of the
        cache line from ls, in order, until one has an entry to move */
    method FindMove(ls: nat) returns (found: bool, o: nat, r: nat, last: Option<nat>, ghost j: nat)
      requires ls + cacheMask < table.Length == |Lists|
      requires forall o :: ls <= o <= ls + cacheMask ==> Linked(table[..], o, Lists[o])
      ensures var m := FirstMove(Lists, ls, cacheMask, 0);
        && (found <==> m.Some?)
        && (found ==> m.value == (o, j) && r == Lists[o][j] && last == PrevOf(Lists[o], j))
    {
      ghost var L := Lists;
      ghost var m := FirstMove(L, ls, cacheMask, 0);
      o := ls;
      found := false;
      r := 0;
      last := None;
      j := 0;
      ghost var k: nat := 0;
      while !found && o <= ls + cacheMask
        invariant o == ls + k && k <= cacheMask + 1
        invariant !found ==> FirstMove(L, ls, cacheMask, k) == m
        invariant found ==> m == Some((o, j)) && o <= ls + cacheMask && r == L[o][j] && last == PrevOf(L[o], j)
        decreases cacheMask + 1 - k, if found then 0 else 1
      {
        found, r, last, j := ScanHome(o);
        if !found {
          assert FirstMove(L, ls, cacheMask, k) == FirstMove(L, ls, cacheMask, k + 1);
          o := o + 1;
          k := k + 1;
        }
      }
    }

    /** The move of `optimize_cacheline_use`: position j of o's list, slot
        r, goes to the free slot f; every list keeps its keys and data. */
    method MoveIntoFree(o: nat, ghost j: nat, r: nat, last: Option<nat>, f: nat)
      requires Valid() && o < |Lists| && j < |Lists[o]| && r == Lists[o][j] && last == PrevOf(Lists[o], j)
      requires f < Reach() && table[f].hash == EmptyHash
      modifies this, table
      ensures Valid() && Contents == old(Contents)
      ensures r < table.Length && (j > 0 ==> old(Lists)[o][j - 1] < table.Length)
      ensures table[..] == MoveInto(old(table[..]), o, r, last, f)
      ensures Lists == old(Lists)[o := MovedTo(old(Lists)[o], j, f)]
      ensures forall h :: 0 <= h < table.Length ==> Entries(table[..], Lists[h]) == Entries(old(table[..]), old(Lists)[h])
    {
      ghost var t := table[..];
      ghost var L' := Lists[o := MovedTo(Lists[o], j, f)];
      ghost var S' := Slots[t[r].key := f];
      MoveKeeps(t, Cap(), Reach(), Lists, Slots, Contents, hash0, iBits, o, j, f);
      MoveEntry(o, r, last, f);
      Lists, Slots := L', S';
    }

    /** `optimize_cacheline_use` after f was freed: moves at most one entry,
        the one FirstMove names for f's cache line, into f. The keys and
        data of every list, in order, stay as they were. */
    method OptimizeCachelineUse(f: nat)
      requires Valid() && f < Reach() && table[f].hash == EmptyHash
      modifies this, table
      ensures Valid() && Contents == old(Contents)
      ensures LineStart(f, cacheMask) + cacheMask < table.Length
      ensures var m := FirstMove(old(Lists), LineStart(f, cacheMask), cacheMask, 0);
        && (m.None? ==> table[..] == old(table[..]) && Lists == old(Lists))
        && (m.Some? ==>
              var (o, j) := m.value;
              && old(Lists)[o][j] < table.Length && (j > 0 ==> old(Lists)[o][j - 1] < table.Length)
              && table[..] == MoveInto(old(table[..]), o, old(Lists)[o][j], PrevOf(old(Lists)[o], j), f)
              && Lists == old(Lists)[o := MovedTo(old(Lists)[o], j, f)])
      ensures forall h :: 0 <= h < table.Length ==> Entries(table[..], Lists[h]) == Entries(old(table[..]), old(Lists)[h])
    {
      var ls := LineStart(f, cacheMask);
      LineInside(f, cacheMask, Reach());
      var found, o, r, last;
      ghost var j;
      LineLinked(table[..], Cap(), Reach(), Lists, ls, ls + cacheMask);
      found, o, r, last, j := FindMove(ls);
      if found {
        MoveIntoFree(o, j, r, last, f);
      }
    }
  }
}
