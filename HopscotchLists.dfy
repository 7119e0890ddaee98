/** The flat bucket array of the hopscotch maps, as a value. Every bucket
    heads the delta-linked list of the entries whose hash code is its index
    (first delta, then each entry's next delta), and holds at most one
    entry of some list. The invariant ties the deltas to a ghost sequence of
    slot positions per home bucket, and the entries to a key-to-slot map;
    each list splice of the source is a function here, with a lemma that it
    keeps the invariant and what it does to the home bucket's list. */
module HopscotchLists {
  import opened MathUtil

  /** The marker of a free slot: a hash code of 0 */
  const EmptyHash: nat := 0
  const EmptyKey: int := 0
  const EmptyData: int := 0
  /** The slots added past the last home bucket */
  const InsertRange: nat := 4096
  /** The largest `short`, which bounds the distance searched for a free slot */
  const ShrtMax: nat := 32767

  /** A bucket's delta: the offset to a slot, or the null delta (the
      source's `SHRT_MIN`) */
  datatype Delta = Null | Off(d: int)

  datatype Bucket = Bucket(firstDelta: Delta, nextDelta: Delta, hash: nat, key: int, data: int)

  /** A bucket as `init` leaves it */
  const EmptyBucket: Bucket := Bucket(Null, Null, EmptyHash, EmptyKey, EmptyData)

  /** The delta from slot `from` to the j-th slot of l, null past its end */
  function Next(l: seq<nat>, j: nat, from: int): Delta
  {
    if j < |l| then Off(l[j] - from) else Null
  }

  /** Following the deltas from home bucket h visits exactly the slots of l,
      in order, and then meets the null delta. */
  ghost predicate Linked(t: seq<Bucket>, h: nat, l: seq<nat>)
    requires h < |t|
  {
    && (forall j :: 0 <= j < |l| ==> l[j] < |t|)
    && t[h].firstDelta == Next(l, 0, h)
    && (forall j {:trigger t[l[j]]} :: 0 <= j < |l| ==> t[l[j]].nextDelta == Next(l, j + 1, l[j]))
  }

  /** Slot s holds an entry whose home bucket is h, below the reach of the
      free-slot search */
  ghost predicate Occupies(t: seq<Bucket>, cap: nat, reach: nat, h: nat, s: nat)
    requires cap >= 1
  {
    s < reach && s < |t| && t[s].hash != EmptyHash && t[s].hash % cap == h
  }

  /** The slots of l are distinct. */
  ghost predicate Distinct(l: seq<nat>)
  {
    forall i, j :: 0 <= i < j < |l| ==> l[i] != l[j]
  }

  /** Every slot of l holds an entry homed at h. */
  ghost predicate Homed(t: seq<Bucket>, cap: nat, reach: nat, h: nat, l: seq<nat>)
    requires cap >= 1
  {
    forall j :: 0 <= j < |l| ==> Occupies(t, cap, reach, h, l[j])
  }

  /** l is the list of home bucket h: linked from it, homed at it, without
      repetition */
  ghost predicate ListOk(t: seq<Bucket>, cap: nat, reach: nat, h: nat, l: seq<nat>)
    requires h < |t| && cap >= 1
  {
    Linked(t, h, l) && Homed(t, cap, reach, h, l) && Distinct(l)
  }

  ghost predicate AllListsOk(t: seq<Bucket>, cap: nat, reach: nat, L: seq<seq<nat>>)
    requires cap >= 1 && |L| == |t|
  {
    forall h :: 0 <= h < |t| ==> ListOk(t, cap, reach, h, L[h])
  }

  /** Every occupied slot is on the list of its home bucket. */
  ghost predicate Covered(t: seq<Bucket>, cap: nat, L: seq<seq<nat>>)
    requires 1 <= cap <= |t| && |L| == |t|
  {
    forall s :: 0 <= s < |t| ==> OnItsList(t, cap, L, s)
  }

  /** An occupied slot s is on the list of its home bucket. */
  ghost predicate OnItsList(t: seq<Bucket>, cap: nat, L: seq<seq<nat>>, s: nat)
    requires 1 <= cap <= |t| && |L| == |t| && s < |t|
  {
    t[s].hash != EmptyHash ==> s in L[t[s].hash % cap]
  }

  /** The shape of the table: every list in order, and every entry on the
      list of its home bucket */
  ghost predicate Structure(t: seq<Bucket>, cap: nat, reach: nat, L: seq<seq<nat>>)
  {
    && 1 <= cap <= reach <= |t| && |L| == |t|
    && AllListsOk(t, cap, reach, L)
    && Covered(t, cap, L)
  }

  /** The hash code `Calc` computes from the injected hash: the top iBits
      bits of its 64-bit unsigned reinterpretation */
  function HashIndex(hashed: int, iBits: nat): (r: nat)
    requires iBits <= 64
    ensures r < Pow2(iBits)
  {
    var u := hashed % Pow2(64);
    ShiftRightDiv(u, 64 - iBits);
    Pow2Add(64 - iBits, iBits);
    DivBelow(u, Pow2(64 - iBits), Pow2(iBits));
    ShiftRight(u, 64 - iBits)
  }

  /** Slot s holds key k with its data and hash code */
  ghost predicate KeyAt(t: seq<Bucket>, k: int, s: nat, data: int, hash: nat)
  {
    s < |t| && hash != EmptyHash && t[s].hash == hash && t[s].key == k && t[s].data == data
  }

  /** The entries: each stored key has one slot holding it with its data
      and hash code, and each occupied slot is the slot of its key. */
  ghost predicate Keyed(t: seq<Bucket>, S: map<int, nat>, C: map<int, int>, hash0: int -> int, iBits: nat)
  {
    && iBits <= 64
    && S.Keys == C.Keys
    && (forall k :: k in S ==> KeyAt(t, k, S[k], C[k], HashIndex(hash0(k), iBits)))
    && (forall s :: 0 <= s < |t| ==> SlotOf(t, S, s))
  }

  /** An occupied slot s is the slot of its key. */
  ghost predicate SlotOf(t: seq<Bucket>, S: map<int, nat>, s: nat)
    requires s < |t|
  {
    t[s].hash != EmptyHash ==> t[s].key in S && S[t[s].key] == s
  }

  /** A table of n empty buckets */
  /** n empty lists */
  function NoLists(n: nat): (r: seq<seq<nat>>)
    ensures |r| == n && forall i :: 0 <= i < n ==> r[i] == []
  {
    seq(n, _ => [])
  }

  lemma EmptyTable(t: seq<Bucket>, cap: nat, reach: nat, hash0: int -> int, iBits: nat)
    requires 1 <= cap <= reach <= |t| && iBits <= 64
    requires forall i :: 0 <= i < |t| ==> t[i] == EmptyBucket
    ensures Structure(t, cap, reach, NoLists(|t|))
    ensures Keyed(t, map[], map[], hash0, iBits)
  {
  }

  // ---- the list splices -------------------------------------------------

  /** `add_key_to_begining_of_list`: slot f takes the entry; when the home
      slot h holds the first entry of its own list, f goes right after it,
      otherwise f becomes the first entry. */
  function PutFirst(t: seq<Bucket>, h: nat, f: nat, hash: nat, key: int, data: int): seq<Bucket>
    requires h < |t| && f < |t|
  {
    var t1 := t[f := t[f].(data := data, key := key, hash := hash)];
    if t1[h].firstDelta == Off(0) then
      var t2 := t1[f := t1[f].(nextDelta := if t1[h].nextDelta.Null? then Null else Off(h + t1[h].nextDelta.d - f))];
      t2[h := t2[h].(nextDelta := Off(f - h))]
    else
      var t2 := t1[f := t1[f].(nextDelta := if t1[h].firstDelta.Null? then Null else Off(h + t1[h].firstDelta.d - f))];
      t2[h := t2[h].(firstDelta := Off(f - h))]
  }

  /** The list PutFirst leaves: f right after the home entry when the home
      slot holds the first entry, otherwise f in front */
  function BeginSplice(l: seq<nat>, h: nat, f: nat): (r: seq<nat>)
    ensures |r| == |l| + 1
    ensures l != [] && l[0] == h ==> r[0] == h && r[1] == f && forall j :: 2 <= j < |r| ==> r[j] == l[j - 1]
    ensures !(l != [] && l[0] == h) ==> r[0] == f && forall j :: 1 <= j < |r| ==> r[j] == l[j - 1]
  {
    if l != [] && l[0] == h then [l[0], f] + l[1..] else [f] + l
  }

  /** `add_key_to_end_of_list`: slot f takes the entry and is linked after
      the last entry, or from the home bucket when the list is empty. */
  function PutLast(t: seq<Bucket>, h: nat, f: nat, hash: nat, key: int, data: int, last: Option<nat>): seq<Bucket>
    requires h < |t| && f < |t| && (last.Some? ==> last.value < |t|)
  {
    var t1 := t[f := t[f].(data := data, key := key, hash := hash, nextDelta := Null)];
    if last.None? then t1[h := t1[h].(firstDelta := Off(f - h))]
    else t1[last.value := t1[last.value].(nextDelta := Off(f - last.value))]
  }

  /** The last slot of a list */
  function LastOf(l: seq<nat>): Option<nat>
  {
    if l == [] then None else Some(l[|l| - 1])
  }

  /** The slot before position j of a list */
  function PrevOf(l: seq<nat>, j: nat): Option<nat>
    requires j <= |l|
  {
    if j == 0 then None else Some(l[j - 1])
  }

  /** `remove_key`: slot s is emptied and unlinked by adding its next delta
      to the delta that led to it (the home's first delta when prev is None). */
  function TakeOut(t: seq<Bucket>, from: nat, s: nat, prev: Option<nat>): seq<Bucket>
    requires from < |t| && s < |t| && (prev.Some? ==> prev.value < |t|)
    requires prev.None? ==> t[from].firstDelta.Off?
    requires prev.Some? ==> t[prev.value].nextDelta.Off?
  {
    var nd := t[s].nextDelta;
    var t1 := t[s := t[s].(hash := EmptyHash, key := EmptyKey, data := EmptyData)];
    var t2 :=
      if prev.None? then
        t1[from := t1[from].(firstDelta := if nd.Null? then Null else Off(t1[from].firstDelta.d + nd.d))]
      else
        t1[prev.value := t1[prev.value].(nextDelta := if nd.Null? then Null else Off(t1[prev.value].nextDelta.d + nd.d))];
    t2[s := t2[s].(nextDelta := Null)]
  }

  /** `optimize_cacheline_use`'s move: the entry of slot r, at position j of
      the list of home o, moves to the free slot f, which takes its place in
      the list; r is emptied. */
  function MoveInto(t: seq<Bucket>, o: nat, r: nat, last: Option<nat>, f: nat): seq<Bucket>
    requires o < |t| && r < |t| && f < |t| && (last.Some? ==> last.value < |t|)
  {
    var nd := t[r].nextDelta;
    var t1 := t[f := t[f].(data := t[r].data, key := t[r].key, hash := t[r].hash,
                           nextDelta := if nd.Null? then Null else Off(r + nd.d - f))];
    var t2 :=
      if last.None? then t1[o := t1[o].(firstDelta := Off(f - o))]
      else t1[last.value := t1[last.value].(nextDelta := Off(f - last.value))];
    t2[r := t2[r].(hash := EmptyHash, key := EmptyKey, data := EmptyData, nextDelta := Null)]
  }

  /** The list MoveInto leaves: position j now names slot f */
  function MovedTo(l: seq<nat>, j: nat, f: nat): seq<nat>
    requires j < |l|
  {
    l[j := f]
  }

  /** The list TakeOut leaves: position j dropped */
  function Without(l: seq<nat>, j: nat): (r: seq<nat>)
    requires j < |l|
    ensures |r| == |l| - 1
    ensures forall i :: 0 <= i < j ==> r[i] == l[i]
    ensures forall i :: j <= i < |r| ==> r[i] == l[i + 1]
  {
    l[..j] + l[j + 1..]
  }

  /** The keys and data of a list's entries, in list order */
  function Entries(t: seq<Bucket>, l: seq<nat>): seq<(int, int)>
    requires forall j :: 0 <= j < |l| ==> l[j] < |t|
  {
    seq(|l|, j requires 0 <= j < |l| => (t[l[j]].key, t[l[j]].data))
  }

  // ---- frame facts --------------------------------------------------------

  /** Two buckets hold the same entry (hash code, key and data). */
  predicate SameEntry(a: Bucket, b: Bucket)
  {
    a.hash == b.hash && a.key == b.key && a.data == b.data
  }

  /** t' differs from t at most in the first delta of h, the next deltas of
      n1, n2 and n3, and the entries of c1 and c2. */
  ghost predicate Frame(t: seq<Bucket>, t': seq<Bucket>, h: nat, n1: nat, n2: nat, n3: nat, c1: nat, c2: nat)
  {
    && |t'| == |t|
    && (forall x :: 0 <= x < |t| && x != h ==> t'[x].firstDelta == t[x].firstDelta)
    && (forall x :: 0 <= x < |t| && x != n1 && x != n2 && x != n3 ==> t'[x].nextDelta == t[x].nextDelta)
    && (forall x :: 0 <= x < |t| && x != c1 && x != c2 ==> SameEntry(t'[x], t[x]))
  }

  /** Slot x is free or holds an entry homed at h. */
  ghost predicate Local(t: seq<Bucket>, cap: nat, h: nat, x: nat)
    requires cap >= 1
  {
    x < |t| ==> t[x].hash == EmptyHash || t[x].hash % cap == h
  }

  /** A slot that is free is on no list that is homed. */
  lemma FreeNotOn(t: seq<Bucket>, cap: nat, reach: nat, h: nat, l: seq<nat>, f: nat)
    requires cap >= 1 && Homed(t, cap, reach, h, l) && f < |t| && t[f].hash == EmptyHash
    ensures forall j :: 0 <= j < |l| ==> l[j] != f
  {
    forall j | 0 <= j < |l|
      ensures l[j] != f
    {
      assert Occupies(t, cap, reach, h, l[j]);
    }
  }

  /** The lists other than h's stay in order when only slots that are free
      or homed at h change. */
  lemma OthersOk(t: seq<Bucket>, t': seq<Bucket>, cap: nat, reach: nat, L: seq<seq<nat>>,
                 h: nat, n1: nat, n2: nat, n3: nat, c1: nat, c2: nat)
    requires Structure(t, cap, reach, L) && h < |t| && Frame(t, t', h, n1, n2, n3, c1, c2)
    requires Local(t, cap, h, n1) && Local(t, cap, h, n2) && Local(t, cap, h, n3)
    requires Local(t, cap, h, c1) && Local(t, cap, h, c2)
    ensures forall h' :: 0 <= h' < |t| && h' != h ==> ListOk(t', cap, reach, h', L[h'])
  {
    forall h' | 0 <= h' < |t| && h' != h
      ensures ListOk(t', cap, reach, h', L[h'])
    {
      var l := L[h'];
      assert ListOk(t, cap, reach, h', l);
      forall j | 0 <= j < |l|
        ensures t'[l[j]].nextDelta == t[l[j]].nextDelta && SameEntry(t'[l[j]], t[l[j]])
      {
        assert Occupies(t, cap, reach, h', l[j]);
      }
    }
  }

  /** Every entry stays covered when only the entries of c1 and c2 change,
      each of them either emptied or homed at h and on h's new list, and
      h's new list keeps the other slots of the old one. */
  lemma CoveredAfter(t: seq<Bucket>, t': seq<Bucket>, cap: nat, L: seq<seq<nat>>, h: nat, l': seq<nat>, c1: nat, c2: nat)
    requires 1 <= cap <= |t| && |L| == |t| && h < |t| && Covered(t, cap, L) && |t'| == |t|
    requires forall x :: 0 <= x < |t| && x != c1 && x != c2 ==> SameEntry(t'[x], t[x])
    requires forall y :: y in L[h] && y != c1 && y != c2 ==> y in l'
    requires c1 < |t| && t'[c1].hash != EmptyHash ==> t'[c1].hash % cap == h && c1 in l'
    requires c2 < |t| && t'[c2].hash != EmptyHash ==> t'[c2].hash % cap == h && c2 in l'
    ensures Covered(t', cap, L[h := l'])
  {
    var L' := L[h := l'];
    forall x | 0 <= x < |t'|
      ensures OnItsList(t', cap, L', x)
    {
      if x != c1 && x != c2 {
        assert OnItsList(t, cap, L, x);
      }
    }
  }

  /** The table is in shape once h's new list and every other list are in
      order and every entry is covered. */
  lemma Assemble(t': seq<Bucket>, cap: nat, reach: nat, L: seq<seq<nat>>, h: nat, l': seq<nat>)
    requires 1 <= cap <= reach <= |t'| && |L| == |t'| && h < |t'|
    requires ListOk(t', cap, reach, h, l')
    requires forall h' :: 0 <= h' < |t'| && h' != h ==> ListOk(t', cap, reach, h', L[h'])
    requires Covered(t', cap, L[h := l'])
    ensures Structure(t', cap, reach, L[h := l'])
  {
  }

  // ---- adding an entry ----------------------------------------------------

  /** What an added entry needs: a free slot below the reach, a hash code
      that is not the free marker, homed at h */
  ghost predicate Fits(t: seq<Bucket>, cap: nat, reach: nat, h: nat, f: nat, hash: nat)
  {
    h < |t| && f < reach && f < |t| && t[f].hash == EmptyHash && hash != EmptyHash && cap >= 1 && hash % cap == h
  }

  /** Bucket b holds the given entry. */
  predicate EntryIs(b: Bucket, hash: nat, key: int, data: int)
  {
    b.hash == hash && b.key == key && b.data == data
  }

  /** What PutFirst writes: the entry into f, the deltas around it. */
  lemma BeginCells(t: seq<Bucket>, h: nat, l: seq<nat>, f: nat, hash: nat, key: int, data: int)
    requires h < |t| && f < |t| && Linked(t, h, l) && forall j :: 0 <= j < |l| ==> l[j] != f
    ensures var t' := PutFirst(t, h, f, hash, key, data);
      && EntryIs(t'[f], hash, key, data)
      && (l != [] && l[0] == h ==>
            && Frame(t, t', h, f, h, h, f, f)
            && t'[h].firstDelta == t[h].firstDelta && t'[h].nextDelta == Off(f - h)
            && t'[f].nextDelta == Next(l, 1, f))
      && (!(l != [] && l[0] == h) ==>
            && Frame(t, t', h, f, f, f, f, f)
            && t'[h].firstDelta == Off(f - h) && t'[f].nextDelta == Next(l, 0, f))
  {
  }

  lemma BeginLinked(t: seq<Bucket>, t': seq<Bucket>, h: nat, l: seq<nat>, f: nat, l': seq<nat>)
    requires h < |t| && f < |t| && Linked(t, h, l) && Distinct(l) && forall j :: 0 <= j < |l| ==> l[j] != f
    requires l' == BeginSplice(l, h, f)
    requires l != [] && l[0] == h ==>
      && Frame(t, t', h, f, h, h, f, f)
      && t'[h].firstDelta == t[h].firstDelta && t'[h].nextDelta == Off(f - h)
      && t'[f].nextDelta == Next(l, 1, f)
    requires !(l != [] && l[0] == h) ==>
      && Frame(t, t', h, f, f, f, f, f)
      && t'[h].firstDelta == Off(f - h) && t'[f].nextDelta == Next(l, 0, f)
    ensures Linked(t', h, l')
  {
    if l != [] && l[0] == h {
      forall j | 0 <= j < |l'|
        ensures t'[l'[j]].nextDelta == Next(l', j + 1, l'[j])
      {
        if j >= 2 {
          assert l[j - 1] != l[0];
        }
      }
    }
  }

  lemma BeginHomed(t: seq<Bucket>, t': seq<Bucket>, cap: nat, reach: nat, h: nat, l: seq<nat>, f: nat,
                   hash: nat, key: int, data: int, l': seq<nat>)
    requires Fits(t, cap, reach, h, f, hash) && Homed(t, cap, reach, h, l) && Distinct(l)
    requires forall j :: 0 <= j < |l| ==> l[j] != f
    requires l' == BeginSplice(l, h, f) && |t'| == |t| && EntryIs(t'[f], hash, key, data)
    requires forall x :: 0 <= x < |t| && x != f ==> SameEntry(t'[x], t[x])
    ensures Homed(t', cap, reach, h, l') && Distinct(l')
  {
    forall j | 0 <= j < |l'|
      ensures Occupies(t', cap, reach, h, l'[j])
    {
      if l'[j] != f {
        var k :| 0 <= k < |l| && l[k] == l'[j];
        assert Occupies(t, cap, reach, h, l[k]);
      }
    }
  }

  /** Adding at the front of h's list, or right after its home entry, keeps
      the shape; the list of h becomes BeginSplice of the old one. */
  lemma BeginStructure(t: seq<Bucket>, cap: nat, reach: nat, L: seq<seq<nat>>,
                       h: nat, f: nat, hash: nat, key: int, data: int)
    requires Structure(t, cap, reach, L) && Fits(t, cap, reach, h, f, hash)
    ensures Structure(PutFirst(t, h, f, hash, key, data), cap, reach, L[h := BeginSplice(L[h], h, f)])
  {
    var l := L[h];
    var l' := BeginSplice(l, h, f);
    var t' := PutFirst(t, h, f, hash, key, data);
    assert ListOk(t, cap, reach, h, l);
    FreeNotOn(t, cap, reach, h, l, f);
    BeginCells(t, h, l, f, hash, key, data);
    BeginLinked(t, t', h, l, f, l');
    BeginHomed(t, t', cap, reach, h, l, f, hash, key, data, l');
    if l != [] && l[0] == h {
      assert Occupies(t, cap, reach, h, l[0]);
      OthersOk(t, t', cap, reach, L, h, f, h, h, f, f);
    } else {
      OthersOk(t, t', cap, reach, L, h, f, f, f, f, f);
    }
    assert f in l';
    CoveredAfter(t, t', cap, L, h, l', f, f);
    Assemble(t', cap, reach, L, h, l');
  }

  /** What PutLast writes: the entry into f, which ends the list, and the
      delta that leads to it. */
  lemma EndCells(t: seq<Bucket>, h: nat, l: seq<nat>, f: nat, hash: nat, key: int, data: int)
    requires h < |t| && f < |t| && Linked(t, h, l) && forall j :: 0 <= j < |l| ==> l[j] != f
    ensures var t' := PutLast(t, h, f, hash, key, data, LastOf(l));
      && EntryIs(t'[f], hash, key, data) && t'[f].nextDelta == Null
      && (l == [] ==> Frame(t, t', h, f, f, f, f, f) && t'[h].firstDelta == Off(f - h))
      && (l != [] ==>
            && Frame(t, t', h, f, l[|l| - 1], f, f, f)
            && t'[h].firstDelta == t[h].firstDelta && t'[l[|l| - 1]].nextDelta == Off(f - l[|l| - 1]))
  {
  }

  lemma EndLinked(t: seq<Bucket>, t': seq<Bucket>, h: nat, l: seq<nat>, f: nat)
    requires h < |t| == |t'| && f < |t| && Linked(t, h, l) && Distinct(l) && forall j :: 0 <= j < |l| ==> l[j] != f
    requires t'[f].nextDelta == Null
    requires l == [] ==> Frame(t, t', h, f, f, f, f, f) && t'[h].firstDelta == Off(f - h)
    requires l != [] ==>
      && Frame(t, t', h, f, l[|l| - 1], f, f, f)
      && t'[h].firstDelta == t[h].firstDelta && t'[l[|l| - 1]].nextDelta == Off(f - l[|l| - 1])
    ensures Linked(t', h, l + [f])
  {
    var l' := l + [f];
    forall j | 0 <= j < |l'|
      ensures t'[l'[j]].nextDelta == Next(l', j + 1, l'[j])
    {
      if j < |l| - 1 {
        assert l[j] != l[|l| - 1];
      }
    }
  }

  lemma EndHomed(t: seq<Bucket>, t': seq<Bucket>, cap: nat, reach: nat, h: nat, l: seq<nat>, f: nat,
                 hash: nat, key: int, data: int)
    requires Fits(t, cap, reach, h, f, hash) && Homed(t, cap, reach, h, l) && Distinct(l)
    requires forall j :: 0 <= j < |l| ==> l[j] != f
    requires |t'| == |t| && EntryIs(t'[f], hash, key, data)
    requires forall x :: 0 <= x < |t| && x != f ==> SameEntry(t'[x], t[x])
    ensures Homed(t', cap, reach, h, l + [f]) && Distinct(l + [f])
  {
    forall j | 0 <= j < |l|
      ensures Occupies(t', cap, reach, h, l[j])
    {
      assert Occupies(t, cap, reach, h, l[j]);
    }
  }

  /** Adding at the end of h's list keeps the shape. */
  lemma EndStructure(t: seq<Bucket>, cap: nat, reach: nat, L: seq<seq<nat>>,
                     h: nat, f: nat, hash: nat, key: int, data: int)
    requires Structure(t, cap, reach, L) && Fits(t, cap, reach, h, f, hash)
    ensures Structure(PutLast(t, h, f, hash, key, data, LastOf(L[h])), cap, reach, L[h := L[h] + [f]])
  {
    var l := L[h];
    var t' := PutLast(t, h, f, hash, key, data, LastOf(l));
    assert ListOk(t, cap, reach, h, l);
    FreeNotOn(t, cap, reach, h, l, f);
    EndCells(t, h, l, f, hash, key, data);
    EndLinked(t, t', h, l, f);
    EndHomed(t, t', cap, reach, h, l, f, hash, key, data);
    if l != [] {
      assert Occupies(t, cap, reach, h, l[|l| - 1]);
      OthersOk(t, t', cap, reach, L, h, f, l[|l| - 1], f, f, f);
    } else {
      OthersOk(t, t', cap, reach, L, h, f, f, f, f, f);
    }
    CoveredAfter(t, t', cap, L, h, l + [f], f, f);
    Assemble(t', cap, reach, L, h, l + [f]);
  }

  /** A new key in a free slot keeps the entries keyed, with the key
      added. */
  lemma KeyedAdd(t: seq<Bucket>, t': seq<Bucket>, S: map<int, nat>, C: map<int, int>,
                 hash0: int -> int, iBits: nat, f: nat, key: int, data: int)
    requires Keyed(t, S, C, hash0, iBits) && key !in S && |t'| == |t|
    requires f < |t| && t[f].hash == EmptyHash
    requires KeyAt(t', key, f, data, HashIndex(hash0(key), iBits))
    requires forall x :: 0 <= x < |t| && x != f ==>
      t'[x].hash == t[x].hash && t'[x].key == t[x].key && t'[x].data == t[x].data
    ensures Keyed(t', S[key := f], C[key := data], hash0, iBits)
  {
    var S' := S[key := f];
    forall s | 0 <= s < |t'|
      ensures SlotOf(t', S', s)
    {
      assert SlotOf(t, S, s);
    }
  }

  // ---- removing an entry --------------------------------------------------

  /** What TakeOut writes: slot l[j] emptied and unlinked, the delta that
      led to it now leading past it. */
  lemma RemoveCells(t: seq<Bucket>, h: nat, l: seq<nat>, j: nat)
    requires h < |t| && Linked(t, h, l) && Distinct(l) && j < |l|
    ensures PrevOf(l, j).None? ==> t[h].firstDelta.Off?
    ensures PrevOf(l, j).Some? ==> PrevOf(l, j).value < |t| && t[PrevOf(l, j).value].nextDelta.Off?
    ensures var t' := TakeOut(t, h, l[j], PrevOf(l, j));
      && t'[l[j]].hash == EmptyHash && t'[l[j]].nextDelta == Null
      && (j == 0 ==> Frame(t, t', h, l[j], l[j], l[j], l[j], l[j]) && t'[h].firstDelta == Next(l, 1, h))
      && (j > 0 ==>
            && Frame(t, t', h, l[j], l[j - 1], l[j], l[j], l[j])
            && t'[h].firstDelta == t[h].firstDelta && t'[l[j - 1]].nextDelta == Next(l, j + 1, l[j - 1]))
  {
    if j > 0 {
      assert l[j - 1] != l[j];
    }
  }

  lemma RemoveLinked(t: seq<Bucket>, t': seq<Bucket>, h: nat, l: seq<nat>, j: nat, l': seq<nat>)
    requires h < |t| == |t'| && Linked(t, h, l) && Distinct(l) && j < |l| && l' == Without(l, j)
    requires t'[l[j]].nextDelta == Null
    requires j == 0 ==> Frame(t, t', h, l[j], l[j], l[j], l[j], l[j]) && t'[h].firstDelta == Next(l, 1, h)
    requires j > 0 ==>
      && Frame(t, t', h, l[j], l[j - 1], l[j], l[j], l[j])
      && t'[h].firstDelta == t[h].firstDelta && t'[l[j - 1]].nextDelta == Next(l, j + 1, l[j - 1])
    ensures Linked(t', h, l')
  {
    forall i | 0 <= i < |l'|
      ensures t'[l'[i]].nextDelta == Next(l', i + 1, l'[i])
    {
      if i < j {
        assert l[i] != l[j];
        if i + 1 < j {
          assert l[i] != l[j - 1];
        }
      } else {
        assert l[i + 1] != l[j];
        if j > 0 {
          assert l[i + 1] != l[j - 1];
        }
      }
    }
  }

  lemma RemoveHomed(t: seq<Bucket>, t': seq<Bucket>, cap: nat, reach: nat, h: nat, l: seq<nat>, j: nat, l': seq<nat>)
    requires cap >= 1 && Homed(t, cap, reach, h, l) && Distinct(l) && j < |l| && l' == Without(l, j)
    requires |t'| == |t| && forall x :: 0 <= x < |t| && x != l[j] ==> SameEntry(t'[x], t[x])
    ensures Homed(t', cap, reach, h, l') && Distinct(l')
  {
    forall i | 0 <= i < |l'|
      ensures Occupies(t', cap, reach, h, l'[i])
    {
      var k := if i < j then i else i + 1;
      assert l'[i] == l[k] && l[k] != l[j];
      assert Occupies(t, cap, reach, h, l[k]);
    }
    forall a, b | 0 <= a < b < |l'|
      ensures l'[a] != l'[b]
    {
      var a' := if a < j then a else a + 1;
      var b' := if b < j then b else b + 1;
      assert l'[a] == l[a'] && l'[b] == l[b'];
    }
  }

  /** The old list minus position j keeps every other slot of it. */
  lemma WithoutKeeps(l: seq<nat>, j: nat)
    requires j < |l|
    ensures forall y :: y in l && y != l[j] ==> y in Without(l, j)
  {
    var l' := Without(l, j);
    forall y | y in l && y != l[j]
      ensures y in l'
    {
      var k :| 0 <= k < |l| && l[k] == y;
      if k < j {
        assert l'[k] == y;
      } else {
        assert l'[k - 1] == y;
      }
    }
  }

  /** Removing position j of h's list keeps the shape; the list loses that
      position. */
  lemma RemoveStructure(t: seq<Bucket>, cap: nat, reach: nat, L: seq<seq<nat>>, h: nat, j: nat)
    requires Structure(t, cap, reach, L) && h < |L| && j < |L[h]|
    ensures PrevOf(L[h], j).None? ==> t[h].firstDelta.Off?
    ensures PrevOf(L[h], j).Some? ==> PrevOf(L[h], j).value < |t| && t[PrevOf(L[h], j).value].nextDelta.Off?
    ensures Structure(TakeOut(t, h, L[h][j], PrevOf(L[h], j)), cap, reach, L[h := Without(L[h], j)])
  {
    var l := L[h];
    var s := l[j];
    var l' := Without(l, j);
    assert ListOk(t, cap, reach, h, l);
    RemoveCells(t, h, l, j);
    var t' := TakeOut(t, h, s, PrevOf(l, j));
    RemoveLinked(t, t', h, l, j, l');
    RemoveHomed(t, t', cap, reach, h, l, j, l');
    assert Occupies(t, cap, reach, h, s);
    if j > 0 {
      assert Occupies(t, cap, reach, h, l[j - 1]);
      OthersOk(t, t', cap, reach, L, h, s, l[j - 1], s, s, s);
    } else {
      OthersOk(t, t', cap, reach, L, h, s, s, s, s, s);
    }
    WithoutKeeps(l, j);
    CoveredAfter(t, t', cap, L, h, l', s, s);
    Assemble(t', cap, reach, L, h, l');
  }

  /** Emptying the slot of a stored key keeps the entries keyed, without
      that key. */
  lemma KeyedRemove(t: seq<Bucket>, t': seq<Bucket>, S: map<int, nat>, C: map<int, int>,
                    hash0: int -> int, iBits: nat, key: int)
    requires Keyed(t, S, C, hash0, iBits) && key in S && |t'| == |t|
    requires t'[S[key]].hash == EmptyHash
    requires forall x :: 0 <= x < |t| && x != S[key] ==>
      t'[x].hash == t[x].hash && t'[x].key == t[x].key && t'[x].data == t[x].data
    ensures Keyed(t', S - {key}, C - {key}, hash0, iBits)
  {
    assert KeyAt(t, key, S[key], C[key], HashIndex(hash0(key), iBits));
    forall k | k in S - {key}
      ensures KeyAt(t', k, S[k], C[k], HashIndex(hash0(k), iBits))
    {
      assert KeyAt(t, k, S[k], C[k], HashIndex(hash0(k), iBits));
    }
    var S' := S - {key};
    forall s | 0 <= s < |t'|
      ensures SlotOf(t', S', s)
    {
      assert SlotOf(t, S, s);
    }
  }

  // ---- moving an entry ----------------------------------------------------

  /** What MoveInto writes: r's entry into f, linked where r was; r
      emptied. */
  lemma RelocateCells(t: seq<Bucket>, o: nat, l: seq<nat>, j: nat, f: nat)
    requires o < |t| && f < |t| && Linked(t, o, l) && Distinct(l) && j < |l|
    requires forall i :: 0 <= i < |l| ==> l[i] != f
    ensures var t' := MoveInto(t, o, l[j], PrevOf(l, j), f);
      && SameEntry(t'[f], t[l[j]]) && t'[f].nextDelta == Next(l, j + 1, f)
      && t'[l[j]].hash == EmptyHash
      && (j == 0 ==> Frame(t, t', o, f, l[j], f, f, l[j]) && t'[o].firstDelta == Off(f - o))
      && (j > 0 ==>
            && Frame(t, t', o, f, l[j], l[j - 1], f, l[j])
            && t'[o].firstDelta == t[o].firstDelta && t'[l[j - 1]].nextDelta == Off(f - l[j - 1]))
  {
    if j > 0 {
      assert l[j - 1] != l[j];
    }
  }

  lemma RelocateLinked(t: seq<Bucket>, t': seq<Bucket>, o: nat, l: seq<nat>, j: nat, f: nat)
    requires o < |t| == |t'| && f < |t| && Linked(t, o, l) && Distinct(l) && j < |l|
    requires forall i :: 0 <= i < |l| ==> l[i] != f
    requires t'[f].nextDelta == Next(l, j + 1, f)
    requires j == 0 ==> Frame(t, t', o, f, l[j], f, f, l[j]) && t'[o].firstDelta == Off(f - o)
    requires j > 0 ==>
      && Frame(t, t', o, f, l[j], l[j - 1], f, l[j])
      && t'[o].firstDelta == t[o].firstDelta && t'[l[j - 1]].nextDelta == Off(f - l[j - 1])
    ensures Linked(t', o, MovedTo(l, j, f))
  {
    var l' := MovedTo(l, j, f);
    forall i | 0 <= i < |l'|
      ensures t'[l'[i]].nextDelta == Next(l', i + 1, l'[i])
    {
      if i != j {
        assert l[i] != l[j];
        if i + 1 != j && j > 0 {
          assert l[i] != l[j - 1];
        }
      }
    }
  }

  lemma RelocateHomed(t: seq<Bucket>, t': seq<Bucket>, cap: nat, reach: nat, o: nat, l: seq<nat>, j: nat, f: nat)
    requires cap >= 1 && Homed(t, cap, reach, o, l) && Distinct(l) && j < |l|
    requires f < reach && f < |t| && forall i :: 0 <= i < |l| ==> l[i] != f
    requires |t'| == |t| && SameEntry(t'[f], t[l[j]])
    requires forall x :: 0 <= x < |t| && x != f && x != l[j] ==> SameEntry(t'[x], t[x])
    ensures Homed(t', cap, reach, o, MovedTo(l, j, f)) && Distinct(MovedTo(l, j, f))
  {
    forall i | 0 <= i < |l|
      ensures Occupies(t', cap, reach, o, MovedTo(l, j, f)[i])
    {
      assert Occupies(t, cap, reach, o, l[i]);
    }
  }

  /** Moving position j of o's list into the free slot f keeps the shape;
      f takes the position. */
  lemma RelocateStructure(t: seq<Bucket>, cap: nat, reach: nat, L: seq<seq<nat>>, o: nat, j: nat, f: nat)
    requires Structure(t, cap, reach, L) && o < |L| && j < |L[o]|
    requires f < reach && f < |t| && t[f].hash == EmptyHash
    ensures Structure(MoveInto(t, o, L[o][j], PrevOf(L[o], j), f), cap, reach, L[o := MovedTo(L[o], j, f)])
  {
    var l := L[o];
    var r := l[j];
    var l' := MovedTo(l, j, f);
    assert ListOk(t, cap, reach, o, l);
    FreeNotOn(t, cap, reach, o, l, f);
    RelocateCells(t, o, l, j, f);
    var t' := MoveInto(t, o, r, PrevOf(l, j), f);
    RelocateLinked(t, t', o, l, j, f);
    RelocateHomed(t, t', cap, reach, o, l, j, f);
    assert Occupies(t, cap, reach, o, r);
    if j > 0 {
      assert Occupies(t, cap, reach, o, l[j - 1]);
      OthersOk(t, t', cap, reach, L, o, f, r, l[j - 1], f, r);
    } else {
      OthersOk(t, t', cap, reach, L, o, f, r, f, f, r);
    }
    assert l'[j] == f;
    forall y | y in l && y != r
      ensures y in l'
    {
      var k :| 0 <= k < |l| && l[k] == y;
      assert l'[k] == y;
    }
    CoveredAfter(t, t', cap, L, o, l', f, r);
    Assemble(t', cap, reach, L, o, l');
  }

  /** Moving the entry of r to the free slot f keeps the entries keyed, the
      key's slot now f. */
  /** Lists whose slots hold the same entries position by position have
      the same keys and data. */
  lemma SameEntries(t: seq<Bucket>, t': seq<Bucket>, l: seq<nat>, l': seq<nat>)
    requires |l'| == |l| && forall i :: 0 <= i < |l| ==> l[i] < |t| && l'[i] < |t'| && SameEntry(t'[l'[i]], t[l[i]])
    ensures Entries(t', l') == Entries(t, l)
  {
  }

  /** Moving an entry into a free slot leaves the keys and data of every
      list, in list order, as they were. */
  lemma MoveKeepsEntries(t: seq<Bucket>, t': seq<Bucket>, cap: nat, reach: nat, L: seq<seq<nat>>, o: nat, j: nat, f: nat)
    requires Structure(t, cap, reach, L) && o < |L| && j < |L[o]| && f < |t| && t[f].hash == EmptyHash
    requires Structure(t', cap, reach, L[o := MovedTo(L[o], j, f)])
    requires SameEntry(t'[f], t[L[o][j]])
    requires forall x :: 0 <= x < |t| && x != f && x != L[o][j] ==> SameEntry(t'[x], t[x])
    ensures forall h :: 0 <= h < |t| ==> Entries(t', L[o := MovedTo(L[o], j, f)][h]) == Entries(t, L[h])
  {
    var r := L[o][j];
    var L' := L[o := MovedTo(L[o], j, f)];
    assert ListOk(t, cap, reach, o, L[o]);
    assert Occupies(t, cap, reach, o, r);
    forall h | 0 <= h < |t|
      ensures Entries(t', L'[h]) == Entries(t, L[h])
    {
      var l := L[h];
      var l' := L'[h];
      assert ListOk(t, cap, reach, h, l);
      assert ListOk(t', cap, reach, h, l');
      forall i | 0 <= i < |l|
        ensures l[i] < |t| && l'[i] < |t'| && SameEntry(t'[l'[i]], t[l[i]])
      {
        assert Occupies(t, cap, reach, h, l[i]);
        if h == o && i != j {
          assert l[i] != r;
        }
      }
      SameEntries(t, t', l, l');
    }
  }

  lemma KeyedRelocate(t: seq<Bucket>, t': seq<Bucket>, S: map<int, nat>, C: map<int, int>,
                      hash0: int -> int, iBits: nat, r: nat, f: nat)
    requires Keyed(t, S, C, hash0, iBits) && |t'| == |t|
    requires r < |t| && t[r].hash != EmptyHash && f < |t| && t[f].hash == EmptyHash
    requires t'[r].hash == EmptyHash
    requires t'[f].hash == t[r].hash && t'[f].key == t[r].key && t'[f].data == t[r].data
    requires forall x :: 0 <= x < |t| && x != f && x != r ==>
      t'[x].hash == t[x].hash && t'[x].key == t[x].key && t'[x].data == t[x].data
    ensures Keyed(t', S[t[r].key := f], C, hash0, iBits)
  {
    var key := t[r].key;
    assert SlotOf(t, S, r);
    assert KeyAt(t, key, r, C[key], HashIndex(hash0(key), iBits));
    forall k | k in S && k != key
      ensures KeyAt(t', k, S[k], C[k], HashIndex(hash0(k), iBits))
    {
      assert KeyAt(t, k, S[k], C[k], HashIndex(hash0(k), iBits));
    }
    var S' := S[key := f];
    forall s | 0 <= s < |t'|
      ensures SlotOf(t', S', s)
    {
      assert SlotOf(t, S, s);
    }
  }

  // ---- counting -----------------------------------------------------------

  /** The occupied slots among the first n */
  function CountOccupied(t: seq<Bucket>, n: nat): nat
    requires n <= |t|
  {
    if n == 0 then 0 else CountOccupied(t, n - 1) + (if t[n - 1].hash != EmptyHash then 1 else 0)
  }

  /** The keys held in the first n slots */
  ghost function KeysBelow(t: seq<Bucket>, n: nat): set<int>
    requires n <= |t|
  {
    set s | 0 <= s < n && t[s].hash != EmptyHash :: t[s].key
  }

  /** Slots holding keys are counted once each, since no key is held twice. */
  lemma {:induction false} CountKeys(t: seq<Bucket>, S: map<int, nat>, C: map<int, int>, hash0: int -> int, iBits: nat, n: nat)
    requires Keyed(t, S, C, hash0, iBits) && n <= |t|
    ensures CountOccupied(t, n) == |KeysBelow(t, n)|
  {
    if n > 0 {
      CountKeys(t, S, C, hash0, iBits, n - 1);
      if t[n - 1].hash != EmptyHash {
        assert SlotOf(t, S, n - 1);
        forall s | 0 <= s < n - 1 && t[s].hash != EmptyHash
          ensures t[s].key != t[n - 1].key
        {
          assert SlotOf(t, S, s);
        }
        assert KeysBelow(t, n) == KeysBelow(t, n - 1) + {t[n - 1].key};
      } else {
        assert KeysBelow(t, n) == KeysBelow(t, n - 1);
      }
    }
  }

  /** Every occupied slot lies below the reach. */
  lemma BelowReach(t: seq<Bucket>, cap: nat, reach: nat, L: seq<seq<nat>>, s: nat)
    requires Structure(t, cap, reach, L) && s < |t| && t[s].hash != EmptyHash
    ensures s < reach
  {
    var h := t[s].hash % cap;
    assert OnItsList(t, cap, L, s);
    var j :| 0 <= j < |L[h]| && L[h][j] == s;
    assert ListOk(t, cap, reach, h, L[h]);
    assert Occupies(t, cap, reach, h, L[h][j]);
  }

  /** Counting the occupied slots up to any bound at or past the reach
      counts the stored keys. */
  lemma CountIsSize(t: seq<Bucket>, cap: nat, reach: nat, L: seq<seq<nat>>, S: map<int, nat>, C: map<int, int>,
                    hash0: int -> int, iBits: nat, n: nat)
    requires Structure(t, cap, reach, L) && Keyed(t, S, C, hash0, iBits) && reach <= n <= |t|
    ensures CountOccupied(t, n) == |C|
  {
    CountKeys(t, S, C, hash0, iBits, n);
    forall k | k in S
      ensures k in KeysBelow(t, n)
    {
      assert KeyAt(t, k, S[k], C[k], HashIndex(hash0(k), iBits));
      BelowReach(t, cap, reach, L, S[k]);
    }
    forall s | 0 <= s < n && t[s].hash != EmptyHash
      ensures t[s].key in S
    {
      assert SlotOf(t, S, s);
    }
    assert KeysBelow(t, n) == S.Keys;
    assert |S.Keys| == |C.Keys|;
  }
}
