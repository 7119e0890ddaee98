/** The open-addressing map with linear probing: one array of slots, each
    null or holding a node; removal puts a shared dummy node (key -1,
    value -1) in place of the removed node so that later probes walk past
    it. The capacity is fixed at 100 slots and never grows. */
module OpenAddressing {
  import opened MathUtil

  const Capacity: nat := 100

  /** A slot of the probe array: null, or a node. */
  datatype Slot = Null | Node(key: int, value: int)

  /** The shared dummy node removal leaves behind */
  const Dummy: Slot := Node(-1, -1)

  /** A node that holds an entry: any node but the dummy */
  predicate Live(x: Slot)
  {
    x.Node? && x.key != -1
  }

  /** Keys are non-negative (a negative key would give a negative index);
      the only node with another key is the dummy. */
  predicate WellKeyed(s: seq<Slot>)
  {
    forall i :: 0 <= i < |s| && s[i].Node? ==> s[i].key >= 0 || s[i] == Dummy
  }

  /** The number of nodes holding an entry */
  function LiveCount(s: seq<Slot>): nat
  {
    if s == [] then 0 else LiveCount(s[..|s| - 1]) + (if Live(s[|s| - 1]) then 1 else 0)
  }

  lemma {:induction false} LiveCountUpdate(s: seq<Slot>, p: int, x: Slot)
    requires 0 <= p < |s|
    ensures LiveCount(s[p := x]) == LiveCount(s) - (if Live(s[p]) then 1 else 0) + (if Live(x) then 1 else 0)
  {
    var n := |s| - 1;
    assert s[p := x][..n] == if p == n then s[..n] else s[..n][p := x];
    if p < n {
      LiveCountUpdate(s[..n], p, x);
    }
  }

  lemma {:induction false} LiveCountZero(s: seq<Slot>)
    ensures LiveCount(s) == 0 <==> forall i :: 0 <= i < |s| ==> !Live(s[i])
  {
    if s != [] {
      var n := |s| - 1;
      LiveCountZero(s[..n]);
      assert forall i :: 0 <= i < n ==> s[..n][i] == s[i];
    }
  }

  lemma {:induction false} LiveCountEmpty(s: seq<Slot>)
    requires forall i :: 0 <= i < |s| ==> s[i] == Null
    ensures LiveCount(s) == 0
  {
    LiveCountZero(s);
  }

  /** hashCode: the key modulo the capacity, for the non-negative keys the
      map is used with. */
  function HashCode(key: int): (r: int)
    requires key >= 0
    ensures 0 <= r < Capacity && (key - r) % Capacity == 0
  {
    key % Capacity
  }

  /** Whether a probe for the key stops at slot x. Every probe stops at a
      null slot and at a node holding the key; the probe of insertion
      (reuse) also stops at the dummy, whose key is -1. */
  predicate Stops(x: Slot, key: int, reuse: bool)
  {
    x.Null? || x.key == key || (reuse && x.key == -1)
  }

  /** The slot where a probe starting at slot i stops, looking at no more
      than steps slots and stepping forward modulo the array length; None
      when none of them stops it. */
  function ProbeFrom(s: seq<Slot>, key: int, reuse: bool, i: nat, steps: nat): (r: Option<nat>)
    requires i < |s|
    ensures r.Some? ==> r.value < |s| && Stops(s[r.value], key, reuse)
    decreases steps
  {
    if steps == 0 then None
    else if Stops(s[i], key, reuse) then Some(i)
    else ProbeFrom(s, key, reuse, (i + 1) % |s|, steps - 1)
  }

  /** The probe of the source's loops, from the key's home slot. After
      every slot has been looked at, the probe comes back to the home slot
      and the source's loop runs forever: that is the None case. */
  function Probe(s: seq<Slot>, key: int, reuse: bool): Option<nat>
    requires |s| > 0
  {
    ProbeFrom(s, key, reuse, key % |s|, |s|)
  }

  /** The slot removal and lookup find for the key: the probe stopped on
      a node (which then holds the key), not on a null slot. */
  function Located(s: seq<Slot>, key: int): (r: Option<nat>)
    requires |s| > 0
    ensures r.Some? ==> r.value < |s| && s[r.value].Node? && s[r.value].key == key
  {
    match Probe(s, key, false)
    case Some(j) => if s[j].Node? then Some(j) else None
    case None => None
  }

  /** The value lookup returns: the located node's, else 0 (`false`). */
  function Lookup(s: seq<Slot>, key: int): int
    requires |s| > 0
  {
    match Located(s, key)
    case Some(j) => s[j].value
    case None => 0
  }

  /** (i + 1) % n, then m more steps, is i + 1 + m steps modulo n. */
  lemma ModStep(i: nat, m: nat, n: nat)
    requires n > 0
    ensures ((i + 1) % n + m) % n == (i + 1 + m) % n
  {
    var a := i + 1;
    var q, r := a / n, a % n;
    var q2, r2 := (r + m) / n, (r + m) % n;
    assert a + m == n * q + (r + m);
    assert r + m == n * q2 + r2;
    MulDistributes(n, q, q2);
    assert a + m == n * (q + q2) + r2;
    DivModUnique(a + m, n, q + q2, r2);
  }

  /** The slot m steps after slot i, modulo n */
  function Path(i: nat, m: nat, n: nat): (r: nat)
    requires n > 0
    ensures r < n
  {
    (i + m) % n
  }

  /** The probe's first slot is its starting slot. */
  lemma PathStart(i: nat, n: nat)
    requires i < n
    ensures Path(i, 0, n) == i
  {
    DivModUnique(i, n, 0, i);
  }

  /** None of the first k slots from slot i stops the probe. */
  ghost predicate Passes(s: seq<Slot>, key: int, reuse: bool, i: nat, k: nat)
    requires |s| > 0
  {
    forall m :: 0 <= m < k ==> !Stops(s[Path(i, m, |s|)], key, reuse)
  }

  /** Starting one slot later is one step less. */
  lemma PassesStep(s: seq<Slot>, key: int, reuse: bool, i: nat, k: nat)
    requires i < |s| && !Stops(s[i], key, reuse)
    ensures Passes(s, key, reuse, (i + 1) % |s|, k) <==> Passes(s, key, reuse, i, k + 1)
  {
    var n, i' := |s|, (i + 1) % |s|;
    PathStart(i, n);
    if Passes(s, key, reuse, i', k) {
      forall m | 0 <= m < k + 1
        ensures !Stops(s[Path(i, m, n)], key, reuse)
      {
        if m > 0 {
          ModStep(i, m - 1, n);
          assert Path(i', m - 1, n) == Path(i, m, n);
        }
      }
    }
    if Passes(s, key, reuse, i, k + 1) {
      forall m | 0 <= m < k
        ensures !Stops(s[Path(i', m, n)], key, reuse)
      {
        ModStep(i, m, n);
        assert Path(i', m, n) == Path(i, m + 1, n);
      }
    }
  }

  /** The probe visits slots i, i + 1, ... modulo the length in turn and
      stops at the first that stops it. */
  lemma {:induction false} ProbeFromStops(s: seq<Slot>, key: int, reuse: bool, i: nat, steps: nat)
    requires i < |s| && ProbeFrom(s, key, reuse, i, steps).Some?
    ensures exists k :: (0 <= k < steps && ProbeFrom(s, key, reuse, i, steps).value == Path(i, k, |s|)
      && Passes(s, key, reuse, i, k))
    decreases steps
  {
    var n := |s|;
    PathStart(i, n);
    if Stops(s[i], key, reuse) {
      assert Passes(s, key, reuse, i, 0);
    } else {
      var i' := (i + 1) % n;
      ProbeFromStops(s, key, reuse, i', steps - 1);
      var k :| 0 <= k < steps - 1 && ProbeFrom(s, key, reuse, i', steps - 1).value == Path(i', k, n)
        && Passes(s, key, reuse, i', k);
      assert Path(i', k, n) == Path(i, k + 1, n) by {
        ModStep(i, k, n);
      }
      assert Passes(s, key, reuse, i, k + 1) by {
        PassesStep(s, key, reuse, i, k);
      }
      assert ProbeFrom(s, key, reuse, i, steps) == ProbeFrom(s, key, reuse, i', steps - 1);
    }
  }

  /** The probe finds no slot only when none of the slots it looked at
      stops it. */
  lemma {:induction false} ProbeFromNone(s: seq<Slot>, key: int, reuse: bool, i: nat, steps: nat)
    requires i < |s|
    ensures ProbeFrom(s, key, reuse, i, steps).None? <==> Passes(s, key, reuse, i, steps)
    decreases steps
  {
    var n := |s|;
    PathStart(i, n);
    if steps > 0 && !Stops(s[i], key, reuse) {
      ProbeFromNone(s, key, reuse, (i + 1) % n, steps - 1);
      PassesStep(s, key, reuse, i, steps - 1);
    }
  }

  /** Every slot is reached from the home slot within n steps. */
  lemma Reaches(i: nat, p: nat, n: nat)
    requires i < n && p < n
    ensures 0 <= (p - i) % n < n && Path(i, (p - i) % n, n) == p
  {
    var m := (p - i) % n;
    if p >= i {
      DivModUnique(p - i, n, 0, p - i);
    } else {
      DivModUnique(p - i, n, -1, p - i + n);
      DivModUnique(i + m, n, 1, p);
    }
  }

  /** insertNode's loop never ends exactly when no slot at all is null,
      the dummy, or a node holding the key: on a full table without a
      dummy, inserting a new key hangs. Likewise for the loops of removal
      and lookup, with no null slot and no node of the key. */
  lemma ProbeHangs(s: seq<Slot>, key: int, reuse: bool)
    requires |s| > 0
    ensures Probe(s, key, reuse).None? <==> forall p :: 0 <= p < |s| ==> !Stops(s[p], key, reuse)
  {
    var n, h := |s|, key % |s|;
    ProbeFromNone(s, key, reuse, h, n);
    if Probe(s, key, reuse).None? {
      forall p | 0 <= p < n
        ensures !Stops(s[p], key, reuse)
      {
        Reaches(h, p, n);
      }
    }
  }

  /** Placing a node at slot p changes no probe whose stop it does not
      change. */
  lemma {:induction false} ProbeUpdateSame(s: seq<Slot>, key: int, reuse: bool, i: nat, steps: nat, p: nat, x: Slot)
    requires i < |s| && p < |s| && Stops(x, key, reuse) == Stops(s[p], key, reuse)
    ensures ProbeFrom(s[p := x], key, reuse, i, steps) == ProbeFrom(s, key, reuse, i, steps)
    decreases steps
  {
    if steps > 0 && !Stops(s[i], key, reuse) {
      ProbeUpdateSame(s, key, reuse, (i + 1) % |s|, steps - 1, p, x);
    }
  }

  /** A slot that stops a probe but is not where it stopped lies beyond
      the probe's end; overwriting it changes nothing for that probe. */
  lemma {:induction false} ProbeUpdateAfter(s: seq<Slot>, key: int, reuse: bool, i: nat, steps: nat, p: nat, x: Slot)
    requires i < |s| && p < |s| && Stops(s[p], key, reuse)
    requires ProbeFrom(s, key, reuse, i, steps).Some? && ProbeFrom(s, key, reuse, i, steps).value != p
    ensures ProbeFrom(s[p := x], key, reuse, i, steps) == ProbeFrom(s, key, reuse, i, steps)
    decreases steps
  {
    if !Stops(s[i], key, reuse) {
      ProbeUpdateAfter(s, key, reuse, (i + 1) % |s|, steps - 1, p, x);
    }
  }

  /** The node insertion writes where its probe stopped is where the probe
      of lookup stops: the slots before it are nodes of other keys. */
  lemma {:induction false} ProbePlaced(s: seq<Slot>, key: int, i: nat, steps: nat, value: int)
    requires i < |s| && ProbeFrom(s, key, true, i, steps).Some?
    ensures ProbeFrom(s[ProbeFrom(s, key, true, i, steps).value := Node(key, value)], key, false, i, steps)
      == ProbeFrom(s, key, true, i, steps)
    decreases steps
  {
    if !Stops(s[i], key, true) {
      ProbePlaced(s, key, (i + 1) % |s|, steps - 1, value);
    }
  }

  /** After insertNode(key, value) stops at slot j and writes there,
      get(key) finds the node at j and returns value. */
  lemma InsertThenGet(s: seq<Slot>, key: int, value: int)
    requires |s| > 0 && Probe(s, key, true).Some?
    ensures Located(s[Probe(s, key, true).value := Node(key, value)], key) == Probe(s, key, true)
    ensures Lookup(s[Probe(s, key, true).value := Node(key, value)], key) == value
  {
    ProbePlaced(s, key, key % |s|, |s|, value);
  }

  class HashMap {
    var arr: array<Slot>
    var size: nat

    ghost predicate Valid()
      reads this, arr
    {
      && arr.Length == Capacity
      && WellKeyed(arr[..])
      && size == LiveCount(arr[..])
    }

    /** 100 null slots and no entry */
    constructor ()
      ensures Valid() && fresh(arr)
      ensures size == 0 && forall i :: 0 <= i < arr.Length ==> arr[i] == Null
    {
      size := 0;
      arr := new Slot[Capacity](_ => Null);
      new;
      LiveCountEmpty(arr[..]);
    }

    /** insertNode: probes from the key's home slot to the first null slot,
        dummy or node of the key and writes a node there; the size grows
        unless that slot held the key. `hangs` reports a probe that finds
        no such slot, on which the source's loop never ends; the map is
        then left as it was. */
    method InsertNode(key: int, value: int) returns (hangs: bool)
      requires Valid() && key >= 0
      modifies arr, this`size
      ensures Valid()
      ensures hangs == Probe(old(arr[..]), key, true).None?
      ensures hangs ==> arr[..] == old(arr[..]) && size == old(size)
      ensures !hangs ==> var j := Probe(old(arr[..]), key, true).value;
        && arr[..] == old(arr[..])[j := Node(key, value)]
        && size == old(size) + (if old(arr[j]) == Null || old(arr[j]).key == -1 then 1 else 0)
    {
      ghost var s := arr[..];
      var hashIndex := HashCode(key);
      var steps := 0;
      while arr[hashIndex] != Null && arr[hashIndex].key != key && arr[hashIndex].key != -1
        invariant 0 <= hashIndex < Capacity && 0 <= steps < Capacity
        invariant ProbeFrom(s, key, true, hashIndex, Capacity - steps) == Probe(s, key, true)
        decreases Capacity - steps
      {
        if steps == Capacity - 1 {
          return true;
        }
        hashIndex := (hashIndex + 1) % Capacity;
        steps := steps + 1;
      }
      if arr[hashIndex] == Null || arr[hashIndex].key == -1 {
        size := size + 1;
      }
      LiveCountUpdate(arr[..], hashIndex, Node(key, value));
      arr[hashIndex] := Node(key, value);
      return false;
    }

    /** deleteNode: the first node of the key on the probe path becomes the
        dummy, the size drops by one and its value is returned; 0 when a
        null slot comes first. `hangs` as for insertion: no null slot and
        no node of the key anywhere. */
    method DeleteNode(key: int) returns (v: int, hangs: bool)
      requires Valid() && key >= 0
      modifies arr, this`size
      ensures Valid()
      ensures hangs == Probe(old(arr[..]), key, false).None?
      ensures v == Lookup(old(arr[..]), key)
      ensures match Located(old(arr[..]), key)
        case Some(j) => arr[..] == old(arr[..])[j := Dummy] && size == old(size) - 1
        case None => arr[..] == old(arr[..]) && size == old(size)
    {
      ghost var s := arr[..];
      var hashIndex := HashCode(key);
      var steps := 0;
      while arr[hashIndex] != Null
        invariant 0 <= hashIndex < Capacity && 0 <= steps < Capacity
        invariant ProbeFrom(s, key, false, hashIndex, Capacity - steps) == Probe(s, key, false)
        invariant arr[..] == s
        decreases Capacity - steps
      {
        if arr[hashIndex].key == key {
          var temp := arr[hashIndex];
          LiveCountUpdate(arr[..], hashIndex, Dummy);
          arr[hashIndex] := Dummy;
          size := size - 1;
          return temp.value, false;
        }
        if steps == Capacity - 1 {
          return 0, true;
        }
        hashIndex := (hashIndex + 1) % Capacity;
        steps := steps + 1;
      }
      return 0, false;
    }

    /** get: the value of the first node of the key on the probe path, 0
        when a null slot comes first. The source's guard against an endless
        loop resets its counter on every pass and never fires, so on a
        table with no null slot and no node of the key the loop never ends:
        `hangs`. */
    method Get(key: int) returns (v: int, hangs: bool)
      requires Valid() && key >= 0
      ensures hangs == Probe(arr[..], key, false).None?
      ensures v == Lookup(arr[..], key)
    {
      var hashIndex := HashCode(key);
      var steps := 0;
      while arr[hashIndex] != Null
        invariant 0 <= hashIndex < Capacity && 0 <= steps < Capacity
        invariant ProbeFrom(arr[..], key, false, hashIndex, Capacity - steps) == Probe(arr[..], key, false)
        decreases Capacity - steps
      {
        if arr[hashIndex].key == key {
          return arr[hashIndex].value, false;
        }
        if steps == Capacity - 1 {
          return 0, true;
        }
        hashIndex := (hashIndex + 1) % Capacity;
        steps := steps + 1;
      }
      return 0, false;
    }

    /** sizeofMap: the number of nodes holding an entry */
    method SizeOfMap() returns (n: nat)
      requires Valid()
      ensures n == LiveCount(arr[..])
    {
      return size;
    }

    /** isEmpty: true exactly when no slot holds an entry */
    method IsEmpty() returns (empty: bool)
      requires Valid()
      ensures empty <==> size == 0
      ensures empty <==> forall i :: 0 <= i < arr.Length ==> !Live(arr[i])
    {
      LiveCountZero(arr[..]);
      return size == 0;
    }
  }

  /** The source's driver: insert (1, 1), (2, 2), (2, 3); the size is then
      2, deleting 2 returns 3, the size is 1, the map is not empty, and
      get(2) returns 0. */
  method Driver() returns (size1: nat, deleted: int, size2: nat, empty: bool, got: int)
    ensures size1 == 2 && deleted == 3 && size2 == 1 && !empty && got == 0
  {
    var h := new HashMap();
    var hangs := h.InsertNode(1, 1);
    hangs := h.InsertNode(2, 2);
    hangs := h.InsertNode(2, 3);
    size1 := h.SizeOfMap();
    deleted, hangs := h.DeleteNode(2);
    size2 := h.SizeOfMap();
    empty := h.IsEmpty();
    got, hangs := h.Get(2);
  }

  /** insertNode as written reuses the first dummy on the probe path even
      when a node of the same key lies further on. Insert 1 (home slot 1),
      then 101 (home slot 1 too, so it lands in slot 2), delete 1 (slot 1
      becomes the dummy) and insert 101 again: it lands in slot 1, and two
      nodes hold key 101, counted twice by the size. Deleting 101 then
      removes only the first; get(101) still returns the old value 5. */
  method DuplicateScenario() returns (sizeAfterInsert: nat, deleted: int, sizeAfterDelete: nat, got: int)
    ensures sizeAfterInsert == 2 && deleted == 7 && sizeAfterDelete == 1 && got == 5
  {
    var h := new HashMap();
    var hangs := h.InsertNode(1, 1);
    hangs := h.InsertNode(101, 5);
    var v;
    v, hangs := h.DeleteNode(1);
    hangs := h.InsertNode(101, 7);
    assert h.arr[1] == Node(101, 7) && h.arr[2] == Node(101, 5);
    sizeAfterInsert := h.SizeOfMap();
    deleted, hangs := h.DeleteNode(101);
    sizeAfterDelete := h.SizeOfMap();
    got, hangs := h.Get(101);
  }

  /** The invariant insertion evidently intends: the probe of lookup from
      the home slot of every stored key stops at that key's node. It makes
      a key's node unique, and is what removal relies on. */
  ghost predicate Findable(s: seq<Slot>)
    requires |s| > 0
  {
    forall j :: 0 <= j < |s| && Live(s[j]) ==> Probe(s, s[j].key, false) == Some(j)
  }

  lemma FindableUnique(s: seq<Slot>, i: nat, j: nat)
    requires |s| > 0 && Findable(s) && i < |s| && j < |s|
    requires Live(s[i]) && Live(s[j]) && s[i].key == s[j].key
    ensures i == j
  {
  }

  /** The empty table satisfies the invariant. */
  lemma FindableEmpty(s: seq<Slot>)
    requires |s| > 0 && forall i :: 0 <= i < |s| ==> s[i] == Null
    ensures Findable(s)
  {
  }

  /** The insertion the authors evidently intended: overwrite the key's
      node when lookup locates one, and only otherwise write where the
      probe of insertion stops (the first null slot or dummy). None when
      the key is new and no slot is null or the dummy. */
  function IntendedInsert(s: seq<Slot>, key: int, value: int): Option<seq<Slot>>
    requires |s| > 0
  {
    match Located(s, key)
    case Some(j) => Some(s[j := Node(key, value)])
    case None =>
      match Probe(s, key, true)
      case Some(j) => Some(s[j := Node(key, value)])
      case None => None
  }

  /** With the key already stored, the intended insertion overwrites its
      node and keeps the invariant. */
  lemma IntendedOverwrite(s: seq<Slot>, key: int, value: int, j: nat)
    requires |s| > 0 && WellKeyed(s) && Findable(s) && key >= 0 && Located(s, key) == Some(j)
    ensures Findable(s[j := Node(key, value)])
  {
    var s' := s[j := Node(key, value)];
    forall j' | 0 <= j' < |s'| && Live(s'[j'])
      ensures Probe(s', s'[j'].key, false) == Some(j')
    {
      var k := s'[j'].key;
      ProbeUpdateSame(s, k, false, k % |s|, |s|, j, Node(key, value));
      if j' != j && k == key {
        assert Probe(s, key, false) == Some(j');
      }
    }
  }

  /** With the key not stored, the intended insertion writes a new node
      where the probe of insertion stops, a null slot or the dummy, and
      keeps the invariant. */
  lemma IntendedPlace(s: seq<Slot>, key: int, value: int, j: nat)
    requires |s| > 0 && WellKeyed(s) && Findable(s) && key >= 0
    requires Located(s, key).None? && Probe(s, key, true) == Some(j)
    ensures s[j] == Null || s[j] == Dummy
    ensures Findable(s[j := Node(key, value)])
  {
    var x := Node(key, value);
    var s' := s[j := x];
    forall j' | 0 <= j' < |s'| && Live(s'[j'])
      ensures Probe(s', s'[j'].key, false) == Some(j')
    {
      var k := s'[j'].key;
      if j' == j {
        InsertThenGet(s, key, value);
      } else {
        assert Probe(s, k, false) == Some(j');
        if s[j] == Null {
          ProbeUpdateAfter(s, k, false, k % |s|, |s|, j, x);
        } else {
          ProbeUpdateSame(s, k, false, k % |s|, |s|, j, x);
        }
      }
    }
  }

  /** The intended insertion keeps every key findable, so no key is ever
      held by two nodes; lookup then returns the value just inserted, and
      one more entry is counted exactly when the key was new. */
  lemma IntendedInsertKeeps(s: seq<Slot>, key: int, value: int)
    requires |s| > 0 && WellKeyed(s) && Findable(s) && key >= 0
    requires IntendedInsert(s, key, value).Some?
    ensures var s' := IntendedInsert(s, key, value).value;
      && WellKeyed(s') && Findable(s') && Lookup(s', key) == value
      && LiveCount(s') == LiveCount(s) + (if Located(s, key).None? then 1 else 0)
  {
    var x := Node(key, value);
    var j := if Located(s, key).Some? then Located(s, key).value else Probe(s, key, true).value;
    var s' := s[j := x];
    assert IntendedInsert(s, key, value).value == s';
    if Located(s, key).Some? {
      IntendedOverwrite(s, key, value, j);
    } else {
      IntendedPlace(s, key, value, j);
    }
    LiveCountUpdate(s, j, x);
    assert Live(s'[j]);
    assert Probe(s', key, false) == Some(j);
  }

  /** Removal keeps the invariant, and once the invariant holds, a removed
      key is gone: lookup no longer locates it. */
  lemma DeleteKeeps(s: seq<Slot>, key: int, j: nat)
    requires |s| > 0 && WellKeyed(s) && Findable(s) && key >= 0 && Located(s, key) == Some(j)
    ensures Findable(s[j := Dummy]) && Located(s[j := Dummy], key).None?
  {
    var s' := s[j := Dummy];
    forall j' | 0 <= j' < |s'| && Live(s'[j'])
      ensures Probe(s', s'[j'].key, false) == Some(j')
    {
      var k := s'[j'].key;
      assert Probe(s, k, false) == Some(j');
      ProbeUpdateSame(s, k, false, k % |s|, |s|, j, Dummy);
    }
  }
}
