/** The sequential two-table cuckoo hash set. An element lives either in
    table 0 at its first hash modulo the capacity or in table 1 at its
    second. Insertion displaces occupants back and forth between the two
    tables a bounded number of rounds; when no free slot turns up, the
    capacity grows to 2 * cap + 1, every element is re-added, and the
    element still being carried is added last. */
module CuckooSet {
  import opened MathUtil

  /** A slot: a value, meaningful only while the slot is in use */
  datatype Cell = Cell(value: int, inUse: bool)

  /** A slot not in use (the value of a fresh slot is arbitrary; 0 here) */
  const Free: Cell := Cell(0, false)

  /** The value of a slot in use, as a multiset of zero or one element */
  function InUse(c: Cell): multiset<int>
  {
    if c.inUse then multiset{c.value} else multiset{}
  }

  /** The values held by the slots in use */
  function Stored(t: seq<Cell>): multiset<int>
  {
    if t == [] then multiset{} else Stored(t[..|t| - 1]) + InUse(t[|t| - 1])
  }

  /** Every slot in use sits at its value's hash modulo the table length. */
  ghost predicate Placed(t: seq<Cell>, hash: int -> Hash)
  {
    forall i :: 0 <= i < |t| && t[i].inUse ==> hash(t[i].value) % |t| == i
  }

  /** Writing a slot keeps the placement when the slot is freed or takes
      a value whose hash selects it. */
  lemma PlacedPut(t: seq<Cell>, hash: int -> Hash, i: int, c: Cell)
    requires Placed(t, hash) && 0 <= i < |t|
    requires c.inUse ==> hash(c.value) % |t| == i
    ensures Placed(t[i := c], hash)
  {
  }

  lemma StoredUpdate(t: seq<Cell>, i: int, c: Cell)
    requires 0 <= i < |t|
    ensures Stored(t[i := c]) + InUse(t[i]) == Stored(t) + InUse(c)
  {
    var front, rest := t[..i], t[i + 1..];
    assert t == front + [t[i]] + rest;
    assert t[i := c] == front + [c] + rest;
    StoredConcat(front + [t[i]], rest);
    StoredConcat(front + [c], rest);
    StoredConcat(front, [t[i]]);
    StoredConcat(front, [c]);
    StoredSingle(t[i]);
    StoredSingle(c);
  }

  lemma StoredPrefix(t: seq<Cell>, i: int)
    requires 0 <= i < |t|
    ensures Stored(t[..i + 1]) == Stored(t[..i]) + InUse(t[i])
  {
    assert t[..i + 1][..i] == t[..i];
  }

  lemma {:induction false} StoredEmpty(t: seq<Cell>)
    requires forall i :: 0 <= i < |t| ==> !t[i].inUse
    ensures Stored(t) == multiset{}
  {
    if t != [] {
      StoredEmpty(t[..|t| - 1]);
    }
  }

  /** A value is stored only in a slot in use holding it. */
  lemma {:induction false} StoredHas(t: seq<Cell>, v: int) returns (i: int)
    requires v in Stored(t)
    ensures 0 <= i < |t| && t[i].inUse && t[i].value == v
  {
    var n := |t| - 1;
    if v in InUse(t[n]) {
      i := n;
    } else {
      i := StoredHas(t[..n], v);
    }
  }

  /** Every slot in use contributes its value. */
  lemma {:induction false} StoredAt(t: seq<Cell>, i: int)
    requires 0 <= i < |t|
    ensures InUse(t[i]) <= Stored(t)
  {
    var n := |t| - 1;
    if i < n {
      StoredAt(t[..n], i);
    }
  }

  lemma StoredSplit(t: seq<Cell>, i: int)
    requires 0 <= i <= |t|
    ensures Stored(t) == Stored(t[..i]) + Stored(t[i..])
  {
    assert t == t[..i] + t[i..];
    StoredConcat(t[..i], t[i..]);
  }

  /** The values stored by two tables laid end to end */
  lemma {:induction false} StoredConcat(a: seq<Cell>, b: seq<Cell>)
    ensures Stored(a + b) == Stored(a) + Stored(b)
    decreases |b|
  {
    if b == [] {
      assert a + b == a;
    } else {
      var m := |b| - 1;
      var sa, sb, last := Stored(a), Stored(b[..m]), InUse(b[m]);
      assert Stored(a + b) == sa + sb + last by {
        assert a + b == (a + b[..m]) + [b[m]];
        StoredLast(a + b, a + b[..m], b[m]);
        StoredConcat(a, b[..m]);
      }
      assert Stored(b) == sb + last;
      assert sa + sb + last == sa + (sb + last);
    }
  }

  /** Unfolding Stored once at the last slot */
  lemma StoredLast(t: seq<Cell>, init: seq<Cell>, last: Cell)
    requires t == init + [last]
    ensures Stored(t) == Stored(init) + InUse(last)
  {
    assert t[..|t| - 1] == init;
  }

  lemma StoredSingle(c: Cell)
    ensures Stored([c]) == InUse(c)
  {
    assert [c][..0] == [];
  }

  /** In a placed table, a value is stored exactly when the slot its hash
      selects is in use and holds it: the only slot lookup examines. */
  lemma StoredPlaced(t: seq<Cell>, hash: int -> Hash, v: int)
    requires |t| > 0 && Placed(t, hash)
    ensures v in Stored(t) <==> t[hash(v) % |t|].inUse && t[hash(v) % |t|].value == v
  {
    if v in Stored(t) {
      var i := StoredHas(t, v);
    }
    StoredAt(t, hash(v) % |t|);
  }

  /** The number of occurrences of v in m (a name for `m[v]` that the
      distinctness quantifier below hangs on, so that it fires only where a
      proof asks for it) */
  function Count(m: multiset<int>, v: int): nat
  {
    m[v]
  }

  /** Every element occurs at most once. */
  ghost predicate Distinct(m: multiset<int>)
  {
    forall v :: Count(m, v) <= 1
  }

  /** Adding an element absent from a distinct multiset keeps it distinct. */
  lemma PutIn(m: multiset<int>, x: int)
    requires Distinct(m) && x !in m
    ensures Distinct(m + multiset{x})
  {
    forall v ensures Count(m + multiset{x}, v) <= 1 {
      assert Count(m, v) <= 1;
    }
  }

  /** The parts of a distinct whole a + b, re-added b first, stay distinct:
      b alone, and then whatever of b got in, c, together with a. */
  lemma ResizeDistinct(a: multiset<int>, b: multiset<int>, c: multiset<int>, d: multiset<int>)
    requires Distinct(a + b)
    ensures Distinct(multiset{} + b)
    ensures c + d == multiset{} + b ==> Distinct(c + a)
  {
    assert multiset{} + b == b;
    forall v ensures Count(b, v) <= 1 {
      assert Count(a + b, v) <= 1;
    }
    if c + d == multiset{} + b {
      forall v ensures Count(c + a, v) <= 1 {
        assert Count(a + b, v) <= 1;
        assert (c + d)[v] == b[v];
      }
    }
  }

  /** Taking out an x that is not there changes nothing. */
  lemma TakeNone(m: multiset<int>, x: int)
    requires x !in m
    ensures m - multiset{x} == m
  {
    assert forall v :: (m - multiset{x})[v] == m[v];
  }

  /** Taking one x out of a distinct whole removes it entirely. */
  lemma TakeOne(a: multiset<int>, a': multiset<int>, b: multiset<int>, x: int)
    requires a == a' + multiset{x} && Distinct(a + b)
    ensures (a + b) - multiset{x} == a' + b && Distinct(a' + b) && x !in a' + b
  {
    forall v ensures Count(a' + b, v) <= 1 {
      assert Count(a + b, v) <= 1;
    }
    assert Count(a + b, x) <= 1;
    assert forall v :: (a + b)[v] == (a' + b)[v] + (if v == x then 1 else 0);
  }

  /** The same, for an x taken from the second part. */
  lemma TakeOneSecond(a: multiset<int>, b: multiset<int>, b': multiset<int>, x: int)
    requires b == b' + multiset{x} && Distinct(a + b)
    ensures (a + b) - multiset{x} == a + b' && Distinct(a + b') && x !in a + b'
  {
    forall v ensures Count(a + b', v) <= 1 {
      assert Count(a + b, v) <= 1;
    }
    assert Count(a + b, x) <= 1;
    assert forall v :: (a + b)[v] == (a + b')[v] + (if v == x then 1 else 0);
  }

  /** What re-adding b and then a keeps, plus what it hands back, is the
      whole a + b. */
  lemma ResizeTotal(a: multiset<int>, b: multiset<int>, e1: multiset<int>, e2: multiset<int>,
                    l1: multiset<int>, l2: multiset<int>)
    requires e1 + l1 == multiset{} + b && e2 + l2 == e1 + a
    ensures e2 + (l1 + l2) == a + b
  {
    assert multiset{} + b == b;
    forall v ensures (e2 + (l1 + l2))[v] == (a + b)[v] {
      assert (e1 + l1)[v] == b[v];
      assert (e2 + l2)[v] == (e1 + a)[v];
    }
  }

  /** Some step kept r of what was there and handed back l1, and adding c
      then kept e and handed back l2: together that is what was there
      plus c. */
  lemma AddTotal(e: multiset<int>, r: multiset<int>, before: multiset<int>,
                 l1: multiset<int>, l2: multiset<int>, c: multiset<int>)
    requires r + l1 == before && e + l2 == r + c
    ensures e + (l1 + l2) == before + c
  {
    forall v ensures (e + (l1 + l2))[v] == (before + c)[v] {
      assert (r + l1)[v] == before[v];
      assert (e + l2)[v] == (r + c)[v];
    }
  }

  /** One more slot re-added: what is stored and what was handed back
      account for one more slot of the old table. */
  lemma ReAddStep(e': multiset<int>, e: multiset<int>, base: multiset<int>, lost: seq<int>, lost': seq<int>,
                  cells: seq<Cell>, i: int)
    requires 0 <= i < |cells|
    requires e + multiset(lost) == base + Stored(cells[..i])
    requires e' + multiset(lost') == e + InUse(cells[i])
    ensures e' + multiset(lost + lost') == base + Stored(cells[..i + 1])
  {
    StoredPrefix(cells, i);
    assert multiset(lost + lost') == multiset(lost) + multiset(lost');
    AddTotal(e', e, base + Stored(cells[..i]), multiset(lost), multiset(lost'), InUse(cells[i]));
  }

  /** Exchanging the carried c for the occupant o (none when the slot was
      free) keeps the total. */
  lemma Exchange(a: multiset<int>, a': multiset<int>, b: multiset<int>, c: int, o: multiset<int>)
    requires a' + o == a + multiset{c}
    ensures a' + b + o == a + b + multiset{c}
    ensures b + a' + o == b + a + multiset{c}
    ensures o == multiset{} ==> a' + b == a + b + multiset{c} && b + a' == b + a + multiset{c}
  {
    calc {
      b + a' + o;
      b + (a' + o);
      b + (a + multiset{c});
      b + a + multiset{c};
    }
    calc {
      a' + b + o;
      a' + o + b;
      a + multiset{c} + b;
      a + b + multiset{c};
    }
  }

  /** The set invariant on the two tables: each table is placed by its
      own hash, and the values the slots in use hold are distinct. */
  ghost predicate Inv(t0: seq<Cell>, t1: seq<Cell>, h0: int -> Hash, h1: int -> Hash)
  {
    Placed(t0, h0) && Placed(t1, h1) && Distinct(Stored(t0) + Stored(t1))
  }

  /** Mid-insertion: the tables are placed, and what they hold plus the
      element being carried is the target contents. */
  ghost predicate Carrying(t0: seq<Cell>, t1: seq<Cell>, h0: int -> Hash, h1: int -> Hash,
                           target: multiset<int>, carried: int)
  {
    && Placed(t0, h0) && Placed(t1, h1)
    && Stored(t0) + Stored(t1) + multiset{carried} == target
  }

  lemma InvEmpty(t0: seq<Cell>, t1: seq<Cell>, h0: int -> Hash, h1: int -> Hash)
    requires forall i :: 0 <= i < |t0| ==> !t0[i].inUse
    requires forall i :: 0 <= i < |t1| ==> !t1[i].inUse
    ensures Inv(t0, t1, h0, h1) && Stored(t0) + Stored(t1) == multiset{}
  {
    StoredEmpty(t0);
    StoredEmpty(t1);
  }

  /** Under the invariant, x is stored exactly when the slot of its first
      hash in table 0, or that of its second in table 1, holds it. */
  lemma InvMember(t0: seq<Cell>, t1: seq<Cell>, h0: int -> Hash, h1: int -> Hash, x: int)
    requires Inv(t0, t1, h0, h1) && |t0| > 0 && |t1| > 0
    ensures x in Stored(t0) + Stored(t1) <==> ((t0[h0(x) % |t0|].inUse && t0[h0(x) % |t0|].value == x)
                                           || (t1[h1(x) % |t1|].inUse && t1[h1(x) % |t1|].value == x))
  {
    StoredPlaced(t0, h0, x);
    StoredPlaced(t1, h1, x);
  }

  /** Freeing the slot of table 0 that holds x removes x, entirely. */
  lemma VacateFirst(t0: seq<Cell>, t1: seq<Cell>, h0: int -> Hash, h1: int -> Hash, i: int)
    requires Inv(t0, t1, h0, h1) && 0 <= i < |t0| && t0[i].inUse
    ensures var t0' := t0[i := t0[i].(inUse := false)];
      && Inv(t0', t1, h0, h1)
      && Stored(t0') + Stored(t1) == (Stored(t0) + Stored(t1)) - multiset{t0[i].value}
      && t0[i].value !in Stored(t0') + Stored(t1)
  {
    var c, x := t0[i].(inUse := false), t0[i].value;
    StoredUpdate(t0, i, c);
    PlacedPut(t0, h0, i, c);
    TakeOne(Stored(t0), Stored(t0[i := c]), Stored(t1), x);
  }

  /** Freeing the slot of table 1 that holds x removes x, entirely. */
  lemma VacateSecond(t0: seq<Cell>, t1: seq<Cell>, h0: int -> Hash, h1: int -> Hash, i: int)
    requires Inv(t0, t1, h0, h1) && 0 <= i < |t1| && t1[i].inUse
    ensures var t1' := t1[i := t1[i].(inUse := false)];
      && Inv(t0, t1', h0, h1)
      && Stored(t0) + Stored(t1') == (Stored(t0) + Stored(t1)) - multiset{t1[i].value}
      && t1[i].value !in Stored(t0) + Stored(t1')
  {
    var c, x := t1[i].(inUse := false), t1[i].value;
    StoredUpdate(t1, i, c);
    PlacedPut(t1, h1, i, c);
    TakeOneSecond(Stored(t0), Stored(t1), Stored(t1[i := c]), x);
  }

  /** One step of displacement in table 0: the carried element takes the
      slot of its first hash. A free slot ends the insertion with the
      target contents; otherwise the occupant is carried next. */
  lemma SwapFirst(t0: seq<Cell>, t1: seq<Cell>, h0: int -> Hash, h1: int -> Hash, target: multiset<int>, carried: int)
    requires Carrying(t0, t1, h0, h1, target, carried) && Distinct(target) && |t0| > 0
    ensures var i := h0(carried) % |t0|; var t0' := t0[i := Cell(carried, true)];
      && (!t0[i].inUse ==> Inv(t0', t1, h0, h1) && Stored(t0') + Stored(t1) == target)
      && (t0[i].inUse ==> Carrying(t0', t1, h0, h1, target, t0[i].value))
  {
    var i := h0(carried) % |t0|;
    var c := Cell(carried, true);
    StoredUpdate(t0, i, c);
    PlacedPut(t0, h0, i, c);
    Exchange(Stored(t0), Stored(t0[i := c]), Stored(t1), carried, InUse(t0[i]));
  }

  /** One step of displacement in table 1, by the second hash. */
  lemma SwapSecond(t0: seq<Cell>, t1: seq<Cell>, h0: int -> Hash, h1: int -> Hash, target: multiset<int>, carried: int)
    requires Carrying(t0, t1, h0, h1, target, carried) && Distinct(target) && |t1| > 0
    ensures var i := h1(carried) % |t1|; var t1' := t1[i := Cell(carried, true)];
      && (!t1[i].inUse ==> Inv(t0, t1', h0, h1) && Stored(t0) + Stored(t1') == target)
      && (t1[i].inUse ==> Carrying(t0, t1', h0, h1, target, t1[i].value))
  {
    var i := h1(carried) % |t1|;
    var c := Cell(carried, true);
    StoredUpdate(t1, i, c);
    PlacedPut(t1, h1, i, c);
    Exchange(Stored(t1), Stored(t1[i := c]), Stored(t0), carried, InUse(t1[i]));
  }

  /** Displacement given up: the tables satisfy the invariant, and the
      carried element is not among what they hold. */
  lemma GiveUp(t0: seq<Cell>, t1: seq<Cell>, h0: int -> Hash, h1: int -> Hash, target: multiset<int>, carried: int)
    requires Carrying(t0, t1, h0, h1, target, carried) && Distinct(target)
    ensures Inv(t0, t1, h0, h1) && carried !in Stored(t0) + Stored(t1)
  {
    var m := Stored(t0) + Stored(t1);
    assert forall v :: target[v] == m[v] + (if v == carried then 1 else 0);
    forall v ensures Count(m, v) <= 1 {
      assert Count(target, v) <= 1;
    }
    assert Count(target, carried) <= 1;
  }

  /** The next value re-added is not yet stored. */
  lemma ReAddFresh(elements: multiset<int>, lost: seq<int>, base: multiset<int>, cells: seq<Cell>, i: int)
    requires 0 <= i < |cells|
    requires elements + multiset(lost) == base + Stored(cells[..i]) && Distinct(base + Stored(cells))
    ensures cells[i].inUse ==> cells[i].value !in elements
  {
    if cells[i].inUse {
      var v := cells[i].value;
      StoredSplit(cells, i);
      StoredAt(cells[i..], 0);
      assert (base + Stored(cells))[v] >= (base + Stored(cells[..i]))[v] + 1;
      assert Count(base + Stored(cells), v) <= 1;
    }
  }

  class Set {
    var tableCap: nat
    const addLimit: int
    var table0: array<Cell>
    var table1: array<Cell>
    const hash0: int -> Hash
    const hash1: int -> Hash

    /** The stored elements: the values of the slots in use of both tables */
    function Elements(): multiset<int>
      reads this, table0, table1
    {
      Stored(table0[..]) + Stored(table1[..])
    }

    ghost predicate Valid()
      reads this, table0, table1
    {
      && 1 <= tableCap <= LongMax
      && table0.Length == tableCap && table1.Length == tableCap && table0 != table1
      && Inv(table0[..], table1[..], hash0, hash1)
    }

    /** Two tables of initCap slots, all marked not in use */
    constructor (initCap: nat, initAddLimit: int, h0: int -> Hash, h1: int -> Hash)
      requires 1 <= initCap <= LongMax
      ensures Valid() && Elements() == multiset{}
      ensures tableCap == initCap && addLimit == initAddLimit && hash0 == h0 && hash1 == h1
    {
      addLimit := initAddLimit;
      hash0, hash1 := h0, h1;
      table0, table1 := new Cell[0], new Cell[0];
      new;
      ClearTables(initCap);
    }

    /** The constructor whose displacement limit defaults to one round */
    constructor WithDefaultLimit(initCap: nat, h0: int -> Hash, h1: int -> Hash)
      requires 1 <= initCap <= LongMax
      ensures Valid() && Elements() == multiset{}
      ensures tableCap == initCap && addLimit == 1 && hash0 == h0 && hash1 == h1
    {
      addLimit := 1;
      hash0, hash1 := h0, h1;
      table0, table1 := new Cell[0], new Cell[0];
      new;
      ClearTables(initCap);
    }

    /** Fresh tables of n slots, none in use */
    method ClearTables(n: nat)
      requires 1 <= n <= LongMax
      modifies this
      ensures Valid() && Elements() == multiset{} && tableCap == n
      ensures fresh(table0) && fresh(table1)
    {
      tableCap := n;
      table0 := new Cell[n](_ => Free);
      table1 := new Cell[n](_ => Free);
      InvEmpty(table0[..], table1[..], hash0, hash1);
    }

    /** The allocation step of resize as the source writes it: the new
        tables of n slots are allocated, but, unlike in the constructor, their
        slots are not marked free; they hold whatever the memory held, given
        here as garbage0 and garbage1. */
    method AllocateAsWritten(n: nat, garbage0: seq<Cell>, garbage1: seq<Cell>)
      requires |garbage0| == n && |garbage1| == n
      modifies this
      ensures tableCap == n && table0[..] == garbage0 && table1[..] == garbage1
      ensures Elements() == Stored(garbage0) + Stored(garbage1)
      ensures fresh(table0) && fresh(table1)
    {
      tableCap := n;
      table0 := new Cell[n](i requires 0 <= i < n => garbage0[i]);
      table1 := new Cell[n](i requires 0 <= i < n => garbage1[i]);
      assert table0[..] == garbage0 && table1[..] == garbage1;
    }

    /** Adds x unless it is already stored; reports whether it was added.
        At the capacity ceiling, where the source's `2 * cap + 1` would
        overflow a long, elements that find no slot are handed back in
        `lost` instead of growing the tables. */
    method Add(x: int) returns (added: bool, lost: seq<int>)
      requires Valid()
      modifies this, table0, table1
      ensures Valid()
      ensures added == (x !in old(Elements()))
      ensures Elements() + multiset(lost) == old(Elements()) + (if added then multiset{x} else multiset{})
      ensures lost != [] ==> 2 * tableCap + 1 > LongMax
      ensures tableCap >= old(tableCap)
      ensures (table0 == old(table0) || fresh(table0)) && (table1 == old(table1) || fresh(table1))
      decreases LongMax - tableCap, 4
    {
      var present := Contains(x);
      added, lost := !present, [];
      if !present {
        ghost var target := Elements() + multiset{x};
        PutIn(Elements(), x);
        var placed, toAdd := Displace(x, target);
        if !placed {
          GiveUp(table0[..], table1[..], hash0, hash1, target, toAdd);
          lost := Grow(toAdd);
        }
      }
    }

    /** Displacement gave up carrying x: grows the tables and adds x again,
        or, at the capacity ceiling, hands x back. */
    method Grow(x: int) returns (lost: seq<int>)
      requires Valid() && x !in Elements()
      modifies this, table0, table1
      ensures Valid()
      ensures Elements() + multiset(lost) == old(Elements()) + multiset{x}
      ensures lost != [] ==> 2 * tableCap + 1 > LongMax
      ensures tableCap >= old(tableCap)
      ensures (table0 == old(table0) || fresh(table0)) && (table1 == old(table1) || fresh(table1))
      decreases LongMax - tableCap, 3
    {
      if 2 * tableCap + 1 <= LongMax {
        ghost var before := Elements();
        var lost1 := Resize();
        ghost var resized := Elements();
        var again, lost2 := Add(x);
        lost := lost1 + lost2;
        AddTotal(Elements(), resized, before, multiset(lost1), multiset(lost2), multiset{x});
      } else {
        lost := [x];
      }
    }

    /** The displacement rounds of insertion: up to addLimit times, put the
        carried element in the slot of its first hash in table 0; if that
        slot was in use, carry its occupant to the slot of its second hash
        in table 1; if that was in use too, carry that occupant on. Reports
        whether a free slot ended it, and otherwise the element still
        carried. */
    method Displace(x: int, ghost target: multiset<int>) returns (placed: bool, carried: int)
      requires 1 <= tableCap && table0.Length == tableCap && table1.Length == tableCap && table0 != table1
      requires Carrying(table0[..], table1[..], hash0, hash1, target, x) && Distinct(target)
      modifies table0, table1
      ensures placed ==> Inv(table0[..], table1[..], hash0, hash1) && Stored(table0[..]) + Stored(table1[..]) == target
      ensures !placed ==> Carrying(table0[..], table1[..], hash0, hash1, target, carried)
    {
      carried := x;
      var i := 0;
      while i < addLimit
        invariant Carrying(table0[..], table1[..], hash0, hash1, target, carried)
      {
        ghost var t0, t1 := table0[..], table1[..];
        SwapFirst(t0, t1, hash0, hash1, target, carried);
        var index0 := hash0(carried) % tableCap;
        var c0 := table0[index0];
        table0[index0] := Cell(carried, true);
        assert table0[..] == t0[index0 := Cell(carried, true)] && table1[..] == t1;
        if !c0.inUse {
          return true, carried;
        }
        carried := c0.value;
        t0 := table0[..];
        SwapSecond(t0, t1, hash0, hash1, target, carried);
        var index1 := hash1(carried) % tableCap;
        var c1 := table1[index1];
        table1[index1] := Cell(carried, true);
        assert table1[..] == t1[index1 := Cell(carried, true)] && table0[..] == t0;
        if !c1.inUse {
          return true, carried;
        }
        carried := c1.value;
        i := i + 1;
      }
      return false, carried;
    }

    /** Grows the capacity to 2 * cap + 1 and re-adds every element, those
        of table 1 first and then those of table 0. */
    method Resize() returns (lost: seq<int>)
      requires Valid() && 2 * tableCap + 1 <= LongMax
      modifies this
      ensures Valid() && Elements() + multiset(lost) == old(Elements())
      ensures tableCap >= 2 * old(tableCap) + 1 && fresh(table0) && fresh(table1)
      ensures lost != [] ==> 2 * tableCap + 1 > LongMax
      decreases LongMax - tableCap, 2
    {
      var old0, old1 := table0[..], table1[..];
      ghost var n := tableCap;
      ClearTables(2 * tableCap + 1);
      ResizeDistinct(Stored(old0), Stored(old1), Elements(), multiset{});
      var lost1 := ReAdd(old1, n);
      ghost var between := Elements();
      ResizeDistinct(Stored(old0), Stored(old1), between, multiset(lost1));
      var lost0 := ReAdd(old0, n);
      lost := lost1 + lost0;
      ResizeTotal(Stored(old0), Stored(old1), between, Elements(), multiset(lost1), multiset(lost0));
    }

    /** Re-adds, front to back, the values of the slots in use of one table
        a resize is replacing; none of them is stored yet. */
    method ReAdd(cells: seq<Cell>, ghost n: nat) returns (lost: seq<int>)
      requires Valid() && tableCap > n
      requires Distinct(Elements() + Stored(cells))
      modifies this, table0, table1
      ensures Valid() && Elements() + multiset(lost) == old(Elements()) + Stored(cells)
      ensures tableCap >= old(tableCap)
      ensures (table0 == old(table0) || fresh(table0)) && (table1 == old(table1) || fresh(table1))
      ensures lost != [] ==> 2 * tableCap + 1 > LongMax
      decreases LongMax - n, 1
    {
      lost := [];
      ghost var base := Elements();
      var i := 0;
      while i < |cells|
        invariant 0 <= i <= |cells|
        invariant Valid() && tableCap >= old(tableCap)
        invariant (table0 == old(table0) || fresh(table0)) && (table1 == old(table1) || fresh(table1))
        invariant Elements() + multiset(lost) == base + Stored(cells[..i])
        invariant lost != [] ==> 2 * tableCap + 1 > LongMax
      {
        lost := ReAddCell(cells, i, base, lost, n);
        i := i + 1;
      }
      assert cells[..i] == cells;
    }

    /** The body of the re-adding loops: adds the value of slot i if it is
        in use, extending what has been handed back so far. */
    method ReAddCell(cells: seq<Cell>, i: nat, ghost base: multiset<int>, lostSoFar: seq<int>, ghost n: nat)
      returns (lost: seq<int>)
      requires Valid() && tableCap > n && i < |cells|
      requires Elements() + multiset(lostSoFar) == base + Stored(cells[..i]) && Distinct(base + Stored(cells))
      requires lostSoFar != [] ==> 2 * tableCap + 1 > LongMax
      modifies this, table0, table1
      ensures Valid() && Elements() + multiset(lost) == base + Stored(cells[..i + 1])
      ensures tableCap >= old(tableCap)
      ensures (table0 == old(table0) || fresh(table0)) && (table1 == old(table1) || fresh(table1))
      ensures lost != [] ==> 2 * tableCap + 1 > LongMax
      decreases LongMax - n, 0
    {
      ghost var e := Elements();
      ReAddFresh(e, lostSoFar, base, cells, i);
      var more := [];
      if cells[i].inUse {
        var added;
        added, more := Add(cells[i].value);
      }
      ReAddStep(Elements(), e, base, lostSoFar, more, cells, i);
      lost := lostSoFar + more;
    }

    /** Clears the slot holding x, trying table 0 first; reports whether x
        was stored. */
    method Remove(x: int) returns (removed: bool)
      requires Valid()
      modifies table0, table1
      ensures Valid()
      ensures removed == (x in old(Elements()))
      ensures Elements() == old(Elements()) - multiset{x} && x !in Elements()
    {
      ghost var t0, t1 := table0[..], table1[..];
      InvMember(t0, t1, hash0, hash1, x);
      removed := false;
      var index0 := hash0(x) % tableCap;
      if table0[index0].inUse && table0[index0].value == x {
        VacateFirst(t0, t1, hash0, hash1, index0);
        table0[index0] := table0[index0].(inUse := false);
        assert table0[..] == t0[index0 := t0[index0].(inUse := false)] && table1[..] == t1;
        removed := true;
      } else {
        var index1 := hash1(x) % tableCap;
        if table1[index1].inUse && table1[index1].value == x {
          VacateSecond(t0, t1, hash0, hash1, index1);
          table1[index1] := table1[index1].(inUse := false);
          assert table1[..] == t1[index1 := t1[index1].(inUse := false)] && table0[..] == t0;
          removed := true;
        } else {
          TakeNone(Elements(), x);
        }
      }
    }

    /** Looks at x's slot in table 0, then at its slot in table 1. */
    method Contains(x: int) returns (found: bool)
      requires Valid()
      ensures found == (x in Elements())
    {
      InvMember(table0[..], table1[..], hash0, hash1, x);
      var index0 := hash0(x) % tableCap;
      if table0[index0].inUse {
        if table0[index0].value == x {
          return true;
        }
      }
      var index1 := hash1(x) % tableCap;
      if table1[index1].inUse {
        if table1[index1].value == x {
          return true;
        }
      }
      return false;
    }

    /** Counts the slots in use of both tables: the number of elements. */
    method Size() returns (total: nat)
      requires Valid()
      ensures total == |Elements()|
    {
      var count0 := CountInUse(table0);
      var count1 := CountInUse(table1);
      total := count0 + count1;
    }
  }

  /** An empty set of capacity 1 grows to capacity 3 the way the source's
      resize allocates: when the fresh memory of table 0 happens to hold a
      slot marked in use with value 7, the set reports 7 as an element
      although it was never added. */
  method GarbageScenario(h0: int -> Hash, h1: int -> Hash) returns (before: multiset<int>, after: multiset<int>)
    ensures before == multiset{} && 7 in after
  {
    var s := new Set(1, 1, h0, h1);
    before := s.Elements();
    var garbage := [Cell(7, true), Free, Free];
    s.AllocateAsWritten(3, garbage, [Free, Free, Free]);
    StoredAt(garbage, 0);
    after := s.Elements();
  }

  /** One of size's two loops: the number of slots in use of a table */
  method CountInUse(t: array<Cell>) returns (count: nat)
    ensures count == |Stored(t[..])|
  {
    count := 0;
    var i := 0;
    while i < t.Length
      invariant 0 <= i <= t.Length
      invariant count == |Stored(t[..i])|
    {
      StoredPrefix(t[..], i);
      if t[i].inUse {
        count := count + 1;
      }
      i := i + 1;
    }
    assert t[..i] == t[..];
  }
}
