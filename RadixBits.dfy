/** The bit helpers and node constructors of the radix trie in
    `experiment/radix_trie.cpp`, with `K = int` as the driver instantiates
    it: 32-bit two's-complement keys whose bits are counted from the most
    significant one. The trie's own insertion and removal are left out. */
module RadixBits {
  import opened MathUtil

  /** `sizeof(K) * 8` for 32-bit `int` keys */
  const KBits: nat := 32
  /** 2^32, the count of 32-bit bit patterns */
  const KeyRange: nat := 0x1_0000_0000

  /** A 32-bit signed `int` */
  type Key = k: int | -0x8000_0000 <= k < 0x8000_0000

  /** The key's two's-complement bit pattern, as an unsigned value */
  function Word(key: int): (r: nat)
    ensures r < Pow2(KBits)
  {
    Pow2Of32();
    key % KeyRange
  }

  /** A non-negative key is its own pattern; a negative one wraps by 2^32. */
  lemma WordOf(key: Key)
    ensures Word(key) == if key >= 0 then key else key + KeyRange
  {
    if key >= 0 {
      DivModUnique(key, KeyRange, 0, key);
    } else {
      DivModUnique(key, KeyRange, -1, key + KeyRange);
    }
  }

  /** Distinct keys have distinct patterns. */
  lemma WordInjective(a: Key, b: Key)
    ensures Word(a) == Word(b) <==> a == b
  {
    WordOf(a);
    WordOf(b);
  }

  // ---- the reference reading of a pattern -----------------------------------

  /** The low len bits of w, most significant first */
  function Bits(w: nat, len: nat): (r: seq<nat>)
    ensures |r| == len
  {
    if len == 0 then [] else Bits(w / 2, len - 1) + [w % 2]
  }

  /** The number a sequence of binary digits spells, most significant first */
  function Value(bs: seq<nat>): nat
  {
    if bs == [] then 0 else 2 * Value(bs[..|bs| - 1]) + bs[|bs| - 1]
  }

  /** Reading back the low len bits of a value below 2^len gives the value. */
  lemma {:induction false} ValueOfBits(w: nat, len: nat)
    requires w < Pow2(len)
    ensures Value(Bits(w, len)) == w
  {
    if len > 0 {
      var bs := Bits(w, len);
      assert bs[..|bs| - 1] == Bits(w / 2, len - 1);
      ValueOfBits(w / 2, len - 1);
    }
  }

  /** Digit n of Bits(w, len) is w shifted right by len - 1 - n, masked. */
  lemma {:induction false} BitsIndex(w: nat, len: nat, n: nat)
    requires n < len
    ensures Bits(w, len)[n] == w / Pow2(len - 1 - n) % 2
  {
    if n < len - 1 {
      BitsIndex(w / 2, len - 1, n);
      DivDiv(w, 2, Pow2(len - 2 - n));
    }
  }

  // ---- get_nth_bit -------------------------------------------------------------

  /** `get_nth_bit`: `(key >> (31 - n)) & 1`. Masking the low bit after an
      arithmetic shift by at most 31 reads bit 31 - n of the pattern, so
      the sign extension of a negative key never shows. */
  function NthBit(key: int, n: nat): (r: nat)
    requires n < KBits
    ensures r <= 1
    ensures r == Bits(Word(key), KBits)[n]
  {
    ShiftRightDiv(Word(key), KBits - 1 - n);
    BitsIndex(Word(key), KBits, n);
    ShiftRight(Word(key), KBits - 1 - n) % 2
  }

  /** Bit 0 is the top bit: set exactly for negative keys. */
  lemma TopBitIsSign(key: Key)
    ensures NthBit(key, 0) == 1 <==> key < 0
  {
    WordOf(key);
    Pow2Of32();
    assert Pow2(32) == 2 * Pow2(31);
    var w := Word(key);
    ShiftRightDiv(w, 31);
    if key >= 0 {
      DivModUnique(w, Pow2(31), 0, w);
    } else {
      DivModUnique(w, Pow2(31), 1, w - Pow2(31));
    }
  }

  /** Bit 31 is the lowest bit: the key's parity. */
  lemma LastBitIsParity(key: Key)
    ensures NthBit(key, KBits - 1) == key % 2
  {
    WordOf(key);
    if key < 0 {
      DivModUnique(key, 2, (key + KeyRange) / 2 - KeyRange / 2, (key + KeyRange) % 2);
    }
  }

  /** Two keys are equal exactly when all 32 bits agree. */
  lemma SameKeyIffBits(a: Key, b: Key)
    ensures a == b <==> forall n :: 0 <= n < KBits ==> NthBit(a, n) == NthBit(b, n)
  {
    if forall n :: 0 <= n < KBits ==> NthBit(a, n) == NthBit(b, n) {
      var ba, bb := Bits(Word(a), KBits), Bits(Word(b), KBits);
      forall n | 0 <= n < KBits
        ensures ba[n] == bb[n]
      {
        assert NthBit(a, n) == NthBit(b, n);
      }
      assert ba == bb;
      ValueOfBits(Word(a), KBits);
      ValueOfBits(Word(b), KBits);
      WordInjective(a, b);
    }
  }

  // ---- greatest_commmon_prefix ---------------------------------------------------

  /** The first position from i on where the bits of a and b differ, and 0
      when they agree on all of them */
  function FirstDiff(a: Key, b: Key, i: nat): (r: nat)
    requires i <= KBits
    decreases KBits - i
    ensures r < KBits
    ensures (forall n :: i <= n < KBits ==> NthBit(a, n) == NthBit(b, n)) ==> r == 0
    ensures (exists n :: i <= n < KBits && NthBit(a, n) != NthBit(b, n)) ==>
      && i <= r && NthBit(a, r) != NthBit(b, r)
      && forall n :: i <= n < r ==> NthBit(a, n) == NthBit(b, n)
  {
    if i == KBits then 0
    else if NthBit(a, i) != NthBit(b, i) then i
    else FirstDiff(a, b, i + 1)
  }

  /** What `greatest_commmon_prefix(a, b)` returns */
  function Gcp(a: Key, b: Key): nat
  {
    FirstDiff(a, b, 0)
  }

  /** `greatest_commmon_prefix`: the MSB-first loop over the 32 bit
      positions, returning at the first that differs and 0 after the loop. */
  method GreatestCommonPrefix(key: Key, prefix: Key) returns (r: nat)
    ensures r == Gcp(key, prefix)
  {
    var len := KBits;
    for i := 0 to len
      invariant FirstDiff(key, prefix, i) == Gcp(key, prefix)
    {
      var j := NthBit(key, i);
      var k := NthBit(prefix, i);
      if j != k {
        return i;
      }
    }
    return 0;
  }

  /** For different keys the result is the first differing bit, with all
      earlier bits shared; for equal keys it is 0. */
  lemma GcpIsFirstDifference(a: Key, b: Key)
    ensures Gcp(a, b) < KBits
    ensures a != b <==> NthBit(a, Gcp(a, b)) != NthBit(b, Gcp(a, b))
    ensures forall n :: 0 <= n < Gcp(a, b) ==> NthBit(a, n) == NthBit(b, n)
    ensures a == b ==> Gcp(a, b) == 0
  {
    SameKeyIffBits(a, b);
  }

  /** The result does not depend on the order of the arguments. */
  lemma GcpSymmetric(a: Key, b: Key)
    ensures Gcp(a, b) == Gcp(b, a)
  {
    var r, s := Gcp(a, b), Gcp(b, a);
    if exists n :: 0 <= n < KBits && NthBit(a, n) != NthBit(b, n) {
      var m :| 0 <= m < KBits && NthBit(a, m) != NthBit(b, m);
      assert NthBit(b, m) != NthBit(a, m);
      assert NthBit(a, r) != NthBit(b, r) && NthBit(b, s) != NthBit(a, s);
    }
  }

  /** Where two different keys first differ, the second has the opposite
      bit of the first. */
  lemma OppositeAtGcp(a: Key, b: Key)
    requires a != b
    ensures NthBit(b, Gcp(a, b)) == 1 - NthBit(a, Gcp(a, b))
  {
    GcpIsFirstDifference(a, b);
  }

  /** Equal keys give 0, which is also what keys differing in the top bit
      give: the result alone does not tell the two apart. */
  lemma GcpZeroAmbiguous(a: Key, b: Key)
    requires NthBit(a, 0) != NthBit(b, 0)
    ensures Gcp(a, a) == Gcp(a, b) == 0
  {
  }

  // ---- the nodes -----------------------------------------------------------------

  /** The `INNER` and `LEAF` type tags */
  datatype NodeType = Inner | Leaf

  /** A trie node: the `node` header with the `inode` fields (prefix length,
      two children) and the `leaf` value */
  class Node {
    var kind: NodeType
    var key: Key
    var value: int
    var prefixLen: int
    var children: array<Node?>

    /** `new_node`: a value-initialised node of the given type and key */
    constructor (kind: NodeType, key: Key)
      ensures this.kind == kind && this.key == key && value == 0 && prefixLen == 0
      ensures fresh(children) && children.Length == 2 && children[0] == null && children[1] == null
    {
      this.kind := kind;
      this.key := key;
      value := 0;
      prefixLen := 0;
      children := new Node?[2](_ => null);
    }
  }

  /** `new_leaf` */
  method NewLeaf(key: Key, value: int) returns (l: Node)
    ensures fresh(l) && fresh(l.children)
    ensures l.kind == Leaf && l.key == key && l.value == value
  {
    l := new Node(Leaf, key);
    l.value := value;
  }

  /** `new_inode`: an inner node with prefix length and children l, r */
  method NewInode(key: Key, prefixLen: int, l: Node?, r: Node?) returns (i: Node)
    ensures fresh(i) && fresh(i.children)
    ensures i.kind == Inner && i.key == key && i.prefixLen == prefixLen
    ensures i.children.Length == 2 && i.children[0] == l && i.children[1] == r
  {
    i := new Node(Inner, key);
    i.prefixLen := prefixLen;
    i.children[0] := l;
    i.children[1] := r;
  }

  /** `inode_split`: an inner node at prefix length gcp holding a new leaf
      for (key, val) on the side of the key's bit gcp and n on the other.
      When gcp is where key and n's key first differ, n lands on the side
      of its own bit. */
  method InodeSplit(n: Node?, gcp: nat, key: Key, val: int) returns (i: Node)
    requires gcp < KBits
    ensures fresh(i) && fresh(i.children)
    ensures i.kind == Inner && i.key == key && i.prefixLen == gcp && i.children.Length == 2
    ensures var side := NthBit(key, gcp);
      && i.children[1 - side] == n
      && i.children[side] != null && fresh(i.children[side])
      && i.children[side].kind == Leaf && i.children[side].key == key && i.children[side].value == val
    ensures n != null && n.key != key && gcp == Gcp(key, n.key) ==> i.children[NthBit(n.key, gcp)] == n
  {
    if n != null && n.key != key && gcp == Gcp(key, n.key) {
      OppositeAtGcp(key, n.key);
    }
    var l := NewLeaf(key, val);
    if NthBit(key, gcp) == 1 {
      i := NewInode(key, gcp, n, l);
    } else {
      i := NewInode(key, gcp, l, n);
    }
  }
}
